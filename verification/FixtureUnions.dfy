/** The union fixtures: several `or!` arms over one variable, with decoys and
with overlap. */
module FixtureUnions {
  import opened Powers
  import opened Patterns
  import opened Components
  import opened Minting
  import opened Fixtures

  /** An arm matches entities with this attribute and this literal value. */
  datatype Arm = Arm(a: Term, v: Term)

  function ArmQuery(arm: Arm): Pattern {
    [Clause(Var(0), Const(arm.a), Const(arm.v))]
  }

  /** `or!`: every row of some arm, once. */
  function AnyArm(facts: Facts, arms: seq<Arm>): set<Row> {
    set arm, r | arm in arms && r in Query(facts, ArmQuery(arm)) :: r
  }

  function Entity(e: Term): Row {
    map[0 := e]
  }

  lemma ArmRows(facts: Facts, arm: Arm, row: Row)
    ensures row in Query(facts, ArmQuery(arm)) <==>
              exists e :: row == Entity(e) && Triple(e, arm.a, arm.v) in facts
  {
    hide Query;
    var p := ArmQuery(arm);
    QueryHolds(facts, p, row);
    assert p[1..] == [] && Vars(p) == {0};
    if HoldsAll(p, row, facts) {
      assert Holds(p[0], row, facts);
      var t :| t in facts && ClauseIs(p[0], row, t);
      assert row == Entity(t.e) && Triple(t.e, arm.a, arm.v) == t;
    }
    forall e | row == Entity(e) && Triple(e, arm.a, arm.v) in facts
      ensures HoldsAll(p, row, facts)
    {
      assert ClauseIs(p[0], row, Triple(e, arm.a, arm.v));
    }
  }

  /** An entity is a row exactly when it carries the edge of some arm. */
  lemma AnyArmRows(facts: Facts, arms: seq<Arm>, row: Row)
    ensures row in AnyArm(facts, arms) <==>
              exists e, arm :: arm in arms && row == Entity(e) && Triple(e, arm.a, arm.v) in facts
  {
    hide Query;
    forall arm | arm in arms
      ensures row in Query(facts, ArmQuery(arm)) <==>
                exists e :: row == Entity(e) && Triple(e, arm.a, arm.v) in facts
    {
      ArmRows(facts, arm, row);
    }
  }

  /** One more edge adds its entity if it is the edge of an arm, else nothing. */
  lemma EdgeAdded(facts: Facts, arms: seq<Arm>, t: Triple)
    ensures AnyArm(facts + {t}, arms)
         == AnyArm(facts, arms) + if Arm(t.a, t.v) in arms then {Entity(t.e)} else {}
  {
    hide Query, AnyArm;
    forall row
      ensures row in AnyArm(facts + {t}, arms) <==>
                row in AnyArm(facts, arms) || (row == Entity(t.e) && Arm(t.a, t.v) in arms)
    {
      AnyArmRows(facts, arms, row);
      AnyArmRows(facts + {t}, arms, row);
    }
  }

  /** An entity without edges is no row. */
  lemma NotARow(facts: Facts, arms: seq<Arm>, e: Term)
    requires forall t :: t in facts ==> t.e != e
    ensures Entity(e) !in AnyArm(facts, arms)
  {
    hide Query, AnyArm;
    AnyArmRows(facts, arms, Entity(e));
    assert forall f :: Entity(f) == Entity(e) ==> f == e by {
      assert forall f :: Entity(f)[0] == f;
    }
  }

  ghost predicate EntitiesMinted(facts: Facts, next: nat) {
    forall t :: t in facts ==> t.e in MintedRange(1, next)
  }

  ghost predicate Hits(edges: seq<Arm>, arms: seq<Arm>) {
    exists edge :: edge in edges && edge in arms
  }

  /** One fresh entity with the edges to the arms `edges`. */
  method AddEntity(ids: Ids, edges: seq<Arm>, set0: Facts) returns (facts: Facts)
    requires 1 <= ids.next && ids.next + 1 < WORD_SIZE && EntitiesMinted(set0, ids.next)
    modifies ids
    ensures ids.next == old(ids.next) + 1 && EntitiesMinted(facts, ids.next)
    ensures forall arms :: |AnyArm(facts, arms)| == |AnyArm(set0, arms)| + if Hits(edges, arms) then 1 else 0
  {
    hide Query, AnyArm, Minted;
    var e := ids.Mint();
    facts := set0;
    assert e in MintedRange(1, ids.next);
    for i := 0 to |edges|
      invariant ids.next == old(ids.next) + 1 && EntitiesMinted(facts, ids.next)
      invariant forall arms :: AnyArm(facts, arms)
                               == AnyArm(set0, arms) + if Hits(edges[..i], arms) then {Entity(e)} else {}
    {
      ghost var before := facts;
      facts := facts + {Triple(e, edges[i].a, edges[i].v)};
      forall arms
        ensures AnyArm(facts, arms) == AnyArm(set0, arms) + if Hits(edges[..i + 1], arms) then {Entity(e)} else {}
      {
        EdgeAdded(before, arms, Triple(e, edges[i].a, edges[i].v));
        HitsNext(edges, arms, i);
      }
    }
    assert edges[..|edges|] == edges;
    forall arms
      ensures Entity(e) !in AnyArm(set0, arms)
    {
      NotARow(set0, arms, e);
    }
  }

  lemma HitsNext(edges: seq<Arm>, arms: seq<Arm>, i: nat)
    requires i < |edges|
    ensures Hits(edges[..i + 1], arms) <==> Hits(edges[..i], arms) || Arm(edges[i].a, edges[i].v) in arms
  {
    assert edges[..i + 1] == edges[..i] + [edges[i]];
    assert edges[i] == Arm(edges[i].a, edges[i].v);
    assert forall edge :: edge in edges[..i + 1] <==> edge in edges[..i] || edge == edges[i];
  }

  method AddEntities(ids: Ids, count: nat, edges: seq<Arm>, set0: Facts) returns (facts: Facts)
    requires 1 <= ids.next && ids.next + count < WORD_SIZE && EntitiesMinted(set0, ids.next)
    modifies ids
    ensures ids.next == old(ids.next) + count && EntitiesMinted(facts, ids.next)
    ensures forall arms :: |AnyArm(facts, arms)| == |AnyArm(set0, arms)| + if Hits(edges, arms) then count else 0
  {
    hide AnyArm, EntitiesMinted, Hits;
    facts := set0;
    for i := 0 to count
      invariant ids.next == old(ids.next) + i && EntitiesMinted(facts, ids.next)
      invariant forall arms :: |AnyArm(facts, arms)| == |AnyArm(set0, arms)| + if Hits(edges, arms) then i else 0
    {
      facts := AddEntity(ids, edges, facts);
    }
  }

  lemma NoRows(arms: seq<Arm>)
    ensures AnyArm({}, arms) == {} && EntitiesMinted({}, 1)
  {
    hide Query, AnyArm;
    forall row
      ensures row !in AnyArm({}, arms)
    {
      AnyArmRows({}, arms, row);
    }
  }

  // ---- the fan ----

  /** Arm `j` looks for the anchor `j`; its decoys carry the anchor `8 + j`. */
  function FanArms(attributes: seq<Term>): (arms: seq<Arm>)
    ensures |arms| == |attributes|
    ensures forall j :: 0 <= j < |arms| ==> arms[j] == Arm(attributes[j], Anchor(j))
  {
    seq(|attributes|, j requires 0 <= j < |attributes| => Arm(attributes[j], Anchor(j)))
  }

  function DecoyArms(attributes: seq<Term>): (arms: seq<Arm>)
    ensures |arms| == |attributes|
    ensures forall j :: 0 <= j < |arms| ==> arms[j] == Arm(attributes[j], Anchor(8 + j))
  {
    seq(|attributes|, j requires 0 <= j < |attributes| => Arm(attributes[j], Anchor(8 + j)))
  }

  /** A decoy is no arm, its value is no arm's literal, and the reverse. */
  lemma DecoyIsNoArm(attributes: seq<Term>, j: nat)
    requires j < |attributes| <= 8
    ensures Hits([Arm(attributes[j], Anchor(j))], FanArms(attributes))
    ensures Hits([Arm(attributes[j], Anchor(8 + j))], DecoyArms(attributes))
    ensures !Hits([Arm(attributes[j], Anchor(8 + j))], FanArms(attributes))
    ensures !Hits([Arm(attributes[j], Anchor(j))], DecoyArms(attributes))
  {
    hide Anchor, Minted;
    var hub, decoy := Arm(attributes[j], Anchor(j)), Arm(attributes[j], Anchor(8 + j));
    assert hub == FanArms(attributes)[j] && hub in [hub];
    assert decoy == DecoyArms(attributes)[j] && decoy in [decoy];
    forall k | 0 <= k < |attributes|
      ensures FanArms(attributes)[k] != decoy && DecoyArms(attributes)[k] != hub
    {
      MintedDistinct(k, 8 + j);
      MintedDistinct(8 + k, j);
    }
  }

  /** Arms times entities; the decoys are there and contribute nothing. */
  method BuildUnionFan(attributes: seq<Term>, perArm: nat, decoys: nat) returns (facts: Facts)
    requires |attributes| <= 8
    requires |attributes| * (perArm + decoys) + 1 < WORD_SIZE
    ensures |AnyArm(facts, FanArms(attributes))| == |attributes| * perArm
    ensures |AnyArm(facts, DecoyArms(attributes))| == |attributes| * decoys
  {
    hide AnyArm, EntitiesMinted, FanArms, DecoyArms, Anchor;
    var ids := new Ids();
    facts := {};
    NoRows(FanArms(attributes));
    NoRows(DecoyArms(attributes));
    for j := 0 to |attributes|
      invariant fresh(ids) && ids.next == 1 + j * (perArm + decoys)
      invariant EntitiesMinted(facts, ids.next)
      invariant |AnyArm(facts, FanArms(attributes))| == j * perArm
      invariant |AnyArm(facts, DecoyArms(attributes))| == j * decoys
    {
      FanRoom(j, |attributes|, perArm, decoys);
      facts := AddArm(ids, attributes, j, perArm, decoys, facts);
    }
  }

  /** The entities and the decoys of arm `j`. */
  method AddArm(ids: Ids, attributes: seq<Term>, j: nat, perArm: nat, decoys: nat, set0: Facts)
    returns (facts: Facts)
    requires j < |attributes| <= 8
    requires 1 <= ids.next && ids.next + perArm + decoys < WORD_SIZE && EntitiesMinted(set0, ids.next)
    modifies ids
    ensures ids.next == old(ids.next) + perArm + decoys && EntitiesMinted(facts, ids.next)
    ensures |AnyArm(facts, FanArms(attributes))| == |AnyArm(set0, FanArms(attributes))| + perArm
    ensures |AnyArm(facts, DecoyArms(attributes))| == |AnyArm(set0, DecoyArms(attributes))| + decoys
  {
    hide AnyArm, EntitiesMinted, Anchor, FanArms, DecoyArms, Hits;
    DecoyIsNoArm(attributes, j);
    facts := AddEntities(ids, perArm, [Arm(attributes[j], Anchor(j))], set0);
    facts := AddEntities(ids, decoys, [Arm(attributes[j], Anchor(8 + j))], facts);
  }

  lemma FanRoom(j: nat, n: nat, perArm: nat, decoys: nat)
    requires j < n
    ensures j * (perArm + decoys) + perArm + decoys == (j + 1) * (perArm + decoys) <= n * (perArm + decoys)
    ensures j * perArm + perArm == (j + 1) * perArm && j * decoys + decoys == (j + 1) * decoys
  {
    Room(j, n, perArm + decoys);
    Room(j, n, perArm);
    Room(j, n, decoys);
  }

  // ---- the overlapping union ----

  const UA: Term := 0x32697C0766C902A3A6BEA17656631E5F
  const UB: Term := 0xCBF362B65F450B457B32C05C5198868F

  function OverlapArms(): seq<Arm> {
    [Arm(UA, Anchor(26)), Arm(UB, Anchor(26))]
  }

  /** Entities on both arms count once. */
  method BuildUnionDedup(both: nat, only: nat) returns (facts: Facts)
    requires both + 2 * only + 1 < WORD_SIZE
    ensures |AnyArm(facts, OverlapArms())| == both + 2 * only
    ensures |AnyArm(facts, OverlapArms()[..1])| == both + only
    ensures |AnyArm(facts, OverlapArms()[1..])| == both + only
  {
    hide AnyArm, EntitiesMinted, Hits, Anchor, OverlapArms;
    var ids := new Ids();
    var arms := OverlapArms();
    facts := {};
    OverlapHits();
    NoRows(arms);
    NoRows(arms[..1]);
    NoRows(arms[1..]);
    facts := AddEntities(ids, both, arms, facts);
    facts := AddEntities(ids, only, arms[..1], facts);
    facts := AddEntities(ids, only, arms[1..], facts);
  }

  lemma OverlapHits()
    ensures var arms := OverlapArms();
            && |arms| == 2
            && Hits(arms, arms) && Hits(arms, arms[..1]) && Hits(arms, arms[1..])
            && Hits(arms[..1], arms) && Hits(arms[..1], arms[..1]) && !Hits(arms[..1], arms[1..])
            && Hits(arms[1..], arms) && !Hits(arms[1..], arms[..1]) && Hits(arms[1..], arms[1..])
  {
    hide Anchor;
    var arms := OverlapArms();
    assert arms[..1] == [arms[0]] && arms[1..] == [arms[1]] && arms[0] != arms[1];
    assert arms[0] in arms && arms[1] in arms && arms[0] in arms[..1] && arms[1] in arms[1..];
  }
}
