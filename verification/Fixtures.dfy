/** The fixture builders with their sizes as parameters, and the exact number of
rows their queries have over what they build. */
module Fixtures {
  import opened Patterns
  import opened Components
  import opened Minting

  // ---- minted nodes ----

  /** The identifiers minted for the counters `lo .. hi`. */
  function MintedRange(lo: nat, hi: nat): set<Term> {
    set c | lo <= c < hi :: Minted(c)
  }

  lemma RangesApart(lo: nat, mid: nat, hi: nat)
    requires lo <= mid <= hi < WORD_SIZE
    ensures MintedRange(lo, mid) !! MintedRange(mid, hi)
  {
    hide Minted;
    forall c, d | lo <= c < mid && mid <= d < hi
      ensures Minted(c) != Minted(d)
    {
      MintedDistinct(c, d);
    }
  }

  lemma NodesAdded(f: Facts, g: Facts)
    ensures Nodes(f + g) == Nodes(f) + Nodes(g)
  {
  }

  /** Adding a freshly minted piece adds its rows. */
  lemma FreshPiece(f: Facts, g: Facts, p: Pattern, mid: nat, hi: nat)
    requires Connected(p) && 1 <= mid <= hi < WORD_SIZE
    requires Nodes(f) <= MintedRange(1, mid) && Nodes(g) <= MintedRange(mid, hi)
    ensures |Query(f + g, p)| == |Query(f, p)| + |Query(g, p)|
    ensures Nodes(f + g) <= MintedRange(1, hi)
  {
    hide Query, Nodes, Minted, Connected;
    RangesApart(1, mid, hi);
    RowsAddUp(f, g, p);
    NodesAdded(f, g);
  }

  lemma NothingFound(p: Pattern)
    requires p != []
    ensures Query({}, p) == {} && Nodes({}) == {}
  {
    forall row
      ensures row !in Query({}, p)
    {
      QueryHolds({}, p, row);
      assert !Holds(p[0], row, {});
    }
  }

  /** `base` with each of `ys` bound to `n`. */
  function Fanned(base: Row, n: Name, ys: set<Term>): set<Row> {
    set y | y in ys :: base[n := y]
  }

  lemma {:induction false} OneRowEach(base: Row, n: Name, ys: set<Term>)
    ensures |Fanned(base, n, ys)| == |ys|
    decreases |ys|
  {
    if ys != {} {
      var z :| z in ys;
      OneRowEach(base, n, ys - {z});
      forall y | y in ys - {z}
        ensures base[n := y] != base[n := z]
      {
        assert base[n := y][n] == y && base[n := z][n] == z;
      }
      assert ys == (ys - {z}) + {z};
      assert Fanned(base, n, ys) == Fanned(base, n, ys - {z}) + {base[n := z]};
      assert base[n := z] !in Fanned(base, n, ys - {z});
    }
  }

  /** Two clauses: a row is a pair of triples. */
  lemma TwoClauses(facts: Facts, c: Clause, d: Clause, row: Row)
    ensures row in Query(facts, [c, d]) <==>
              row.Keys == ClauseVars(c) + ClauseVars(d) && Holds(c, row, facts) && Holds(d, row, facts)
  {
    hide Query, Holds, ClauseVars;
    var p := [c, d];
    QueryHolds(facts, p, row);
    assert p[1..] == [d] && [d][1..] == [];
    assert Vars(p) == ClauseVars(c) + Vars([d]);
    assert Vars([d]) == ClauseVars(d) + Vars([]);
    assert p[0] == c && p[1] == d;
  }

  // ---- fans ----

  function Edges(e: Term, a: Term, ys: set<Term>): Facts {
    set y | y in ys :: Triple(e, a, y)
  }

  /** `count` edges from `e` to fresh nodes. */
  method AddFan(ids: Ids, e: Term, a: Term, count: nat, set0: Facts) returns (facts: Facts, ghost ys: set<Term>)
    requires 1 <= ids.next && ids.next + count < WORD_SIZE
    modifies ids
    ensures ids.next == old(ids.next) + count
    ensures facts == set0 + Edges(e, a, ys)
    ensures ys <= MintedRange(old(ids.next), ids.next) && |ys| == count
  {
    hide Minted;
    facts := set0;
    ys := {};
    for i := 0 to count
      invariant ids.next == old(ids.next) + i
      invariant facts == set0 + Edges(e, a, ys)
      invariant ys <= MintedRange(old(ids.next), ids.next) && |ys| == i
    {
      var y := ids.Mint();
      facts := facts + {Triple(e, a, y)};
      ys := ys + {y};
    }
  }

  // ---- the diamond ----

  const DA: Term := 0xE73DC5D12C49394D3C6D883A152E57C9
  const DB: Term := 0xC41A8C9EC883E09D34C86F87C15EA965

  const DIAMOND_QUERY: Pattern := [Clause(Var(0), Const(DA), Var(1)), Clause(Var(0), Const(DB), Var(2))]

  function Diamond(e: Term, x: Term, ys: set<Term>): Facts {
    {Triple(e, DA, x)} + Edges(e, DB, ys)
  }

  lemma DiamondRows(e: Term, x: Term, ys: set<Term>)
    ensures |Query(Diamond(e, x, ys), DIAMOND_QUERY)| == |ys|
  {
    hide Query;
    var facts := Diamond(e, x, ys);
    var base: Row := map[0 := e, 1 := x];
    forall row
      ensures row in Query(facts, DIAMOND_QUERY) <==> row in Fanned(base, 2, ys)
    {
      DiamondRow(e, x, ys, row);
    }
    assert Query(facts, DIAMOND_QUERY) == Fanned(base, 2, ys);
    OneRowEach(base, 2, ys);
  }

  lemma DiamondRow(e: Term, x: Term, ys: set<Term>, row: Row)
    ensures row in Query(Diamond(e, x, ys), DIAMOND_QUERY) <==>
              exists y :: y in ys && row == map[0 := e, 1 := x][2 := y]
  {
    hide Query;
    var facts := Diamond(e, x, ys);
    TwoClauses(facts, DIAMOND_QUERY[0], DIAMOND_QUERY[1], row);
    assert DIAMOND_QUERY == [DIAMOND_QUERY[0], DIAMOND_QUERY[1]];
    if row in Query(facts, DIAMOND_QUERY) {
      var t :| t in facts && ClauseIs(DIAMOND_QUERY[0], row, t);
      var u :| u in facts && ClauseIs(DIAMOND_QUERY[1], row, u);
      assert row == map[0 := e, 1 := x][2 := u.v];
    }
    forall y | y in ys && row == map[0 := e, 1 := x][2 := y]
      ensures row in Query(facts, DIAMOND_QUERY)
    {
      assert ClauseIs(DIAMOND_QUERY[0], row, Triple(e, DA, x));
      assert ClauseIs(DIAMOND_QUERY[1], row, Triple(e, DB, y));
    }
  }

  lemma DiamondConnected()
    ensures Connected(DIAMOND_QUERY)
  {
    assert 0 in EndVars(DIAMOND_QUERY[0]) * EndVars(DIAMOND_QUERY[1]);
  }

  lemma DiamondNodes(e: Term, x: Term, ys: set<Term>)
    ensures Nodes(Diamond(e, x, ys)) <= {e, x} + ys
  {
  }

  lemma DiamondAdded(set0: Facts, e: Term, x: Term, ys: set<Term>, first: nat, next: nat)
    requires 1 <= first <= next < WORD_SIZE
    requires Nodes(set0) <= MintedRange(1, first) && {e, x} + ys <= MintedRange(first, next)
    ensures Nodes(set0 + Diamond(e, x, ys)) <= MintedRange(1, next)
    ensures |Query(set0 + Diamond(e, x, ys), DIAMOND_QUERY)| == |Query(set0, DIAMOND_QUERY)| + |ys|
  {
    hide Query, Minted, Nodes, Connected;
    DiamondRows(e, x, ys);
    DiamondNodes(e, x, ys);
    DiamondConnected();
    FreshPiece(set0, Diamond(e, x, ys), DIAMOND_QUERY, first, next);
  }

  /** One entity of one route. */
  method AddDiamond(ids: Ids, route: nat, set0: Facts) returns (facts: Facts)
    requires 1 <= ids.next && ids.next + (if route == 0 then 6 else 4) < WORD_SIZE
    requires Nodes(set0) <= MintedRange(1, ids.next)
    modifies ids
    ensures ids.next == old(ids.next) + if route == 0 then 6 else 4
    ensures Nodes(facts) <= MintedRange(1, ids.next)
    ensures |Query(facts, DIAMOND_QUERY)| == |Query(set0, DIAMOND_QUERY)| + if route == 0 then 4 else 2
  {
    hide Query, Minted, Nodes;
    ghost var first := ids.next;
    var e := ids.Mint();
    var x := ids.Mint();
    var y := ids.Mint();
    var fat, thin := if route == 0 then 3 else 1, if route == 0 then 1 else 3;
    facts := set0;
    for i := 0 to thin
      invariant facts == set0 + if i == 0 then {} else {Triple(e, DA, x)}
    {
      facts := facts + {Triple(e, DA, x)};
    }
    ghost var ys;
    facts, ys := AddFan(ids, e, DB, fat, facts);
    facts := facts + {Triple(e, DB, y)};
    assert facts == set0 + Diamond(e, x, ys + {y});
    RangesApart(first, first + 3, ids.next);
    DiamondAdded(set0, e, x, ys + {y}, first, ids.next);
  }

  /** Six rows per step. */
  method BuildDiamond(perRoute: nat) returns (facts: Facts)
    requires 10 * perRoute + 1 < WORD_SIZE
    ensures |Query(facts, DIAMOND_QUERY)| == 6 * perRoute
  {
    hide Query, Nodes, Minted;
    var ids := new Ids();
    facts := {};
    NothingFound(DIAMOND_QUERY);
    for route := 0 to 2
      invariant fresh(ids)
      invariant ids.next == 1 + if route == 0 then 0 else if route == 1 then 6 * perRoute else 10 * perRoute
      invariant Nodes(facts) <= MintedRange(1, ids.next)
      invariant |Query(facts, DIAMOND_QUERY)|
             == if route == 0 then 0 else if route == 1 then 4 * perRoute else 6 * perRoute
    {
      ghost var start, rows := ids.next, |Query(facts, DIAMOND_QUERY)|;
      for i := 0 to perRoute
        invariant fresh(ids)
        invariant ids.next == start + i * if route == 0 then 6 else 4
        invariant Nodes(facts) <= MintedRange(1, ids.next)
        invariant |Query(facts, DIAMOND_QUERY)| == rows + i * if route == 0 then 4 else 2
      {
        facts := AddDiamond(ids, route, facts);
      }
    }
  }

  // ---- the skewed hub ----

  const HS: Term := 0x0E64D47BDE5A9CCE0F41C6384BC7935F
  const HT: Term := 0xD88DE6AC745F82E035551D9D2625F976

  const HUB_QUERY: Pattern := [Clause(Var(0), Const(HS), Var(1)), Clause(Var(1), Const(HT), Var(2))]

  function Hub(source: Term, hub: Term, ys: set<Term>): Facts {
    {Triple(source, HS, hub)} + Edges(hub, HT, ys)
  }

  lemma HubRows(source: Term, hub: Term, ys: set<Term>)
    ensures |Query(Hub(source, hub, ys), HUB_QUERY)| == |ys|
  {
    hide Query;
    var facts := Hub(source, hub, ys);
    var base: Row := map[0 := source, 1 := hub];
    forall row
      ensures row in Query(facts, HUB_QUERY) <==> row in Fanned(base, 2, ys)
    {
      HubRow(source, hub, ys, row);
    }
    assert Query(facts, HUB_QUERY) == Fanned(base, 2, ys);
    OneRowEach(base, 2, ys);
  }

  lemma HubRow(source: Term, hub: Term, ys: set<Term>, row: Row)
    ensures row in Query(Hub(source, hub, ys), HUB_QUERY) <==>
              exists y :: y in ys && row == map[0 := source, 1 := hub][2 := y]
  {
    hide Query;
    var facts := Hub(source, hub, ys);
    TwoClauses(facts, HUB_QUERY[0], HUB_QUERY[1], row);
    assert HUB_QUERY == [HUB_QUERY[0], HUB_QUERY[1]];
    if row in Query(facts, HUB_QUERY) {
      var t :| t in facts && ClauseIs(HUB_QUERY[0], row, t);
      var u :| u in facts && ClauseIs(HUB_QUERY[1], row, u);
      assert row == map[0 := source, 1 := hub][2 := u.v];
    }
    forall y | y in ys && row == map[0 := source, 1 := hub][2 := y]
      ensures row in Query(facts, HUB_QUERY)
    {
      assert ClauseIs(HUB_QUERY[0], row, Triple(source, HS, hub));
      assert ClauseIs(HUB_QUERY[1], row, Triple(hub, HT, y));
    }
  }

  lemma HubConnected()
    ensures Connected(HUB_QUERY)
  {
    assert 1 in EndVars(HUB_QUERY[0]) * EndVars(HUB_QUERY[1]);
  }

  lemma HubNodes(source: Term, hub: Term, ys: set<Term>)
    ensures Nodes(Hub(source, hub, ys)) <= {source, hub} + ys
  {
  }

  method AddUniform(ids: Ids, set0: Facts) returns (facts: Facts)
    requires 1 <= ids.next && ids.next + 3 < WORD_SIZE
    requires Nodes(set0) <= MintedRange(1, ids.next)
    modifies ids
    ensures ids.next == old(ids.next) + 3
    ensures Nodes(facts) <= MintedRange(1, ids.next)
    ensures |Query(facts, HUB_QUERY)| == |Query(set0, HUB_QUERY)| + 1
  {
    hide Query, Minted, Nodes;
    ghost var first := ids.next;
    var h := ids.Mint();
    var x := ids.Mint();
    var y := ids.Mint();
    facts := set0 + {Triple(x, HS, h)};
    facts := facts + {Triple(h, HT, y)};
    assert facts == set0 + Hub(x, h, {y});
    HubRows(x, h, {y});
    HubNodes(x, h, {y});
    HubConnected();
    assert {x, h, y} <= MintedRange(first, ids.next);
    FreshPiece(set0, Hub(x, h, {y}), HUB_QUERY, first, ids.next);
  }

  /** One row per out-edge of the hub and one per uniform node. */
  method BuildHubSkew(fanout: nat, uniform: nat) returns (facts: Facts)
    requires fanout + 3 * uniform + 3 < WORD_SIZE
    ensures |Query(facts, HUB_QUERY)| == fanout + uniform
  {
    hide Query, Minted, Nodes;
    var ids := new Ids();
    var hub := ids.Mint();
    var source := ids.Mint();
    facts := {Triple(source, HS, hub)};
    ghost var ys;
    facts, ys := AddFan(ids, hub, HT, fanout, facts);
    HubRows(source, hub, ys);
    HubNodes(source, hub, ys);
    assert {source, hub} <= MintedRange(1, 3);
    for i := 0 to uniform
      invariant fresh(ids) && ids.next == 3 + fanout + 3 * i
      invariant Nodes(facts) <= MintedRange(1, ids.next)
      invariant |Query(facts, HUB_QUERY)| == fanout + i
    {
      facts := AddUniform(ids, facts);
    }
  }
}
