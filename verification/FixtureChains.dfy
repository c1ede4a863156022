/** The deep chains: paths of an exact number of hops in disjoint chains. */
module FixtureChains {
  import opened Powers
  import opened Patterns
  import opened Components
  import opened Minting
  import opened Fixtures

  const HOP: Term := 0x7A7F3D3A4EBFB4FC617D063261FB592C

  /** `hops` clauses, each starting where the one before ends. */
  function PathQuery(hops: nat): (p: Pattern)
    ensures |p| == hops
    ensures forall i :: 0 <= i < hops ==> p[i] == Clause(Var(i), Const(HOP), Var(i + 1))
  {
    seq(hops, i requires 0 <= i => Clause(Var(i), Const(HOP), Var(i + 1)))
  }

  function Between(lo: nat, hi: nat): (s: set<Name>)
    ensures forall i :: i in s <==> lo <= i <= hi
    decreases hi + 1 - lo
  {
    if lo > hi then {} else {lo} + Between(lo + 1, hi)
  }

  lemma {:induction false} PathVars(p: Pattern, from: nat, hops: nat)
    requires |p| == hops && hops > 0
    requires forall i :: 0 <= i < hops ==> p[i] == Clause(Var(from + i), Const(HOP), Var(from + i + 1))
    ensures Vars(p) == Between(from, from + hops)
    decreases hops
  {
    if hops == 1 {
      assert Vars(p[1..]) == {};
    } else {
      PathVars(p[1..], from + 1, hops - 1);
    }
  }

  lemma PathConnected(hops: nat)
    requires hops > 0
    ensures Connected(PathQuery(hops))
  {
    var p := PathQuery(hops);
    assert 0 in EndVars(p[0]);
    forall i | 1 <= i < |p|
      ensures exists j :: 0 <= j < i && EndVars(p[j]) * EndVars(p[i]) != {}
    {
      assert i in EndVars(p[i - 1]) * EndVars(p[i]);
    }
  }

  ghost predicate AllDifferent(nodes: seq<Term>) {
    forall i, j :: 0 <= i < j < |nodes| ==> nodes[i] != nodes[j]
  }

  function Edge(nodes: seq<Term>, i: nat): Triple
    requires i + 1 < |nodes|
  {
    Triple(nodes[i], HOP, nodes[i + 1])
  }

  /** The edges between neighbours. */
  function ChainFacts(nodes: seq<Term>): Facts {
    set i | 0 <= i < |nodes| - 1 :: Edge(nodes, i)
  }

  /** The stretch of the chain that starts at `s`. */
  function Window(nodes: seq<Term>, s: nat, hops: nat): (row: Row)
    requires s + hops < |nodes|
    ensures row.Keys == Between(0, hops)
    ensures forall i :: i in row ==> row[i] == nodes[s + i]
  {
    if hops == 0 then map[0 := nodes[s]] else Window(nodes, s, hops - 1)[hops := nodes[s + hops]]
  }

  /** A clause of the path matched in the chain is one of its edges. */
  lemma ChainEdge(nodes: seq<Term>, row: Row, i: nat) returns (k: nat)
    requires Holds(Clause(Var(i), Const(HOP), Var(i + 1)), row, ChainFacts(nodes))
    ensures k + 1 < |nodes| && i in row && i + 1 in row && row[i] == nodes[k] && row[i + 1] == nodes[k + 1]
  {
    var t :| t in ChainFacts(nodes) && ClauseIs(Clause(Var(i), Const(HOP), Var(i + 1)), row, t);
    k :| 0 <= k < |nodes| - 1 && t == Edge(nodes, k);
  }

  lemma {:induction false} Stretch(nodes: seq<Term>, row: Row, hops: nat, s: nat, i: nat)
    requires AllDifferent(nodes) && i <= hops && s < |nodes|
    requires HoldsAll(PathQuery(hops), row, ChainFacts(nodes))
    requires 0 in row && row[0] == nodes[s]
    ensures s + i < |nodes| && i in row && row[i] == nodes[s + i]
    decreases i
  {
    hide Holds, ChainFacts;
    if i > 0 {
      Stretch(nodes, row, hops, s, i - 1);
      assert Holds(PathQuery(hops)[i - 1], row, ChainFacts(nodes));
      var k := ChainEdge(nodes, row, i - 1);
      assert k == s + i - 1;
    }
  }

  /** The rows of a path query over a chain are its stretches of that length. */
  lemma PathRows(nodes: seq<Term>, hops: nat, row: Row)
    requires AllDifferent(nodes) && hops > 0
    ensures row in Query(ChainFacts(nodes), PathQuery(hops)) <==>
              exists s: nat :: s + hops < |nodes| && row == Window(nodes, s, hops)
  {
    hide Query, Holds, Vars;
    var facts, p := ChainFacts(nodes), PathQuery(hops);
    QueryHolds(facts, p, row);
    PathVars(p, 0, hops);
    if HoldsAll(p, row, facts) {
      assert Holds(p[0], row, facts);
      var s := ChainEdge(nodes, row, 0);
      forall i: nat | i <= hops
        ensures s + i < |nodes| && i in row && row[i] == nodes[s + i]
      {
        Stretch(nodes, row, hops, s, i);
      }
      assert s + hops < |nodes| by { Stretch(nodes, row, hops, s, hops); }
      assert row.Keys == Window(nodes, s, hops).Keys;
      assert row == Window(nodes, s, hops);
    }
    forall s: nat | s + hops < |nodes| && row == Window(nodes, s, hops)
      ensures HoldsAll(p, row, facts)
    {
      forall i | 0 <= i < hops
        ensures Holds(p[i], row, facts)
      {
        WindowHolds(nodes, s, hops, i);
      }
    }
  }

  lemma WindowHolds(nodes: seq<Term>, s: nat, hops: nat, i: nat)
    requires s + hops < |nodes| && i < hops
    ensures Holds(PathQuery(hops)[i], Window(nodes, s, hops), ChainFacts(nodes))
  {
    var t := Edge(nodes, s + i);
    assert t in ChainFacts(nodes);
    assert ClauseIs(PathQuery(hops)[i], Window(nodes, s, hops), t);
  }

  /** A complete chain has one row, a shorter one none. */
  lemma ChainCount(nodes: seq<Term>, hops: nat)
    requires AllDifferent(nodes) && hops > 0
    ensures |nodes| == hops + 1 ==> |Query(ChainFacts(nodes), PathQuery(hops))| == 1
    ensures |nodes| <= hops ==> |Query(ChainFacts(nodes), PathQuery(hops))| == 0
  {
    hide Query, PathQuery, ChainFacts;
    var rows := Query(ChainFacts(nodes), PathQuery(hops));
    forall row
      ensures row in rows <==> exists s: nat :: s + hops < |nodes| && row == Window(nodes, s, hops)
    {
      PathRows(nodes, hops, row);
    }
    if |nodes| == hops + 1 {
      assert rows == {Window(nodes, 0, hops)};
    } else if |nodes| <= hops {
      assert rows == {};
    }
  }

  lemma ChainGrows(nodes: seq<Term>, next: Term)
    requires nodes != []
    ensures ChainFacts(nodes + [next]) == ChainFacts(nodes) + {Triple(nodes[|nodes| - 1], HOP, next)}
  {
    var more := nodes + [next];
    forall t
      ensures t in ChainFacts(more) <==> t in ChainFacts(nodes) || t == Triple(nodes[|nodes| - 1], HOP, next)
    {
      if t in ChainFacts(more) {
        var i :| 0 <= i < |more| - 1 && t == Edge(more, i);
        if i < |nodes| - 1 {
          assert t == Edge(nodes, i);
        }
      }
      if t in ChainFacts(nodes) {
        var i :| 0 <= i < |nodes| - 1 && t == Edge(nodes, i);
        assert t == Edge(more, i);
      }
      if t == Triple(nodes[|nodes| - 1], HOP, next) {
        assert t == Edge(more, |nodes| - 1);
      }
    }
  }

  lemma {:induction false} ChainSize(nodes: seq<Term>)
    requires nodes != [] && AllDifferent(nodes)
    ensures |ChainFacts(nodes)| == |nodes| - 1
    decreases |nodes|
  {
    if |nodes| == 1 {
      assert ChainFacts(nodes) == {};
    } else {
      var before, last := nodes[..|nodes| - 1], nodes[|nodes| - 1];
      assert nodes == before + [last];
      ChainSize(before);
      ChainGrows(before, last);
      forall i | 0 <= i < |before| - 1
        ensures Edge(before, i) != Triple(before[|before| - 1], HOP, last)
      {
        assert before[i] == nodes[i] && before[|before| - 1] == nodes[|before| - 1];
      }
    }
  }

  lemma PiecesApart(f: Facts, g: Facts)
    requires Nodes(f) !! Nodes(g)
    ensures |f + g| == |f| + |g|
  {
    forall t | t in f
      ensures t !in g
    {
      assert t.e in Nodes(f);
    }
  }

  lemma ChainNodes(nodes: seq<Term>)
    ensures Nodes(ChainFacts(nodes)) <= set n | n in nodes
  {
  }

  // ---- the head of the query ----

  /** At most one edge leaves a node. */
  ghost predicate Functional(facts: Facts) {
    forall t, u :: t in facts && u in facts && t.e == u.e ==> t == u
  }

  lemma ChainFunctional(nodes: seq<Term>)
    requires AllDifferent(nodes)
    ensures Functional(ChainFacts(nodes))
  {
    forall t, u | t in ChainFacts(nodes) && u in ChainFacts(nodes) && t.e == u.e
      ensures t == u
    {
      var i :| 0 <= i < |nodes| - 1 && t == Edge(nodes, i);
      var j :| 0 <= j < |nodes| - 1 && u == Edge(nodes, j);
    }
  }

  lemma FunctionalUnion(f: Facts, g: Facts)
    requires Functional(f) && Functional(g) && Nodes(f) !! Nodes(g)
    ensures Functional(f + g)
  {
    forall t, u | t in f && u in g
      ensures t.e != u.e
    {
      assert t.e in Nodes(f) && u.e in Nodes(g);
    }
  }

  /** The two ends of a row, which is all that the query's head keeps. */
  function Ends(row: Row, hops: nat): Row {
    map n | n in row && (n == 0 || n == hops) :: row[n]
  }

  function AllEnds(rows: set<Row>, hops: nat): set<Row> {
    set r | r in rows :: Ends(r, hops)
  }

  /** Where edges are functional the head of a path decides the rest. */
  lemma {:induction false} HeadDecides(facts: Facts, hops: nat, r: Row, s: Row, i: nat)
    requires Functional(facts) && i <= hops
    requires HoldsAll(PathQuery(hops), r, facts) && HoldsAll(PathQuery(hops), s, facts)
    requires 0 in r && 0 in s && r[0] == s[0]
    ensures i in r && i in s && r[i] == s[i]
    decreases i
  {
    if i > 0 {
      HeadDecides(facts, hops, r, s, i - 1);
      var c := PathQuery(hops)[i - 1];
      assert Holds(c, r, facts) && Holds(c, s, facts);
      var t :| t in facts && ClauseIs(c, r, t);
      var u :| u in facts && ClauseIs(c, s, u);
    }
  }

  /** So projecting to the ends loses no row. */
  lemma EndsKeepRows(facts: Facts, hops: nat)
    requires Functional(facts) && hops > 0
    ensures |AllEnds(Query(facts, PathQuery(hops)), hops)| == |Query(facts, PathQuery(hops))|
  {
    hide Query, Holds, Vars;
    var rows := Query(facts, PathQuery(hops));
    PathVars(PathQuery(hops), 0, hops);
    forall r, s | r in rows && s in rows && Ends(r, hops) == Ends(s, hops)
      ensures r == s
    {
      QueryHolds(facts, PathQuery(hops), r);
      QueryHolds(facts, PathQuery(hops), s);
      assert 0 in Ends(r, hops) && 0 in Ends(s, hops);
      assert r[0] == Ends(r, hops)[0] == Ends(s, hops)[0] == s[0];
      forall i | i in r
        ensures i in s && r[i] == s[i]
      {
        HeadDecides(facts, hops, r, s, i);
      }
    }
    OneEach(rows, hops);
  }

  lemma {:induction false} OneEach(rows: set<Row>, hops: nat)
    requires forall r, s :: r in rows && s in rows && Ends(r, hops) == Ends(s, hops) ==> r == s
    ensures |AllEnds(rows, hops)| == |rows|
    decreases |rows|
  {
    if rows != {} {
      var r :| r in rows;
      OneEach(rows - {r}, hops);
      assert rows == (rows - {r}) + {r};
      assert AllEnds(rows, hops) == AllEnds(rows - {r}, hops) + {Ends(r, hops)};
    }
  }

  // ---- the builder ----

  /** One chain of `edges` edges over fresh nodes. */
  method AddChain(ids: Ids, edges: nat, set0: Facts) returns (facts: Facts, ghost nodes: seq<Term>)
    requires 1 <= ids.next && ids.next + edges + 1 < WORD_SIZE
    modifies ids
    ensures ids.next == old(ids.next) + edges + 1
    ensures facts == set0 + ChainFacts(nodes)
    ensures |nodes| == edges + 1 && AllDifferent(nodes)
    ensures forall n :: n in nodes ==> n in MintedRange(old(ids.next), ids.next)
  {
    hide Minted;
    facts := set0;
    var prev := ids.Mint();
    nodes := [prev];
    for i := 0 to edges
      invariant ids.next == old(ids.next) + 1 + i
      invariant |nodes| == i + 1 && nodes[i] == prev && AllDifferent(nodes)
      invariant facts == set0 + ChainFacts(nodes)
      invariant forall n :: n in nodes ==> n in MintedRange(old(ids.next), ids.next)
    {
      var next := ids.Mint();
      ChainGrows(nodes, next);
      facts := facts + {Triple(prev, HOP, next)};
      forall k | 0 <= k < |nodes|
        ensures nodes[k] != next
      {
        assert nodes[k] in nodes;
      }
      nodes := nodes + [next];
      prev := next;
    }
  }

  lemma ChainAdded(set0: Facts, nodes: seq<Term>, hops: nat, first: nat, next: nat)
    requires hops > 0 && AllDifferent(nodes) && 1 <= |nodes| <= hops + 1
    requires 1 <= first <= next < WORD_SIZE && Nodes(set0) <= MintedRange(1, first)
    requires forall n :: n in nodes ==> n in MintedRange(first, next)
    requires Functional(set0)
    ensures Functional(set0 + ChainFacts(nodes))
    ensures |set0 + ChainFacts(nodes)| == |set0| + |nodes| - 1
    ensures Nodes(set0 + ChainFacts(nodes)) <= MintedRange(1, next)
    ensures |Query(set0 + ChainFacts(nodes), PathQuery(hops))|
         == |Query(set0, PathQuery(hops))| + if |nodes| == hops + 1 then 1 else 0
  {
    hide Query, Minted, Nodes, Connected, ChainFacts, AllDifferent, Functional;
    ChainNodes(nodes);
    ChainFunctional(nodes);
    RangesApart(1, first, next);
    FunctionalUnion(set0, ChainFacts(nodes));
    PiecesApart(set0, ChainFacts(nodes));
    ChainSize(nodes);
    ChainCount(nodes, hops);
    PathConnected(hops);
    FreshPiece(set0, ChainFacts(nodes), PathQuery(hops), first, next);
  }

  /** One row per complete chain, none per half-length decoy; all edges are there. */
  method BuildDeepChain(hops: nat, chains: nat, decoys: nat) returns (facts: Facts)
    requires hops > 0
    requires chains * (hops + 1) + decoys * (hops / 2 + 1) + 1 < WORD_SIZE
    ensures |facts| == chains * hops + decoys * (hops / 2)
    ensures |Query(facts, PathQuery(hops))| == chains
    ensures |AllEnds(Query(facts, PathQuery(hops)), hops)| == chains
  {
    hide Query, Minted, Nodes, ChainFacts, AllDifferent, MintedRange, AllEnds, PathQuery, Functional;
    var ids := new Ids();
    facts := {};
    ghost var nodes: seq<Term> := [];
    PathIsSome(hops);
    NothingFound(PathQuery(hops));
    NothingBranches();
    for i := 0 to chains
      invariant fresh(ids) && ids.next == 1 + i * (hops + 1)
      invariant Nodes(facts) <= MintedRange(1, ids.next) && Functional(facts)
      invariant |Query(facts, PathQuery(hops))| == i && |facts| == i * hops
    {
      ghost var before, first := facts, ids.next;
      Room(i, chains, hops + 1);
      Room(i, chains, hops);
      facts, nodes := AddChain(ids, hops, facts);
      ChainAdded(before, nodes, hops, first, ids.next);
    }
    for i := 0 to decoys
      invariant fresh(ids) && ids.next == 1 + chains * (hops + 1) + i * (hops / 2 + 1)
      invariant Nodes(facts) <= MintedRange(1, ids.next) && Functional(facts)
      invariant |Query(facts, PathQuery(hops))| == chains && |facts| == chains * hops + i * (hops / 2)
    {
      ghost var before, first := facts, ids.next;
      Room(i, decoys, hops / 2 + 1);
      Room(i, decoys, hops / 2);
      facts, nodes := AddChain(ids, hops / 2, facts);
      ChainAdded(before, nodes, hops, first, ids.next);
    }
    EndsKeepRows(facts, hops);
  }

  lemma NothingBranches()
    ensures Functional({})
  {
  }

  lemma PathIsSome(hops: nat)
    requires hops > 0
    ensures PathQuery(hops) != []
  {
  }
}
