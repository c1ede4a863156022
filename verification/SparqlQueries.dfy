/** The periphery programs that answer OPTIONAL, MINUS and EXISTS: multiplicity
maps and witness sets filled in one pass over a listing, then a fold over the
other listing. Every program is proved to count the bag-algebra answer, for all
patterns whose two operands share exactly one variable. */
module SparqlQueries {
  import opened Patterns
  import opened SparqlAlgebra

  /** The values of `key` in the solutions of a block. */
  function Keyed(facts: Facts, block: Pattern, key: Name): set<Term> {
    set r | r in Query(facts, block) && key in r :: r[key]
  }

  /** The outer solutions with some compatible solution of the block. */
  function Matched(facts: Facts, outer: Pattern, block: Pattern): set<Row> {
    set m | m in Query(facts, outer) && exists r :: r in Query(facts, block) && Compatible(m, r)
  }

  ghost predicate OneShared(outer: Pattern, block: Pattern, key: Name) {
    Vars(outer) * Vars(block) == {key}
  }

  lemma SharedListings(facts: Facts, outer: Pattern, block: Pattern, key: Name, left: Bag, right: Bag)
    requires OneShared(outer, block, key)
    requires Lists(left, Query(facts, outer)) && Lists(right, Query(facts, block))
    ensures ShareKey(left, right, key)
  {
    QueryKeys(facts, outer);
    QueryKeys(facts, block);
    assert key in Vars(outer) * Vars(block);
  }

  // ---- the reference counts do not depend on the listings ----

  lemma {:induction false} ExistsListed(left: Bag, right: Bag, s: set<Row>)
    requires Lists(left, s)
    ensures Lists(FilterExists(left, right), set m | m in s && Witnessed(m, right))
    decreases |left|
  {
    if left != [] {
      ListsTail(left, s);
      var rest := s - {left[0]};
      ExistsListed(left[1..], right, rest);
      var t := FilterExists(left[1..], right);
      var u := set m | m in rest && Witnessed(m, right);
      if Witnessed(left[0], right) {
        ListsCons(t, u, left[0]);
        assert (set m | m in s && Witnessed(m, right)) == u + {left[0]};
      } else {
        assert (set m | m in s && Witnessed(m, right)) == u;
        assert FilterExists(left, right) == t;
      }
    }
  }

  lemma ListsCons(l: Bag, s: set<Row>, r: Row)
    requires Lists(l, s) && r !in s
    ensures Lists([r] + l, s + {r})
  {
    assert Distinct(l) && Distinct([r]);
    DistinctConcat([r], l);
  }

  /** EXISTS, MINUS and OPTIONAL counted on sets of rows, for every listing. */
  lemma ReferenceCounts(facts: Facts, outer: Pattern, block: Pattern, key: Name, left: Bag, right: Bag)
    requires OneShared(outer, block, key)
    requires Lists(left, Query(facts, outer)) && Lists(right, Query(facts, block))
    ensures |FilterExists(left, right)| == |Matched(facts, outer, block)|
    ensures |Minus(left, right)| == |Query(facts, outer)| - |Matched(facts, outer, block)|
    ensures |LeftJoin(left, right)|
         == |Query(facts, outer + block)| + |Query(facts, outer)| - |Matched(facts, outer, block)|
  {
    SharedListings(facts, outer, block, key, left, right);
    ExistsListed(left, right, Query(facts, outer));
    assert (set m | m in Query(facts, outer) && Witnessed(m, right)) == Matched(facts, outer, block);
    ListsSize(FilterExists(left, right), Matched(facts, outer, block));
    ListsSize(left, Query(facts, outer));
    FamilyBalance(left, right, key);
    JoinIsConjunction(facts, outer, block, left, right);
  }

  // ---- a witness set decides the block ----

  /** Deduplicating a block to its key values decides its existential. */
  lemma WitnessDecides(facts: Facts, outer: Pattern, block: Pattern, key: Name, m: Row)
    requires OneShared(outer, block, key) && m in Query(facts, outer)
    ensures key in m && (m in Matched(facts, outer, block) <==> m[key] in Keyed(facts, block, key))
  {
    QueryKeys(facts, outer);
    QueryKeys(facts, block);
    assert key in Vars(outer) * Vars(block);
    forall r | r in Query(facts, block)
      ensures key in r && (Compatible(m, r) <==> m[key] == r[key])
    {
      CompatibleOnKey(m, r, key);
    }
  }

  /** Collect the key values of a listing. */
  method Witnesses(facts: Facts, block: Pattern, key: Name) returns (seen: set<Term>)
    requires key in Vars(block)
    ensures seen == Keyed(facts, block, key)
  {
    QueryKeys(facts, block);
    var rows := Enumerate(Query(facts, block));
    seen := {};
    for i := 0 to |rows|
      invariant seen == set r | r in rows[..i] && key in r :: r[key]
    {
      assert rows[i] in rows;
      assert rows[..i + 1] == rows[..i] + [rows[i]];
      seen := seen + {rows[i][key]};
    }
    assert rows[..|rows|] == rows;
  }

  /** The rows of a bag whose key is (`want`) or is not in a set. */
  function Sifted(rows: Bag, key: Name, seen: set<Term>, want: bool): nat {
    if rows == [] then 0
    else
      (if key in rows[0] && (rows[0][key] in seen) == want then 1 else 0) + Sifted(rows[1..], key, seen, want)
  }

  lemma {:induction false} SiftedSnoc(rows: Bag, row: Row, key: Name, seen: set<Term>, want: bool)
    ensures Sifted(rows + [row], key, seen, want)
         == Sifted(rows, key, seen, want) + if key in row && (row[key] in seen) == want then 1 else 0
    decreases |rows|
  {
    if rows == [] {
      assert [row][1..] == [];
    } else {
      SiftedSnoc(rows[1..], row, key, seen, want);
      assert (rows + [row])[1..] == rows[1..] + [row];
    }
  }

  lemma {:induction false} SiftedExists(left: Bag, right: Bag, key: Name, seen: set<Term>)
    requires ShareKey(left, right, key)
    requires forall k :: k in seen <==> CountKey(right, key, k) > 0
    ensures Sifted(left, key, seen, true) == |FilterExists(left, right)|
    ensures Sifted(left, key, seen, false) == |Minus(left, right)|
    decreases |left|
  {
    if left != [] {
      ShareKeyTail(left, right, key);
      SiftedExists(left[1..], right, key, seen);
      KeyDecides(left[0], right, key);
    }
  }

  lemma KeyedCounts(facts: Facts, block: Pattern, key: Name, right: Bag)
    requires Lists(right, Query(facts, block))
    ensures forall k :: k in Keyed(facts, block, key) <==> CountKey(right, key, k) > 0
  {
    forall k
      ensures k in Keyed(facts, block, key) <==> CountKey(right, key, k) > 0
    {
      CountKeyPositive(right, key, k);
    }
  }

  method CountSifted(rows: Bag, key: Name, seen: set<Term>, want: bool) returns (n: nat)
    requires forall r :: r in rows ==> key in r
    ensures n == Sifted(rows, key, seen, want)
  {
    n := 0;
    for i := 0 to |rows|
      invariant n == Sifted(rows[..i], key, seen, want)
    {
      assert rows[i] in rows;
      assert rows[..i + 1] == rows[..i] + [rows[i]];
      SiftedSnoc(rows[..i], rows[i], key, seen, want);
      if (rows[i][key] in seen) == want {
        n := n + 1;
      }
    }
    assert rows[..|rows|] == rows;
  }

  /** Sifting any listing by the witness set counts the bag operators. */
  lemma SiftedCounts(facts: Facts, outer: Pattern, block: Pattern, key: Name, rows: Bag, left: Bag, right: Bag)
    requires OneShared(outer, block, key)
    requires Lists(rows, Query(facts, outer))
    requires Lists(left, Query(facts, outer)) && Lists(right, Query(facts, block))
    ensures Sifted(rows, key, Keyed(facts, block, key), true) == |FilterExists(left, right)|
    ensures Sifted(rows, key, Keyed(facts, block, key), false) == |Minus(left, right)|
  {
    SharedListings(facts, outer, block, key, rows, right);
    KeyedCounts(facts, block, key, right);
    SiftedExists(rows, right, key, Keyed(facts, block, key));
    ReferenceCounts(facts, outer, block, key, rows, right);
    ReferenceCounts(facts, outer, block, key, left, right);
  }

  /** Count the outer rows whose key has (EXISTS) or has no (MINUS) witness.
      The answer is the bag operator's, whatever order the engine lists in. */
  method WitnessCount(facts: Facts, outer: Pattern, block: Pattern, key: Name, want: bool) returns (n: nat)
    requires OneShared(outer, block, key)
    ensures forall l, r :: Lists(l, Query(facts, outer)) && Lists(r, Query(facts, block)) ==>
              n == if want then |FilterExists(l, r)| else |Minus(l, r)|
  {
    assert key in Vars(outer) * Vars(block);
    var seen := Witnesses(facts, block, key);
    var rows := Enumerate(Query(facts, outer));
    QueryKeys(facts, outer);
    n := CountSifted(rows, key, seen, want);
    forall l, r | Lists(l, Query(facts, outer)) && Lists(r, Query(facts, block))
      ensures n == if want then |FilterExists(l, r)| else |Minus(l, r)|
    {
      SiftedCounts(facts, outer, block, key, rows, l, r);
    }
  }

  // ---- OPTIONAL ----

  lemma {:induction false} CountKeySnoc(rows: Bag, row: Row, key: Name, k: Term)
    ensures CountKey(rows + [row], key, k)
         == CountKey(rows, key, k) + if key in row && row[key] == k then 1 else 0
    decreases |rows|
  {
    if rows == [] {
      assert [row][1..] == [];
    } else {
      CountKeySnoc(rows[1..], row, key, k);
      assert (rows + [row])[1..] == rows[1..] + [row];
    }
  }

  /** The map holds the multiplicity of every key that occurs, and no other. */
  ghost predicate Tallies(counts: map<Term, nat>, rows: Bag, key: Name) {
    forall k :: (k in counts <==> CountKey(rows, key, k) > 0) && (k in counts ==> counts[k] == CountKey(rows, key, k))
  }

  /** The `entry(key).or_insert(0) += 1` loop. */
  method Tally(rows: Bag, key: Name) returns (counts: map<Term, nat>)
    requires forall r :: r in rows ==> key in r
    ensures Tallies(counts, rows, key)
  {
    counts := map[];
    for i := 0 to |rows|
      invariant Tallies(counts, rows[..i], key)
    {
      assert rows[i] in rows;
      assert rows[..i + 1] == rows[..i] + [rows[i]];
      var k := rows[i][key];
      forall j
        ensures CountKey(rows[..i + 1], key, j) == CountKey(rows[..i], key, j) + if k == j then 1 else 0
      {
        CountKeySnoc(rows[..i], rows[i], key, j);
      }
      if k !in counts {
        counts := counts[k := 0];
      }
      counts := counts[k := counts[k] + 1];
    }
    assert rows[..|rows|] == rows;
  }

  function GetOr(counts: map<Term, nat>, k: Term, otherwise: nat): nat {
    if k in counts then counts[k] else otherwise
  }

  /** The fold with default 1. */
  function Folded(rows: Bag, key: Name, counts: map<Term, nat>): nat {
    if rows == [] then 0
    else (if key in rows[0] then GetOr(counts, rows[0][key], 1) else 0) + Folded(rows[1..], key, counts)
  }

  lemma {:induction false} FoldedSnoc(rows: Bag, row: Row, key: Name, counts: map<Term, nat>)
    ensures Folded(rows + [row], key, counts)
         == Folded(rows, key, counts) + if key in row then GetOr(counts, row[key], 1) else 0
    decreases |rows|
  {
    if rows == [] {
      assert [row][1..] == [];
    } else {
      FoldedSnoc(rows[1..], row, key, counts);
      assert (rows + [row])[1..] == rows[1..] + [row];
    }
  }

  /** The multiplicity fold is the size of LeftJoin. */
  lemma {:induction false} FoldIsLeftJoin(left: Bag, right: Bag, key: Name, counts: map<Term, nat>)
    requires ShareKey(left, right, key) && Tallies(counts, right, key)
    ensures Folded(left, key, counts) == |LeftJoin(left, right)|
    decreases |left|
  {
    if left != [] {
      ShareKeyTail(left, right, key);
      FoldIsLeftJoin(left[1..], right, key, counts);
      KeyDecides(left[0], right, key);
      MergesCount(left[0], right, key);
    }
  }

  method Fold(rows: Bag, key: Name, counts: map<Term, nat>) returns (n: nat)
    requires forall r :: r in rows ==> key in r
    ensures n == Folded(rows, key, counts)
  {
    n := 0;
    for i := 0 to |rows|
      invariant n == Folded(rows[..i], key, counts)
    {
      assert rows[i] in rows;
      assert rows[..i + 1] == rows[..i] + [rows[i]];
      FoldedSnoc(rows[..i], rows[i], key, counts);
      n := n + GetOr(counts, rows[i][key], 1);
    }
    assert rows[..|rows|] == rows;
  }

  /** The OPTIONAL program: tally the block by key, then add up `max(1, matches)`
      over the outer rows. */
  method OptionalCount(facts: Facts, outer: Pattern, block: Pattern, key: Name) returns (n: nat)
    requires OneShared(outer, block, key)
    ensures forall l, r :: Lists(l, Query(facts, outer)) && Lists(r, Query(facts, block)) ==>
              n == |LeftJoin(l, r)|
  {
    assert key in Vars(outer) * Vars(block);
    QueryKeys(facts, outer);
    QueryKeys(facts, block);
    var right := Enumerate(Query(facts, block));
    var counts := Tally(right, key);
    var left := Enumerate(Query(facts, outer));
    n := Fold(left, key, counts);
    SharedListings(facts, outer, block, key, left, right);
    FoldIsLeftJoin(left, right, key, counts);
    forall l, r | Lists(l, Query(facts, outer)) && Lists(r, Query(facts, block))
      ensures n == |LeftJoin(l, r)|
    {
      ReferenceCounts(facts, outer, block, key, left, right);
      ReferenceCounts(facts, outer, block, key, l, r);
    }
  }

  // ---- nested blocks ----

  /** A star block, two parts meeting in nothing but the key, is decided by two
      independent witness sets. */
  lemma StarFactors(facts: Facts, p: Pattern, q: Pattern, key: Name)
    requires OneShared(p, q, key)
    ensures Keyed(facts, p + q, key) == Keyed(facts, p, key) * Keyed(facts, q, key)
  {
    assert key in Vars(p) * Vars(q);
    QueryKeys(facts, p);
    QueryKeys(facts, q);
    forall k
      ensures k in Keyed(facts, p + q, key) <==> k in Keyed(facts, p, key) && k in Keyed(facts, q, key)
    {
      StarFactorsAt(facts, p, q, key, k);
    }
  }

  lemma StarFactorsAt(facts: Facts, p: Pattern, q: Pattern, key: Name, k: Term)
    requires OneShared(p, q, key)
    ensures k in Keyed(facts, p + q, key) <==> k in Keyed(facts, p, key) && k in Keyed(facts, q, key)
  {
    hide Query, Vars;
    assert key in Vars(p) * Vars(q);
    QueryKeys(facts, p);
    QueryKeys(facts, q);
    if k in Keyed(facts, p + q, key) {
      var row :| row in Query(facts, p + q) && key in row && row[key] == k;
      ConjunctionIsJoin(facts, p, q, row);
      assert key in Part(row, Vars(p)) && key in Part(row, Vars(q));
    }
    if k in Keyed(facts, p, key) && k in Keyed(facts, q, key) {
      var m :| m in Query(facts, p) && key in m && m[key] == k;
      var r :| r in Query(facts, q) && key in r && r[key] == k;
      CompatibleOnKey(m, r, key);
      MergeParts(m, r);
      ConjunctionIsJoin(facts, p, q, m + r);
      assert (m + r)[key] == k;
    }
  }

  /** The star EXISTS program: two witness sets, both required. */
  method StarExistsCount(facts: Facts, outer: Pattern, p: Pattern, q: Pattern, key: Name) returns (n: nat)
    requires OneShared(p, q, key) && OneShared(outer, p + q, key)
    ensures forall l, r :: Lists(l, Query(facts, outer)) && Lists(r, Query(facts, p + q)) ==>
              n == |FilterExists(l, r)|
  {
    hide Query, Vars, Lists, FilterExists, Minus;
    assert key in Vars(p) * Vars(q);
    assert key in Vars(outer) * Vars(p + q);
    var first := Witnesses(facts, p, key);
    var second := Witnesses(facts, q, key);
    StarFactors(facts, p, q, key);
    var rows := Enumerate(Query(facts, outer));
    QueryKeys(facts, outer);
    n := 0;
    for i := 0 to |rows|
      invariant n == Sifted(rows[..i], key, first * second, true)
    {
      assert rows[i] in rows;
      assert rows[..i + 1] == rows[..i] + [rows[i]];
      SiftedSnoc(rows[..i], rows[i], key, first * second, true);
      if rows[i][key] in first && rows[i][key] in second {
        n := n + 1;
      }
    }
    assert rows[..|rows|] == rows;
    forall l, r | Lists(l, Query(facts, outer)) && Lists(r, Query(facts, p + q))
      ensures n == |FilterExists(l, r)|
    {
      SiftedCounts(facts, outer, p + q, key, rows, l, r);
    }
  }

  // ---- the chain block `?b first ?c . ?c second ?d` ----

  const B: Name := 0
  const C: Name := 1
  const D: Name := 2

  function ChainBlock(first: Term, second: Term): Pattern {
    [Clause(Var(B), Const(first), Var(C)), Clause(Var(C), Const(second), Var(D))]
  }

  datatype Hops = Hops(c: Term, d: Term)

  /** The two-hop chains that start in `b`. */
  function Chains(facts: Facts, first: Term, second: Term, b: Term): set<Hops> {
    set t, u | t in facts && u in facts && t.e == b && t.a == first && u.e == t.v && u.a == second
      :: Hops(t.v, u.v)
  }

  function ChainRow(b: Term, h: Hops): Row {
    map[B := b, C := h.c, D := h.d]
  }

  lemma ChainVars(first: Term, second: Term)
    ensures Vars(ChainBlock(first, second)) == {B, C, D}
  {
    var p := ChainBlock(first, second);
    assert p[1..] == [p[1]] && [p[1]][1..] == [];
    assert Vars(p[1..]) == ClauseVars(p[1]) + Vars([]);
  }

  /** The solutions of the chain block are the chains. */
  lemma ChainSolutions(facts: Facts, first: Term, second: Term, r: Row)
    ensures r in Query(facts, ChainBlock(first, second)) <==>
              exists b, h :: h in Chains(facts, first, second, b) && r == ChainRow(b, h)
  {
    hide *;
    if r in Query(facts, ChainBlock(first, second)) {
      SolutionIsChain(facts, first, second, r);
    }
    forall b, h | h in Chains(facts, first, second, b) && r == ChainRow(b, h)
      ensures r in Query(facts, ChainBlock(first, second))
    {
      ChainIsSolution(facts, first, second, b, h);
    }
  }

  lemma SolutionIsChain(facts: Facts, first: Term, second: Term, r: Row)
    requires r in Query(facts, ChainBlock(first, second))
    ensures exists b, h :: h in Chains(facts, first, second, b) && r == ChainRow(b, h)
  {
    hide Query;
    var p := ChainBlock(first, second);
    ChainVars(first, second);
    QueryCorrect(facts, p, r);
    var both := Everywhere(facts, |p|);
    assert Holds(p[0], r, both[0]) && Holds(p[1], r, both[1]);
    var t :| t in facts && ClauseIs(p[0], r, t);
    var u :| u in facts && ClauseIs(p[1], r, u);
    var h := Hops(t.v, u.v);
    assert h in Chains(facts, first, second, t.e);
    assert r == ChainRow(t.e, h);
  }

  lemma ChainIsSolution(facts: Facts, first: Term, second: Term, b: Term, h: Hops)
    requires h in Chains(facts, first, second, b)
    ensures ChainRow(b, h) in Query(facts, ChainBlock(first, second))
  {
    hide Query;
    var p, r := ChainBlock(first, second), ChainRow(b, h);
    ChainVars(first, second);
    QueryCorrect(facts, p, r);
    var t, u :| t in facts && u in facts && t.e == b && t.a == first && u.e == t.v && u.a == second
                && h == Hops(t.v, u.v);
    assert ClauseIs(p[0], r, t) && ClauseIs(p[1], r, u);
    assert r.Keys == {B, C, D};
  }

  /** The chain's witness set holds exactly the starts of some chain. */
  lemma ChainWitness(facts: Facts, first: Term, second: Term, b: Term)
    ensures b in Keyed(facts, ChainBlock(first, second), B) <==>
              exists c, d :: Triple(b, first, c) in facts && Triple(c, second, d) in facts
  {
    hide Query;
    var p := ChainBlock(first, second);
    if b in Keyed(facts, p, B) {
      var r :| r in Query(facts, p) && B in r && r[B] == b;
      ChainSolutions(facts, first, second, r);
      var s, h :| h in Chains(facts, first, second, s) && r == ChainRow(s, h);
      assert Triple(b, first, h.c) in facts && Triple(h.c, second, h.d) in facts;
    }
    if exists c, d :: Triple(b, first, c) in facts && Triple(c, second, d) in facts {
      var c, d :| Triple(b, first, c) in facts && Triple(c, second, d) in facts;
      var r := ChainRow(b, Hops(c, d));
      assert Hops(c, d) in Chains(facts, first, second, b);
      ChainSolutions(facts, first, second, r);
      assert r[B] == b;
    }
  }

  /** The rows of a listing with the value `k` under `key`. */
  ghost function RowsWith(s: set<Row>, key: Name, k: Term): set<Row> {
    set r | r in s && key in r && r[key] == k
  }

  lemma {:induction false} CountKeyIsSize(l: Bag, s: set<Row>, key: Name, k: Term)
    requires Lists(l, s)
    ensures CountKey(l, key, k) == |RowsWith(s, key, k)|
    decreases |l|
  {
    if l == [] {
      assert forall r :: r in s ==> r in l;
      assert RowsWith(s, key, k) == {};
    } else {
      ListsTail(l, s);
      var rest := s - {l[0]};
      CountKeyIsSize(l[1..], rest, key, k);
      if key in l[0] && l[0][key] == k {
        assert RowsWith(s, key, k) == RowsWith(rest, key, k) + {l[0]};
      } else {
        assert RowsWith(s, key, k) == RowsWith(rest, key, k);
      }
    }
  }

  function ChainRows(hs: set<Hops>, b: Term): set<Row> {
    set h | h in hs :: ChainRow(b, h)
  }

  lemma {:induction false} ChainRowsSize(hs: set<Hops>, b: Term)
    ensures |ChainRows(hs, b)| == |hs|
    decreases |hs|
  {
    if hs != {} {
      var h :| h in hs;
      ChainRowsSize(hs - {h}, b);
      forall g | g in hs - {h}
        ensures ChainRow(b, g) != ChainRow(b, h)
      {
        assert g.c != h.c || g.d != h.d;
        assert ChainRow(b, g)[C] == g.c && ChainRow(b, g)[D] == g.d;
        assert ChainRow(b, h)[C] == h.c && ChainRow(b, h)[D] == h.d;
      }
      assert ChainRows(hs, b) == ChainRows(hs - {h}, b) + {ChainRow(b, h)};
    }
  }

  /** The OPTIONAL chain map carries the exact number of chains per key. */
  lemma ChainMultiplicity(facts: Facts, first: Term, second: Term, rows: Bag, b: Term)
    requires Lists(rows, Query(facts, ChainBlock(first, second)))
    ensures CountKey(rows, B, b) == |Chains(facts, first, second, b)|
  {
    hide Query;
    var s := Query(facts, ChainBlock(first, second));
    CountKeyIsSize(rows, s, B, b);
    var hs := Chains(facts, first, second, b);
    ChainRowsSize(hs, b);
    forall r
      ensures r in RowsWith(s, B, b) <==> r in ChainRows(hs, b)
    {
      ChainSolutions(facts, first, second, r);
      assert forall c, h: Hops :: ChainRow(c, h)[B] == c;
    }
    assert RowsWith(s, B, b) == ChainRows(hs, b);
  }
}
