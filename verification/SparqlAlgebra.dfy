/** The bag algebra of section 18.5 of the SPARQL 1.1 Query Language over
solution mappings, and what the sizes of its operators have to do with each
other. Bags are sequences; only their sizes and members matter. */
module SparqlAlgebra {
  import opened Patterns

  type Bag = seq<Row>

  /** Two mappings agree wherever both are bound. */
  predicate Compatible(a: Row, b: Row) {
    forall n :: n in a && n in b ==> a[n] == b[n]
  }

  /** `m` merged with every compatible mapping of the right side. */
  function Merges(m: Row, right: Bag): Bag {
    if right == [] then []
    else (if Compatible(m, right[0]) then [m + right[0]] else []) + Merges(m, right[1..])
  }

  function Join(left: Bag, right: Bag): Bag {
    if left == [] then [] else Merges(left[0], right) + Join(left[1..], right)
  }

  function LeftJoin(left: Bag, right: Bag): Bag {
    if left == [] then []
    else
      (if Merges(left[0], right) == [] then [left[0]] else Merges(left[0], right)) + LeftJoin(left[1..], right)
  }

  predicate Removed(m: Row, right: Bag) {
    exists r :: r in right && Compatible(m, r) && m.Keys * r.Keys != {}
  }

  function Minus(left: Bag, right: Bag): Bag {
    if left == [] then []
    else (if Removed(left[0], right) then [] else [left[0]]) + Minus(left[1..], right)
  }

  /** FILTER EXISTS: some solution of the block is compatible with the row. */
  predicate Witnessed(m: Row, right: Bag) {
    exists r :: r in right && Compatible(m, r)
  }

  function FilterExists(left: Bag, right: Bag): Bag {
    if left == [] then []
    else (if Witnessed(left[0], right) then [left[0]] else []) + FilterExists(left[1..], right)
  }

  /** The operands share exactly the variable `key`, bound on both sides. */
  ghost predicate ShareKey(left: Bag, right: Bag, key: Name) {
    && (forall m :: m in left ==> key in m)
    && (forall r :: r in right ==> key in r)
    && (forall m, r :: m in left && r in right ==> m.Keys * r.Keys == {key})
  }

  lemma ShareKeyTail(left: Bag, right: Bag, key: Name)
    requires left != [] && ShareKey(left, right, key)
    ensures ShareKey(left[1..], right, key) && key in left[0]
    ensures ShareKey([left[0]], right, key)
  {
    assert left[0] in left;
    assert forall m :: m in left[1..] ==> m in left;
  }

  lemma CompatibleOnKey(m: Row, r: Row, key: Name)
    requires m.Keys * r.Keys == {key}
    ensures key in m && key in r && (Compatible(m, r) <==> m[key] == r[key])
  {
    assert key in m.Keys * r.Keys;
    forall n | n in m && n in r
      ensures n == key
    {
      assert n in m.Keys * r.Keys;
    }
  }

  /** How many right rows carry the value `k` under `key`. */
  function CountKey(right: Bag, key: Name, k: Term): nat {
    if right == [] then 0
    else (if key in right[0] && right[0][key] == k then 1 else 0) + CountKey(right[1..], key, k)
  }

  lemma {:induction false} MergesCount(m: Row, right: Bag, key: Name)
    requires ShareKey([m], right, key)
    ensures key in m && |Merges(m, right)| == CountKey(right, key, m[key])
    decreases |right|
  {
    assert m in [m];
    if right != [] {
      assert right[0] in right;
      assert forall r :: r in right[1..] ==> r in right;
      MergesCount(m, right[1..], key);
      CompatibleOnKey(m, right[0], key);
    }
  }

  lemma {:induction false} CountKeyPositive(right: Bag, key: Name, k: Term)
    ensures CountKey(right, key, k) > 0 <==> exists r :: r in right && key in r && r[key] == k
    decreases |right|
  {
    if right != [] {
      CountKeyPositive(right[1..], key, k);
      assert forall r :: r in right <==> r == right[0] || r in right[1..];
    }
  }

  /** A row is removed, and is witnessed, exactly when its key occurs on the
      right, that is, when it has something to merge with. */
  lemma KeyDecides(m: Row, right: Bag, key: Name)
    requires ShareKey([m], right, key)
    ensures key in m
    ensures Removed(m, right) <==> CountKey(right, key, m[key]) > 0
    ensures Witnessed(m, right) <==> CountKey(right, key, m[key]) > 0
    ensures Merges(m, right) == [] <==> CountKey(right, key, m[key]) == 0
  {
    assert m in [m];
    MergesCount(m, right, key);
    CountKeyPositive(right, key, m[key]);
    forall r | r in right
      ensures m.Keys * r.Keys == {key} && key in r && (Compatible(m, r) <==> m[key] == r[key])
    {
      CompatibleOnKey(m, r, key);
    }
  }

  /** OPTIONAL = JOIN + MINUS and EXISTS + MINUS = the left rows. */
  lemma {:induction false} FamilyBalance(left: Bag, right: Bag, key: Name)
    requires ShareKey(left, right, key)
    ensures |LeftJoin(left, right)| == |Join(left, right)| + |Minus(left, right)|
    ensures |FilterExists(left, right)| + |Minus(left, right)| == |left|
    decreases |left|
  {
    if left != [] {
      ShareKeyTail(left, right, key);
      FamilyBalance(left[1..], right, key);
      KeyDecides(left[0], right, key);
    }
  }

  // ---- listings of query answers ----

  lemma ListsTail(l: Bag, s: set<Row>)
    requires Lists(l, s) && l != []
    ensures Lists(l[1..], s - {l[0]}) && l[0] in s
  {
    forall r
      ensures r in l[1..] <==> r in s - {l[0]}
    {
      if r in l[1..] {
        var i :| 0 <= i < |l[1..]| && l[1..][i] == r;
        assert l[i + 1] == r && r in l;
      }
      if r in s - {l[0]} {
        var i :| 0 <= i < |l| && l[i] == r;
        assert l[1..][i - 1] == r;
      }
    }
    assert l[0] in l;
  }

  lemma {:induction false} ListsSize(l: Bag, s: set<Row>)
    requires Lists(l, s)
    ensures |l| == |s|
    decreases |l|
  {
    if l == [] {
      assert forall r :: r in s ==> r in l;
      assert s == {};
    } else {
      ListsTail(l, s);
      ListsSize(l[1..], s - {l[0]});
    }
  }

  /** List a set of rows. */
  method Enumerate(s: set<Row>) returns (l: Bag)
    ensures Lists(l, s)
  {
    l := [];
    var rest := s;
    while rest != {}
      invariant rest <= s && Lists(l, s - rest)
      decreases |rest|
    {
      var r :| r in rest;
      ListsSnoc(l, s - rest, r);
      assert s - (rest - {r}) == (s - rest) + {r};
      l := l + [r];
      rest := rest - {r};
    }
    assert s - rest == s;
  }

  lemma ListsSnoc(l: Bag, s: set<Row>, r: Row)
    requires Lists(l, s) && r !in s
    ensures Lists(l + [r], s + {r})
  {
    var m := l + [r];
    forall i, j | 0 <= i < j < |m|
      ensures m[i] != m[j]
    {
      if j == |l| {
        assert m[i] == l[i] && l[i] in l;
      }
    }
  }

  // ---- joins of patterns ----

  /** The part of a row over the variables `vs`. */
  function Part(row: Row, vs: set<Name>): Row {
    map n | n in row && n in vs :: row[n]
  }

  lemma {:induction false} VarsConcat(p: Pattern, q: Pattern)
    ensures Vars(p + q) == Vars(p) + Vars(q)
    decreases |p|
  {
    if p == [] {
      assert p + q == q;
    } else {
      VarsConcat(p[1..], q);
      assert (p + q)[0] == p[0] && (p + q)[1..] == p[1..] + q;
    }
  }

  lemma {:induction false} ClauseVarsIn(p: Pattern, i: nat)
    requires i < |p|
    ensures ClauseVars(p[i]) <= Vars(p)
    decreases i
  {
    if i > 0 {
      ClauseVarsIn(p[1..], i - 1);
    }
  }

  /** A clause only looks at its own variables. */
  lemma HoldsLocal(c: Clause, a: Row, b: Row, facts: Facts)
    requires forall n :: n in ClauseVars(c) ==> n in a && n in b && a[n] == b[n]
    ensures Holds(c, a, facts) <==> Holds(c, b, facts)
  {
    forall t
      ensures ClauseIs(c, a, t) <==> ClauseIs(c, b, t)
    {
      SlotLocal(c.e, a, b, t.e);
      SlotLocal(c.a, a, b, t.a);
      SlotLocal(c.v, a, b, t.v);
    }
  }

  lemma SlotLocal(s: Slot, a: Row, b: Row, t: Term)
    requires forall n :: n in SlotVars(s) ==> n in a && n in b && a[n] == b[n]
    ensures SlotIs(s, a, t) <==> SlotIs(s, b, t)
  {
    if s.Var? {
      assert s.name in SlotVars(s);
    }
  }

  /** A part of a solution of the conjunction solves its conjunct. */
  lemma PartSolves(facts: Facts, p: Pattern, row: Row)
    requires Vars(p) <= row.Keys
    ensures Part(row, Vars(p)) in Query(facts, p) <==>
              forall i :: 0 <= i < |p| ==> Holds(p[i], row, facts)
  {
    var part := Part(row, Vars(p));
    QueryCorrect(facts, p, part);
    assert part.Keys == Vars(p);
    forall i | 0 <= i < |p|
      ensures Holds(p[i], part, facts) <==> Holds(p[i], row, facts)
    {
      ClauseVarsIn(p, i);
      HoldsLocal(p[i], part, row, facts);
    }
  }

  /** The solutions of a conjunction are exactly the merges of compatible
      solutions of its two halves. */
  lemma ConjunctionIsJoin(facts: Facts, p: Pattern, q: Pattern, row: Row)
    ensures row in Query(facts, p + q) <==>
              && row.Keys == Vars(p) + Vars(q)
              && Part(row, Vars(p)) in Query(facts, p)
              && Part(row, Vars(q)) in Query(facts, q)
  {
    VarsConcat(p, q);
    QueryCorrect(facts, p + q, row);
    var both := Everywhere(facts, |p + q|);
    if row.Keys == Vars(p) + Vars(q) {
      PartSolves(facts, p, row);
      PartSolves(facts, q, row);
      if Solves(both, p + q, row) {
        forall i | 0 <= i < |p|
          ensures Holds(p[i], row, facts)
        {
          assert Holds((p + q)[i], row, both[i]);
        }
        forall i | 0 <= i < |q|
          ensures Holds(q[i], row, facts)
        {
          assert Holds((p + q)[|p| + i], row, both[|p| + i]);
        }
      }
      if Part(row, Vars(p)) in Query(facts, p) && Part(row, Vars(q)) in Query(facts, q) {
        forall i | 0 <= i < |p + q|
          ensures Holds((p + q)[i], row, both[i])
        {
          if i < |p| {
            assert (p + q)[i] == p[i];
          } else {
            assert (p + q)[i] == q[i - |p|];
          }
        }
      }
    }
  }

  // ---- the join of two listings lists the conjunction ----

  lemma {:induction false} MergesMembers(m: Row, right: Bag, row: Row)
    ensures row in Merges(m, right) <==> exists r :: r in right && Compatible(m, r) && row == m + r
    decreases |right|
  {
    if right != [] {
      MergesMembers(m, right[1..], row);
      assert forall r :: r in right <==> r == right[0] || r in right[1..];
    }
  }

  lemma {:induction false} JoinMembers(left: Bag, right: Bag, row: Row)
    ensures row in Join(left, right) <==>
              exists m, r :: m in left && r in right && Compatible(m, r) && row == m + r
    decreases |left|
  {
    if left != [] {
      JoinMembers(left[1..], right, row);
      MergesMembers(left[0], right, row);
      assert forall m :: m in left <==> m == left[0] || m in left[1..];
    }
  }

  /** A compatible merge gives both of its parts back. */
  lemma MergeParts(m: Row, r: Row)
    requires Compatible(m, r)
    ensures Part(m + r, m.Keys) == m && Part(m + r, r.Keys) == r
  {
  }

  lemma PartsMerge(row: Row, vs: set<Name>, ws: set<Name>)
    requires row.Keys == vs + ws
    ensures Compatible(Part(row, vs), Part(row, ws))
    ensures Part(row, vs) + Part(row, ws) == row
    ensures Part(row, vs).Keys == vs && Part(row, ws).Keys == ws
  {
  }

  ghost predicate Distinct(l: Bag) {
    forall i, j :: 0 <= i < j < |l| ==> l[i] != l[j]
  }

  ghost predicate Over(l: Bag, vs: set<Name>) {
    forall m :: m in l ==> m.Keys == vs
  }

  lemma DistinctTail(l: Bag)
    requires l != [] && Distinct(l)
    ensures Distinct(l[1..]) && l[0] !in l[1..]
  {
    forall i | 0 <= i < |l[1..]|
      ensures l[1..][i] != l[0]
    {
      assert l[1..][i] == l[i + 1];
    }
  }

  lemma DistinctConcat(a: Bag, b: Bag)
    requires Distinct(a) && Distinct(b)
    requires forall x :: x in a ==> x !in b
    ensures Distinct(a + b)
  {
    forall i, j | 0 <= i < j < |a + b|
      ensures (a + b)[i] != (a + b)[j]
    {
      if i < |a| <= j {
        assert a[i] in a && b[j - |a|] in b;
      }
    }
  }

  lemma {:induction false} MergesDistinct(m: Row, right: Bag, ws: set<Name>)
    requires Distinct(right) && Over(right, ws)
    ensures Distinct(Merges(m, right))
    decreases |right|
  {
    if right != [] {
      DistinctTail(right);
      assert forall r :: r in right[1..] ==> r in right;
      MergesDistinct(m, right[1..], ws);
      if Compatible(m, right[0]) {
        MergeParts(m, right[0]);
        forall row | row in Merges(m, right[1..])
          ensures row != m + right[0]
        {
          MergesMembers(m, right[1..], row);
          var r :| r in right[1..] && Compatible(m, r) && row == m + r;
          MergeParts(m, r);
        }
        DistinctConcat([m + right[0]], Merges(m, right[1..]));
      }
    }
  }

  lemma {:induction false} JoinDistinct(left: Bag, right: Bag, vs: set<Name>, ws: set<Name>)
    requires Distinct(left) && Over(left, vs)
    requires Distinct(right) && Over(right, ws)
    ensures Distinct(Join(left, right))
    decreases |left|
  {
    if left != [] {
      DistinctTail(left);
      assert forall m :: m in left[1..] ==> m in left;
      JoinDistinct(left[1..], right, vs, ws);
      MergesDistinct(left[0], right, ws);
      forall row | row in Merges(left[0], right)
        ensures row !in Join(left[1..], right)
      {
        OtherHead(left, right, vs, row);
      }
      DistinctConcat(Merges(left[0], right), Join(left[1..], right));
    }
  }

  lemma OtherHead(left: Bag, right: Bag, vs: set<Name>, row: Row)
    requires left != [] && Distinct(left) && Over(left, vs)
    requires row in Merges(left[0], right)
    ensures row !in Join(left[1..], right)
  {
    MergesMembers(left[0], right, row);
    JoinMembers(left[1..], right, row);
    var r :| r in right && Compatible(left[0], r) && row == left[0] + r;
    MergeParts(left[0], r);
    DistinctTail(left);
    assert left[0].Keys == vs;
    forall m, o | m in left[1..] && o in right && Compatible(m, o)
      ensures row != m + o
    {
      MergeParts(m, o);
      assert m in left;
    }
  }

  /** Solutions bind the variables of their pattern. */
  lemma QueryKeys(facts: Facts, p: Pattern)
    ensures forall r :: r in Query(facts, p) ==> r.Keys == Vars(p)
  {
    forall r | r in Query(facts, p)
      ensures r.Keys == Vars(p)
    {
      QueryCorrect(facts, p, r);
    }
  }

  /** The plain join families: `find!` over the conjunction lists the bag join
      of the listings of its halves, whatever they share. */
  lemma JoinIsConjunction(facts: Facts, p: Pattern, q: Pattern, left: Bag, right: Bag)
    requires Lists(left, Query(facts, p)) && Lists(right, Query(facts, q))
    ensures Lists(Join(left, right), Query(facts, p + q))
    ensures |Join(left, right)| == |Query(facts, p + q)|
  {
    QueryKeys(facts, p);
    QueryKeys(facts, q);
    JoinDistinct(left, right, Vars(p), Vars(q));
    forall row
      ensures row in Join(left, right) <==> row in Query(facts, p + q)
    {
      JoinRow(facts, p, q, left, right, row);
    }
    ListsSize(Join(left, right), Query(facts, p + q));
  }

  lemma JoinRow(facts: Facts, p: Pattern, q: Pattern, left: Bag, right: Bag, row: Row)
    requires Lists(left, Query(facts, p)) && Lists(right, Query(facts, q))
    ensures row in Join(left, right) <==> row in Query(facts, p + q)
  {
    QueryKeys(facts, p);
    QueryKeys(facts, q);
    JoinMembers(left, right, row);
    ConjunctionIsJoin(facts, p, q, row);
    if row in Join(left, right) {
      var m, r :| m in left && r in right && Compatible(m, r) && row == m + r;
      MergeParts(m, r);
    }
    if row in Query(facts, p + q) {
      PartsMerge(row, Vars(p), Vars(q));
      assert Part(row, Vars(p)) in left && Part(row, Vars(q)) in right;
    }
  }
}
