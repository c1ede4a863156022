/** Conjunctive patterns over sets of triples: what a solution is, an evaluator
that finds exactly the solutions, and the delta law of `pattern_changes!`. */
module Patterns {

  type Term = nat
  type Name = nat

  datatype Triple = Triple(e: Term, a: Term, v: Term)

  type Facts = set<Triple>

  datatype Slot = Var(name: Name) | Const(value: Term)

  datatype Clause = Clause(e: Slot, a: Slot, v: Slot)

  type Pattern = seq<Clause>

  /** A row binds variables; it is also a SPARQL solution mapping. */
  type Row = map<Name, Term>

  // ---- solutions ----

  function SlotVars(s: Slot): set<Name> {
    if s.Var? then {s.name} else {}
  }

  function ClauseVars(c: Clause): set<Name> {
    SlotVars(c.e) + SlotVars(c.a) + SlotVars(c.v)
  }

  function Vars(p: Pattern): set<Name> {
    if p == [] then {} else ClauseVars(p[0]) + Vars(p[1..])
  }

  predicate SlotIs(s: Slot, row: Row, t: Term) {
    match s
    case Var(n) => n in row && row[n] == t
    case Const(c) => c == t
  }

  /** The clause, read through the row, is the triple `t`. */
  predicate ClauseIs(c: Clause, row: Row, t: Triple) {
    SlotIs(c.e, row, t.e) && SlotIs(c.a, row, t.a) && SlotIs(c.v, row, t.v)
  }

  predicate Holds(c: Clause, row: Row, facts: Facts) {
    exists t :: t in facts && ClauseIs(c, row, t)
  }

  /** Clause `i` is asked of `sources[i]`; the row binds the pattern's variables
      and no others. */
  ghost predicate Solves(sources: seq<Facts>, p: Pattern, row: Row)
    requires |sources| == |p|
  {
    row.Keys == Vars(p) && forall i :: 0 <= i < |p| ==> Holds(p[i], row, sources[i])
  }

  // ---- the evaluator ----

  datatype Binding = Bound(row: Row) | Clash

  function BindSlot(s: Slot, b: Binding, t: Term): Binding {
    if b.Clash? then Clash
    else
      match s
      case Const(c) => if c == t then b else Clash
      case Var(n) =>
        if n !in b.row then Bound(b.row[n := t])
        else if b.row[n] == t then b else Clash
  }

  function BindClause(c: Clause, row: Row, t: Triple): Binding {
    BindSlot(c.v, BindSlot(c.a, BindSlot(c.e, Bound(row), t.e), t.a), t.v)
  }

  function EvalFrom(sources: seq<Facts>, p: Pattern, row: Row): set<Row>
    requires |sources| == |p|
    decreases |p|
  {
    if p == [] then {row}
    else
      set t, r | t in sources[0] && BindClause(p[0], row, t).Bound?
                 && r in EvalFrom(sources[1..], p[1..], BindClause(p[0], row, t).row) :: r
  }

  /** `r` extends `row`. */
  predicate Extends(row: Row, r: Row) {
    forall n :: n in row ==> n in r && r[n] == row[n]
  }

  lemma BindSlotCorrect(s: Slot, row: Row, t: Term, r: Row)
    ensures var b := BindSlot(s, Bound(row), t);
            b.Bound? && Extends(b.row, r) <==> Extends(row, r) && SlotIs(s, r, t)
    ensures var b := BindSlot(s, Bound(row), t);
            b.Bound? ==> b.row.Keys == row.Keys + SlotVars(s)
  {
    if s.Var? && s.name !in row {
      var b := BindSlot(s, Bound(row), t);
      if Extends(b.row, r) {
        forall n | n in row
          ensures n in r && r[n] == row[n]
        {
          assert n in b.row;
        }
        assert s.name in b.row;
      }
    }
  }

  lemma BindClauseCorrect(c: Clause, row: Row, t: Triple, r: Row)
    ensures var b := BindClause(c, row, t);
            b.Bound? && Extends(b.row, r) <==> Extends(row, r) && ClauseIs(c, r, t)
    ensures var b := BindClause(c, row, t);
            b.Bound? ==> b.row.Keys == row.Keys + ClauseVars(c)
  {
    hide Extends, SlotIs;
    BindSlotCorrect(c.e, row, t.e, r);
    var b1 := BindSlot(c.e, Bound(row), t.e);
    if b1.Bound? {
      BindSlotCorrect(c.a, b1.row, t.a, r);
      var b2 := BindSlot(c.a, b1, t.a);
      if b2.Bound? {
        BindSlotCorrect(c.v, b2.row, t.v, r);
      }
    }
  }

  lemma {:induction false} EvalFromCorrect(sources: seq<Facts>, p: Pattern, row: Row, r: Row)
    requires |sources| == |p|
    ensures r in EvalFrom(sources, p, row) <==>
              Extends(row, r) && r.Keys == row.Keys + Vars(p)
              && forall i :: 0 <= i < |p| ==> Holds(p[i], r, sources[i])
    decreases |p|
  {
    hide BindClause;
    if p == [] {
      assert Extends(row, r) && r.Keys == row.Keys ==> r == row;
    } else {
      var rest, todo := sources[1..], p[1..];
      if r in EvalFrom(sources, p, row) {
        var t :| t in sources[0] && BindClause(p[0], row, t).Bound?
                 && r in EvalFrom(rest, todo, BindClause(p[0], row, t).row);
        EvalFromCorrect(rest, todo, BindClause(p[0], row, t).row, r);
        BindClauseCorrect(p[0], row, t, r);
        forall i | 0 <= i < |p|
          ensures Holds(p[i], r, sources[i])
        {
          if i > 0 {
            assert Holds(todo[i - 1], r, rest[i - 1]);
          }
        }
      }
      if Extends(row, r) && r.Keys == row.Keys + Vars(p)
         && forall i :: 0 <= i < |p| ==> Holds(p[i], r, sources[i])
      {
        assert Holds(p[0], r, sources[0]);
        var t :| t in sources[0] && ClauseIs(p[0], r, t);
        BindClauseCorrect(p[0], row, t, r);
        forall i | 0 <= i < |todo|
          ensures Holds(todo[i], r, rest[i])
        {
          assert Holds(p[i + 1], r, sources[i + 1]);
        }
        EvalFromCorrect(rest, todo, BindClause(p[0], row, t).row, r);
      }
    }
  }

  function Everywhere(facts: Facts, n: nat): (r: seq<Facts>)
    ensures |r| == n && forall i :: 0 <= i < n ==> r[i] == facts
  {
    seq(n, i => facts)
  }

  /** All rows of the pattern over one set of facts: `find!` with every variable
      projected enumerates each of them once. */
  function Query(facts: Facts, p: Pattern): set<Row> {
    EvalFrom(Everywhere(facts, |p|), p, map[])
  }

  lemma QueryCorrect(facts: Facts, p: Pattern, r: Row)
    ensures r in Query(facts, p) <==> Solves(Everywhere(facts, |p|), p, r)
  {
    EvalFromCorrect(Everywhere(facts, |p|), p, map[], r);
  }

  // ---- pattern_changes! ----

  /** Clause `i` against the changes, every other clause against the full side. */
  function CaseAt(full: Facts, changed: Facts, p: Pattern, i: nat): set<Row>
    requires i < |p|
  {
    EvalFrom(Everywhere(full, |p|)[i := changed], p, map[])
  }

  /** `pattern_changes!`: the union of the cases, one per clause. */
  function Changes(full: Facts, changed: Facts, p: Pattern): set<Row> {
    set i, r | 0 <= i < |p| && r in CaseAt(full, changed, p, i) :: r
  }

  /** A changed row is a row of the full side in which at least one clause
      matches among the changes. */
  lemma ChangesCorrect(full: Facts, changed: Facts, p: Pattern, r: Row)
    requires changed <= full
    ensures r in Changes(full, changed, p) <==>
              r in Query(full, p) && exists i :: 0 <= i < |p| && Holds(p[i], r, changed)
  {
    QueryCorrect(full, p, r);
    forall i | 0 <= i < |p|
      ensures r in CaseAt(full, changed, p, i) <==> r in Query(full, p) && Holds(p[i], r, changed)
    {
      CaseCorrect(full, changed, p, i, r);
    }
  }

  lemma CaseCorrect(full: Facts, changed: Facts, p: Pattern, i: nat, r: Row)
    requires changed <= full && i < |p|
    ensures r in CaseAt(full, changed, p, i) <==> r in Query(full, p) && Holds(p[i], r, changed)
  {
    var mixed := Everywhere(full, |p|)[i := changed];
    EvalFromCorrect(mixed, p, map[], r);
    QueryCorrect(full, p, r);
    if r in CaseAt(full, changed, p, i) {
      assert Holds(p[i], r, mixed[i]);
      forall j | 0 <= j < |p|
        ensures Holds(p[j], r, full)
      {
        assert Holds(p[j], r, mixed[j]);
      }
    }
    if r in Query(full, p) && Holds(p[i], r, changed) {
      forall j | 0 <= j < |p|
        ensures Holds(p[j], r, mixed[j])
      {
        assert Holds(p[j], r, Everywhere(full, |p|)[j]);
      }
    }
  }

  /** THE DELTA LAW, for every conjunctive pattern: the rows over old and new
      facts are the old rows plus the changes. */
  lemma DeltaLaw(earlier: Facts, delta: Facts, p: Pattern)
    ensures Query(earlier + delta, p) == Query(earlier, p) + Changes(earlier + delta, delta, p)
  {
    forall r: Row
      ensures r in Query(earlier + delta, p) <==> r in Query(earlier, p) || r in Changes(earlier + delta, delta, p)
    {
      DeltaRow(earlier, delta, p, r);
    }
  }

  lemma DeltaRow(earlier: Facts, delta: Facts, p: Pattern, r: Row)
    ensures r in Query(earlier + delta, p) <==> r in Query(earlier, p) || r in Changes(earlier + delta, delta, p)
  {
    var full := earlier + delta;
    QueryCorrect(full, p, r);
    QueryCorrect(earlier, p, r);
    ChangesCorrect(full, delta, p, r);
    if r in Query(earlier, p) {
      forall i | 0 <= i < |p|
        ensures Holds(p[i], r, full)
      {
        assert Holds(p[i], r, Everywhere(earlier, |p|)[i]);
      }
    }
    if r in Query(full, p) && r !in Changes(full, delta, p) {
      forall i | 0 <= i < |p|
        ensures Holds(p[i], r, earlier)
      {
        assert Holds(p[i], r, Everywhere(full, |p|)[i]);
        assert !Holds(p[i], r, delta);
      }
    }
  }

  /** Where the new facts are really new, the changes are exactly the new rows:
      no row is delivered twice. */
  lemma ChangesAreNew(earlier: Facts, delta: Facts, p: Pattern)
    requires earlier !! delta
    ensures Changes(earlier + delta, delta, p) == Query(earlier + delta, p) - Query(earlier, p)
  {
    DeltaLaw(earlier, delta, p);
    forall r | r in Changes(earlier + delta, delta, p)
      ensures r !in Query(earlier, p)
    {
      ChangesCorrect(earlier + delta, delta, p, r);
      QueryCorrect(earlier, p, r);
      var i :| 0 <= i < |p| && Holds(p[i], r, delta);
      NotBoth(p[i], r, earlier, delta);
      assert Everywhere(earlier, |p|)[i] == earlier;
    }
  }

  /** A row reads a clause as one triple at most. */
  lemma NotBoth(c: Clause, r: Row, a: Facts, b: Facts)
    requires a !! b && Holds(c, r, b)
    ensures !Holds(c, r, a)
  {
    var t :| t in b && ClauseIs(c, r, t);
    forall u | u in a
      ensures !ClauseIs(c, r, u)
    {
      assert u != t;
    }
  }

  // ---- listings ----

  /** `find!` lists each row of a set once, in some order. */
  ghost predicate Lists(l: seq<Row>, s: set<Row>) {
    (forall i, j :: 0 <= i < j < |l| ==> l[i] != l[j]) && (forall r :: r in l <==> r in s)
  }
}
