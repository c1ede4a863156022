/** A checkpointed consumer of query deltas, with failures, retries and resets,
and the benchmark pair that recomputes or folds the same query. */
module IncrementalQueries {
  import opened Wrappers
  import opened Patterns

  /** A source payload's identity; its facts are content addressed. */
  type Member = nat
  type Content = Member -> Facts

  /** The facts a support stands for. */
  function FactsOf(content: Content, support: set<Member>): Facts {
    set m, t | m in support && t in content(m) :: t
  }

  lemma ViewGrows(content: Content, a: set<Member>, b: set<Member>)
    requires a <= b
    ensures FactsOf(content, b) == FactsOf(content, a) + FactsOf(content, b - a)
  {
  }

  /** The query a consumer follows: a pattern and the variables its head keeps. */
  datatype Head = Head(pattern: Pattern, kept: set<Name>)

  function Keep(row: Row, kept: set<Name>): Row {
    map n | n in row && n in kept :: row[n]
  }

  function Project(rows: set<Row>, kept: set<Name>): set<Row> {
    set r | r in rows :: Keep(r, kept)
  }

  /** What `rebuild` enumerates. */
  function Answer(content: Content, h: Head, support: set<Member>): set<Row> {
    Project(Query(FactsOf(content, support), h.pattern), h.kept)
  }

  /** What `changes` enumerates. */
  function Delta(content: Content, h: Head, support: set<Member>, additions: set<Member>): set<Row> {
    Project(Changes(FactsOf(content, support), FactsOf(content, additions), h.pattern), h.kept)
  }

  lemma AnswerGrows(content: Content, h: Head, a: set<Member>, b: set<Member>)
    requires a <= b
    ensures Answer(content, h, b) == Answer(content, h, a) + Delta(content, h, b, b - a)
  {
    ViewGrows(content, a, b);
    DeltaLaw(FactsOf(content, a), FactsOf(content, b - a), h.pattern);
  }

  // ---- one observation ----

  type Listing = set<Row> -> seq<Row>

  ghost predicate Faithful(list: Listing) {
    forall s: set<Row> :: Lists(list(s), s)
  }

  /** One call of `observe`: whether maintenance fails, the support the
      maintained cover stands for, the payloads that cannot be read, whether the
      full view fails, and the rows the consumer refuses. */
  datatype Observation = Observation(
    unmaintained: bool,
    support: set<Member>,
    unreadable: set<Member>,
    viewless: bool,
    refuses: Row -> bool)

  /** The consumer's side: the checkpoint, the set its caller has folded from
      successful observations, and every row it has accepted so far. */
  datatype State = State(checkpoint: Option<set<Member>>, folded: set<Row>, accepted: set<Row>)

  datatype Outcome = Delivered(rows: seq<Row>) | Failed

  function RowSet(rows: seq<Row>): set<Row> {
    set r | r in rows
  }

  function MemberSet(ms: seq<Member>): set<Member> {
    set m | m in ms
  }

  /** The rows accepted before the first refusal. */
  function AcceptedPrefix(rows: seq<Row>, refuses: Row -> bool): seq<Row> {
    if rows == [] || refuses(rows[0]) then [] else [rows[0]] + AcceptedPrefix(rows[1..], refuses)
  }

  predicate IsDelta(s: State, o: Observation) {
    s.checkpoint.Some? && s.checkpoint.value <= o.support
  }

  /** Rows offered to the consumer. */
  function Offered(content: Content, h: Head, list: Listing, s: State, o: Observation): seq<Row> {
    if IsDelta(s, o) then list(Delta(content, h, o.support, o.support - s.checkpoint.value))
    else list(Answer(content, h, o.support))
  }

  /** `observe`. The checkpoint is adopted only after the complete fold. */
  function Step(content: Content, h: Head, list: Listing, s: State, o: Observation): (State, Outcome) {
    if o.unmaintained then (s, Failed)
    else if s.checkpoint == Some(o.support) then (s, Delivered([]))
    else if IsDelta(s, o) && (o.support - s.checkpoint.value) * o.unreadable != {} then (s, Failed)
    else if o.viewless then (s, Failed)
    else
      var rows := Offered(content, h, list, s, o);
      var done := AcceptedPrefix(rows, o.refuses);
      var accepted := s.accepted + RowSet(done);
      if done != rows then (s.(accepted := accepted), Failed)
      else
        (State(Some(o.support), (if IsDelta(s, o) then s.folded else {}) + RowSet(rows), accepted),
         Delivered(rows))
  }

  // ---- every run ----

  /** The folded set is the full answer over the support the checkpoint names,
      and nothing of it was withheld from the consumer. */
  ghost predicate Current(content: Content, h: Head, s: State) {
    && (s.checkpoint.None? ==> s.folded == {})
    && (s.checkpoint.Some? ==> s.folded == Answer(content, h, s.checkpoint.value))
    && s.folded <= s.accepted
  }

  lemma ObserveKeeps(content: Content, h: Head, list: Listing, s: State, o: Observation)
    requires Faithful(list) && Current(content, h, s)
    ensures var (s', out) := Step(content, h, list, s, o);
            && Current(content, h, s')
            && s.accepted <= s'.accepted
            && (out == Failed ==> s'.checkpoint == s.checkpoint && s'.folded == s.folded)
            && (out.Delivered? ==> s'.checkpoint == Some(o.support))
  {
    if IsDelta(s, o) {
      AnswerGrows(content, h, s.checkpoint.value, o.support);
      assert Lists(list(Delta(content, h, o.support, o.support - s.checkpoint.value)),
                   Delta(content, h, o.support, o.support - s.checkpoint.value));
    } else {
      assert Lists(list(Answer(content, h, o.support)), Answer(content, h, o.support));
    }
  }

  function Start(): State {
    State(None, {}, {})
  }

  function Run(content: Content, h: Head, list: Listing, os: seq<Observation>): State {
    if os == [] then Start()
    else Step(content, h, list, Run(content, h, list, os[..|os| - 1]), os[|os| - 1]).0
  }

  /** THE FOLD IS THE QUERY: after any sequence of observations, failed, retried
      or reset, what was folded from the successful ones equals the full query
      over the support that the checkpoint names. */
  lemma {:induction false} FoldIsQuery(content: Content, h: Head, list: Listing, os: seq<Observation>)
    requires Faithful(list)
    ensures Current(content, h, Run(content, h, list, os))
    decreases |os|
  {
    if os != [] {
      FoldIsQuery(content, h, list, os[..|os| - 1]);
      ObserveKeeps(content, h, list, Run(content, h, list, os[..|os| - 1]), os[|os| - 1]);
    }
  }

  // ---- when an observation is delivered ----

  /** What is due to the consumer: for a support that grew, the changes of its new
      members; otherwise the whole answer. */
  ghost function DueRows(content: Content, h: Head, s: State, o: Observation): set<Row> {
    if s.checkpoint.Some? && s.checkpoint.value <= o.support
    then Delta(content, h, o.support, o.support - s.checkpoint.value)
    else Answer(content, h, o.support)
  }

  /** Delivery is held up by maintenance, or, once the support has moved, by a new
      member of a grown support that cannot be read, by the view, or by a row due
      that the consumer refuses. */
  ghost predicate HeldUp(content: Content, h: Head, s: State, o: Observation) {
    || o.unmaintained
    || (s.checkpoint != Some(o.support) &&
        (|| (s.checkpoint.Some? && s.checkpoint.value <= o.support
             && exists m :: m in o.support && m !in s.checkpoint.value && m in o.unreadable)
         || o.viewless
         || exists r :: r in DueRows(content, h, s, o) && o.refuses(r)))
  }

  /** DELIVERY: an observation fails exactly when it is held up; otherwise the rows
      that are due arrive, none if the support stayed, and the checkpoint moves. */
  lemma DeliveredUnlessHeldUp(content: Content, h: Head, list: Listing, s: State, o: Observation)
    requires Faithful(list)
    ensures var (s', out) := Step(content, h, list, s, o);
            && (out == Failed <==> HeldUp(content, h, s, o))
            && (out.Delivered? ==>
                  && s'.checkpoint == Some(o.support)
                  && RowSet(out.rows) == if s.checkpoint == Some(o.support) then {} else DueRows(content, h, s, o))
  {
    hide Delta, Answer;
    var rows := Offered(content, h, list, s, o);
    OfferedSet(content, h, list, s, o);
    PrefixIn(rows, o.refuses);
    assert forall r :: r in rows <==> r in RowSet(rows);
    if IsDelta(s, o) {
      var added := o.support - s.checkpoint.value;
      assert added * o.unreadable != {} <==> exists m :: m in added && m in o.unreadable by {
        if added * o.unreadable != {} {
          var m :| m in added * o.unreadable;
        }
        if exists m :: m in added && m in o.unreadable {
          var m :| m in added && m in o.unreadable;
          assert m in added * o.unreadable;
        }
      }
    }
  }

  /** Nothing outside holds the observation up. */
  ghost predicate Clean(o: Observation) {
    !o.unmaintained && o.unreadable == {} && !o.viewless && forall r :: !o.refuses(r)
  }

  /** A clean observation is always delivered, whatever came before; so a run that
      ends with one names its support and has its answer. */
  lemma CleanRunIsCurrent(content: Content, h: Head, list: Listing, os: seq<Observation>)
    requires Faithful(list) && os != [] && Clean(os[|os| - 1])
    ensures var s := Run(content, h, list, os);
            s.checkpoint == Some(os[|os| - 1].support) && s.folded == Answer(content, h, os[|os| - 1].support)
  {
    hide Step;
    var before, o := os[..|os| - 1], os[|os| - 1];
    FoldIsQuery(content, h, list, before);
    DeliveredUnlessHeldUp(content, h, list, Run(content, h, list, before), o);
    ObserveKeeps(content, h, list, Run(content, h, list, before), o);
  }

  /** A failed observation changes nothing that matters: the next attempt over
      the same support offers the same set of rows, in whatever order the engine
      lists them then. */
  lemma RetryOffersTheSame(content: Content, h: Head, list: Listing, relist: Listing, s: State,
                           o: Observation, again: Observation)
    requires Faithful(list) && Faithful(relist) && Current(content, h, s)
    requires Step(content, h, list, s, o).1 == Failed && again.support == o.support
    ensures var s' := Step(content, h, list, s, o).0;
            RowSet(Offered(content, h, relist, s', again)) == RowSet(Offered(content, h, list, s, o))
  {
    ObserveKeeps(content, h, list, s, o);
    OfferedSet(content, h, list, s, o);
    OfferedSet(content, h, relist, Step(content, h, list, s, o).0, again);
  }

  /** The rows offered, as a set, do not depend on the listing. */
  lemma OfferedSet(content: Content, h: Head, list: Listing, s: State, o: Observation)
    requires Faithful(list)
    ensures RowSet(Offered(content, h, list, s, o))
         == if IsDelta(s, o) then Delta(content, h, o.support, o.support - s.checkpoint.value)
            else Answer(content, h, o.support)
  {
    var rows := if IsDelta(s, o) then Delta(content, h, o.support, o.support - s.checkpoint.value)
                else Answer(content, h, o.support);
    assert Lists(list(rows), rows);
  }

  /** Everything accepted was a row of the full answer at some observed support. */
  lemma {:induction false} AcceptedIsSound(content: Content, h: Head, list: Listing, os: seq<Observation>, r: Row)
    requires Faithful(list) && r in Run(content, h, list, os).accepted
    ensures exists i :: 0 <= i < |os| && r in Answer(content, h, os[i].support)
    decreases |os|
  {
    var before, o := os[..|os| - 1], os[|os| - 1];
    var s := Run(content, h, list, before);
    if r in s.accepted {
      AcceptedIsSound(content, h, list, before, r);
      var i :| 0 <= i < |before| && r in Answer(content, h, before[i].support);
      assert os[i] == before[i];
    } else {
      OfferedIsAnswer(content, h, list, s, o, r);
      assert r in Answer(content, h, os[|os| - 1].support);
    }
  }

  lemma OfferedIsAnswer(content: Content, h: Head, list: Listing, s: State, o: Observation, r: Row)
    requires Faithful(list) && r in Step(content, h, list, s, o).0.accepted && r !in s.accepted
    ensures r in Answer(content, h, o.support)
  {
    var rows := Offered(content, h, list, s, o);
    PrefixIn(rows, o.refuses);
    assert r in rows;
    if IsDelta(s, o) {
      var additions := o.support - s.checkpoint.value;
      assert Lists(rows, Delta(content, h, o.support, additions));
      AnswerGrows(content, h, s.checkpoint.value, o.support);
    } else {
      assert Lists(rows, Answer(content, h, o.support));
    }
  }

  lemma {:induction false} PrefixIn(rows: seq<Row>, refuses: Row -> bool)
    ensures forall r :: r in AcceptedPrefix(rows, refuses) ==> r in rows
    ensures AcceptedPrefix(rows, refuses) == rows <==> forall r :: r in rows ==> !refuses(r)
    decreases |rows|
  {
    if rows != [] {
      PrefixIn(rows[1..], refuses);
      assert rows == [rows[0]] + rows[1..];
      if !refuses(rows[0]) {
        assert AcceptedPrefix(rows, refuses) == [rows[0]] + AcceptedPrefix(rows[1..], refuses);
        assert AcceptedPrefix(rows, refuses)[1..] == AcceptedPrefix(rows[1..], refuses);
        assert forall r :: r in rows <==> r == rows[0] || r in rows[1..];
      } else {
        assert rows[0] in rows;
      }
    }
  }

  /** The consumer has taken the rows up to the first one it refuses. */
  lemma {:induction false} PrefixStops(rows: seq<Row>, refuses: Row -> bool)
    ensures var i := |AcceptedPrefix(rows, refuses)|;
            && i <= |rows| && AcceptedPrefix(rows, refuses) == rows[..i]
            && (forall j :: 0 <= j < i ==> !refuses(rows[j]))
            && (i < |rows| ==> refuses(rows[i]))
    decreases |rows|
  {
    if rows != [] && !refuses(rows[0]) {
      PrefixStops(rows[1..], refuses);
    }
  }

  lemma PrefixStart(rows: seq<Row>, refuses: Row -> bool)
    ensures AcceptedPrefix(rows, refuses) == rows[..0] + AcceptedPrefix(rows[0..], refuses)
    ensures RowSet(rows[..0]) == {}
  {
    assert rows[0..] == rows;
  }

  lemma PrefixStep(rows: seq<Row>, refuses: Row -> bool, i: nat)
    requires i < |rows| && AcceptedPrefix(rows, refuses) == rows[..i] + AcceptedPrefix(rows[i..], refuses)
    ensures refuses(rows[i]) ==> AcceptedPrefix(rows, refuses) == rows[..i] != rows
    ensures !refuses(rows[i]) ==>
              AcceptedPrefix(rows, refuses) == rows[..i + 1] + AcceptedPrefix(rows[i + 1..], refuses)
  {
    hide AcceptedPrefix;
    PrefixUnfold(rows, refuses, i);
    ShiftOne(rows, i, AcceptedPrefix(rows[i + 1..], refuses));
  }

  lemma PrefixUnfold(rows: seq<Row>, refuses: Row -> bool, i: nat)
    requires i < |rows|
    ensures AcceptedPrefix(rows[i..], refuses)
         == if refuses(rows[i]) then [] else [rows[i]] + AcceptedPrefix(rows[i + 1..], refuses)
  {
    assert rows[i..][0] == rows[i] && rows[i..][1..] == rows[i + 1..];
  }

  lemma ShiftOne(rows: seq<Row>, i: nat, y: seq<Row>)
    requires i < |rows|
    ensures rows[..i] + ([rows[i]] + y) == rows[..i + 1] + y
    ensures rows[..i] + [] == rows[..i] != rows
  {
  }

  lemma RowSetStep(rows: seq<Row>, i: nat)
    requires i < |rows|
    ensures RowSet(rows[..i + 1]) == RowSet(rows[..i]) + {rows[i]}
  {
    assert rows[..i + 1] == rows[..i] + [rows[i]];
  }

  lemma PrefixEnd(rows: seq<Row>, refuses: Row -> bool)
    ensures rows[..|rows|] + AcceptedPrefix(rows[|rows|..], refuses) == rows == rows[..|rows|]
  {
    assert rows[|rows|..] == [];
  }

  // ---- adding up without knowing about resets ----

  /** `observe` does not say whether its rows are a delta or a rebuild. A caller
      who just adds them to what it has stays right while the support grows; over
      a support that lost a member, exactly when no answer was lost with it. */
  lemma AddingUp(content: Content, h: Head, list: Listing, s: State, o: Observation)
    requires Faithful(list) && Step(content, h, list, s, o).1.Delivered? && Current(content, h, s)
    ensures var (s', out) := Step(content, h, list, s, o);
            s.folded + RowSet(out.rows) == s'.folded
            <==> s.checkpoint.None? || IsDelta(s, o)
                 || Answer(content, h, s.checkpoint.value) <= Answer(content, h, o.support)
  {
    ObserveKeeps(content, h, list, s, o);
    if IsDelta(s, o) {
      AnswerGrows(content, h, s.checkpoint.value, o.support);
      assert Lists(list(Delta(content, h, o.support, o.support - s.checkpoint.value)),
                   Delta(content, h, o.support, o.support - s.checkpoint.value));
    } else {
      assert Lists(list(Answer(content, h, o.support)), Answer(content, h, o.support));
    }
  }

  /** What such a caller has after a run. */
  function Sum(content: Content, h: Head, list: Listing, os: seq<Observation>): set<Row> {
    if os == [] then {}
    else
      var before := os[..|os| - 1];
      var out := Step(content, h, list, Run(content, h, list, before), os[|os| - 1]).1;
      Sum(content, h, list, before) + if out.Delivered? then RowSet(out.rows) else {}
  }

  /** No observation of the run asked for a reset. */
  predicate NoReset(content: Content, h: Head, list: Listing, os: seq<Observation>) {
    os == [] ||
    var before, o := os[..|os| - 1], os[|os| - 1];
    var s := Run(content, h, list, before);
    NoReset(content, h, list, before) && (s.checkpoint.None? || s.checkpoint.value <= o.support)
  }

  /** In every run without a reset, adding up gives the full answer. */
  lemma {:induction false} SumWithoutReset(content: Content, h: Head, list: Listing, os: seq<Observation>)
    requires Faithful(list) && NoReset(content, h, list, os)
    ensures Sum(content, h, list, os) == Run(content, h, list, os).folded
    decreases |os|
  {
    hide Step;
    if os != [] {
      var before, o := os[..|os| - 1], os[|os| - 1];
      var s := Run(content, h, list, before);
      SumWithoutReset(content, h, list, before);
      FoldIsQuery(content, h, list, before);
      ObserveKeeps(content, h, list, s, o);
      if Step(content, h, list, s, o).1.Delivered? {
        AddingUp(content, h, list, s, o);
      }
    }
  }

  /** One fact in one payload, and the query that finds it. */
  function Lone(m: Member): Content {
    k => if k == m then {Triple(0, 0, 0)} else {}
  }

  const LONE_HEAD: Head := Head([Clause(Var(0), Const(0), Const(0))], {0})
  const LONE_ROW: Row := map[0 := 0]

  lemma LoneFacts(m: Member, support: set<Member>)
    ensures FactsOf(Lone(m), support) == if m in support then {Triple(0, 0, 0)} else {}
  {
    if m in support {
      assert Triple(0, 0, 0) in Lone(m)(m);
    }
  }

  lemma LoneAnswer(m: Member, support: set<Member>)
    ensures Answer(Lone(m), LONE_HEAD, support) == if m in support then {LONE_ROW} else {}
  {
    hide Query;
    var facts, p := FactsOf(Lone(m), support), LONE_HEAD.pattern;
    LoneFacts(m, support);
    assert p[1..] == [] && Vars(p) == {0};
    forall r
      ensures r in Query(facts, p) <==> m in support && r == LONE_ROW
    {
      QueryCorrect(facts, p, r);
      if m in support && r == LONE_ROW {
        assert ClauseIs(p[0], r, Triple(0, 0, 0));
      }
      if r in Query(facts, p) {
        assert Holds(p[0], r, Everywhere(facts, 1)[0]);
      }
    }
    assert Keep(LONE_ROW, {0}) == LONE_ROW;
    if m in support {
      assert LONE_ROW in Query(facts, p);
    }
  }

  /** The guard is exact: two supports are safe to add up, whatever the payloads
      and the query, if and only if nothing was lost between them. */
  lemma GuardIsExact(earlier: set<Member>, later: set<Member>)
    ensures (forall content: Content, h: Head :: Answer(content, h, earlier) <= Answer(content, h, later))
            <==> earlier <= later
  {
    if earlier <= later {
      forall content: Content, h: Head
        ensures Answer(content, h, earlier) <= Answer(content, h, later)
      {
        AnswerGrows(content, h, earlier, later);
      }
    } else {
      var m :| m in earlier && m !in later;
      LoneAnswer(m, earlier);
      LoneAnswer(m, later);
      assert LONE_ROW in Answer(Lone(m), LONE_HEAD, earlier);
    }
  }

  function Seen(support: set<Member>): Observation {
    Observation(false, support, {}, false, r => false)
  }

  /** A run in which adding up is wrong: one payload is observed, then lost. */
  lemma SumAfterReset(list: Listing)
    requires Faithful(list)
    ensures var os := [Seen({1}), Seen({})];
            && Run(Lone(1), LONE_HEAD, list, os).checkpoint == Some({})
            && Run(Lone(1), LONE_HEAD, list, os).folded == {}
            && Sum(Lone(1), LONE_HEAD, list, os) == {LONE_ROW}
  {
    var content, h := Lone(1), LONE_HEAD;
    var first, os := [Seen({1})], [Seen({1}), Seen({})];
    assert first[..0] == [] && os[..1] == first;
    DeliversAll(content, h, list, Start(), {1});
    DeliversAll(content, h, list, Run(content, h, list, first), {});
    LoneAnswer(1, {1});
    LoneAnswer(1, {});
  }

  /** A willing consumer of a rebuild receives the whole answer. */
  lemma DeliversAll(content: Content, h: Head, list: Listing, s: State, support: set<Member>)
    requires Faithful(list) && (s.checkpoint.None? || !(s.checkpoint.value <= support))
    ensures var (s', out) := Step(content, h, list, s, Seen(support));
            && out.Delivered? && RowSet(out.rows) == Answer(content, h, support)
            && s'.checkpoint == Some(support) && s'.folded == Answer(content, h, support)
  {
    var rows := list(Answer(content, h, support));
    assert Lists(rows, Answer(content, h, support));
    PrefixIn(rows, Seen(support).refuses);
  }

  // ---- the mutable checkpoint ----

  class Consumer {
    const content: Content
    const head: Head
    var checkpoint: Option<set<Member>>
    var folded: set<Row>
    var accepted: set<Row>

    constructor (content: Content, head: Head)
      ensures this.content == content && this.head == head && View() == Start()
    {
      this.content, this.head := content, head;
      checkpoint, folded, accepted := None, {}, {};
    }

    function View(): State
      reads this
    {
      State(checkpoint, folded, accepted)
    }

    /** Read the additions from the source and unite them. */
    method ReadAdditions(additions: set<Member>, unreadable: set<Member>) returns (changed: Option<Facts>)
      ensures changed == if additions * unreadable != {} then None else Some(FactsOf(content, additions))
    {
      var facts: Facts := {};
      var rest := additions;
      while rest != {}
        invariant rest <= additions && (additions - rest) * unreadable == {}
        invariant facts == FactsOf(content, additions - rest)
        decreases |rest|
      {
        var m :| m in rest;
        if m in unreadable {
          assert m in additions * unreadable;
          return None;
        }
        facts := facts + content(m);
        assert additions - (rest - {m}) == (additions - rest) + {m};
        rest := rest - {m};
      }
      assert additions - rest == additions;
      changed := Some(facts);
    }

    /** Hand the rows over one by one, stopping at the first refusal. */
    method Consume(rows: seq<Row>, refuses: Row -> bool) returns (ok: bool)
      modifies this`accepted
      ensures accepted == old(accepted) + RowSet(AcceptedPrefix(rows, refuses))
      ensures ok == (AcceptedPrefix(rows, refuses) == rows)
    {
      hide AcceptedPrefix, RowSet;
      var i := 0;
      PrefixStart(rows, refuses);
      while i < |rows|
        invariant 0 <= i <= |rows|
        invariant accepted == old(accepted) + RowSet(rows[..i])
        invariant AcceptedPrefix(rows, refuses) == rows[..i] + AcceptedPrefix(rows[i..], refuses)
      {
        PrefixStep(rows, refuses, i);
        RowSetStep(rows, i);
        if refuses(rows[i]) {
          return false;
        }
        accepted := accepted + {rows[i]};
        i := i + 1;
      }
      PrefixEnd(rows, refuses);
      ok := true;
    }

    /** `observe`. */
    method Observe(list: Listing, o: Observation) returns (out: Outcome)
      modifies this
      ensures (View(), out) == Step(content, head, list, old(View()), o)
      ensures Faithful(list) && old(Current(content, head, View())) ==> Current(content, head, View())
    {
      ghost var s := View();
      if Faithful(list) && Current(content, head, s) {
        ObserveKeeps(content, head, list, s, o);
      }
      out := Observed(list, o);
    }

    method Observed(list: Listing, o: Observation) returns (out: Outcome)
      modifies this
      ensures (View(), out) == Step(content, head, list, old(View()), o)
    {
      if o.unmaintained {
        return Failed;
      }
      var changed: Option<Facts> := None;
      if checkpoint.Some? {
        if checkpoint.value == o.support {
          return Delivered([]);
        }
        if checkpoint.value <= o.support {
          changed := ReadAdditions(o.support - checkpoint.value, o.unreadable);
          if changed.None? {
            return Failed;
          }
        }
      }
      if o.viewless {
        return Failed;
      }
      var full := FactsOf(content, o.support);
      var rows :=
        if changed.Some? then list(Project(Changes(full, changed.value, head.pattern), head.kept))
        else list(Project(Query(full, head.pattern), head.kept));
      assert rows == Offered(content, head, list, View(), o);
      var ok := Consume(rows, o.refuses);
      if !ok {
        return Failed;
      }
      folded := (if changed.Some? then folded else {}) + RowSet(rows);
      checkpoint := Some(o.support);
      out := Delivered(rows);
    }
  }

  // ---- the benchmark pair ----

  /** Recompute the whole query after every commit. */
  class FullState {
    const content: Content
    const pattern: Pattern
    var support: set<Member>
    var results: set<Row>

    constructor (content: Content, pattern: Pattern, seed: set<Member>)
      ensures this.content == content && this.pattern == pattern && support == seed && results == {}
    {
      this.content, this.pattern := content, pattern;
      support, results := seed, {};
    }

    method Observe(commit: Member) returns (raw: nat)
      modifies this
      ensures support == old(support) + {commit}
      ensures results == Query(FactsOf(content, support), pattern)
      ensures raw == |results|
    {
      support := support + {commit};
      var next := Query(FactsOf(content, support), pattern);
      raw := |next|;
      results := next;
    }
  }

  /** Fold the changes of every commit into the retained results. */
  class IncrementalState {
    const content: Content
    const pattern: Pattern
    var support: set<Member>
    var snapshot: set<Member>
    var results: set<Row>

    ghost predicate Valid()
      reads this
    {
      snapshot == support && results == Query(FactsOf(content, snapshot), pattern)
    }

    /** The seed must not answer the query yet: results start empty. */
    constructor (content: Content, pattern: Pattern, seed: set<Member>)
      requires Query(FactsOf(content, seed), pattern) == {}
      ensures this.content == content && this.pattern == pattern && support == seed
      ensures Valid()
    {
      this.content, this.pattern := content, pattern;
      support, snapshot, results := seed, seed, {};
    }

    method Observe(commit: Member) returns (raw: nat)
      requires Valid()
      modifies this
      ensures Valid() && support == old(support) + {commit}
      ensures raw == |Changes(FactsOf(content, support), FactsOf(content, support - old(support)), pattern)|
    {
      support := support + {commit};
      var next := support;
      var changed := FactsOf(content, next - snapshot);
      var batch := Changes(FactsOf(content, next), changed, pattern);
      raw := |batch|;
      ViewGrows(content, snapshot, next);
      DeltaLaw(FactsOf(content, snapshot), changed, pattern);
      results := results + batch;
      snapshot := next;
    }
  }

  /** `run_full` and `run_incremental` over the same commits end with the same
      rows; and when no payload repeats a fact, the incremental arm produced
      every row exactly once. */
  method RunBoth(content: Content, pattern: Pattern, seed: set<Member>, commits: seq<Member>)
    returns (full: set<Row>, incremental: set<Row>, raw: nat)
    requires Query(FactsOf(content, seed), pattern) == {}
    ensures incremental == Query(FactsOf(content, seed + MemberSet(commits)), pattern)
    ensures commits != [] ==> full == incremental
    ensures Disjoint(content, seed, commits) ==> raw == |incremental|
  {
    hide Query, Changes, FactsOf, MemberSet, Disjoint;
    var f := new FullState(content, pattern, seed);
    var g := new IncrementalState(content, pattern, seed);
    raw := 0;
    var i := 0;
    assert MemberSet(commits[..0]) == {} by {
      MembersNone(commits);
    }
    while i < |commits|
      invariant 0 <= i <= |commits| && fresh(f) && fresh(g) && g.Valid()
      invariant f.content == g.content == content && f.pattern == g.pattern == pattern
      invariant f.support == g.support == seed + MemberSet(commits[..i])
      invariant i > 0 ==> f.results == g.results
      invariant Disjoint(content, seed, commits) ==> raw == |g.results|
    {
      ghost var before, earlier := g.support, g.results;
      var a := f.Observe(commits[i]);
      var b := g.Observe(commits[i]);
      MembersStep(commits, i);
      if Disjoint(content, seed, commits) {
        DisjointAt(content, seed, commits, i);
        NewRowsCount(content, pattern, before, commits[i]);
      }
      raw := raw + b;
      i := i + 1;
    }
    AllOf(commits, i);
    full, incremental := f.results, g.results;
  }

  lemma AllOf(commits: seq<Member>, i: nat)
    requires i == |commits|
    ensures commits[..i] == commits
  {
  }

  lemma MembersNone(commits: seq<Member>)
    ensures MemberSet(commits[..0]) == {}
  {
  }

  lemma MembersStep(commits: seq<Member>, i: nat)
    requires i < |commits|
    ensures MemberSet(commits[..i + 1]) == MemberSet(commits[..i]) + {commits[i]}
  {
    assert commits[..i + 1] == commits[..i] + [commits[i]];
  }

  /** Each commit brings only facts nobody has brought before. */
  ghost predicate Disjoint(content: Content, seed: set<Member>, commits: seq<Member>) {
    forall i :: 0 <= i < |commits| ==>
      FactsOf(content, seed + MemberSet(commits[..i])) !! content(commits[i])
  }

  lemma DisjointAt(content: Content, seed: set<Member>, commits: seq<Member>, i: nat)
    requires Disjoint(content, seed, commits) && i < |commits|
    ensures FactsOf(content, seed + MemberSet(commits[..i])) !! content(commits[i])
  {
  }

  lemma NewRowsCount(content: Content, pattern: Pattern, before: set<Member>, m: Member)
    requires FactsOf(content, before) !! content(m)
    ensures var after := before + {m};
            |Query(FactsOf(content, after), pattern)|
            == |Query(FactsOf(content, before), pattern)|
               + |Changes(FactsOf(content, after), FactsOf(content, after - before), pattern)|
  {
    var after := before + {m};
    var a, delta := FactsOf(content, before), FactsOf(content, after - before);
    ViewGrows(content, before, after);
    assert a !! delta;
    DeltaLaw(a, delta, pattern);
    ChangesAreNew(a, delta, pattern);
    assert Query(a, pattern) !! Changes(a + delta, delta, pattern);
  }
}
