/** Measures sampled across iterations, and the fixture runner that announces a
measure only when its facts are durable. */
module Measures {
  import opened Publishing
  import opened Ledger

  datatype Ran = Answered(rows: nat) | Panicked(message: string)

  datatype Call = Call(recording: bool, begin: nat, duration: nat, ran: Ran)

  datatype Sample = Sample(begin: nat, duration: nat)

  datatype Trouble = Fine | Trouble(message: string)

  // ---- what a list of calls amounts to ----

  /** The calls before the first panic. */
  function Live(calls: seq<Call>): (r: seq<Call>)
    ensures |r| <= |calls|
  {
    if calls == [] then []
    else
      var before := calls[..|calls| - 1];
      var live := Live(before);
      if |live| < |before| || calls[|calls| - 1].ran.Panicked? then live else live + [calls[|calls| - 1]]
  }

  lemma {:induction false} LiveLaw(calls: seq<Call>)
    ensures Live(calls) == calls[..|Live(calls)|]
    ensures forall i :: 0 <= i < |Live(calls)| ==> calls[i].ran.Answered?
    ensures |Live(calls)| < |calls| ==> calls[|Live(calls)|].ran.Panicked?
    decreases |calls|
  {
    if calls != [] {
      LiveLaw(calls[..|calls| - 1]);
    }
  }

  lemma LiveSnoc(calls: seq<Call>, c: Call)
    ensures Live(calls + [c]) ==
              if |Live(calls)| < |calls| || c.ran.Panicked? then Live(calls) else Live(calls) + [c]
  {
    assert (calls + [c])[..|calls|] == calls;
  }

  /** The spans of the recorded calls, in order. */
  function Samples(live: seq<Call>): seq<Sample> {
    if live == [] then []
    else
      var c := live[|live| - 1];
      Samples(live[..|live| - 1]) + if c.recording then [Sample(c.begin, c.duration)] else []
  }

  lemma SamplesSnoc(live: seq<Call>, c: Call)
    ensures Samples(live + [c]) == Samples(live) + if c.recording then [Sample(c.begin, c.duration)] else []
  {
    assert (live + [c])[..|live|] == live;
  }

  /** How many of the calls are recorded. */
  function Recordings(calls: seq<Call>): nat {
    if calls == [] then 0
    else Recordings(calls[..|calls| - 1]) + if calls[|calls| - 1].recording then 1 else 0
  }

  /** A recorded call has its sample in its place, and there are no others. */
  lemma {:induction false} SamplesLaw(live: seq<Call>)
    ensures |Samples(live)| == Recordings(live)
    ensures forall i :: 0 <= i < |live| && live[i].recording ==>
              var k := Recordings(live[..i]);
              k < |Samples(live)| && Samples(live)[k] == Sample(live[i].begin, live[i].duration)
    decreases |live|
  {
    if live != [] {
      var before := live[..|live| - 1];
      SamplesLaw(before);
      forall i | 0 <= i < |live| && live[i].recording
        ensures var k := Recordings(live[..i]);
                k < |Samples(live)| && Samples(live)[k] == Sample(live[i].begin, live[i].duration)
      {
        if i < |before| {
          assert live[..i] == before[..i] && live[i] == before[i];
        }
      }
    }
  }

  ghost predicate Uniform(live: seq<Call>) {
    forall i, j :: 0 <= i < |live| && 0 <= j < |live| ==> live[i].ran == live[j].ran
  }

  /** Every call answered, all alike, and as predicted. */
  ghost predicate Clean(calls: seq<Call>, predicted: Rows) {
    && (forall i :: 0 <= i < |calls| ==> calls[i].ran.Answered?)
    && Uniform(calls)
    && (predicted.Rows? ==> forall i :: 0 <= i < |calls| ==> calls[i].ran == Answered(predicted.n))
  }

  /** The first count that differs from the first call's. */
  ghost predicate Deviation(live: seq<Call>, saw: nat, expected: nat) {
    exists i :: 0 < i < |live| && live[i].ran == Answered(saw) && saw != expected
                && forall j :: 0 <= j < i ==> live[j].ran == Answered(expected)
  }

  lemma DeviationStays(live: seq<Call>, c: Call, saw: nat, expected: nat)
    requires Deviation(live, saw, expected)
    ensures Deviation(live + [c], saw, expected)
  {
    var i :| 0 < i < |live| && live[i].ran == Answered(saw) && saw != expected
             && forall j :: 0 <= j < i ==> live[j].ran == Answered(expected);
    assert (live + [c])[i] == live[i];
    assert forall j :: 0 <= j < i ==> (live + [c])[j] == live[j];
  }

  lemma DeviationNow(live: seq<Call>, c: Call, saw: nat, expected: nat)
    requires live != [] && Uniform(live) && live[0].ran == Answered(expected)
    requires c.ran == Answered(saw) && saw != expected
    ensures Deviation(live + [c], saw, expected)
  {
    assert (live + [c])[|live|] == c;
    assert forall j :: 0 <= j < |live| ==> (live + [c])[j] == live[j];
  }

  lemma DeviationIsNotUniform(live: seq<Call>, saw: nat, expected: nat)
    requires Deviation(live, saw, expected)
    ensures !Uniform(live)
  {
    var i :| 0 < i < |live| && live[i].ran == Answered(saw) && saw != expected
             && forall j :: 0 <= j < i ==> live[j].ran == Answered(expected);
    assert live[0].ran != live[i].ran;
  }

  // ---- one measure ----

  class Measure {
    const name: Name
    var spans: seq<Sample>
    var panicked: Trouble
    var ident: Rows
    var gate: Gate
    ghost var calls: seq<Call>

    ghost predicate Valid()
      reads this
    {
      var live := Live(calls);
      && spans == Samples(live)
      && (panicked.Fine? <==> |live| == |calls|)
      && (panicked.Trouble? ==> calls[|live|].ran == Panicked(panicked.message))
      && (forall i :: 0 <= i < |live| ==> live[i].ran.Answered?)
      && ident == (if live == [] then NoRows else Rows(live[0].ran.rows))
      && (gate.Open? ==> Uniform(live))
      && (gate.Identity? ==> Deviation(live, gate.saw, gate.expected))
    }

    constructor (name0: Name)
      ensures name == name0 && calls == [] && gate == Open && Valid()
    {
      name := name0;
      spans, panicked, ident, gate, calls := [], Fine, NoRows, Open, [];
    }

    /** One guarded call; after a panic the slot is skipped. */
    method Iterate(call: Call)
      requires Valid()
      modifies this
      ensures Valid() && calls == old(calls) + [call]
      ensures gate.Count? <==> old(gate).Count?
    {
      hide Samples, Live, Deviation, Uniform;
      LiveSnoc(calls, call);
      LiveLaw(calls);
      ghost var live := Live(calls);
      calls := calls + [call];
      if panicked.Trouble? {
        return;
      }
      match call.ran
      case Answered(rows) =>
        SamplesSnoc(live, call);
        assert (live + [call])[..|live|] == live;
        if call.recording {
          spans := spans + [Sample(call.begin, call.duration)];
        }
        UniformSnoc(live, call);
        if gate.Identity? {
          DeviationStays(live, call, gate.saw, gate.expected);
        }
        if ident.NoRows? {
          ident := Rows(rows);
        } else if ident.n != rows {
          if gate.Open? {
            DeviationNow(live, call, rows, ident.n);
            gate := Identity(rows, ident.n);
          }
        }
      case Panicked(message) =>
        panicked := Trouble(message);
    }

    /** Close the gate when the common count is not the predicted one. */
    method ExpectRows(expected: nat)
      requires Valid()
      modifies this`gate
      ensures Valid()
      ensures gate == if old(gate).Open? && panicked.Fine? && ident.Rows? && ident.n != expected
                      then Count(ident.n, expected) else old(gate)
    {
      if panicked.Trouble? || !gate.Open? {
        return;
      }
      if ident.Rows? && ident.n != expected {
        gate := Count(ident.n, expected);
      }
    }

    function Judgement(): Verdict
      reads this
    {
      if panicked.Trouble? then Panic(panicked.message) else if !gate.Open? then GateFail(gate) else Signal
    }

    function Reported(meaningful: bool): Rows
      reads this
    {
      if Judgement().Signal? && meaningful then ident else NoRows
    }
  }

  lemma UniformSnoc(live: seq<Call>, c: Call)
    ensures live == [] ==> Uniform(live + [c])
    ensures live != [] ==> (Uniform(live + [c]) <==> Uniform(live) && c.ran == live[0].ran)
  {
    var more := live + [c];
    if live != [] {
      assert more[0] == live[0] && more[|live|] == c;
      if Uniform(more) {
        forall i, j | 0 <= i < |live| && 0 <= j < |live|
          ensures live[i].ran == live[j].ran
        {
          assert more[i] == live[i] && more[j] == live[j];
        }
      }
    }
  }

  /** What the calls and the prediction make of a measure. */
  ghost predicate Deserved(verdict: Verdict, calls: seq<Call>, predicted: Rows) {
    var p := |Live(calls)|;
    && (verdict.Signal? <==> Clean(calls, predicted))
    && (verdict.Panic? <==> p < |calls|)
    && (verdict.Panic? ==> calls[p].ran == Panicked(verdict.message))
    && (verdict.GateFail? ==>
          match verdict.gate
          case Open => false
          case Identity(saw, expected) => Deviation(calls, saw, expected)
          case Count(saw, expected) =>
            predicted == Rows(expected) && saw != expected
            && forall i :: 0 <= i < |calls| ==> calls[i].ran == Answered(saw))
  }

  /** A measure is a signal exactly when its calls were clean; otherwise it tells
      the first panic, or the first deviation, or the count against prediction. */
  lemma VerdictIsDeserved(m: Measure, predicted: Rows, before: Gate)
    requires m.Valid() && !before.Count? && (before.Open? ==> Uniform(Live(m.calls)))
    requires m.gate == if before.Open? && m.panicked.Fine? && m.ident.Rows? && predicted.Rows? && m.ident != predicted
                       then Count(m.ident.n, predicted.n) else before
    ensures Deserved(m.Judgement(), m.calls, predicted)
    ensures m.Judgement().Signal? && m.ident.Rows? ==>
              forall i :: 0 <= i < |m.calls| ==> m.calls[i].ran == Answered(m.ident.n)
  {
    LiveLaw(m.calls);
    var live := Live(m.calls);
    if |live| == |m.calls| {
      assert m.calls[..|live|] == m.calls;
      if m.gate.Identity? {
        DeviationIsNotUniform(live, m.gate.saw, m.gate.expected);
      }
    }
  }

  // ---- emitting ----

  /** The facts of one measure, with consecutive ids. */
  function SpanFacts(session: nat, id: nat, name: Name, spans: seq<Sample>): set<Fact> {
    if spans == [] then {}
    else
      var s := spans[|spans| - 1];
      SpanFacts(session, id, name, spans[..|spans| - 1])
      + {SpanFact(session, id + |spans| - 1, name, s.begin, s.duration)}
  }

  /** The fact of each sample is there, under its own id, and no other. */
  lemma {:induction false} SpanFactsLaw(session: nat, id: nat, name: Name, spans: seq<Sample>)
    ensures forall k :: 0 <= k < |spans| ==>
              SpanFact(session, id + k, name, spans[k].begin, spans[k].duration) in SpanFacts(session, id, name, spans)
    ensures |SpanFacts(session, id, name, spans)| == |spans|
    ensures forall f :: f in SpanFacts(session, id, name, spans) ==> f.SpanFact? && f.id < id + |spans|
    decreases |spans|
  {
    if spans != [] {
      SpanFactsLaw(session, id, name, spans[..|spans| - 1]);
    }
  }

  function MeasureLine(session: nat, id: nat, name: Name, spans: seq<Sample>, verdict: Verdict, rows: Rows): Line {
    Line(name, verdict, |spans|, rows, id,
         SpanFacts(session, id, name, spans) + {OutcomeFact(session, id + |spans|, name, verdict, rows)})
  }

  /** Write spans and outcome, publish, and only then print. */
  method Emit(m: Measure, led: ResultsLedger, meaningful: bool) returns (ok: bool)
    requires m.Valid() && led.Valid() && !led.closed
    modifies led
    ensures led.Valid() && !led.closed
    ensures FairWeather(led.weather) ==> ok
    ensures ok ==> led.console == old(led.console)
                     + [MeasureLine(led.session, old(led.nextId), m.name, m.spans,
                                    m.Judgement(), m.Reported(meaningful))]
    ensures !ok ==> led.console == old(led.console)
    ensures old(led.recorded) <= led.recorded
  {
    hide EndCertifies, EndMarked, Union, NothingLost, Live, Samples;
    var id := led.nextId;
    ghost var facts := {};
    for i := 0 to |m.spans|
      invariant led.Valid() && !led.closed && led.console == old(led.console) && led.nextId == id + i
      invariant facts == SpanFacts(led.session, id, m.name, m.spans[..i]) && facts <= led.recorded
      invariant old(led.recorded) <= led.recorded
    {
      var fact := led.Span(m.name, m.spans[i].begin, m.spans[i].duration);
      assert m.spans[..i + 1][..i] == m.spans[..i];
      facts := facts + {fact};
    }
    assert m.spans[..|m.spans|] == m.spans;
    var verdict, rows := m.Judgement(), m.Reported(meaningful);
    var outcome := led.Outcome(m.name, verdict, rows);
    facts := facts + {outcome};
    ok := led.Checkpoint();
    if ok {
      led.Announce(MeasureLine(led.session, id, m.name, m.spans, verdict, rows));
    }
  }

  // ---- the fixture runner ----

  datatype Spec = Spec(name: Name, meaningful: bool, predicted: Rows)

  datatype Built = BuiltSet | BuildPanic(message: string)

  /** One execution of a measure, as the clock and the query make it. */
  datatype Turn = Turn(begin: nat, duration: nat, ran: Ran)

  /** The calls of measure `j` in the first `n` rounds. */
  function History(turns: (nat, nat) -> Turn, j: nat, warmup: nat, n: nat): (calls: seq<Call>)
    ensures |calls| == n
    ensures forall i :: 0 <= i < n ==>
              calls[i] == Call(i >= warmup, turns(i, j).begin, turns(i, j).duration, turns(i, j).ran)
  {
    if n == 0 then []
    else
      var t := turns(n - 1, j);
      History(turns, j, warmup, n - 1) + [Call(n - 1 >= warmup, t.begin, t.duration, t.ran)]
  }

  /** The measures of a run, each with its own calls so far. */
  ghost predicate Sampling(running: seq<Measure>, specs: seq<Spec>, turns: (nat, nat) -> Turn, warmup: nat, n: nat)
    reads running
  {
    && |running| == |specs|
    && (forall i, j :: 0 <= i < j < |running| ==> running[i] != running[j])
    && (forall j :: 0 <= j < |running| ==> Ready(running[j], specs[j], History(turns, j, warmup, n)))
  }

  /** The measure has made these calls and is not gated on its count yet. */
  ghost predicate Ready(m: Measure, spec: Spec, calls: seq<Call>)
    reads m
  {
    m.Valid() && !m.gate.Count? && m.name == spec.name && m.calls == calls
  }

  method StartAll(specs: seq<Spec>, ghost turns: (nat, nat) -> Turn, ghost warmup: nat) returns (running: seq<Measure>)
    ensures fresh(running) && Sampling(running, specs, turns, warmup, 0)
  {
    running := [];
    for j := 0 to |specs|
      invariant |running| == j && fresh(running)
      invariant forall i, k :: 0 <= i < k < j ==> running[i] != running[k]
      invariant forall k :: 0 <= k < j ==> Ready(running[k], specs[k], [])
    {
      var m := new Measure(specs[j].name);
      running := running + [m];
    }
  }

  /** One round: every measure once. */
  method Round(running: seq<Measure>, specs: seq<Spec>, turns: (nat, nat) -> Turn, warmup: nat, i: nat)
    requires Sampling(running, specs, turns, warmup, i)
    modifies running
    ensures Sampling(running, specs, turns, warmup, i + 1)
  {
    hide History, Ready;
    for j := 0 to |running|
      invariant forall k :: 0 <= k < j ==> Ready(running[k], specs[k], History(turns, k, warmup, i + 1))
      invariant forall k :: j <= k < |running| ==> Ready(running[k], specs[k], History(turns, k, warmup, i))
    {
      var t := turns(i, j);
      HistoryStep(turns, j, warmup, i);
      IterateOne(running[j], specs[j], Call(i >= warmup, t.begin, t.duration, t.ran), History(turns, j, warmup, i));
    }
  }

  method IterateOne(m: Measure, ghost spec: Spec, call: Call, ghost before: seq<Call>)
    requires Ready(m, spec, before)
    modifies m
    ensures Ready(m, spec, before + [call])
  {
    hide Live, Samples, Uniform;
    m.Iterate(call);
  }

  lemma HistoryStep(turns: (nat, nat) -> Turn, j: nat, warmup: nat, n: nat)
    ensures var t := turns(n, j);
            History(turns, j, warmup, n + 1)
            == History(turns, j, warmup, n) + [Call(n >= warmup, t.begin, t.duration, t.ran)]
  {
  }

  /** The facts of a line: one span for each call recorded before the first panic,
      with its times, and the outcome. */
  ghost predicate Tells(line: Line, session: nat, calls: seq<Call>) {
    var p := |Live(calls)|;
    && line.spans == Recordings(calls[..p])
    && |line.facts| == line.spans + 1
    && OutcomeFact(session, line.id + line.spans, line.name, line.verdict, line.rows) in line.facts
    && forall i :: 0 <= i < p && calls[i].recording ==>
         SpanFact(session, line.id + Recordings(calls[..i]), line.name, calls[i].begin, calls[i].duration) in line.facts
  }

  lemma LineTells(session: nat, id: nat, name: Name, calls: seq<Call>, verdict: Verdict, rows: Rows)
    ensures Tells(MeasureLine(session, id, name, Samples(Live(calls)), verdict, rows), session, calls)
  {
    hide Live, Samples, Recordings, SpanFacts;
    var live := Live(calls);
    var spans := Samples(live);
    LiveLaw(calls);
    SamplesLaw(live);
    SpanFactsLaw(session, id, name, spans);
    var line := MeasureLine(session, id, name, spans, verdict, rows);
    var outcome := OutcomeFact(session, id + |spans|, name, verdict, rows);
    assert outcome !in SpanFacts(session, id, name, spans);
    forall i | 0 <= i < |live| && calls[i].recording
      ensures SpanFact(session, id + Recordings(calls[..i]), name, calls[i].begin, calls[i].duration) in line.facts
    {
      assert live[i] == calls[i] && live[..i] == calls[..i];
    }
  }

  /** The line a measure earns: the verdict its calls deserve, the common count
      when rows are meaningful, and the facts that tell it all. */
  ghost predicate Earned(line: Line, session: nat, spec: Spec, calls: seq<Call>) {
    && line.name == spec.name
    && Deserved(line.verdict, calls, spec.predicted)
    && Tells(line, session, calls)
    && (line.rows.Rows? <==> line.verdict.Signal? && spec.meaningful && calls != [])
    && (line.rows.Rows? ==> forall i :: 0 <= i < |calls| ==> calls[i].ran == Answered(line.rows.n))
  }

  lemma SignalHasRows(m: Measure, predicted: Rows)
    requires m.Valid() && Deserved(m.Judgement(), m.calls, predicted)
    ensures m.Judgement().Signal? ==> (m.ident.Rows? <==> m.calls != [])
  {
    LiveLaw(m.calls);
  }

  method EmitOne(m: Measure, spec: Spec, led: ResultsLedger, ghost calls: seq<Call>) returns (ok: bool)
    requires Ready(m, spec, calls)
    requires led.Valid() && !led.closed
    modifies led, m
    ensures led.Valid() && !led.closed
    ensures FairWeather(led.weather) ==> ok
    ensures !ok ==> led.console == old(led.console)
    ensures ok ==> |led.console| == |old(led.console)| + 1 && led.console[..|old(led.console)|] == old(led.console)
    ensures ok ==> Earned(led.console[|old(led.console)|], led.session, spec, calls)
  {
    hide Live, Samples, Deserved, SpanFacts, Deviation, Tells, Recordings;
    ghost var before := m.gate;
    if spec.predicted.Rows? {
      m.ExpectRows(spec.predicted.n);
    }
    assert m.Valid();
    VerdictIsDeserved(m, spec.predicted, before);
    LiveLaw(m.calls);
    LineTells(led.session, led.nextId, m.name, m.calls, m.Judgement(), m.Reported(spec.meaningful));
    SignalHasRows(m, spec.predicted);
    ok := Emit(m, led, spec.meaningful);
  }

  /** Emit measure after measure until one cannot be published. */
  method EmitAll(running: seq<Measure>, specs: seq<Spec>, led: ResultsLedger,
                 ghost turns: (nat, nat) -> Turn, ghost warmup: nat, ghost n: nat)
    returns (ok: bool)
    requires Sampling(running, specs, turns, warmup, n) && led.Valid() && !led.closed
    modifies led, running
    ensures led.Valid() && !led.closed
    ensures FairWeather(led.weather) ==> ok
    ensures |old(led.console)| <= |led.console| <= |old(led.console)| + |specs|
    ensures led.console[..|old(led.console)|] == old(led.console)
    ensures ok ==> |led.console| == |old(led.console)| + |specs|
    ensures forall j :: |old(led.console)| <= j < |led.console| ==>
              EarnedAt(led.console[j], led.session, specs, turns, warmup, n, j - |old(led.console)|)
  {
    hide History, Earned, Ready, EndCertifies, EndMarked, Union, NothingLost;
    ghost var start := |led.console|;
    for k := 0 to |running|
      invariant led.Valid() && !led.closed
      invariant |led.console| == start + k && led.console[..start] == old(led.console)
      invariant forall j :: start <= j < start + k ==>
                  EarnedAt(led.console[j], led.session, specs, turns, warmup, n, j - start)
      invariant forall j :: k <= j < |running| ==> Ready(running[j], specs[j], History(turns, j, warmup, n))
    {
      ghost var shown := led.console;
      ok := EmitOne(running[k], specs[k], led, History(turns, k, warmup, n));
      assert led.console[..start] == shown[..start] by {
        assert led.console[..|shown|] == shown;
      }
      assert forall j :: start <= j < start + k ==> led.console[j] == shown[j] by {
        assert led.console[..|shown|] == shown;
      }
      if !ok {
        return;
      }
    }
    ok := true;
  }

  ghost predicate EarnedAt(line: Line, session: nat, specs: seq<Spec>, turns: (nat, nat) -> Turn,
                           warmup: nat, n: nat, k: int)
  {
    0 <= k < |specs| && Earned(line, session, specs[k], History(turns, k, warmup, n))
  }

  lemma {:induction false} RecordingsAfterWarmup(turns: (nat, nat) -> Turn, j: nat, warmup: nat, n: nat, i: nat)
    requires i <= n
    ensures Recordings(History(turns, j, warmup, n)[..i]) == if i < warmup then 0 else i - warmup
    decreases i
  {
    if i > 0 {
      var calls := History(turns, j, warmup, n);
      RecordingsAfterWarmup(turns, j, warmup, n, i - 1);
      assert calls[..i][..i - 1] == calls[..i - 1];
    }
  }

  lemma RoundIsTold(line: Line, session: nat, calls: seq<Call>, i: nat)
    requires Tells(line, session, calls) && i < |Live(calls)| && calls[i].recording
    ensures SpanFact(session, line.id + Recordings(calls[..i]), line.name, calls[i].begin, calls[i].duration)
            in line.facts
  {
    hide Live, Recordings;
  }

  lemma FactsTold(line: Line, session: nat, calls: seq<Call>)
    requires Tells(line, session, calls)
    ensures |line.facts| == 1 + Recordings(calls[..|Live(calls)|])
  {
  }

  /** An earned line in terms of the rounds: each round after the warm-up and
      before the first panic has its times in a span of the session under the
      measure's name, and there is no span besides. */
  lemma LineIsExact(line: Line, session: nat, specs: seq<Spec>, turns: (nat, nat) -> Turn,
                    warmup: nat, n: nat, k: int)
    requires EarnedAt(line, session, specs, turns, warmup, n, k)
    ensures var p := |Live(History(turns, k, warmup, n))|;
            && p <= n && (forall i :: 0 <= i < p ==> turns(i, k).ran.Answered?)
            && (p < n ==> turns(p, k).ran.Panicked?)
            && (forall i :: warmup <= i < p ==>
                  SpanFact(session, line.id + i - warmup, specs[k].name, turns(i, k).begin, turns(i, k).duration)
                  in line.facts)
            && |line.facts| == 1 + if p < warmup then 0 else p - warmup
  {
    hide Live, Recordings, Deserved, Tells, History;
    var calls := History(turns, k, warmup, n);
    LiveLaw(calls);
    FactsTold(line, session, calls);
    var p := |Live(calls)|;
    RecordingsAfterWarmup(turns, k, warmup, n, p);
    forall i | warmup <= i < p
      ensures SpanFact(session, line.id + i - warmup, specs[k].name, turns(i, k).begin, turns(i, k).duration)
              in line.facts
    {
      RecordingsAfterWarmup(turns, k, warmup, n, i);
      RoundIsTold(line, session, calls, i);
    }
  }

  function PanicLine(session: nat, id: nat, name: Name, message: string): Line {
    Line(name, Panic(message), 0, NoRows, id, {OutcomeFact(session, id, name, Panic(message), NoRows)})
  }

  /** A builder that panics is recorded against every measure, in one publication. */
  method AnnouncePanics(led: ResultsLedger, message: string, specs: seq<Spec>) returns (ok: bool)
    requires led.Valid() && !led.closed
    modifies led
    ensures led.Valid() && !led.closed
    ensures FairWeather(led.weather) ==> ok
    ensures !ok ==> led.console == old(led.console)
    ensures ok ==> |led.console| == |old(led.console)| + |specs|
    ensures led.console[..|old(led.console)|] == old(led.console)
    ensures ok ==> forall k :: 0 <= k < |specs| ==>
              led.console[|old(led.console)| + k] == PanicLine(led.session, old(led.nextId) + k, specs[k].name, message)
  {
    hide EndCertifies, EndMarked, Union, NothingLost;
    var id := led.nextId;
    for k := 0 to |specs|
      invariant led.Valid() && !led.closed && led.console == old(led.console) && led.nextId == id + k
      invariant forall j :: 0 <= j < k ==>
                  PanicLine(led.session, id + j, specs[j].name, message).facts <= led.recorded
    {
      var fact := led.Outcome(specs[k].name, Panic(message), NoRows);
    }
    ok := led.Checkpoint();
    if !ok {
      return;
    }
    for k := 0 to |specs|
      invariant led.Valid() && !led.closed && led.recorded <= Durable(led.pile)
      invariant forall j :: 0 <= j < |specs| ==>
                  PanicLine(led.session, id + j, specs[j].name, message).facts <= led.recorded
      invariant |led.console| == |old(led.console)| + k && led.console[..|old(led.console)|] == old(led.console)
      invariant forall j :: 0 <= j < k ==>
                  led.console[|old(led.console)| + j] == PanicLine(led.session, id + j, specs[j].name, message)
    {
      led.Announce(PanicLine(led.session, id + k, specs[k].name, message));
    }
  }

  /** `run_r2`: what is on the console afterwards is a line for each measure, or
      for the first few if a publication failed, and all of it is durable. */
  method RunR2(led: ResultsLedger, warmup: nat, iters: nat, built: Built, specs: seq<Spec>, turns: (nat, nat) -> Turn)
    returns (ok: bool)
    requires led.Valid() && !led.closed
    modifies led
    ensures led.Valid() && !led.closed
    ensures FairWeather(led.weather) ==> ok
    ensures |old(led.console)| <= |led.console| <= |old(led.console)| + |specs|
    ensures led.console[..|old(led.console)|] == old(led.console)
    ensures ok ==> |led.console| == |old(led.console)| + |specs|
    ensures built.BuiltSet? ==> forall j :: |old(led.console)| <= j < |led.console| ==>
              EarnedAt(led.console[j], led.session, specs, turns, warmup, warmup + iters, j - |old(led.console)|)
    ensures built.BuildPanic? ==> forall j :: |old(led.console)| <= j < |led.console| ==>
              && led.console[j].name == specs[j - |old(led.console)|].name
              && led.console[j].verdict == Panic(built.message)
    ensures built.BuildPanic? && !ok ==> led.console == old(led.console)
    ensures forall j :: 0 <= j < |led.console| ==> led.console[j].facts <= Durable(led.pile)
  {
    hide History, Earned, Live, Samples, Uniform, EndCertifies, EndMarked, Union, NothingLost, Ready;
    if built.BuildPanic? {
      ok := AnnouncePanics(led, built.message, specs);
      return;
    }
    var running := StartAll(specs, turns, warmup);
    for i := 0 to warmup + iters
      invariant fresh(running) && Sampling(running, specs, turns, warmup, i)
      invariant unchanged(led)
    {
      Round(running, specs, turns, warmup, i);
    }
    ok := EmitAll(running, specs, led, turns, warmup, warmup + iters);
  }
}
