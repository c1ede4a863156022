/** The telemetry sink: a pending batch per thread, flushed now and then by the
thread's own callbacks and for the last time by `Drop`. */
module Telemetry {
  import opened Publishing

  datatype Fact = Entry(id: nat) | SessionEnd(at: nat)

  datatype ThreadTelemetry = ThreadTelemetry(batch: set<Fact>, lastFlush: nat)

  /** Outcome of `publish_pending`. */
  datatype Attempt = Nothing | Cleared | Failed

  function Batches(threads: seq<ThreadTelemetry>): set<Fact> {
    if threads == [] then {} else Batches(threads[..|threads| - 1]) + threads[|threads| - 1].batch
  }

  lemma {:induction false} BatchIn(threads: seq<ThreadTelemetry>, i: nat)
    requires i < |threads|
    ensures threads[i].batch <= Batches(threads)
    decreases |threads|
  {
    if i < |threads| - 1 {
      BatchIn(threads[..|threads| - 1], i);
    }
  }

  lemma {:induction false} SomeBatch(threads: seq<ThreadTelemetry>, f: Fact)
    requires f in Batches(threads)
    ensures exists i :: 0 <= i < |threads| && f in threads[i].batch
    decreases |threads|
  {
    var before := threads[..|threads| - 1];
    if f in Batches(before) {
      SomeBatch(before, f);
      var i :| 0 <= i < |before| && f in before[i].batch;
      assert threads[i] == before[i];
    } else {
      assert f in threads[|threads| - 1].batch;
    }
  }

  /** The batches hold recorded entries, and every recorded entry is in a batch
      or durable. */
  ghost predicate Kept(recorded: set<Fact>, threads: seq<ThreadTelemetry>, pile: Pile<Fact>)
    requires Sound(pile)
  {
    && (forall f :: f in recorded ==> f.Entry?)
    && Batches(threads) <= recorded <= Batches(threads) + Durable(pile)
  }

  /** Replacing one batch keeps every fact when what leaves it is durable. */
  lemma KeptAfter(recorded: set<Fact>, threads: seq<ThreadTelemetry>, p: Pile<Fact>,
                  i: nat, t: ThreadTelemetry, q: Pile<Fact>)
    requires i < |threads| && Sound(p) && Sound(q) && Kept(recorded, threads, p)
    requires forall f :: f in t.batch ==> f.Entry?
    requires Durable(p) <= Durable(q) && threads[i].batch <= t.batch + Durable(q)
    ensures Kept(recorded + t.batch, threads[i := t], q)
  {
    hide Batches, Durable;
    var after := threads[i := t];
    BatchIn(after, i);
    forall f | f in recorded
      ensures f in Batches(after) + Durable(q)
    {
      if f in Batches(threads) {
        SomeBatch(threads, f);
        var k :| 0 <= k < |threads| && f in threads[k].batch;
        BatchIn(after, k);
      }
    }
    forall f | f in Batches(after)
      ensures f in recorded + t.batch
    {
      SomeBatch(after, f);
      var k :| 0 <= k < |after| && f in after[k].batch;
      if k != i {
        BatchIn(threads, k);
      }
    }
  }

  lemma KeptFresh(recorded: set<Fact>, threads: seq<ThreadTelemetry>, p: Pile<Fact>, t: ThreadTelemetry)
    requires Sound(p) && Kept(recorded, threads, p) && t.batch == {}
    ensures Kept(recorded, threads + [t], p)
  {
    assert (threads + [t])[..|threads|] == threads;
  }

  // ---- the last publications ----

  datatype Ending = Ending(pile: Pile<Fact>, threads: seq<ThreadTelemetry>, clock: nat)

  /** One last publication for each thread with something to say. */
  function FinalFlush(p: Pile<Fact>, threads: seq<ThreadTelemetry>, weather: nat -> Weather, clock: nat): Ending {
    if threads == [] then Ending(p, [], clock)
    else
      var e, t := FinalFlush(p, threads[..|threads| - 1], weather, clock), threads[|threads| - 1];
      if t.batch == {} then e.(threads := e.threads + [t])
      else
        var w := weather(e.clock);
        Ending(Publish(e.pile, t.batch, w), e.threads + [if Succeeds(w) then t.(batch := {}) else t], e.clock + 1)
  }

  function Publications(threads: seq<ThreadTelemetry>): nat {
    if threads == [] then 0
    else Publications(threads[..|threads| - 1]) + if threads[|threads| - 1].batch == {} then 0 else 1
  }

  /** The last commit of thread `i` is refused. */
  predicate TurnedAway(threads: seq<ThreadTelemetry>, weather: nat -> Weather, clock: nat, i: nat)
    requires i < |threads|
  {
    threads[i].batch != {} && weather(clock + Publications(threads[..i])).commit.Refused?
  }

  /** The facts of the batches that are not (`refused`: that are) turned away. */
  function Offered(threads: seq<ThreadTelemetry>, weather: nat -> Weather, clock: nat, refused: bool): set<Fact> {
    if threads == [] then {}
    else
      Offered(threads[..|threads| - 1], weather, clock, refused)
      + if TurnedAway(threads, weather, clock, |threads| - 1) == refused then threads[|threads| - 1].batch else {}
  }

  lemma {:induction false} OfferedAll(threads: seq<ThreadTelemetry>, weather: nat -> Weather, clock: nat)
    ensures Batches(threads)
         == Offered(threads, weather, clock, true) + Offered(threads, weather, clock, false)
    decreases |threads|
  {
    if threads != [] {
      OfferedAll(threads[..|threads| - 1], weather, clock);
    }
  }

  lemma {:induction false} OfferedBy(threads: seq<ThreadTelemetry>, weather: nat -> Weather, clock: nat,
                                     refused: bool, f: Fact)
    ensures f in Offered(threads, weather, clock, refused) <==>
              exists i :: 0 <= i < |threads| && f in threads[i].batch
                          && TurnedAway(threads, weather, clock, i) == refused
    decreases |threads|
  {
    hide TurnedAway, Offered;
    if threads == [] {
      OfferedNone(weather, clock, refused);
    } else {
      var before := threads[..|threads| - 1];
      OfferedBy(before, weather, clock, refused, f);
      TurnedAwayBefore(threads, weather, clock);
      OfferedSplit(threads, weather, clock, refused);
    }
  }

  lemma OfferedNone(weather: nat -> Weather, clock: nat, refused: bool)
    ensures Offered([], weather, clock, refused) == {}
  {
  }

  lemma TurnedAwayBefore(threads: seq<ThreadTelemetry>, weather: nat -> Weather, clock: nat)
    requires threads != []
    ensures var before := threads[..|threads| - 1];
            forall i :: 0 <= i < |before| ==>
              && before[i] == threads[i]
              && TurnedAway(before, weather, clock, i) == TurnedAway(threads, weather, clock, i)
  {
    var before := threads[..|threads| - 1];
    forall i | 0 <= i < |before|
      ensures TurnedAway(before, weather, clock, i) == TurnedAway(threads, weather, clock, i)
    {
      assert before[..i] == threads[..i];
    }
  }

  lemma OfferedSplit(threads: seq<ThreadTelemetry>, weather: nat -> Weather, clock: nat, refused: bool)
    requires threads != []
    ensures Offered(threads, weather, clock, refused)
         == Offered(threads[..|threads| - 1], weather, clock, refused)
            + if TurnedAway(threads, weather, clock, |threads| - 1) == refused then threads[|threads| - 1].batch else {}
  {
  }

  lemma FinalStep(p: Pile<Fact>, threads: seq<ThreadTelemetry>, weather: nat -> Weather, clock: nat)
    requires threads != []
    ensures var e, t := FinalFlush(p, threads[..|threads| - 1], weather, clock), threads[|threads| - 1];
            var after := FinalFlush(p, threads, weather, clock);
            && Publications(threads) == Publications(threads[..|threads| - 1]) + (if t.batch == {} then 0 else 1)
            && after.clock == e.clock + (if t.batch == {} then 0 else 1)
            && after.pile == if t.batch == {} then e.pile else Publish(e.pile, t.batch, weather(e.clock))
  {
  }

  /** The pile gains exactly the batches that were not turned away. */
  lemma {:induction false} FinalPublished(p: Pile<Fact>, threads: seq<ThreadTelemetry>,
                                          weather: nat -> Weather, clock: nat)
    ensures var e := FinalFlush(p, threads, weather, clock);
            && e.clock == clock + Publications(threads)
            && Published(e.pile) == Published(p) + Offered(threads, weather, clock, false)
    decreases |threads|
  {
    hide Publish, Union, Offered, FinalFlush, Publications;
    if threads == [] {
      FinalNone(p, weather, clock);
    } else {
      var before, t := threads[..|threads| - 1], threads[|threads| - 1];
      FinalPublished(p, before, weather, clock);
      FinalStep(p, threads, weather, clock);
      OfferedSplit(threads, weather, clock, false);
      PublishAdds(FinalFlush(p, before, weather, clock).pile, t.batch, weather(clock + Publications(before)));
    }
  }

  /** One more turn of the registry loop. */
  lemma FinalSnoc(p: Pile<Fact>, threads: seq<ThreadTelemetry>, weather: nat -> Weather, clock: nat, i: nat)
    requires i < |threads|
    ensures var e, t := FinalFlush(p, threads[..i], weather, clock), threads[i];
            FinalFlush(p, threads[..i + 1], weather, clock)
            == if t.batch == {} then e.(threads := e.threads + [t])
               else
                 var w := weather(e.clock);
                 Ending(Publish(e.pile, t.batch, w),
                        e.threads + [if Succeeds(w) then t.(batch := {}) else t],
                        e.clock + 1)
  {
    assert threads[..i + 1][..i] == threads[..i];
  }

  lemma FinalNone(p: Pile<Fact>, weather: nat -> Weather, clock: nat)
    ensures FinalFlush(p, [], weather, clock) == Ending(p, [], clock)
    ensures Publications([]) == 0 && Offered([], weather, clock, false) == {}
  {
  }

  /** COMPLETENESS AFTER DROP: everything recorded is in the pile if and only if
      what was turned away is there by other means. */
  lemma CompleteIff(recorded: set<Fact>, threads: seq<ThreadTelemetry>, p: Pile<Fact>,
                    weather: nat -> Weather, clock: nat, last: set<Fact>)
    requires Sound(p) && Kept(recorded, threads, p) && forall f :: f in last ==> f.SessionEnd?
    ensures recorded <= Published(p) + Offered(threads, weather, clock, false) + last
            <==> Offered(threads, weather, clock, true) <= Published(p) + Offered(threads, weather, clock, false)
  {
    hide Offered, Batches;
    OfferedAll(threads, weather, clock);
    UnionPrefix(p.log, p.durable);
  }

  /** With batches that share nothing with each other or with the pile, that is:
      if and only if no last commit was refused. */
  lemma NoneTurnedAway(threads: seq<ThreadTelemetry>, published: set<Fact>, weather: nat -> Weather, clock: nat)
    requires Separate(threads, published)
    ensures Offered(threads, weather, clock, true) <= published + Offered(threads, weather, clock, false)
            <==> forall i :: 0 <= i < |threads| ==> !TurnedAway(threads, weather, clock, i)
  {
    hide Offered, TurnedAway;
    forall f
      ensures f in Offered(threads, weather, clock, true) <==>
                exists i :: 0 <= i < |threads| && f in threads[i].batch && TurnedAway(threads, weather, clock, i)
      ensures f in Offered(threads, weather, clock, false) <==>
                exists i :: 0 <= i < |threads| && f in threads[i].batch && !TurnedAway(threads, weather, clock, i)
    {
      OfferedBy(threads, weather, clock, true, f);
      OfferedBy(threads, weather, clock, false, f);
    }
    forall i | 0 <= i < |threads| && TurnedAway(threads, weather, clock, i)
      ensures !(Offered(threads, weather, clock, true) <= published + Offered(threads, weather, clock, false))
    {
      TurnedAwayHasFacts(threads, weather, clock, i);
      var f :| f in threads[i].batch;
      assert f in Offered(threads, weather, clock, true) && f !in published;
    }
  }

  /** Both, for the pile as `Drop` leaves it. */
  lemma DropLaw(recorded: set<Fact>, threads: seq<ThreadTelemetry>, p: Pile<Fact>, weather: nat -> Weather,
                clock: nat, last: set<Fact>, published: set<Fact>)
    requires Sound(p) && Kept(recorded, threads, p) && forall f :: f in last ==> f.SessionEnd?
    requires published == Published(p) + Offered(threads, weather, clock, false) + last
    ensures recorded <= published <==>
              Offered(threads, weather, clock, true) <= Published(p) + Offered(threads, weather, clock, false)
    ensures Separate(threads, Published(p)) ==>
              (recorded <= published <==> forall i :: 0 <= i < |threads| ==> !TurnedAway(threads, weather, clock, i))
  {
    hide Offered, TurnedAway, Separate, Union;
    CompleteIff(recorded, threads, p, weather, clock, last);
    if Separate(threads, Published(p)) {
      NoneTurnedAway(threads, Published(p), weather, clock);
    }
  }

  lemma TurnedAwayHasFacts(threads: seq<ThreadTelemetry>, weather: nat -> Weather, clock: nat, i: nat)
    requires i < |threads| && TurnedAway(threads, weather, clock, i)
    ensures threads[i].batch != {}
  {
  }

  /** No fact is in two batches, or in a batch and the pile. */
  ghost predicate Separate(threads: seq<ThreadTelemetry>, published: set<Fact>) {
    && (forall i :: 0 <= i < |threads| ==> threads[i].batch !! published)
    && (forall i, j :: 0 <= i < j < |threads| ==> threads[i].batch !! threads[j].batch)
  }

  /** Where the facts of a callback go. */
  function Batched(threads: seq<ThreadTelemetry>, slots: map<nat, nat>, thread: nat, facts: set<Fact>, now: nat)
    : seq<ThreadTelemetry>
  {
    if thread in slots && slots[thread] < |threads| then
      var t := threads[slots[thread]];
      threads[slots[thread] := t.(batch := t.batch + facts)]
    else threads + [ThreadTelemetry(facts, now)]
  }

  class TelemetryInner {
    const flushInterval: nat
    const weather: nat -> Weather
    var clock: nat
    var pile: Pile<Fact>
    /** The destination is taken by `Drop`. */
    var connected: bool
    var shutdown: bool
    var registry: seq<ThreadTelemetry>
    /** Which registry slot belongs to which thread. */
    var slots: map<nat, nat>
    ghost var recorded: set<Fact>

    ghost predicate Valid()
      reads this
    {
      && Sound(pile)
      && Kept(recorded, registry, pile)
      && (forall t :: t in slots ==> slots[t] < |registry|)
    }

    constructor (pile0: Pile<Fact>, interval: nat, weather0: nat -> Weather)
      requires Sound(pile0)
      ensures Valid() && recorded == {} && connected && !shutdown
      ensures flushInterval == interval && weather == weather0 && clock == 0
      ensures pile == pile0 && registry == [] && slots == map[]
    {
      flushInterval, weather, clock := interval, weather0, 0;
      pile, connected, shutdown := pile0, true, false;
      registry, slots, recorded := [], map[], {};
    }

    method GetOrInitThread(thread: nat, now: nat) returns (i: nat)
      requires Valid()
      modifies this`registry, this`slots
      ensures Valid() && i < |registry| && thread in slots && slots[thread] == i
      ensures thread in old(slots) ==> i == old(slots)[thread] && registry == old(registry)
      ensures thread !in old(slots) ==>
                i == |old(registry)| && registry == old(registry) + [ThreadTelemetry({}, now)]
    {
      if thread in slots {
        return slots[thread];
      }
      KeptFresh(recorded, registry, pile, ThreadTelemetry({}, now));
      i := |registry|;
      slots := slots[thread := i];
      registry := registry + [ThreadTelemetry({}, now)];
    }

    /** Publish a copy of the batch; clear it only after commit and flush. */
    method PublishPending(i: nat) returns (attempt: Attempt)
      requires Valid() && i < |registry|
      modifies this`clock, this`pile, this`registry
      ensures Valid() && Durable(old(pile)) <= Durable(pile)
      ensures attempt.Nothing? <==> old(registry)[i].batch == {}
      ensures attempt.Cleared? <==> old(registry)[i].batch != {} && Succeeds(weather(old(clock)))
      ensures attempt.Failed? || attempt.Nothing? ==> registry == old(registry)
      ensures attempt.Nothing? ==> pile == old(pile) && clock == old(clock)
      ensures !attempt.Nothing? ==>
                pile == Publish(old(pile), old(registry)[i].batch, weather(old(clock))) && clock == old(clock) + 1
      ensures attempt.Cleared? ==>
                && registry == old(registry)[i := old(registry)[i].(batch := {})]
                && old(registry)[i].batch <= Durable(pile)
    {
      hide Batches, Durable;
      var state := registry[i];
      if state.batch == {} {
        return Nothing;
      }
      var w := weather(clock);
      clock := clock + 1;
      PublishLaw(pile, state.batch, w);
      BatchIn(registry, i);
      KeptAfter(recorded, registry, pile, i, state, Publish(pile, state.batch, w));
      assert registry[i := state] == registry;
      ghost var cleared := state.(batch := {});
      if Succeeds(w) {
        KeptAfter(recorded, registry, pile, i, cleared, Publish(pile, state.batch, w));
      }
      pile := Commit(pile, state.batch, w.commit);
      if !w.commit.Done? {
        return Failed;
      }
      pile := Flush(pile, w);
      if !w.flushed {
        return Failed;
      }
      registry := registry[i := state.(batch := {})];
      return Cleared;
    }

    /** Flush the batch when the interval is over. After a failure the time stamp
        stays, so the next callback tries again. */
    method MaybeFlush(i: nat, now: nat)
      requires Valid() && i < |registry|
      modifies this`clock, this`pile, this`registry
      ensures Valid() && |registry| == |old(registry)|
      ensures Durable(old(pile)) <= Durable(pile)
      ensures forall k :: 0 <= k < |registry| && k != i ==> registry[k] == old(registry)[k]
      ensures || registry[i].batch == old(registry)[i].batch
              || (registry[i].batch == {} && old(registry)[i].batch <= Durable(pile))
      ensures registry[i].lastFlush == now || registry[i] == old(registry)[i]
      ensures connected && registry[i].lastFlush != old(registry)[i].lastFlush ==> registry[i].batch == {}
      ensures connected && now >= old(registry)[i].lastFlush + flushInterval && Succeeds(weather(old(clock))) ==>
                registry[i] == ThreadTelemetry({}, now)
      ensures now < old(registry)[i].lastFlush + flushInterval ==>
                registry == old(registry) && pile == old(pile) && clock == old(clock)
      ensures !connected ==> pile == old(pile) && registry[i].batch == old(registry)[i].batch
    {
      hide Batches, Durable;
      if now < registry[i].lastFlush + flushInterval {
        return;
      }
      if registry[i].batch == {} {
        Stamp(i, now);
        return;
      }
      if connected {
        var attempt := PublishPending(i);
        if attempt.Failed? {
          return;
        }
      }
      Stamp(i, now);
    }

    method Stamp(i: nat, now: nat)
      requires Valid() && i < |registry|
      modifies this`registry
      ensures Valid() && registry == old(registry)[i := old(registry)[i].(lastFlush := now)]
    {
      hide Batches, Durable;
      var t := registry[i].(lastFlush := now);
      BatchIn(registry, i);
      KeptAfter(recorded, registry, pile, i, t, pile);
      registry := registry[i := t];
    }

    /** A span callback on `thread`: new facts for its batch, and a flush when the
        span closes. After shutdown it does nothing. */
    method Callback(thread: nat, facts: set<Fact>, closes: bool, now: nat)
      requires Valid() && forall f :: f in facts ==> f.Entry?
      modifies this
      ensures Valid() && shutdown == old(shutdown) && connected == old(connected)
      ensures recorded == if old(shutdown) then old(recorded) else old(recorded) + facts
      ensures Durable(old(pile)) <= Durable(pile)
      ensures !old(shutdown) && !closes ==>
                && pile == old(pile) && clock == old(clock)
                && registry == Batched(old(registry), old(slots), thread, facts, now)
      ensures !old(shutdown) && closes && thread in old(slots) ==>
                var i := old(slots)[thread];
                var due := now >= old(registry)[i].lastFlush + flushInterval;
                && |registry| == |old(registry)|
                && (!due ==> pile == old(pile) && registry == Batched(old(registry), old(slots), thread, facts, now))
                && (due && connected && Succeeds(weather(old(clock))) ==>
                      registry[i] == ThreadTelemetry({}, now)
                      && old(registry)[i].batch + facts <= Durable(pile))
    {
      hide Batches, Durable;
      if shutdown {
        return;
      }
      var i := GetOrInitThread(thread, now);
      var t := registry[i].(batch := registry[i].batch + facts);
      BatchIn(registry, i);
      KeptAfter(recorded, registry, pile, i, t, pile);
      assert recorded + t.batch == recorded + facts;
      assert {} + facts == facts;
      registry := registry[i := t];
      recorded := recorded + facts;
      assert registry == Batched(old(registry), old(slots), thread, facts, now) by {
        if thread !in old(slots) {
          assert registry == old(registry) + [ThreadTelemetry(facts, now)];
        }
      }
      if closes {
        MaybeFlush(i, now);
      }
    }

    /** Flush every thread's batch once more, commit the end marker and close.
        `warned` are the threads whose flush failed, `ended` tells whether the end
        marker was committed. Whatever is missing from the pile is in one of the
        warned threads' batches. */
    method Drop(at: nat) returns (warned: set<nat>, ended: bool)
      requires Valid() && connected
      modifies this
      ensures Valid() && shutdown && !connected && |registry| == |old(registry)| && recorded == old(recorded)
      ensures forall i :: i in warned ==> i < |registry| && registry[i] == old(registry)[i]
      ensures forall i :: 0 <= i < |registry| && i !in warned ==> registry[i].batch == {}
      ensures FairWeather(weather) ==> warned == {} && ended
      ensures forall f :: f in recorded && f !in Durable(pile) ==>
                exists i :: i in warned && i < |registry| && f in registry[i].batch
      ensures ended <==> weather(old(clock + Publications(registry))).commit.Done?
      ensures ended ==> SessionEnd(at) in Published(pile)
      ensures recorded <= Published(pile) <==>
                Offered(old(registry), weather, old(clock), true)
                <= Published(old(pile)) + Offered(old(registry), weather, old(clock), false)
      ensures old(Separate(registry, Published(pile))) ==>
                (recorded <= Published(pile) <==>
                 forall i :: 0 <= i < |registry| ==> !TurnedAway(old(registry), weather, old(clock), i))
    {
      hide Batches, Durable, Offered, TurnedAway, Publish, Separate, FinalFlush, Publications, Union;
      ghost var p0, threads, c0 := pile, registry, clock;
      shutdown := true;
      warned := FlushAll();
      ghost var e := FinalFlush(p0, threads, weather, c0);
      FinalPublished(p0, threads, weather, c0);
      Missing(recorded, registry, pile, warned);
      var w := weather(clock);
      EndGrows(pile, {SessionEnd(at)}, w);
      connected := false;
      UnionSnoc(pile.log, {SessionEnd(at)});
      pile := Commit(pile, {SessionEnd(at)}, w.commit);
      ended := w.commit.Done?;
      pile := Flush(pile, w);
      ghost var last := if w.commit.Refused? then {} else {SessionEnd(at)};
      assert Published(pile) == Published(e.pile) + last;
      DropLaw(recorded, threads, p0, weather, c0, last, Published(pile));
    }

    /** The registry loop of `Drop`. */
    method FlushAll() returns (warned: set<nat>)
      requires Valid()
      modifies this`clock, this`pile, this`registry
      ensures Valid() && Ending(pile, registry, clock) == FinalFlush(old(pile), old(registry), weather, old(clock))
      ensures |registry| == |old(registry)|
      ensures forall i :: i in warned ==> i < |registry| && registry[i] == old(registry)[i]
      ensures forall i :: 0 <= i < |registry| && i !in warned ==> registry[i].batch == {}
      ensures FairWeather(weather) ==> warned == {}
    {
      hide Batches, Durable, Publish, FinalFlush, Kept;
      FinalNone(pile, weather, clock);
      assert registry[..0] == [];
      warned := {};
      for i := 0 to |registry|
        invariant Valid() && |registry| == |old(registry)|
        invariant Ending(pile, registry[..i], clock)
               == FinalFlush(old(pile), old(registry)[..i], weather, old(clock))
        invariant FairWeather(weather) ==> warned == {}
        invariant forall k :: k in warned ==> k < i && registry[k] == old(registry)[k]
        invariant forall k :: 0 <= k < i && k !in warned ==> registry[k].batch == {}
        invariant forall k :: i <= k < |registry| ==> registry[k] == old(registry)[k]
      {
        ghost var done := registry[..i];
        var attempt := PublishPending(i);
        if attempt.Failed? {
          warned := warned + {i};
        }
        assert registry[..i + 1] == done + [registry[i]];
        FinalSnoc(old(pile), old(registry), weather, old(clock), i);
      }
      assert registry[..|registry|] == registry && old(registry)[..|registry|] == old(registry);
    }
  }

  /** Committing and closing only adds. */
  lemma EndGrows(p: Pile<Fact>, fragment: set<Fact>, w: Weather)
    requires Sound(p)
    ensures var q := Flush(Commit(p, fragment, w.commit), w); Sound(q) && Durable(p) <= Durable(q)
  {
    var q := Flush(Commit(p, fragment, w.commit), w);
    var ahead := q.log[..q.durable];
    UnionPrefix(ahead, p.durable);
    assert ahead[..p.durable] == p.log[..p.durable];
  }

  lemma Missing(recorded: set<Fact>, threads: seq<ThreadTelemetry>, p: Pile<Fact>, warned: set<nat>)
    requires Sound(p) && Kept(recorded, threads, p)
    requires forall i :: 0 <= i < |threads| && i !in warned ==> threads[i].batch == {}
    ensures forall f :: f in recorded && f !in Durable(p) ==>
              exists i :: i in warned && i < |threads| && f in threads[i].batch
  {
    hide Batches, Durable;
    forall f | f in recorded && f !in Durable(p)
      ensures exists i :: i in warned && i < |threads| && f in threads[i].batch
    {
      SomeBatch(threads, f);
    }
  }

  /** Unlike the ledger's, this end marker does not certify its session: here is
      a sink whose one batch is refused and whose end is committed. */
  method EndWithoutFacts(id: nat, at: nat) returns (sink: TelemetryInner, ended: bool)
    ensures ended && SessionEnd(at) in Published(sink.pile)
    ensures Entry(id) in sink.recorded && Entry(id) !in Published(sink.pile)
  {
    hide FinalFlush;
    var weather := c => if c == 0 then Weather(Refused, false, 0) else Weather(Done, true, 0);
    sink := new TelemetryInner(Pile([], 0), 10, weather);
    sink.Callback(1, {Entry(id)}, false, 0);
    ghost var threads := sink.registry;
    assert threads == [ThreadTelemetry({Entry(id)}, 0)];
    assert threads[..0] == [] && Publications(threads) == 1;
    assert TurnedAway(threads, weather, 0, 0);
    var warned;
    warned, ended := sink.Drop(at);
    assert !(sink.recorded <= Published(sink.pile));
  }
}
