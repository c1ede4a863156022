/** What the driver does not do: a hop runs only for a reason, and what a pass
reports is what its events say. */
module MaintenanceWork {
  import opened Wrappers
  import opened Store
  import opened MaintenanceOrder
  import opened MaintenanceModel
  import opened MaintenanceRuns
  import opened MaintenanceAttempts
  import opened MaintenanceRetry

  // ---- one hop ----

  lemma ChangedIsOutdated(hop: Hop, now: Snapshot)
    requires hop.before <= now
    ensures Changed(hop.before, now, hop.interests) <==> Outdated(hop, now)
  {
    if Outdated(hop, now) {
      var x :| x in now && x !in hop.before && Relevant(x, hop.interests);
      assert x in (now - hop.before) + (hop.before - now);
    }
  }

  /** RUN OR SKIP: once its snapshot is taken, a planned handle runs exactly when
      there is a reason to. One that is skipped leaves events, counts and store as
      they were. */
  lemma RunsForAReason(cfg: Config, env: Env, s: State, h: Handle)
    requires Grounded(s) && !Drops(env, s)
    requires var s1 := Advance(env, s); !Fails(env, s1)
    ensures var now := Advance(env, Advance(env, s));
            var (s', exit) := HopAt(cfg, env, s, h);
            && (Reason(s.hops, h, now.store) ==>
                  && |s'.events| > |s.events| && s'.events[|s.events|] == HopStarted(h)
                  && (exit == Done ==> h in s'.hops && s'.hops[h].before == now.store))
            && (!Reason(s.hops, h, now.store) ==>
                  exit == Done && s'.events == s.events && s'.pass == s.pass && s'.store == now.store)
  {
    var now := Advance(env, Advance(env, s));
    if h in s.hops {
      ChangedIsOutdated(s.hops[h], now.store);
    }
  }

  // ---- every hop of a pass and of a tick ----

  /** Every hop started after the first events had a reason at the beginning, as
      far as the store has grown by now. */
  ghost predicate Justified(first: State, s: State) {
    && |first.events| <= |s.events|
    && forall i :: |first.events| <= i < |s.events| && s.events[i].HopStarted? ==>
         Reason(first.hops, s.events[i].collection, s.store)
  }

  /** Handles that are still to be attempted have their first entry, up to the
      boundary of an answer that did not change. */
  ghost predicate Untouched(first: State, s: State) {
    && first.store <= s.store
    && (forall h :: h in s.hops ==> s.hops[h].before <= s.store)
    && (forall h :: h !in s.attempted ==>
          && (h in s.hops <==> h in first.hops)
          && (h in s.hops ==> s.hops[h] == first.hops[h]))
  }

  lemma ReasonGrows(hops: map<Handle, Hop>, h: Handle, now: Snapshot, later: Snapshot)
    requires now <= later && Reason(hops, h, now)
    ensures Reason(hops, h, later)
  {
    if !Due(hops, h) {
      var x :| x in now && x !in hops[h].before && Relevant(x, hops[h].interests);
      assert x in later;
    }
  }

  /** Time and harmless events keep the justification. */
  lemma StillJustified(first: State, s: State, more: State)
    requires Justified(first, s) && s.store <= more.store && Longer(s.events, more.events)
    requires forall i :: |s.events| <= i < |more.events| && more.events[i].HopStarted? ==>
               Reason(first.hops, more.events[i].collection, more.store)
    ensures Justified(first, more)
  {
    hide Reason;
    forall i | |first.events| <= i < |more.events| && more.events[i].HopStarted?
      ensures Reason(first.hops, more.events[i].collection, more.store)
    {
      if i < |s.events| {
        assert more.events[i] == more.events[..|s.events|][i];
        ReasonGrows(first.hops, s.events[i].collection, s.store, more.store);
      }
    }
  }

  /** What one hop adds. */
  lemma HopAdds(cfg: Config, env: Env, s: State, h: Handle)
    requires forall g :: g in s.hops ==> s.hops[g].before <= s.store
    ensures var (s', exit) := HopAt(cfg, env, s, h);
            && Longer(s.events, s'.events) && s.store <= s'.store && s'.attempted == s.attempted + [h]
            && (forall i :: |s.events| <= i < |s'.events| && s'.events[i].HopStarted? ==>
                  s'.events[i].collection == h && Reason(s.hops, h, s'.store))
            && (forall g :: g in s'.hops ==> s'.hops[g].before <= s'.store)
            && (forall g :: g != h ==>
                  (g in s'.hops <==> g in s.hops) && (g in s'.hops ==> s'.hops[g] == s.hops[g]))
  {
    hide Relevant, Reason, Changed, Due;
    var s0 := s.(attempted := s.attempted + [h]);
    var s1 := Advance(env, s0);
    var now := Advance(env, s1);
    if !Drops(env, s0) && !Fails(env, s1) && NeedsWork(now.hops, h, now.store) {
      WorkHasReason(s.hops, h, now.store);
      var s' := HopAt(cfg, env, s, h).0;
      ReasonGrows(s.hops, h, now.store, s'.store);
    }
  }

  lemma WorkHasReason(hops: map<Handle, Hop>, h: Handle, now: Snapshot)
    requires h in hops ==> hops[h].before <= now
    ensures NeedsWork(hops, h, now) <==> Reason(hops, h, now)
  {
    if h in hops {
      ChangedIsOutdated(hops[h], now);
    }
  }

  lemma HopJustified(cfg: Config, env: Env, first: State, s: State, h: Handle)
    requires Untouched(first, s) && Justified(first, s) && h !in s.attempted
    ensures var s' := HopAt(cfg, env, s, h).0;
            Untouched(first, s') && Justified(first, s') && s'.attempted == s.attempted + [h]
  {
    hide HopAt, Reason;
    HopAdds(cfg, env, s, h);
    var s' := HopAt(cfg, env, s, h).0;
    SameReason(first.hops, s.hops, h, s'.store);
    StillJustified(first, s, s');
  }

  lemma SameReason(a: map<Handle, Hop>, b: map<Handle, Hop>, h: Handle, now: Snapshot)
    requires (h in a <==> h in b) && (h in a ==> a[h] == b[h])
    ensures Reason(a, h, now) <==> Reason(b, h, now)
  {
  }

  lemma {:induction false} HopsAttemptMore(cfg: Config, env: Env, s: State, order: seq<Handle>)
    ensures s.attempted <= HopsAt(cfg, env, s, order).0.attempted
    decreases |order|
  {
    if order != [] {
      HopsAttemptMore(cfg, env, HopAt(cfg, env, s, order[0]).0, order[1..]);
    }
  }

  lemma {:induction false} TargetsAttemptMore(cfg: Config, env: Env, s: State, targets: seq<Handle>)
    ensures s.attempted <= TargetsAt(cfg, env, s, targets).0.attempted
    decreases |targets|
  {
    hide HopsAt, Order;
    if targets != [] && !Fails(env, s) {
      var (s2, w) := PlanAt(cfg, Advance(env, s), targets[0]);
      if !w.fault.Fine? {
        var s3 := s2.(events := s2.events + [Failure(Collection(targets[0]))], pass := CountFailure(s2.pass));
        TargetsAttemptMore(cfg, env, s3, targets[1..]);
      } else {
        HopsAttemptMore(cfg, env, s2, w.order);
        TargetsAttemptMore(cfg, env, HopsAt(cfg, env, s2, w.order).0, targets[1..]);
      }
    }
  }

  lemma PrefixDistinct(a: seq<Handle>, h: Handle, b: seq<Handle>)
    requires a + [h] <= b && Distinct(b)
    ensures h !in a
  {
    assert b[|a|] == (a + [h])[|a|] == h;
    forall i | 0 <= i < |a|
      ensures a[i] != h
    {
      assert b[i] == (a + [h])[i] == a[i];
    }
  }

  lemma {:induction false} HopsJustified(cfg: Config, env: Env, first: State, s: State, order: seq<Handle>)
    requires Untouched(first, s) && Justified(first, s)
    requires Distinct(HopsAt(cfg, env, s, order).0.attempted)
    ensures var s' := HopsAt(cfg, env, s, order).0; Untouched(first, s') && Justified(first, s')
    decreases |order|
  {
    hide HopAt, Untouched, Justified, Distinct;
    if order != [] {
      var (s1, exit) := HopAt(cfg, env, s, order[0]);
      AttemptedAfter(cfg, env, s, order[0]);
      HopsAttemptMore(cfg, env, s1, order[1..]);
      PrefixDistinct(s.attempted, order[0], HopsAt(cfg, env, s, order).0.attempted);
      HopJustified(cfg, env, first, s, order[0]);
      if exit == Done {
        HopsJustified(cfg, env, first, s1, order[1..]);
      }
    }
  }

  lemma AttemptedAfter(cfg: Config, env: Env, s: State, h: Handle)
    ensures HopAt(cfg, env, s, h).0.attempted == s.attempted + [h]
  {
  }

  lemma {:induction false} TargetsJustified(cfg: Config, env: Env, first: State, s: State, targets: seq<Handle>)
    requires Untouched(first, s) && Justified(first, s)
    requires Distinct(TargetsAt(cfg, env, s, targets).0.attempted)
    ensures var s' := TargetsAt(cfg, env, s, targets).0; Untouched(first, s') && Justified(first, s')
    decreases |targets|
  {
    hide HopsAt, Order, Distinct, Reason;
    if targets != [] {
      var s1 := Advance(env, s);
      LongerMeans(s.events, s.events + []);
      StillJustified(first, s, s1);
      if !Fails(env, s) {
        var (s2, w) := PlanAt(cfg, s1, targets[0]);
        if !w.fault.Fine? {
          var s3 := s2.(events := s2.events + [Failure(Collection(targets[0]))], pass := CountFailure(s2.pass));
          StillJustified(first, s2, s3);
          TargetsJustified(cfg, env, first, s3, targets[1..]);
        } else {
          var (s3, exit) := HopsAt(cfg, env, s2, w.order);
          if exit == Done {
            TargetsAttemptMore(cfg, env, s3, targets[1..]);
            DistinctPrefix(s3.attempted, TargetsAt(cfg, env, s3, targets[1..]).0.attempted);
          }
          HopsJustified(cfg, env, first, s2, w.order);
          if exit == Done {
            TargetsJustified(cfg, env, first, s3, targets[1..]);
          }
        }
      }
    }
  }

  lemma DistinctPrefix(a: seq<Handle>, b: seq<Handle>)
    requires a <= b && Distinct(b)
    ensures Distinct(a)
  {
    forall i, j | 0 <= i < j < |a|
      ensures a[i] != a[j]
    {
      assert a[i] == b[i] && a[j] == b[j];
    }
  }

  /** No hop of a pass starts without a reason, however the pass ends. */
  lemma PassJustified(cfg: Config, env: Env, s: State)
    requires forall h :: h in s.hops ==> s.hops[h].before <= s.store
    ensures Justified(s, PassAt(cfg, env, s).0)
  {
    hide TargetsAt, Select, Distinct, Reason;
    PassOrderly(cfg, env, s);
    var s1 := Advance(env, s.(attempted := [], plans := [], pass := Pass(0, 0, 0, 0)));
    if !Fails(env, s) {
      var (s2, targets) := StartPass(cfg, s1);
      assert Untouched(s, s2) && Justified(s, s2);
      TargetsJustified(cfg, env, s, s2, targets);
    }
  }

  /** NO HOP WITHOUT A REASON: in every environment, each hop that a tick starts had
      no entry when the tick began, or was marked for retry, or has a relevant
      item in the store that was not there at its boundary. */
  lemma TickJustified(cfg: Config, env: Env, s: State)
    requires Sound(s)
    ensures var s' := TickAt(cfg, env, s).0;
            forall i :: |s.events| <= i < |s'.events| && s'.events[i].HopStarted? ==>
              Reason(s.hops, s'.events[i].collection, s'.store)
  {
    hide PassAt, Reason;
    var s1 := Advance(env, s);
    if !Fails(env, s) && !Quiet(s1, s1.store) {
      var s2 := s1.(catchUp := true);
      PassJustified(cfg, env, s2);
      var s3 := PassAt(cfg, env, s2).0;
      var s' := TickAt(cfg, env, s).0;
      forall i | |s.events| <= i < |s'.events| && s'.events[i].HopStarted?
        ensures Reason(s.hops, s'.events[i].collection, s'.store)
      {
        assert s'.events[i] == s3.events[i];
        ReasonGrows(s.hops, s'.events[i].collection, s3.store, s'.store);
      }
    }
  }

  // ---- what a pass remembers ----

  /** After the first `from` events, a failure of `h` was reported. */
  ghost predicate Faulted(events: seq<Event>, from: nat, h: Handle) {
    exists i :: from <= i < |events| &&
      (events[i] == Failure(Collection(h))
       || (events[i].HopFinished? && events[i].collection == h && !events[i].ok))
  }

  lemma FaultedStays(a: seq<Event>, b: seq<Event>, from: nat, start: nat, h: Handle)
    requires Longer(a, b) && Faulted(a, from, h) && start <= from
    ensures Faulted(b, start, h)
  {
    var i :| from <= i < |a| && (a[i] == Failure(Collection(h))
                                 || (a[i].HopFinished? && a[i].collection == h && !a[i].ok));
    assert b[i] == b[..|a|][i];
  }

  /** What was attempted is on record, unless it failed just now. */
  ghost predicate OnRecord(n: nat, s: State) {
    n <= |s.events| && forall h :: h in s.attempted && Due(s.hops, h) ==> Faulted(s.events, n, h)
  }

  lemma HopRecords(cfg: Config, env: Env, s: State, h: Handle)
    ensures var (s', exit) := HopAt(cfg, env, s, h);
            && Longer(s.events, s'.events) && s'.attempted == s.attempted + [h]
            && (exit == Done && Due(s'.hops, h) ==> Faulted(s'.events, |s.events|, h))
            && (forall g :: g != h ==> Due(s'.hops, g) == Due(s.hops, g))
  {
    hide Changed, Tally;
    var (s', exit) := HopAt(cfg, env, s, h);
    if exit == Done && Due(s'.hops, h) {
      var last := s'.events[|s'.events| - 1];
      assert last == Failure(Collection(h)) || (last.HopFinished? && last.collection == h && !last.ok);
    }
  }

  lemma StaysOnRecord(n: nat, s: State, more: State)
    requires OnRecord(n, s) && Longer(s.events, more.events)
    requires more.attempted == s.attempted && more.hops == s.hops
    ensures OnRecord(n, more)
  {
    hide Faulted, Due;
    forall h | h in more.attempted && Due(more.hops, h)
      ensures Faulted(more.events, n, h)
    {
      FaultedStays(s.events, more.events, n, n, h);
    }
  }

  lemma {:induction false} HopsRecord(cfg: Config, env: Env, n: nat, s: State, order: seq<Handle>)
    requires OnRecord(n, s) && HopsAt(cfg, env, s, order).1 == Done
    ensures OnRecord(n, HopsAt(cfg, env, s, order).0)
    decreases |order|
  {
    hide HopAt, Faulted, Due;
    if order != [] {
      HopRecords(cfg, env, s, order[0]);
      var s1 := HopAt(cfg, env, s, order[0]).0;
      LongerMeans(s.events, s1.events);
      forall h | h in s1.attempted && Due(s1.hops, h)
        ensures Faulted(s1.events, n, h)
      {
        if h == order[0] {
          FaultedStays(s1.events, s1.events, |s.events|, n, h);
        } else {
          FaultedStays(s.events, s1.events, n, n, h);
        }
      }
      HopsRecord(cfg, env, n, s1, order[1..]);
    }
  }

  lemma {:induction false} TargetsRecord(cfg: Config, env: Env, n: nat, s: State, targets: seq<Handle>)
    requires OnRecord(n, s) && TargetsAt(cfg, env, s, targets).1 == Done
    ensures OnRecord(n, TargetsAt(cfg, env, s, targets).0)
    decreases |targets|
  {
    hide HopsAt, Order, OnRecord;
    if targets != [] {
      var (s2, w) := PlanAt(cfg, Advance(env, s), targets[0]);
      SameEvents(s.events);
      StaysOnRecord(n, s, s2);
      if !w.fault.Fine? {
        var s3 := s2.(events := s2.events + [Failure(Collection(targets[0]))], pass := CountFailure(s2.pass));
        LongerSnoc(s2.events, Failure(Collection(targets[0])));
        StaysOnRecord(n, s2, s3);
        TargetsRecord(cfg, env, n, s3, targets[1..]);
      } else {
        HopsRecord(cfg, env, n, s2, w.order);
        TargetsRecord(cfg, env, n, HopsAt(cfg, env, s2, w.order).0, targets[1..]);
      }
    }
  }

  /** A completed pass leaves a record of everything it attempted, free of retry
      marks but for what failed in it; and of nothing else. */
  lemma TickRemembers(cfg: Config, env: Env, s: State)
    requires TickAt(cfg, env, s).1.Ran?
    ensures var s' := TickAt(cfg, env, s).0;
            && (forall h :: h in s'.hops ==> h in s'.attempted)
            && (forall h :: h in s'.attempted && Due(s'.hops, h) ==> Faulted(s'.events, |s.events|, h))
  {
    hide TargetsAt, Select, Faulted;
    var n := |s.events|;
    var s1 := Advance(env, Advance(env, s).(catchUp := true, attempted := [], plans := [], pass := Pass(0, 0, 0, 0)));
    var (s2, targets) := StartPass(cfg, s1);
    TargetsRecord(cfg, env, n, s2, targets);
    var s3 := TargetsAt(cfg, env, s2, targets).0;
    var s' := TickAt(cfg, env, s).0;
    assert s'.events == s3.events + [PassFinished(s'.passes, s3.pass)];
    LongerSnoc(s3.events, PassFinished(s'.passes, s3.pass));
    forall h | h in s'.attempted && Due(s'.hops, h)
      ensures Faulted(s'.events, n, h)
    {
      assert Due(s3.hops, h);
      FaultedStays(s3.events, s'.events, n, n, h);
    }
  }

  // ---- boundaries after an idle tick ----

  /** An idle tick brings every boundary that needs no retry up to the snapshot it
      looked at, and adds nothing else. */
  lemma IdleAdvances(cfg: Config, env: Env, s: State)
    requires cfg.rebase && Sound(s) && TickAt(cfg, env, s).1 == Idle
    ensures var s' := TickAt(cfg, env, s).0;
            && s'.hops.Keys == s.hops.Keys
            && (forall h :: h in s.hops && !s.hops[h].retry ==> s'.hops[h] == s.hops[h].(before := s'.store))
            && s'.baseline == Some(s'.store) && s'.events == s.events && s'.pass == s.pass
  {
    TickSound(cfg, env, s);
    var s1 := Advance(env, s);
    forall h | h in s.hops && !s.hops[h].retry
      ensures !Changed(s.hops[h].before, s1.store, s.hops[h].interests)
    {
      GoesQuiet(s, s1.store, h);
    }
  }

  lemma GoesQuiet(s: State, now: Snapshot, h: Handle)
    requires Sound(s) && !s.catchUp && s.store <= now && !Changed(s.baseline.value, now, s.interests)
    requires h in s.hops && !s.hops[h].retry
    ensures !Changed(s.hops[h].before, now, s.hops[h].interests)
  {
    QuietIsSettled(s, now);
  }

  // ---- what a pass reports ----

  datatype Kind = Maintained | Published | FailedWork

  predicate Is(e: Event, k: Kind) {
    match k
    case Maintained => e.HopFinished? && e.ok
    case Published => e.HopFinished? && e.published
    case FailedWork => e.Failure? || (e.HopFinished? && !e.ok)
  }

  /** How many of the events are of the kind. */
  function Count(events: seq<Event>, k: Kind): nat {
    if events == [] then 0
    else Count(events[..|events| - 1], k) + if Is(events[|events| - 1], k) then 1 else 0
  }

  lemma {:induction false} CountConcat(a: seq<Event>, b: seq<Event>, k: Kind)
    ensures Count(a + b, k) == Count(a, k) + Count(b, k)
    decreases |b|
  {
    if b == [] {
      assert a + b == a;
    } else {
      CountConcat(a, b[..|b| - 1], k);
      assert (a + b)[..|a + b| - 1] == a + b[..|b| - 1];
    }
  }

  /** The counts of the pass are those of the events since `n`. */
  ghost predicate Accounted(s: State, n: nat) {
    && n <= |s.events|
    && s.pass.maintained == Count(s.events[n..], Maintained)
    && s.pass.published == Count(s.events[n..], Published)
    && s.pass.failures == Count(s.events[n..], FailedWork)
  }

  /** New events with their counts. */
  lemma AccountMore(s: State, n: nat, more: State, added: seq<Event>)
    requires Accounted(s, n) && more.events == s.events + added
    requires more.pass.maintained == s.pass.maintained + Count(added, Maintained)
    requires more.pass.published == s.pass.published + Count(added, Published)
    requires more.pass.failures == s.pass.failures + Count(added, FailedWork)
    ensures Accounted(more, n)
  {
    assert more.events[n..] == s.events[n..] + added;
    CountConcat(s.events[n..], added, Maintained);
    CountConcat(s.events[n..], added, Published);
    CountConcat(s.events[n..], added, FailedWork);
  }

  lemma CountOne(e: Event, k: Kind)
    ensures Count([e], k) == (if Is(e, k) then 1 else 0) && Count([], k) == 0
  {
    assert [e][..0] == [];
  }

  lemma HopAccounts(cfg: Config, env: Env, s: State, h: Handle, n: nat)
    requires Accounted(s, n)
    ensures Accounted(HopAt(cfg, env, s, h).0, n)
    ensures HopAt(cfg, env, s, h).0.pass.targets == s.pass.targets && HopAt(cfg, env, s, h).0.passes == s.passes
  {
    hide Accounted, NeedsWork, Count;
    var s0 := s.(attempted := s.attempted + [h]);
    var s1 := Advance(env, s0);
    var s2 := Advance(env, s1);
    var s' := HopAt(cfg, env, s, h).0;
    forall k ensures Count([], k) == 0 { CountOne(HopStarted(h), k); }
    if Drops(env, s0) || (!Fails(env, s1) && !NeedsWork(s2.hops, h, s2.store)) {
      assert s'.events == s.events + [];
      AccountMore(s, n, s', []);
    } else if Fails(env, s1) {
      forall k ensures Count([Failure(Collection(h))], k) == if Is(Failure(Collection(h)), k) then 1 else 0 {
        CountOne(Failure(Collection(h)), k);
      }
      AccountMore(s, n, s', [Failure(Collection(h))]);
    } else {
      RunAccounts(env, s2, s, h, n);
    }
  }

  lemma RunAccounts(env: Env, s: State, before: State, h: Handle, n: nat)
    requires Accounted(before, n) && s.events == before.events && s.pass == before.pass
    ensures Accounted(RunHop(env, s, h).0, n)
    ensures RunHop(env, s, h).0.pass.targets == s.pass.targets && RunHop(env, s, h).0.passes == s.passes
  {
    hide Accounted, Count;
    var move := env(s.clock);
    var closing := if move.cancel then HopCancelled(h) else HopFinished(h, move.hop.ok, move.hop.published);
    var s' := RunHop(env, s, h).0;
    assert s'.events == before.events + ([HopStarted(h)] + [closing]);
    forall k
      ensures Count([HopStarted(h)] + [closing], k) == if Is(closing, k) then 1 else 0
    {
      CountConcat([HopStarted(h)], [closing], k);
      CountOne(HopStarted(h), k);
      CountOne(closing, k);
    }
    AccountMore(before, n, s', [HopStarted(h)] + [closing]);
  }

  lemma {:induction false} HopsAccount(cfg: Config, env: Env, s: State, order: seq<Handle>, n: nat)
    requires Accounted(s, n)
    ensures Accounted(HopsAt(cfg, env, s, order).0, n)
    ensures HopsAt(cfg, env, s, order).0.pass.targets == s.pass.targets
    ensures HopsAt(cfg, env, s, order).0.passes == s.passes
    decreases |order|
  {
    hide HopAt, Accounted;
    if order != [] {
      HopAccounts(cfg, env, s, order[0], n);
      HopsAccount(cfg, env, HopAt(cfg, env, s, order[0]).0, order[1..], n);
    }
  }

  lemma {:induction false} TargetsAccount(cfg: Config, env: Env, s: State, targets: seq<Handle>, n: nat)
    requires Accounted(s, n)
    ensures Accounted(TargetsAt(cfg, env, s, targets).0, n)
    ensures TargetsAt(cfg, env, s, targets).0.pass.targets == s.pass.targets
    ensures TargetsAt(cfg, env, s, targets).0.passes == s.passes
    decreases |targets|
  {
    hide HopsAt, Order, Count;
    if targets != [] && !Fails(env, s) {
      var (s2, w) := PlanAt(cfg, Advance(env, s), targets[0]);
      if !w.fault.Fine? {
        var e := Failure(Collection(targets[0]));
        var s3 := s2.(events := s2.events + [e], pass := CountFailure(s2.pass));
        forall k ensures Count([e], k) == if Is(e, k) then 1 else 0 { CountOne(e, k); }
        AccountMore(s2, n, s3, [e]);
        TargetsAccount(cfg, env, s3, targets[1..], n);
      } else {
        HopsAccount(cfg, env, s2, w.order, n);
        TargetsAccount(cfg, env, HopsAt(cfg, env, s2, w.order).0, targets[1..], n);
      }
    }
  }

  lemma {:induction false} CountFailures(failed: seq<nat>, k: Kind)
    ensures Count(FailureEvents(failed), k) == if k == FailedWork then |failed| else 0
    decreases |failed|
  {
    if failed != [] {
      CountFailures(failed[..|failed| - 1], k);
      assert FailureEvents(failed)[..|failed| - 1] == FailureEvents(failed[..|failed| - 1]);
    }
  }

  lemma StartAccounts(cfg: Config, s: State)
    ensures Accounted(StartPass(cfg, s).0, |s.events|)
  {
    hide Select;
    var failed := Select(cfg, s.store, |cfg.references|).failed;
    var s' := StartPass(cfg, s).0;
    assert s'.events[|s.events|..] == FailureEvents(failed);
    CountFailures(failed, Maintained);
    CountFailures(failed, Published);
    CountFailures(failed, FailedWork);
  }

  /** From event `n` on the trace ends with this report, and adds up to it. */
  ghost predicate Reported(events: seq<Event>, n: nat, sequence: nat, p: Pass) {
    && n < |events|
    && events[|events| - 1] == PassFinished(sequence, p)
    && p.maintained == Count(events[n..], Maintained)
    && p.published == Count(events[n..], Published)
    && p.failures == Count(events[n..], FailedWork)
  }

  /** THE REPORT IS THE TRACE: the counts that a working tick returns are those of
      the hop and failure events it emitted, for as many targets as resolved. */
  lemma TickAccounts(cfg: Config, env: Env, s: State)
    requires TickAt(cfg, env, s).1.Ran?
    ensures TickAt(cfg, env, s).0.passes == s.passes + 1
    ensures Reported(TickAt(cfg, env, s).0.events, |s.events|, s.passes + 1, TickAt(cfg, env, s).1.pass)
    ensures TickAt(cfg, env, s).1.pass.targets
         == |Select(cfg, Advance(env, Advance(env, s)).store, |cfg.references|).targets|
  {
    hide TargetsAt, Select, Count;
    var n := |s.events|;
    var s1 := Advance(env, Advance(env, s).(catchUp := true, attempted := [], plans := [], pass := Pass(0, 0, 0, 0)));
    var (s2, targets) := StartPass(cfg, s1);
    StartAccounts(cfg, s1);
    TargetsAccount(cfg, env, s2, targets, n);
    var s3 := TargetsAt(cfg, env, s2, targets).0;
    var s' := TickAt(cfg, env, s).0;
    var last := PassFinished(s'.passes, s3.pass);
    assert s'.events == s3.events + [last];
    forall k ensures Count([last], k) == 0 { CountOne(last, k); }
    AccountMore(s3, n, s', [last]);
  }
}
