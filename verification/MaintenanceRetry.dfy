/** When does a failed hop get another chance? Only a relevant arrival counts. */
module MaintenanceRetry {
  import opened Wrappers
  import opened Store
  import opened MaintenanceOrder
  import opened MaintenanceModel
  import opened MaintenanceRuns

  /** After a completed pass the next tick works again if and only if something
      in the adopted read-set arrived since the pass's tick took its first
      snapshot. Failures of the pass play no part. */
  lemma WorksAgainExactlyOnArrival(cfg: Config, env: Env, s: State)
    requires cfg.rebase && Sound(s)
    requires TickAt(cfg, env, s).1.Ran? && !Fails(env, TickAt(cfg, env, s).0)
    ensures var s' := TickAt(cfg, env, s).0;
            TickAt(cfg, env, s').1 != Idle
            <==> Changed(Advance(env, s).store, Advance(env, s').store, s'.interests)
  {
    var s1 := Advance(env, s).(catchUp := true);
    PassInPass(cfg, env, s1);
    var s2 := PassAt(cfg, env, s1).0;
    var s' := TickAt(cfg, env, s).0;
    assert s' == Conclude(env, s1.store, s2).0;
    assert s1.store <= s2.store <= s'.store <= Advance(env, s').store;
    SplitChange(s1.store, s'.store, Advance(env, s').store, s'.interests);
  }

  lemma SplitChange(a: Snapshot, b: Snapshot, c: Snapshot, i: Interests)
    requires a <= b <= c
    ensures Changed(a, c, i) <==> Changed(a, b, i) || Changed(b, c, i)
  {
    if Changed(a, c, i) {
      var x :| x in (c - a) + (a - c) && Relevant(x, i);
      assert x in (b - a) + (a - b) || x in (c - b) + (b - c);
    } else {
      QuietInside(a, b, c, i, i);
    }
  }

  // ---- what a pass retries ----

  /** Incomplete work: never recorded, or to be retried. */
  predicate Due(hops: map<Handle, Hop>, h: Handle) {
    h !in hops || hops[h].retry
  }

  /** Something that `hop` would read is in `now` and was not there when it ran. */
  ghost predicate Outdated(hop: Hop, now: Snapshot) {
    exists x :: x in now && x !in hop.before && Relevant(x, hop.interests)
  }

  /** Why a hop may run: no record of it, a failure, or a relevant arrival. */
  ghost predicate Reason(hops: map<Handle, Hop>, h: Handle, now: Snapshot) {
    Due(hops, h) || Outdated(hops[h], now)
  }

  /** After the first `from` events, `h` was started or its failure reported. */
  ghost predicate Tried(events: seq<Event>, from: nat, h: Handle) {
    exists i :: from <= i < |events| && (events[i] == HopStarted(h) || events[i] == Failure(Collection(h)))
  }

  /** Events are only appended. */
  ghost predicate Longer(a: seq<Event>, b: seq<Event>) {
    |a| <= |b| && a == b[..|a|]
  }

  lemma TriedStays(a: seq<Event>, b: seq<Event>, from: nat, start: nat, h: Handle)
    requires Longer(a, b) && Tried(a, from, h) && start <= from
    ensures Tried(b, start, h)
  {
    var i :| from <= i < |a| && (a[i] == HopStarted(h) || a[i] == Failure(Collection(h)));
    assert b[i] == b[..|a|][i];
  }

  lemma LongerStill(a: seq<Event>, b: seq<Event>, c: seq<Event>)
    requires Longer(a, b) && Longer(b, c)
    ensures Longer(a, c)
  {
    assert c[..|a|] == b[..|a|];
  }

  /** One attempt deals with a reason to run and touches no other entry. */
  lemma HopTries(cfg: Config, env: Env, s: State, h: Handle, since: Snapshot)
    requires since <= s.store
    ensures var (s', exit) := HopAt(cfg, env, s, h);
            && Longer(s.events, s'.events)
            && s'.attempted == s.attempted + [h] && s.store <= s'.store
            && (exit == Done && Reason(s.hops, h, since) ==> Tried(s'.events, |s.events|, h))
            && (forall g :: g != h ==> Reason(s'.hops, g, since) == Reason(s.hops, g, since))
  {
    hide RunHop, Changed, Reason, NeedsWork;
    OthersKeep(cfg, env, s, h, since);
    var s0 := s.(attempted := s.attempted + [h]);
    var s1 := Advance(env, s0);
    var s2 := Advance(env, s1);
    if !Drops(env, s0) {
      if Fails(env, s1) {
        TriedNow(s.events, Failure(Collection(h)), h);
      } else {
        if Reason(s.hops, h, since) {
          ReasonIsWork(s.hops, h, since, s2.store);
        }
        RunTries(env, s2, h, since);
      }
    }
  }

  lemma ReasonIsWork(hops: map<Handle, Hop>, h: Handle, since: Snapshot, now: Snapshot)
    requires since <= now && Reason(hops, h, since)
    ensures NeedsWork(hops, h, now)
  {
    if !Due(hops, h) {
      var x :| x in since && x !in hops[h].before && Relevant(x, hops[h].interests);
      assert x in (now - hops[h].before) + (hops[h].before - now);
    }
  }

  lemma OthersKeep(cfg: Config, env: Env, s: State, h: Handle, since: Snapshot)
    ensures var s' := HopAt(cfg, env, s, h).0;
            && (forall g :: g != h ==> Reason(s'.hops, g, since) == Reason(s.hops, g, since))
  {
    hide Relevant, Changed;
    var s' := HopAt(cfg, env, s, h).0;
    forall g | g != h
      ensures Reason(s'.hops, g, since) == Reason(s.hops, g, since)
    {
      assert g in s'.hops <==> g in s.hops;
      assert g in s.hops ==> s'.hops[g] == s.hops[g];
    }
  }

  lemma TriedNow(a: seq<Event>, e: Event, h: Handle)
    requires e == HopStarted(h) || e == Failure(Collection(h))
    ensures Tried(a + [e], |a|, h) && Longer(a, a + [e])
  {
    assert (a + [e])[|a|] == e;
  }

  lemma RunTries(env: Env, s: State, h: Handle, since: Snapshot)
    ensures var s' := RunHop(env, s, h).0;
            && Longer(s.events, s'.events) && Tried(s'.events, |s.events|, h)
            && s'.attempted == s.attempted && s.store <= s'.store
            && (forall g :: g != h ==> Reason(s'.hops, g, since) == Reason(s.hops, g, since))
  {
    assert RunHop(env, s, h).0.events[|s.events|] == HopStarted(h);
  }

  lemma {:induction false} HopsTry(cfg: Config, env: Env, s: State, order: seq<Handle>, since: Snapshot)
    requires since <= s.store
    ensures var (s', exit) := HopsAt(cfg, env, s, order);
            && Longer(s.events, s'.events) && s.store <= s'.store
            && (exit == Done ==> s'.attempted == s.attempted + order)
            && (exit == Done ==> forall h :: h in order && Reason(s.hops, h, since) ==> Tried(s'.events, |s.events|, h))
            && (exit == Done ==> forall g :: g !in order ==> Reason(s'.hops, g, since) == Reason(s.hops, g, since))
    decreases |order|
  {
    hide HopAt, Reason, Tried, Longer;
    if order == [] {
      SameEvents(s.events);
    } else {
      HopTries(cfg, env, s, order[0], since);
      var (s1, exit) := HopAt(cfg, env, s, order[0]);
      if exit == Done {
        var rest := order[1..];
        HopsTry(cfg, env, s1, rest, since);
        var s' := HopsAt(cfg, env, s1, rest).0;
        LongerStill(s.events, s1.events, s'.events);
        LongerMeans(s.events, s1.events);
        assert order == [order[0]] + rest;
        assert s.attempted + [order[0]] + rest == s.attempted + order;
        if HopsAt(cfg, env, s, order).1 == Done {
          forall h | h in order && Reason(s.hops, h, since)
            ensures Tried(s'.events, |s.events|, h)
          {
            if h == order[0] {
              TriedStays(s1.events, s'.events, |s.events|, |s.events|, h);
            } else {
              TriedStays(s'.events, s'.events, |s1.events|, |s.events|, h);
            }
          }
        }
      }
    }
  }

  lemma LongerSnoc(a: seq<Event>, e: Event)
    ensures Longer(a, a + [e])
  {
  }

  lemma SameEvents(a: seq<Event>)
    ensures Longer(a, a)
  {
  }

  lemma LongerMeans(a: seq<Event>, b: seq<Event>)
    requires Longer(a, b)
    ensures |a| <= |b|
    ensures Longer(b, b)
  {
  }

  /** What the pass has attempted so far it has also dealt with. */
  ghost predicate Dealt(first: State, s: State, since: Snapshot) {
    && since <= s.store
    && Longer(first.events, s.events)
    && (forall h :: h in s.attempted && Reason(first.hops, h, since) ==> Tried(s.events, |first.events|, h))
    && (forall h :: h !in s.attempted ==> Reason(s.hops, h, since) == Reason(first.hops, h, since))
  }

  lemma {:induction false} TargetsDeal(cfg: Config, env: Env, first: State, s: State, targets: seq<Handle>,
                                    since: Snapshot)
    requires Dealt(first, s, since)
    ensures TargetsAt(cfg, env, s, targets).1 == Done ==> Dealt(first, TargetsAt(cfg, env, s, targets).0, since)
    decreases |targets|
  {
    hide HopsAt, Reason, Tried, Longer, Order;
    if targets != [] && !Fails(env, s) {
      var s1 := Advance(env, s);
      var (s2, w) := PlanAt(cfg, s1, targets[0]);
      if !w.fault.Fine? {
        var s3 := s2.(events := s2.events + [Failure(Collection(targets[0]))], pass := CountFailure(s2.pass));
        LongerSnoc(s2.events, Failure(Collection(targets[0])));
        OneMore(first, s2, s3, since);
        TargetsDeal(cfg, env, first, s3, targets[1..], since);
      } else {
        HopsTry(cfg, env, s2, w.order, since);
        var (s3, exit) := HopsAt(cfg, env, s2, w.order);
        if exit == Done {
          OrderDealt(first, s2, w.order, s3, since);
          TargetsDeal(cfg, env, first, s3, targets[1..], since);
        }
      }
    }
  }

  lemma OneMore(first: State, s: State, more: State, since: Snapshot)
    requires Dealt(first, s, since) && more.attempted == s.attempted && more.hops == s.hops
    requires s.store <= more.store && Longer(s.events, more.events)
    ensures Dealt(first, more, since)
  {
    hide Reason, Tried, Longer;
    LongerStill(first.events, s.events, more.events);
    forall h | h in more.attempted && Reason(first.hops, h, since)
      ensures Tried(more.events, |first.events|, h)
    {
      TriedStays(s.events, more.events, |first.events|, |first.events|, h);
    }
  }

  lemma OrderDealt(first: State, s: State, order: seq<Handle>, after: State, since: Snapshot)
    requires Dealt(first, s, since) && Longer(s.events, after.events) && after.attempted == s.attempted + order
    requires s.store <= after.store
    requires forall h :: h in order && Reason(s.hops, h, since) ==> Tried(after.events, |s.events|, h)
    requires forall g :: g !in order ==> Reason(after.hops, g, since) == Reason(s.hops, g, since)
    ensures Dealt(first, after, since)
  {
    hide Reason, Tried, Longer;
    LongerStill(first.events, s.events, after.events);
    LongerMeans(first.events, s.events);
    LongerMeans(s.events, after.events);
    forall h | h in after.attempted && Reason(first.hops, h, since)
      ensures Tried(after.events, |first.events|, h)
    {
      if h in s.attempted {
        TriedStays(s.events, after.events, |first.events|, |first.events|, h);
      } else {
        TriedStays(after.events, after.events, |s.events|, |first.events|, h);
      }
    }
  }

  /** A completed pass starts, or reports the failure of, every attempted handle
      with a reason to run in the store that the pass began with. */
  lemma PassRetries(cfg: Config, env: Env, s: State)
    requires PassAt(cfg, env, s).1 == Done
    ensures var s' := PassAt(cfg, env, s).0;
            && Longer(s.events, s'.events)
            && forall h :: h in s'.attempted && Reason(s.hops, h, s.store) ==> Tried(s'.events, |s.events|, h)
  {
    hide TargetsAt, Reason, Tried, Select;
    var s1 := Advance(env, s.(attempted := [], plans := [], pass := Pass(0, 0, 0, 0)));
    var (s2, targets) := StartPass(cfg, s1);
    assert Dealt(s, s2, s.store);
    TargetsDeal(cfg, env, s, s2, targets, s.store);
  }

  /** ... and so does a tick that works, for the snapshot it took first. With the
      law above: incomplete work is taken up again at the next relevant arrival,
      and only then. */
  lemma TickRetries(cfg: Config, env: Env, s: State)
    requires TickAt(cfg, env, s).1.Ran?
    ensures var s' := TickAt(cfg, env, s).0;
            forall h :: h in s'.attempted && Reason(s.hops, h, Advance(env, s).store) ==>
              Tried(s'.events, |s.events|, h)
  {
    hide PassAt, Reason, Tried;
    var s1 := Advance(env, s).(catchUp := true);
    PassRetries(cfg, env, s1);
    var s2 := PassAt(cfg, env, s1).0;
    var s' := TickAt(cfg, env, s).0;
    forall h | h in s'.attempted && Reason(s.hops, h, s1.store)
      ensures Tried(s'.events, |s.events|, h)
    {
      TriedStays(s2.events, s'.events, |s.events|, |s.events|, h);
    }
  }

  // ---- work that is never retried ----

  /** From clock `c` on nothing relevant to `i` arrives. */
  ghost predicate NothingRelevant(env: Env, c: nat, i: Interests) {
    forall n, x :: c <= n && x in env(n).arrivals ==> !Relevant(x, i)
  }

  /** Nothing is due by the driver's own reckoning. */
  ghost predicate Resting(s: State) {
    !s.catchUp && s.baseline.Some? && s.baseline.value <= s.store
    && !Changed(s.baseline.value, s.store, s.interests)
  }

  lemma RestingTick(cfg: Config, env: Env, s: State)
    requires Resting(s) && NothingRelevant(env, s.clock, s.interests)
    ensures var (s', out) := TickAt(cfg, env, s);
            && Resting(s') && s'.interests == s.interests && s'.clock == s.clock + 1
            && (forall h :: Due(s'.hops, h) == Due(s.hops, h))
            && s'.events == s.events && (out == Idle || (out == Error && Fails(env, s)))
  {
    var s1 := Advance(env, s);
    forall x | x in s1.store - s.baseline.value
      ensures !Relevant(x, s.interests)
    {
      if x in s.store {
        assert x in (s.store - s.baseline.value) + (s.baseline.value - s.store);
      } else {
        assert x in env(s.clock).arrivals;
      }
    }
    assert !Changed(s.baseline.value, s1.store, s.interests);
    NothingChanged(s1.store, s.interests);
  }

  /** STRANDED: once the driver rests, then however much work is incomplete, no
      tick starts any hop until something relevant arrives. */
  lemma {:induction false} RestsForever(cfg: Config, env: Env, s: State, n: nat)
    requires Resting(s) && NothingRelevant(env, s.clock, s.interests)
    ensures var s' := RunAt(cfg, env, s, n);
            && Resting(s') && s'.interests == s.interests && s'.clock == s.clock + n && s'.events == s.events
            && (forall h :: Due(s'.hops, h) == Due(s.hops, h))
            && !TickAt(cfg, env, s').1.Ran? && TickAt(cfg, env, s').0.events == s.events
    decreases n
  {
    hide TickAt, Resting, Due;
    if n > 0 {
      RestsForever(cfg, env, s, n - 1);
      var before := RunAt(cfg, env, s, n - 1);
      RestingTick(cfg, env, before);
    }
    RestingTick(cfg, env, RunAt(cfg, env, s, n));
  }

  const QUIET := Move({}, false, false, Effect({}, NOTHING, true, false))

  /** One collection selected by handle; its store snapshot fails once, just
      before its first hop. */
  function Hiccup(n: nat): Move {
    if n == 4 then QUIET.(fails := true) else QUIET
  }

  function OneTarget(): Config {
    Config([ByHandle(7)], false, h => None, (s, n) => None, (s, n) => NOTHING, h => 0, true)
  }

  /** The first pass reports one failure and starts no hop. */
  lemma HiccupPass()
    ensures var s := TickAt(OneTarget(), Hiccup, Initial({})).0;
            && s.events == [Failure(Collection(7)), PassFinished(1, Pass(1, 0, 0, 1))]
            && s.hops == map[] && s.clock > 4 && s.store == {} && s.baseline == Some({}) && !s.catchUp
  {
    var cfg := OneTarget();
    var s0 := Initial({});
    var s1 := Advance(Hiccup, s0);
    assert s1.clock == 1 && s1.store == {};
    var p1 := Advance(Hiccup, s1.(catchUp := true, attempted := [], plans := [], pass := Pass(0, 0, 0, 0)));
    assert Select(cfg, p1.store, 1).targets == InsertTarget(cfg.priority, Select(cfg, p1.store, 0).targets, 7);
    var (p2, targets) := StartPass(cfg, p1);
    assert targets == [7] && p2.clock == 2;
    var p3 := Advance(Hiccup, p2);
    var (p4, w) := PlanAt(cfg, p3, 7);
    assert w == Walk(Fine, [7], {});
    var (p5, exit) := HopAt(cfg, Hiccup, p4, 7);
    assert exit == Done && p5.events == [Failure(Collection(7))];
    assert HopsAt(cfg, Hiccup, p4, [7]) == HopsAt(cfg, Hiccup, p5, []);
    assert targets[1..] == [];
    assert TargetsAt(cfg, Hiccup, p2, targets) == TargetsAt(cfg, Hiccup, p5, []);
    var (s2, out) := TickAt(cfg, Hiccup, s0);
    assert out == Ran(Pass(1, 0, 0, 1));
  }

  /** STRANDED WORK: after a pass that failed to take a snapshot before the first
      hop of its only collection, every tick is idle. No hop is ever started,
      though the work stays due. */
  lemma HiccupStrandsTheHop(n: nat)
    requires n >= 1
    ensures var s := RunAt(OneTarget(), Hiccup, Initial({}), n);
            && s.events == [Failure(Collection(7)), PassFinished(1, Pass(1, 0, 0, 1))]
            && Due(s.hops, 7) && TickAt(OneTarget(), Hiccup, s).1 == Idle
  {
    hide TickAt, RunAt, Changed;
    var cfg, s0 := OneTarget(), Initial({});
    HiccupPass();
    var s1 := TickAt(cfg, Hiccup, s0).0;
    NothingChanged({}, s1.interests);
    RestsForever(cfg, Hiccup, s1, n - 1);
    RunShift(cfg, Hiccup, s0, n - 1);
    RestingTick(cfg, Hiccup, RunAt(cfg, Hiccup, s0, n));
  }
}
