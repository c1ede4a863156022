/** What every run of the maintenance driver keeps, over every environment. */
module MaintenanceRuns {
  import opened Wrappers
  import opened Store
  import opened MaintenanceOrder
  import opened MaintenanceModel

  // ---- read-sets ----

  lemma GatherCovers(planning: Interests, hops: map<Handle, Hop>)
    ensures Covers(Gather(planning, hops), planning)
    ensures forall h :: h in hops ==> Covers(Gather(planning, hops), hops[h].interests)
  {
    var g := Gather(planning, hops);
    forall x: Item | Relevant(x, planning)
      ensures Relevant(x, g)
    {
      if x.Record? && !planning.allRecords {
        var r :| r in x.routes * planning.records;
        assert r in x.routes * g.records;
      }
    }
    forall h, x: Item | h in hops && Relevant(x, hops[h].interests)
      ensures Relevant(x, g)
    {
      if x.Record? && !hops[h].interests.allRecords {
        var r :| r in x.routes * hops[h].interests.records;
        assert r in x.routes * g.records;
      }
    }
  }

  /** The merged interests are woken by the planning reads and the retained hops,
      and by nothing else. */
  lemma GatherWakes(planning: Interests, hops: map<Handle, Hop>, x: Item)
    ensures Relevant(x, Gather(planning, hops)) <==>
              Relevant(x, planning) || exists h :: h in hops && Relevant(x, hops[h].interests)
  {
    GatherCovers(planning, hops);
    var g := Gather(planning, hops);
    if Relevant(x, g) && x.Record? && !g.allRecords {
      var r :| r in x.routes * g.records;
      if r in planning.records {
        assert r in x.routes * planning.records;
      } else {
        var h :| h in hops && r in hops[h].interests.records;
        assert r in x.routes * hops[h].interests.records;
      }
    }
  }

  // ---- wake-ups: no arrival is swallowed ----

  /** Every snapshot the driver holds is a past state of the store. */
  ghost predicate Grounded(s: State) {
    && (forall h :: h in s.hops ==> s.hops[h].before <= s.store)
    && (s.baseline.Some? ==> s.baseline.value <= s.store)
    && (forall l :: l in s.looks ==> l.snapshot <= s.store && Covers(s.planning, l.interests))
  }

  /** Nothing relevant to the retained answers happened up to `now`. */
  ghost predicate Settles(s: State, now: Snapshot) {
    && (forall h :: h in s.hops && !s.hops[h].retry ==> !Changed(s.hops[h].before, now, s.hops[h].interests))
    && (forall l :: l in s.looks ==> !Changed(l.snapshot, now, l.interests))
  }

  /** The driver invariant: whenever no catch-up is due, the baseline swallows
      nothing that a retained answer has not consumed. */
  ghost predicate Sound(s: State) {
    && Grounded(s)
    && (!s.catchUp ==>
          && s.baseline.Some?
          && Covers(s.interests, s.planning)
          && (forall h :: h in s.hops ==> Covers(s.interests, s.hops[h].interests))
          && Settles(s, s.baseline.value))
  }

  /** Mid-pass: everything observed by this pass is at least as late as the
      snapshot `since` that the tick began with. */
  ghost predicate InPass(since: Snapshot, s: State) {
    && Grounded(s)
    && s.catchUp
    && since <= s.store
    && (forall l :: l in s.looks ==> since <= l.snapshot)
  }

  /** Every handle attempted so far carries a boundary of this pass, or is
      marked for retry. */
  ghost predicate Fresh(since: Snapshot, s: State) {
    forall h :: h in s.hops && h in s.attempted && !s.hops[h].retry ==> since <= s.hops[h].before
  }

  lemma HopInPass(cfg: Config, env: Env, s: State, h: Handle, since: Snapshot)
    requires cfg.rebase && InPass(since, s) && Fresh(since, s)
    ensures var (s', exit) := HopAt(cfg, env, s, h);
            InPass(since, s') && (exit == Done ==> Fresh(since, s'))
  {
  }

  lemma {:induction false} HopsInPass(cfg: Config, env: Env, s: State, order: seq<Handle>, since: Snapshot)
    requires cfg.rebase && InPass(since, s) && Fresh(since, s)
    ensures var (s', exit) := HopsAt(cfg, env, s, order);
            InPass(since, s') && (exit == Done ==> Fresh(since, s'))
    decreases |order|
  {
    if order != [] {
      HopInPass(cfg, env, s, order[0], since);
      var (s1, exit) := HopAt(cfg, env, s, order[0]);
      if exit == Done {
        HopsInPass(cfg, env, s1, order[1..], since);
      }
    }
  }

  lemma PlanInPass(cfg: Config, s: State, target: Handle, since: Snapshot)
    requires InPass(since, s)
    ensures InPass(since, PlanAt(cfg, s, target).0)
  {
    var (s1, w) := PlanAt(cfg, s, target);
    MergeCovers(s.planning, PlanningInterests(w));
  }

  lemma {:induction false} TargetsInPass(cfg: Config, env: Env, s: State, targets: seq<Handle>, since: Snapshot)
    requires cfg.rebase && InPass(since, s) && Fresh(since, s)
    ensures var (s', exit) := TargetsAt(cfg, env, s, targets);
            InPass(since, s') && (exit == Done ==> Fresh(since, s'))
    decreases |targets|
  {
    if targets != [] && !Fails(env, s) {
      var s1 := Advance(env, s);
      PlanInPass(cfg, s1, targets[0], since);
      var (s2, w) := PlanAt(cfg, s1, targets[0]);
      if !w.fault.Fine? {
        var s3 := s2.(events := s2.events + [Failure(Collection(targets[0]))], pass := CountFailure(s2.pass));
        TargetsInPass(cfg, env, s3, targets[1..], since);
      } else {
        HopsInPass(cfg, env, s2, w.order, since);
        var (s3, exit) := HopsAt(cfg, env, s2, w.order);
        if exit == Done {
          TargetsInPass(cfg, env, s3, targets[1..], since);
        }
      }
    }
  }

  lemma PassInPass(cfg: Config, env: Env, s: State)
    requires cfg.rebase && Grounded(s) && s.catchUp
    ensures var (s', exit) := PassAt(cfg, env, s);
            && Grounded(s') && s'.catchUp && s.store <= s'.store
            && (exit == Done ==>
                  InPass(s.store, s') && Fresh(s.store, s') && forall h :: h in s'.hops ==> h in s'.attempted)
  {
    var s0 := s.(attempted := [], plans := [], pass := Pass(0, 0, 0, 0));
    var s1 := Advance(env, s0);
    if !Fails(env, s0) {
      var (s2, targets) := StartPass(cfg, s1);
      assert InPass(s.store, s2) && Fresh(s.store, s2);
      TargetsInPass(cfg, env, s2, targets, s.store);
    }
  }

  /** One tick keeps the invariant, and is idle only when nothing relevant
      arrived after any boundary it still relies on. */
  lemma TickSound(cfg: Config, env: Env, s: State)
    requires cfg.rebase && Sound(s)
    ensures Sound(TickAt(cfg, env, s).0)
    ensures TickAt(cfg, env, s).1 == Idle ==> Settles(s, TickAt(cfg, env, s).0.store)
  {
    var s1 := Advance(env, s);
    if Fails(env, s) {
    } else if Quiet(s1, s1.store) {
      QuietIsSettled(s, s1.store);
    } else {
      PassInPass(cfg, env, s1.(catchUp := true));
      var (s2, exit) := PassAt(cfg, env, s1.(catchUp := true));
      if exit == Done {
        ConcludeSound(env, s1.store, s2);
      }
    }
  }

  lemma QuietIsSettled(s: State, now: Snapshot)
    requires Sound(s) && !s.catchUp && s.store <= now && !Changed(s.baseline.value, now, s.interests)
    ensures Settles(s, now)
  {
    var b := s.baseline.value;
    forall h | h in s.hops && !s.hops[h].retry
      ensures !Changed(s.hops[h].before, now, s.hops[h].interests)
    {
      QuietInside(b, b, now, s.interests, s.hops[h].interests);
      QuietJoins(s.hops[h].before, b, now, s.hops[h].interests);
    }
    forall l | l in s.looks
      ensures !Changed(l.snapshot, now, l.interests)
    {
      QuietInside(b, b, now, s.interests, l.interests);
      QuietJoins(l.snapshot, b, now, l.interests);
    }
  }

  lemma ConcludeSound(env: Env, before: Snapshot, s: State)
    requires InPass(before, s) && Fresh(before, s) && forall h :: h in s.hops ==> h in s.attempted
    ensures Sound(Conclude(env, before, s).0)
  {
    var s' := Conclude(env, before, s).0;
    GatherCovers(s.planning, s.hops);
    if !s'.catchUp {
      var now := s'.store;
      forall h | h in s'.hops && !s'.hops[h].retry
        ensures !Changed(s'.hops[h].before, now, s'.hops[h].interests)
      {
        QuietInside(before, s'.hops[h].before, now, s'.interests, s'.hops[h].interests);
      }
      forall l | l in s'.looks
        ensures !Changed(l.snapshot, now, l.interests)
      {
        QuietInside(before, l.snapshot, now, s'.interests, l.interests);
      }
    }
  }

  lemma {:induction false} RunSound(cfg: Config, env: Env, store: Snapshot, n: nat)
    requires cfg.rebase
    ensures Sound(RunAt(cfg, env, Initial(store), n))
    decreases n
  {
    if n > 0 {
      RunSound(cfg, env, store, n - 1);
      TickSound(cfg, env, RunAt(cfg, env, Initial(store), n - 1));
    }
  }

  /** NO SWALLOWED ARRIVAL. In every run over every environment, take the state
      before any tick. If that tick is idle, then at its snapshot no retained
      hop that is not marked for retry, and no planning read, has a relevant
      change after its recorded boundary. */
  lemma IdleMeansSettled(cfg: Config, env: Env, store: Snapshot, n: nat)
    requires cfg.rebase
    ensures var s := RunAt(cfg, env, Initial(store), n);
            TickAt(cfg, env, s).1 == Idle ==> Settles(s, TickAt(cfg, env, s).0.store)
  {
    RunSound(cfg, env, store, n);
    TickSound(cfg, env, RunAt(cfg, env, Initial(store), n));
  }

  /** The same law as a wake-up: an unconsumed arrival makes the next tick whose
      snapshot succeeds start a pass. */
  lemma ArrivalWakes(cfg: Config, env: Env, store: Snapshot, n: nat, h: Handle)
    requires cfg.rebase
    requires var s := RunAt(cfg, env, Initial(store), n);
             && !Fails(env, s) && h in s.hops && !s.hops[h].retry
             && Changed(s.hops[h].before, Advance(env, s).store, s.hops[h].interests)
    ensures TickAt(cfg, env, RunAt(cfg, env, Initial(store), n)).1 != Idle
    ensures TickAt(cfg, env, RunAt(cfg, env, Initial(store), n)).0.clock
              > RunAt(cfg, env, Initial(store), n).clock + 1
  {
    var s := RunAt(cfg, env, Initial(store), n);
    IdleMeansSettled(cfg, env, store, n);
    PassTakesTime(cfg, env, Advance(env, s).(catchUp := true));
  }

  lemma PassTakesTime(cfg: Config, env: Env, s: State)
    ensures PassAt(cfg, env, s).0.clock > s.clock
  {
    var s0 := s.(attempted := [], plans := [], pass := Pass(0, 0, 0, 0));
    var s1 := Advance(env, s0);
    if !Fails(env, s0) {
      var (s2, targets) := StartPass(cfg, s1);
      TargetsTakeTime(cfg, env, s2, targets);
    }
  }

  lemma {:induction false} HopsTakeTime(cfg: Config, env: Env, s: State, order: seq<Handle>)
    ensures HopsAt(cfg, env, s, order).0.clock >= s.clock
    decreases |order|
  {
    if order != [] {
      var (s1, exit) := HopAt(cfg, env, s, order[0]);
      if exit == Done {
        HopsTakeTime(cfg, env, s1, order[1..]);
      }
    }
  }

  lemma {:induction false} TargetsTakeTime(cfg: Config, env: Env, s: State, targets: seq<Handle>)
    ensures TargetsAt(cfg, env, s, targets).0.clock >= s.clock
    decreases |targets|
  {
    if targets != [] && !Fails(env, s) {
      var (s2, w) := PlanAt(cfg, Advance(env, s), targets[0]);
      if !w.fault.Fine? {
        var s3 := s2.(events := s2.events + [Failure(Collection(targets[0]))], pass := CountFailure(s2.pass));
        TargetsTakeTime(cfg, env, s3, targets[1..]);
      } else {
        HopsTakeTime(cfg, env, s2, w.order);
        var (s3, exit) := HopsAt(cfg, env, s2, w.order);
        if exit == Done {
          TargetsTakeTime(cfg, env, s3, targets[1..]);
        }
      }
    }
  }

  // ---- cancellation and failure ----

  /** A tick that is dropped, or fails once it has decided to work, leaves the
      catch-up flag set; a tick that fails on its very first snapshot leaves the
      driver as it was. */
  lemma InterruptedStaysDirty(cfg: Config, env: Env, s: State)
    requires cfg.rebase && Sound(s)
    ensures var (s', out) := TickAt(cfg, env, s);
            && (out == Dropped || (out == Error && !Fails(env, s)) ==> s'.catchUp)
            && (Fails(env, s) ==> out == Error && s' == s.(store := s'.store, clock := s.clock + 1))
  {
    if !Fails(env, s) && !Quiet(Advance(env, s), Advance(env, s).store) {
      PassInPass(cfg, env, Advance(env, s).(catchUp := true));
    }
  }

  /** ... so the next tick whose first snapshot succeeds runs a pass. */
  lemma InterruptedRunsAgain(cfg: Config, env: Env, s: State)
    requires cfg.rebase && Sound(s)
    requires var (s', out) := TickAt(cfg, env, s);
             (out == Dropped || (out == Error && !Fails(env, s))) && !Fails(env, s')
    ensures TickAt(cfg, env, TickAt(cfg, env, s).0).1 != Idle
  {
    InterruptedStaysDirty(cfg, env, s);
  }

  // ---- event traces ----

  predicate Closes(e: Event, h: Handle) {
    (e.HopFinished? || e.HopCancelled?) && e.collection == h
  }

  /** Every started hop is closed by the very next event, and nothing else
      closes a hop. */
  ghost predicate Bracketed(events: seq<Event>) {
    && (forall i :: 0 <= i < |events| && events[i].HopStarted? ==>
          i + 1 < |events| && Closes(events[i + 1], events[i].collection))
    && (forall i :: 0 <= i < |events| && (events[i].HopFinished? || events[i].HopCancelled?) ==>
          i > 0 && events[i - 1] == HopStarted(events[i].collection))
  }

  lemma BracketedAppend(a: seq<Event>, b: seq<Event>)
    requires Bracketed(a) && Bracketed(b)
    ensures Bracketed(a + b)
  {
    var c := a + b;
    forall i | 0 <= i < |c| && c[i].HopStarted?
      ensures i + 1 < |c| && Closes(c[i + 1], c[i].collection)
    {
      if i < |a| {
        assert c[i] == a[i] && c[i + 1] == a[i + 1];
      } else {
        assert c[i] == b[i - |a|] && c[i + 1] == b[i - |a| + 1];
      }
    }
    forall i | 0 <= i < |c| && (c[i].HopFinished? || c[i].HopCancelled?)
      ensures i > 0 && c[i - 1] == HopStarted(c[i].collection)
    {
      if i >= |a| {
        assert c[i] == b[i - |a|] && b[i - |a| - 1] == c[i - 1];
      }
    }
  }

  lemma HopBracketed(cfg: Config, env: Env, s: State, h: Handle)
    requires Bracketed(s.events)
    ensures Bracketed(HopAt(cfg, env, s, h).0.events)
  {
    hide NeedsWork, MarkRetry, RunHop;
    var s0 := s.(attempted := s.attempted + [h]);
    var s1 := Advance(env, s0);
    var s2 := Advance(env, s1);
    BracketedAppend(s.events, [Failure(Collection(h))]);
    RunHopBracketed(env, s2, h);
  }

  lemma RunHopBracketed(env: Env, s: State, h: Handle)
    requires Bracketed(s.events)
    ensures Bracketed(RunHop(env, s, h).0.events)
  {
    var move := env(s.clock);
    var tail :=
      [HopStarted(h), if move.cancel then HopCancelled(h) else HopFinished(h, move.hop.ok, move.hop.published)];
    assert RunHop(env, s, h).0.events == s.events + tail;
    BracketedAppend(s.events, tail);
  }

  lemma {:induction false} HopsBracketed(cfg: Config, env: Env, s: State, order: seq<Handle>)
    requires Bracketed(s.events)
    ensures Bracketed(HopsAt(cfg, env, s, order).0.events)
    decreases |order|
  {
    if order != [] {
      HopBracketed(cfg, env, s, order[0]);
      var (s1, exit) := HopAt(cfg, env, s, order[0]);
      if exit == Done {
        HopsBracketed(cfg, env, s1, order[1..]);
      }
    }
  }

  lemma {:induction false} TargetsBracketed(cfg: Config, env: Env, s: State, targets: seq<Handle>)
    requires Bracketed(s.events)
    ensures Bracketed(TargetsAt(cfg, env, s, targets).0.events)
    decreases |targets|
  {
    if targets != [] && !Fails(env, s) {
      var (s2, w) := PlanAt(cfg, Advance(env, s), targets[0]);
      if !w.fault.Fine? {
        var s3 := s2.(events := s2.events + [Failure(Collection(targets[0]))], pass := CountFailure(s2.pass));
        BracketedAppend(s2.events, [Failure(Collection(targets[0]))]);
        TargetsBracketed(cfg, env, s3, targets[1..]);
      } else {
        HopsBracketed(cfg, env, s2, w.order);
        var (s3, exit) := HopsAt(cfg, env, s2, w.order);
        if exit == Done {
          TargetsBracketed(cfg, env, s3, targets[1..]);
        }
      }
    }
  }

  lemma TickBracketed(cfg: Config, env: Env, s: State)
    requires Bracketed(s.events)
    ensures Bracketed(TickAt(cfg, env, s).0.events)
    ensures TickAt(cfg, env, s).1 == Idle ==> TickAt(cfg, env, s).0.events == s.events
  {
    hide TargetsAt, Select;
    var s1 := Advance(env, s);
    if !Fails(env, s) && !Quiet(s1, s1.store) {
      var s2 := Advance(env, s1.(catchUp := true, attempted := [], plans := [], pass := Pass(0, 0, 0, 0)));
      var (s3, targets) := StartPass(cfg, s2);
      var failed := Select(cfg, s2.store, |cfg.references|).failed;
      assert Bracketed(FailureEvents(failed));
      BracketedAppend(s.events, FailureEvents(failed));
      TargetsBracketed(cfg, env, s3, targets);
      var (s4, exit) := PassAt(cfg, env, s1.(catchUp := true));
      assert Bracketed(s4.events);
      BracketedAppend(s4.events, [PassFinished(s4.passes + 1, s4.pass)]);
    }
  }

  /** In every run, whatever is cancelled and wherever, the observer's trace
      is well bracketed after each tick. */
  lemma {:induction false} RunBracketed(cfg: Config, env: Env, store: Snapshot, n: nat)
    ensures Bracketed(RunAt(cfg, env, Initial(store), n).events)
    decreases n
  {
    if n > 0 {
      RunBracketed(cfg, env, store, n - 1);
      TickBracketed(cfg, env, RunAt(cfg, env, Initial(store), n - 1));
    }
  }

  // ---- settling down ----

  /** No outside writers, no failures, no cancellation, and hops that only add
      items of the closure `c`. */
  ghost predicate Undisturbed(env: Env, c: Snapshot) {
    forall n :: env(n).arrivals == {} && !env(n).fails && !env(n).cancel && env(n).hop.added <= c
  }

  lemma {:induction false} HopsWithin(cfg: Config, env: Env, s: State, order: seq<Handle>, c: Snapshot)
    requires Undisturbed(env, c)
    ensures var (s', exit) := HopsAt(cfg, env, s, order);
            exit == Done && s.store <= s'.store <= s.store + c
    decreases |order|
  {
    if order != [] {
      var (s1, exit) := HopAt(cfg, env, s, order[0]);
      HopsWithin(cfg, env, s1, order[1..], c);
    }
  }

  lemma {:induction false} TargetsWithin(cfg: Config, env: Env, s: State, targets: seq<Handle>, c: Snapshot)
    requires Undisturbed(env, c)
    ensures var (s', exit) := TargetsAt(cfg, env, s, targets);
            exit == Done && s.store <= s'.store <= s.store + c
    decreases |targets|
  {
    if targets != [] {
      var (s2, w) := PlanAt(cfg, Advance(env, s), targets[0]);
      if !w.fault.Fine? {
        var s3 := s2.(events := s2.events + [Failure(Collection(targets[0]))], pass := CountFailure(s2.pass));
        TargetsWithin(cfg, env, s3, targets[1..], c);
      } else {
        HopsWithin(cfg, env, s2, w.order, c);
        TargetsWithin(cfg, env, HopsAt(cfg, env, s2, w.order).0, targets[1..], c);
      }
    }
  }

  /** An undisturbed pass asks for another one only if it added something new. */
  lemma TickProgress(cfg: Config, env: Env, s: State, c: Snapshot)
    requires Undisturbed(env, c)
    ensures var (s', out) := TickAt(cfg, env, s);
            && (out == Idle || out.Ran?)
            && (out == Idle <==> Quiet(s, s.store))
            && s.store <= s'.store <= s.store + c
            && s'.baseline == Some(s'.store)
            && (out.Ran? && s'.catchUp ==> s'.store != s.store)
  {
    var s1 := Advance(env, s);
    assert s1.store == s.store;
    if !Quiet(s1, s1.store) {
      var s2 := Advance(env, s1.(catchUp := true, attempted := [], plans := [], pass := Pass(0, 0, 0, 0)));
      var (s3, targets) := StartPass(cfg, s2);
      TargetsWithin(cfg, env, s3, targets, c);
    }
  }

  ghost predicate RunsThroughout(cfg: Config, env: Env, s: State, k: nat) {
    forall i :: 0 <= i < k ==> TickAt(cfg, env, RunAt(cfg, env, s, i)).1.Ran?
  }

  lemma {:induction false} RunShift(cfg: Config, env: Env, s: State, i: nat)
    ensures RunAt(cfg, env, TickAt(cfg, env, s).0, i) == RunAt(cfg, env, s, i + 1)
    decreases i
  {
    hide TickAt;
    if i > 0 {
      RunShift(cfg, env, s, i - 1);
    } else {
      assert RunAt(cfg, env, s, 1) == TickAt(cfg, env, RunAt(cfg, env, s, 0)).0;
    }
  }

  /** Two runs in a row mean the first one added an item of the closure. */
  lemma SecondRunAdded(cfg: Config, env: Env, s: State, c: Snapshot)
    requires Undisturbed(env, c)
    requires TickAt(cfg, env, s).1.Ran?
    requires TickAt(cfg, env, TickAt(cfg, env, s).0).1.Ran?
    ensures |c - TickAt(cfg, env, s).0.store| < |c - s.store|
  {
    hide TickAt, Changed;
    TickProgress(cfg, env, s, c);
    var s1 := TickAt(cfg, env, s).0;
    TickProgress(cfg, env, s1, c);
    NothingChanged(s1.store, s1.interests);
    assert s1.catchUp;
    GrowthShrinks(s.store, s1.store, c);
  }

  lemma GrowthShrinks(a: Snapshot, b: Snapshot, c: Snapshot)
    requires a <= b <= a + c && a != b
    ensures |c - b| < |c - a|
  {
    var x :| x in b && x !in a;
    assert c - b <= (c - a) - {x};
    SubsetCard(c - b, (c - a) - {x});
  }

  /** TERMINATION OF WORK. Undisturbed, at most |c - store| + 1 consecutive
      ticks run a pass, from any driver state whatever. */
  lemma {:induction false} WorkIsBounded(cfg: Config, env: Env, s: State, c: Snapshot, k: nat)
    requires Undisturbed(env, c) && RunsThroughout(cfg, env, s, k)
    ensures k <= |c - s.store| + 1
    decreases k
  {
    if k >= 2 {
      var s1 := TickAt(cfg, env, s).0;
      RunStart(cfg, env, s);
      assert TickAt(cfg, env, RunAt(cfg, env, s, 0)).1.Ran?;
      assert TickAt(cfg, env, RunAt(cfg, env, s, 1)).1.Ran?;
      SecondRunAdded(cfg, env, s, c);
      RunsShift(cfg, env, s, k);
      WorkIsBounded(cfg, env, s1, c, k - 1);
    }
  }

  /** Nothing is due and nothing is unseen. */
  predicate Silent(s: State) {
    !s.catchUp && s.baseline == Some(s.store)
  }

  lemma SilentTick(cfg: Config, env: Env, s: State, c: Snapshot)
    requires Undisturbed(env, c) && Silent(s)
    ensures TickAt(cfg, env, s).1 == Idle
    ensures Silent(TickAt(cfg, env, s).0) && TickAt(cfg, env, s).0.events == s.events
  {
    assert Advance(env, s).store == s.store;
    NothingChanged(s.store, s.interests);
  }

  /** A sequence of states in which silence is kept from one to the next. */
  ghost predicate KeepsSilence(run: nat -> State) {
    forall n: nat :: Silent(run(n)) ==> Silent(run(n + 1)) && run(n + 1).events == run(n).events
  }

  lemma {:induction false} StaysSilent(run: nat -> State, i: nat, j: nat)
    requires KeepsSilence(run) && Silent(run(i)) && i <= j
    ensures Silent(run(j)) && run(j).events == run(i).events
    decreases j
  {
    if i < j {
      StaysSilent(run, i, j - 1);
      assert Silent(run(j - 1)) ==> Silent(run(j - 1 + 1));
    }
  }

  lemma RunKeepsSilence(cfg: Config, env: Env, s: State, c: Snapshot)
    requires Undisturbed(env, c)
    ensures KeepsSilence((n: nat) => RunAt(cfg, env, s, n))
  {
    forall n: nat | Silent(RunAt(cfg, env, s, n))
      ensures Silent(RunAt(cfg, env, s, n + 1))
      ensures RunAt(cfg, env, s, n + 1).events == RunAt(cfg, env, s, n).events
    {
      SilentTick(cfg, env, RunAt(cfg, env, s, n), c);
      RunStep(cfg, env, s, n);
    }
  }

  lemma RunStep(cfg: Config, env: Env, s: State, n: nat)
    ensures RunAt(cfg, env, s, n + 1) == TickAt(cfg, env, RunAt(cfg, env, s, n)).0
  {
  }

  /** ... and then the driver falls silent: after at most |c - store| + 2 ticks
      every tick is idle and emits no event. */
  lemma SettlesDown(cfg: Config, env: Env, s: State, c: Snapshot) returns (i: nat)
    requires Undisturbed(env, c)
    ensures i <= |c - s.store| + 2
    ensures forall j :: i <= j ==>
              TickAt(cfg, env, RunAt(cfg, env, s, j)).1 == Idle
              && RunAt(cfg, env, s, j).events == RunAt(cfg, env, s, i).events
  {
    i := FirstSilent(cfg, env, s, c);
    RunKeepsSilence(cfg, env, s, c);
    forall j | i <= j
      ensures TickAt(cfg, env, RunAt(cfg, env, s, j)).1 == Idle
      ensures RunAt(cfg, env, s, j).events == RunAt(cfg, env, s, i).events
    {
      StaysSilent((n: nat) => RunAt(cfg, env, s, n), i, j);
      SilentTick(cfg, env, RunAt(cfg, env, s, j), c);
    }
  }

  lemma FirstSilent(cfg: Config, env: Env, s: State, c: Snapshot) returns (i: nat)
    requires Undisturbed(env, c)
    ensures i <= |c - s.store| + 2 && Silent(RunAt(cfg, env, s, i))
  {
    var bound := |c - s.store| + 2;
    if RunsThroughout(cfg, env, s, bound) {
      WorkIsBounded(cfg, env, s, c, bound);
    }
    var j :| 0 <= j < bound && !TickAt(cfg, env, RunAt(cfg, env, s, j)).1.Ran?;
    IdleIsSilent(cfg, env, RunAt(cfg, env, s, j), c);
    RunStep(cfg, env, s, j);
    i := j + 1;
  }

  lemma IdleIsSilent(cfg: Config, env: Env, s: State, c: Snapshot)
    requires Undisturbed(env, c) && !TickAt(cfg, env, s).1.Ran?
    ensures Silent(TickAt(cfg, env, s).0)
  {
    TickProgress(cfg, env, s, c);
  }

  lemma RunStart(cfg: Config, env: Env, s: State)
    ensures RunAt(cfg, env, s, 0) == s
    ensures RunAt(cfg, env, s, 1) == TickAt(cfg, env, s).0
  {
    assert RunAt(cfg, env, s, 1) == TickAt(cfg, env, RunAt(cfg, env, s, 0)).0;
  }

  lemma RunsShift(cfg: Config, env: Env, s: State, k: nat)
    requires k >= 1 && RunsThroughout(cfg, env, s, k)
    ensures RunsThroughout(cfg, env, TickAt(cfg, env, s).0, k - 1)
  {
    var s1 := TickAt(cfg, env, s).0;
    forall i | 0 <= i < k - 1
      ensures TickAt(cfg, env, RunAt(cfg, env, s1, i)).1.Ran?
    {
      RunShift(cfg, env, s, i);
    }
  }

  lemma {:induction false} SubsetCard<T>(a: set<T>, b: set<T>)
    requires a <= b
    ensures |a| <= |b|
    decreases |a|
  {
    if a != {} {
      var x :| x in a;
      SubsetCard(a - {x}, b - {x});
    }
  }
}
