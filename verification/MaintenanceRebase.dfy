/** Advancing the boundary of an unchanged hop is invisible: the program and
the driver that keeps every recorded boundary make the same decisions, touch
the store in the same way and emit the same events, in every run. */
module MaintenanceRebase {
  import opened Store
  import opened MaintenanceOrder
  import opened MaintenanceModel

  /** `r` holds the rebased boundaries, `k` the kept ones. */
  ghost predicate HopsAgree(store: Snapshot, r: map<Handle, Hop>, k: map<Handle, Hop>) {
    && r.Keys == k.Keys
    && forall h :: h in r ==>
         && r[h].interests == k[h].interests
         && r[h].retry == k[h].retry
         && k[h].before <= r[h].before <= store
         && !Changed(k[h].before, r[h].before, k[h].interests)
  }

  /** The two drivers differ in boundaries only. */
  ghost predicate Twins(r: State, k: State) {
    r == k.(hops := r.hops) && HopsAgree(r.store, r.hops, k.hops)
  }

  lemma AgreeNeedsWork(store: Snapshot, r: map<Handle, Hop>, k: map<Handle, Hop>, h: Handle)
    requires HopsAgree(store, r, k)
    ensures NeedsWork(r, h, store) <==> NeedsWork(k, h, store)
    ensures h in r ==> (Changed(r[h].before, store, r[h].interests) <==> Changed(k[h].before, store, k[h].interests))
  {
    if h in r {
      QuietRebase(k[h].before, r[h].before, store, k[h].interests);
    }
  }

  lemma HopTwins(cfg: Config, env: Env, r: State, k: State, h: Handle)
    requires Twins(r, k)
    ensures var (r', e) := HopAt(cfg.(rebase := true), env, r, h);
            var (k', f) := HopAt(cfg.(rebase := false), env, k, h);
            e == f && Twins(r', k')
  {
    var r1 := Advance(env, r.(attempted := r.attempted + [h]));
    var k1 := Advance(env, k.(attempted := k.attempted + [h]));
    assert Twins(r1, k1);
    if !Drops(env, r) {
      var r2, k2 := Advance(env, r1), Advance(env, k1);
      assert Twins(r2, k2);
      AgreeNeedsWork(r2.store, r2.hops, k2.hops, h);
      if Fails(env, r1) {
        assert HopsAgree(r2.store, MarkRetry(r2.hops, h), MarkRetry(k2.hops, h));
      } else if NeedsWork(r2.hops, h, r2.store) {
        RunTwin(env, r2, k2, h);
      } else {
        var rebased := r2.hops[h := r2.hops[h].(before := r2.store)];
        assert HopsAgree(r2.store, rebased, k2.hops);
      }
    }
  }

  lemma RunTwin(env: Env, r: State, k: State, h: Handle)
    requires Twins(r, k)
    ensures var (r', e) := RunHop(env, r, h);
            var (k', f) := RunHop(env, k, h);
            e == f && Twins(r', k')
  {
    var hop := Hop(r.store, env(r.clock).hop.interests, !env(r.clock).hop.ok);
    NothingChanged(r.store, hop.interests);
    var (r', e) := RunHop(env, r, h);
    assert HopsAgree(r'.store, r.hops[h := hop], k.hops[h := hop]);
  }

  lemma {:induction false} HopsTwins(cfg: Config, env: Env, r: State, k: State, order: seq<Handle>)
    requires Twins(r, k)
    ensures var (r', e) := HopsAt(cfg.(rebase := true), env, r, order);
            var (k', f) := HopsAt(cfg.(rebase := false), env, k, order);
            e == f && Twins(r', k')
    decreases |order|
  {
    if order != [] {
      HopTwins(cfg, env, r, k, order[0]);
      var (r1, e) := HopAt(cfg.(rebase := true), env, r, order[0]);
      var (k1, f) := HopAt(cfg.(rebase := false), env, k, order[0]);
      if e == Done {
        HopsTwins(cfg, env, r1, k1, order[1..]);
      }
    }
  }

  lemma {:induction false} TargetsTwins(cfg: Config, env: Env, r: State, k: State, targets: seq<Handle>)
    requires Twins(r, k)
    ensures var (r', e) := TargetsAt(cfg.(rebase := true), env, r, targets);
            var (k', f) := TargetsAt(cfg.(rebase := false), env, k, targets);
            e == f && Twins(r', k')
    decreases |targets|
  {
    hide HopsAt, Order;
    if targets != [] && !Fails(env, r) {
      var (r2, w) := PlanAt(cfg.(rebase := true), Advance(env, r), targets[0]);
      var (k2, v) := PlanAt(cfg.(rebase := false), Advance(env, k), targets[0]);
      assert Twins(r2, k2) && w == v;
      if !w.fault.Fine? {
        var r3 := r2.(events := r2.events + [Failure(Collection(targets[0]))], pass := CountFailure(r2.pass));
        var k3 := k2.(events := k2.events + [Failure(Collection(targets[0]))], pass := CountFailure(k2.pass));
        TargetsTwins(cfg, env, r3, k3, targets[1..]);
      } else {
        HopsTwins(cfg, env, r2, k2, w.order);
        var (r3, e) := HopsAt(cfg.(rebase := true), env, r2, w.order);
        var (k3, f) := HopsAt(cfg.(rebase := false), env, k2, w.order);
        if e == Done {
          TargetsTwins(cfg, env, r3, k3, targets[1..]);
        }
      }
    }
  }

  lemma {:induction false} SelectIgnoresRebase(cfg: Config, snapshot: Snapshot, n: nat)
    requires n <= |cfg.references|
    ensures Select(cfg.(rebase := true), snapshot, n) == Select(cfg.(rebase := false), snapshot, n)
    decreases n
  {
    if n > 0 {
      SelectIgnoresRebase(cfg, snapshot, n - 1);
    }
  }

  lemma StartTwins(cfg: Config, r: State, k: State)
    requires Twins(r, k)
    ensures var (r', targets) := StartPass(cfg.(rebase := true), r);
            var (k', same) := StartPass(cfg.(rebase := false), k);
            targets == same && Twins(r', k')
  {
    hide Select;
    SelectIgnoresRebase(cfg, r.store, |cfg.references|);
  }

  lemma RetainTwins(r: State, k: State)
    requires Twins(r, k)
    ensures Twins(r.(hops := Retain(r.hops, r.attempted)), k.(hops := Retain(k.hops, k.attempted)))
  {
  }

  lemma PassTwins(cfg: Config, env: Env, r: State, k: State)
    requires Twins(r, k)
    ensures var (r', e) := PassAt(cfg.(rebase := true), env, r);
            var (k', f) := PassAt(cfg.(rebase := false), env, k);
            e == f && Twins(r', k')
  {
    hide TargetsAt, Select, StartPass, Retain;
    var r1 := Advance(env, r.(attempted := [], plans := [], pass := Pass(0, 0, 0, 0)));
    var k1 := Advance(env, k.(attempted := [], plans := [], pass := Pass(0, 0, 0, 0)));
    StartTwins(cfg, r1, k1);
    var (r2, targets) := StartPass(cfg.(rebase := true), r1);
    var (k2, same) := StartPass(cfg.(rebase := false), k1);
    TargetsTwins(cfg, env, r2, k2, targets);
    RetainTwins(TargetsAt(cfg.(rebase := true), env, r2, targets).0,
                TargetsAt(cfg.(rebase := false), env, k2, targets).0);
  }

  lemma GatherTwins(planning: Interests, store: Snapshot, r: map<Handle, Hop>, k: map<Handle, Hop>)
    requires HopsAgree(store, r, k)
    ensures Gather(planning, r) == Gather(planning, k)
  {
    assert forall h :: h in r <==> h in k;
    assert forall h :: h in r ==> r[h].interests == k[h].interests;
    var gr, gk := Gather(planning, r), Gather(planning, k);
    assert gr.records == gk.records;
    assert gr.blobs == gk.blobs;
  }

  lemma TickTwins(cfg: Config, env: Env, r: State, k: State)
    requires Twins(r, k)
    ensures var (r', out) := TickAt(cfg.(rebase := true), env, r);
            var (k', same) := TickAt(cfg.(rebase := false), env, k);
            out == same && Twins(r', k')
  {
    hide PassAt, Conclude;
    var r1, k1 := Advance(env, r), Advance(env, k);
    assert Twins(r1, k1);
    if Fails(env, r) {
    } else if Quiet(r1, r1.store) {
      IdleTwins(cfg, r1, k1);
    } else {
      PassTwins(cfg, env, r1.(catchUp := true), k1.(catchUp := true));
      var (r2, e) := PassAt(cfg.(rebase := true), env, r1.(catchUp := true));
      var (k2, f) := PassAt(cfg.(rebase := false), env, k1.(catchUp := true));
      assert e == f && Twins(r2, k2);
      if e == Done {
        ConcludeTwins(env, r1.store, r2, k2);
      }
    }
  }

  lemma ConcludeTwins(env: Env, before: Snapshot, r: State, k: State)
    requires Twins(r, k)
    ensures var (r', out) := Conclude(env, before, r);
            var (k', same) := Conclude(env, before, k);
            out == same && Twins(r', k')
  {
    GatherTwins(r.planning, r.store, r.hops, k.hops);
    var (r', out) := Conclude(env, before, r);
    assert HopsAgree(r'.store, r.hops, k.hops);
  }

  lemma IdleTwins(cfg: Config, r: State, k: State)
    requires Twins(r, k)
    ensures Twins(IdleStep(cfg.(rebase := true), r), IdleStep(cfg.(rebase := false), k))
  {
    forall h | h in r.hops
      ensures !Changed(r.hops[h].before, r.store, r.hops[h].interests) ==>
                !Changed(k.hops[h].before, r.store, k.hops[h].interests)
    {
      AgreeNeedsWork(r.store, r.hops, k.hops, h);
    }
  }

  lemma {:induction false} RunTwins(cfg: Config, env: Env, store: Snapshot, n: nat)
    ensures Twins(RunAt(cfg.(rebase := true), env, Initial(store), n),
                  RunAt(cfg.(rebase := false), env, Initial(store), n))
    decreases n
  {
    hide TickAt;
    if n > 0 {
      RunTwins(cfg, env, store, n - 1);
      TickTwins(cfg, env, RunAt(cfg.(rebase := true), env, Initial(store), n - 1),
                RunAt(cfg.(rebase := false), env, Initial(store), n - 1));
    }
  }

  /** REBASING IS INVISIBLE. Over every environment, the two drivers agree tick
      by tick on the outcome, the trace, the store and every field except the
      boundaries; and at each handle they would take the same run/skip decision. */
  lemma RebaseIsInvisible(cfg: Config, env: Env, store: Snapshot, n: nat)
    ensures var r := RunAt(cfg.(rebase := true), env, Initial(store), n);
            var k := RunAt(cfg.(rebase := false), env, Initial(store), n);
            && TickAt(cfg.(rebase := true), env, r).1 == TickAt(cfg.(rebase := false), env, k).1
            && r.events == k.events && r.store == k.store && r.attempted == k.attempted
            && r == k.(hops := r.hops)
            && forall h :: NeedsWork(r.hops, h, r.store) <==> NeedsWork(k.hops, h, k.store)
  {
    RunTwins(cfg, env, store, n);
    var r := RunAt(cfg.(rebase := true), env, Initial(store), n);
    var k := RunAt(cfg.(rebase := false), env, Initial(store), n);
    TickTwins(cfg, env, r, k);
    forall h
      ensures NeedsWork(r.hops, h, r.store) <==> NeedsWork(k.hops, h, k.store)
    {
      AgreeNeedsWork(r.store, r.hops, k.hops, h);
    }
  }
}
