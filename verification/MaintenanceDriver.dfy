/** The driver as the mutable object it is: fields updated in place by `Tick`,
each method proved against the functional model of the same step. */
module MaintenanceDriver {
  import opened Wrappers
  import opened Store
  import opened MaintenanceOrder
  import opened MaintenanceModel
  import opened MaintenanceRuns

  /** The caller-owned store. Other writers append between any two looks. */
  class Pile {
    var items: Snapshot
    var clock: nat

    constructor (start: Snapshot)
      ensures items == start && clock == 0
    {
      items, clock := start, 0;
    }

    method Look(env: Env) returns (r: Option<Snapshot>)
      modifies this
      ensures items == old(items) + env(old(clock)).arrivals && clock == old(clock) + 1
      ensures r == if env(old(clock)).fails then None else Some(items)
    {
      items := items + env(clock).arrivals;
      r := if env(clock).fails then None else Some(items);
      clock := clock + 1;
    }

    /** Await one scheduling point; the caller may drop the future there. */
    method Await(env: Env, added: Snapshot) returns (dropped: bool)
      modifies this
      ensures items == old(items) + env(old(clock)).arrivals + added && clock == old(clock) + 1
      ensures dropped == env(old(clock)).cancel
    {
      items := items + env(clock).arrivals + added;
      dropped := env(clock).cancel;
      clock := clock + 1;
    }
  }

  // ---- the depth-first walk with its mutable `visiting` and `order` ----

  method Walker(s: Snapshot, content: Content, dependencies: bool, attempted: set<Handle>,
                current: Handle, visiting: set<Handle>, order: seq<Handle>, observed: set<Handle>)
    returns (fault: Fault, visiting': set<Handle>, order': seq<Handle>, observed': set<Handle>)
    ensures var w := Visit(s, content, dependencies, attempted, current, visiting, order);
            fault == w.fault && order' == w.order && observed' == observed + w.observed
    ensures fault.Fine? ==> visiting' == visiting
    decreases |ReadableHandles(s) - visiting|, 0
  {
    fault, visiting', order', observed' := Fine, visiting, order, observed;
    if current in attempted || current in order {
      return;
    }
    if current in visiting {
      fault := Cyclic(current);
      return;
    }
    visiting' := visiting + {current};
    if dependencies {
      observed' := observed' + {current};
      var upstream := Upstream(s, content, current);
      if upstream.None? {
        fault := Unreadable(current);
        return;
      }
      ShrinkByOne(ReadableHandles(s), visiting, current);
      ghost var inner := visiting';
      ghost var goal := VisitAll(s, content, attempted, upstream.value, inner, order);
      var i := 0;
      while i < |upstream.value|
        invariant 0 <= i <= |upstream.value|
        invariant fault.Fine? && visiting' == inner
        invariant var rest := VisitAll(s, content, attempted, upstream.value[i..], inner, order');
                  goal.fault == rest.fault && goal.order == rest.order
                  && observed + {current} + goal.observed == observed' + rest.observed
      {
        ghost var todo := upstream.value[i..];
        assert todo[0] == upstream.value[i] && todo[1..] == upstream.value[i + 1..];
        fault, visiting', order', observed' :=
          Walker(s, content, true, attempted, upstream.value[i], visiting', order', observed');
        if !fault.Fine? {
          return;
        }
        i := i + 1;
      }
      assert upstream.value[i..] == [];
    }
    visiting' := visiting' - {current};
    order' := order' + [current];
  }

  class Driver {
    const cfg: Config
    var hops: map<Handle, Hop>
    var planning: Interests
    var baseline: Option<Snapshot>
    var catchUp: bool
    var interests: Interests
    var passes: nat
    // what the observer saw, and what the last pass did
    var events: seq<Event>
    var pass: Pass
    var attempted: seq<Handle>
    var looks: seq<PlanRead>
    var plans: seq<Plan>

    constructor (cfg: Config)
      ensures this.cfg == cfg
      ensures forall pile: Pile :: pile.clock == 0 ==> View(pile) == Initial(pile.items)
    {
      this.cfg := cfg;
      hops, planning, baseline, catchUp, interests, passes := map[], NOTHING, None, true, NOTHING, 0;
      events, pass, attempted, looks, plans := [], Pass(0, 0, 0, 0), [], [], [];
    }

    function View(pile: Pile): State
      reads this, pile
    {
      State(pile.items, pile.clock, hops, planning, baseline, catchUp, interests, passes,
            pass, attempted, looks, plans, events)
    }

    /** `MaintenanceState::interests`. */
    method Gathered() returns (r: Interests)
      ensures r == Gather(planning, hops)
    {
      r := planning;
      var rest := hops.Keys;
      while rest != {}
        invariant rest <= hops.Keys
        invariant r == Gather(planning, map h | h in hops && h !in rest :: hops[h])
        decreases |rest|
      {
        var h :| h in rest;
        ghost var seen := map g | g in hops && g !in rest :: hops[g];
        rest := rest - {h};
        GatherStep(planning, seen, h, hops[h]);
        assert (map g | g in hops && g !in rest :: hops[g]) == seen[h := hops[h]];
        r := Merge(r, hops[h].interests);
      }
      assert (map h | h in hops && h !in rest :: hops[h]) == hops;
    }

    /** `MaintenanceState::rebase_unchanged`. */
    method RebaseAll(current: Snapshot)
      modifies this`hops
      ensures hops == RebaseUnchanged(old(hops), current)
    {
      var rest := hops.Keys;
      while rest != {}
        invariant rest <= hops.Keys == old(hops).Keys
        invariant forall h :: h in hops ==>
                    hops[h] == if h in rest then old(hops)[h] else RebaseUnchanged(old(hops), current)[h]
        decreases |rest|
      {
        var h :| h in rest;
        if !Changed(hops[h].before, current, hops[h].interests) {
          hops := hops[h := hops[h].(before := current)];
        }
        rest := rest - {h};
      }
    }

    /** `MaintenanceState::needs_work`. */
    method Needs(h: Handle, current: Snapshot) returns (b: bool)
      modifies this`hops
      ensures b == NeedsWork(old(hops), h, current)
      ensures hops == if !b && cfg.rebase then old(hops)[h := old(hops)[h].(before := current)] else old(hops)
    {
      if h !in hops {
        return true;
      }
      if hops[h].retry || Changed(hops[h].before, current, hops[h].interests) {
        return true;
      }
      if cfg.rebase {
        hops := hops[h := hops[h].(before := current)];
      }
      b := false;
    }

    method Emit(e: Event)
      modifies this`events
      ensures events == old(events) + [e]
    {
      events := events + [e];
    }

    /** One planned handle: yield, look, and run or skip. */
    method HopOn(pile: Pile, env: Env, h: Handle) returns (exit: Exit)
      modifies this, pile
      ensures (View(pile), exit) == HopAt(cfg, env, old(View(pile)), h)
    {
      hide NeedsWork, RunHop, Changed;
      attempted := attempted + [h];
      var dropped := pile.Await(env, {});
      assert pile.items == old(pile.items) + env(old(pile.clock)).arrivals;
      if dropped {
        return Cancelled;
      }
      var before := pile.Look(env);
      if before.None? {
        if h in hops {
          hops := hops[h := hops[h].(retry := true)];
        }
        Emit(Failure(Collection(h)));
        pass := CountFailure(pass);
        return Done;
      }
      var needed := Needs(h, before.value);
      if !needed {
        return Done;
      }
      exit := Attempt(pile, env, h, before.value);
    }

    /** The guarded hop: whatever happens after `HopStarted`, exactly one
        closing event follows, `HopCancelled` standing for the drop guard. */
    method Attempt(pile: Pile, env: Env, h: Handle, before: Snapshot) returns (exit: Exit)
      requires before == pile.items
      modifies this, pile
      ensures (View(pile), exit) == RunHop(env, old(View(pile)), h)
    {
      Emit(HopStarted(h));
      var effect := env(pile.clock).hop;
      var dropped := pile.Await(env, effect.added);
      if dropped {
        Emit(HopCancelled(h));
        return Cancelled;
      }
      if effect.published {
        pass := pass.(published := pass.published + 1);
      }
      hops := hops[h := Hop(before, effect.interests, !effect.ok)];
      Emit(HopFinished(h, effect.ok, effect.published));
      if effect.ok {
        pass := pass.(maintained := pass.maintained + 1);
      } else {
        pass := CountFailure(pass);
      }
      exit := Done;
    }

    method RunOrder(pile: Pile, env: Env, order: seq<Handle>) returns (exit: Exit)
      modifies this, pile
      ensures (View(pile), exit) == HopsAt(cfg, env, old(View(pile)), order)
    {
      var i := 0;
      while i < |order|
        invariant 0 <= i <= |order|
        invariant HopsAt(cfg, env, View(pile), order[i..]) == HopsAt(cfg, env, old(View(pile)), order)
      {
        assert order[i..][0] == order[i] && order[i..][1..] == order[i + 1..];
        exit := HopOn(pile, env, order[i]);
        if exit != Done {
          return;
        }
        i := i + 1;
      }
      assert order[i..] == [];
      exit := Done;
    }

    /** Plan one target on the snapshot just taken. */
    method PlanOn(pile: Pile, snapshot: Snapshot, target: Handle) returns (w: Walk)
      requires snapshot == pile.items
      modifies this`planning, this`looks, this`plans
      ensures (View(pile), w) == PlanAt(cfg, old(View(pile)), target)
    {
      var fault, visiting, order, observed :=
        Walker(snapshot, cfg.content, cfg.dependencies, Elements(attempted), target, {}, [], {});
      w := Walk(fault, order, observed);
      assert w == Order(snapshot, cfg.content, cfg.dependencies, Elements(attempted), target) by {
        assert {} + Visit(snapshot, cfg.content, cfg.dependencies, Elements(attempted), target, {}, []).observed
            == Visit(snapshot, cfg.content, cfg.dependencies, Elements(attempted), target, {}, []).observed;
      }
      planning := Merge(planning, PlanningInterests(w));
      looks := looks + [PlanRead(snapshot, PlanningInterests(w))];
      plans := plans + [Plan(target, snapshot, fault.Fine?)];
    }

    method RunTargets(pile: Pile, env: Env, targets: seq<Handle>) returns (exit: Exit)
      modifies this, pile
      ensures (View(pile), exit) == TargetsAt(cfg, env, old(View(pile)), targets)
    {
      var i := 0;
      while i < |targets|
        invariant 0 <= i <= |targets|
        invariant TargetsAt(cfg, env, View(pile), targets[i..]) == TargetsAt(cfg, env, old(View(pile)), targets)
      {
        assert targets[i..][0] == targets[i] && targets[i..][1..] == targets[i + 1..];
        exit := RunTarget(pile, env, targets[i], targets[i + 1..]);
        if exit != Done {
          return;
        }
        i := i + 1;
      }
      assert targets[i..] == [];
      exit := Done;
    }

    /** One iteration of the target loop; `rest` is what it leaves to do. */
    method RunTarget(pile: Pile, env: Env, target: Handle, ghost rest: seq<Handle>) returns (exit: Exit)
      modifies this, pile
      ensures exit == Done ==>
                TargetsAt(cfg, env, old(View(pile)), [target] + rest) == TargetsAt(cfg, env, View(pile), rest)
      ensures exit != Done ==>
                TargetsAt(cfg, env, old(View(pile)), [target] + rest) == (View(pile), exit)
    {
      assert ([target] + rest)[0] == target && ([target] + rest)[1..] == rest;
      var snapshot := pile.Look(env);
      if snapshot.None? {
        return Failed;
      }
      var w := PlanOn(pile, snapshot.value, target);
      if !w.fault.Fine? {
        Emit(Failure(Collection(target)));
        pass := CountFailure(pass);
        return Done;
      }
      exit := RunOrder(pile, env, w.order);
    }

    /** Resolve the selection. */
    method SelectOn(snapshot: Snapshot) returns (sel: Selection)
      ensures sel == Select(cfg, snapshot, |cfg.references|)
    {
      sel := Selection([], [], NOTHING);
      var n := 0;
      while n < |cfg.references|
        invariant 0 <= n <= |cfg.references|
        invariant sel == Select(cfg, snapshot, n)
      {
        match cfg.references[n] {
          case ByHandle(h) =>
            sel := sel.(targets := InsertTarget(cfg.priority, sel.targets, h));
          case ByName(name) =>
            sel := sel.(interests := Merge(sel.interests, cfg.lookupReads(snapshot, name)));
            match cfg.lookup(snapshot, name) {
              case Some(h) => sel := sel.(targets := InsertTarget(cfg.priority, sel.targets, h));
              case None => sel := sel.(failed := sel.failed + [n]);
            }
        }
        n := n + 1;
      }
    }

    method BeginPass(pile: Pile, snapshot: Snapshot) returns (targets: seq<Handle>)
      requires snapshot == pile.items
      modifies this`pass, this`events, this`planning, this`looks
      ensures (View(pile), targets) == StartPass(cfg, old(View(pile)))
    {
      var sel := SelectOn(snapshot);
      pass := Pass(|sel.targets|, 0, 0, |sel.failed|);
      events := events + FailureEvents(sel.failed);
      planning := sel.interests;
      looks := [PlanRead(snapshot, sel.interests)];
      targets := sel.targets;
    }

    /** `maintenance_pass_inner`. */
    method RunPass(pile: Pile, env: Env) returns (exit: Exit)
      modifies this, pile
      ensures (View(pile), exit) == PassAt(cfg, env, old(View(pile)))
    {
      hide TargetsAt, StartPass, Changed;
      ghost var s := View(pile);
      attempted, plans, pass := [], [], Pass(0, 0, 0, 0);
      ghost var s0 := View(pile);
      var snapshot := pile.Look(env);
      ghost var s1 := View(pile);
      assert s1 == Advance(env, s0);
      if snapshot.None? {
        return Failed;
      }
      var targets := BeginPass(pile, snapshot.value);
      ghost var s2 := View(pile);
      exit := RunTargets(pile, env, targets);
      ghost var s3 := View(pile);
      if exit == Done {
        hops := map h | h in hops && h in attempted :: hops[h];
        assert View(pile) == s3.(hops := Retain(s3.hops, s3.attempted));
      }
      PassSteps(cfg, env, s, s2, targets, s3, exit);
    }

    /** The end of a tick whose pass completed. */
    method ConcludeOn(pile: Pile, env: Env, before: Snapshot) returns (out: Outcome)
      modifies this, pile
      ensures (View(pile), out) == Conclude(env, before, old(View(pile)))
    {
      hide Gather, Changed;
      passes := passes + 1;
      interests := Gathered();
      var after := pile.Look(env);
      if after.None? {
        return Error;
      }
      catchUp := Changed(before, after.value, interests);
      baseline := after;
      Emit(PassFinished(passes, pass));
      out := Ran(pass);
    }

    /** `Driver::tick`: proved against the model step, so that every law of the
        runs holds of this object. In particular the invariant is kept and an
        idle tick has swallowed nothing. */
    method Tick(pile: Pile, env: Env) returns (out: Outcome)
      modifies this, pile
      ensures (View(pile), out) == TickAt(cfg, env, old(View(pile)))
      ensures cfg.rebase && old(Sound(View(pile))) ==> Sound(View(pile))
      ensures cfg.rebase && old(Sound(View(pile))) && out == Idle ==> Settles(old(View(pile)), pile.items)
      ensures old(Bracketed(events)) ==> Bracketed(events)
    {
      ghost var start := View(pile);
      out := Ticked(pile, env);
      if cfg.rebase && Sound(start) {
        TickSound(cfg, env, start);
      }
      if Bracketed(start.events) {
        TickBracketed(cfg, env, start);
      }
    }

    method Ticked(pile: Pile, env: Env) returns (out: Outcome)
      modifies this, pile
      ensures (View(pile), out) == TickAt(cfg, env, old(View(pile)))
    {
      ghost var s := View(pile);
      var before := pile.Look(env);
      ghost var s1 := View(pile);
      assert s1 == Advance(env, s);
      if before.None? {
        return Error;
      }
      if !catchUp && !(baseline.Some? && Changed(baseline.value, before.value, interests)) {
        if cfg.rebase {
          RebaseAll(before.value);
        }
        baseline := before;
        return Idle;
      }
      catchUp := true;
      assert View(pile) == s1.(catchUp := true);
      var exit := RunPass(pile, env);
      ghost var s2 := View(pile);
      if exit == Done {
        out := ConcludeOn(pile, env, before.value);
      } else {
        out := if exit == Cancelled then Dropped else Error;
      }
      TickSteps(cfg, env, s, s2, exit);
    }
  }

  /** The pass function, step by step. */
  lemma PassSteps(cfg: Config, env: Env, s: State, s2: State, targets: seq<Handle>, s3: State, exit: Exit)
    requires var s0 := s.(attempted := [], plans := [], pass := Pass(0, 0, 0, 0));
             !Fails(env, s0) && (s2, targets) == StartPass(cfg, Advance(env, s0))
    requires (s3, exit) == TargetsAt(cfg, env, s2, targets)
    ensures PassAt(cfg, env, s)
         == if exit != Done then (s3, exit) else (s3.(hops := Retain(s3.hops, s3.attempted)), Done)
  {
  }

  /** The tick function once it has decided to work. */
  lemma TickSteps(cfg: Config, env: Env, s: State, s2: State, exit: Exit)
    requires !Fails(env, s) && !Quiet(Advance(env, s), Advance(env, s).store)
    requires (s2, exit) == PassAt(cfg, env, Advance(env, s).(catchUp := true))
    ensures TickAt(cfg, env, s)
         == if exit == Done then Conclude(env, Advance(env, s).store, s2)
            else (s2, if exit == Cancelled then Dropped else Error)
  {
  }

  lemma GatherStep(planning: Interests, seen: map<Handle, Hop>, h: Handle, hop: Hop)
    requires h !in seen
    ensures Gather(planning, seen[h := hop]) == Merge(Gather(planning, seen), hop.interests)
  {
    var more := seen[h := hop];
    var a, b := Gather(planning, more), Merge(Gather(planning, seen), hop.interests);
    assert forall g :: g in more <==> g in seen || g == h;
    assert forall g :: g in seen ==> more[g] == seen[g];
    assert more[h] == hop;
    assert a.records == b.records;
    assert a.blobs == b.blobs;
  }
}
