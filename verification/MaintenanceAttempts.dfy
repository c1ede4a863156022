/** Which collections a pass attempts, how often, and in which order. */
module MaintenanceAttempts {
  import opened Wrappers
  import opened Store
  import opened MaintenanceOrder
  import opened MaintenanceModel

  // ---- descriptors never change, and never become unreadable again ----

  lemma SettledGrows(a: Snapshot, b: Snapshot, content: Content, l: seq<Handle>)
    requires a <= b && Settled(a, content, l)
    ensures Settled(b, content, l)
  {
    forall i | 0 <= i < |l|
      ensures Upstream(b, content, l[i]) == Upstream(a, content, l[i])
    {
      assert Upstream(a, content, l[i]).Some?;
    }
  }

  lemma SettledPrefix(s: Snapshot, content: Content, l: seq<Handle>, m: seq<Handle>)
    requires l <= m && Settled(s, content, m) && Distinct(m)
    ensures Settled(s, content, l) && Distinct(l)
  {
    forall i | 0 <= i < |l|
      ensures Upstream(s, content, l[i]).Some?
      ensures forall u :: u in Upstream(s, content, l[i]).value ==> u in l[..i]
    {
      assert l[i] == m[i] && l[..i] == m[..i];
    }
  }

  /** The pass so far respects the dependency order, each handle once. */
  ghost predicate Orderly(cfg: Config, s: State) {
    Distinct(s.attempted) && (cfg.dependencies ==> Settled(s.store, cfg.content, s.attempted))
  }

  /** `h` belongs to the closure of a target that planned without fault. */
  ghost predicate Planned(cfg: Config, plans: seq<Plan>, h: Handle) {
    exists p :: p in plans && p.fine &&
      if cfg.dependencies then Reaches(p.snapshot, cfg.content, p.target, h) else p.target == h
  }

  ghost predicate PlansTold(cfg: Config, plans: seq<Plan>) {
    forall p :: p in plans ==>
      (p.fine <==> !cfg.dependencies || !Bad(p.snapshot, cfg.content, p.target))
  }

  /** Between targets: attempted is exactly what the plans ask for. */
  ghost predicate Exact(cfg: Config, s: State) {
    && Orderly(cfg, s)
    && PlansTold(cfg, s.plans)
    && forall h :: h in s.attempted <==> Planned(cfg, s.plans, h)
  }

  lemma {:induction false} HopsAttempt(cfg: Config, env: Env, s: State, order: seq<Handle>)
    ensures var (s', exit) := HopsAt(cfg, env, s, order);
            && s.attempted <= s'.attempted <= s.attempted + order
            && (exit == Done ==> s'.attempted == s.attempted + order)
            && s'.plans == s.plans && s.store <= s'.store
    decreases |order|
  {
    if order != [] {
      var (s1, exit) := HopAt(cfg, env, s, order[0]);
      assert s1.attempted == s.attempted + [order[0]];
      assert s.attempted + order == s1.attempted + order[1..];
      if exit == Done {
        HopsAttempt(cfg, env, s1, order[1..]);
      }
    }
  }

  /** Planning one target, at a state where the pass is exact. */
  lemma PlanExact(cfg: Config, s: State, target: Handle)
    requires Exact(cfg, s)
    ensures var (s', w) := PlanAt(cfg, s, target);
            && PlansTold(cfg, s'.plans)
            && s'.attempted == s.attempted && s'.store == s.store
            && s'.plans == s.plans + [Plan(target, s.store, w.fault.Fine?)]
            && (!w.fault.Fine? ==> Exact(cfg, s'))
            && (w.fault.Fine? ==>
                  && Distinct(s.attempted + w.order)
                  && (cfg.dependencies ==> Settled(s.store, cfg.content, s.attempted + w.order))
                  && forall h :: h in s.attempted + w.order <==> Planned(cfg, s'.plans, h))
  {
    var (s', w) := PlanAt(cfg, s, target);
    if cfg.dependencies {
      OrderCorrect(s.store, cfg.content, s.attempted, target);
    }
    var p := Plan(target, s.store, w.fault.Fine?);
    forall q
      ensures q in s'.plans <==> q in s.plans || q == p
    {
    }
    PlannedPush(cfg, s.plans, p);
  }

  lemma PlannedPush(cfg: Config, plans: seq<Plan>, p: Plan)
    ensures forall h :: Planned(cfg, plans + [p], h) <==>
              Planned(cfg, plans, h)
              || (p.fine && if cfg.dependencies then Reaches(p.snapshot, cfg.content, p.target, h) else p.target == h)
  {
    forall h
      ensures Planned(cfg, plans + [p], h) <==>
                Planned(cfg, plans, h)
                || (p.fine && if cfg.dependencies then Reaches(p.snapshot, cfg.content, p.target, h) else p.target == h)
    {
      assert p in plans + [p];
      assert forall q :: q in plans ==> q in plans + [p];
    }
  }

  /** The new plans are for the given targets, in that order. */
  ghost predicate Continues(earlier: seq<Plan>, targets: seq<Handle>, plans: seq<Plan>) {
    && earlier <= plans
    && |plans| == |earlier| + |targets|
    && forall i :: 0 <= i < |targets| ==> plans[|earlier| + i].target == targets[i]
  }

  lemma ContinuesStep(a: seq<Plan>, b: seq<Plan>, c: seq<Plan>, targets: seq<Handle>)
    requires targets != [] && Continues(a, [targets[0]], b) && Continues(b, targets[1..], c)
    ensures Continues(a, targets, c)
  {
    forall i | 0 <= i < |targets|
      ensures c[|a| + i].target == targets[i]
    {
      if i > 0 {
        assert c[|b| + (i - 1)].target == targets[1..][i - 1];
      } else {
        assert b[|a| + 0].target == [targets[0]][0];
      }
    }
  }

  lemma {:induction false} TargetsExact(cfg: Config, env: Env, s: State, targets: seq<Handle>)
    requires Exact(cfg, s)
    ensures Orderly(cfg, TargetsAt(cfg, env, s, targets).0)
    ensures TargetsAt(cfg, env, s, targets).1 == Done ==>
              Exact(cfg, TargetsAt(cfg, env, s, targets).0)
              && Continues(s.plans, targets, TargetsAt(cfg, env, s, targets).0.plans)
    decreases |targets|
  {
    if targets != [] {
      AdvanceExact(cfg, env, s);
      var s1 := Advance(env, s);
      if !Fails(env, s) {
        var (s2, w) := PlanAt(cfg, s1, targets[0]);
        if !w.fault.Fine? {
          PlanExact(cfg, s1, targets[0]);
          var s3 := s2.(events := s2.events + [Failure(Collection(targets[0]))], pass := CountFailure(s2.pass));
          assert Exact(cfg, s3);
          TargetsExact(cfg, env, s3, targets[1..]);
          if TargetsAt(cfg, env, s3, targets[1..]).1 == Done {
            ContinuesStep(s.plans, s3.plans, TargetsAt(cfg, env, s3, targets[1..]).0.plans, targets);
          }
        } else {
          PlanAndRunExact(cfg, env, s1, targets[0]);
          var (s3, exit) := HopsAt(cfg, env, s2, w.order);
          if exit == Done {
            TargetsExact(cfg, env, s3, targets[1..]);
            if TargetsAt(cfg, env, s3, targets[1..]).1 == Done {
              ContinuesStep(s.plans, s3.plans, TargetsAt(cfg, env, s3, targets[1..]).0.plans, targets);
            }
          }
        }
      }
    }
  }

  lemma AdvanceExact(cfg: Config, env: Env, s: State)
    requires Exact(cfg, s)
    ensures Exact(cfg, Advance(env, s))
  {
    if cfg.dependencies {
      SettledGrows(s.store, Advance(env, s).store, cfg.content, s.attempted);
    }
  }

  /** Plan one target without fault and run its hops. */
  lemma PlanAndRunExact(cfg: Config, env: Env, s: State, target: Handle)
    requires Exact(cfg, s) && PlanAt(cfg, s, target).1.fault.Fine?
    ensures var (s2, w) := PlanAt(cfg, s, target);
            var (s3, exit) := HopsAt(cfg, env, s2, w.order);
            && Orderly(cfg, s3)
            && Continues(s.plans, [target], s3.plans)
            && (exit == Done ==> Exact(cfg, s3))
  {
    PlanExact(cfg, s, target);
    var (s2, w) := PlanAt(cfg, s, target);
    HopsAttempt(cfg, env, s2, w.order);
    SettledPrefixOf(cfg, s2, w.order, HopsAt(cfg, env, s2, w.order).0);
  }

  lemma SettledPrefixOf(cfg: Config, s: State, order: seq<Handle>, s': State)
    requires Distinct(s.attempted + order) && s.store <= s'.store
    requires cfg.dependencies ==> Settled(s.store, cfg.content, s.attempted + order)
    requires s'.attempted <= s.attempted + order
    ensures Orderly(cfg, s')
  {
    if cfg.dependencies {
      SettledGrows(s.store, s'.store, cfg.content, s.attempted + order);
      SettledPrefix(s'.store, cfg.content, s'.attempted, s.attempted + order);
    } else {
      forall i, j | 0 <= i < j < |s'.attempted|
        ensures s'.attempted[i] != s'.attempted[j]
      {
        assert (s.attempted + order)[i] != (s.attempted + order)[j];
      }
    }
  }

  /** EACH HANDLE AT MOST ONCE, DEPENDENCIES FIRST: for every pass in every
      environment, also one that is cancelled or fails half way. */
  lemma PassOrderly(cfg: Config, env: Env, s: State)
    ensures Orderly(cfg, PassAt(cfg, env, s).0)
  {
    var s0 := s.(attempted := [], plans := [], pass := Pass(0, 0, 0, 0));
    if !Fails(env, s0) {
      var (s2, targets) := StartPass(cfg, Advance(env, s0));
      TargetsExact(cfg, env, s2, targets);
    }
  }

  // ---- the selection ----

  predicate Before(priority: Handle -> nat, a: Handle, b: Handle) {
    priority(a) < priority(b) || (priority(a) == priority(b) && a < b)
  }

  ghost predicate Sorted(priority: Handle -> nat, l: seq<Handle>) {
    forall i, j :: 0 <= i < j < |l| ==> Before(priority, l[i], l[j])
  }

  lemma {:induction false} InsertSorted(priority: Handle -> nat, l: seq<Handle>, h: Handle)
    requires Sorted(priority, l)
    ensures Sorted(priority, InsertTarget(priority, l, h))
    ensures forall x :: x in InsertTarget(priority, l, h) <==> x in l || x == h
  {
    var r := InsertTarget(priority, l, h);
    if l == [] {
    } else if l[0] == h {
    } else if Before(priority, h, l[0]) {
      assert r == [h] + l;
    } else {
      InsertSorted(priority, l[1..], h);
      var t := InsertTarget(priority, l[1..], h);
      assert r == [l[0]] + t;
      forall i, j | 0 <= i < j < |r|
        ensures Before(priority, r[i], r[j])
      {
        if i > 0 {
          assert r[i] == t[i - 1] && r[j] == t[j - 1];
        } else {
          assert r[j] == t[j - 1] && r[j] in t;
          if r[j] != h {
            var k :| 0 <= k < |l[1..]| && l[1..][k] == r[j];
            assert l[k + 1] == r[j];
          }
        }
      }
      forall x
        ensures x in r <==> x in l || x == h
      {
        assert x in r <==> x == l[0] || x in t;
        assert x in l <==> x == l[0] || x in l[1..];
      }
    }
  }

  /** Reference `i` resolves to `h` on this snapshot. */
  predicate Resolves(cfg: Config, snapshot: Snapshot, i: nat, h: Handle)
    requires i < |cfg.references|
  {
    match cfg.references[i]
    case ByHandle(g) => g == h
    case ByName(name) => cfg.lookup(snapshot, name) == Some(h)
  }

  /** The target list is the set of resolved handles, sorted by the signer's
      priority; the priority decides the order only. */
  lemma {:induction false} SelectCorrect(cfg: Config, snapshot: Snapshot, n: nat)
    requires n <= |cfg.references|
    ensures var sel := Select(cfg, snapshot, n);
            && Sorted(cfg.priority, sel.targets)
            && (forall h :: h in sel.targets <==> exists i :: 0 <= i < n && Resolves(cfg, snapshot, i, h))
    decreases n
  {
    if n > 0 {
      SelectCorrect(cfg, snapshot, n - 1);
      var before := Select(cfg, snapshot, n - 1).targets;
      var sel := Select(cfg, snapshot, n);
      var r := cfg.references[n - 1];
      if r.ByHandle? {
        InsertSorted(cfg.priority, before, r.handle);
      } else if cfg.lookup(snapshot, r.name).Some? {
        InsertSorted(cfg.priority, before, cfg.lookup(snapshot, r.name).value);
      }
      forall h
        ensures h in sel.targets <==> exists i :: 0 <= i < n && Resolves(cfg, snapshot, i, h)
      {
        assert h in sel.targets <==> h in before || Resolves(cfg, snapshot, n - 1, h);
      }
    }
  }

  // ---- what a completed pass attempted ----

  /** The two snapshots show the same descriptor graph. */
  ghost predicate SameGraph(content: Content, a: Snapshot, b: Snapshot) {
    forall h: Handle :: Upstream(a, content, h) == Upstream(b, content, h)
  }

  lemma SameGraphSame(content: Content, a: Snapshot, b: Snapshot, t: Handle)
    requires SameGraph(content, a, b)
    ensures Bad(a, content, t) <==> Bad(b, content, t)
    ensures forall h :: Reaches(a, content, t, h) <==> Reaches(b, content, t, h)
  {
    forall p: seq<Handle>
      ensures IsPath(a, content, p) <==> IsPath(b, content, p)
      ensures DeadEnd(a, content, p) <==> DeadEnd(b, content, p)
    {
    }
    forall h
      ensures Reaches(a, content, t, h) <==> Reaches(b, content, t, h)
    {
      if Reaches(a, content, t, h) {
        var p :| PathFrom(a, content, p, t, h);
        assert PathFrom(b, content, p, t, h);
      }
      if Reaches(b, content, t, h) {
        var p :| PathFrom(b, content, p, t, h);
        assert PathFrom(a, content, p, t, h);
      }
    }
    if Bad(a, content, t) {
      var p :| IsPath(a, content, p) && p[0] == t && DeadEnd(a, content, p);
      assert IsPath(b, content, p) && DeadEnd(b, content, p);
    }
    if Bad(b, content, t) {
      var p :| IsPath(b, content, p) && p[0] == t && DeadEnd(b, content, p);
      assert IsPath(a, content, p) && DeadEnd(a, content, p);
    }
  }

  /** Reference `i` selects `t`, whose closure is sound and contains `h`. */
  ghost predicate WantedBy(cfg: Config, first: Snapshot, graph: Snapshot, i: nat, t: Handle, h: Handle) {
    && i < |cfg.references| && Resolves(cfg, first, i, t)
    && !Bad(graph, cfg.content, t) && Reaches(graph, cfg.content, t, h)
  }

  /** THE ATTEMPTED SET. A completed pass over a fixed descriptor graph attempts
      exactly the union of the closures of those resolved targets whose closure
      is readable and acyclic. The right-hand side does not mention priority. */
  lemma PassAttempts(cfg: Config, env: Env, s: State, graph: Snapshot)
    requires cfg.dependencies
    requires PassAt(cfg, env, s).1 == Done
    requires forall p :: p in PassAt(cfg, env, s).0.plans ==> SameGraph(cfg.content, p.snapshot, graph)
    ensures var first := Advance(env, s).store;
            forall h :: h in PassAt(cfg, env, s).0.attempted <==>
              exists i, t :: WantedBy(cfg, first, graph, i, t, h)
  {
    hide TargetsAt, Select, Bad, Reaches, SameGraph, Resolves;
    var s0 := s.(attempted := [], plans := [], pass := Pass(0, 0, 0, 0));
    var s1 := Advance(env, s0);
    var (s2, targets) := StartPass(cfg, s1);
    TargetsExact(cfg, env, s2, targets);
    SelectCorrect(cfg, s1.store, |cfg.references|);
    var s3 := TargetsAt(cfg, env, s2, targets).0;
    forall h
      ensures h in s3.attempted <==>
        exists i, t :: WantedBy(cfg, s1.store, graph, i, t, h)
    {
      if h in s3.attempted {
        var p :| p in s3.plans && p.fine && Reaches(p.snapshot, cfg.content, p.target, h);
        var k :| 0 <= k < |s3.plans| && s3.plans[k] == p;
        assert s3.plans[|s2.plans| + k].target == targets[k];
        SameGraphSame(cfg.content, p.snapshot, graph, p.target);
        assert p.target in targets;
        var i :| 0 <= i < |cfg.references| && Resolves(cfg, s1.store, i, p.target);
        assert WantedBy(cfg, s1.store, graph, i, p.target, h);
      }
      if exists i, t :: WantedBy(cfg, s1.store, graph, i, t, h) {
        var i, t :| WantedBy(cfg, s1.store, graph, i, t, h);
        assert t in targets;
        var k :| 0 <= k < |targets| && targets[k] == t;
        var p := s3.plans[|s2.plans| + k];
        assert p in s3.plans && p.target == t;
        SameGraphSame(cfg.content, p.snapshot, graph, t);
        assert Planned(cfg, s3.plans, h);
      }
    }
  }

  /** Without dependencies a completed pass attempts just the resolved targets. */
  lemma PassAttemptsTargets(cfg: Config, env: Env, s: State)
    requires !cfg.dependencies
    requires PassAt(cfg, env, s).1 == Done
    ensures var first := Advance(env, s).store;
            forall h :: h in PassAt(cfg, env, s).0.attempted <==>
              exists i :: 0 <= i < |cfg.references| && Resolves(cfg, first, i, h)
  {
    var s0 := s.(attempted := [], plans := [], pass := Pass(0, 0, 0, 0));
    var s1 := Advance(env, s0);
    var (s2, targets) := StartPass(cfg, s1);
    TargetsExact(cfg, env, s2, targets);
    SelectCorrect(cfg, s1.store, |cfg.references|);
    var s3 := TargetsAt(cfg, env, s2, targets).0;
    forall h
      ensures h in s3.attempted <==> h in targets
    {
      if h in s3.attempted {
        var p :| p in s3.plans && p.fine && p.target == h;
        var k :| 0 <= k < |s3.plans| && s3.plans[k] == p;
        assert s3.plans[|s2.plans| + k].target == targets[k];
      }
      if h in targets {
        var k :| 0 <= k < |targets| && targets[k] == h;
        var p := s3.plans[|s2.plans| + k];
        assert p in s3.plans && p.target == h;
        assert Planned(cfg, s3.plans, h);
      }
    }
  }
}
