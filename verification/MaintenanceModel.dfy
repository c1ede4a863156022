/** The maintenance driver as a function of its environment.

Every point where the driver meets the outside world (a snapshot, the yield
between hops, a running hop) consumes one `Move`: what other writers appended
in the meantime, whether the snapshot failed, whether the caller dropped the
future there, and what the hop did. A run is fixed by an arbitrary stream of
moves, so a statement about every stream is a statement about every run.
*/
module MaintenanceModel {
  import opened Wrappers
  import opened Store
  import opened MaintenanceOrder

  datatype Reference = ByHandle(handle: Handle) | ByName(name: nat)

  /** The caller's selection. `lookup` and `lookupReads` stand for name
      resolution and its read-set, `priority` for the signer-keyed hash. The
      flag `rebase` is true in the program; false gives the driver that keeps
      every recorded boundary. */
  datatype Config = Config(
    references: seq<Reference>,
    dependencies: bool,
    content: Content,
    lookup: (Snapshot, nat) -> Option<Handle>,
    lookupReads: (Snapshot, nat) -> Interests,
    priority: Handle -> nat,
    rebase: bool)

  datatype Effect = Effect(added: Snapshot, interests: Interests, ok: bool, published: bool)

  datatype Move = Move(arrivals: Snapshot, fails: bool, cancel: bool, hop: Effect)

  type Env = nat -> Move

  datatype Hop = Hop(before: Snapshot, interests: Interests, retry: bool)

  datatype Subject = Reference(index: nat) | Collection(handle: Handle)

  datatype Event =
    | HopStarted(collection: Handle)
    | HopFinished(collection: Handle, ok: bool, published: bool)
    | HopCancelled(collection: Handle)
    | Failure(subject: Subject)
    | PassFinished(sequence: nat, pass: Pass)

  datatype Pass = Pass(targets: nat, maintained: nat, published: nat, failures: nat)

  /** One planning observation: the snapshot read and the read-set it left. */
  datatype PlanRead = PlanRead(snapshot: Snapshot, interests: Interests)

  /** One planned target, kept as history. */
  datatype Plan = Plan(target: Handle, snapshot: Snapshot, fine: bool)

  /** Driver, store and history. `hops`, `planning`, `baseline`, `catchUp`,
      `interests` and `passes` are the driver's own fields; `store` and `clock`
      belong to the world; the others are what the last pass saw and did. */
  datatype State = State(
    store: Snapshot,
    clock: nat,
    hops: map<Handle, Hop>,
    planning: Interests,
    baseline: Option<Snapshot>,
    catchUp: bool,
    interests: Interests,
    passes: nat,
    pass: Pass,
    attempted: seq<Handle>,
    looks: seq<PlanRead>,
    plans: seq<Plan>,
    events: seq<Event>)

  datatype Exit = Done | Cancelled | Failed

  datatype Outcome = Idle | Ran(pass: Pass) | Dropped | Error

  function Initial(store: Snapshot): State {
    State(store, 0, map[], NOTHING, None, true, NOTHING, 0, Pass(0, 0, 0, 0), [], [], [], [])
  }

  /** Let the environment move once. */
  function Advance(env: Env, s: State): State {
    s.(store := s.store + env(s.clock).arrivals, clock := s.clock + 1)
  }

  /** The next snapshot fails. */
  predicate Fails(env: Env, s: State) {
    env(s.clock).fails
  }

  predicate Drops(env: Env, s: State) {
    env(s.clock).cancel
  }

  // ---- MaintenanceState ----

  /** `MaintenanceState::interests`: planning plus every retained hop. */
  function Gather(planning: Interests, hops: map<Handle, Hop>): Interests {
    Interests(
      planning.records + set h, r | h in hops && r in hops[h].interests.records :: r,
      planning.blobs + set h, b | h in hops && b in hops[h].interests.blobs :: b,
      planning.proofs || exists h :: h in hops && hops[h].interests.proofs,
      planning.allRecords || exists h :: h in hops && hops[h].interests.allRecords,
      planning.allBlobs || exists h :: h in hops && hops[h].interests.allBlobs)
  }

  /** `MaintenanceState::rebase_unchanged`. */
  function RebaseUnchanged(hops: map<Handle, Hop>, current: Snapshot): map<Handle, Hop> {
    map h | h in hops ::
      if Changed(hops[h].before, current, hops[h].interests) then hops[h] else hops[h].(before := current)
  }

  /** The decision of `MaintenanceState::needs_work`. */
  predicate NeedsWork(hops: map<Handle, Hop>, h: Handle, current: Snapshot) {
    h !in hops || hops[h].retry || Changed(hops[h].before, current, hops[h].interests)
  }

  function MarkRetry(hops: map<Handle, Hop>, h: Handle): map<Handle, Hop> {
    if h in hops then hops[h := hops[h].(retry := true)] else hops
  }

  function CountFailure(p: Pass): Pass {
    p.(failures := p.failures + 1)
  }

  // ---- one pass ----

  /** Run or skip one planned handle. */
  function HopAt(cfg: Config, env: Env, s: State, h: Handle): (State, Exit) {
    var s0 := s.(attempted := s.attempted + [h]);
    var s1 := Advance(env, s0);
    if Drops(env, s0) then (s1, Cancelled)
    else
      var s2 := Advance(env, s1);
      if Fails(env, s1) then
        (s2.(hops := MarkRetry(s2.hops, h),
             events := s2.events + [Failure(Collection(h))],
             pass := CountFailure(s2.pass)), Done)
      else if !NeedsWork(s2.hops, h, s2.store) then
        (s2.(hops := if cfg.rebase then s2.hops[h := s2.hops[h].(before := s2.store)] else s2.hops), Done)
      else RunHop(env, s2, h)
  }

  /** An attempted hop: the environment and the hop itself append to the store
      while it runs. Its boundary is the snapshot taken before it started. */
  function RunHop(env: Env, s: State, h: Handle): (State, Exit) {
    var move := env(s.clock);
    var s1 := Advance(env, s);
    var s2 := s1.(store := s1.store + move.hop.added, events := s1.events + [HopStarted(h)]);
    if move.cancel then
      (s2.(events := s2.events + [HopCancelled(h)]), Cancelled)
    else
      (s2.(hops := s2.hops[h := Hop(s.store, move.hop.interests, !move.hop.ok)],
           events := s2.events + [HopFinished(h, move.hop.ok, move.hop.published)],
           pass := Tally(s2.pass, move.hop)), Done)
  }

  function Tally(p: Pass, e: Effect): Pass {
    var q := if e.published then p.(published := p.published + 1) else p;
    if e.ok then q.(maintained := q.maintained + 1) else CountFailure(q)
  }

  function HopsAt(cfg: Config, env: Env, s: State, order: seq<Handle>): (State, Exit)
    decreases |order|
  {
    if order == [] then (s, Done)
    else
      var (s1, exit) := HopAt(cfg, env, s, order[0]);
      if exit != Done then (s1, exit) else HopsAt(cfg, env, s1, order[1..])
  }

  /** Plan one target on a fresh snapshot. */
  function PlanAt(cfg: Config, s: State, target: Handle): (State, Walk) {
    var w := Order(s.store, cfg.content, cfg.dependencies, Elements(s.attempted), target);
    var i := PlanningInterests(w);
    (s.(planning := Merge(s.planning, i),
        looks := s.looks + [PlanRead(s.store, i)],
        plans := s.plans + [Plan(target, s.store, w.fault.Fine?)]), w)
  }

  function TargetsAt(cfg: Config, env: Env, s: State, targets: seq<Handle>): (State, Exit)
    decreases |targets|
  {
    if targets == [] then (s, Done)
    else
      var s1 := Advance(env, s);
      if Fails(env, s) then (s1, Failed)
      else
        var (s2, w) := PlanAt(cfg, s1, targets[0]);
        if !w.fault.Fine? then
          TargetsAt(cfg, env,
                    s2.(events := s2.events + [Failure(Collection(targets[0]))], pass := CountFailure(s2.pass)),
                    targets[1..])
        else
          var (s3, exit) := HopsAt(cfg, env, s2, w.order);
          if exit != Done then (s3, exit) else TargetsAt(cfg, env, s3, targets[1..])
  }

  /** Insert into the target list, ordered by (priority, handle), no duplicates. */
  function InsertTarget(priority: Handle -> nat, targets: seq<Handle>, h: Handle): seq<Handle> {
    if targets == [] then [h]
    else if targets[0] == h then targets
    else if priority(h) < priority(targets[0]) || (priority(h) == priority(targets[0]) && h < targets[0])
    then [h] + targets
    else [targets[0]] + InsertTarget(priority, targets[1..], h)
  }

  datatype Selection = Selection(targets: seq<Handle>, failed: seq<nat>, interests: Interests)

  /** Resolve the first `n` references against one snapshot. */
  function Select(cfg: Config, snapshot: Snapshot, n: nat): Selection
    requires n <= |cfg.references|
  {
    if n == 0 then Selection([], [], NOTHING)
    else
      var sel := Select(cfg, snapshot, n - 1);
      match cfg.references[n - 1]
      case ByHandle(h) => sel.(targets := InsertTarget(cfg.priority, sel.targets, h))
      case ByName(name) =>
        var sel' := sel.(interests := Merge(sel.interests, cfg.lookupReads(snapshot, name)));
        match cfg.lookup(snapshot, name)
        case Some(h) => sel'.(targets := InsertTarget(cfg.priority, sel.targets, h))
        case None => sel'.(failed := sel.failed + [n - 1])
  }

  function FailureEvents(failed: seq<nat>): seq<Event> {
    seq(|failed|, i requires 0 <= i < |failed| => Failure(Reference(failed[i])))
  }

  function StartPass(cfg: Config, s: State): (State, seq<Handle>) {
    var sel := Select(cfg, s.store, |cfg.references|);
    (s.(planning := sel.interests,
        looks := [PlanRead(s.store, sel.interests)],
        pass := Pass(|sel.targets|, 0, 0, |sel.failed|),
        events := s.events + FailureEvents(sel.failed)), sel.targets)
  }

  /** `maintenance_pass_inner`. */
  function PassAt(cfg: Config, env: Env, s: State): (State, Exit) {
    var s0 := s.(attempted := [], plans := [], pass := Pass(0, 0, 0, 0));
    var s1 := Advance(env, s0);
    if Fails(env, s0) then (s1, Failed)
    else
      var (s2, targets) := StartPass(cfg, s1);
      var (s3, exit) := TargetsAt(cfg, env, s2, targets);
      if exit != Done then (s3, exit)
      else (s3.(hops := Retain(s3.hops, s3.attempted)), Done)
  }

  /** Entries the pass did not attempt hold no useful work. */
  function Retain(hops: map<Handle, Hop>, attempted: seq<Handle>): map<Handle, Hop> {
    map h | h in hops && h in attempted :: hops[h]
  }

  // ---- one tick ----

  /** May this tick do nothing? */
  predicate Quiet(s: State, before: Snapshot) {
    !s.catchUp && !(s.baseline.Some? && Changed(s.baseline.value, before, s.interests))
  }

  function IdleStep(cfg: Config, s: State): State {
    s.(hops := if cfg.rebase then RebaseUnchanged(s.hops, s.store) else s.hops, baseline := Some(s.store))
  }

  /** After a completed pass: adopt the merged interests, look once more, and
      decide from what changed since the tick began. */
  function Conclude(env: Env, before: Snapshot, s: State): (State, Outcome) {
    var s0 := s.(passes := s.passes + 1, interests := Gather(s.planning, s.hops));
    var s1 := Advance(env, s0);
    if Fails(env, s0) then (s1, Error)
    else
      (s1.(catchUp := Changed(before, s1.store, s1.interests),
           baseline := Some(s1.store),
           events := s1.events + [PassFinished(s1.passes, s1.pass)]), Ran(s1.pass))
  }

  /** `Driver::tick`. */
  function TickAt(cfg: Config, env: Env, s: State): (State, Outcome) {
    var s1 := Advance(env, s);
    if Fails(env, s) then (s1, Error)
    else if Quiet(s1, s1.store) then (IdleStep(cfg, s1), Idle)
    else
      var (s2, exit) := PassAt(cfg, env, s1.(catchUp := true));
      match exit
      case Cancelled => (s2, Dropped)
      case Failed => (s2, Error)
      case Done => Conclude(env, s1.store, s2)
  }

  /** The state after `n` ticks. */
  function RunAt(cfg: Config, env: Env, s: State, n: nat): State
    decreases n
  {
    if n == 0 then s else TickAt(cfg, env, RunAt(cfg, env, s, n - 1)).0
  }
}
