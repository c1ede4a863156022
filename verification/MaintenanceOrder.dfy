/** The temporary call order of a maintenance pass: a depth-first walk over the
descriptor graph of one immutable snapshot, with cycle detection.
*/
module MaintenanceOrder {
  import opened Wrappers
  import opened Store

  /** Descriptors are content addressed: a handle fixes the upstream links its
      blob lists, or that the blob is no descriptor at all. */
  type Content = Handle -> Option<seq<Handle>>

  function ReadableHandles(s: Snapshot): set<Handle> {
    set b | b in s && b.Blob? && b.readable :: b.hash
  }

  /** Source, parent and sibling links as one snapshot lets a reader see them. */
  function Upstream(s: Snapshot, content: Content, h: Handle): Option<seq<Handle>> {
    if h in ReadableHandles(s) then content(h) else None
  }

  datatype Fault = Fine | Cyclic(at: Handle) | Unreadable(at: Handle)

  datatype Walk = Walk(fault: Fault, order: seq<Handle>, observed: set<Handle>)

  /** What visiting `current` does to `order`, and which descriptors it reads. */
  function Visit(s: Snapshot, content: Content, dependencies: bool, attempted: set<Handle>,
                 current: Handle, visiting: set<Handle>, order: seq<Handle>): Walk
    decreases |ReadableHandles(s) - visiting|, 0
  {
    if current in attempted || current in order then Walk(Fine, order, {})
    else if current in visiting then Walk(Cyclic(current), order, {})
    else if !dependencies then Walk(Fine, order + [current], {})
    else
      match Upstream(s, content, current)
      case None => Walk(Unreadable(current), order, {current})
      case Some(upstream) =>
        ShrinkByOne(ReadableHandles(s), visiting, current);
        var w := VisitAll(s, content, attempted, upstream, visiting + {current}, order);
        Walk(w.fault, if w.fault.Fine? then w.order + [current] else w.order, w.observed + {current})
  }

  function VisitAll(s: Snapshot, content: Content, attempted: set<Handle>,
                    todo: seq<Handle>, visiting: set<Handle>, order: seq<Handle>): Walk
    decreases |ReadableHandles(s) - visiting|, 1 + |todo|
  {
    if todo == [] then Walk(Fine, order, {})
    else
      var w := Visit(s, content, true, attempted, todo[0], visiting, order);
      if !w.fault.Fine? then w
      else
        var rest := VisitAll(s, content, attempted, todo[1..], visiting, w.order);
        rest.(observed := w.observed + rest.observed)
  }

  lemma ShrinkByOne(universe: set<Handle>, visiting: set<Handle>, h: Handle)
    requires h in universe && h !in visiting
    ensures |universe - (visiting + {h})| < |universe - visiting|
  {
    assert universe - (visiting + {h}) == (universe - visiting) - {h};
  }

  /** `maintenance_order`. */
  function Order(s: Snapshot, content: Content, dependencies: bool, attempted: set<Handle>,
                 target: Handle): Walk
  {
    Visit(s, content, dependencies, attempted, target, {}, [])
  }

  // ---- an independent vocabulary: paths, reachability, bad graphs ----

  ghost predicate IsPath(s: Snapshot, content: Content, p: seq<Handle>) {
    |p| > 0 &&
    forall i :: 0 <= i < |p| - 1 ==>
      Upstream(s, content, p[i]).Some? && p[i + 1] in Upstream(s, content, p[i]).value
  }

  ghost predicate PathFrom(s: Snapshot, content: Content, p: seq<Handle>, from: Handle, to: Handle) {
    IsPath(s, content, p) && p[0] == from && p[|p| - 1] == to
  }

  ghost predicate Reaches(s: Snapshot, content: Content, from: Handle, to: Handle) {
    exists p :: PathFrom(s, content, p, from, to)
  }

  /** The path ends in an unreadable descriptor or in a handle it already met. */
  ghost predicate DeadEnd(s: Snapshot, content: Content, p: seq<Handle>) {
    |p| > 0 &&
    (Upstream(s, content, p[|p| - 1]).None? || p[|p| - 1] in p[..|p| - 1])
  }

  /** Some reachable descriptor is unreadable or lies on a cycle. */
  ghost predicate Bad(s: Snapshot, content: Content, target: Handle) {
    exists p :: IsPath(s, content, p) && p[0] == target && DeadEnd(s, content, p)
  }

  function Elements(l: seq<Handle>): set<Handle> {
    set h | h in l
  }

  ghost predicate Distinct(l: seq<Handle>) {
    forall i, j :: 0 <= i < j < |l| ==> l[i] != l[j]
  }

  /** Every handle is readable and comes after everything it depends on. */
  ghost predicate Settled(s: Snapshot, content: Content, l: seq<Handle>) {
    forall i :: 0 <= i < |l| ==>
      Upstream(s, content, l[i]).Some? &&
      forall u :: u in Upstream(s, content, l[i]).value ==> u in l[..i]
  }

  // ---- correctness of the walk ----

  /** `to` is reached from `from` by a nonempty extension of the stack. */
  lemma ExtendPath(s: Snapshot, content: Content, p: seq<Handle>, h: Handle)
    requires IsPath(s, content, p)
    requires Upstream(s, content, p[|p| - 1]).Some? && h in Upstream(s, content, p[|p| - 1]).value
    ensures IsPath(s, content, p + [h])
  {
  }

  lemma PrependPath(s: Snapshot, content: Content, h: Handle, p: seq<Handle>)
    requires IsPath(s, content, p)
    requires Upstream(s, content, h).Some? && p[0] in Upstream(s, content, h).value
    ensures IsPath(s, content, [h] + p)
  {
    forall i | 0 <= i < |[h] + p| - 1
      ensures Upstream(s, content, ([h] + p)[i]).Some?
              && ([h] + p)[i + 1] in Upstream(s, content, ([h] + p)[i]).value
    {
      if i > 0 {
        assert ([h] + p)[i] == p[i - 1] && ([h] + p)[i + 1] == p[i];
      }
    }
  }

  lemma ReachesStep(s: Snapshot, content: Content, h: Handle, u: Handle, x: Handle)
    requires Upstream(s, content, h).Some? && u in Upstream(s, content, h).value
    requires Reaches(s, content, u, x)
    ensures Reaches(s, content, h, x)
  {
    var p :| PathFrom(s, content, p, u, x);
    PrependPath(s, content, h, p);
    assert PathFrom(s, content, [h] + p, h, x);
  }

  lemma SettledPush(s: Snapshot, content: Content, l: seq<Handle>, h: Handle)
    requires Settled(s, content, l) && Distinct(l) && h !in l
    requires Upstream(s, content, h).Some?
    requires forall u :: u in Upstream(s, content, h).value ==> u in l
    ensures Settled(s, content, l + [h]) && Distinct(l + [h])
  {
    var m := l + [h];
    forall i | 0 <= i < |m|
      ensures Upstream(s, content, m[i]).Some?
      ensures forall u :: u in Upstream(s, content, m[i]).value ==> u in m[..i]
    {
      if i < |l| {
        assert m[..i] == l[..i] && m[i] == l[i];
      } else {
        assert m[..i] == l;
      }
    }
  }

  /** What a visit owes its caller, on success and on failure. `done` lists the
      handles attempted earlier in the pass, `stack` the handles being visited. */
  ghost predicate VisitPromise(s: Snapshot, content: Content, done: seq<Handle>,
                               root: seq<Handle>, visiting: set<Handle>, order: seq<Handle>, w: Walk)
  {
    if w.fault.Fine? then
      order <= w.order
      && Settled(s, content, done + w.order)
      && Distinct(done + w.order)
      && (forall h :: h in root ==> h in done + w.order)
      && (forall h :: h in w.order && h !in order ==>
            h !in visiting && exists r :: r in root && Reaches(s, content, r, h))
    else
      true
  }

  ghost predicate Faulty(s: Snapshot, content: Content, stack: seq<Handle>) {
    exists p :: IsPath(s, content, p) && stack <= p && DeadEnd(s, content, p)
  }

  lemma {:induction false} VisitCorrect(
    s: Snapshot, content: Content, done: seq<Handle>, attempted: set<Handle>,
    current: Handle, stack: seq<Handle>, visiting: set<Handle>, order: seq<Handle>)
    requires attempted == Elements(done) && visiting == Elements(stack)
    requires Settled(s, content, done + order) && Distinct(done + order)
    requires IsPath(s, content, stack + [current])
    requires forall h :: h in order ==> h !in visiting
    ensures var w := Visit(s, content, true, attempted, current, visiting, order);
            && VisitPromise(s, content, done, [current], visiting, order, w)
            && (!w.fault.Fine? ==> Faulty(s, content, stack + [current]))
    decreases |ReadableHandles(s) - visiting|, 0
  {
    var w := Visit(s, content, true, attempted, current, visiting, order);
    var p := stack + [current];
    if current in attempted || current in order {
      assert current in done + order;
    } else if current in visiting {
      assert p[..|p| - 1] == stack;
      assert DeadEnd(s, content, p);
    } else if Upstream(s, content, current).None? {
      assert DeadEnd(s, content, p);
    } else {
      var upstream := Upstream(s, content, current).value;
      ShrinkByOne(ReadableHandles(s), visiting, current);
      assert p[|p| - 1] == current;
      VisitAllCorrect(s, content, done, attempted, upstream, p, visiting + {current}, order);
      var v := VisitAll(s, content, attempted, upstream, visiting + {current}, order);
      if v.fault.Fine? {
        assert current !in v.order;
        SettledPush(s, content, done + v.order, current);
        assert done + w.order == done + v.order + [current];
        assert PathFrom(s, content, [current], current, current);
        forall h | h in w.order && h !in order
          ensures h !in visiting && Reaches(s, content, current, h)
        {
          if h != current {
            assert h in v.order;
            var r :| r in upstream && Reaches(s, content, r, h);
            ReachesStep(s, content, current, r, h);
          }
        }
      }
    }
  }

  lemma {:induction false} VisitAllCorrect(
    s: Snapshot, content: Content, done: seq<Handle>, attempted: set<Handle>,
    todo: seq<Handle>, stack: seq<Handle>, visiting: set<Handle>, order: seq<Handle>)
    requires attempted == Elements(done) && visiting == Elements(stack)
    requires Settled(s, content, done + order) && Distinct(done + order)
    requires IsPath(s, content, stack)
    requires Upstream(s, content, stack[|stack| - 1]).Some?
    requires forall h :: h in todo ==> h in Upstream(s, content, stack[|stack| - 1]).value
    requires forall h :: h in order ==> h !in visiting
    ensures var w := VisitAll(s, content, attempted, todo, visiting, order);
            && VisitPromise(s, content, done, todo, visiting, order, w)
            && (!w.fault.Fine? ==> Faulty(s, content, stack))
    decreases |ReadableHandles(s) - visiting|, 1 + |todo|
  {
    if todo != [] {
      assert todo[0] in todo;
      assert forall h :: h in todo[1..] ==> h in todo;
      ExtendPath(s, content, stack, todo[0]);
      VisitCorrect(s, content, done, attempted, todo[0], stack, visiting, order);
      var w := Visit(s, content, true, attempted, todo[0], visiting, order);
      if !w.fault.Fine? {
        var p :| IsPath(s, content, p) && stack + [todo[0]] <= p && DeadEnd(s, content, p);
        assert stack <= stack + [todo[0]] <= p;
      } else {
        VisitAllCorrect(s, content, done, attempted, todo[1..], stack, visiting, w.order);
        var v := VisitAll(s, content, attempted, todo[1..], visiting, w.order);
        if v.fault.Fine? {
          forall h | h in v.order && h !in order
            ensures h !in visiting && exists r :: r in todo && Reaches(s, content, r, h)
          {
            if h in w.order {
              assert todo[0] in todo;
            } else {
              var r :| r in todo[1..] && Reaches(s, content, r, h);
              assert r in todo;
            }
          }
        }
      }
    }
  }

  /** From a settled list every path stays inside it and strictly descends. */
  lemma {:induction false} SettledPath(s: Snapshot, content: Content, l: seq<Handle>, i: nat, p: seq<Handle>)
    requires Settled(s, content, l) && Distinct(l) && i < |l|
    requires IsPath(s, content, p) && p[0] == l[i]
    ensures p[|p| - 1] in l[..i + 1]
    ensures |p| > 1 ==> p[|p| - 1] in l[..i]
    ensures !DeadEnd(s, content, p)
    decreases |p|
  {
    if |p| > 1 {
      var q := p[..|p| - 1];
      SettledPath(s, content, l, i, q);
      var j :| 0 <= j < |l[..i + 1]| && l[..i + 1][j] == q[|q| - 1];
      assert Upstream(s, content, l[j]).Some?;
      assert p[|p| - 1] in l[..j];
      if p[|p| - 1] in q {
        var k :| 0 <= k < |q| && q[k] == p[|p| - 1];
        SettledPathTail(s, content, l, p, k);
      }
    }
  }

  /** A settled path never comes back to an earlier handle. */
  lemma {:induction false} SettledPathTail(s: Snapshot, content: Content, l: seq<Handle>, p: seq<Handle>, k: nat)
    requires Settled(s, content, l) && Distinct(l) && k + 1 < |p|
    requires IsPath(s, content, p) && p[k] in l
    ensures exists a, b :: 0 <= b < a < |l| && l[a] == p[k] && l[b] == p[|p| - 1]
    ensures p[k] != p[|p| - 1]
    decreases |p|
  {
    var q := p[..|p| - 1];
    if k + 1 < |q| {
      SettledPathTail(s, content, l, q, k);
      var a, b :| 0 <= b < a < |l| && l[a] == p[k] && l[b] == q[|q| - 1];
      assert p[|p| - 1] in l[..b];
      var c :| 0 <= c < b && l[c] == p[|p| - 1];
      assert 0 <= c < a;
    } else {
      var a :| 0 <= a < |l| && l[a] == p[k];
      assert p[|p| - 1] in l[..a];
      var c :| 0 <= c < a && l[c] == p[|p| - 1];
    }
  }

  /** Nothing reachable from a member of a settled list is bad or outside. */
  lemma SettledIsGood(s: Snapshot, content: Content, l: seq<Handle>, target: Handle)
    requires Settled(s, content, l) && Distinct(l) && target in l
    ensures !Bad(s, content, target)
    ensures forall h :: Reaches(s, content, target, h) ==> h in l
  {
    var i :| 0 <= i < |l| && l[i] == target;
    forall p | IsPath(s, content, p) && p[0] == target
      ensures !DeadEnd(s, content, p) && p[|p| - 1] in l
    {
      SettledPath(s, content, l, i, p);
    }
    forall h | Reaches(s, content, target, h)
      ensures h in l
    {
      var p :| PathFrom(s, content, p, target, h);
    }
  }

  /** The whole contract of `maintenance_order` with dependencies: it fails
      exactly when a reachable descriptor is unreadable or cyclic; otherwise
      the pass stays settled and gains exactly what the target reaches. */
  lemma OrderCorrect(s: Snapshot, content: Content, done: seq<Handle>, target: Handle)
    requires Settled(s, content, done) && Distinct(done)
    ensures var w := Order(s, content, true, Elements(done), target);
            && (w.fault.Fine? <==> !Bad(s, content, target))
            && (w.fault.Fine? ==>
                  && Settled(s, content, done + w.order)
                  && Distinct(done + w.order)
                  && (forall h :: h in done + w.order <==> h in done || Reaches(s, content, target, h)))
  {
    var w := Order(s, content, true, Elements(done), target);
    assert done + [] == done;
    assert [] + [target] == [target];
    VisitCorrect(s, content, done, Elements(done), target, [], {}, []);
    if w.fault.Fine? {
      assert target in [target];
      SettledIsGood(s, content, done + w.order, target);
      forall h | h in w.order
        ensures Reaches(s, content, target, h)
      {
        assert h !in [];
        var r :| r in [target] && Reaches(s, content, r, h);
      }
    } else {
      var p :| IsPath(s, content, p) && [target] <= p && DeadEnd(s, content, p);
      assert p[0] == target;
    }
  }

  // ---- the answer depends only on what was observed ----

  lemma {:induction false} VisitFrame(
    s: Snapshot, t: Snapshot, content: Content, dependencies: bool, attempted: set<Handle>,
    current: Handle, visiting: set<Handle>, order: seq<Handle>)
    requires forall h :: h in Visit(s, content, dependencies, attempted, current, visiting, order).observed ==>
               Upstream(s, content, h) == Upstream(t, content, h)
    ensures Visit(s, content, dependencies, attempted, current, visiting, order)
         == Visit(t, content, dependencies, attempted, current, visiting, order)
    decreases |ReadableHandles(s) - visiting|, 0
  {
    if current in attempted || current in order || current in visiting || !dependencies {
    } else {
      assert current in Visit(s, content, dependencies, attempted, current, visiting, order).observed;
      if Upstream(s, content, current).Some? {
        ShrinkByOne(ReadableHandles(s), visiting, current);
        VisitAllFrame(s, t, content, attempted, Upstream(s, content, current).value, visiting + {current}, order);
      }
    }
  }

  lemma {:induction false} VisitAllFrame(
    s: Snapshot, t: Snapshot, content: Content, attempted: set<Handle>,
    todo: seq<Handle>, visiting: set<Handle>, order: seq<Handle>)
    requires forall h :: h in VisitAll(s, content, attempted, todo, visiting, order).observed ==>
               Upstream(s, content, h) == Upstream(t, content, h)
    ensures VisitAll(s, content, attempted, todo, visiting, order)
         == VisitAll(t, content, attempted, todo, visiting, order)
    decreases |ReadableHandles(s) - visiting|, 1 + |todo|
  {
    if todo != [] {
      var w := Visit(s, content, true, attempted, todo[0], visiting, order);
      VisitFrame(s, t, content, true, attempted, todo[0], visiting, order);
      if w.fault.Fine? {
        VisitAllFrame(s, t, content, attempted, todo[1..], visiting, w.order);
      }
    }
  }

  /** The read-set a planning walk reports. */
  function PlanningInterests(w: Walk): Interests {
    NOTHING.(blobs := w.observed)
  }

  /** A plan stays valid while nothing in its own read-set changes. */
  lemma OrderFrame(s: Snapshot, t: Snapshot, content: Content, dependencies: bool,
                   attempted: set<Handle>, target: Handle)
    requires !Changed(s, t, PlanningInterests(Order(s, content, dependencies, attempted, target)))
    ensures Order(s, content, dependencies, attempted, target) == Order(t, content, dependencies, attempted, target)
  {
    var w := Order(s, content, dependencies, attempted, target);
    forall h | h in w.observed
      ensures Upstream(s, content, h) == Upstream(t, content, h)
    {
      forall b: Item | b.Blob? && b.hash == h
        ensures b in s <==> b in t
      {
        assert Relevant(b, PlanningInterests(w));
        assert b in (t - s) + (s - t) <==> (b in s <==> b !in t);
      }
    }
    VisitFrame(s, t, content, dependencies, attempted, target, {}, []);
  }

  // ---- and reads no more than it needs ----

  lemma ReachesSelf(s: Snapshot, content: Content, h: Handle)
    ensures Reaches(s, content, h, h)
  {
    assert PathFrom(s, content, [h], h, h);
  }

  lemma {:induction false} VisitReads(s: Snapshot, content: Content, attempted: set<Handle>,
                                      current: Handle, visiting: set<Handle>, order: seq<Handle>)
    ensures var w := Visit(s, content, true, attempted, current, visiting, order);
            && (forall h :: h in w.observed ==> h !in attempted && Reaches(s, content, current, h))
            && (w.fault.Fine? ==> forall h :: h in w.order <==> h in order || h in w.observed)
    decreases |ReadableHandles(s) - visiting|, 0
  {
    hide Reaches;
    if current !in attempted && current !in order && current !in visiting {
      ReachesSelf(s, content, current);
      if Upstream(s, content, current).Some? {
        var upstream := Upstream(s, content, current).value;
        ShrinkByOne(ReadableHandles(s), visiting, current);
        VisitAllReads(s, content, attempted, upstream, visiting + {current}, order);
        var w := VisitAll(s, content, attempted, upstream, visiting + {current}, order);
        forall h | h in w.observed
          ensures Reaches(s, content, current, h)
        {
          var u :| u in upstream && Reaches(s, content, u, h);
          ReachesStep(s, content, current, u, h);
        }
      }
    }
  }

  lemma {:induction false} VisitAllReads(s: Snapshot, content: Content, attempted: set<Handle>,
                                         todo: seq<Handle>, visiting: set<Handle>, order: seq<Handle>)
    ensures var w := VisitAll(s, content, attempted, todo, visiting, order);
            && (forall h :: h in w.observed ==>
                  h !in attempted && exists u :: u in todo && Reaches(s, content, u, h))
            && (w.fault.Fine? ==> forall h :: h in w.order <==> h in order || h in w.observed)
    decreases |ReadableHandles(s) - visiting|, 1 + |todo|
  {
    hide Reaches;
    if todo != [] {
      VisitReads(s, content, attempted, todo[0], visiting, order);
      var w := Visit(s, content, true, attempted, todo[0], visiting, order);
      assert todo[0] in todo && forall u :: u in todo[1..] ==> u in todo;
      if w.fault.Fine? {
        VisitAllReads(s, content, attempted, todo[1..], visiting, w.order);
      }
    }
  }

  /** A plan reads descriptors of new handles that the target reaches; one that
      succeeds reads exactly those it plans, and without dependencies none. */
  lemma OrderReads(s: Snapshot, content: Content, dependencies: bool, attempted: set<Handle>, target: Handle)
    ensures var w := Order(s, content, dependencies, attempted, target);
            && (forall h :: h in w.observed ==> h !in attempted && Reaches(s, content, target, h))
            && (dependencies && w.fault.Fine? ==> w.observed == Elements(w.order))
            && (!dependencies ==> w.observed == {})
            && (forall x: Item :: Relevant(x, PlanningInterests(w)) <==> x.Blob? && x.hash in w.observed)
  {
    if dependencies {
      VisitReads(s, content, attempted, target, {}, []);
    }
  }
}
