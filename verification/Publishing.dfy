/** An append-only pile as its writers see it: commits append whole fragments,
flushes make a prefix durable, and either can fail at any point. */
module Publishing {

  /** Committed fragments in order; the first `durable` of them survive a crash. */
  datatype Pile<T> = Pile(log: seq<set<T>>, durable: nat)

  /** A commit is done, refused, or written although an error came back. */
  datatype Fate = Done | Refused | Written

  /** What happens to one publication: its commit, then its flush. A failed flush
      may still have made some records durable. */
  datatype Weather = Weather(commit: Fate, flushed: bool, kept: nat)

  ghost predicate Sound<T(!new)>(p: Pile<T>) {
    p.durable <= |p.log|
  }

  function Union<T(!new)>(log: seq<set<T>>): set<T> {
    if log == [] then {} else Union(log[..|log| - 1]) + log[|log| - 1]
  }

  function Published<T(!new)>(p: Pile<T>): set<T> {
    Union(p.log)
  }

  function Durable<T(!new)>(p: Pile<T>): set<T>
    requires p.durable <= |p.log|
  {
    Union(p.log[..p.durable])
  }

  function Commit<T>(p: Pile<T>, fragment: set<T>, fate: Fate): Pile<T> {
    if fate.Refused? then p else p.(log := p.log + [fragment])
  }

  function Flush<T>(p: Pile<T>, w: Weather): Pile<T> {
    if w.flushed then p.(durable := |p.log|)
    else if p.durable <= w.kept <= |p.log| then p.(durable := w.kept)
    else p
  }

  /** Commit, then flush if the commit was reported done. */
  function Publish<T>(p: Pile<T>, fragment: set<T>, w: Weather): Pile<T> {
    var q := Commit(p, fragment, w.commit);
    if w.commit.Done? then Flush(q, w) else q
  }

  predicate Succeeds(w: Weather) {
    w.commit.Done? && w.flushed
  }

  /** Every publication goes well. */
  ghost predicate FairWeather(weather: nat -> Weather) {
    forall c :: Succeeds(weather(c))
  }

  lemma {:induction false} UnionPrefix<T(!new)>(log: seq<set<T>>, k: nat)
    requires k <= |log|
    ensures Union(log[..k]) <= Union(log)
    decreases |log|
  {
    if k < |log| {
      var before := log[..|log| - 1];
      assert before[..k] == log[..k];
      UnionPrefix(before, k);
    } else {
      assert log[..k] == log;
    }
  }

  lemma UnionSnoc<T(!new)>(log: seq<set<T>>, fragment: set<T>)
    ensures Union(log + [fragment]) == Union(log) + fragment
  {
    assert (log + [fragment])[..|log|] == log;
  }

  /** What reaches the pile: everything, unless the commit is refused. */
  lemma PublishAdds<T(!new)>(p: Pile<T>, fragment: set<T>, w: Weather)
    ensures Published(Publish(p, fragment, w)) == Published(p) + if w.commit.Refused? then {} else fragment
  {
    UnionSnoc(p.log, fragment);
  }

  /** Publishing loses nothing, publishes at most the fragment, and on success
      has made all of it durable. */
  lemma PublishLaw<T(!new)>(p: Pile<T>, fragment: set<T>, w: Weather)
    requires Sound(p)
    ensures var q := Publish(p, fragment, w);
            && Sound(q)
            && Published(p) <= Published(q) <= Published(p) + fragment
            && Durable(p) <= Durable(q)
            && (Succeeds(w) ==> Durable(q) == Published(p) + fragment && Published(q) == Durable(q))
            && (q.log == p.log || q.log == p.log + [fragment])
  {
    var q := Publish(p, fragment, w);
    UnionSnoc(p.log, fragment);
    assert q.log[..|q.log|] == q.log;
    var ahead := q.log[..q.durable];
    UnionPrefix(ahead, p.durable);
    assert ahead[..p.durable] == p.log[..p.durable];
  }
}
