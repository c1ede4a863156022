/** The storage vocabulary shared by the maintenance model.

A store is a grow-only set of keyed items, a snapshot is one such set, and a
read-set (`Interests`) is what an observing reader consulted: selected record
routes, exact blob hashes, and the three whole-component flags.
*/
module Store {

  /** A collection handle, which is also the hash of its descriptor blob. */
  type Handle = nat

  /** One stored item. A blob hash may have several physical occurrences, some
      of them unreadable; a record answers to several selection routes. */
  datatype Item =
    | Record(routes: set<nat>, id: nat)
    | Blob(hash: Handle, occurrence: nat, readable: bool)
    | Proof(id: nat)

  type Snapshot = set<Item>

  datatype Interests = Interests(
    records: set<nat>,
    blobs: set<Handle>,
    proofs: bool,
    allRecords: bool,
    allBlobs: bool)

  const NOTHING := Interests({}, {}, false, false, false)

  /** Does the arrival of `x` invalidate an observation with read-set `i`? */
  predicate Relevant(x: Item, i: Interests) {
    match x
    case Record(routes, _) => i.allRecords || routes * i.records != {}
    case Blob(hash, _, _) => i.allBlobs || hash in i.blobs
    case Proof(_) => i.proofs
  }

  /** `maintenance_changed`: the two snapshots differ on something `i` names. */
  predicate Changed(previous: Snapshot, current: Snapshot, i: Interests) {
    exists x :: x in (current - previous) + (previous - current) && Relevant(x, i)
  }

  function Merge(i: Interests, j: Interests): Interests {
    Interests(
      i.records + j.records,
      i.blobs + j.blobs,
      i.proofs || j.proofs,
      i.allRecords || j.allRecords,
      i.allBlobs || j.allBlobs)
  }

  /** `i` is woken by at least everything that wakes `j`. */
  ghost predicate Covers(i: Interests, j: Interests) {
    forall x: Item :: Relevant(x, j) ==> Relevant(x, i)
  }

  lemma MergeWakes(x: Item, i: Interests, j: Interests)
    ensures Relevant(x, Merge(i, j)) <==> Relevant(x, i) || Relevant(x, j)
  {
    if x.Record? {
      assert x.routes * (i.records + j.records) == x.routes * i.records + x.routes * j.records;
    }
  }

  lemma MergeCovers(i: Interests, j: Interests)
    ensures Covers(Merge(i, j), i) && Covers(Merge(i, j), j)
  {
    forall x: Item {
      MergeWakes(x, i, j);
    }
  }

  /** A snapshot does not differ from itself. */
  lemma NothingChanged(a: Snapshot, i: Interests)
    ensures !Changed(a, a, i)
  {
  }

  /** In a growing store a quiet interval is quiet on each half, and a wider
      read-set is at least as sensitive. */
  lemma QuietInside(a: Snapshot, b: Snapshot, c: Snapshot, i: Interests, j: Interests)
    requires a <= b <= c && Covers(i, j) && !Changed(a, c, i)
    ensures !Changed(a, b, j) && !Changed(b, c, j) && !Changed(a, c, j)
  {
    forall x: Item | x in c - a
      ensures !Relevant(x, j)
    {
      assert x in (c - a) + (a - c);
    }
  }

  /** Two consecutive quiet intervals make one. */
  lemma QuietJoins(a: Snapshot, b: Snapshot, c: Snapshot, i: Interests)
    requires !Changed(a, b, i) && !Changed(b, c, i)
    ensures !Changed(a, c, i)
  {
    forall x | x in (c - a) + (a - c)
      ensures !Relevant(x, i)
    {
      assert x in (b - a) + (a - b) || x in (c - b) + (b - c);
    }
  }

  /** Moving a boundary across a quiet interval cannot change a later answer. */
  lemma QuietRebase(a: Snapshot, b: Snapshot, c: Snapshot, i: Interests)
    requires !Changed(a, b, i)
    ensures Changed(a, c, i) <==> Changed(b, c, i)
  {
    forall x | x in (b - a) + (a - b)
      ensures !Relevant(x, i)
    {
    }
    if Changed(a, c, i) {
      var x :| x in (c - a) + (a - c) && Relevant(x, i);
      assert x in (c - b) + (b - c);
    } else {
      QuietJoins(b, a, c, i);
    }
  }
}
