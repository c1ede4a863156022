/** The confirm-region census: histograms of live counts, flat and per depth,
and the summary read off them. */
module Census {

  /** One confirm: the live candidates it was handed and its depth. */
  datatype Confirm = Confirm(live: nat, depth: nat)

  type Histogram = map<nat, nat>

  function Get(hist: Histogram, v: nat): nat {
    if v in hist then hist[v] else 0
  }

  /** The histogram holds exactly the occurrences in `lives`. */
  ghost predicate Tallies(hist: Histogram, lives: seq<nat>) {
    forall v :: Get(hist, v) == multiset(lives)[v] && (v in hist ==> hist[v] > 0)
  }

  function Bump(hist: Histogram, v: nat): Histogram {
    hist[v := Get(hist, v) + 1]
  }

  lemma BumpTallies(hist: Histogram, lives: seq<nat>, v: nat)
    requires Tallies(hist, lives)
    ensures Tallies(Bump(hist, v), lives + [v])
  {
    assert multiset(lives + [v]) == multiset(lives) + multiset{v};
  }

  function Lives(log: seq<Confirm>): seq<nat> {
    if log == [] then [] else Lives(log[..|log| - 1]) + [log[|log| - 1].live]
  }

  function LivesAt(log: seq<Confirm>, depth: nat): seq<nat> {
    if log == [] then []
    else
      var last := log[|log| - 1];
      LivesAt(log[..|log| - 1], depth) + if last.depth == depth then [last.live] else []
  }

  lemma LogGrows(log: seq<Confirm>, c: Confirm)
    ensures Lives(log + [c]) == Lives(log) + [c.live]
    ensures forall d :: LivesAt(log + [c], d) == LivesAt(log, d) + if c.depth == d then [c.live] else []
  {
    assert (log + [c])[..|log|] == log;
  }

  // ---- the flat histogram is the sum over depths ----

  function Sum(s: seq<nat>): nat {
    if s == [] then 0 else s[0] + Sum(s[1..])
  }

  /** The entries for `v`, depth by depth. */
  ghost function Column(hists: map<nat, Histogram>, depths: seq<nat>, v: nat): nat {
    if depths == [] then 0
    else (if depths[0] in hists then Get(hists[depths[0]], v) else 0) + Column(hists, depths[1..], v)
  }

  ghost function Occurrences(log: seq<Confirm>, depths: seq<nat>, v: nat): nat {
    if depths == [] then 0 else multiset(LivesAt(log, depths[0]))[v] + Occurrences(log, depths[1..], v)
  }

  ghost predicate Distinct(s: seq<nat>) {
    forall i, j :: 0 <= i < j < |s| ==> s[i] != s[j]
  }

  lemma DistinctTail(s: seq<nat>)
    requires s != [] && Distinct(s)
    ensures Distinct(s[1..]) && s[0] !in s[1..]
  {
    forall i | 0 <= i < |s[1..]|
      ensures s[1..][i] != s[0]
    {
      assert s[1..][i] == s[i + 1];
    }
  }

  lemma {:induction false} OccurrencesNone(depths: seq<nat>, v: nat)
    ensures Occurrences([], depths, v) == 0
    decreases |depths|
  {
    if depths != [] {
      OccurrencesNone(depths[1..], v);
    }
  }

  /** One more confirm is one more occurrence in its own column. */
  lemma {:induction false} OccurrencesGrow(log: seq<Confirm>, c: Confirm, depths: seq<nat>, v: nat)
    requires Distinct(depths)
    ensures Occurrences(log + [c], depths, v)
         == Occurrences(log, depths, v) + if c.depth in depths && c.live == v then 1 else 0
    decreases |depths|
  {
    hide LivesAt;
    if depths != [] {
      DistinctTail(depths);
      OccurrencesGrow(log, c, depths[1..], v);
      LogGrows(log, c);
      var d := depths[0];
      assert LivesAt(log + [c], d) == LivesAt(log, d) + if c.depth == d then [c.live] else [];
    }
  }

  lemma {:induction false} DepthsAddUp(log: seq<Confirm>, depths: seq<nat>, v: nat)
    requires Distinct(depths) && forall c :: c in log ==> c.depth in depths
    ensures Occurrences(log, depths, v) == multiset(Lives(log))[v]
    decreases |log|
  {
    if log == [] {
      OccurrencesNone(depths, v);
    } else {
      var before, c := log[..|log| - 1], log[|log| - 1];
      assert log == before + [c];
      DepthsAddUp(before, depths, v);
      OccurrencesGrow(before, c, depths, v);
      LogGrows(before, c);
      assert c in log;
    }
  }

  /** What the two histograms hold after the confirms in `log`. */
  ghost predicate Recorded(hist: Histogram, depthHist: map<nat, Histogram>, log: seq<Confirm>) {
    && Tallies(hist, Lives(log))
    && (forall d :: d in depthHist <==> exists c :: c in log && c.depth == d)
    && (forall d :: d in depthHist ==> Tallies(depthHist[d], LivesAt(log, d)))
  }

  lemma {:induction false} ColumnIsOccurrences(hist: Histogram, depthHist: map<nat, Histogram>,
                                               log: seq<Confirm>, depths: seq<nat>, v: nat)
    requires Recorded(hist, depthHist, log) && forall d :: d in depths ==> d in depthHist
    ensures Column(depthHist, depths, v) == Occurrences(log, depths, v)
    decreases |depths|
  {
    if depths != [] {
      assert depths[0] in depths;
      ColumnIsOccurrences(hist, depthHist, log, depths[1..], v);
    }
  }

  /** The flat histogram is the sum of the per-depth histograms. */
  lemma FlatIsSumOfDepths(hist: Histogram, depthHist: map<nat, Histogram>, log: seq<Confirm>, depths: seq<nat>, v: nat)
    requires Recorded(hist, depthHist, log)
    requires Distinct(depths) && forall d :: d in depths <==> d in depthHist
    ensures Get(hist, v) == Column(depthHist, depths, v)
  {
    ColumnIsOccurrences(hist, depthHist, log, depths, v);
    DepthsAddUp(log, depths, v);
  }

  lemma RecordKeeps(hist: Histogram, depthHist: map<nat, Histogram>, log: seq<Confirm>, c: Confirm)
    requires Recorded(hist, depthHist, log)
    ensures var h := if c.depth in depthHist then depthHist[c.depth] else map[];
            Recorded(Bump(hist, c.live), depthHist[c.depth := Bump(h, c.live)], log + [c])
  {
    hide Lives, LivesAt, Tallies, Bump;
    LogGrows(log, c);
    BumpTallies(hist, Lives(log), c.live);
    var h := if c.depth in depthHist then depthHist[c.depth] else map[];
    NoneAt(log, c.depth);
    EmptyTallies();
    BumpTallies(h, LivesAt(log, c.depth), c.live);
    var after := depthHist[c.depth := Bump(h, c.live)];
    forall d
      ensures d in after <==> exists e :: e in log + [c] && e.depth == d
    {
      if d == c.depth {
        assert c in log + [c];
      }
      if d in depthHist {
        var e :| e in log && e.depth == d;
        assert e in log + [c];
      }
    }
    forall d | d in after
      ensures Tallies(after[d], LivesAt(log + [c], d))
    {
      if d != c.depth {
        assert LivesAt(log + [c], d) == LivesAt(log, d) + [];
        assert LivesAt(log, d) + [] == LivesAt(log, d);
      }
    }
  }

  lemma EmptyTallies()
    ensures Tallies(map[], [])
  {
  }

  lemma {:induction false} NoneAt(log: seq<Confirm>, depth: nat)
    ensures LivesAt(log, depth) == [] || exists c :: c in log && c.depth == depth
    decreases |log|
  {
    if log != [] {
      NoneAt(log[..|log| - 1], depth);
      if exists c :: c in log[..|log| - 1] && c.depth == depth {
        var c :| c in log[..|log| - 1] && c.depth == depth;
        assert c in log;
      }
      assert log[|log| - 1] in log;
    }
  }

  // ---- sums over a histogram ----

  datatype Weight = One | Size

  function Of(w: Weight, v: nat): nat {
    if w.One? then 1 else v
  }

  /** Weigh the members of `lives` that lie in `s`. */
  ghost function Total(lives: seq<nat>, s: set<nat>, w: Weight): nat {
    if lives == [] then 0 else (if lives[0] in s then Of(w, lives[0]) else 0) + Total(lives[1..], s, w)
  }

  lemma {:induction false} TotalSplits(lives: seq<nat>, s: set<nat>, w: Weight, v: nat)
    requires v !in s
    ensures Total(lives, s + {v}, w) == Total(lives, s, w) + multiset(lives)[v] * Of(w, v)
    decreases |lives|
  {
    hide Of;
    if lives == [] {
      assert 0 * Of(w, v) == 0;
    } else {
      TotalSplits(lives[1..], s, w, v);
      assert lives == [lives[0]] + lives[1..];
      assert multiset(lives) == multiset{lives[0]} + multiset(lives[1..]);
      var n := multiset(lives[1..])[v];
      assert (n + 1) * Of(w, v) == n * Of(w, v) + Of(w, v);
    }
  }

  lemma {:induction false} TotalNone(lives: seq<nat>, w: Weight)
    ensures Total(lives, {}, w) == 0
    decreases |lives|
  {
    if lives != [] {
      TotalNone(lives[1..], w);
    }
  }

  ghost function Members(s: seq<nat>): set<nat> {
    set x | x in s
  }

  ghost predicate Ascending(s: seq<nat>) {
    forall i, j :: 0 <= i < j < |s| ==> s[i] < s[j]
  }

  /** `BTreeMap` iteration: the keys in ascending order. */
  method SortedKeys(keys: set<nat>) returns (ks: seq<nat>)
    ensures Ascending(ks) && Members(ks) == keys
  {
    ks := [];
    var rest := keys;
    while rest != {}
      invariant rest <= keys && Ascending(ks) && Members(ks) == keys - rest
      invariant forall a, b :: a in ks && b in rest ==> a < b
      decreases |rest|
    {
      var k := Least(rest);
      AscendingSnoc(ks, k);
      ks := ks + [k];
      rest := rest - {k};
    }
  }

  lemma AscendingSnoc(ks: seq<nat>, k: nat)
    requires Ascending(ks) && forall a :: a in ks ==> a < k
    ensures Ascending(ks + [k]) && Members(ks + [k]) == Members(ks) + {k}
  {
    var more := ks + [k];
    forall i, j | 0 <= i < j < |more|
      ensures more[i] < more[j]
    {
      assert more[i] in ks;
    }
    assert forall a :: a in more <==> a in ks || a == k;
  }

  method Least(s: set<nat>) returns (k: nat)
    requires s != {}
    ensures k in s && forall x :: x in s ==> k <= x
  {
    k :| k in s;
    var rest := s - {k};
    while rest != {}
      invariant k in s && rest <= s && forall x :: x in s && x !in rest ==> k <= x
      decreases |rest|
    {
      var x :| x in rest;
      if x < k {
        k := x;
      }
      rest := rest - {x};
    }
  }

  /** Add up the entries for `ks`, weighted. */
  method SumOver(hist: Histogram, ks: seq<nat>, w: Weight, ghost lives: seq<nat>) returns (n: nat)
    requires Tallies(hist, lives) && Ascending(ks) && Members(ks) <= hist.Keys
    ensures n == Total(lives, Members(ks), w)
  {
    hide Of, Total;
    n := 0;
    TotalNone(lives, w);
    assert Members(ks[..0]) == {};
    for i := 0 to |ks|
      invariant n == Total(lives, Members(ks[..i]), w)
    {
      assert ks[i] in Members(ks);
      assert ks[..i + 1] == ks[..i] + [ks[i]];
      assert Members(ks[..i + 1]) == Members(ks[..i]) + {ks[i]};
      assert ks[i] !in ks[..i];
      TotalSplits(lives, Members(ks[..i]), w, ks[i]);
      n := n + hist[ks[i]] * Of(w, ks[i]);
    }
    assert ks[..|ks|] == ks;
  }

  // ---- direct counts ----

  ghost function Below(lives: seq<nat>, v: nat): nat {
    if lives == [] then 0 else (if lives[0] < v then 1 else 0) + Below(lives[1..], v)
  }

  lemma {:induction false} BelowIsTotal(lives: seq<nat>, s: set<nat>, v: nat)
    requires forall x :: x in lives ==> (x in s <==> x < v)
    ensures Below(lives, v) == Total(lives, s, One)
    decreases |lives|
  {
    if lives != [] {
      assert lives[0] in lives;
      BelowIsTotal(lives[1..], s, v);
    }
  }

  lemma {:induction false} BelowMonotone(lives: seq<nat>, v: nat, w: nat)
    requires v <= w
    ensures Below(lives, v) <= Below(lives, w) <= |lives|
    decreases |lives|
  {
    if lives != [] {
      BelowMonotone(lives[1..], v, w);
    }
  }

  lemma {:induction false} AtLeastIsTotal(lives: seq<nat>, s: set<nat>, v: nat)
    requires forall x :: x in lives ==> (x in s <==> x >= v)
    ensures |lives| - Below(lives, v) == Total(lives, s, One)
    decreases |lives|
  {
    if lives != [] {
      assert lives[0] in lives;
      AtLeastIsTotal(lives[1..], s, v);
    }
  }

  lemma {:induction false} EverythingCounts(lives: seq<nat>, s: set<nat>)
    requires forall x :: x in lives ==> x in s
    ensures Total(lives, s, One) == |lives| && Total(lives, s, Size) == Sum(lives)
    decreases |lives|
  {
    if lives != [] {
      assert lives[0] in lives;
      EverythingCounts(lives[1..], s);
    }
  }

  lemma TalliedKeys(hist: Histogram, lives: seq<nat>)
    requires Tallies(hist, lives)
    ensures forall x :: x in lives <==> x in hist
  {
    forall x
      ensures x in lives <==> x in hist
    {
      assert x in lives <==> multiset(lives)[x] > 0;
      assert Get(hist, x) == multiset(lives)[x];
    }
  }

  // ---- nearest rank ----

  /** The element of rank `rank` in ascending order, said by counting. */
  ghost predicate AtRank(lives: seq<nat>, v: nat, rank: nat) {
    Below(lives, v) < rank <= Below(lives, v + 1)
  }

  ghost predicate Sorted(s: seq<nat>) {
    forall i, j :: 0 <= i < j < |s| ==> s[i] <= s[j]
  }

  lemma {:induction false} BelowByMultiset(a: seq<nat>, b: seq<nat>, v: nat)
    requires multiset(a) == multiset(b)
    ensures Below(a, v) == Below(b, v)
    decreases |a|
  {
    if a == [] {
      assert |multiset(b)| == 0;
    } else {
      var x, i, rest := TakeOut(a, b);
      BelowByMultiset(a[1..], rest, v);
      BelowConcat(b[..i], [x] + b[i + 1..], v);
      BelowConcat(b[..i], b[i + 1..], v);
      assert ([x] + b[i + 1..])[1..] == b[i + 1..];
    }
  }

  lemma TakeOut(a: seq<nat>, b: seq<nat>) returns (x: nat, i: nat, rest: seq<nat>)
    requires a != [] && multiset(a) == multiset(b)
    ensures i < |b| && x == a[0] && rest == b[..i] + b[i + 1..] && b == b[..i] + ([x] + b[i + 1..])
    ensures multiset(a[1..]) == multiset(rest)
  {
    x := a[0];
    assert x in multiset(b);
    i :| 0 <= i < |b| && b[i] == x;
    rest := b[..i] + b[i + 1..];
    assert a == [x] + a[1..];
    assert b == b[..i] + ([x] + b[i + 1..]);
    assert multiset(b) == multiset(b[..i]) + (multiset{x} + multiset(b[i + 1..]));
    assert multiset(a) == multiset{x} + multiset(a[1..]);
    assert multiset(rest) == multiset(b[..i]) + multiset(b[i + 1..]);
    assert multiset(rest) == multiset(b) - multiset{x};
  }

  lemma {:induction false} BelowConcat(a: seq<nat>, b: seq<nat>, v: nat)
    ensures Below(a + b, v) == Below(a, v) + Below(b, v)
    decreases |a|
  {
    if a == [] {
      assert a + b == b;
    } else {
      BelowConcat(a[1..], b, v);
      assert (a + b)[1..] == a[1..] + b;
    }
  }

  lemma {:induction false} BelowAll(s: seq<nat>, v: nat)
    ensures (forall x :: x in s ==> x < v) ==> Below(s, v) == |s|
    ensures (forall x :: x in s ==> x >= v) ==> Below(s, v) == 0
    decreases |s|
  {
    if s != [] {
      BelowAll(s[1..], v);
      assert s[0] in s;
      assert forall x :: x in s[1..] ==> x in s;
    }
  }

  /** Nearest rank: the counted element is the one at that place of the sorted
      sequence. */
  lemma RankIsSortedPlace(lives: seq<nat>, sorted: seq<nat>, rank: nat, v: nat)
    requires Sorted(sorted) && multiset(sorted) == multiset(lives)
    requires 1 <= rank <= |sorted|
    ensures AtRank(lives, v, rank) <==> v == sorted[rank - 1]
  {
    hide Below;
    var w := sorted[rank - 1];
    BelowByMultiset(sorted, lives, w);
    BelowByMultiset(sorted, lives, w + 1);
    SortedCounts(sorted, rank - 1);
    if AtRank(lives, v, rank) {
      RankMonotone(lives, v, rank, w, rank);
      RankMonotone(lives, w, rank, v, rank);
    }
  }

  lemma SortedCounts(s: seq<nat>, i: nat)
    requires Sorted(s) && i < |s|
    ensures Below(s, s[i]) <= i < Below(s, s[i] + 1)
  {
    hide Below;
    var a, b, c, d := s[..i], s[i..], s[..i + 1], s[i + 1..];
    assert s == a + b && s == c + d;
    BelowConcat(a, b, s[i]);
    BelowConcat(c, d, s[i] + 1);
    BelowMonotone(a, s[i], s[i]);
    BelowAll(b, s[i]);
    BelowAll(c, s[i] + 1);
    SortedHalves(s, i, b, c);
  }

  lemma SortedHalves(s: seq<nat>, i: nat, b: seq<nat>, c: seq<nat>)
    requires Sorted(s) && i < |s| && b == s[i..] && c == s[..i + 1]
    ensures forall x :: x in b ==> x >= s[i]
    ensures forall x :: x in c ==> x < s[i] + 1
  {
    forall x | x in b
      ensures x >= s[i]
    {
      var k :| 0 <= k < |b| && b[k] == x;
      assert x == s[i + k];
    }
  }

  /** A higher rank has no smaller element. */
  lemma RankMonotone(lives: seq<nat>, v: nat, rank: nat, w: nat, higher: nat)
    requires AtRank(lives, v, rank) && AtRank(lives, w, higher) && rank <= higher
    ensures v <= w
  {
    if v > w {
      BelowMonotone(lives, w + 1, v);
    }
  }

  /** ceil(total * num / den), at least one. */
  function Rank(total: nat, num: nat, den: nat): (rank: nat)
    requires den > 0
    ensures rank >= 1
  {
    var up := (total * num + den - 1) / den;
    if up < 1 then 1 else up
  }

  /** The rank is the least positive number that is at least q times the total. */
  lemma RankIsLeast(total: nat, num: nat, den: nat, r: nat)
    requires den > 0
    ensures Rank(total, num, den) <= r <==> r >= 1 && r * den >= total * num
  {
    var p := total * num;
    var up := (p + den - 1) / den;
    CeilingIsLeast(p, den, up, (p + den - 1) % den, r);
  }

  lemma CeilingIsLeast(p: int, den: int, up: int, rem: int, r: int)
    requires den > 0 && p + den - 1 == up * den + rem && 0 <= rem < den
    ensures up <= r <==> r * den >= p
  {
    if up <= r {
      Gap(up, r, den);
    } else {
      Gap(r + 1, up, den);
      assert (r + 1) * den == r * den + den;
    }
  }

  lemma Gap(a: int, b: int, den: int)
    requires den > 0 && a <= b
    ensures a * den <= b * den
  {
  }

  /** The nearest-rank element, said without a rank: fewer than q of the population
      lie below it, and at least q do not lie above it. */
  ghost predicate AtQuantile(lives: seq<nat>, v: nat, num: nat, den: nat) {
    Below(lives, v) * den < |lives| * num <= Below(lives, v + 1) * den
  }

  lemma RankIsQuantile(lives: seq<nat>, v: nat, num: nat, den: nat)
    requires den > 0 && num > 0 && lives != []
    ensures AtRank(lives, v, Rank(|lives|, num, den)) <==> AtQuantile(lives, v, num, den)
  {
    hide Rank, Below;
    var rank := Rank(|lives|, num, den);
    RankIsLeast(|lives|, num, den, Below(lives, v));
    RankIsLeast(|lives|, num, den, Below(lives, v + 1));
    assert |lives| * num >= 1 by { AtLeastOne(|lives|, num); }
    assert Below(lives, v) == 0 ==> Below(lives, v) * den == 0;
    assert Below(lives, v + 1) == 0 ==> Below(lives, v + 1) * den == 0;
  }

  /** Within the population the scan's rank is reached. */
  lemma RankToQuantile(lives: seq<nat>, v: nat, num: nat, den: nat)
    requires den > 0 && lives != []
    requires AtRank(lives, v, Rank(|lives|, num, den)) || Rank(|lives|, num, den) > |lives|
    ensures 0 < num <= den ==> AtQuantile(lives, v, num, den)
  {
    hide Rank, Below, AtQuantile, AtRank;
    if 0 < num <= den {
      RankIsLeast(|lives|, num, den, |lives|);
      Gap(num, den, |lives|);
      RankIsQuantile(lives, v, num, den);
    }
  }

  lemma AtLeastOne(a: nat, b: nat)
    requires a >= 1 && b >= 1
    ensures a * b >= 1
  {
  }

  lemma PrefixMembers(ks: seq<nat>, i: nat, x: nat)
    requires Ascending(ks) && i < |ks| && x in ks
    ensures x in Members(ks[..i + 1]) <==> x < ks[i] + 1
    ensures x in Members(ks[..i]) <==> x < ks[i]
    ensures i > 0 ==> (x in Members(ks[..i]) <==> x < ks[i - 1] + 1)
  {
    var k :| 0 <= k < |ks| && ks[k] == x;
    assert k < i + 1 ==> ks[..i + 1][k] == x;
    assert k < i ==> ks[..i][k] == x;
  }

  /** The key at place `i` adds its own entry to the running count. */
  lemma UpToKey(hist: Histogram, ks: seq<nat>, lives: seq<nat>, i: nat)
    requires Tallies(hist, lives) && Ascending(ks) && Members(ks) == hist.Keys && i < |ks|
    ensures ks[i] in hist && hist[ks[i]] > 0
    ensures Below(lives, ks[i] + 1) == Below(lives, ks[i]) + hist[ks[i]]
    ensures Below(lives, ks[i]) == Below(lives, if i == 0 then 0 else ks[i - 1] + 1)
  {
    hide Below, Total;
    TalliedKeys(hist, lives);
    assert ks[i] in Members(ks);
    var before := Members(ks[..i]);
    forall x | x in lives
      ensures x in Members(ks[..i + 1]) <==> x < ks[i] + 1
      ensures x in before <==> x < ks[i]
      ensures i > 0 ==> (x in before <==> x < ks[i - 1] + 1)
    {
      assert x in Members(ks);
      PrefixMembers(ks, i, x);
    }
    BelowIsTotal(lives, Members(ks[..i + 1]), ks[i] + 1);
    BelowIsTotal(lives, before, ks[i]);
    BelowIsTotal(lives, before, if i == 0 then 0 else ks[i - 1] + 1);
    assert ks[..i + 1] == ks[..i] + [ks[i]];
    assert Members(ks[..i + 1]) == before + {ks[i]};
    assert ks[i] !in ks[..i];
    TotalSplits(lives, before, One, ks[i]);
  }

  /** The scan: the first key at which the running count reaches the rank, the
      last key when it never does. */
  method Quantile(hist: Histogram, total: nat, num: nat, den: nat, ghost lives: seq<nat>) returns (v: nat)
    requires den > 0 && Tallies(hist, lives) && total == |lives|
    ensures total == 0 ==> v == 0
    ensures total > 0 && Rank(total, num, den) <= total ==> AtRank(lives, v, Rank(total, num, den))
    ensures total > 0 && Rank(total, num, den) > total ==> AtRank(lives, v, total)
    ensures total > 0 && 0 < num <= den ==> AtQuantile(lives, v, num, den)
  {
    hide Rank, Below, AtQuantile;
    if total == 0 {
      return 0;
    }
    var rank := Rank(total, num, den);
    TalliedKeys(hist, lives);
    assert lives[0] in lives;
    var ks := SortedKeys(hist.Keys);
    var seen := 0;
    BelowAll(lives, 0);
    for i := 0 to |ks|
      invariant seen == Below(lives, if i == 0 then 0 else ks[i - 1] + 1)
      invariant seen < rank
    {
      UpToKey(hist, ks, lives, i);
      BelowMonotone(lives, ks[i] + 1, ks[i] + 1);
      seen := seen + hist[ks[i]];
      if seen >= rank {
        RankToQuantile(lives, ks[i], num, den);
        return ks[i];
      }
    }
    assert lives[0] in Members(ks);
    v := ks[|ks| - 1];
    assert seen == total by {
      forall x | x in lives
        ensures x <= v
      {
        assert x in Members(ks);
      }
      BelowAll(lives, v + 1);
    }
    UpToKey(hist, ks, lives, |ks| - 1);
    RankToQuantile(lives, v, num, den);
  }

  // ---- the summary ----

  const CONFIRM_THRESHOLD: nat := 16384

  datatype RegionStats = RegionStats(
    confirms: nat, max: nat, p95: nat, median: nat, geThreshold: nat, liveTotal: nat)

  ghost predicate IsMax(lives: seq<nat>, v: nat) {
    (lives == [] && v == 0) || (v in lives && forall x :: x in lives ==> x <= v)
  }

  /** The summary says of `lives` what its fields are named for. */
  ghost predicate Describes(stats: RegionStats, lives: seq<nat>) {
    && stats.confirms == |lives|
    && IsMax(lives, stats.max)
    && (lives != [] ==> AtQuantile(lives, stats.p95, 95, 100))
    && (lives != [] ==> AtQuantile(lives, stats.median, 1, 2))
    && (lives == [] ==> stats.p95 == 0 && stats.median == 0)
    && stats.geThreshold == |lives| - Below(lives, CONFIRM_THRESHOLD)
    && stats.liveTotal == Sum(lives)
  }

  lemma Ranks(total: nat)
    requires total > 0
    ensures 1 <= Rank(total, 1, 2) <= Rank(total, 95, 100) <= total
  {
  }

  lemma MaxAtRank(lives: seq<nat>, v: nat)
    requires lives != [] && IsMax(lives, v)
    ensures AtRank(lives, v, |lives|)
  {
    BelowAll(lives, v + 1);
    SomeAbove(lives, v);
  }

  lemma {:induction false} SomeAbove(lives: seq<nat>, v: nat)
    requires v in lives
    ensures Below(lives, v) < |lives|
    decreases |lives|
  {
    BelowMonotone(lives[1..], v, v);
    if lives[0] != v {
      SomeAbove(lives[1..], v);
    }
  }

  /** median <= p95 <= max, for every population. */
  lemma SummaryOrdered(stats: RegionStats, lives: seq<nat>)
    requires Describes(stats, lives)
    ensures stats.median <= stats.p95 <= stats.max
  {
    if lives != [] {
      Ranks(|lives|);
      RankIsQuantile(lives, stats.median, 1, 2);
      RankIsQuantile(lives, stats.p95, 95, 100);
      MaxAtRank(lives, stats.max);
      RankMonotone(lives, stats.median, Rank(|lives|, 1, 2), stats.p95, Rank(|lives|, 95, 100));
      RankMonotone(lives, stats.p95, Rank(|lives|, 95, 100), stats.max, |lives|);
    }
  }

  lemma SomeMember(lives: seq<nat>)
    ensures lives == [] || exists x :: x in lives
  {
    if lives != [] {
      assert lives[0] in lives;
    }
  }

  /** The last key, or zero. */
  method LastKey(ks: seq<nat>, ghost lives: seq<nat>) returns (v: nat)
    requires Ascending(ks) && forall x :: x in lives <==> x in Members(ks)
    ensures IsMax(lives, v)
  {
    if ks == [] {
      SomeMember(lives);
      return 0;
    }
    v := ks[|ks| - 1];
    assert v in Members(ks);
  }

  /** `range(threshold ..)`: the keys from the threshold on. */
  method KeysFrom(ks: seq<nat>, least: nat) returns (r: seq<nat>)
    requires Ascending(ks)
    ensures Ascending(r) && Members(r) == set k | k in ks && k >= least
  {
    var i := 0;
    while i < |ks| && ks[i] < least
      invariant i <= |ks| && forall j :: 0 <= j < i ==> ks[j] < least
    {
      i := i + 1;
    }
    r := ks[i..];
    forall k
      ensures k in r <==> k in ks && k >= least
    {
      if k in r {
        var j :| 0 <= j < |r| && r[j] == k;
        assert ks[i + j] == k && ks[i] <= k;
      }
      if k in ks && k >= least {
        var j :| 0 <= j < |ks| && ks[j] == k;
        assert r[j - i] == k;
      }
    }
  }

  method Summarize(hist: Histogram, ghost lives: seq<nat>) returns (stats: RegionStats)
    requires Tallies(hist, lives)
    ensures Describes(stats, lives)
  {
    hide Below, Total, Sum, AtRank, Tallies, Rank;
    TalliedKeys(hist, lives);
    var ks := SortedKeys(hist.Keys);
    var confirms := SumOver(hist, ks, One, lives);
    EverythingCounts(lives, Members(ks));
    var max := LastKey(ks, lives);
    var p95 := Quantile(hist, confirms, 95, 100, lives);
    var median := Quantile(hist, confirms, 1, 2, lives);
    var wide := KeysFrom(ks, CONFIRM_THRESHOLD);
    var ge := SumOver(hist, wide, One, lives);
    AtLeastIsTotal(lives, Members(wide), CONFIRM_THRESHOLD);
    var live := SumOver(hist, ks, Size, lives);
    if lives != [] {
      Ranks(|lives|);
      RankIsQuantile(lives, median, 1, 2);
      RankIsQuantile(lives, p95, 95, 100);
    }
    stats := RegionStats(confirms, max, p95, median, ge, live);
  }

  // ---- the archive wrapper ----

  /** `*entry(v).or_insert(0) += 1`. */
  method Bumped(hist: Histogram, v: nat) returns (r: Histogram)
    ensures r == Bump(hist, v)
  {
    r := if v in hist then hist else hist[v := 0];
    r := r[v := r[v] + 1];
  }

  class CountingArchive {
    var hist: Histogram
    var depthHist: map<nat, Histogram>
    /** The confirms since the last reset. */
    ghost var log: seq<Confirm>

    ghost predicate Valid()
      reads this
    {
      Recorded(hist, depthHist, log)
    }

    constructor ()
      ensures Valid() && log == []
    {
      hist, depthHist, log := map[], map[], [];
    }

    method Reset()
      modifies this
      ensures Valid() && log == []
    {
      hist, depthHist, log := map[], map[], [];
    }

    method Record(live: nat, depth: nat)
      requires Valid()
      modifies this
      ensures Valid() && log == old(log) + [Confirm(live, depth)]
    {
      hide Recorded;
      RecordKeeps(hist, depthHist, log, Confirm(live, depth));
      hist := Bumped(hist, live);
      var h: Histogram := if depth in depthHist then depthHist[depth] else map[];
      h := Bumped(h, live);
      depthHist := depthHist[depth := h];
      log := log + [Confirm(live, depth)];
    }

    method Stats() returns (stats: RegionStats)
      requires Valid()
      ensures Describes(stats, Lives(log))
    {
      stats := Summarize(hist, Lives(log));
    }

    /** One summary per depth that occurred, in order of depth. */
    method DepthRows() returns (depths: seq<nat>, rows: seq<RegionStats>)
      requires Valid()
      ensures Ascending(depths) && |rows| == |depths|
      ensures forall d :: d in Members(depths) <==> exists c :: c in log && c.depth == d
      ensures forall i :: 0 <= i < |rows| ==> Describes(rows[i], LivesAt(log, depths[i]))
      ensures forall v :: Get(hist, v) == Column(depthHist, depths, v)
    {
      hide Describes, LivesAt, Tallies, Lives;
      depths := SortedKeys(depthHist.Keys);
      rows := [];
      for i := 0 to |depths|
        invariant |rows| == i
        invariant forall j :: 0 <= j < i ==> Describes(rows[j], LivesAt(log, depths[j]))
      {
        assert depths[i] in Members(depths);
        var row := Summarize(depthHist[depths[i]], LivesAt(log, depths[i]));
        rows := rows + [row];
      }
      forall v
        ensures Get(hist, v) == Column(depthHist, depths, v)
      {
        assert forall d :: d in depths <==> d in Members(depths);
        FlatIsSumOfDepths(hist, depthHist, log, depths, v);
      }
    }
  }
}
