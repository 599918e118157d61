/** Per-node diagnosis reports and the censored healthy/sick intervals built
    from them: gap filling (`stitch_health_data`), interval selection
    (`select_healthy_time`, `select_sick_times`), the post-read part of
    `extract_health_data` and `find_seed_date`. */
module HealthTimeline {
  import opened Utils

  /** One node's reports: day -> reported state (0 healthy, 1 sick). */
  type Reports = map<int, int>

  /** A censored interval (first day, last day). */
  type Interval = (int, int)

  /** Reports that only use the two states the diagnosis table holds. */
  predicate Binary(h: Reports) {
    forall k :: k in h ==> h[k] == 0 || h[k] == 1
  }

  // ------------------------------------------------------------ gap filling

  /** `a` and `b` are reported days with no report strictly between them. */
  predicate Consecutive(h: Reports, a: int, b: int) {
    a in h && b in h && a < b && forall k :: k in h ==> !(a < k < b)
  }

  /** Day `d` lies strictly inside the gap between two consecutive reports of
      the same state. */
  predicate InGap(h: Reports, a: int, b: int, d: int) {
    Consecutive(h, a, b) && h[a] == h[b] && a < d < b
  }

  /** `r` is `h` with every gap between consecutive equal reports filled with
      their state, and nothing else added or changed. */
  ghost predicate IsStitchOf(h: Reports, r: Reports) {
    && (forall d :: d in h ==> d in r && r[d] == h[d])
    && (forall d :: d in r && d !in h ==> exists a, b :: InGap(h, a, b, d) && r[d] == h[b])
    && (forall a, b, d :: InGap(h, a, b, d) ==> d in r)
  }

  /** The reported days in ascending order (`sorted(health_data[node].keys())`). */
  function Timeline(h: Reports): (ts: seq<int>)
    ensures StrictlyIncreasing(ts)
    ensures forall x :: x in ts <==> x in h
  {
    IntLeTotal();
    var ts := SortedSet(h.Keys, IntLe);
    SortedDistinctIncreasing(ts);
    ts
  }

  /** `ts` lists the reported days of `h` in ascending order. */
  ghost predicate Orders(h: Reports, ts: seq<int>) {
    && StrictlyIncreasing(ts)
    && (forall x :: x in ts ==> x in h)
    && (forall x :: x in h ==> x in ts)
  }

  /** Neighbours in the ascending timeline are exactly the consecutive reports. */
  lemma TimelineConsecutive(h: Reports, ts: seq<int>)
    requires Orders(h, ts)
    ensures forall j :: 0 < j < |ts| ==> Consecutive(h, ts[j - 1], ts[j])
    ensures forall a, b :: Consecutive(h, a, b) ==> exists j :: 0 < j < |ts| && ts[j - 1] == a && ts[j] == b
  {
    forall j | 0 < j < |ts| ensures Consecutive(h, ts[j - 1], ts[j]) {
      forall k | k in h ensures !(ts[j - 1] < k < ts[j]) {
        var i :| 0 <= i < |ts| && ts[i] == k;
        if i < j - 1 { assert ts[i] < ts[j - 1]; } else if i > j { assert ts[j] < ts[i]; }
      }
    }
    forall a, b | Consecutive(h, a, b)
      ensures exists j :: 0 < j < |ts| && ts[j - 1] == a && ts[j] == b
    {
      var i :| 0 <= i < |ts| && ts[i] == a;
      var k :| 0 <= k < |ts| && ts[k] == b;
      assert ts[k - 1] == a;
    }
  }

  /** No report lies strictly between neighbours of the timeline. */
  lemma NoReportInside(h: Reports, ts: seq<int>, j: int)
    requires Orders(h, ts) && 0 < j < |ts|
    ensures forall d :: ts[j - 1] < d < ts[j] ==> d !in h
  {
  }

  /** The gap between the `(j-1)`-th and `j`-th entries of the timeline `ts`
      is to be filled and contains `d`. */
  predicate PairGap(h: Reports, ts: seq<int>, j: int, d: int) {
    0 < j < |ts| && ts[j - 1] in h && ts[j] in h && h[ts[j - 1]] == h[ts[j]] && ts[j - 1] < d < ts[j]
  }

  /** The days strictly between `lo` and `hi`. */
  function Between(lo: int, hi: int): (s: set<int>)
    ensures forall k :: k in s <==> lo < k < hi
    decreases hi - lo
  {
    if hi - lo <= 1 then {} else {lo + 1} + Between(lo + 1, hi)
  }

  /** `r` with every day strictly between `lo` and `hi` set to state `v`. */
  function Filled(r: Reports, lo: int, hi: int, v: int): Reports {
    map d | d in r.Keys + Between(lo, hi) :: if lo < d < hi then v else r[d]
  }

  /** `for step in range(lo + 1, hi): r[step] = v` (the inner loop of
      `stitch_health_data` and the sick-day marking of `extract_health_data`):
      every day strictly between `lo` and `hi` gets state `v`, every other day
      keeps its report; an empty range changes nothing. */
  method FillRange(r: Reports, lo: int, hi: int, v: int) returns (r': Reports)
    ensures forall d :: d in r' <==> d in r || lo < d < hi
    ensures forall d :: d in r' ==> r'[d] == if lo < d < hi then v else r[d]
    ensures r' == Filled(r, lo, hi, v)
  {
    r' := r;
    var step := lo + 1;
    while step < hi
      invariant lo + 1 <= step && (step <= hi || step == lo + 1)
      invariant forall d :: d in r' <==> d in r || lo < d < step
      invariant forall d :: d in r' ==> r'[d] == if lo < d < step then v else r[d]
    {
      r' := r'[step := v];
      step := step + 1;
    }
    assert r'.Keys == Filled(r, lo, hi, v).Keys;
  }

  /** The reports after the outer loop of `stitch_health_data` has handled
      the timeline neighbours `(0, 1)` up to `(n - 2, n - 1)`. */
  function FillGaps(h: Reports, ts: seq<int>, n: nat): Reports
    requires forall x :: x in ts ==> x in h
    requires n <= 1 || n <= |ts|
  {
    if n <= 1 then h
    else
      var r := FillGaps(h, ts, n - 1);
      if h[ts[n - 2]] == h[ts[n - 1]] then Filled(r, ts[n - 2], ts[n - 1], h[ts[n - 1]]) else r
  }

  /** Filling timeline gaps never touches a reported day. */
  lemma {:induction false} FillGapsKeeps(h: Reports, ts: seq<int>, n: nat)
    requires Orders(h, ts) && (n <= 1 || n <= |ts|)
    ensures forall d :: d in h ==> d in FillGaps(h, ts, n) && FillGaps(h, ts, n)[d] == h[d]
  {
    if n > 1 {
      FillGapsKeeps(h, ts, n - 1);
      NoReportInside(h, ts, n - 1);
    }
  }

  lemma FillGapsKeepsDay(h: Reports, ts: seq<int>, n: nat, d: int)
    requires Orders(h, ts) && (n <= 1 || n <= |ts|) && d in h
    ensures d in FillGaps(h, ts, n) && FillGaps(h, ts, n)[d] == h[d]
  {
    FillGapsKeeps(h, ts, n);
  }

  /** After the first `n - 1` neighbour pairs: each added day lies in a
      handled gap and carries its state, and each handled gap is filled. */
  ghost predicate PartlyStitched(h: Reports, ts: seq<int>, n: int, r: Reports) {
    && (forall d :: d in r && d !in h ==> exists j :: 0 < j < n && PairGap(h, ts, j, d) && r[d] == h[ts[j]])
    && (forall j, d :: 0 < j < n && PairGap(h, ts, j, d) ==> d in r)
  }

  lemma {:induction false} FillGapsPartly(h: Reports, ts: seq<int>, n: nat)
    requires Orders(h, ts) && (n <= 1 || n <= |ts|)
    ensures PartlyStitched(h, ts, n, FillGaps(h, ts, n))
  {
    if n > 1 {
      FillGapsPartly(h, ts, n - 1);
      var r := FillGaps(h, ts, n - 1);
      var j := n - 1;
      if h[ts[j - 1]] == h[ts[j]] {
        var r' := Filled(r, ts[j - 1], ts[j], h[ts[j]]);
        assert FillGaps(h, ts, n) == r';
        forall d | d in r' && d !in h ensures exists i :: 0 < i < n && PairGap(h, ts, i, d) && r'[d] == h[ts[i]] {
          if ts[j - 1] < d < ts[j] {
            assert PairGap(h, ts, j, d);
          } else {
            var i :| 0 < i < n - 1 && PairGap(h, ts, i, d) && r[d] == h[ts[i]];
            assert PairGap(h, ts, i, d) && r'[d] == h[ts[i]];
          }
        }
        forall i, d | 0 < i < n && PairGap(h, ts, i, d) ensures d in r' {
          if i < j { assert d in r; }
        }
      } else {
        assert FillGaps(h, ts, n) == r;
        forall i, d | 0 < i < n && PairGap(h, ts, i, d) ensures d in r {
          assert i < j;
        }
      }
    }
  }

  /** `stitch_health_data` for one node: walk the sorted reported days and
      fill every day strictly between two consecutive equal reports. */
  method StitchReports(h: Reports) returns (r: Reports)
    ensures IsStitchOf(h, r)
  {
    var timelist := Timeline(h);
    assert Orders(h, timelist);
    r := h;
    var num := 1;
    while num < |timelist|
      invariant 1 <= num && (num <= |timelist| || num == 1)
      invariant r == FillGaps(h, timelist, num)
    {
      var time2, time1 := timelist[num], timelist[num - 1];
      FillGapsKeepsDay(h, timelist, num, time1);
      FillGapsKeepsDay(h, timelist, num, time2);
      if r[time1] == r[time2] {
        r := FillRange(r, time1, time2, r[time2]);
      }
      num := num + 1;
    }
    FillGapsStitch(h, timelist, num);
  }

  /** Handling every neighbour pair of the timeline stitches the reports. */
  lemma FillGapsStitch(h: Reports, ts: seq<int>, n: nat)
    requires Orders(h, ts) && 1 <= n && (n == |ts| || (n == 1 && |ts| <= 1))
    ensures IsStitchOf(h, FillGaps(h, ts, n))
  {
    FillGapsKeeps(h, ts, n);
    FillGapsPartly(h, ts, n);
    PartlyStitchedIsStitch(h, ts, FillGaps(h, ts, n));
  }

  /** Filling the gaps between all timeline neighbours is stitching. */
  lemma PartlyStitchedIsStitch(h: Reports, ts: seq<int>, r: Reports)
    requires Orders(h, ts)
    requires forall d :: d in h ==> d in r && r[d] == h[d]
    requires PartlyStitched(h, ts, |ts|, r)
    ensures IsStitchOf(h, r)
  {
    TimelineConsecutive(h, ts);
    forall d | d in r && d !in h ensures exists a, b :: InGap(h, a, b, d) && r[d] == h[b] {
      var j :| 0 < j < |ts| && PairGap(h, ts, j, d) && r[d] == h[ts[j]];
      assert InGap(h, ts[j - 1], ts[j], d);
    }
    forall a, b, d | InGap(h, a, b, d) ensures d in r {
      var j :| 0 < j < |ts| && ts[j - 1] == a && ts[j] == b;
      assert PairGap(h, ts, j, d);
    }
  }

  /** Stitching only adds days between the first and the last report. */
  lemma StitchWithinRange(h: Reports, r: Reports)
    requires IsStitchOf(h, r)
    ensures forall d :: d in r ==> |Timeline(h)| > 0 && Timeline(h)[0] <= d <= Timeline(h)[|Timeline(h)| - 1]
  {
    var ts := Timeline(h);
    forall x | x in h ensures |ts| > 0 && ts[0] <= x <= ts[|ts| - 1] {
      var i :| 0 <= i < |ts| && ts[i] == x;
      assert ts[0] <= ts[i] <= ts[|ts| - 1];
    }
    forall d | d in r ensures |ts| > 0 && ts[0] <= d <= ts[|ts| - 1] {
      if d !in h {
        var a, b :| InGap(h, a, b, d) && r[d] == h[b];
        assert a in h && b in h;
      }
    }
  }

  /** `stitch_health_data`: every node's reports stitched, the node set unchanged. */
  method StitchHealthData(health: map<Node, Reports>) returns (r: map<Node, Reports>)
    ensures r.Keys == health.Keys
    ensures forall n :: n in health ==> IsStitchOf(health[n], r[n])
  {
    r := health;
    var todo := health.Keys;
    while todo != {}
      invariant todo <= health.Keys && r.Keys == health.Keys
      invariant forall n :: n in health && n !in todo ==> IsStitchOf(health[n], r[n])
      invariant forall n :: n in todo ==> r[n] == health[n]
      decreases |todo|
    {
      var node :| node in todo;
      var filled := StitchReports(health[node]);
      r := r[node := filled];
      todo := todo - {node};
    }
  }

  /** The consecutive pair around a day is unique. */
  lemma GapUnique(h: Reports, a: int, b: int, a': int, b': int, d: int)
    requires InGap(h, a, b, d) && InGap(h, a', b', d)
    ensures a == a' && b == b'
  {
  }

  /** Stitching determines its result: two stitchings of the same reports are equal. */
  lemma StitchUnique(h: Reports, r1: Reports, r2: Reports)
    requires IsStitchOf(h, r1) && IsStitchOf(h, r2)
    ensures r1 == r2
  {
    forall d | d in r1 ensures d in r2 && r2[d] == r1[d] {
      if d !in h {
        var a, b :| InGap(h, a, b, d) && r1[d] == h[b];
        var a', b' :| InGap(h, a', b', d) && r2[d] == h[b'];
        GapUnique(h, a, b, a', b', d);
      }
    }
    forall d | d in r2 ensures d in r1 {
      if d !in h {
        var a, b :| InGap(h, a, b, d) && r2[d] == h[b];
      }
    }
  }

  /** A stitched timeline has no gap left to fill. */
  lemma {:induction false} StitchNoGaps(h: Reports, r: Reports)
    requires IsStitchOf(h, r)
    ensures IsStitchOf(r, r)
  {
    forall a, b, d | InGap(r, a, b, d) ensures false {
      StitchBetween(h, r, a, b);
    }
  }

  /** Between two stitched days of the same state at least two apart there
      is a stitched day. */
  lemma StitchBetween(h: Reports, r: Reports, a: int, b: int)
    requires IsStitchOf(h, r) && a in r && b in r && a + 1 < b && r[a] == r[b]
    ensures exists c :: c in r && a < c < b
  {
    if a !in h {
      var p, q :| InGap(h, p, q, a) && r[a] == h[q];
      if a + 1 < q {
        assert InGap(h, p, q, a + 1);
      } else {
        assert q in r && a < q < b;
      }
    } else if b !in h {
      var p, q :| InGap(h, p, q, b) && r[b] == h[q];
      if p < b - 1 {
        assert InGap(h, p, q, b - 1);
      } else {
        assert p in r && a < p < b;
      }
    } else if exists k :: k in h && a < k < b {
      var k :| k in h && a < k < b;
      assert k in r;
    } else {
      assert InGap(h, a, b, a + 1);
    }
  }

  /** Stitching twice gives the same reports as stitching once. */
  lemma StitchIdempotent(h: Reports, r: Reports, r2: Reports)
    requires IsStitchOf(h, r) && IsStitchOf(r, r2)
    ensures r2 == r
  {
    StitchNoGaps(h, r);
    StitchUnique(r, r, r2);
  }

  // ------------------------------------------------------ interval selection

  /** No report strictly before day `t`. */
  predicate NoneBefore(h: Reports, t: int) {
    forall k :: k in h ==> k >= t
  }

  /** No report strictly after day `t`. */
  predicate NoneAfter(h: Reports, t: int) {
    forall k :: k in h ==> k <= t
  }

  /** `max` of the states reported strictly before day `t` is `b`. */
  predicate MaxBeforeIs(h: Reports, t: int, b: int) {
    (exists k :: k in h && k < t && h[k] == b) && forall k :: k in h && k < t ==> h[k] <= b
  }

  /** `min` of the states reported strictly after day `t` is `b`. */
  predicate MinAfterIs(h: Reports, t: int, b: int) {
    (exists k :: k in h && k > t && h[k] == b) && forall k :: k in h && k > t ==> h[k] >= b
  }

  /** A start candidate: no earlier report, or the largest earlier state is `b`. */
  predicate StartCandidate(h: Reports, t: int, b: int) {
    NoneBefore(h, t) || MaxBeforeIs(h, t, b)
  }

  /** An end candidate: no later report, or the smallest later state is `b`. */
  predicate EndCandidate(h: Reports, t: int, b: int) {
    NoneAfter(h, t) || MinAfterIs(h, t, b)
  }

  /** The start and end tests as values, so that every use names the same one. */
  function StartTest(h: Reports, b: int): int -> bool {
    t => StartCandidate(h, t, b)
  }

  function EndTest(h: Reports, b: int): int -> bool {
    t => EndCandidate(h, t, b)
  }

  function StartDays(days: seq<int>, h: Reports, b: int): seq<int> {
    Filter(days, StartTest(h, b))
  }

  function EndDays(days: seq<int>, h: Reports, b: int): seq<int> {
    Filter(days, EndTest(h, b))
  }

  /** The shared shape of `select_healthy_time` (`b` = 1) and
      `select_sick_times` (`b` = 0): start and end candidates among `days`,
      each sorted, paired positionally by `zip`. */
  function SelectTimes(days: seq<int>, h: Reports, b: int): seq<Interval> {
    Zip(Sort(StartDays(days, h, b), IntLe), Sort(EndDays(days, h, b), IntLe))
  }

  /** Every selected interval runs from a start candidate to an end candidate
      among the given days; starts and ends each ascend; `zip` keeps as many
      intervals as the shorter candidate list has entries. */
  lemma SelectTimesShape(days: seq<int>, h: Reports, b: int)
    ensures var r := SelectTimes(days, h, b);
      && |r| == (if |StartDays(days, h, b)| <= |EndDays(days, h, b)|
                 then |StartDays(days, h, b)| else |EndDays(days, h, b)|)
      && (forall i :: 0 <= i < |r| ==>
            && r[i].0 in days && StartCandidate(h, r[i].0, b)
            && r[i].1 in days && EndCandidate(h, r[i].1, b))
      && (forall i, j :: 0 <= i < j < |r| ==> r[i].0 <= r[j].0 && r[i].1 <= r[j].1)
  {
    var p, q := StartTest(h, b), EndTest(h, b);
    PairedShape(days, p, q);
    var r := SelectTimes(days, h, b);
    assert r == Zip(Sort(Filter(days, p), IntLe), Sort(Filter(days, q), IntLe));
    forall i | 0 <= i < |r| ensures StartCandidate(h, r[i].0, b) && EndCandidate(h, r[i].1, b) {
      assert p(r[i].0) && q(r[i].1);
    }
  }

  /** The same facts for any two candidate tests `p` and `q`. */
  lemma PairedShape(days: seq<int>, p: int -> bool, q: int -> bool)
    ensures var r := Zip(Sort(Filter(days, p), IntLe), Sort(Filter(days, q), IntLe));
      && |r| == (if |Filter(days, p)| <= |Filter(days, q)| then |Filter(days, p)| else |Filter(days, q)|)
      && (forall i :: 0 <= i < |r| ==> r[i].0 in days && p(r[i].0) && r[i].1 in days && q(r[i].1))
      && (forall i, j :: 0 <= i < j < |r| ==> r[i].0 <= r[j].0 && r[i].1 <= r[j].1)
  {
    var starts := Sort(Filter(days, p), IntLe);
    var ends := Sort(Filter(days, q), IntLe);
    SortSameElements(Filter(days, p), IntLe);
    SortSameElements(Filter(days, q), IntLe);
    ZipMembers(starts, ends, days, p, q);
    PairedOrdered(Filter(days, p), Filter(days, q));
  }

  lemma PairedOrdered(a: seq<int>, b: seq<int>)
    ensures var r := Zip(Sort(a, IntLe), Sort(b, IntLe));
      forall i, j :: 0 <= i < j < |r| ==> r[i].0 <= r[j].0 && r[i].1 <= r[j].1
  {
    var starts, ends := Sort(a, IntLe), Sort(b, IntLe);
    IntLeTotal();
    SortSorted(a, IntLe);
    SortSorted(b, IntLe);
    var r := Zip(starts, ends);
    forall i, j | 0 <= i < j < |r| ensures r[i].0 <= r[j].0 && r[i].1 <= r[j].1 {
      assert IntLe(starts[i], starts[j]) && IntLe(ends[i], ends[j]);
    }
  }

  lemma ZipMembers(starts: seq<int>, ends: seq<int>, days: seq<int>, p: int -> bool, q: int -> bool)
    requires forall x :: x in starts ==> x in days && p(x)
    requires forall x :: x in ends ==> x in days && q(x)
    ensures forall i :: 0 <= i < |Zip(starts, ends)| ==>
              && Zip(starts, ends)[i].0 in days && p(Zip(starts, ends)[i].0)
              && Zip(starts, ends)[i].1 in days && q(Zip(starts, ends)[i].1)
  {
    var z := Zip(starts, ends);
    forall i | 0 <= i < |z|
      ensures z[i].0 in days && p(z[i].0) && z[i].1 in days && q(z[i].1)
    {
      assert z[i] == (starts[i], ends[i]);
      var x, y := starts[i], ends[i];
      assert x in starts && y in ends;
    }
  }

  /** Pairing with a one-element list keeps only the first pair. */
  lemma ZipSingle<T>(s: seq<T>, x: T)
    requires |s| > 0
    ensures Zip(s, [x]) == [(s[0], x)]
  {
    var z := Zip(s, [x]);
    assert |z| == 1 && z[0] == (s[0], x);
  }

  function SelectHealthyTime(days: seq<int>, h: Reports): seq<Interval> {
    SelectTimes(days, h, 1)
  }

  function SelectSickTimes(days: seq<int>, h: Reports): seq<Interval> {
    SelectTimes(days, h, 0)
  }

  /** `days` lists, ascending and once each, the days reported in state `s`. */
  predicate ListsDays(days: seq<int>, h: Reports, s: int) {
    && StrictlyIncreasing(days)
    && (forall x :: x in days ==> x in h && h[x] == s)
    && (forall x :: x in h && h[x] == s ==> x in days)
  }

  /** The days reported in state `s`, ascending (`sorted(healthy_list_tort)`
      and `sorted(sick_list_tort)`). */
  function DaysIn(h: Reports, s: int): (r: seq<int>)
    ensures ListsDays(r, h, s)
  {
    IntLeTotal();
    var r := SortedSet((set k | k in h && h[k] == s), IntLe);
    SortedDistinctIncreasing(r);
    r
  }

  /** A sorted list whose smallest element is `x` starts with `x`. */
  lemma SortedHead(s: seq<int>, x: int)
    requires SortedBy(s, IntLe) && x in s
    requires forall y :: y in s ==> x <= y
    ensures s[0] == x
  {
    var i :| 0 <= i < |s| && s[i] == x;
    assert s[0] in s;
    if i > 0 { assert IntLe(s[0], s[i]); }
  }

  /** The sorted filter of `days` by `p` starts with `x` when `x` is the
      smallest day that passes. */
  lemma SortedFilterHead(days: seq<int>, p: int -> bool, x: int)
    requires x in days && p(x)
    requires forall y :: y in days && p(y) ==> x <= y
    ensures |Sort(Filter(days, p), IntLe)| > 0 && Sort(Filter(days, p), IntLe)[0] == x
  {
    var s := Sort(Filter(days, p), IntLe);
    SortSorted(Filter(days, p), IntLe);
    SortSameElements(Filter(days, p), IntLe);
    SortedHead(s, x);
  }

  /** The sorted filter of a list without repetitions is `[x]` when `x` is
      the only day that passes. */
  lemma SortedFilterSingle(days: seq<int>, p: int -> bool, x: int)
    requires StrictlyIncreasing(days) && x in days && p(x)
    requires forall y :: y in days && p(y) ==> y == x
    ensures Sort(Filter(days, p), IntLe) == [x]
  {
    var f := Filter(days, p);
    assert multiset(f) == multiset{x} by {
      DistinctSeqMultiset(days);
      forall y ensures multiset(f)[y] == multiset{x}[y] {
        FilterCount(days, p, y);
      }
    }
    SingletonSeq(Sort(f, IntLe), x);
  }

  /** The only list holding exactly one `x` is `[x]`. */
  lemma SingletonSeq(s: seq<int>, x: int)
    requires multiset(s) == multiset{x}
    ensures s == [x]
  {
    assert |s| == |multiset(s)| == 1;
    assert s[0] in multiset(s);
  }

  /** With 0/1 reports the first healthy day heads the sorted healthy start
      candidates: every earlier report is sick. */
  lemma FirstHealthyStarts(days: seq<int>, h: Reports)
    requires Binary(h) && ListsDays(days, h, 0) && |days| > 0
    ensures |Sort(StartDays(days, h, 1), IntLe)| > 0
    ensures Sort(StartDays(days, h, 1), IntLe)[0] == days[0]
  {
    if !NoneBefore(h, days[0]) {
      var k :| k in h && k < days[0];
      assert k !in days;
      forall j | j in h && j < days[0] ensures h[j] <= 1 { }
    }
    assert StartCandidate(h, days[0], 1);
    SortedFilterHead(days, StartTest(h, 1), days[0]);
  }

  /** With 0/1 reports the last healthy day is the only healthy end
      candidate: any earlier healthy day has a healthy report after it. */
  lemma LastHealthyOnlyEnd(days: seq<int>, h: Reports)
    requires Binary(h) && ListsDays(days, h, 0) && |days| > 0
    ensures Sort(EndDays(days, h, 1), IntLe) == [days[|days| - 1]]
  {
    var last := days[|days| - 1];
    if !NoneAfter(h, last) {
      var k :| k in h && k > last;
      assert k !in days;
    }
    assert EndCandidate(h, last, 1);
    forall t | t in days && t != last ensures !EndCandidate(h, t, 1) {
      var i :| 0 <= i < |days| && days[i] == t;
      assert t < last;
    }
    SortedFilterSingle(days, EndTest(h, 1), last);
  }

  /** With 0/1 reports, `select_healthy_time` on the sorted healthy days
      yields exactly one interval, from the first to the last healthy report,
      whatever sick reports lie between: an end candidate needs every later
      report sick, so only the last healthy day qualifies. */
  lemma HealthyTimeExact(days: seq<int>, h: Reports)
    requires Binary(h) && ListsDays(days, h, 0) && |days| > 0
    ensures SelectHealthyTime(days, h) == [(days[0], days[|days| - 1])]
  {
    FirstHealthyStarts(days, h);
    LastHealthyOnlyEnd(days, h);
    var starts := Sort(StartDays(days, h, 1), IntLe);
    ZipSingle(starts, days[|days| - 1]);
    assert Zip(starts, Sort(EndDays(days, h, 1), IntLe)) == [(days[0], days[|days| - 1])];
  }

  /** Some report after day `t` is healthy. */
  predicate HealthyAfter(h: Reports, t: int) {
    exists k :: k in h && k > t && h[k] == 0
  }

  /** With 0/1 reports the first sick day is the only sick start candidate:
      any later sick day has a sick report before it. */
  lemma FirstSickOnlyStart(days: seq<int>, h: Reports)
    requires Binary(h) && ListsDays(days, h, 1) && |days| > 0
    ensures Sort(StartDays(days, h, 0), IntLe) == [days[0]]
  {
    var first := days[0];
    if !NoneBefore(h, first) {
      var k :| k in h && k < first;
      assert k !in days;
    }
    assert StartCandidate(h, first, 0);
    forall t | t in days && t != first ensures !StartCandidate(h, t, 0) {
      var i :| 0 <= i < |days| && days[i] == t;
      assert first < t;
    }
    SortedFilterSingle(days, StartTest(h, 0), first);
  }

  /** The first sick day heads the sorted sick end candidates when a healthy
      report follows it; otherwise the last sick day is the only one. */
  lemma SickEnd(days: seq<int>, h: Reports)
    requires Binary(h) && ListsDays(days, h, 1) && |days| > 0
    ensures var ends := Sort(EndDays(days, h, 0), IntLe);
      |ends| > 0 && ends[0] == if HealthyAfter(h, days[0]) then days[0] else days[|days| - 1]
  {
    var first, last := days[0], days[|days| - 1];
    if HealthyAfter(h, first) {
      assert EndCandidate(h, first, 0);
      SortedFilterHead(days, EndTest(h, 0), first);
    } else {
      assert NoneAfter(h, last);
      forall t | t in days && t != last ensures !EndCandidate(h, t, 0) {
        var i :| 0 <= i < |days| && days[i] == t;
        assert t < last;
        assert first <= t;
      }
      SortedFilterSingle(days, EndTest(h, 0), last);
    }
  }

  /** With 0/1 reports, `select_sick_times` on the sorted sick days yields
      exactly one interval: it starts at the first sick report and ends there
      too when any healthy report follows it (the smallest later state is
      then 0), otherwise at the last sick report. */
  lemma SickTimesExact(days: seq<int>, h: Reports)
    requires Binary(h) && ListsDays(days, h, 1) && |days| > 0
    ensures SelectSickTimes(days, h) ==
      [(days[0], if HealthyAfter(h, days[0]) then days[0] else days[|days| - 1])]
  {
    FirstSickOnlyStart(days, h);
    SickEnd(days, h);
    var ends := Sort(EndDays(days, h, 0), IntLe);
    assert Zip([days[0]], ends) == [(days[0], ends[0])];
  }

  /** Reports that are healthy before day `t` and sick from `t` on. */
  predicate Monotone(h: Reports, t: int) {
    forall d :: d in h ==> h[d] == if d < t then 0 else 1
  }

  /** With monotone reports the sick interval too runs from the first to the
      last sick report. */
  lemma MonotoneSickTimes(days: seq<int>, h: Reports, t: int)
    requires Monotone(h, t) && ListsDays(days, h, 1) && |days| > 0
    ensures SelectSickTimes(days, h) == [(days[0], days[|days| - 1])]
  {
    assert days[0] in days;
    SickTimesExact(days, h);
  }

  /** Reports 1:0, 2:1, 3:0, 4:1 (recovered, then sick again): the healthy
      days give one interval (1, 3) and the sick days one interval (2, 2), so
      the second sick spell on day 4 starts no interval. */
  lemma RecurringSickness()
    ensures SelectHealthyTime([1, 3], map[1 := 0, 2 := 1, 3 := 0, 4 := 1]) == [(1, 3)]
    ensures SelectSickTimes([2, 4], map[1 := 0, 2 := 1, 3 := 0, 4 := 1]) == [(2, 2)]
  {
    var h := map[1 := 0, 2 := 1, 3 := 0, 4 := 1];
    assert ListsDays([1, 3], h, 0);
    assert ListsDays([2, 4], h, 1);
    HealthyTimeExact([1, 3], h);
    assert HealthyAfter(h, 2) by { assert h[3] == 0; }
    SickTimesExact([2, 4], h);
  }

  // ------------------------------------------------- extract_health_data

  /** `node_health[node]`: key 0 (healthy intervals) and key 1 (sick
      intervals), each present only when the node has such a report. */
  datatype NodeHealth = NodeHealth(healthy: Option<seq<Interval>>, sick: Option<seq<Interval>>)

  /** Day `d` lies in one of the intervals (both ends included). */
  predicate Covered(ivs: seq<Interval>, d: int) {
    exists i :: 0 <= i < |ivs| && ivs[i].0 <= d <= ivs[i].1
  }

  /** A day is covered by a list of intervals exactly when it is covered by
      all but the last one or lies in the last one. */
  lemma CoveredLast(ivs: seq<Interval>)
    requires ivs != []
    ensures var init, last := ivs[..|ivs| - 1], ivs[|ivs| - 1];
      forall d :: Covered(ivs, d) <==> Covered(init, d) || last.0 <= d <= last.1
  {
    var init, last := ivs[..|ivs| - 1], ivs[|ivs| - 1];
    forall d | Covered(ivs, d) && !Covered(init, d) ensures last.0 <= d <= last.1 {
      var i :| 0 <= i < |ivs| && ivs[i].0 <= d <= ivs[i].1;
    }
    forall d | Covered(init, d) ensures Covered(ivs, d) {
      var i :| 0 <= i < |init| && init[i].0 <= d <= init[i].1;
      assert ivs[i] == init[i];
    }
    forall d | last.0 <= d <= last.1 ensures Covered(ivs, d) {
      assert ivs[|ivs| - 1] == last;
    }
  }

  /** The reports after every day of every sick interval is marked sick
      (`for day in range(time1, time2 + 1)`), intervals taken in order. */
  function MarkSick(h: Reports, ivs: seq<Interval>): (r: Reports)
    ensures forall d :: d in r <==> d in h || Covered(ivs, d)
    ensures forall d :: d in r ==> r[d] == if Covered(ivs, d) then 1 else h[d]
  {
    if ivs == [] then h
    else
      var init, last := ivs[..|ivs| - 1], ivs[|ivs| - 1];
      var r := MarkSick(h, init);
      CoveredLast(ivs);
      Filled(r, last.0 - 1, last.1 + 1, 1)
  }

  /** One node's outcome of `extract_health_data` from reports `h` (already
      stitched when diagnosis lag is on): each interval list is selected from
      the sorted days of its state and present exactly when such a day
      exists, and the returned reports have the sick intervals marked. */
  predicate Extracted(h: Reports, nh: NodeHealth, marked: Reports) {
    && SelectedFor(h, 0, nh.healthy)
    && SelectedFor(h, 1, nh.sick)
    && marked == MarkSick(h, if nh.sick.Some? then nh.sick.value else [])
  }

  /** The interval list for state `s` is present exactly when some day has
      that state, and is then selected from those days in ascending order
      (`select_healthy_time` for 0, `select_sick_times` for 1: the boundary
      reports looked for are in the other state). */
  predicate SelectedFor(h: Reports, s: int, times: Option<seq<Interval>>) {
    times == if exists d :: d in h && h[d] == s then Some(SelectTimes(DaysIn(h, s), h, 1 - s)) else None
  }

  /** The loop over one node's reported days: the healthy and the sick days,
      each listed once, in whatever order the keys are visited. */
  method CollectDays(h: Reports) returns (healthy: seq<int>, sick: seq<int>)
    ensures multiset(healthy) == multiset(set k | k in h && h[k] == 0)
    ensures multiset(sick) == multiset(set k | k in h && h[k] == 1)
  {
    healthy, sick := [], [];
    var todo := h.Keys;
    while todo != {}
      invariant todo <= h.Keys
      invariant forall x :: x in healthy <==> x in h && x !in todo && h[x] == 0
      invariant forall x :: x in sick <==> x in h && x !in todo && h[x] == 1
      invariant forall i, j :: 0 <= i < j < |healthy| ==> healthy[i] != healthy[j]
      invariant forall i, j :: 0 <= i < j < |sick| ==> sick[i] != sick[j]
      decreases |todo|
    {
      var time1 := Choose(todo);
      if h[time1] == 1 { sick := sick + [time1]; }
      if h[time1] == 0 { healthy := healthy + [time1]; }
      todo := todo - {time1};
    }
    ListedOnce(healthy, h, 0);
    ListedOnce(sick, h, 1);
  }

  /** A list holding each day of one state exactly once has that set's multiset. */
  lemma ListedOnce(l: seq<int>, h: Reports, s: int)
    requires forall x :: x in l <==> x in h && h[x] == s
    requires forall i, j :: 0 <= i < j < |l| ==> l[i] != l[j]
    ensures multiset(l) == multiset(set k | k in h && h[k] == s)
  {
    var days := set k | k in h && h[k] == s;
    assert forall x :: x in l <==> x in days;
    DistinctListMultiset(l, days);
  }

  /** The per-node body of `extract_health_data` after reading and stitching. */
  method ExtractNode(h: Reports) returns (nh: NodeHealth, marked: Reports)
    ensures Extracted(h, nh, marked)
  {
    var healthyList, sickList := CollectDays(h);
    var healthyTimes := SelectIfReported(healthyList, h, 0);
    var sickTimes := SelectIfReported(sickList, h, 1);
    nh := NodeHealth(healthyTimes, sickTimes);
    marked := MarkSickDays(h, if sickTimes.Some? then sickTimes.value else []);
  }

  /** `if len(list) > 0: node_health[node][s] = select(sorted(list), ...)`
      for the days of state `s`; the other state is the one `select` looks
      for around them. */
  method SelectIfReported(l: seq<int>, h: Reports, s: int) returns (times: Option<seq<Interval>>)
    requires multiset(l) == multiset(set k | k in h && h[k] == s)
    ensures SelectedFor(h, s, times)
  {
    ListedIffReported(l, h, s);
    times := None;
    if |l| > 0 {
      IntLeTotal();
      SortOfSetList(l, (set k | k in h && h[k] == s), IntLe);
      var sorted := Sort(l, IntLe);
      assert sorted == DaysIn(h, s);
      times := Some(SelectTimes(sorted, h, 1 - s));
    }
  }

  /** `for time1, time2 in node_health[node][1]: for day in range(time1,
      time2 + 1): health_data[node][day] = 1` */
  method MarkSickDays(h: Reports, ivs: seq<Interval>) returns (marked: Reports)
    ensures marked == MarkSick(h, ivs)
  {
    marked := h;
    for i := 0 to |ivs|
      invariant marked == MarkSick(h, ivs[..i])
    {
      var time1, time2 := ivs[i].0, ivs[i].1;
      MarkSickNext(h, ivs, i);
      marked := FillRange(marked, time1 - 1, time2 + 1, 1);
    }
    assert ivs[..|ivs|] == ivs;
  }

  /** Marking one more interval of the list. */
  lemma MarkSickNext(h: Reports, ivs: seq<Interval>, i: int)
    requires 0 <= i < |ivs|
    ensures MarkSick(h, ivs[..i + 1]) == Filled(MarkSick(h, ivs[..i]), ivs[i].0 - 1, ivs[i].1 + 1, 1)
  {
    assert ivs[..i + 1][..i] == ivs[..i] && ivs[..i + 1][i] == ivs[i];
  }

  /** A list holding the days of one state once each is empty exactly when no
      day has that state. */
  lemma ListedIffReported(l: seq<int>, h: Reports, s: int)
    requires multiset(l) == multiset(set k | k in h && h[k] == s)
    ensures |l| > 0 <==> exists d :: d in h && h[d] == s
  {
    if exists d :: d in h && h[d] == s {
      var d :| d in h && h[d] == s;
      assert d in multiset(l);
    } else {
      assert (set k | k in h && h[k] == s) == {};
      assert |multiset(l)| == 0;
    }
  }

  /** `extract_health_data` after the table is read: optional stitching, then
      every node extracted. `stitched` is the data the intervals are built from. */
  method ExtractHealth(health: map<Node, Reports>, diagnosisLag: bool)
    returns (healthData: map<Node, Reports>, nodeHealth: map<Node, NodeHealth>, ghost stitched: map<Node, Reports>)
    ensures stitched.Keys == health.Keys && healthData.Keys == health.Keys && nodeHealth.Keys == health.Keys
    ensures forall n :: n in health ==>
      if diagnosisLag then IsStitchOf(health[n], stitched[n]) else stitched[n] == health[n]
    ensures forall n :: n in health ==> Extracted(stitched[n], nodeHealth[n], healthData[n])
  {
    var data := health;
    if diagnosisLag { data := StitchHealthData(health); }
    stitched := data;
    healthData, nodeHealth := ExtractNodes(data);
  }

  /** The per-node loop of `extract_health_data`. */
  method ExtractNodes(data: map<Node, Reports>) returns (healthData: map<Node, Reports>, nodeHealth: map<Node, NodeHealth>)
    ensures healthData.Keys == data.Keys && nodeHealth.Keys == data.Keys
    ensures forall n :: n in data ==> Extracted(data[n], nodeHealth[n], healthData[n])
  {
    healthData, nodeHealth := data, map[];
    var todo := data.Keys;
    while todo != {}
      invariant todo <= data.Keys && healthData.Keys == data.Keys
      invariant nodeHealth.Keys == data.Keys - todo
      invariant forall n :: n in nodeHealth ==> Extracted(data[n], nodeHealth[n], healthData[n])
      decreases |todo|
    {
      var node := Choose(todo);
      var nh, marked := ExtractNode(data[node]);
      ExtractedNext(data, nodeHealth, healthData, todo, node, nh, marked);
      nodeHealth := nodeHealth[node := nh];
      healthData := healthData[node := marked];
      todo := todo - {node};
    }
  }

  /** One pass of the per-node loop keeps its invariant. */
  lemma ExtractedNext(data: map<Node, Reports>, nodeHealth: map<Node, NodeHealth>, healthData: map<Node, Reports>,
                      todo: set<Node>, node: Node, nh: NodeHealth, marked: Reports)
    requires todo <= data.Keys && healthData.Keys == data.Keys && nodeHealth.Keys == data.Keys - todo
    requires forall n :: n in nodeHealth ==> Extracted(data[n], nodeHealth[n], healthData[n])
    requires node in todo && Extracted(data[node], nh, marked)
    ensures var nh2, hd2 := nodeHealth[node := nh], healthData[node := marked];
      && hd2.Keys == data.Keys && nh2.Keys == data.Keys - (todo - {node})
      && forall n :: n in nh2 ==> Extracted(data[n], nh2[n], hd2[n])
  {
  }

  /** With 0/1 reports each node gets at most one healthy and one sick
      interval: healthy from its first to its last healthy report, sick from
      its first sick report to itself (a healthy report follows) or to the
      last sick report. */
  lemma BinaryExtraction(h: Reports, nh: NodeHealth, marked: Reports)
    requires Binary(h) && Extracted(h, nh, marked)
    ensures nh.healthy.Some? ==>
      |DaysIn(h, 0)| > 0 && nh.healthy.value == [(DaysIn(h, 0)[0], DaysIn(h, 0)[|DaysIn(h, 0)| - 1])]
    ensures nh.sick.Some? ==>
      var sick := DaysIn(h, 1);
      |sick| > 0 && nh.sick.value == [(sick[0], if HealthyAfter(h, sick[0]) then sick[0] else sick[|sick| - 1])]
  {
    var healthy, sick := DaysIn(h, 0), DaysIn(h, 1);
    if nh.healthy.Some? {
      PresentDays(h, 0, nh.healthy);
      HealthyTimeExact(healthy, h);
    }
    if nh.sick.Some? {
      PresentDays(h, 1, nh.sick);
      SickTimesExact(sick, h);
    }
  }

  /** A present interval list comes from a non-empty list of days. */
  lemma PresentDays(h: Reports, s: int, times: Option<seq<Interval>>)
    requires SelectedFor(h, s, times) && times.Some?
    ensures |DaysIn(h, s)| > 0 && times.value == SelectTimes(DaysIn(h, s), h, 1 - s)
  {
    var d :| d in h && h[d] == s;
    assert d in DaysIn(h, s);
  }

  // ------------------------------------------------------- find_seed_date

  /** The first day of every sick interval of every node. */
  function SickStarts(nodeHealth: map<Node, NodeHealth>): set<int> {
    set n, iv | n in nodeHealth && nodeHealth[n].sick.Some? && iv in nodeHealth[n].sick.value :: iv.0
  }

  /** `find_seed_date`: the smallest first day of all sick intervals (the
      head of their sorted list); `None` where `sick_dates[0]` raises
      `IndexError` because no node has one. */
  function FindSeedDate(nodeHealth: map<Node, NodeHealth>): Option<int> {
    IntLeTotal();
    var sorted := SortedSet(SickStarts(nodeHealth), IntLe);
    if |sorted| == 0 then None else Some(sorted[0])
  }

  /** Some node has a sick interval. */
  predicate AnySickInterval(nodeHealth: map<Node, NodeHealth>) {
    exists n :: n in nodeHealth && nodeHealth[n].sick.Some? && nodeHealth[n].sick.value != []
  }

  /** There is no seed date exactly when no node has a sick interval. */
  lemma SeedDateExists(nodeHealth: map<Node, NodeHealth>)
    ensures FindSeedDate(nodeHealth).Some? <==> AnySickInterval(nodeHealth)
  {
    var starts := SickStarts(nodeHealth);
    if AnySickInterval(nodeHealth) {
      var n :| n in nodeHealth && nodeHealth[n].sick.Some? && nodeHealth[n].sick.value != [];
      var iv := nodeHealth[n].sick.value[0];
      assert iv in nodeHealth[n].sick.value;
      assert iv.0 in starts;
    } else {
      assert starts == {};
    }
  }

  /** The seed date starts some sick interval and no sick interval starts
      earlier. */
  lemma SeedDateIsFirst(nodeHealth: map<Node, NodeHealth>)
    requires FindSeedDate(nodeHealth).Some?
    ensures exists n :: n in nodeHealth && nodeHealth[n].sick.Some? && SeedStartIn(nodeHealth[n].sick.value, FindSeedDate(nodeHealth).value)
    ensures forall n, iv :: n in nodeHealth && nodeHealth[n].sick.Some? && iv in nodeHealth[n].sick.value ==>
              FindSeedDate(nodeHealth).value <= iv.0
  {
    var starts := SickStarts(nodeHealth);
    IntLeTotal();
    var sorted := SortedSet(starts, IntLe);
    var seed := sorted[0];
    assert seed in starts;
    var n, iv :| n in nodeHealth && nodeHealth[n].sick.Some? && iv in nodeHealth[n].sick.value && iv.0 == seed;
    assert SeedStartIn(nodeHealth[n].sick.value, seed);
    forall m, jv | m in nodeHealth && nodeHealth[m].sick.Some? && jv in nodeHealth[m].sick.value
      ensures seed <= jv.0
    {
      assert jv.0 in starts;
      var i :| 0 <= i < |sorted| && sorted[i] == jv.0;
      assert IntLe(sorted[0], sorted[i]);
    }
  }

  /** Day `t` starts one of the intervals. */
  predicate SeedStartIn(ivs: seq<Interval>, t: int) {
    exists iv :: iv in ivs && iv.0 == t
  }
}
