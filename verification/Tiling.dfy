/** Cutting the pending steps of a time series into files, and finding where they begin. */
module Tiling {
  import opened GrownArray
  import opened NetCdf
  import Hyperslab

  const READ_TIME_SIZE := 100
  const ARCH_FILE_SIZE := 1024 * 1024 * 1024
  const ONE_MILLION := 1024 * 1024

  /** Time indices lo..hi, both included. */
  datatype Span = Span(lo: int, hi: int) {
    function Size(): int { hi - lo + 1 }
  }

  function Interval(archFileSize: nat, stepSize: nat): (n: nat)
    requires stepSize > 0
    ensures n > 0
  {
    archFileSize / stepSize + 1
  }

  /** The interval the archive loop goes on with: all that remains when that is close enough. */
  function NextInterval(cur: int, end: int, interval: nat): (n: nat)
    requires interval > 0 && cur < end
    ensures n > 0
  {
    if interval + interval / 2 + 1 >= end - cur + 1 then end - cur + 1 else interval
  }

  function LastIndex(cur: int, end: int, interval: nat): int {
    if cur + interval > end then end else cur + interval - 1
  }

  /** The spans the archive loop writes. */
  function Tiles(cur: int, end: int, interval: nat): seq<Span>
    requires interval > 0
    decreases end - cur
  {
    if cur >= end then []
    else
      var n := NextInterval(cur, end, interval);
      var hi := LastIndex(cur, end, n);
      [Span(cur, hi)] + Tiles(hi + 1, end, n)
  }

  /** One turn of the loop writes the first of the spans that are left. */
  lemma NextTile(tiles: seq<Span>, m: nat, cur: int, end: int, interval: nat)
    requires interval > 0 && m <= |tiles| && tiles[m..] == Tiles(cur, end, interval)
    ensures cur >= end ==> m == |tiles|
    ensures cur < end ==>
              m < |tiles|
              && var n := NextInterval(cur, end, interval);
                 tiles[m] == Span(cur, LastIndex(cur, end, n))
                 && tiles[m + 1..] == Tiles(LastIndex(cur, end, n) + 1, end, n)
  {
    if cur < end {
      assert tiles[m] == tiles[m..][0];
      assert tiles[m + 1..] == tiles[m..][1..];
    }
  }

  /** Consecutive spans from cur up to and including end. */
  ghost predicate Partition(tiles: seq<Span>, cur: int, end: int) {
    |tiles| > 0 && tiles[0].lo == cur && tiles[|tiles| - 1].hi == end
    && (forall i :: 0 <= i < |tiles| ==> tiles[i].lo <= tiles[i].hi)
    && (forall i :: 0 <= i < |tiles| - 1 ==> tiles[i].hi + 1 == tiles[i + 1].lo)
  }

  /** What is left is written as one span when it is close enough to the interval. */
  predicate IsOneSpan(total: int, n: nat) {
    total <= n + n / 2 + 1
  }

  lemma TilesOne(cur: int, end: int, interval: nat)
    requires interval > 0 && cur < end && IsOneSpan(end - cur + 1, interval)
    ensures Tiles(cur, end, interval) == [Span(cur, end)]
  {
    assert Tiles(end + 1, end, end - cur + 1) == [];
  }

  lemma TilesMore(cur: int, end: int, interval: nat)
    requires interval > 0 && cur < end && !IsOneSpan(end - cur + 1, interval)
    ensures cur + interval < end
    ensures Tiles(cur, end, interval) == [Span(cur, cur + interval - 1)] + Tiles(cur + interval, end, interval)
  {
  }

  /** Nothing is left over although the loop stops one step early: an interval that is not the last
      leaves at least two steps. */
  lemma {:induction false} TilesPartition(cur: int, end: int, interval: nat)
    requires interval > 0 && cur < end
    ensures Partition(Tiles(cur, end, interval), cur, end)
    decreases end - cur
  {
    if IsOneSpan(end - cur + 1, interval) {
      TilesOne(cur, end, interval);
    } else {
      TilesMore(cur, end, interval);
      TilesPartition(cur + interval, end, interval);
      PartitionCons(Span(cur, cur + interval - 1), Tiles(cur + interval, end, interval), end);
    }
  }

  lemma PartitionCons(first: Span, rest: seq<Span>, end: int)
    requires first.lo <= first.hi && Partition(rest, first.hi + 1, end)
    ensures Partition([first] + rest, first.lo, end)
  {
  }

  /** With no step or one step pending, nothing is written. */
  lemma TilesEmpty(cur: int, end: int, interval: nat)
    requires interval > 0
    ensures Tiles(cur, end, interval) == [] <==> end - cur + 1 <= 1
  {
  }

  /** Every index of the range is in exactly one span. */
  lemma {:induction false} PartitionCovers(tiles: seq<Span>, cur: int, end: int, t: int)
    requires Partition(tiles, cur, end) && cur <= t <= end
    ensures exists i :: 0 <= i < |tiles| && tiles[i].lo <= t <= tiles[i].hi
    ensures forall i, j | 0 <= i < |tiles| && 0 <= j < |tiles| && tiles[i].lo <= t <= tiles[i].hi
              && tiles[j].lo <= t <= tiles[j].hi :: i == j
    decreases |tiles|
  {
    if t <= tiles[0].hi {
      SpansAscend(tiles, cur, end);
    } else {
      var rest := tiles[1..];
      assert |tiles| > 1;
      PartitionCovers(rest, tiles[1].lo, end, t);
      var i :| 0 <= i < |rest| && rest[i].lo <= t <= rest[i].hi;
      assert tiles[i + 1] == rest[i];
      forall j, k | 0 <= j < |tiles| && 0 <= k < |tiles|
        && tiles[j].lo <= t <= tiles[j].hi && tiles[k].lo <= t <= tiles[k].hi
        ensures j == k
      {
        assert rest[j - 1] == tiles[j] && rest[k - 1] == tiles[k];
      }
    }
  }

  lemma {:induction false} SpansAscend(tiles: seq<Span>, cur: int, end: int)
    requires Partition(tiles, cur, end)
    ensures forall i :: 0 < i < |tiles| ==> tiles[0].hi < tiles[i].lo
    decreases |tiles|
  {
    if |tiles| > 1 {
      SpansAscend(tiles[1..], tiles[1].lo, end);
      forall i | 0 < i < |tiles| ensures tiles[0].hi < tiles[i].lo {
        assert tiles[i] == tiles[1..][i - 1];
      }
    }
  }

  lemma {:induction false} SpanInside(tiles: seq<Span>, cur: int, end: int, k: nat)
    requires Partition(tiles, cur, end) && k < |tiles|
    ensures cur <= tiles[k].lo <= tiles[k].hi <= end
    decreases |tiles|
  {
    if |tiles| > 1 {
      var rest := tiles[1..];
      SpanInside(rest, tiles[1].lo, end, if k == 0 then 0 else k - 1);
      assert k > 0 ==> tiles[k] == rest[k - 1];
    }
  }

  /** Sizes in steps: the interval for every span but the last; the last is at most half an
      interval and a step longer, and more than half an interval and a step when it is not alone. */
  ghost predicate SizedBy(tiles: seq<Span>, interval: nat) {
    |tiles| > 0
    && (forall i :: 0 <= i < |tiles| - 1 ==> tiles[i].Size() == interval)
    && 1 < tiles[|tiles| - 1].Size() <= interval + interval / 2 + 1
    && (|tiles| > 1 ==> tiles[|tiles| - 1].Size() > interval / 2 + 1)
  }

  lemma SizesCons(first: Span, rest: seq<Span>, interval: nat)
    requires first.Size() == interval && SizedBy(rest, interval) && rest[|rest| - 1].Size() > interval / 2 + 1
    ensures SizedBy([first] + rest, interval) && ([first] + rest)[|rest|] == rest[|rest| - 1]
  {
  }

  lemma {:induction false} TileSizes(cur: int, end: int, interval: nat)
    requires interval > 0 && cur < end
    ensures var tiles := Tiles(cur, end, interval);
            SizedBy(tiles, interval)
            && (end - cur + 1 > interval / 2 + 1 ==> tiles[|tiles| - 1].Size() > interval / 2 + 1)
    decreases end - cur
  {
    if IsOneSpan(end - cur + 1, interval) {
      TilesOne(cur, end, interval);
    } else {
      TilesMore(cur, end, interval);
      TileSizes(cur + interval, end, interval);
      SizesCons(Span(cur, cur + interval - 1), Tiles(cur + interval, end, interval), interval);
    }
  }

  lemma IntervalBytes(limit: nat, step: nat)
    requires step > 0
    ensures limit < Interval(limit, step) * step <= limit + step
  {
    var q := limit / step;
    assert limit == q * step + limit % step;
    assert (q + 1) * step == q * step + step;
  }

  lemma LastBytes(interval: nat, last: nat, limit: nat, step: nat)
    requires limit < interval * step <= limit + step
    requires 2 * last <= 3 * interval + 2
    ensures 2 * (last * step) <= 3 * limit + 5 * step
    ensures 2 * last >= interval + 3 ==> 2 * (last * step) > limit + 3 * step
  {
    assert (2 * last) * step == 2 * (last * step);
    Hyperslab.MulMono(2 * last, 3 * interval + 2, step);
    assert (3 * interval + 2) * step == 3 * (interval * step) + 2 * step;
    if 2 * last >= interval + 3 {
      Hyperslab.MulMono(interval + 3, 2 * last, step);
      assert (interval + 3) * step == interval * step + 3 * step;
    }
  }

  /** Sizes in bytes against the limit: every file but the last is just over it, the last is at most
      half over it and two and a half steps, and more than half of it when it is not alone. */
  lemma ByteBounds(cur: int, end: int, limit: nat, step: nat)
    requires step > 0 && cur < end
    ensures var tiles := Tiles(cur, end, Interval(limit, step));
            |tiles| > 0
            && (forall i :: 0 <= i < |tiles| - 1 ==> limit < tiles[i].Size() * step <= limit + step)
            && 2 * (tiles[|tiles| - 1].Size() * step) <= 3 * limit + 5 * step
            && (|tiles| > 1 ==> 2 * (tiles[|tiles| - 1].Size() * step) > limit + 3 * step)
  {
    var n := Interval(limit, step);
    var tiles := Tiles(cur, end, n);
    TileSizes(cur, end, n);
    IntervalBytes(limit, step);
    LastBytes(n, tiles[|tiles| - 1].Size(), limit, step);
  }

  // ----- the documented bound of half the limit -----

  /** Length of the last span of a range of total steps, cut into spans of n. */
  function LastSize(total: nat, n: nat): nat
    requires n > 0
  {
    if IsOneSpan(total, n) then total else n / 2 + 2 + (total - n / 2 - 2) % n
  }

  lemma OneTimesMore(n: int, k: int)
    ensures n * k == (n - 1) * k + k
  {
  }

  lemma {:induction false} StepsOfTiles(cur: int, end: int, interval: nat)
    requires interval > 0 && cur < end
    ensures var tiles := Tiles(cur, end, interval);
            |tiles| > 0 && (|tiles| == 1 <==> IsOneSpan(end - cur + 1, interval))
            && end - cur + 1 == (|tiles| - 1) * interval + tiles[|tiles| - 1].Size()
    decreases end - cur
  {
    if IsOneSpan(end - cur + 1, interval) {
      TilesOne(cur, end, interval);
    } else {
      TilesMore(cur, end, interval);
      StepsOfTiles(cur + interval, end, interval);
      var rest := Tiles(cur + interval, end, interval);
      assert ([Span(cur, cur + interval - 1)] + rest)[|rest|] == rest[|rest| - 1];
      OneTimesMore(|rest|, interval);
    }
  }

  /** The length of the last span follows from the number of steps and the interval alone. */
  lemma LastTileSize(cur: int, end: int, interval: nat)
    requires interval > 0 && cur < end
    ensures var tiles := Tiles(cur, end, interval);
            |tiles| > 0 && tiles[|tiles| - 1].Size() == LastSize(end - cur + 1, interval)
  {
    var tiles := Tiles(cur, end, interval);
    StepsOfTiles(cur, end, interval);
    TileSizes(cur, end, interval);
    if |tiles| > 1 {
      var least := interval / 2 + 2;
      RemainderOf(end - cur + 1 - least, |tiles| - 1, tiles[|tiles| - 1].Size() - least, interval);
    }
  }

  /** At most half over the limit. */
  predicate WithinHalf(size: int, limit: nat, step: nat) {
    2 * (size * step) <= 3 * limit
  }

  ghost predicate AllWithinHalf(tiles: seq<Span>, limit: nat, step: nat) {
    forall i :: 0 <= i < |tiles| ==> WithinHalf(tiles[i].Size(), limit, step)
  }

  /** All files of a run stay within half over the limit if and only if the last one does and, when
      there are several, a file of one interval does; both can be computed before the run. */
  lemma WithinHalfExactly(cur: int, end: int, limit: nat, step: nat)
    requires step > 0 && cur < end
    ensures var n, total := Interval(limit, step), end - cur + 1;
            var tiles := Tiles(cur, end, n);
            AllWithinHalf(tiles, limit, step)
            <==> WithinHalf(LastSize(total, n), limit, step)
                 && (IsOneSpan(total, n) || WithinHalf(n, limit, step))
  {
    var n := Interval(limit, step);
    var tiles := Tiles(cur, end, n);
    TileSizes(cur, end, n);
    StepsOfTiles(cur, end, n);
    LastTileSize(cur, end, n);
    assert |tiles| > 1 ==> tiles[0].Size() == n;
  }

  /** For every limit and every step size some run exceeds the limit by more than half: the longest
      one that is still written to a single file. */
  lemma HalfIsExceeded(cur: int, limit: nat, step: nat)
    requires step > 0
    ensures var n := Interval(limit, step);
            var size := n + n / 2 + 1;
            var tiles := Tiles(cur, cur + size - 1, n);
            tiles == [Span(cur, cur + size - 1)] && !WithinHalf(tiles[0].Size(), limit, step)
  {
    var n := Interval(limit, step);
    var size := n + n / 2 + 1;
    IntervalBytes(limit, step);
    Hyperslab.MulMono(3 * n + 1, 2 * size, step);
    assert (2 * size) * step == 2 * (size * step);
    assert (3 * n + 1) * step == 3 * (n * step) + step;
    assert Tiles(cur + size, cur + size - 1, size) == [];
  }

  // ----- bytes of a written file -----

  function VarBytes(inq: Inq, v: Var): nat
  {
    DataTypeSize(v.dataType) * Hyperslab.Product(ShapeOf(inq, v))
  }

  lemma VarBytesSnoc(inq: Inq, v: Var)
    requires |v.dimId| > 0
    ensures VarBytes(inq, v)
         == VarBytes(inq, v.(dimId := v.dimId[..|v.dimId| - 1])) * DimAt(inq, v.dimId[|v.dimId| - 1]).arrayLen
  {
    var front := v.(dimId := v.dimId[..|v.dimId| - 1]);
    var n := DimAt(inq, v.dimId[|v.dimId| - 1]).arrayLen;
    assert ShapeOf(inq, v) == ShapeOf(inq, front) + [n];
    ProductSnoc(ShapeOf(inq, front), n);
    MulAssoc(DataTypeSize(v.dataType), Hyperslab.Product(ShapeOf(inq, front)), n);
  }

  lemma MulAssoc(a: nat, b: nat, c: nat)
    ensures a * (b * c) == (a * b) * c
  {
  }

  /** A variable that runs over time takes its step size once per step. */
  lemma {:induction false} VarBytesPerStep(inq: Inq, v: Var, d: nat, p: nat)
    requires p < |v.dimId| && v.dimId[p] == d
    requires forall j :: 0 <= j < |v.dimId| && j != p ==> v.dimId[j] != d
    ensures VarBytes(inq, v) == DimAt(inq, d).arrayLen * VarStepSize(inq, v, d)
    decreases |v.dimId|
  {
    var last := |v.dimId| - 1;
    var front := v.(dimId := v.dimId[..last]);
    VarBytesSnoc(inq, v);
    if p == last {
      TimelessBytes(inq, front, d);
    } else {
      VarBytesPerStep(inq, front, d, p);
      MulAssoc(DimAt(inq, d).arrayLen, VarStepSize(inq, front, d), DimAt(inq, v.dimId[last]).arrayLen);
    }
  }

  lemma {:induction false} TimelessBytes(inq: Inq, v: Var, d: nat)
    requires forall j :: 0 <= j < |v.dimId| ==> v.dimId[j] != d
    ensures VarBytes(inq, v) == VarStepSize(inq, v, d)
    decreases |v.dimId|
  {
    if |v.dimId| > 0 {
      VarBytesSnoc(inq, v);
      TimelessBytes(inq, v.(dimId := v.dimId[..|v.dimId| - 1]), d);
    } else {
      assert ShapeOf(inq, v) == [];
    }
  }

  function FileBytes(inq: Inq, vars: seq<Var>): nat
  {
    if |vars| == 0 then 0
    else FileBytes(inq, vars[..|vars| - 1]) + VarBytes(inq, vars[|vars| - 1])
  }

  ghost predicate TimeAtMostOnce(v: Var, d: nat) {
    forall i, j :: 0 <= i < j < |v.dimId| ==> !(v.dimId[i] == d && v.dimId[j] == d)
  }

  /** A file of c >= 1 steps holds at most c times the step size the tiling reckons with. */
  lemma {:induction false} FileBytesBound(inq: Inq, vars: seq<Var>, d: nat)
    requires d < |inq.dims| && inq.dims[d].arrayLen > 0
    requires forall k :: 0 <= k < |vars| ==> TimeAtMostOnce(vars[k], d)
    ensures FileBytes(inq, vars) <= inq.dims[d].arrayLen * StepSizeOf(inq, vars, d)
  {
    if |vars| > 0 {
      var last := |vars| - 1;
      FileBytesBound(inq, vars[..last], d);
      VarBytesBound(inq, vars[last], d);
      MulDistributes(inq.dims[d].arrayLen, StepSizeOf(inq, vars[..last], d), VarStepSize(inq, vars[last], d));
    }
  }

  ghost predicate RunsOverTime(v: Var, d: nat) {
    TimeAtMostOnce(v, d) && d in v.dimId
  }

  /** When all variables run over time, the file holds exactly its steps' sizes. */
  lemma {:induction false} FileBytesOfSteps(inq: Inq, vars: seq<Var>, d: nat)
    requires d < |inq.dims| && forall k :: 0 <= k < |vars| ==> RunsOverTime(vars[k], d)
    ensures FileBytes(inq, vars) == inq.dims[d].arrayLen * StepSizeOf(inq, vars, d)
  {
    if |vars| > 0 {
      var last := |vars| - 1;
      FileBytesOfSteps(inq, vars[..last], d);
      var p :| 0 <= p < |vars[last].dimId| && vars[last].dimId[p] == d;
      VarBytesPerStep(inq, vars[last], d, p);
      MulDistributes(inq.dims[d].arrayLen, StepSizeOf(inq, vars[..last], d), VarStepSize(inq, vars[last], d));
    }
  }

  lemma MulDistributes(a: nat, b: nat, c: nat)
    ensures a * (b + c) == a * b + a * c
  {
  }

  lemma VarBytesBound(inq: Inq, v: Var, d: nat)
    requires d < |inq.dims| && inq.dims[d].arrayLen > 0 && TimeAtMostOnce(v, d)
    ensures VarBytes(inq, v) <= inq.dims[d].arrayLen * VarStepSize(inq, v, d)
  {
    if p :| 0 <= p < |v.dimId| && v.dimId[p] == d {
      VarBytesPerStep(inq, v, d, p);
    } else {
      TimelessBytes(inq, v, d);
      Hyperslab.MulMono(1, inq.dims[d].arrayLen, VarStepSize(inq, v, d));
    }
  }

  // ----- where to resume -----

  /** Conversion of a time value to unsigned int. */
  function Unsigned(t: int): nat {
    t % 0x1_0000_0000
  }

  ghost predicate Ascending(times: seq<int>) {
    forall i, j :: 0 <= i <= j < |times| ==> Unsigned(times[i]) <= Unsigned(times[j])
  }

  /** The least index whose time exceeds the end time. */
  ghost predicate IsFirstAfter(times: seq<int>, endTime: nat, n: int) {
    0 <= n <= |times|
    && (forall i :: 0 <= i < n ==> Unsigned(times[i]) <= endTime)
    && (forall i :: n <= i < |times| ==> Unsigned(times[i]) > endTime)
  }

  /** Where block k of a backward search ends; the blocks are counted from the end of the times. */
  function BlockEnd(len: nat, blockSize: nat, k: nat): (e: int)
    ensures e == len - k * blockSize
  {
    if k == 0 then len else BlockEnd(len, blockSize, k - 1) - blockSize
  }

  function BlockStart(len: nat, blockSize: nat, k: nat): (s: nat)
    ensures s == if len < (k + 1) * blockSize then 0 else len - (k + 1) * blockSize
  {
    var next := BlockEnd(len, blockSize, k) - blockSize;
    if next < 0 then 0 else next
  }

  /** Block k begins behind the end time. */
  predicate BeginsLater(times: seq<int>, endTime: nat, blockSize: nat, k: nat) {
    var lo := BlockStart(|times|, blockSize, k);
    lo < |times| && Unsigned(times[lo]) > endTime
  }

  /** Block k is the last one that does not begin behind the end time, and the times of its steps
      before n, and of no more, are not behind it. */
  ghost predicate ResumesIn(times: seq<int>, endTime: nat, blockSize: nat, k: nat, n: int) {
    var lo, hi := BlockStart(|times|, blockSize, k), BlockEnd(|times|, blockSize, k);
    lo < n <= hi <= |times|
    && (forall i :: lo <= i < n ==> Unsigned(times[i]) <= endTime)
    && (n < hi ==> Unsigned(times[n]) > endTime)
    && forall j: nat :: j < k ==> BeginsLater(times, endTime, blockSize, j)
  }

  /** Where the backward search resumes, in whatever order the times are. */
  ghost predicate IsResumePoint(times: seq<int>, endTime: nat, blockSize: nat, n: int) {
    exists k: nat :: ResumesIn(times, endTime, blockSize, k, n)
  }

  lemma {:induction false} BlocksAscend(len: nat, blockSize: nat, j: nat, k: nat)
    requires j < k
    ensures BlockEnd(len, blockSize, k) + blockSize <= BlockEnd(len, blockSize, j) <= len
  {
    if j < k - 1 {
      BlocksAscend(len, blockSize, j, k - 1);
    } else if j > 0 {
      BlocksAscend(len, blockSize, j - 1, j);
    }
  }

  /** On ascending times a resume point is the least index with a later time. */
  lemma ResumePointIsFirstAfter(times: seq<int>, endTime: nat, blockSize: nat, n: int)
    requires blockSize > 0 && Ascending(times) && IsResumePoint(times, endTime, blockSize, n)
    ensures n >= 1 && IsFirstAfter(times, endTime, n)
  {
    var k: nat :| ResumesIn(times, endTime, blockSize, k, n);
    assert Unsigned(times[n - 1]) <= endTime;
    if n == BlockEnd(|times|, blockSize, k) && k > 0 {
      assert BeginsLater(times, endTime, blockSize, k - 1);
    }
  }

  /** The search from block k on finds a resume point when the first time is not behind the end time. */
  lemma {:induction false} SearchFinds(times: seq<int>, endTime: nat, blockSize: nat, k: nat) returns (n: int)
    requires blockSize > 0 && |times| > 0 && Unsigned(times[0]) <= endTime && BlockEnd(|times|, blockSize, k) > 0
    requires forall j: nat :: j < k ==> BeginsLater(times, endTime, blockSize, j)
    ensures IsResumePoint(times, endTime, blockSize, n)
    decreases BlockEnd(|times|, blockSize, k)
  {
    var lo, hi := BlockStart(|times|, blockSize, k), BlockEnd(|times|, blockSize, k);
    if k > 0 {
      BlocksAscend(|times|, blockSize, 0, k);
    }
    if Unsigned(times[lo]) > endTime {
      n := SearchFinds(times, endTime, blockSize, k + 1);
    } else {
      n := lo + 1;
      while n < hi && Unsigned(times[n]) <= endTime
        invariant lo < n <= hi && forall i :: lo <= i < n ==> Unsigned(times[i]) <= endTime
      {
        n := n + 1;
      }
      assert ResumesIn(times, endTime, blockSize, k, n);
    }
  }

  lemma FirstAfterUnique(times: seq<int>, endTime: nat, n: int, m: int)
    requires IsFirstAfter(times, endTime, n) && IsFirstAfter(times, endTime, m)
    ensures n == m
  {
    var a, b := if n < |times| then times[n] else 0, if m < |times| then times[m] else 0;
  }

  /** On ascending times the search resumes at the least index with a later time, if that is not the
      first, and nowhere else. */
  lemma ResumesExactly(times: seq<int>, endTime: nat, blockSize: nat, n: int)
    requires blockSize > 0 && Ascending(times)
    ensures IsResumePoint(times, endTime, blockSize, n) <==> n >= 1 && IsFirstAfter(times, endTime, n)
  {
    if IsResumePoint(times, endTime, blockSize, n) {
      ResumePointIsFirstAfter(times, endTime, blockSize, n);
    }
    if n >= 1 && IsFirstAfter(times, endTime, n) {
      var found := SearchFinds(times, endTime, blockSize, 0);
      ResumePointIsFirstAfter(times, endTime, blockSize, found);
      FirstAfterUnique(times, endTime, found, n);
    }
  }

  /** getTimeInxForArch: reads backward one block at a time, and within a block forward up to the
      first time that exceeds the end time. */
  method GetTimeInxForArch(times: seq<int>, prevEndTime: nat, blockSize: nat) returns (r: Result<nat>)
    requires blockSize > 0
    ensures r.Ok? ==> 1 <= r.value <= |times| && Unsigned(times[r.value - 1]) <= prevEndTime
    ensures r.Ok? ==> IsResumePoint(times, prevEndTime, blockSize, r.value)
    ensures r.Err? ==> forall n :: !IsResumePoint(times, prevEndTime, blockSize, n)
    ensures r.Err? ==> r.error == NETCDF_DIM_MISMATCH_ERR
    ensures r.Err? ==> |times| == 0 || Unsigned(times[0]) > prevEndTime
  {
    var remain := |times|;
    var readCount := if remain <= blockSize then remain else blockSize;
    ghost var k: nat := 0;
    while remain > 0
      invariant 0 <= remain <= |times| && readCount == if remain <= blockSize then remain else blockSize
      invariant remain == if BlockEnd(|times|, blockSize, k) < 0 then 0 else BlockEnd(|times|, blockSize, k)
      invariant forall j: nat :: j < k ==> BeginsLater(times, prevEndTime, blockSize, j)
      invariant k > 0 ==> BlockStart(|times|, blockSize, k - 1) == remain
      decreases remain
    {
      remain := remain - readCount;
      var buf := times[remain..remain + readCount];
      var n := FirstLater(buf, prevEndTime);
      if n > 0 {
        assert forall i :: remain <= i < remain + readCount ==> times[i] == buf[i - remain];
        assert ResumesIn(times, prevEndTime, blockSize, k, remain + n);
        return Ok(remain + n);
      }
      assert times[remain] == buf[0];
      readCount := if remain <= blockSize then remain else blockSize;
      k := k + 1;
    }
    NothingFound(times, prevEndTime, blockSize, k);
    r := Err(NETCDF_DIM_MISMATCH_ERR);
  }

  /** The loop over the times of a block: how many of them, from the first on, are not behind the end. */
  method FirstLater(buf: seq<int>, prevEndTime: nat) returns (n: nat)
    ensures n <= |buf| && (forall i :: 0 <= i < n ==> Unsigned(buf[i]) <= prevEndTime)
    ensures n < |buf| ==> Unsigned(buf[n]) > prevEndTime
  {
    var goodInx := -1;
    var i := 0;
    while i < |buf|
      invariant 0 <= i <= |buf| && goodInx == i - 1
      invariant forall k :: 0 <= k < i ==> Unsigned(buf[k]) <= prevEndTime
    {
      if Unsigned(buf[i]) > prevEndTime {
        break;
      }
      goodInx := i;
      i := i + 1;
    }
    n := goodInx + 1;
  }

  lemma NothingFound(times: seq<int>, endTime: nat, blockSize: nat, k: nat)
    requires BlockEnd(|times|, blockSize, k) <= 0
    requires forall j: nat :: j < k ==> BeginsLater(times, endTime, blockSize, j)
    ensures forall n :: !IsResumePoint(times, endTime, blockSize, n)
    ensures |times| > 0 ==> Unsigned(times[0]) > endTime
  {
    forall n, j: nat ensures !ResumesIn(times, endTime, blockSize, j, n) {
      if j < k {
        assert BeginsLater(times, endTime, blockSize, j);
      } else if j > k {
        BlocksAscend(|times|, blockSize, k, j);
      }
    }
    assert k > 0 ==> BeginsLater(times, endTime, blockSize, k - 1);
  }

  /** Resuming from the end time of the last archived step e continues exactly behind it if and only
      if the next step has a later time. */
  lemma ResumeExactly(times: seq<int>, e: nat, n: int)
    requires Ascending(times) && e < |times| && IsFirstAfter(times, Unsigned(times[e]), n)
    ensures n == e + 1 <==> (e + 1 < |times| ==> Unsigned(times[e + 1]) > Unsigned(times[e]))
  {
    assert n > e;
  }
}
