/** Bytes of the files a run of the archiver writes, against the limit it has been given. */
module ArchiveSize {
  import opened NetCdf
  import opened Subset
  import opened Tiling
  import opened Archive

  /** Bytes of the values in the file of a span. */
  ghost function WindowBytes(src: NcFile, d: nat, tv: nat, s: Span): nat {
    var g := Window(src, d, tv, s.lo, s.hi);
    FileBytes(g.inq, g.inq.vars)
  }

  lemma {:induction false} SameVarStep(inq: Inq, inq': Inq, v: Var, d: nat)
    requires forall i: nat :: i != d ==> DimAt(inq, i) == DimAt(inq', i)
    ensures VarStepSize(inq, v, d) == VarStepSize(inq', v, d)
    decreases |v.dimId|
  {
    if |v.dimId| > 0 {
      SameVarStep(inq, inq', v.(dimId := v.dimId[..|v.dimId| - 1]), d);
    }
  }

  lemma {:induction false} SameStep(inq: Inq, inq': Inq, vars: seq<Var>, d: nat)
    requires forall i: nat :: i != d ==> DimAt(inq, i) == DimAt(inq', i)
    ensures StepSizeOf(inq, vars, d) == StepSizeOf(inq', vars, d)
  {
    if |vars| > 0 {
      SameStep(inq, inq', vars[..|vars| - 1], d);
      SameVarStep(inq, inq', vars[|vars| - 1], d);
    }
  }

  /** Every variable has the time dimension at most once. */
  ghost predicate TimeOnce(src: NcFile, d: nat) {
    forall k :: 0 <= k < |src.inq.vars| ==> TimeAtMostOnce(src.inq.vars[k], d)
  }

  ghost predicate AllOverTime(src: NcFile, d: nat) {
    forall k :: 0 <= k < |src.inq.vars| ==> RunsOverTime(src.inq.vars[k], d)
  }

  /** The window of a span has the steps of the span, of the size they have in the series. */
  lemma WindowSteps(src: NcFile, d: nat, tv: nat, s: Span)
    requires IsSeries(src, d, tv) && 0 <= s.lo <= s.hi < Length(src, d)
    ensures var g := Window(src, d, tv, s.lo, s.hi);
            g.inq.vars == src.inq.vars && d < |g.inq.dims| && g.inq.dims[d].arrayLen == s.Size()
            && StepSize(g.inq, d) == StepSize(src.inq, d)
  {
    var g := Window(src, d, tv, s.lo, s.hi);
    WindowIsSeries(src, d, tv, s.lo, s.hi);
    WindowDumpable(src, d, tv, s.lo, s.hi);
    OtherNames(src, d, tv);
    SelectWindow(src, d, s.lo, s.hi);
    SameStep(g.inq, src.inq, src.inq.vars, d);
  }

  lemma WindowBytesBound(src: NcFile, d: nat, tv: nat, s: Span)
    requires IsSeries(src, d, tv) && 0 <= s.lo <= s.hi < Length(src, d) && TimeOnce(src, d)
    ensures WindowBytes(src, d, tv, s) <= s.Size() * StepSize(src.inq, d)
    ensures AllOverTime(src, d) ==> WindowBytes(src, d, tv, s) == s.Size() * StepSize(src.inq, d)
  {
    WindowSteps(src, d, tv, s);
    var g := Window(src, d, tv, s.lo, s.hi);
    FileBytesBound(g.inq, g.inq.vars, d);
    if AllOverTime(src, d) {
      FileBytesOfSteps(g.inq, g.inq.vars, d);
    }
  }

  /** The pending spans of a run from a step of the series on: the loop's spans, all inside the series. */
  lemma PendingSpan(src: NcFile, d: nat, tv: nat, from: nat, limit: nat, k: nat)
    requires IsSeries(src, d, tv) && k < |Pending(src, d, from, Length(src, d) - 1, limit)|
    ensures StepSize(src.inq, d) > 0 && from < Length(src, d) - 1
    ensures var tiles := Pending(src, d, from, Length(src, d) - 1, limit);
            tiles == Tiles(from, Length(src, d) - 1, Interval(limit, StepSize(src.inq, d)))
            && 0 <= tiles[k].lo <= tiles[k].hi < Length(src, d)
  {
    StepSizePositive(src, d, tv);
    var n := Interval(limit, StepSize(src.inq, d));
    TilesEmpty(from, Length(src, d) - 1, n);
    TilesPartition(from, Length(src, d) - 1, n);
    SpanInside(Tiles(from, Length(src, d) - 1, n), from, Length(src, d) - 1, k);
  }

  /** No file of a run exceeds the limit by more than half of it and two and a half steps; all but the
      last exceed it by one step at most. */
  lemma RunBytes(src: NcFile, d: nat, tv: nat, from: nat, limit: nat, k: nat)
    requires IsSeries(src, d, tv) && TimeOnce(src, d) && k < |Pending(src, d, from, Length(src, d) - 1, limit)|
    ensures var tiles, step := Pending(src, d, from, Length(src, d) - 1, limit), StepSize(src.inq, d);
            2 * WindowBytes(src, d, tv, tiles[k]) <= 3 * limit + 5 * step
            && (k < |tiles| - 1 ==> WindowBytes(src, d, tv, tiles[k]) <= limit + step)
  {
    PendingSpan(src, d, tv, from, limit, k);
    WindowBytesBound(src, d, tv, Pending(src, d, from, Length(src, d) - 1, limit)[k]);
    ByteBounds(from, Length(src, d) - 1, limit, StepSize(src.inq, d));
  }

  /** The file of a span stays within half over the limit. */
  ghost predicate FileWithinHalf(src: NcFile, d: nat, tv: nat, s: Span, limit: nat) {
    2 * WindowBytes(src, d, tv, s) <= 3 * limit
  }

  /** A file of a run on a series of which all variables run over time holds its steps' sizes. */
  lemma SpanWithinHalf(src: NcFile, d: nat, tv: nat, from: nat, limit: nat, k: nat)
    requires IsSeries(src, d, tv) && AllOverTime(src, d) && k < |Pending(src, d, from, Length(src, d) - 1, limit)|
    ensures var s := Pending(src, d, from, Length(src, d) - 1, limit)[k];
            FileWithinHalf(src, d, tv, s, limit) <==> WithinHalf(s.Size(), limit, StepSize(src.inq, d))
  {
    PendingSpan(src, d, tv, from, limit, k);
    WindowBytesBound(src, d, tv, Pending(src, d, from, Length(src, d) - 1, limit)[k]);
  }

  /** When all variables run over time, the files of a run stay within half over the limit exactly under
      the condition on the number of pending steps, the limit and the step size. */
  lemma RunWithinHalfExactly(src: NcFile, d: nat, tv: nat, from: nat, limit: nat)
    requires IsSeries(src, d, tv) && AllOverTime(src, d) && from < Length(src, d) - 1
    ensures StepSize(src.inq, d) > 0
    ensures var tiles := Pending(src, d, from, Length(src, d) - 1, limit);
            var step, total := StepSize(src.inq, d), Length(src, d) - from;
            var n := Interval(limit, step);
            (forall k :: 0 <= k < |tiles| ==> FileWithinHalf(src, d, tv, tiles[k], limit))
            <==> WithinHalf(LastSize(total, n), limit, step)
                 && (IsOneSpan(total, n) || WithinHalf(n, limit, step))
  {
    SpansWithinHalf(src, d, tv, from, limit);
    WithinHalfExactly(from, Length(src, d) - 1, limit, StepSize(src.inq, d));
  }

  lemma SpansWithinHalf(src: NcFile, d: nat, tv: nat, from: nat, limit: nat)
    requires IsSeries(src, d, tv) && AllOverTime(src, d)
    ensures StepSize(src.inq, d) > 0
    ensures var tiles := Pending(src, d, from, Length(src, d) - 1, limit);
            tiles == Tiles(from, Length(src, d) - 1, Interval(limit, StepSize(src.inq, d)))
            && ((forall k :: 0 <= k < |tiles| ==> FileWithinHalf(src, d, tv, tiles[k], limit))
                <==> AllWithinHalf(tiles, limit, StepSize(src.inq, d)))
  {
    StepSizePositive(src, d, tv);
    var tiles := Pending(src, d, from, Length(src, d) - 1, limit);
    forall k | 0 <= k < |tiles|
      ensures FileWithinHalf(src, d, tv, tiles[k], limit)
         <==> WithinHalf(tiles[k].Size(), limit, StepSize(src.inq, d))
    {
      SpanWithinHalf(src, d, tv, from, limit, k);
    }
  }

  /** A run on such a series that writes one file of more than one and a half times the limit: as many
      steps are pending as still go into one file. */
  lemma RunExceedsHalf(src: NcFile, d: nat, tv: nat, from: nat, limit: nat)
    requires IsSeries(src, d, tv) && AllOverTime(src, d) && StepSize(src.inq, d) > 0
    requires var n := Interval(limit, StepSize(src.inq, d)); Length(src, d) - from == n + n / 2 + 1
    ensures Pending(src, d, from, Length(src, d) - 1, limit) == [Span(from, Length(src, d) - 1)]
    ensures !FileWithinHalf(src, d, tv, Span(from, Length(src, d) - 1), limit)
  {
    HalfIsExceeded(from, limit, StepSize(src.inq, d));
    WindowBytesBound(src, d, tv, Span(from, Length(src, d) - 1));
  }
}
