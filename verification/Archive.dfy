/** One run of the archiver: where it starts, the files it writes, and the index it rebuilds. */
module Archive {
  import opened NetCdf
  import opened Subset
  import opened Tiling
  import opened AggInfo

  /** The data objects of the aggregate collection and the content of its index file. */
  datatype Archive = Archive(files: map<string, NcFile>, aggInfo: Option<seq<AggElement>>)

  // ----- index elements -----

  function TimeAtIndex(f: NcFile, v: nat, i: int, readError: nat): nat {
    if v < |f.values| && 0 <= i < |f.values[v]| then Unsigned(f.values[v][i]) else readError
  }

  function ElementOf(f: NcFile, d: nat, tv: nat, path: string): AggElement {
    TimeElement(f, d, tv, path, 0)
  }

  /** The time dimension and the first variable of its name. */
  ghost predicate IsTime(inq: Inq, d: nat, v: nat) {
    IsTimeDim(inq, d) && IsTimeVar(inq, d, v)
  }

  ghost predicate HasTime(inq: Inq) {
    exists d: nat, v: nat :: IsTime(inq, d, v)
  }

  /** The archiver goes on only when the time variable has one dimension. */
  ghost predicate TimeUsable(inq: Inq) {
    exists d: nat, v: nat :: IsTime(inq, d, v) && |inq.vars[v].dimId| == 1
  }

  lemma TimeUsableIf(inq: Inq, d: nat, v: nat)
    requires IsTime(inq, d, v)
    ensures TimeUsable(inq) <==> |inq.vars[v].dimId| == 1
  {
    if TimeUsable(inq) {
      var d': nat, v': nat :| IsTime(inq, d', v') && |inq.vars[v'].dimId| == 1;
      TimeVarUnique(inq, d, v, d', v');
    }
  }

  lemma TimeVarUnique(inq: Inq, d: int, v: int, d': int, v': int)
    requires IsTimeDim(inq, d) && IsTimeVar(inq, d, v) && IsTimeDim(inq, d') && IsTimeVar(inq, d', v')
    ensures d == d' && v == v'
  {
    assert v < v' ==> OtherVar(inq, d, v);
    assert v' < v ==> OtherVar(inq, d, v');
  }

  /** The time dimension and its variable; fails with NETCDF_DIM_MISMATCH_ERR when one is missing. */
  method FindTimeVar(inq: Inq) returns (found: bool, d: nat, v: nat)
    ensures found ==> IsTime(inq, d, v)
    ensures found <==> HasTime(inq)
  {
    d, v := 0, 0;
    var dim := FindTimeDim(inq);
    if dim < 0 {
      return false, d, v;
    }
    d := dim;
    while v < |inq.vars|
      invariant 0 <= v <= |inq.vars|
      invariant forall k: nat :: k < v ==> OtherVar(inq, d, k)
    {
      if inq.vars[v].name == inq.dims[d].name {
        assert IsTime(inq, d, v);
        return true, d, v;
      }
      v := v + 1;
    }
    found := false;
    forall dim: nat, tv: nat ensures !IsTime(inq, dim, tv) {
      assert tv < |inq.vars| ==> OtherVar(inq, d, tv);
    }
  }

  /** The element of a file: its first and last time and its length. A time that cannot be read is
      stored as the error code. */
  ghost predicate IsElement(f: NcFile, path: string, readError: nat, e: AggElement) {
    exists d: nat, v: nat :: IsTime(f.inq, d, v) && e == TimeElement(f, d, v, path, readError)
  }

  /** The element tells the file's path, the length of its time dimension, and its first and last time as
      32-bit unsigned numbers. */
  ghost predicate Tells(f: NcFile, d: nat, v: nat, path: string, readError: nat, e: AggElement) {
    d < |f.inq.dims| && e.objPath == path && e.arraylen == f.inq.dims[d].arrayLen
    && IsTimeAt(f, v, 0, readError, e.startTime) && IsTimeAt(f, v, f.inq.dims[d].arrayLen - 1, readError, e.endTime)
  }

  predicate IsTimeAt(f: NcFile, v: nat, i: int, readError: nat, t: nat) {
    if v < |f.values| && 0 <= i < |f.values[v]| then t < 0x1_0000_0000 && (f.values[v][i] - t) % 0x1_0000_0000 == 0
    else t == readError
  }

  lemma SeriesElement(f: NcFile, d: nat, tv: nat, path: string, readError: nat, e: AggElement)
    requires IsSeries(f, d, tv) && Length(f, d) > 0 && IsElement(f, path, readError, e)
    ensures e == ElementOf(f, d, tv, path)
  {
    var d': nat, v: nat :| IsTime(f.inq, d', v) && e == TimeElement(f, d', v, path, readError);
    TimeVarUnique(f.inq, d', v, d, tv);
    TimesLength(f, d, tv);
  }

  lemma SeriesHasElement(f: NcFile, d: nat, tv: nat, path: string)
    requires IsSeries(f, d, tv)
    ensures IsElement(f, path, 0, ElementOf(f, d, tv, path))
  {
    assert IsTime(f.inq, d, tv);
  }

  /** _rsNcGetAggElement */
  method GetAggElement(f: NcFile, path: string, readError: nat) returns (r: Result<AggElement>)
    requires f.Valid()
    ensures r.Ok? <==> HasTime(f.inq)
    ensures r.Err? ==> r.error == NETCDF_DIM_MISMATCH_ERR
    ensures r.Ok? ==> IsElement(f, path, readError, r.value)
    ensures r.Ok? ==> exists d: nat, v: nat :: IsTime(f.inq, d, v) && Tells(f, d, v, path, readError, r.value)
  {
    var found, d, v := FindTimeVar(f.inq);
    if !found {
      return Err(NETCDF_DIM_MISMATCH_ERR);
    }
    var arraylen: int := f.inq.dims[d].arrayLen;
    r := Ok(AggElement(TimeAtIndex(f, v, 0, readError), TimeAtIndex(f, v, arraylen - 1, readError), arraylen, path));
    assert IsTime(f.inq, d, v) && r.value == TimeElement(f, d, v, path, readError);
    assert Tells(f, d, v, path, readError, r.value);
  }

  function TimeElement(f: NcFile, d: nat, v: nat, path: string, readError: nat): AggElement {
    AggElement(TimeAtIndex(f, v, 0, readError), TimeAtIndex(f, v, Length(f, d) - 1, readError), Length(f, d), path)
  }

  // ----- the files of a run -----

  /** Name of the k-th file of a run. */
  function NthName(basePath: string, next: nat, k: nat): string {
    FileName(basePath, next + k)
  }

  /** What a run is about to write: the spans of a series under consecutive numbers, as far as the
      server can take files. */
  datatype Plan = Plan(src: NcFile, d: nat, tv: nat, basePath: string, next: nat, tiles: seq<Span>, writable: nat)

  /** The collection after the first m spans of a plan. */
  ghost function After(files: map<string, NcFile>, plan: Plan, m: nat): map<string, NcFile> {
    if m == 0 || m > |plan.tiles| then files
    else
      After(files, plan, m - 1)[NthName(plan.basePath, plan.next, m - 1) :=
        Window(plan.src, plan.d, plan.tv, plan.tiles[m - 1].lo, plan.tiles[m - 1].hi)]
  }

  /** Span k can be written: its name is not registered yet, its window can be read, and the server
      takes another file. */
  ghost predicate Free(files: map<string, NcFile>, plan: Plan, k: nat) {
    k < |plan.tiles| && k < plan.writable
    && Dumpable(plan.src, TimeWindow(plan.src, plan.d, plan.tiles[k].lo, plan.tiles[k].hi))
    && NthName(plan.basePath, plan.next, k) !in After(files, plan, k)
  }

  lemma FreeExactly(files: map<string, NcFile>, plan: Plan, k: nat, start: int, end: int, objPath: string,
                    canWrite: bool)
    requires k < |plan.tiles| && plan.tiles[k] == Span(start, end)
    requires objPath == NthName(plan.basePath, plan.next, k) && (canWrite <==> k < plan.writable)
    ensures Free(files, plan, k)
       <==> objPath !in After(files, plan, k) && canWrite
            && Dumpable(plan.src, TimeWindow(plan.src, plan.d, start, end))
    ensures After(files, plan, k + 1)
         == After(files, plan, k)[objPath := Window(plan.src, plan.d, plan.tv, start, end)]
  {
  }

  /** Exactly the first m spans are written: up to the end of the plan or the first that cannot be. */
  ghost predicate Wrote(files: map<string, NcFile>, plan: Plan, m: nat, files': map<string, NcFile>) {
    m <= |plan.tiles| && files' == After(files, plan, m) && WrittenUpTo(files, plan, m)
    && (m < |plan.tiles| ==> !Free(files, plan, m))
  }

  /** Each of the first m spans could be written. */
  ghost predicate WrittenUpTo(files: map<string, NcFile>, plan: Plan, m: nat) {
    forall k: nat :: k < m ==> Free(files, plan, k)
  }

  lemma OneMoreWritten(files: map<string, NcFile>, plan: Plan, m: nat)
    requires WrittenUpTo(files, plan, m) && Free(files, plan, m)
    ensures WrittenUpTo(files, plan, m + 1)
  {
  }

  /** Where the loop that writes a plan is: the next number, how many files the server still takes, and
      the spans that are left. */
  datatype Cursor = Cursor(nextNumber: int, left: int, spans: seq<Span>)

  ghost predicate CursorAt(plan: Plan, m: nat, c: Cursor) {
    m <= |plan.tiles| && c == Cursor(plan.next + m, plan.writable - m, plan.tiles[m..])
  }

  /** The loop's next span is the next of the plan. */
  lemma NextCursor(plan: Plan, m: nat, cur: int, end: int, interval: nat, nextNumber: int, left: int)
    requires interval > 0 && cur < end && CursorAt(plan, m, Cursor(nextNumber, left, Tiles(cur, end, interval)))
    ensures var n := NextInterval(cur, end, interval);
            var hi := LastIndex(cur, end, n);
            m < |plan.tiles| && plan.tiles[m] == Span(cur, hi) && hi >= cur
            && CursorAt(plan, m + 1, Cursor(nextNumber + 1, left - 1, Tiles(hi + 1, end, n)))
  {
    NextTile(plan.tiles, m, cur, end, interval);
  }

  /** The loop has written the first m spans of the plan and goes on with the next. */
  ghost predicate Progress(before: map<string, NcFile>, plan: Plan, m: nat, c: Cursor, files: map<string, NcFile>) {
    CursorAt(plan, m, c) && WrittenUpTo(before, plan, m) && files == After(before, plan, m)
  }

  lemma ProgressAtStart(files: map<string, NcFile>, plan: Plan)
    ensures Progress(files, plan, 0, Cursor(plan.next, plan.writable, plan.tiles), files)
  {
    assert plan.tiles[0..] == plan.tiles;
  }

  lemma ProgressAtEnd(before: map<string, NcFile>, plan: Plan, m: nat, cur: int, end: int, interval: nat,
                      nextNumber: int, left: int, files: map<string, NcFile>)
    requires interval > 0 && cur >= end
    requires Progress(before, plan, m, Cursor(nextNumber, left, Tiles(cur, end, interval)), files)
    ensures m == |plan.tiles| && Wrote(before, plan, m, files)
  {
    NextTile(plan.tiles, m, cur, end, interval);
  }

  ghost predicate OfPlan(plan: Plan, src: NcFile, d: nat, basePath: string) {
    (plan.src, plan.d, plan.basePath) == (src, d, basePath)
  }

  lemma {:induction false} StepSizeAtLeast(inq: Inq, vars: seq<Var>, d: nat, k: nat)
    requires k < |vars|
    ensures StepSizeOf(inq, vars, d) >= VarStepSize(inq, vars[k], d)
  {
    if k < |vars| - 1 {
      StepSizeAtLeast(inq, vars[..|vars| - 1], d, k);
    }
  }

  lemma StepSizePositive(f: NcFile, d: nat, tv: nat)
    ensures IsTimed(f, d, tv) ==> StepSize(f.inq, d) > 0
  {
    if IsTimed(f, d, tv) {
      StepSizeAtLeast(f.inq, f.inq.vars, d, tv);
      var v := f.inq.vars[tv];
      assert v.dimId[..0] == [];
    }
  }

  /** The spans of a run over the time indices from..to. */
  function Pending(src: NcFile, d: nat, from: int, to: int, archFileSize: nat): seq<Span> {
    if src.Valid() && StepSize(src.inq, d) > 0
    then Tiles(from, to, Interval(archFileSize, StepSize(src.inq, d)))
    else []
  }

  /** Number of the first file of a run: 0 for a new archive, else one above the highest number
      that occurs in the index. */
  function FirstNumber(aggInfo: Option<seq<AggElement>>, basePath: string): nat {
    match aggInfo case None => 0 case Some(elements) => NextNumber(elements, basePath)
  }

  ghost predicate IsListing(listing: seq<string>, paths: set<string>) {
    (forall i, j :: 0 <= i < j < |listing| ==> listing[i] != listing[j])
    && (forall p :: p in listing <==> p in paths)
  }

  ghost predicate AllSeries(files: map<string, NcFile>, d: nat, tv: nat) {
    forall p :: p in files ==> IsSeries(files[p], d, tv) && Length(files[p], d) > 0
  }

  function Elements(files: map<string, NcFile>, d: nat, tv: nat, listing: seq<string>): (r: seq<AggElement>)
    requires forall p :: p in listing ==> p in files
    ensures |r| == |listing|
  {
    seq(|listing|, i requires 0 <= i < |listing| => ElementOf(files[listing[i]], d, tv, listing[i]))
  }

  ghost predicate IsIndexOf(elements: seq<AggElement>, files: map<string, NcFile>, d: nat, tv: nat) {
    exists listing :: IsListing(listing, files.Keys) && elements == Built(Elements(files, d, tv, listing))
  }

  ghost predicate ElementAt(files: map<string, NcFile>, listing: seq<string>, added: seq<AggElement>,
                            readError: nat, k: nat) {
    k < |listing| && k < |added| && listing[k] in files && IsElement(files[listing[k]], listing[k], readError, added[k])
  }

  /** The elements of the listed files, in the order of the listing. */
  ghost predicate AreElements(files: map<string, NcFile>, listing: seq<string>, added: seq<AggElement>,
                              readError: nat) {
    |added| == |listing| && forall k: nat :: k < |listing| ==> ElementAt(files, listing, added, readError, k)
  }

  ghost predicate BuiltFrom(elements: seq<AggElement>, files: map<string, NcFile>, listing: seq<string>,
                            added: seq<AggElement>, readError: nat) {
    IsListing(listing, files.Keys) && AreElements(files, listing, added, readError) && elements == Built(added)
  }

  /** An index of the files: their elements added in some order. */
  ghost predicate Indexes(elements: seq<AggElement>, files: map<string, NcFile>) {
    exists listing, added, readError: nat :: BuiltFrom(elements, files, listing, added, readError)
  }

  /** Of files that are all parts of one kind of series, the elements carry times at known places. */
  lemma SeriesIndex(elements: seq<AggElement>, files: map<string, NcFile>, d: nat, tv: nat)
    requires AllSeries(files, d, tv)
    ensures Indexes(elements, files) <==> IsIndexOf(elements, files, d, tv)
  {
    if Indexes(elements, files) {
      var listing, added, readError: nat :| BuiltFrom(elements, files, listing, added, readError);
      ListedFiles(listing, files);
      forall k: nat | k < |listing| ensures added[k] == Elements(files, d, tv, listing)[k] {
        assert ElementAt(files, listing, added, readError, k);
        SeriesElement(files[listing[k]], d, tv, listing[k], readError, added[k]);
      }
      assert added == Elements(files, d, tv, listing);
    }
    if IsIndexOf(elements, files, d, tv) {
      var listing :| IsListing(listing, files.Keys) && elements == Built(Elements(files, d, tv, listing));
      ListedFiles(listing, files);
      var added := Elements(files, d, tv, listing);
      forall k: nat | k < |listing| ensures ElementAt(files, listing, added, 0, k) {
        SeriesHasElement(files[listing[k]], d, tv, listing[k]);
      }
      assert BuiltFrom(elements, files, listing, added, 0);
    }
  }

  lemma ListedFiles(listing: seq<string>, files: map<string, NcFile>)
    requires IsListing(listing, files.Keys)
    ensures forall p :: p in listing ==> p in files
  {
    forall p | p in listing ensures p in files {
      assert p in files.Keys;
    }
  }

  // ----- a whole run -----

  /** Where a run starts: as told for a new archive, else where the search for the end time of the index
      resumes. */
  ghost predicate StartsAt(src: NcFile, tv: nat, aggInfo: Option<seq<AggElement>>, newStart: Option<int>, s: int) {
    match newStart
    case Some(n) => s == n
    case None =>
      aggInfo.Some? && |aggInfo.value| > 0
      && IsResumePoint(Times(src, tv), aggInfo.value[|aggInfo.value| - 1].endTime, 100, s)
  }

  /** The index a run continues: none for a new archive. */
  function BaseIndex(newStart: Option<int>, aggInfo: Option<seq<AggElement>>): Option<seq<AggElement>> {
    if newStart.Some? then None else aggInfo
  }

  function RunPlan(basePath: string, src: NcFile, d: nat, tv: nat, a: Archive, newStart: Option<int>,
                   s: int, archFileSize: nat, writable: nat): Plan
  {
    Plan(src, d, tv, basePath, FirstNumber(BaseIndex(newStart, a.aggInfo), basePath),
         Pending(src, d, s, Length(src, d) - 1, archFileSize), writable)
  }

  /** A run that starts at s writes m of the pending spans. */
  ghost predicate RunWrites(basePath: string, src: NcFile, d: nat, tv: nat, a: Archive, newStart: Option<int>,
                            s: int, archFileSize: nat, writable: nat, m: nat, files: map<string, NcFile>)
  {
    Wrote(a.files, RunPlan(basePath, src, d, tv, a, newStart, s, archFileSize, writable), m, files)
  }

  /** A run from archive a to a': it writes the pending spans, and only when all of them are written
      replaces the index; ok tells whether it has. */
  ghost predicate RunFrom(basePath: string, src: NcFile, d: nat, tv: nat, a: Archive, newStart: Option<int>,
                          s: int, archFileSize: nat, writable: nat, m: nat, ok: bool, a': Archive)
  {
    RunWrites(basePath, src, d, tv, a, newStart, s, archFileSize, writable, m, a'.files)
    && (ok ==> m == |RunPlan(basePath, src, d, tv, a, newStart, s, archFileSize, writable).tiles|
               && a'.aggInfo.Some? && Indexes(a'.aggInfo.value, a'.files))
    && (!ok ==> a'.aggInfo == a.aggInfo)
  }

  ghost predicate Run(basePath: string, src: NcFile, d: nat, tv: nat, a: Archive, newStart: Option<int>,
                      archFileSize: nat, writable: nat, ok: bool, a': Archive)
  {
    (!ok && a' == a && !exists s :: StartsAt(src, tv, a.aggInfo, newStart, s))
    || exists s, m ::
         StartsAt(src, tv, a.aggInfo, newStart, s)
         && RunFrom(basePath, src, d, tv, a, newStart, s, archFileSize, writable, m, ok, a')
  }

  // ----- how large the files of a run are -----

  /** The file has just more steps than the limit holds. */
  predicate JustOver(f: NcFile, d: nat, step: nat, bytes: nat) {
    bytes < Length(f, d) * step <= bytes + step
  }

  /** The file exceeds the limit by half of it and two and a half steps at most. */
  predicate HalfOver(f: NcFile, d: nat, step: nat, bytes: nat) {
    2 * (Length(f, d) * step) <= 3 * bytes + 5 * step
  }

  /** A file with this number that has not been there before. */
  ghost predicate IsNew(basePath: string, before: map<string, NcFile>, after: map<string, NcFile>, p: string, n: nat) {
    p in after && p !in before && HasNumber(basePath, p, n)
  }

  /** The earlier files are unchanged. The new ones are numbered; the one with the highest number has a
      bounded length, and each of the others just exceeds the limit. */
  ghost predicate FilesSized(basePath: string, before: map<string, NcFile>, after: map<string, NcFile>, d: nat,
                             step: nat, bytes: nat)
  {
    (forall p :: p in before ==> p in after && after[p] == before[p])
    && (forall p :: p in after && p !in before ==> exists n: nat :: IsNew(basePath, before, after, p, n))
    && (forall p, n: nat :: IsNew(basePath, before, after, p, n) ==> HalfOver(after[p], d, step, bytes))
    && (forall p, q, n: nat, k: nat ::
          IsNew(basePath, before, after, p, n) && IsNew(basePath, before, after, q, k) && n < k ==>
            JustOver(after[p], d, step, bytes))
  }

  /** The file of span k of a plan. */
  ghost predicate IsFileOf(plan: Plan, k: nat, p: string, f: NcFile) {
    k < |plan.tiles| && p == NthName(plan.basePath, plan.next, k)
    && f == Window(plan.src, plan.d, plan.tv, plan.tiles[k].lo, plan.tiles[k].hi)
  }

  lemma {:induction false} AddedFiles(files: map<string, NcFile>, plan: Plan, m: nat)
    requires WrittenUpTo(files, plan, m) && m <= |plan.tiles|
    ensures forall p :: p in files ==> p in After(files, plan, m) && After(files, plan, m)[p] == files[p]
    ensures forall p :: p in After(files, plan, m) && p !in files ==>
              exists k: nat :: k < m && IsFileOf(plan, k, p, After(files, plan, m)[p])
  {
    if m > 0 {
      AddedFiles(files, plan, m - 1);
      assert Free(files, plan, m - 1);
      var last := NthName(plan.basePath, plan.next, m - 1);
      assert IsFileOf(plan, m - 1, last, After(files, plan, m)[last]);
    }
  }

  /** A file of a run has as many steps as its span. */
  lemma WrittenLength(files: map<string, NcFile>, plan: Plan, k: nat)
    requires IsTimed(plan.src, plan.d, plan.tv) && Free(files, plan, k)
    ensures Length(Window(plan.src, plan.d, plan.tv, plan.tiles[k].lo, plan.tiles[k].hi), plan.d)
         == plan.tiles[k].Size()
  {
    SelectWindow(plan.src, plan.d, plan.tiles[k].lo, plan.tiles[k].hi);
    assert CountOf(plan.src.inq.dims[plan.d], TimeWindow(plan.src, plan.d, plan.tiles[k].lo, plan.tiles[k].hi))
        == plan.tiles[k].Size();
  }

  lemma SpanSized(src: NcFile, d: nat, tv: nat, from: int, to: int, bytes: nat, k: nat)
    requires IsTimed(src, d, tv) && k < |Pending(src, d, from, to, bytes)|
    ensures var tiles, step := Pending(src, d, from, to, bytes), StepSize(src.inq, d);
            2 * (tiles[k].Size() * step) <= 3 * bytes + 5 * step
            && (k < |tiles| - 1 ==> bytes < tiles[k].Size() * step <= bytes + step)
  {
    StepSizePositive(src, d, tv);
    TilesEmpty(from, to, Interval(bytes, StepSize(src.inq, d)));
    ByteBounds(from, to, bytes, StepSize(src.inq, d));
  }

  lemma SameNumber(basePath: string, p: string, n: nat, k: nat)
    requires HasNumber(basePath, p, n) && p == FileName(basePath, k)
    ensures n == k
  {
    FileNameExactly(basePath, n, p);
    FileNameInjective(basePath, n, k);
  }

  /** A new file is that of the span its number tells. */
  lemma NewFile(files: map<string, NcFile>, plan: Plan, m: nat, p: string, n: nat)
    requires WrittenUpTo(files, plan, m) && m <= |plan.tiles|
    requires IsNew(plan.basePath, files, After(files, plan, m), p, n)
    ensures plan.next <= n < plan.next + m && IsFileOf(plan, n - plan.next, p, After(files, plan, m)[p])
  {
    AddedFiles(files, plan, m);
    var k: nat :| k < m && IsFileOf(plan, k, p, After(files, plan, m)[p]);
    SameNumber(plan.basePath, p, n, plan.next + k);
  }

  lemma SpanFileSized(files: map<string, NcFile>, plan: Plan, k: nat, f: NcFile, from: int, to: int, bytes: nat)
    requires IsTimed(plan.src, plan.d, plan.tv) && plan.tiles == Pending(plan.src, plan.d, from, to, bytes)
    requires Free(files, plan, k) && IsFileOf(plan, k, NthName(plan.basePath, plan.next, k), f)
    ensures HalfOver(f, plan.d, StepSize(plan.src.inq, plan.d), bytes)
    ensures k < |plan.tiles| - 1 ==> JustOver(f, plan.d, StepSize(plan.src.inq, plan.d), bytes)
  {
    WrittenLength(files, plan, k);
    SpanSized(plan.src, plan.d, plan.tv, from, to, bytes, k);
  }

  lemma NewFileSized(files: map<string, NcFile>, plan: Plan, m: nat, p: string, n: nat, from: int, to: int, bytes: nat)
    requires IsTimed(plan.src, plan.d, plan.tv) && plan.tiles == Pending(plan.src, plan.d, from, to, bytes)
    requires WrittenUpTo(files, plan, m) && m <= |plan.tiles|
    requires IsNew(plan.basePath, files, After(files, plan, m), p, n)
    ensures var step := StepSize(plan.src.inq, plan.d);
            HalfOver(After(files, plan, m)[p], plan.d, step, bytes)
            && n < plan.next + m
            && (n < plan.next + m - 1 ==> JustOver(After(files, plan, m)[p], plan.d, step, bytes))
  {
    NewFile(files, plan, m, p, n);
    SpanFileSized(files, plan, n - plan.next, After(files, plan, m)[p], from, to, bytes);
  }

  lemma WrittenSized(files: map<string, NcFile>, plan: Plan, m: nat, files': map<string, NcFile>, from: int, to: int,
                     bytes: nat)
    requires IsTimed(plan.src, plan.d, plan.tv) && plan.tiles == Pending(plan.src, plan.d, from, to, bytes)
    requires Wrote(files, plan, m, files')
    ensures FilesSized(plan.basePath, files, files', plan.d, StepSize(plan.src.inq, plan.d), bytes)
  {
    AddedFiles(files, plan, m);
    forall p | p in files' && p !in files ensures exists n: nat :: IsNew(plan.basePath, files, files', p, n) {
      var k: nat :| k < m && IsFileOf(plan, k, p, files'[p]);
      FileNameExactly(plan.basePath, plan.next + k, p);
      assert IsNew(plan.basePath, files, files', p, plan.next + k);
    }
    var step := StepSize(plan.src.inq, plan.d);
    forall p, n: nat | IsNew(plan.basePath, files, files', p, n)
      ensures HalfOver(files'[p], plan.d, step, bytes) && n < plan.next + m
      ensures n < plan.next + m - 1 ==> JustOver(files'[p], plan.d, step, bytes)
    {
      NewFileSized(files, plan, m, p, n, from, to, bytes);
    }
  }

  lemma NothingAdded(basePath: string, files: map<string, NcFile>, d: nat, step: nat, bytes: nat)
    ensures FilesSized(basePath, files, files, d, step, bytes)
  {
  }

  lemma WritesSized(basePath: string, src: NcFile, d: nat, tv: nat, a: Archive, newStart: Option<int>, s: int,
                    bytes: nat, writable: nat, m: nat, files: map<string, NcFile>)
    requires IsTimed(src, d, tv) && RunWrites(basePath, src, d, tv, a, newStart, s, bytes, writable, m, files)
    ensures FilesSized(basePath, a.files, files, d, StepSize(src.inq, d), bytes)
  {
    WrittenSized(a.files, RunPlan(basePath, src, d, tv, a, newStart, s, bytes, writable), m, files, s,
                 Length(src, d) - 1, bytes);
  }

  lemma RunSized(basePath: string, src: NcFile, d: nat, tv: nat, a: Archive, newStart: Option<int>,
                 bytes: nat, writable: nat, ok: bool, a': Archive)
    requires IsTimed(src, d, tv) && Run(basePath, src, d, tv, a, newStart, bytes, writable, ok, a')
    ensures FilesSized(basePath, a.files, a'.files, d, StepSize(src.inq, d), bytes)
  {
    if s, m :| RunFrom(basePath, src, d, tv, a, newStart, s, bytes, writable, m, ok, a') {
      WritesSized(basePath, src, d, tv, a, newStart, s, bytes, writable, m, a'.files);
    } else {
      NothingAdded(basePath, a.files, d, StepSize(src.inq, d), bytes);
    }
  }

  /** The index is replaced only when the server can store it. Success is reported when it has been
      replaced, unless there is a foreign object. */
  predicate Reported(status: Result<()>, replaced: bool, writeIndex: bool, foreign: bool) {
    (replaced ==> writeIndex) && (status.Ok? <==> replaced && !foreign)
    && (replaced && foreign ==> status == Err(NETCDF_INVALID_DATA_TYPE))
  }

  function ArchFileSize(fileSizeLimit: int): nat {
    if fileSizeLimit > 0 then fileSizeLimit * ONE_MILLION else ARCH_FILE_SIZE
  }

  lemma {:induction false} WrittenAreValid(files: map<string, NcFile>, plan: Plan, m: nat)
    requires plan.src.Valid() && forall p :: p in files ==> files[p].Valid()
    ensures forall p :: p in After(files, plan, m) ==> After(files, plan, m)[p].Valid()
  {
    if 0 < m <= |plan.tiles| {
      WrittenAreValid(files, plan, m - 1);
    }
  }

  lemma BuiltNext(added: seq<AggElement>, e: AggElement)
    ensures Built(added + [e]) == Insert(Built(added), e)
  {
    assert (added + [e])[..|added|] == added;
  }

  /** Files that all have an element have a time. */
  lemma AllDated(files: map<string, NcFile>, listing: seq<string>, added: seq<AggElement>, readError: nat)
    requires IsListing(listing, files.Keys) && AreElements(files, listing, added, readError)
    ensures forall p :: p in files ==> HasTime(files[p].inq)
  {
    forall p | p in files ensures HasTime(files[p].inq) {
      assert p in files.Keys && p in listing;
      var k: nat :| k < |listing| && listing[k] == p;
      assert ElementAt(files, listing, added, readError, k);
    }
  }

  /** The first i listed files have elements, which have been added. */
  ghost predicate AddedUpTo(files: map<string, NcFile>, listing: seq<string>, added: seq<AggElement>, readError: nat) {
    |added| <= |listing| && forall k: nat :: k < |added| ==> ElementAt(files, listing, added, readError, k)
  }

  /** Adds the elements of the listed files one by one, up to the first that has no time. */
  method AddFiles(table: AggTable, files: map<string, NcFile>, listing: seq<string>, readError: nat)
    returns (status: Result<()>, ghost added: seq<AggElement>)
    requires table.Valid() && table.Elements() == []
    requires forall p :: p in listing ==> p in files && files[p].Valid()
    modifies table, table.ncAggElement
    ensures table.Valid() && table.Elements() == Built(added)
    ensures status.Ok? ==> AreElements(files, listing, added, readError)
    ensures status.Err? ==> exists p :: p in listing && p in files && !HasTime(files[p].inq)
  {
    added := [];
    var i := 0;
    while i < |listing|
      invariant i == |added| && AddedUpTo(files, listing, added, readError)
      invariant table.Valid() && table.Elements() == Built(added)
      invariant fresh({table.ncAggElement} - {old(table.ncAggElement)})
    {
      var path := listing[i];
      var e := GetAggElement(files[path], path, readError);
      if e.Err? {
        return Err(e.error), added;
      }
      table.AddNcAggElement(e.value);
      BuiltNext(added, e.value);
      OneMoreElement(files, listing, added, readError, e.value);
      added := added + [e.value];
      i := i + 1;
    }
    status := Ok(());
  }

  lemma OneMoreElement(files: map<string, NcFile>, listing: seq<string>, added: seq<AggElement>, readError: nat,
                       e: AggElement)
    requires AddedUpTo(files, listing, added, readError) && |added| < |listing| && listing[|added|] in files
    requires IsElement(files[listing[|added|]], listing[|added|], readError, e)
    ensures AddedUpTo(files, listing, added + [e], readError)
  {
    forall k: nat | k < |added| + 1 ensures ElementAt(files, listing, added + [e], readError, k) {
      assert k < |added| ==> ElementAt(files, listing, added, readError, k);
    }
  }

  class Collection {
    var files: map<string, NcFile>
    var aggInfo: Option<seq<AggElement>>
    const basePath: string
    const growth: nat

    constructor (basePath: string, growth: nat)
      ensures files == map[] && aggInfo == None && this.basePath == basePath && this.growth == growth
    {
      this.basePath := basePath;
      this.growth := growth;
      files := map[];
      aggInfo := None;
    }

    /** The catalogue lists the collection in no particular order. */
    method ReadCollection() returns (listing: seq<string>)
      ensures IsListing(listing, files.Keys)
    {
      listing := [];
      var rest := files.Keys;
      while rest != {}
        invariant forall i, j :: 0 <= i < j < |listing| ==> listing[i] != listing[j]
        invariant forall p :: p in listing <==> p in files.Keys - rest
        invariant rest <= files.Keys
        decreases rest
      {
        var p :| p in rest;
        assert p !in listing;
        listing := listing + [p];
        rest := rest - {p};
      }
    }

    /** rsNcGetAggInfo: builds the index from the files and, if asked to, stores it. When the collection
        also holds a foreign object, one that is not netCDF, an error is reported for it in the end. */
    method GetAggInfo(write: bool, foreign: bool, readError: nat)
      returns (status: Result<()>, index: Option<seq<AggElement>>)
      requires growth > 0 && forall p :: p in files ==> files[p].Valid()
      modifies this`aggInfo
      ensures aggInfo == if index.Some? && write then index else old(aggInfo)
      ensures index.Some? <==> forall p :: p in files ==> HasTime(files[p].inq)
      ensures index.Some? ==> Indexes(index.value, files)
      ensures status.Ok? <==> index.Some? && !foreign
      ensures index.Some? && foreign ==> status == Err(NETCDF_INVALID_DATA_TYPE)
    {
      var listing := ReadCollection();
      var table := new AggTable(growth);
      ghost var added;
      status, added := AddFiles(table, files, listing, readError);
      if status.Err? {
        return Err(status.error), None;
      }
      AllDated(files, listing, added, readError);
      index := Some(table.Elements());
      assert BuiltFrom(index.value, files, listing, added, readError);
      if write {
        aggInfo := index;
      }
      status := if foreign then Err(NETCDF_INVALID_DATA_TYPE) else Ok(());
    }

    /** Writes one span to a new file and registers it, unless the name is taken, the server cannot
        write, or the window cannot be read. */
    method WriteFile(src: NcFile, objPath: string, start: int, end: int, canWrite: bool, d: nat, ghost tv: nat)
      returns (status: Result<()>)
      requires src.Valid()
      modifies this`files
      ensures status.Ok? <==> objPath !in old(files) && canWrite && Dumpable(src, TimeWindow(src, d, start, end))
      ensures files == if status.Ok? then old(files)[objPath := Window(src, d, tv, start, end)] else old(files)
    {
      if objPath in files || !canWrite {
        return Err(CREATE_ERR);
      }
      var dumped := DumpSubsetToFile(src, TimeWindow(src, d, start, end));
      if dumped.Err? {
        return Err(dumped.error);
      }
      files := files[objPath := dumped.value];
      status := Ok(());
    }

    /** Writes span k of a plan when the spans before it have been written. */
    method WriteTile(start: int, end: int, objPath: string, canWrite: bool, src: NcFile, d: nat,
                     ghost plan: Plan, ghost k: nat, ghost before: map<string, NcFile>)
      returns (status: Result<()>)
      requires src.Valid() && plan.src == src && plan.d == d
      requires k < |plan.tiles| && plan.tiles[k] == Span(start, end)
      requires objPath == NthName(plan.basePath, plan.next, k) && (canWrite <==> k < plan.writable)
      requires files == After(before, plan, k)
      modifies this`files
      ensures status.Ok? <==> Free(before, plan, k)
      ensures files == After(before, plan, if status.Ok? then k + 1 else k)
    {
      FreeExactly(before, plan, k, start, end, objPath, canWrite);
      status := WriteFile(src, objPath, start, end, canWrite, d, plan.tv);
    }

    /** archPartialTimeSeries */
    method ArchPartialTimeSeries(src: NcFile, index: Option<seq<AggElement>>, startTimeInx: int, endTimeInx: int,
                                 archFileSize: nat, writable: nat, d: nat, ghost tv: nat)
      returns (status: Result<()>, ghost m: nat)
      requires IsTimed(src, d, tv)
      modifies this`files
      ensures Wrote(old(files),
                    Plan(src, d, tv, basePath, FirstNumber(index, basePath),
                         Pending(src, d, startTimeInx, endTimeInx, archFileSize), writable),
                    m, files)
      ensures status.Ok? <==> m == |Pending(src, d, startTimeInx, endTimeInx, archFileSize)|
    {
      StepSizePositive(src, d, tv);
      var timeStepSize := GetTimeStepSize(src.inq);
      assert NamesTime(src.inq.dims[d].name);
      assert timeStepSize == Ok(StepSize(src.inq, d));
      var inxInterval := Interval(archFileSize, timeStepSize.value);
      var nextNumber := 0;
      if index.Some? {
        nextNumber := GetNextNumber(index.value, basePath);
      }
      ghost var tiles := Pending(src, d, startTimeInx, endTimeInx, archFileSize);
      ghost var plan := Plan(src, d, tv, basePath, nextNumber, tiles, writable);
      status, m := WriteTiles(src, startTimeInx, endTimeInx, inxInterval, nextNumber, writable, d, plan);
    }

    /** The loop of archPartialTimeSeries. */
    method WriteTiles(src: NcFile, startTimeInx: int, endTimeInx: int, interval: nat, number: nat, writable: nat,
                      d: nat, ghost plan: Plan)
      returns (status: Result<()>, ghost m: nat)
      requires src.Valid() && interval > 0
      requires plan == Plan(src, d, plan.tv, basePath, number, Tiles(startTimeInx, endTimeInx, interval), writable)
      modifies this`files
      ensures Wrote(old(files), plan, m, files)
      ensures status.Ok? <==> m == |plan.tiles|
    {
      var curTimeInx, inxInterval, nextNumber, left: int := startTimeInx, interval, number, writable;
      m := 0;
      ProgressAtStart(files, plan);
      while curTimeInx < endTimeInx
        invariant inxInterval > 0
        invariant Progress(old(files), plan, m, Cursor(nextNumber, left, Tiles(curTimeInx, endTimeInx, inxInterval)),
                           files)
        decreases endTimeInx - curTimeInx
      {
        status, curTimeInx, inxInterval :=
          WriteNext(src, curTimeInx, endTimeInx, inxInterval, nextNumber, left, d, plan, m, old(files));
        if status.Err? {
          return;
        }
        nextNumber, left, m := nextNumber + 1, left - 1, m + 1;
      }
      ProgressAtEnd(old(files), plan, m, curTimeInx, endTimeInx, inxInterval, nextNumber, left, files);
      status := Ok(());
    }

    /** One turn of the loop: chooses the next span and writes it. */
    method WriteNext(src: NcFile, curTimeInx: int, endTimeInx: int, interval: nat, nextNumber: nat, left: int,
                     d: nat, ghost plan: Plan, ghost m: nat, ghost before: map<string, NcFile>)
      returns (status: Result<()>, newTimeInx: int, newInterval: nat)
      requires src.Valid() && interval > 0 && curTimeInx < endTimeInx && OfPlan(plan, src, d, basePath)
      requires Progress(before, plan, m, Cursor(nextNumber, left, Tiles(curTimeInx, endTimeInx, interval)), files)
      modifies this`files
      ensures newTimeInx > curTimeInx && newInterval > 0
      ensures status.Ok? ==>
                Progress(before, plan, m + 1,
                         Cursor(nextNumber + 1, left - 1, Tiles(newTimeInx, endTimeInx, newInterval)), files)
      ensures status.Err? ==> m < |plan.tiles| && Wrote(before, plan, m, files)
    {
      NextCursor(plan, m, curTimeInx, endTimeInx, interval, nextNumber, left);
      newInterval := NextInterval(curTimeInx, endTimeInx, interval);
      var start, end := curTimeInx, LastIndex(curTimeInx, endTimeInx, newInterval);
      newTimeInx := end + 1;
      status := WriteTile(start, end, FileName(basePath, nextNumber), left > 0, src, d, plan, m, before);
      if status.Ok? {
        OneMoreWritten(before, plan, m);
      }
    }

    /** Where a run starts and the index it continues. */
    method StartOfRun(src: NcFile, varInx: nat, newStart: Option<int>)
      returns (r: Result<int>, index: Option<seq<AggElement>>)
      requires varInx < |src.values|
      ensures r.Ok? ==> StartsAt(src, varInx, aggInfo, newStart, r.value)
      ensures r.Err? ==> !exists s :: StartsAt(src, varInx, aggInfo, newStart, s)
      ensures r.Ok? ==> index == BaseIndex(newStart, aggInfo)
    {
      index := None;
      if newStart.Some? {
        return Ok(newStart.value), index;
      }
      if aggInfo == None || |aggInfo.value| == 0 {
        return Err(NETCDF_AGG_INFO_FILE_ERR), index;
      }
      index := aggInfo;
      var from := GetTimeInxForArch(src.values[varInx], index.value[|index.value| - 1].endTime, READ_TIME_SIZE);
      r := if from.Ok? then Ok(from.value) else Err(from.error);
    }

    /** _rsNcArchTimeSeries. Without a one-dimensional time variable nothing is done. A run that replaces
        the index reports an error all the same when there is a foreign object. */
    method ArchTimeSeries(src: NcFile, newStart: Option<int>, fileSizeLimit: int, writable: nat,
                          writeIndex: bool, foreign: bool, readError: nat, ghost d: nat, ghost tv: nat)
      returns (status: Result<()>, ghost replaced: bool)
      requires growth > 0 && src.Valid() && forall p :: p in files ==> files[p].Valid()
      requires TimeUsable(src.inq) ==> IsTimed(src, d, tv)
      modifies this`files, this`aggInfo
      ensures forall p :: p in files ==> files[p].Valid()
      ensures TimeUsable(src.inq) ==>
                Run(basePath, src, d, tv, Archive(old(files), old(aggInfo)), newStart, ArchFileSize(fileSizeLimit),
                    writable, replaced, Archive(files, aggInfo))
                && Reported(status, replaced, writeIndex, foreign)
      ensures TimeUsable(src.inq) ==>
                var bytes := if fileSizeLimit > 0 then fileSizeLimit * 1048576 else 1073741824;
                FilesSized(basePath, old(files), files, d, StepSize(src.inq, d), bytes)
      ensures !TimeUsable(src.inq) ==>
                status == Err(NETCDF_DIM_MISMATCH_ERR) && files == old(files) && aggInfo == old(aggInfo)
    {
      replaced := false;
      var found, dimInx, varInx := FindTimeVar(src.inq);
      if !found {
        return Err(NETCDF_DIM_MISMATCH_ERR), replaced;
      }
      TimeUsableIf(src.inq, dimInx, varInx);
      if |src.inq.vars[varInx].dimId| != 1 {
        return Err(NETCDF_DIM_MISMATCH_ERR), replaced;
      }
      TimeVarUnique(src.inq, dimInx, varInx, d, tv);
      status, replaced :=
        RunArchive(src, dimInx, varInx, newStart, fileSizeLimit, writable, writeIndex, foreign, readError);
      RunSized(basePath, src, d, tv, Archive(old(files), old(aggInfo)), newStart, ArchFileSize(fileSizeLimit),
               writable, replaced, Archive(files, aggInfo));
    }

    /** The run, once the time dimension and variable are known. */
    method RunArchive(src: NcFile, d: nat, tv: nat, newStart: Option<int>, fileSizeLimit: int, writable: nat,
                      writeIndex: bool, foreign: bool, readError: nat)
      returns (status: Result<()>, ghost replaced: bool)
      requires growth > 0 && IsTimed(src, d, tv)
      requires forall p :: p in files ==> files[p].Valid()
      modifies this`files, this`aggInfo
      ensures forall p :: p in files ==> files[p].Valid()
      ensures Run(basePath, src, d, tv, Archive(old(files), old(aggInfo)), newStart, ArchFileSize(fileSizeLimit),
                  writable, replaced, Archive(files, aggInfo))
      ensures Reported(status, replaced, writeIndex, foreign)
    {
      replaced := false;
      var startTimeInx, index := StartOfRun(src, tv, newStart);
      if startTimeInx.Err? {
        return Err(startTimeInx.error), replaced;
      }
      StepSizePositive(src, d, tv);
      var size := ArchFileSize(fileSizeLimit);
      ghost var before := Archive(files, aggInfo);
      ghost var m;
      status, m := ArchPartialTimeSeries(src, index, startTimeInx.value, Length(src, d) - 1, size, writable, d, tv);
      ghost var plan := RunPlan(basePath, src, d, tv, before, newStart, startTimeInx.value, size, writable);
      assert Wrote(before.files, plan, m, files);
      WrittenAreValid(before.files, plan, m);
      status, replaced := FinishRun(status, writeIndex, foreign, readError);
      assert RunFrom(basePath, src, d, tv, before, newStart, startTimeInx.value, size, writable, m, replaced,
                     Archive(files, aggInfo));
    }

    /** After all files are written, the index is rebuilt and stored. */
    method FinishRun(written: Result<()>, writeIndex: bool, foreign: bool, readError: nat)
      returns (status: Result<()>, ghost replaced: bool)
      requires growth > 0 && forall p :: p in files ==> files[p].Valid()
      modifies this`aggInfo
      ensures replaced <==> written.Ok? && writeIndex && forall p :: p in files ==> HasTime(files[p].inq)
      ensures if replaced then aggInfo.Some? && Indexes(aggInfo.value, files) else aggInfo == old(aggInfo)
      ensures Reported(status, replaced, writeIndex, foreign)
    {
      status, replaced := written, false;
      if status.Ok? {
        if writeIndex {
          var index;
          status, index := GetAggInfo(true, foreign, readError);
          replaced := index.Some?;
        } else {
          status := Err(NETCDF_AGG_INFO_FILE_ERR);
        }
      }
    }
  }
}
