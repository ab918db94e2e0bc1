/** Archive a series, index the files in any order, read the aggregation: the answer is the series. */
module RoundTrip {
  import opened Hyperslab
  import opened Blocks
  import opened NetCdf
  import opened Subset
  import opened AggInfo
  import opened AggRead
  import opened Archive
  import opened History
  import opened AggSession
  import opened Pieces
  import opened Commands

  // ----- the files of an archive -----

  /** The index knows the first m files, m > 0, of an archive whose files are tiled by b. */
  ghost predicate Knows(basePath: string, d: nat, tv: nat, w: World, b: seq<int>, index: seq<AggElement>, m: nat) {
    IsSeries(w.src, d, tv) && FilesTiled(basePath, w.src, d, tv, w.archive.files, b)
    && 0 < m < |b| && index == Canon(basePath, d, tv, w.archive.files, m)
  }

  /** Element i of an index is a file that holds the steps of the source from b[i] up to b[i + 1]. */
  ghost predicate ElementHolds(d: nat, tv: nat, w: World, b: seq<int>, index: seq<AggElement>, i: nat) {
    i < |index| && i + 1 < |b| && 0 <= b[i] < b[i + 1] <= Length(w.src, d) && index[i].arraylen == b[i + 1] - b[i]
    && index[i].objPath in w.archive.files
    && w.archive.files[index[i].objPath] == Window(w.src, d, tv, b[i], b[i + 1] - 1)
  }

  /** The index lists files that hold the source's steps between the bounds. */
  ghost predicate Covers(d: nat, tv: nat, w: World, b: seq<int>, index: seq<AggElement>) {
    IsSeries(w.src, d, tv) && |b| == |index| + 1 > 1
    && forall i: nat :: i < |index| ==> ElementHolds(d, tv, w, b, index, i)
  }

  lemma KnownCovers(basePath: string, d: nat, tv: nat, w: World, b: seq<int>, index: seq<AggElement>, m: nat)
    requires Knows(basePath, d, tv, w, b, index, m)
    ensures Covers(d, tv, w, b[..m + 1], index)
  {
    var known := b[..m + 1];
    forall i: nat | i < |index| ensures ElementHolds(d, tv, w, known, index, i) {
      KnownHolds(basePath, d, tv, w, b, index, m, known, i);
    }
  }

  lemma KnownHolds(basePath: string, d: nat, tv: nat, w: World, b: seq<int>, index: seq<AggElement>, m: nat,
                   known: seq<int>, i: nat)
    requires Knows(basePath, d, tv, w, b, index, m) && known == b[..m + 1] && i < m
    ensures ElementHolds(d, tv, w, known, index, i)
  {
    HoldsAt(basePath, w.src, d, tv, w.archive.files, b, i);
    CanonAt(basePath, d, tv, w, b, i);
    assert known[i] == b[i] && known[i + 1] == b[i + 1];
  }

  /** Where time is among the dimensions of a variable: at p, or nowhere when p is -1. */
  ghost predicate TimePlace(inq: Inq, varid: int, d: nat, p: int) {
    0 <= varid < |inq.vars|
    && if p >= 0 then TimeAt(inq, inq.vars[varid], d, p)
       else p == -1 && forall j :: 0 <= j < |inq.vars[varid].dimId| ==> inq.vars[varid].dimId[j] != d
  }

  lemma FileIsCut(d: nat, tv: nat, w: World, b: seq<int>, index: seq<AggElement>, varid: nat, p: nat, i: nat)
    requires Covers(d, tv, w, b, index) && i < |index| && TimePlace(w.src.inq, varid, d, p)
    ensures IsCut(BlockOf(w.src, varid), p, b, PartsOf(w.archive.files, index, varid), i)
  {
    assert ElementHolds(d, tv, w, b, index, i);
    PartIsCut(w.src, d, tv, b, PartsOf(w.archive.files, index, varid), varid, p, i);
  }

  lemma PartIsCut(src: NcFile, d: nat, tv: nat, b: seq<int>, parts: seq<Block>, varid: nat, p: nat, i: nat)
    requires IsSeries(src, d, tv) && TimePlace(src.inq, varid, d, p)
    requires i < |parts| && i + 1 < |b| && 0 <= b[i] < b[i + 1] <= Length(src, d)
    requires parts[i] == BlockOf(Window(src, d, tv, b[i], b[i + 1] - 1), varid)
    ensures IsCut(BlockOf(src, varid), p, b, parts, i)
  {
    WindowIsCut(src, d, tv, b[i], b[i + 1], varid, p);
  }

  lemma WindowIsCut(src: NcFile, d: nat, tv: nat, lo: int, bound: int, varid: nat, p: nat)
    requires IsSeries(src, d, tv) && 0 <= lo < bound <= Length(src, d) && TimePlace(src.inq, varid, d, p)
    ensures p < |BlockOf(src, varid).shape|
    ensures BlockOf(Window(src, d, tv, lo, bound - 1), varid) == Cut(BlockOf(src, varid), p, lo, bound - lo)
  {
    WindowBlock(src, d, tv, lo, bound - 1, varid, p);
  }

  /** The listed files hold the source's variable cut at the bounds. */
  lemma FilesAreCuts(d: nat, tv: nat, w: World, b: seq<int>, index: seq<AggElement>, varid: nat, p: nat)
    requires Covers(d, tv, w, b, index) && TimePlace(w.src.inq, varid, d, p)
    ensures IsCutUp(BlockOf(w.src, varid), p, b, PartsOf(w.archive.files, index, varid))
    ensures HaveSteps(PartsOf(w.archive.files, index, varid), LensOf(index), p)
  {
    var source, parts := BlockOf(w.src, varid), PartsOf(w.archive.files, index, varid);
    forall i: nat | i < |index|
      ensures IsCut(source, p, b, parts, i) && parts[i].Steps(p) == LensOf(index)[i]
    {
      FileIsCut(d, tv, w, b, index, varid, p, i);
      assert ElementHolds(d, tv, w, b, index, i);
    }
    assert IsCut(source, p, b, parts, 0);
  }

  /** A variable without time is in every file as it is in the source. */
  lemma FileIsWhole(d: nat, tv: nat, w: World, b: seq<int>, index: seq<AggElement>, varid: nat, i: nat)
    requires Covers(d, tv, w, b, index) && i < |index| && TimePlace(w.src.inq, varid, d, -1)
    ensures PartsOf(w.archive.files, index, varid)[i] == BlockOf(w.src, varid) && LensOf(index)[i] > 0
  {
    assert ElementHolds(d, tv, w, b, index, i);
    TimelessBlock(w.src, d, tv, b[i], b[i + 1] - 1, varid);
  }

  ghost predicate NamesUnique(inq: Inq) {
    forall i, j :: 0 <= i < j < |inq.vars| ==> inq.vars[i].name != inq.vars[j].name
  }

  lemma FirstFile(d: nat, tv: nat, w: World, b: seq<int>, index: seq<AggElement>, varid: nat, p: int)
    requires Covers(d, tv, w, b, index) && TimePlace(w.src.inq, varid, d, p) && NamesUnique(w.src.inq)
    ensures index[0].objPath in w.archive.files
    ensures Described(w.archive.files[index[0].objPath].inq, varid, p)
  {
    assert ElementHolds(d, tv, w, b, index, 0);
    WindowIsSeries(w.src, d, tv, b[0], b[1] - 1);
    WindowDumpable(w.src, d, tv, b[0], b[1] - 1);
    var inq := w.archive.files[index[0].objPath].inq;
    assert inq.vars == w.src.inq.vars && IsTimeDim(inq, d);
    assert forall x :: IsTimeDim(inq, x) ==> x == d;
  }

  // ----- archived and read back -----

  /** The length reported for the aggregation is that of the archived range. */
  lemma ArchivedLength(basePath: string, d: nat, tv: nat, w: World, b: seq<int>, index: seq<AggElement>)
    requires IsSeries(w.src, d, tv) && Increasing(w.src, tv) && FilesTiled(basePath, w.src, d, tv, w.archive.files, b)
    requires Indexes(index, w.archive.files)
    ensures SumLen(index) == b[|b| - 1] - b[0]
  {
    RebuiltIndex(basePath, d, tv, w, b, index);
    forall k: nat | k < |index| ensures index[k].arraylen == b[k + 1] - b[k] {
      CanonAt(basePath, d, tv, w, b, k);
    }
    SumOfSteps(index, b);
  }

  lemma {:induction false} SumOfSteps(index: seq<AggElement>, b: seq<int>)
    requires |b| == |index| + 1 && forall k: nat :: k < |index| ==> index[k].arraylen == b[k + 1] - b[k]
    ensures SumLen(index) == b[|b| - 1] - b[0]
  {
    if |index| > 0 {
      SumOfSteps(index[..|index| - 1], b[..|index|]);
    }
  }

  /** A request for steps inside the bounds that has no more than one step in the dimensions before time,
      or is for steps of one file; a variable without time is asked for inside its shape. */
  ghost predicate InArchive(src: NcFile, b: seq<int>, p: int, inp: GetVarInp) {
    inp.Valid(p) && AllPositive(inp.count) && (forall j :: 0 <= j < |inp.start| ==> inp.start[j] >= 0)
    && -1 <= p < |inp.start|
    && if p == -1 then Fits(Clamp(inp.start), Clamp(inp.count), BlockOf(src, inp.varid).shape)
       else (OuterCountsAreOne(Clamp(inp.count), p) || InOnePiece(b, inp.start[p], inp.count[p]))
            && InsideBut(Clamp(inp.start), Clamp(inp.count), BlockOf(src, inp.varid).shape, p)
            && |b| > 0 && inp.start[p] + inp.count[p] <= b[|b| - 1] - b[0]
  }

  /** The same window of the source; time is counted from the first bound. */
  ghost function SourceWindow(src: NcFile, b: seq<int>, p: int, inp: GetVarInp): seq<int>
    requires InArchive(src, b, p, inp)
  {
    var start := Clamp(inp.start);
    var moved := if p == -1 then start else start[p := Clamp(b)[0] + start[p]];
    GetVara(One(BlockOf(src, inp.varid)), moved, Clamp(inp.count))
  }

  // ----- every read of an archived variable is possible -----

  /** A file has the source's lengths in every dimension but time. */
  lemma FileShape(d: nat, tv: nat, w: World, b: seq<int>, index: seq<AggElement>, varid: nat, p: int, i: nat)
    requires Covers(d, tv, w, b, index) && i < |index| && TimePlace(w.src.inq, varid, d, p)
    ensures var source := BlockOf(w.src, varid).shape;
            PartsOf(w.archive.files, index, varid)[i].shape
            == if p >= 0 && p < |source| then source[p := LensOf(index)[i]] else source
  {
    if p >= 0 {
      FileIsCut(d, tv, w, b, index, varid, p, i);
      assert ElementHolds(d, tv, w, b, index, i);
    } else {
      FileIsWhole(d, tv, w, b, index, varid, i);
    }
  }

  /** What is asked for is inside the source's other dimensions. */
  lemma InsideOthers(src: NcFile, b: seq<int>, p: int, inp: GetVarInp)
    requires InArchive(src, b, p, inp)
    ensures var shape := BlockOf(src, inp.varid).shape;
            |shape| == |inp.start| == |inp.count|
            && forall j :: 0 <= j < |shape| && j != p ==> 0 <= inp.start[j] && inp.start[j] + inp.count[j] <= shape[j]
  {
    assert Clamp(inp.start) == inp.start && Clamp(inp.count) == inp.count;
  }

  lemma ArchiveReadable(d: nat, tv: nat, w: World, b: seq<int>, index: seq<AggElement>, p: int, inp: GetVarInp)
    requires Covers(d, tv, w, b, index) && TimePlace(w.src.inq, inp.varid, d, p) && NamesUnique(w.src.inq)
    requires InArchive(w.src, b, p, inp)
    ensures ReadsSucceed(w.archive.files, index, p, inp)
  {
    FirstFile(d, tv, w, b, index, inp.varid, p);
    InsideOthers(w.src, b, p, inp);
    forall i: nat | i < |index| ensures ElementReadable(w.archive.files, index, i, p, inp) {
      FileShape(d, tv, w, b, index, inp.varid, p, i);
      assert ElementHolds(d, tv, w, b, index, i);
    }
  }

  // ----- what is read -----

  lemma SteppedRead(d: nat, tv: nat, w: World, b: seq<int>, index: seq<AggElement>, p: nat, inp: GetVarInp)
    requires Covers(d, tv, w, b, index) && TimePlace(w.src.inq, inp.varid, d, p) && InArchive(w.src, b, p, inp)
    ensures AnswerOf(w.archive.files, index, p, inp) == Some(SourceWindow(w.src, b, p, inp))
  {
    FilesAreCuts(d, tv, w, b, index, inp.varid, p);
    PiecesReadBack(w.src, b, PartsOf(w.archive.files, index, inp.varid), LensOf(index), p, inp);
  }

  lemma PiecesReadBack(src: NcFile, b: seq<int>, parts: seq<Block>, lens: seq<nat>, p: nat, inp: GetVarInp)
    requires InArchive(src, b, p, inp) && IsCutUp(BlockOf(src, inp.varid), p, b, parts)
    requires HaveSteps(parts, lens, p) && |parts| > 0
    ensures Answer(parts, lens, p, inp.start, inp.count) == Some(SourceWindow(src, b, p, inp))
  {
    var start, count := Clamp(inp.start), Clamp(inp.count);
    assert start == inp.start && count == inp.count;
    PiecesAnswer(BlockOf(src, inp.varid), p, b, parts, lens, start, count);
    assert Clamp(b)[0] + start[p] == start[p] + b[0];
  }

  lemma TimelessRead(d: nat, tv: nat, w: World, b: seq<int>, index: seq<AggElement>, inp: GetVarInp)
    requires Covers(d, tv, w, b, index) && TimePlace(w.src.inq, inp.varid, d, -1) && InArchive(w.src, b, -1, inp)
    ensures AnswerOf(w.archive.files, index, -1, inp) == Some(SourceWindow(w.src, b, -1, inp))
  {
    FileIsWhole(d, tv, w, b, index, inp.varid, 0);
    var count := Clamp(inp.count);
    SlabLength(Clamp(inp.start), count);
    assert count == inp.count;
    ProductPositive(count);
    var data := SourceWindow(w.src, b, -1, inp);
    assert data + Zeros(0) == data;
  }

  /** Through an index that covers the bounds, a window inside them is the window of the source. */
  lemma CoveredReadIsSource(d: nat, tv: nat, w: World, b: seq<int>, index: seq<AggElement>, p: int, inp: GetVarInp)
    requires Covers(d, tv, w, b, index) && NamesUnique(w.src.inq)
    requires TimePlace(w.src.inq, inp.varid, d, p) && InArchive(w.src, b, p, inp)
    ensures ReadsSucceed(w.archive.files, index, p, inp)
    ensures AnswerOf(w.archive.files, index, p, inp) == Some(SourceWindow(w.src, b, p, inp))
  {
    if p >= 0 {
      SteppedRead(d, tv, w, b, index, p, inp);
    } else {
      TimelessRead(d, tv, w, b, index, inp);
    }
    ArchiveReadable(d, tv, w, b, index, p, inp);
  }

  /** Archived and read back: through an index that knows the first m files, a window inside their
      range is the same window of the source, counted from the first archived step. */
  lemma ArchivedReadIsSource(basePath: string, d: nat, tv: nat, w: World, b: seq<int>, index: seq<AggElement>, m: nat,
                             p: int, inp: GetVarInp)
    requires Knows(basePath, d, tv, w, b, index, m) && NamesUnique(w.src.inq)
    requires TimePlace(w.src.inq, inp.varid, d, p) && InArchive(w.src, b[..m + 1], p, inp)
    ensures ReadsSucceed(w.archive.files, index, p, inp)
    ensures AnswerOf(w.archive.files, index, p, inp) == Some(SourceWindow(w.src, b[..m + 1], p, inp))
  {
    KnownCovers(basePath, d, tv, w, b, index, m);
    CoveredReadIsSource(d, tv, w, b[..m + 1], index, p, inp);
  }

  // ----- over whole histories -----

  /** A read inside the bounds, of a variable of the source. */
  ghost predicate Served(d: nat, w: World, b: seq<int>, p: int, inp: GetVarInp) {
    TimePlace(w.src.inq, inp.varid, d, p) && InArchive(w.src, b, p, inp)
  }

  ghost predicate Restores(w: World, b: seq<int>, index: seq<AggElement>, p: int, inp: GetVarInp)
    requires InArchive(w.src, b, p, inp)
  {
    AnswerOf(w.archive.files, index, p, inp) == Some(SourceWindow(w.src, b, p, inp))
  }

  /** Through this index every read inside the bounds gives the source's values. */
  ghost predicate ReadsBackThrough(d: nat, w: World, b: seq<int>, index: seq<AggElement>) {
    forall p, inp :: Served(d, w, b, p, inp) ==> Restores(w, b, index, p, inp)
  }

  /** Whatever order an index of the files has been built in, all of the archived range reads back. */
  ghost predicate ReadsBack(d: nat, w: World, b: seq<int>) {
    |b| > 1 ==> forall index :: Indexes(index, w.archive.files) ==> ReadsBackThrough(d, w, b, index)
  }

  /** Through the stored index, which knows m files, the range of these files reads back. */
  ghost predicate StoredReadsBack(d: nat, w: World, b: seq<int>, m: nat) {
    m > 0 ==>
      m < |b| && w.archive.aggInfo.Some? && ReadsBackThrough(d, w, b[..m + 1], w.archive.aggInfo.value)
  }

  lemma StateReadsBack(basePath: string, d: nat, tv: nat, w: World, b: seq<int>, m: nat)
    requires Consistent(basePath, d, tv, w, b, m) && NamesUnique(w.src.inq)
    ensures ReadsBack(d, w, b) && StoredReadsBack(d, w, b, m)
  {
    if |b| > 1 {
      forall index | Indexes(index, w.archive.files) ensures ReadsBackThrough(d, w, b, index) {
        RebuiltIndex(basePath, d, tv, w, b, index);
        assert b[..|b|] == b;
        KnownReadsBack(basePath, d, tv, w, b, index, |b| - 1);
      }
    }
    if m > 0 {
      KnownReadsBack(basePath, d, tv, w, b, w.archive.aggInfo.value, m);
    }
  }

  lemma KnownReadsBack(basePath: string, d: nat, tv: nat, w: World, b: seq<int>, index: seq<AggElement>, m: nat)
    requires Knows(basePath, d, tv, w, b, index, m) && NamesUnique(w.src.inq)
    ensures ReadsBackThrough(d, w, b[..m + 1], index)
  {
    var known := b[..m + 1];
    forall p, inp | Served(d, w, known, p, inp) ensures Restores(w, known, index, p, inp) {
      ArchivedReadIsSource(basePath, d, tv, w, b, index, m, p, inp);
    }
  }

  /** Reading archived steps through an opened collection, whatever it has been used for before. */
  method ReadArchived(s: Session, inp: GetVarInp, env: Env, ghost d: nat, ghost tv: nat, ghost w: World,
                      ghost b: seq<int>, ghost p: int)
    returns (r: Result<Option<seq<int>>>)
    requires s.Valid() && s.objNcid0 != -1 && s.files == w.archive.files
    requires Covers(d, tv, w, b, s.index) && NamesUnique(w.src.inq) && Served(d, w, b, p, inp)
    modifies s
    ensures s.Valid() && s.objNcid0 == old(s.objNcid0)
    ensures r.Ok? ==> r.value == Some(SourceWindow(w.src, b, p, inp))
    ensures r.Ok? <==> CanRead(s.files, s.index, p, inp, env, old(s.State()))
    ensures env == NO_FAILURE ==> r.Ok?
  {
    CoveredReadIsSource(d, tv, w, b, s.index, p, inp);
    if env == NO_FAILURE {
      NeverUnavailable(s.files, s.index, p, inp, s.State());
    }
    r := s.GetVarsByType(inp, env, p);
  }

  lemma NeverUnavailable(files: map<string, NcFile>, index: seq<AggElement>, p: int, inp: GetVarInp, c: Cache)
    requires ReadsSucceed(files, index, p, inp) && c.firstOpen && p < |inp.start| && AllPositive(inp.count)
    ensures CanRead(files, index, p, inp, NO_FAILURE, c)
  {
    forall i: nat | i < |index| ensures !Unavailable(files, index, i, NO_FAILURE) {
      assert ElementReadable(files, index, i, p, inp);
    }
  }

  /** State i of a history: all archived steps read back, through any index built from the files and,
      as far as it reaches, through the stored one; and the event before has advanced the bounds. */
  ghost predicate Restored(d: nat, ws: seq<World>, es: seq<Event>, bs: seq<seq<int>>, ms: seq<nat>, i: nat) {
    |bs| == |ms| == |ws| == |es| + 1 && i < |ws|
    && ReadsBack(d, ws[i], bs[i]) && StoredReadsBack(d, ws[i], bs[i], ms[i])
    && (i > 0 ==> Advances(d, ws[i - 1], es[i - 1], ws[i], bs[i - 1], ms[i - 1], bs[i], ms[i]))
  }

  lemma {:induction false} SourceKeepsNames(basePath: string, d: nat, tv: nat, ws: seq<World>, es: seq<Event>, i: nat)
    requires IsHistory(basePath, d, tv, ws, es) && NamesUnique(ws[0].src.inq) && i < |ws|
    ensures NamesUnique(ws[i].src.inq)
  {
    if i > 0 {
      SourceKeepsNames(basePath, d, tv, ws, es, i - 1);
      assert Step(basePath, d, tv, ws[i - 1], es[i - 1], ws[i]);
    }
  }

  /** Archive and read back, over every history that starts from an empty collection. */
  lemma HistoryReadsBack(basePath: string, d: nat, tv: nat, ws: seq<World>, es: seq<Event>)
    returns (bs: seq<seq<int>>, ms: seq<nat>)
    requires IsHistory(basePath, d, tv, ws, es) && NamesUnique(ws[0].src.inq)
    ensures forall i: nat :: i < |ws| ==> Restored(d, ws, es, bs, ms, i)
  {
    bs, ms := HistoryKeepsTiling(basePath, d, tv, ws, es);
    forall i: nat | i < |ws|
      ensures Restored(d, ws, es, bs, ms, i)
    {
      assert Tracked(basePath, d, tv, ws, es, bs, ms, i);
      SourceKeepsNames(basePath, d, tv, ws, es, i);
      StateReadsBack(basePath, d, tv, ws[i], bs[i], ms[i]);
    }
  }

  /** What a history's last state is tiled by, and how many files its index knows. */
  lemma LastState(basePath: string, d: nat, tv: nat, ws: seq<World>, es: seq<Event>) returns (b: seq<int>, m: nat)
    requires IsHistory(basePath, d, tv, ws, es)
    ensures Consistent(basePath, d, tv, ws[|es|], b, m)
    ensures NamesUnique(ws[0].src.inq) ==> NamesUnique(ws[|es|].src.inq)
  {
    var bs, ms := HistoryKeepsTiling(basePath, d, tv, ws, es);
    assert Tracked(basePath, d, tv, ws, es, bs, ms, |es|);
    b, m := bs[|es|], ms[|es|];
    if NamesUnique(ws[0].src.inq) {
      SourceKeepsNames(basePath, d, tv, ws, es, |es|);
    }
  }

  /** Any commands on a new collection, after which it is opened through its stored index: reads of the
      range the index knows may follow (ReadArchived), and give the source as it is by then. */
  method ArchiveAndOpen(c: Collection, src: NcFile, commands: seq<Command>, foreign: bool, readError: nat, env: Env,
                        ghost d: nat, ghost tv: nat)
    returns (s: Session?, now: NcFile, ghost b: seq<int>, ghost m: nat)
    requires c.growth > 0 && c.files == map[] && c.aggInfo == None && Grows(src, commands, d, tv)
    requires NamesUnique(src.inq)
    modifies c`files, c`aggInfo
    ensures now == SourceAfter(src, commands, |commands|) && NamesUnique(now.inq)
    ensures Consistent(c.basePath, d, tv, World(now, Archive(c.files, c.aggInfo)), b, m)
    ensures s == null <==> m == 0
    ensures s != null ==>
              fresh(s) && s.Valid() && s.files == c.files && (env == NO_FAILURE ==> s.objNcid0 != -1)
              && m < |b| && Covers(d, tv, World(now, Archive(c.files, c.aggInfo)), b[..m + 1], s.index)
  {
    ghost var ws, es;
    now, ws, es := Replay(c, src, commands, foreign, readError, d, tv);
    b, m := LastState(c.basePath, d, tv, ws, es);
    s := null;
    if c.aggInfo != None && |c.aggInfo.value| > 0 {
      s := new Session(c.files, c.aggInfo.value);
      ghost var w := World(now, Archive(c.files, c.aggInfo));
      FirstIsThere(c.basePath, d, tv, w, b, m);
      var status := s.Open(env);
    }
  }

  lemma FirstIsThere(basePath: string, d: nat, tv: nat, w: World, b: seq<int>, m: nat)
    requires Consistent(basePath, d, tv, w, b, m) && w.archive.aggInfo.Some? && |w.archive.aggInfo.value| > 0
    ensures 0 < m < |b| && Covers(d, tv, w, b[..m + 1], w.archive.aggInfo.value)
    ensures w.archive.aggInfo.value[0].objPath in w.archive.files
  {
    KnownCovers(basePath, d, tv, w, b, w.archive.aggInfo.value, m);
    assert ElementHolds(d, tv, w, b[..m + 1], w.archive.aggInfo.value, 0);
  }
}
