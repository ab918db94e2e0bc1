/** Whole histories of an archive: runs that succeed or fail part-way, rebuilt indexes, and a source
    that grows in between. */
module History {
  import opened NetCdf
  import opened Subset
  import opened Tiling
  import opened AggInfo
  import opened Archive

  ghost predicate Increasing(src: NcFile, tv: nat) {
    forall i, j :: 0 <= i < j < |Times(src, tv)| ==> Unsigned(Times(src, tv)[i]) < Unsigned(Times(src, tv)[j])
  }

  function Name(basePath: string, k: nat): string {
    NthName(basePath, 0, k)
  }

  /** File k is the window of the source from b[k] up to b[k + 1]. */
  ghost predicate Holds(basePath: string, src: NcFile, d: nat, tv: nat, files: map<string, NcFile>, b: seq<int>,
                        k: nat) {
    k + 1 < |b| && Name(basePath, k) in files
    && files[Name(basePath, k)] == Window(src, d, tv, b[k], b[k + 1] - 1)
  }

  ghost predicate Bounds(b: seq<int>, len: nat) {
    |b| > 0 && (forall i, j :: 0 <= i < j < |b| ==> b[i] < b[j])
    && (|b| > 1 ==> 0 <= b[0] && b[|b| - 1] <= len)
  }

  /** File k holds the steps from b[k] up to b[k + 1], and there is no other file: the files cover
      the source from b[0] to the last bound without gap or overlap. */
  ghost predicate FilesTiled(basePath: string, src: NcFile, d: nat, tv: nat, files: map<string, NcFile>, b: seq<int>) {
    files in TiledBy(basePath, src, d, tv, b)
  }

  ghost function TiledBy(basePath: string, src: NcFile, d: nat, tv: nat, b: seq<int>): iset<map<string, NcFile>> {
    iset files: map<string, NcFile> | AreTiled(basePath, src, d, tv, files, b)
  }

  ghost predicate AreTiled(basePath: string, src: NcFile, d: nat, tv: nat, files: map<string, NcFile>, b: seq<int>) {
    Bounds(b, Length(src, d))
    && (forall k: nat :: k < |b| - 1 ==> Holds(basePath, src, d, tv, files, b, k))
    && (forall p :: p in files ==> exists k: nat :: k < |b| - 1 && p == Name(basePath, k))
  }

  lemma HoldsAt(basePath: string, src: NcFile, d: nat, tv: nat, files: map<string, NcFile>, b: seq<int>, k: nat)
    requires FilesTiled(basePath, src, d, tv, files, b) && k < |b| - 1
    ensures 0 <= b[k] < b[k + 1] <= Length(src, d) && Name(basePath, k) in files
    ensures files[Name(basePath, k)] == Window(src, d, tv, b[k], b[k + 1] - 1)
  {
    assert Holds(basePath, src, d, tv, files, b, k);
  }

  /** The index elements of the first m files. */
  function Canon(basePath: string, d: nat, tv: nat, files: map<string, NcFile>, m: nat): (r: seq<AggElement>)
    ensures |r| == m
  {
    seq(m, k requires 0 <= k < m =>
      if Name(basePath, k) in files then ElementOf(files[Name(basePath, k)], d, tv, Name(basePath, k))
      else EMPTY_ELEMENT)
  }

  datatype World = World(src: NcFile, archive: Archive)

  /** The files are tiled by b and the index knows the first m of them. */
  ghost predicate Consistent(basePath: string, d: nat, tv: nat, w: World, b: seq<int>, m: nat) {
    w in ConsistentWith(basePath, d, tv, b, m)
  }

  ghost function ConsistentWith(basePath: string, d: nat, tv: nat, b: seq<int>, m: nat): iset<World> {
    iset w: World |
      IsSeries(w.src, d, tv) && Increasing(w.src, tv) && FilesTiled(basePath, w.src, d, tv, w.archive.files, b)
      && m < |b| && IndexKnows(basePath, d, tv, w.archive, m)
  }

  /** The stored index lists the first m files. */
  ghost predicate IndexKnows(basePath: string, d: nat, tv: nat, a: Archive, m: nat) {
    if m == 0 then a.aggInfo == None || a.aggInfo == Some([])
    else a.aggInfo == Some(Canon(basePath, d, tv, a.files, m))
  }

  datatype Event =
    | Grow
    | ArchiveRun(newStart: Option<int>, archFileSize: nat, writable: nat, ok: bool)
    | Rebuild

  ghost predicate Step(basePath: string, d: nat, tv: nat, w: World, e: Event, w': World) {
    match e
    case Grow => Extends(w.src, w'.src, d, tv) && Increasing(w'.src, tv) && w'.archive == w.archive
    case ArchiveRun(newStart, size, writable, ok) =>
      w'.src == w.src && Run(basePath, w.src, d, tv, w.archive, newStart, size, writable, ok, w'.archive)
    case Rebuild =>
      w'.src == w.src && w'.archive.files == w.archive.files
      && w'.archive.aggInfo.Some? && Indexes(w'.archive.aggInfo.value, w.archive.files)
  }

  // ----- the index of tiled files -----

  /** The element of a window carries its first and last time and its length. */
  lemma WindowElement(src: NcFile, d: nat, tv: nat, lo: int, hi: int, g: NcFile, path: string)
    requires IsSeries(src, d, tv) && 0 <= lo <= hi < Length(src, d) && g == Window(src, d, tv, lo, hi)
    ensures |Times(src, tv)| == Length(src, d)
    ensures ElementOf(g, d, tv, path)
         == AggElement(Unsigned(Times(src, tv)[lo]), Unsigned(Times(src, tv)[hi]), hi - lo + 1, path)
  {
    WindowIsSeries(src, d, tv, lo, hi);
    WindowTimes(src, d, tv, lo, hi);
    TimesLength(g, d, tv);
    assert Times(g, tv)[0] == Times(src, tv)[lo];
    assert Times(g, tv)[hi - lo] == Times(src, tv)[hi];
  }

  lemma CanonHas(basePath: string, d: nat, tv: nat, files: map<string, NcFile>, k: nat, e: AggElement)
    requires Name(basePath, k) in files && ElementOf(files[Name(basePath, k)], d, tv, Name(basePath, k)) == e
    ensures forall m :: k < m ==> Canon(basePath, d, tv, files, m)[k] == e
  {
  }

  lemma CanonAt(basePath: string, d: nat, tv: nat, w: World, b: seq<int>, k: nat)
    requires IsSeries(w.src, d, tv) && FilesTiled(basePath, w.src, d, tv, w.archive.files, b) && k < |b| - 1
    ensures |Times(w.src, tv)| == Length(w.src, d) && 0 <= b[k] < b[k + 1] <= Length(w.src, d)
    ensures forall m :: k < m ==>
              Canon(basePath, d, tv, w.archive.files, m)[k]
              == AggElement(Unsigned(Times(w.src, tv)[b[k]]), Unsigned(Times(w.src, tv)[b[k + 1] - 1]),
                            b[k + 1] - b[k], Name(basePath, k))
  {
    HoldsAt(basePath, w.src, d, tv, w.archive.files, b, k);
    var file := w.archive.files[Name(basePath, k)];
    WindowElement(w.src, d, tv, b[k], b[k + 1] - 1, file, Name(basePath, k));
    CanonHas(basePath, d, tv, w.archive.files, k, ElementOf(file, d, tv, Name(basePath, k)));
  }

  lemma CanonSorted(basePath: string, d: nat, tv: nat, w: World, b: seq<int>)
    requires IsSeries(w.src, d, tv) && Increasing(w.src, tv)
    requires FilesTiled(basePath, w.src, d, tv, w.archive.files, b)
    ensures StrictlySorted(Canon(basePath, d, tv, w.archive.files, |b| - 1))
  {
    var c := Canon(basePath, d, tv, w.archive.files, |b| - 1);
    forall i, j | 0 <= i < j < |c|
      ensures Before(c[i], c[j])
    {
      CanonAt(basePath, d, tv, w, b, i);
      CanonAt(basePath, d, tv, w, b, j);
      assert b[i] < b[j];
    }
  }

  function Names(basePath: string, n: nat): (r: seq<string>)
    ensures |r| == n
  {
    seq(n, k requires 0 <= k < n => Name(basePath, k))
  }

  lemma NameInjective(basePath: string, i: nat, j: nat)
    ensures Name(basePath, i) == Name(basePath, j) ==> i == j
  {
    FileNameNumber(basePath, 0 + i);
    FileNameNumber(basePath, 0 + j);
  }

  lemma NamesListFiles(basePath: string, src: NcFile, d: nat, tv: nat, files: map<string, NcFile>, b: seq<int>)
    requires FilesTiled(basePath, src, d, tv, files, b)
    ensures IsListing(Names(basePath, |b| - 1), files.Keys)
  {
    var names := Names(basePath, |b| - 1);
    forall i, j | 0 <= i < j < |names| ensures names[i] != names[j] {
      NameInjective(basePath, i, j);
    }
    forall p ensures p in names <==> p in files.Keys {
      if p in files.Keys {
        var k: nat :| k < |b| - 1 && p == Name(basePath, k);
        assert names[k] == p;
      }
      if p in names {
        var k :| 0 <= k < |names| && names[k] == p;
        HoldsAt(basePath, src, d, tv, files, b, k);
      }
    }
  }

  lemma {:induction false} ListingCount(listing: seq<string>, x: string)
    requires forall i, j :: 0 <= i < j < |listing| ==> listing[i] != listing[j]
    ensures multiset(listing)[x] == if x in listing then 1 else 0
  {
    if |listing| > 0 {
      ListingCount(listing[1..], x);
      assert listing == [listing[0]] + listing[1..];
    }
  }

  lemma ListingsAgree(a: seq<string>, b: seq<string>, paths: set<string>)
    requires IsListing(a, paths) && IsListing(b, paths)
    ensures multiset(a) == multiset(b)
  {
    forall x ensures multiset(a)[x] == multiset(b)[x] {
      ListingCount(a, x);
      ListingCount(b, x);
      assert x in a <==> x in paths;
      assert x in b <==> x in paths;
    }
  }

  lemma ElementsWithout(files: map<string, NcFile>, d: nat, tv: nat, b: seq<string>, i: nat)
    requires i < |b| && forall p :: p in b ==> p in files
    ensures forall p :: p in b[..i] + b[i + 1..] ==> p in files
    ensures multiset(b[..i] + b[i + 1..]) == multiset(b) - multiset{b[i]}
    ensures multiset(Elements(files, d, tv, b))
         == multiset(Elements(files, d, tv, b[..i] + b[i + 1..])) + multiset{Elements(files, d, tv, b)[i]}
  {
    assert b == b[..i] + [b[i]] + b[i + 1..];
    var eb, rest := Elements(files, d, tv, b), b[..i] + b[i + 1..];
    assert eb == eb[..i] + [eb[i]] + eb[i + 1..];
    assert Elements(files, d, tv, rest) == eb[..i] + eb[i + 1..];
  }

  /** Listings of the same files give the same elements in some order. */
  lemma {:induction false} ElementsAgree(files: map<string, NcFile>, d: nat, tv: nat, a: seq<string>, b: seq<string>)
    requires multiset(a) == multiset(b)
    requires forall p :: p in a ==> p in files
    requires forall p :: p in b ==> p in files
    ensures multiset(Elements(files, d, tv, a)) == multiset(Elements(files, d, tv, b))
    decreases |a|
  {
    assert |a| == |multiset(a)| == |multiset(b)| == |b|;
    if |a| > 0 {
      assert a[0] in multiset(b);
      var i :| 0 <= i < |b| && b[i] == a[0];
      ElementsWithout(files, d, tv, a, 0);
      ElementsWithout(files, d, tv, b, i);
      assert Elements(files, d, tv, a)[0] == Elements(files, d, tv, b)[i];
      ElementsAgree(files, d, tv, a[..0] + a[1..], b[..i] + b[i + 1..]);
    }
  }

  lemma FilesAreSeries(basePath: string, d: nat, tv: nat, src: NcFile, files: map<string, NcFile>, b: seq<int>)
    requires IsSeries(src, d, tv) && FilesTiled(basePath, src, d, tv, files, b)
    ensures AllSeries(files, d, tv)
  {
    forall p | p in files ensures IsSeries(files[p], d, tv) && Length(files[p], d) > 0 {
      var k: nat :| k < |b| - 1 && p == Name(basePath, k);
      HoldsAt(basePath, src, d, tv, files, b, k);
      WindowIsSeries(src, d, tv, b[k], b[k + 1] - 1);
    }
  }

  /** An index rebuilt from tiled files lists them in the order of time, whatever the order the
      collection lists them in. */
  lemma RebuiltIndex(basePath: string, d: nat, tv: nat, w: World, b: seq<int>, elements: seq<AggElement>)
    requires IsSeries(w.src, d, tv) && Increasing(w.src, tv)
    requires FilesTiled(basePath, w.src, d, tv, w.archive.files, b)
    requires Indexes(elements, w.archive.files)
    ensures elements == Canon(basePath, d, tv, w.archive.files, |b| - 1)
  {
    var files := w.archive.files;
    FilesAreSeries(basePath, d, tv, w.src, files, b);
    SeriesIndex(elements, files, d, tv);
    var listing :| IsListing(listing, files.Keys) && elements == Built(Elements(files, d, tv, listing));
    var names := Names(basePath, |b| - 1);
    NamesListFiles(basePath, w.src, d, tv, files, b);
    ListingsAgree(listing, names, files.Keys);
    forall p | p in listing ensures p in files {
      assert p in files.Keys;
    }
    forall p | p in names ensures p in files {
      assert p in files.Keys;
    }
    ElementsAgree(files, d, tv, listing, names);
    var c := Canon(basePath, d, tv, files, |b| - 1);
    assert Elements(files, d, tv, names) == c;
    CanonSorted(basePath, d, tv, w, b);
    ListingOrderIrrelevant(Elements(files, d, tv, listing), c);
  }

  /** The next number after the first m > 0 files is m. */
  lemma NextOfCanon(basePath: string, d: nat, tv: nat, files: map<string, NcFile>, m: nat)
    requires forall k: nat :: k < m ==> Name(basePath, k) in files
    ensures NextNumber(Canon(basePath, d, tv, files, m), basePath) == if m == 0 then 1 else m
  {
    var c := Canon(basePath, d, tv, files, m);
    forall k | 0 <= k < m
      ensures Numbered(basePath, c[k].objPath) && NumberOf(basePath, c[k].objPath) == k
    {
      assert Name(basePath, k) in files;
      FileNameNumber(basePath, 0 + k);
    }
    if m > 0 {
      assert NumberOf(basePath, c[m - 1].objPath) == m - 1;
    }
  }

  /** A run that continues an index of m files starts at the bound behind them, and nowhere else. */
  lemma ResumesAtBound(basePath: string, d: nat, tv: nat, w: World, b: seq<int>, m: nat, s: int)
    requires Consistent(basePath, d, tv, w, b, m) && m > 0
    ensures StartsAt(w.src, tv, w.archive.aggInfo, None, s) <==> s == b[m]
  {
    CanonAt(basePath, d, tv, w, b, m - 1);
    var times := Times(w.src, tv);
    assert w.archive.aggInfo.value[m - 1].endTime == Unsigned(times[b[m] - 1]);
    ResumesExactly(times, Unsigned(times[b[m] - 1]), READ_TIME_SIZE, s);
    FirstAfterBound(times, b[m], s);
  }

  lemma FirstAfterBound(times: seq<int>, bound: int, s: int)
    requires 0 < bound <= |times|
    requires forall i, j :: 0 <= i < j < |times| ==> Unsigned(times[i]) < Unsigned(times[j])
    ensures IsFirstAfter(times, Unsigned(times[bound - 1]), s) <==> s == bound
  {
    assert IsFirstAfter(times, Unsigned(times[bound - 1]), bound);
    if IsFirstAfter(times, Unsigned(times[bound - 1]), s) {
      FirstAfterUnique(times, Unsigned(times[bound - 1]), s, bound);
    }
  }

  // ----- writing -----

  /** Bounds after the first m spans have been added. */
  function Extend(b: seq<int>, tiles: seq<Span>, m: nat): (r: seq<int>)
    requires m <= |tiles|
    ensures |r| == |b| + m && b <= r
    ensures m > 0 ==> r[|r| - 1] == tiles[m - 1].hi + 1
  {
    if m == 0 then b else Extend(b, tiles, m - 1) + [tiles[m - 1].hi + 1]
  }

  /** The next span begins where the bounds added so far end. */
  lemma NextSpanFollows(b: seq<int>, tiles: seq<Span>, m: nat, end: int)
    requires |b| > 0 && m < |tiles| && Partition(tiles, b[|b| - 1], end)
    ensures Extend(b, tiles, m)[|b| + m - 1] == tiles[m].lo
    ensures b[|b| - 1] <= tiles[m].lo <= tiles[m].hi <= end
  {
    SpanInside(tiles, b[|b| - 1], end, m);
    assert m > 0 ==> tiles[m - 1].hi + 1 == tiles[m - 1 + 1].lo;
  }

  lemma {:induction false} WrittenTiled(files: map<string, NcFile>, plan: Plan, b: seq<int>, m: nat, end: int)
    requires FilesTiled(plan.basePath, plan.src, plan.d, plan.tv, files, b)
    requires m <= |plan.tiles| && plan.next == |b| - 1 && Partition(plan.tiles, b[|b| - 1], end)
    requires end < Length(plan.src, plan.d) && (m > 0 ==> b[|b| - 1] >= 0)
    ensures FilesTiled(plan.basePath, plan.src, plan.d, plan.tv, After(files, plan, m), Extend(b, plan.tiles, m))
  {
    if m > 0 {
      WrittenTiled(files, plan, b, m - 1, end);
      NextTiled(files, plan, b, m - 1, end);
    }
  }

  lemma NextTiled(files: map<string, NcFile>, plan: Plan, b: seq<int>, m: nat, end: int)
    requires |b| > 0 && m < |plan.tiles| && plan.next == |b| - 1 && Partition(plan.tiles, b[|b| - 1], end)
    requires end < Length(plan.src, plan.d) && b[|b| - 1] >= 0
    requires FilesTiled(plan.basePath, plan.src, plan.d, plan.tv, After(files, plan, m), Extend(b, plan.tiles, m))
    ensures FilesTiled(plan.basePath, plan.src, plan.d, plan.tv,
                       After(files, plan, m + 1), Extend(b, plan.tiles, m + 1))
  {
    NextSpanFollows(b, plan.tiles, m, end);
    OneMoreFile(plan.basePath, plan.src, plan.d, plan.tv, After(files, plan, m), Extend(b, plan.tiles, m),
                plan.tiles[m].hi, After(files, plan, m + 1), Extend(b, plan.tiles, m + 1));
  }

  lemma OneMoreFile(basePath: string, src: NcFile, d: nat, tv: nat, files: map<string, NcFile>, b: seq<int>, hi: int,
                    files': map<string, NcFile>, b': seq<int>)
    requires FilesTiled(basePath, src, d, tv, files, b) && 0 <= b[|b| - 1] <= hi < Length(src, d)
    requires files' == files[Name(basePath, |b| - 1) := Window(src, d, tv, b[|b| - 1], hi)] && b' == b + [hi + 1]
    ensures FilesTiled(basePath, src, d, tv, files', b')
  {
    forall k: nat | k < |b'| - 1 ensures Holds(basePath, src, d, tv, files', b', k) {
      if k < |b| - 1 {
        StillHolds(basePath, src, d, tv, files, b, hi, k, files', b');
      }
    }
    forall p | p in files' ensures exists k: nat :: k < |b'| - 1 && p == Name(basePath, k) {
      if p in files {
        var k: nat :| k < |b| - 1 && p == Name(basePath, k);
      } else {
        assert p == Name(basePath, |b| - 1);
      }
    }
  }

  lemma StillHolds(basePath: string, src: NcFile, d: nat, tv: nat, files: map<string, NcFile>, b: seq<int>, hi: int,
                   k: nat, files': map<string, NcFile>, b': seq<int>)
    requires FilesTiled(basePath, src, d, tv, files, b) && k < |b| - 1
    requires files' == files[Name(basePath, |b| - 1) := Window(src, d, tv, b[|b| - 1], hi)] && b' == b + [hi + 1]
    ensures Holds(basePath, src, d, tv, files', b', k)
  {
    HoldsAt(basePath, src, d, tv, files, b, k);
    NameInjective(basePath, k, |b| - 1);
  }

  lemma FilesStay(basePath: string, d: nat, tv: nat, src: NcFile, files: map<string, NcFile>, b: seq<int>,
                  files': map<string, NcFile>, b': seq<int>, m: nat)
    requires FilesTiled(basePath, src, d, tv, files, b) && FilesTiled(basePath, src, d, tv, files', b')
    requires b <= b' && m < |b|
    ensures forall k: nat :: k < m ==> Name(basePath, k) in files && Name(basePath, k) in files'
    ensures Canon(basePath, d, tv, files, m) == Canon(basePath, d, tv, files', m)
  {
    forall k: nat | k < m
      ensures Name(basePath, k) in files && Name(basePath, k) in files'
      ensures files[Name(basePath, k)] == files'[Name(basePath, k)]
    {
      FileStays(basePath, d, tv, src, files, b, files', b', k);
    }
  }

  lemma FileStays(basePath: string, d: nat, tv: nat, src: NcFile, files: map<string, NcFile>, b: seq<int>,
                  files': map<string, NcFile>, b': seq<int>, k: nat)
    requires FilesTiled(basePath, src, d, tv, files, b) && FilesTiled(basePath, src, d, tv, files', b')
    requires b <= b' && k < |b| - 1
    ensures Name(basePath, k) in files && Name(basePath, k) in files'
    ensures files[Name(basePath, k)] == files'[Name(basePath, k)]
  {
    HoldsAt(basePath, src, d, tv, files, b, k);
    HoldsAt(basePath, src, d, tv, files', b', k);
    assert b[k] == b'[k] && b[k + 1] == b'[k + 1];
  }

  // ----- one event -----

  /** A run whose first name is taken writes nothing; it succeeds only if nothing is pending. */
  lemma BlockedRun(files: map<string, NcFile>, plan: Plan, wrote: nat, files': map<string, NcFile>)
    requires Wrote(files, plan, wrote, files') && NthName(plan.basePath, plan.next, 0) in files
    ensures wrote == 0 && files' == files
    ensures wrote == |plan.tiles| ==> plan.tiles == []
  {
    assert !Free(files, plan, 0);
  }

  /** The spans of a plan start at the last bound and are written under the numbers that follow; the
      last of them is longer than a step. */
  ghost predicate Continues(plan: Plan, b: seq<int>, end: int) {
    |b| > 0 && (plan.tiles == [] || IsNext(plan, b, end))
  }

  ghost predicate IsNext(plan: Plan, b: seq<int>, end: int) {
    |b| > 0 && plan.next == |b| - 1 && Partition(plan.tiles, b[|b| - 1], end)
    && plan.tiles[|plan.tiles| - 1].Size() > 1
  }

  /** A span that follows tiled files can be written when the server takes another file. */
  lemma SpanIsFree(files: map<string, NcFile>, plan: Plan, b: seq<int>, k: nat, end: int)
    requires FilesTiled(plan.basePath, plan.src, plan.d, plan.tv, files, b) && IsSeries(plan.src, plan.d, plan.tv)
    requires IsNext(plan, b, end) && 0 <= b[|b| - 1] && end < Length(plan.src, plan.d)
    requires k < |plan.tiles| && k < plan.writable
    ensures Free(files, plan, k)
  {
    SpanInside(plan.tiles, b[|b| - 1], end, k);
    WindowDumpable(plan.src, plan.d, plan.tv, plan.tiles[k].lo, plan.tiles[k].hi);
    WrittenTiled(files, plan, b, k, end);
    NameIsFree(plan.basePath, plan.src, plan.d, plan.tv, After(files, plan, k), Extend(b, plan.tiles, k));
    assert NthName(plan.basePath, plan.next, k) == Name(plan.basePath, plan.next + k);
  }

  lemma NameIsFree(basePath: string, src: NcFile, d: nat, tv: nat, files: map<string, NcFile>, b: seq<int>)
    requires FilesTiled(basePath, src, d, tv, files, b)
    ensures Name(basePath, |b| - 1) !in files
  {
    if Name(basePath, |b| - 1) in files {
      var k: nat :| k < |b| - 1 && Name(basePath, |b| - 1) == Name(basePath, k);
      NameInjective(basePath, k, |b| - 1);
    }
  }

  lemma {:induction false} SpansOrdered(tiles: seq<Span>, cur: int, end: int, k: nat)
    requires Partition(tiles, cur, end) && k < |tiles|
    ensures tiles[k].lo <= tiles[|tiles| - 1].lo
    decreases |tiles| - k
  {
    if k < |tiles| - 1 {
      SpansOrdered(tiles, cur, end, k + 1);
    }
  }

  /** As many spans are written as there are or the server takes files; at most one step is left exactly
      when there is room for all of them. */
  lemma RoomExactly(files: map<string, NcFile>, plan: Plan, b: seq<int>, end: int, wrote: nat,
                    files': map<string, NcFile>)
    requires FilesTiled(plan.basePath, plan.src, plan.d, plan.tv, files, b) && IsSeries(plan.src, plan.d, plan.tv)
    requires IsNext(plan, b, end) && 0 <= b[|b| - 1] && end < Length(plan.src, plan.d)
    requires Wrote(files, plan, wrote, files')
    ensures wrote == |plan.tiles| <==> plan.writable >= |plan.tiles|
    ensures |b| + wrote == |Extend(b, plan.tiles, wrote)|
    ensures end - Extend(b, plan.tiles, wrote)[|b| + wrote - 1] <= 0 <==> plan.writable >= |plan.tiles|
  {
    if wrote < |plan.tiles| {
      if wrote < plan.writable {
        SpanIsFree(files, plan, b, wrote, end);
      }
      NextSpanFollows(b, plan.tiles, wrote, end);
      SpansOrdered(plan.tiles, b[|b| - 1], end, wrote);
    } else {
      assert Free(files, plan, wrote - 1);
    }
  }

  lemma ContinuedRun(w: World, b: seq<int>, plan: Plan, end: int, wrote: nat, files': map<string, NcFile>)
    returns (b': seq<int>)
    requires plan.src == w.src && IsSeries(w.src, plan.d, plan.tv)
    requires FilesTiled(plan.basePath, w.src, plan.d, plan.tv, w.archive.files, b) && end < Length(w.src, plan.d)
    requires Continues(plan, b, end) && Wrote(w.archive.files, plan, wrote, files')
    ensures FilesTiled(plan.basePath, w.src, plan.d, plan.tv, files', b') && b <= b'
    ensures wrote == |plan.tiles| > 0 ==> b'[|b'| - 1] == end + 1
    ensures |plan.tiles| == 0 ==> b' == b
    ensures |plan.tiles| > 0 && b[|b| - 1] >= 0 ==> (end - b'[|b'| - 1] <= 0 <==> plan.writable >= |plan.tiles|)
  {
    if plan.tiles == [] {
      b' := b;
    } else {
      if wrote > 0 {
        assert Free(w.archive.files, plan, 0);
        WindowDumpable(plan.src, plan.d, plan.tv, plan.tiles[0].lo, plan.tiles[0].hi);
      }
      WrittenTiled(w.archive.files, plan, b, wrote, end);
      b' := Extend(b, plan.tiles, wrote);
      if b[|b| - 1] >= 0 {
        RoomExactly(w.archive.files, plan, b, end, wrote, files');
      }
    }
  }

  /** The spans pending from s on. */
  lemma PendingSpans(src: NcFile, d: nat, tv: nat, s: int, size: nat)
    requires IsSeries(src, d, tv)
    ensures var tiles := Pending(src, d, s, Length(src, d) - 1, size);
            if Length(src, d) - s <= 1 then tiles == []
            else Partition(tiles, s, Length(src, d) - 1) && tiles[|tiles| - 1].Size() > 1
  {
    StepSizePositive(src, d, tv);
    var n := Interval(size, StepSize(src.inq, d));
    var end := Length(src, d) - 1;
    TilesEmpty(s, end, n);
    if s < end {
      TilesPartition(s, end, n);
      TileSizes(s, end, n);
    }
  }

  lemma NextIsCount(basePath: string, d: nat, tv: nat, w: World, b: seq<int>, m: nat)
    requires Consistent(basePath, d, tv, w, b, m) && m > 0
    ensures FirstNumber(w.archive.aggInfo, basePath) == m
  {
    forall k: nat | k < m ensures Name(basePath, k) in w.archive.files {
      HoldsAt(basePath, w.src, d, tv, w.archive.files, b, k);
    }
    NextOfCanon(basePath, d, tv, w.archive.files, m);
  }

  lemma PlanAtBound(src: NcFile, d: nat, tv: nat, b: seq<int>, m: nat, plan: Plan, size: nat)
    requires IsSeries(src, d, tv) && Bounds(b, Length(src, d)) && m < |b|
    requires plan.next == m && plan.tiles == Pending(src, d, b[m], Length(src, d) - 1, size)
    ensures m < |b| - 1 || Continues(plan, b, Length(src, d) - 1)
    ensures plan.tiles == [] ==> Length(src, d) - b[|b| - 1] <= 1
  {
    PendingSpans(src, d, tv, b[m], size);
    assert m < |b| - 1 ==> b[m] < b[|b| - 1];
  }

  /** A run can extend the archive: it begins one, or the index it goes on from knows all the files. */
  predicate Extensible(newStart: Option<int>, b: seq<int>, m: nat) {
    if newStart.Some? then |b| == 1 else 0 < m == |b| - 1
  }

  /** A plan that can extend the archive continues it; any other one finds its first name taken. */
  ghost predicate GoesOnFrom(plan: Plan, from: seq<int>, extensible: bool, s: int, end: int) {
    |from| > 0
    && if extensible then plan.next == |from| - 1 && from[|from| - 1] == s && Continues(plan, from, end)
       else plan.next < |from| - 1
  }

  /** An incremental run either finds its first name taken or continues the tiling. */
  lemma IncrementalPlan(basePath: string, d: nat, tv: nat, w: World, b: seq<int>, m: nat, s: int,
                        plan: Plan, size: nat)
    requires Consistent(basePath, d, tv, w, b, m) && StartsAt(w.src, tv, w.archive.aggInfo, None, s)
    requires plan.next == FirstNumber(w.archive.aggInfo, basePath)
    requires plan.tiles == Pending(w.src, d, s, Length(w.src, d) - 1, size)
    ensures FilesTiled(basePath, w.src, d, tv, w.archive.files, b)
    ensures GoesOnFrom(plan, b, Extensible(None, b, m), s, Length(w.src, d) - 1)
    ensures plan.tiles == [] ==> Length(w.src, d) - b[|b| - 1] <= 1
  {
    ResumesAtBound(basePath, d, tv, w, b, m, s);
    NextIsCount(basePath, d, tv, w, b, m);
    PlanAtBound(w.src, d, tv, b, m, plan, size);
  }

  /** A run for a new archive finds its first name taken, or there is no file yet. */
  lemma NewPlan(basePath: string, d: nat, tv: nat, w: World, b: seq<int>, m: nat, s: int, plan: Plan, size: nat)
    requires Consistent(basePath, d, tv, w, b, m)
    requires plan.next == 0 && plan.tiles == Pending(w.src, d, s, Length(w.src, d) - 1, size)
    ensures var from := if |b| == 1 then [s] else b;
            FilesTiled(basePath, w.src, d, tv, w.archive.files, from)
            && GoesOnFrom(plan, from, |b| == 1, s, Length(w.src, d) - 1)
    ensures plan.tiles == [] ==> Length(w.src, d) - s <= 1
  {
    PendingSpans(w.src, d, tv, s, size);
    if |b| == 1 {
      assert AreTiled(basePath, w.src, d, tv, w.archive.files, b);
      assert AreTiled(basePath, w.src, d, tv, w.archive.files, [s]);
    }
  }

  lemma PlannedRun(w: World, b: seq<int>, plan: Plan, end: int, wrote: nat, files': map<string, NcFile>)
    returns (b': seq<int>)
    requires plan.src == w.src && IsSeries(w.src, plan.d, plan.tv)
    requires FilesTiled(plan.basePath, w.src, plan.d, plan.tv, w.archive.files, b) && end < Length(w.src, plan.d)
    requires plan.next < |b| - 1 || Continues(plan, b, end)
    requires Wrote(w.archive.files, plan, wrote, files')
    ensures FilesTiled(plan.basePath, w.src, plan.d, plan.tv, files', b') && b <= b'
    ensures wrote == |plan.tiles| > 0 ==> b'[|b'| - 1] == end + 1
    ensures |plan.tiles| == 0 ==> b' == b
    ensures plan.next < |b| - 1 ==> b' == b
    ensures plan.next >= |b| - 1 && |plan.tiles| > 0 && b[|b| - 1] >= 0 ==>
              (end - b'[|b'| - 1] <= 0 <==> plan.writable >= |plan.tiles|)
  {
    if plan.next < |b| - 1 {
      HoldsAt(plan.basePath, w.src, plan.d, plan.tv, w.archive.files, b, plan.next);
      assert NthName(plan.basePath, plan.next, 0) == Name(plan.basePath, plan.next);
      BlockedRun(w.archive.files, plan, wrote, files');
      b' := b;
    } else {
      b' := ContinuedRun(w, b, plan, end, wrote, files');
    }
  }

  /** The bounds a run goes on from: a new archive is one that begins with the step it has been told. */
  lemma BoundsOfRun(basePath: string, d: nat, tv: nat, w: World, b: seq<int>, m: nat, newStart: Option<int>,
                    s: int, plan: Plan, size: nat)
    returns (from: seq<int>)
    requires Consistent(basePath, d, tv, w, b, m) && StartsAt(w.src, tv, w.archive.aggInfo, newStart, s)
    requires plan.next == FirstNumber(BaseIndex(newStart, w.archive.aggInfo), basePath)
    requires plan.tiles == Pending(w.src, d, s, Length(w.src, d) - 1, size)
    ensures FilesTiled(basePath, w.src, d, tv, w.archive.files, from)
    ensures from == if newStart.Some? && |b| == 1 then [s] else b
    ensures GoesOnFrom(plan, from, Extensible(newStart, b, m), s, Length(w.src, d) - 1)
    ensures plan.tiles == [] && (newStart.None? || |b| == 1) ==> Length(w.src, d) - from[|from| - 1] <= 1
  {
    from := b;
    if newStart.None? {
      IncrementalPlan(basePath, d, tv, w, b, m, s, plan, size);
    } else {
      NewPlan(basePath, d, tv, w, b, m, s, plan, size);
      if |b| == 1 {
        from := [s];
      }
    }
  }

  /** The index is what it was, or has been rebuilt from the files there are now. */
  lemma IndexAfterRun(basePath: string, d: nat, tv: nat, w: World, b: seq<int>, m: nat, w': World, b': seq<int>,
                      ok: bool)
    returns (m': nat)
    requires Consistent(basePath, d, tv, w, b, m)
    requires w'.src == w.src && FilesTiled(basePath, w.src, d, tv, w'.archive.files, b')
    requires |b| > 1 ==> b <= b'
    requires if ok then w'.archive.aggInfo.Some? && Indexes(w'.archive.aggInfo.value, w'.archive.files)
             else w'.archive.aggInfo == w.archive.aggInfo
    ensures Consistent(basePath, d, tv, w', b', m')
    ensures m' == if ok then |b'| - 1 else m
  {
    if ok {
      RebuiltIndex(basePath, d, tv, w', b', w'.archive.aggInfo.value);
      m' := |b'| - 1;
    } else {
      m' := m;
      if m > 0 {
        FilesStay(basePath, d, tv, w.src, w.archive.files, b, w'.archive.files, b', m);
      }
    }
  }

  lemma RunFromBounds(w: World, b: seq<int>, m: nat, newStart: Option<int>, s: int, plan: Plan, from: seq<int>,
                      wrote: nat, ok: bool, a': Archive)
    returns (b': seq<int>, m': nat)
    requires Consistent(plan.basePath, plan.d, plan.tv, w, b, m) && plan.src == w.src
    requires FilesTiled(plan.basePath, w.src, plan.d, plan.tv, w.archive.files, from)
    requires from == if newStart.Some? && |b| == 1 then [s] else b
    requires GoesOnFrom(plan, from, Extensible(newStart, b, m), s, Length(w.src, plan.d) - 1)
    requires plan.tiles == [] && (newStart.None? || |b| == 1) ==> Length(w.src, plan.d) - from[|from| - 1] <= 1
    requires Wrote(w.archive.files, plan, wrote, a'.files) && (ok ==> wrote == |plan.tiles|)
    requires if ok then a'.aggInfo.Some? && Indexes(a'.aggInfo.value, a'.files) else a'.aggInfo == w.archive.aggInfo
    ensures Consistent(plan.basePath, plan.d, plan.tv, World(w.src, a'), b', m')
    ensures |b| > 1 ==> b <= b'
    ensures m' == if ok then |b'| - 1 else m
    ensures ok && (newStart.None? || |b| == 1) ==> Length(w.src, plan.d) - b'[|b'| - 1] <= 1
    ensures newStart.Some? && |b| == 1 ==> b'[0] == s
    ensures Extensible(newStart, b, m) && s >= 0 ==>
              (Length(w.src, plan.d) - b'[|b'| - 1] <= 1 <==> plan.writable >= |plan.tiles|)
    ensures !Extensible(newStart, b, m) ==> b' == b
  {
    b' := PlannedRun(w, from, plan, Length(w.src, plan.d) - 1, wrote, a'.files);
    m' := IndexAfterRun(plan.basePath, plan.d, plan.tv, w, b, m, World(w.src, a'), b', ok);
  }

  /** A run keeps the tiling, and a successful one brings the index up to date. A new archive begins
      with the step it has been told to; when the run that begins or continues an archive succeeds, at
      most one step is left unarchived. A run through an index that does not know all files writes none;
      any other one leaves at most one step exactly when there is room for the pending spans. */
  lemma RunKeepsTiling(basePath: string, d: nat, tv: nat, w: World, b: seq<int>, m: nat, newStart: Option<int>,
                       s: int, size: nat, writable: nat, wrote: nat, ok: bool, a': Archive)
    returns (b': seq<int>, m': nat)
    requires Consistent(basePath, d, tv, w, b, m)
    requires StartsAt(w.src, tv, w.archive.aggInfo, newStart, s)
    requires RunFrom(basePath, w.src, d, tv, w.archive, newStart, s, size, writable, wrote, ok, a')
    ensures Consistent(basePath, d, tv, World(w.src, a'), b', m')
    ensures |b| > 1 ==> b <= b'
    ensures m' == if ok then |b'| - 1 else m
    ensures ok && (newStart.None? || |b| == 1) ==> Length(w.src, d) - b'[|b'| - 1] <= 1
    ensures newStart.Some? && |b| == 1 ==> b'[0] == s
    ensures newStart.None? ==> s == b[m]
    ensures Extensible(newStart, b, m) && s >= 0 ==>
              (Length(w.src, d) - b'[|b'| - 1] <= 1
               <==> writable >= |Pending(w.src, d, s, Length(w.src, d) - 1, size)|)
    ensures !Extensible(newStart, b, m) ==> b' == b
  {
    var plan := RunPlan(basePath, w.src, d, tv, w.archive, newStart, s, size, writable);
    var from := BoundsOfRun(basePath, d, tv, w, b, m, newStart, s, plan, size);
    b', m' := RunFromBounds(w, b, m, newStart, s, plan, from, wrote, ok, a');
    if newStart.None? {
      ResumesAtBound(basePath, d, tv, w, b, m, s);
    }
  }

  lemma GrownFiles(basePath: string, src: NcFile, src': NcFile, d: nat, tv: nat, files: map<string, NcFile>,
                   b: seq<int>)
    requires FilesTiled(basePath, src, d, tv, files, b) && Extends(src, src', d, tv)
    ensures FilesTiled(basePath, src', d, tv, files, b)
  {
    forall k: nat | k < |b| - 1 ensures Holds(basePath, src', d, tv, files, b, k) {
      GrownFile(basePath, src, src', d, tv, files, b, k);
    }
  }

  lemma GrownFile(basePath: string, src: NcFile, src': NcFile, d: nat, tv: nat, files: map<string, NcFile>,
                  b: seq<int>, k: nat)
    requires FilesTiled(basePath, src, d, tv, files, b) && Extends(src, src', d, tv) && k < |b| - 1
    ensures Holds(basePath, src', d, tv, files, b, k)
  {
    HoldsAt(basePath, src, d, tv, files, b, k);
    WindowSurvives(src, src', d, tv, b[k], b[k + 1] - 1);
    HoldsIf(basePath, src', d, tv, files, b, k, Window(src, d, tv, b[k], b[k + 1] - 1));
  }

  lemma HoldsIf(basePath: string, src: NcFile, d: nat, tv: nat, files: map<string, NcFile>, b: seq<int>, k: nat,
                g: NcFile)
    requires k + 1 < |b| && Name(basePath, k) in files && files[Name(basePath, k)] == g
    requires g == Window(src, d, tv, b[k], b[k + 1] - 1)
    ensures Holds(basePath, src, d, tv, files, b, k)
  {
  }

  lemma GrowKeepsTiling(basePath: string, d: nat, tv: nat, w: World, w': World, b: seq<int>, m: nat)
    requires Consistent(basePath, d, tv, w, b, m) && Step(basePath, d, tv, w, Grow, w')
    ensures Consistent(basePath, d, tv, w', b, m)
  {
    GrownFiles(basePath, w.src, w'.src, d, tv, w.archive.files, b);
  }

  ghost predicate UpToDate(d: nat, w: World, b: seq<int>, m: nat) {
    |b| > 0 && m == |b| - 1 && Length(w.src, d) - b[|b| - 1] <= 1
  }

  /** A run that continues the archive, or begins it. */
  predicate Archives(e: Event, b: seq<int>) {
    e.ArchiveRun? && (e.newStart.None? || |b| == 1)
  }

  /** The step a run of a tiled archive starts with. */
  function FirstStep(newStart: Option<int>, b: seq<int>): int
    requires |b| > 0
  {
    if newStart.Some? then newStart.value else b[|b| - 1]
  }

  /** What an event does to the bounds and to the number of files the index knows. */
  ghost predicate Advances(d: nat, w: World, e: Event, w': World, b: seq<int>, m: nat, b': seq<int>, m': nat) {
    |b| > 0 && |b'| > 0 && (|b| > 1 ==> b <= b')
    && match e
       case Grow => b' == b && m' == m
       case Rebuild => b' == b && m' == |b| - 1
       case ArchiveRun(newStart, size, writable, ok) =>
         m' == (if ok then |b'| - 1 else m)
         && (Archives(e, b) && ok ==> UpToDate(d, w', b', m'))
         && (Archives(e, b) && newStart.Some? ==> b'[0] == newStart.value)
         && if Extensible(newStart, b, m) then Reaches(w.src, d, FirstStep(newStart, b), size, writable, b')
            else b' == b
  }

  /** From a step of the series on, a run leaves at most one step exactly when there is room for the
      files of all pending spans. */
  ghost predicate Reaches(src: NcFile, d: nat, s: int, size: nat, writable: nat, b': seq<int>) {
    |b'| > 0
    && (s >= 0 ==>
          (Length(src, d) - b'[|b'| - 1] <= 1 <==> writable >= |Pending(src, d, s, Length(src, d) - 1, size)|))
  }

  /** The run starts at s and writes this many files. */
  ghost predicate Started(basePath: string, d: nat, tv: nat, w: World, e: Event, w': World, s: int, wrote: nat) {
    e.ArchiveRun? && w'.src == w.src && StartsAt(w.src, tv, w.archive.aggInfo, e.newStart, s)
    && RunFrom(basePath, w.src, d, tv, w.archive, e.newStart, s, e.archFileSize, e.writable, wrote, e.ok, w'.archive)
  }

  lemma StartedRun(basePath: string, d: nat, tv: nat, w: World, e: Event, w': World, b: seq<int>, m: nat,
                   s: int, wrote: nat)
    returns (b': seq<int>, m': nat)
    requires Consistent(basePath, d, tv, w, b, m) && Started(basePath, d, tv, w, e, w', s, wrote)
    ensures Consistent(basePath, d, tv, w', b', m')
    ensures Advances(d, w, e, w', b, m, b', m')
  {
    b', m' := RunKeepsTiling(basePath, d, tv, w, b, m, e.newStart, s, e.archFileSize, e.writable, wrote, e.ok,
                             w'.archive);
    assert World(w.src, w'.archive) == w';
    assert Extensible(e.newStart, b, m) ==> FirstStep(e.newStart, b) == s;
  }

  lemma RunAdvances(basePath: string, d: nat, tv: nat, w: World, e: Event, w': World, b: seq<int>, m: nat)
    returns (b': seq<int>, m': nat)
    requires Consistent(basePath, d, tv, w, b, m) && e.ArchiveRun? && Step(basePath, d, tv, w, e, w')
    ensures Consistent(basePath, d, tv, w', b', m')
    ensures Advances(d, w, e, w', b, m, b', m')
  {
    NoStart(basePath, d, tv, w, b, m, e.newStart);
    if e.newStart.None? && m == 0 {
      b', m' := b, m;
      assert w' == w;
    } else {
      var s, wrote := StartOfStep(basePath, d, tv, w, e, w');
      b', m' := StartedRun(basePath, d, tv, w, e, w', b, m, s, wrote);
    }
  }

  lemma StartOfStep(basePath: string, d: nat, tv: nat, w: World, e: Event, w': World) returns (s: int, wrote: nat)
    requires e.ArchiveRun? && Step(basePath, d, tv, w, e, w')
    requires exists s :: StartsAt(w.src, tv, w.archive.aggInfo, e.newStart, s)
    ensures Started(basePath, d, tv, w, e, w', s, wrote)
  {
    var ArchiveRun(newStart, size, writable, ok) := e;
    s, wrote :| StartsAt(w.src, tv, w.archive.aggInfo, newStart, s)
      && RunFrom(basePath, w.src, d, tv, w.archive, newStart, s, size, writable, wrote, ok, w'.archive);
  }

  /** Only an incremental run whose index knows no file finds no step to start with. */
  lemma NoStart(basePath: string, d: nat, tv: nat, w: World, b: seq<int>, m: nat, newStart: Option<int>)
    requires Consistent(basePath, d, tv, w, b, m)
    ensures (exists s :: StartsAt(w.src, tv, w.archive.aggInfo, newStart, s)) <==> newStart.Some? || m > 0
  {
    if newStart.Some? {
      assert StartsAt(w.src, tv, w.archive.aggInfo, newStart, newStart.value);
    } else if m > 0 {
      ResumesAtBound(basePath, d, tv, w, b, m, b[m]);
    }
  }

  lemma StepKeepsTiling(basePath: string, d: nat, tv: nat, w: World, e: Event, w': World, b: seq<int>, m: nat)
    returns (b': seq<int>, m': nat)
    requires Consistent(basePath, d, tv, w, b, m) && Step(basePath, d, tv, w, e, w')
    ensures Consistent(basePath, d, tv, w', b', m')
    ensures Advances(d, w, e, w', b, m, b', m')
  {
    b', m' := b, m;
    match e
    case Grow =>
      GrowKeepsTiling(basePath, d, tv, w, w', b, m);
    case Rebuild =>
      RebuiltIndex(basePath, d, tv, w', b, w'.archive.aggInfo.value);
      m' := |b| - 1;
    case ArchiveRun(_, _, _, _) =>
      b', m' := RunAdvances(basePath, d, tv, w, e, w', b, m);
  }

  // ----- whole histories -----

  ghost predicate IsHistory(basePath: string, d: nat, tv: nat, ws: seq<World>, es: seq<Event>) {
    |ws| == |es| + 1
    && IsSeries(ws[0].src, d, tv) && Increasing(ws[0].src, tv) && ws[0].archive == Archive(map[], None)
    && forall i :: 0 <= i < |es| ==> Step(basePath, d, tv, ws[i], es[i], ws[i + 1])
  }

  lemma HistoryPrefix(basePath: string, d: nat, tv: nat, ws: seq<World>, es: seq<Event>, n: nat)
    requires IsHistory(basePath, d, tv, ws, es) && n <= |es|
    ensures IsHistory(basePath, d, tv, ws[..n + 1], es[..n])
  {
    forall i | 0 <= i < n ensures Step(basePath, d, tv, ws[..n + 1][i], es[..n][i], ws[..n + 1][i + 1]) {
      assert Step(basePath, d, tv, ws[i], es[i], ws[i + 1]);
    }
  }

  /** State i is tiled by bs[i], its index knows ms[i] files, and the event before it has advanced them. */
  ghost predicate Tracked(basePath: string, d: nat, tv: nat, ws: seq<World>, es: seq<Event>,
                          bs: seq<seq<int>>, ms: seq<nat>, i: nat)
    requires |bs| == |ms| == |ws| == |es| + 1 && i < |ws|
  {
    Consistent(basePath, d, tv, ws[i], bs[i], ms[i])
    && (i > 0 ==> Advances(d, ws[i - 1], es[i - 1], ws[i], bs[i - 1], ms[i - 1], bs[i], ms[i]))
  }

  /** Once there is a file, the tiling of a state is the beginning of the tiling of every later one:
      the first index is fixed and written files stay. */
  lemma {:induction false} TilingOnlyGrows(basePath: string, d: nat, tv: nat, ws: seq<World>, es: seq<Event>,
                                           bs: seq<seq<int>>, ms: seq<nat>, i: nat, j: nat)
    requires |bs| == |ms| == |ws| == |es| + 1 && i <= j < |ws| && |bs[i]| > 1
    requires forall k: nat :: k < |ws| ==> Tracked(basePath, d, tv, ws, es, bs, ms, k)
    ensures bs[i] <= bs[j]
    decreases j
  {
    if i < j {
      TilingOnlyGrows(basePath, d, tv, ws, es, bs, ms, i, j - 1);
      assert Tracked(basePath, d, tv, ws, es, bs, ms, j);
    }
  }

  lemma TrackedPrefix(basePath: string, d: nat, tv: nat, ws: seq<World>, es: seq<Event>,
                      bs: seq<seq<int>>, ms: seq<nat>, b: seq<int>, m: nat, i: nat)
    requires |bs| == |ms| == |es| > 0 && |ws| == |es| + 1 && i < |es|
    requires Tracked(basePath, d, tv, ws[..|es|], es[..|es| - 1], bs, ms, i)
    ensures Tracked(basePath, d, tv, ws, es, bs + [b], ms + [m], i)
  {
  }

  /** In every state of every history that starts from an empty collection, the files tile a range of
      the source without gap or overlap, the index knows a prefix of them in order, and after a
      successful incremental run the index is complete and at most one step is unarchived. */
  lemma {:induction false} HistoryKeepsTiling(basePath: string, d: nat, tv: nat, ws: seq<World>, es: seq<Event>)
    returns (bs: seq<seq<int>>, ms: seq<nat>)
    requires IsHistory(basePath, d, tv, ws, es)
    ensures |bs| == |ms| == |ws|
    ensures forall i: nat :: i < |ws| ==> Tracked(basePath, d, tv, ws, es, bs, ms, i)
    decreases |es|
  {
    if |es| == 0 {
      bs, ms := [[0]], [0];
      assert Consistent(basePath, d, tv, ws[0], bs[0], ms[0]);
    } else {
      var n := |es| - 1;
      HistoryPrefix(basePath, d, tv, ws, es, n);
      bs, ms := HistoryKeepsTiling(basePath, d, tv, ws[..n + 1], es[..n]);
      assert Tracked(basePath, d, tv, ws[..n + 1], es[..n], bs, ms, n);
      assert Step(basePath, d, tv, ws[n], es[n], ws[n + 1]);
      var b, m := StepKeepsTiling(basePath, d, tv, ws[n], es[n], ws[n + 1], bs[n], ms[n]);
      forall i: nat | i < |ws|
        ensures Tracked(basePath, d, tv, ws, es, bs + [b], ms + [m], i)
      {
        if i <= n {
          TrackedPrefix(basePath, d, tv, ws, es, bs, ms, b, m, i);
        }
      }
      bs, ms := bs + [b], ms + [m];
    }
  }
}
