/** Commands carried out on a collection, as the histories the archive's properties are about. */
module Commands {
  import opened NetCdf
  import opened Subset
  import opened AggInfo
  import opened Archive
  import opened History

  /** The source has grown; the archiver is run; the index is rebuilt. */
  datatype Command =
    | GrowTo(src: NcFile)
    | ArchiveWith(newStart: Option<int>, fileSizeLimit: int, writable: nat, writeIndex: bool)
    | RebuildIndex

  /** The source after the first k commands. */
  function SourceAfter(src: NcFile, commands: seq<Command>, k: nat): NcFile
    requires k <= |commands|
  {
    if k == 0 then src else Next(SourceAfter(src, commands, k - 1), commands[k - 1])
  }

  function Next(src: NcFile, command: Command): NcFile {
    if command.GrowTo? then command.src else src
  }

  ghost predicate MayFollow(src: NcFile, command: Command, d: nat, tv: nat) {
    command.GrowTo? ==> Extends(src, command.src, d, tv) && Increasing(command.src, tv)
  }

  /** A source only ever grows. */
  ghost predicate Grows(src: NcFile, commands: seq<Command>, d: nat, tv: nat) {
    IsSeries(src, d, tv) && Increasing(src, tv)
    && forall k: nat :: k < |commands| ==> MayFollow(SourceAfter(src, commands, k), commands[k], d, tv)
  }

  ghost predicate IsEventOf(command: Command, e: Event) {
    match command
    case GrowTo(_) => e.Grow?
    case ArchiveWith(newStart, limit, writable, writeIndex) =>
      e.ArchiveRun? && e.newStart == newStart && e.archFileSize == ArchFileSize(limit) && e.writable == writable
      && (e.ok ==> writeIndex)
    case RebuildIndex => e.Rebuild?
  }

  /** All files of a history's last state are valid and have times. */
  lemma FilesDated(basePath: string, d: nat, tv: nat, ws: seq<World>, es: seq<Event>)
    requires IsHistory(basePath, d, tv, ws, es)
    ensures IsSeries(ws[|es|].src, d, tv) && Increasing(ws[|es|].src, tv)
    ensures AllSeries(ws[|es|].archive.files, d, tv)
  {
    var bs, ms := HistoryKeepsTiling(basePath, d, tv, ws, es);
    assert Tracked(basePath, d, tv, ws, es, bs, ms, |es|);
    FilesAreSeries(basePath, d, tv, ws[|es|].src, ws[|es|].archive.files, bs[|es|]);
  }

  lemma SeriesHaveTime(files: map<string, NcFile>, d: nat, tv: nat)
    requires AllSeries(files, d, tv)
    ensures forall p :: p in files ==> files[p].Valid() && HasTime(files[p].inq)
  {
    forall p | p in files ensures files[p].Valid() && HasTime(files[p].inq) {
      assert IsTime(files[p].inq, d, tv);
    }
  }

  lemma OneMoreEvent(basePath: string, d: nat, tv: nat, ws: seq<World>, es: seq<Event>, e: Event, w: World)
    requires IsHistory(basePath, d, tv, ws, es) && Step(basePath, d, tv, ws[|es|], e, w)
    ensures IsHistory(basePath, d, tv, ws + [w], es + [e])
  {
    var ws', es' := ws + [w], es + [e];
    forall i | 0 <= i < |es'| ensures Step(basePath, d, tv, ws'[i], es'[i], ws'[i + 1]) {
      assert i < |es| ==> Step(basePath, d, tv, ws[i], es[i], ws[i + 1]);
    }
  }

  /** Runs the archiver; what it has done is the event. */
  method RunArchiver(c: Collection, src: NcFile, command: Command, foreign: bool, readError: nat, ghost d: nat,
                     ghost tv: nat)
    returns (ghost e: Event)
    requires command.ArchiveWith? && c.growth > 0 && IsSeries(src, d, tv) && AllSeries(c.files, d, tv)
    modifies c`files, c`aggInfo
    ensures IsEventOf(command, e)
    ensures Step(c.basePath, d, tv, World(src, Archive(old(c.files), old(c.aggInfo))), e,
                 World(src, Archive(c.files, c.aggInfo)))
  {
    SeriesHaveTime(c.files, d, tv);
    assert IsTime(src.inq, d, tv) && TimeUsable(src.inq);
    var ArchiveWith(newStart, limit, writable, writeIndex) := command;
    var status;
    ghost var replaced;
    status, replaced := c.ArchTimeSeries(src, newStart, limit, writable, writeIndex, foreign, readError, d, tv);
    e := ArchiveRun(newStart, ArchFileSize(limit), writable, replaced);
  }

  /** Carries out one command; whatever comes of it is an event of a history. */
  method Execute(c: Collection, src: NcFile, command: Command, foreign: bool, readError: nat, ghost d: nat,
                 ghost tv: nat)
    returns (now: NcFile, ghost e: Event)
    requires c.growth > 0 && IsSeries(src, d, tv) && AllSeries(c.files, d, tv)
    requires MayFollow(src, command, d, tv)
    modifies c`files, c`aggInfo
    ensures now == Next(src, command) && IsEventOf(command, e)
    ensures Step(c.basePath, d, tv, World(src, Archive(old(c.files), old(c.aggInfo))), e,
                 World(now, Archive(c.files, c.aggInfo)))
  {
    now := src;
    match command {
      case GrowTo(grown) =>
        now, e := grown, Grow;
      case ArchiveWith(_, _, _, _) =>
        e := RunArchiver(c, src, command, foreign, readError, d, tv);
      case RebuildIndex =>
        SeriesHaveTime(c.files, d, tv);
        var status, index := c.GetAggInfo(true, foreign, readError);
        e := Rebuild;
    }
  }

  /** Carries out commands on a new collection: its states form a history. */
  method Replay(c: Collection, src: NcFile, commands: seq<Command>, foreign: bool, readError: nat, ghost d: nat,
                ghost tv: nat)
    returns (now: NcFile, ghost ws: seq<World>, ghost es: seq<Event>)
    requires c.growth > 0 && c.files == map[] && c.aggInfo == None && Grows(src, commands, d, tv)
    modifies c`files, c`aggInfo
    ensures now == SourceAfter(src, commands, |commands|) && |es| == |commands|
    ensures IsHistory(c.basePath, d, tv, ws, es) && ws[0].src == src
    ensures ws[|es|] == World(now, Archive(c.files, c.aggInfo))
    ensures forall k: nat :: k < |commands| ==> IsEventOf(commands[k], es[k])
  {
    now, ws, es := src, [World(src, Archive(map[], None))], [];
    var k := 0;
    while k < |commands|
      invariant 0 <= k <= |commands| && |es| == k && now == SourceAfter(src, commands, k)
      invariant IsHistory(c.basePath, d, tv, ws, es) && ws[0].src == src
      invariant ws[k] == World(now, Archive(c.files, c.aggInfo))
      invariant forall j: nat :: j < k ==> IsEventOf(commands[j], es[j])
    {
      FilesDated(c.basePath, d, tv, ws, es);
      assert MayFollow(SourceAfter(src, commands, k), commands[k], d, tv);
      ghost var e;
      now, e := Execute(c, now, commands[k], foreign, readError, d, tv);
      OneMoreEvent(c.basePath, d, tv, ws, es, e, World(now, Archive(c.files, c.aggInfo)));
      ws, es := ws + [World(now, Archive(c.files, c.aggInfo))], es + [e];
      k := k + 1;
    }
  }
}
