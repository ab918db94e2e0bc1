/** Reading a subset of a variable and writing a subset of a file to a new file. */
module Subset {
  import opened Hyperslab
  import opened Blocks
  import opened NetCdf

  datatype NcSubset = NcSubset(name: string, start: int, stride: int, end: int)

  /** The first subset with this name is the one that applies. */
  function Select(subsets: seq<NcSubset>, name: string): Option<NcSubset> {
    if |subsets| == 0 then None
    else if subsets[0].name == name then Some(subsets[0])
    else Select(subsets[1..], name)
  }

  predicate OutOfRange(d: Dim, s: NcSubset) {
    s.start >= d.arrayLen || s.end >= d.arrayLen || s.start > s.end
  }

  predicate Rejected(d: Dim, subsets: seq<NcSubset>) {
    match Select(subsets, d.name) case None => false case Some(s) => OutOfRange(d, s)
  }

  function StartOf(d: Dim, subsets: seq<NcSubset>): int {
    match Select(subsets, d.name) case None => 0 case Some(s) => s.start
  }

  function CountOf(d: Dim, subsets: seq<NcSubset>): int {
    match Select(subsets, d.name) case None => d.arrayLen case Some(s) => s.end - s.start + 1
  }

  /** The dimension can be read: the window is inside it and not empty. */
  predicate Readable(d: Dim, subsets: seq<NcSubset>) {
    !Rejected(d, subsets) && StartOf(d, subsets) >= 0 && CountOf(d, subsets) > 0
  }

  predicate ReadableVar(inq: Inq, v: Var, subsets: seq<NcSubset>) {
    v.dataType != Unknown && forall j :: 0 <= j < |v.dimId| ==> Readable(DimAt(inq, v.dimId[j]), subsets)
  }

  function Nat(n: int): nat {
    if n < 0 then 0 else n
  }

  function Starts(inq: Inq, v: Var, subsets: seq<NcSubset>): (r: seq<nat>)
    ensures |r| == |v.dimId|
  {
    seq(|v.dimId|, j requires 0 <= j < |v.dimId| => Nat(StartOf(DimAt(inq, v.dimId[j]), subsets)))
  }

  function Counts(inq: Inq, v: Var, subsets: seq<NcSubset>): (r: seq<nat>)
    ensures |r| == |v.dimId|
  {
    seq(|v.dimId|, j requires 0 <= j < |v.dimId| => Nat(CountOf(DimAt(inq, v.dimId[j]), subsets)))
  }

  function SubsetData(f: NcFile, k: nat, subsets: seq<NcSubset>): seq<int>
    requires k < |f.inq.vars|
  {
    GetVara(One(BlockOf(f, k)), Starts(f.inq, f.inq.vars[k], subsets), Counts(f.inq, f.inq.vars[k], subsets))
  }

  // ----- what a list of subsets selects, told by positions -----

  /** The subset at position k is the first with this name. */
  ghost predicate FirstNamed(subsets: seq<NcSubset>, name: string, k: nat) {
    k < |subsets| && subsets[k].name == name && forall i :: 0 <= i < k ==> subsets[i].name != name
  }

  /** The first subset of the dimension's name selects n steps from step lo on; without one, all steps
      are selected. */
  ghost predicate Selects(subsets: seq<NcSubset>, d: Dim, lo: int, n: int) {
    (forall k: nat :: FirstNamed(subsets, d.name, k) ==>
       lo == subsets[k].start && n == subsets[k].end - subsets[k].start + 1)
    && ((forall k: nat :: !FirstNamed(subsets, d.name, k)) ==> lo == 0 && n == d.arrayLen)
  }

  /** The first subset of the dimension's name has a range that is refused. */
  ghost predicate Refused(subsets: seq<NcSubset>, d: Dim) {
    exists k: nat :: FirstNamed(subsets, d.name, k)
      && (subsets[k].start >= d.arrayLen || subsets[k].end >= d.arrayLen || subsets[k].start > subsets[k].end)
  }

  /** Some steps are selected, all inside the dimension. */
  ghost predicate CanSelect(subsets: seq<NcSubset>, d: Dim) {
    (forall k: nat :: FirstNamed(subsets, d.name, k) ==> 0 <= subsets[k].start <= subsets[k].end < d.arrayLen)
    && ((forall k: nat :: !FirstNamed(subsets, d.name, k)) ==> d.arrayLen > 0)
  }

  lemma {:induction false} SelectIsFirst(subsets: seq<NcSubset>, name: string)
    ensures Select(subsets, name) == None <==> forall k: nat :: !FirstNamed(subsets, name, k)
    ensures forall k: nat :: FirstNamed(subsets, name, k) ==> Select(subsets, name) == Some(subsets[k])
  {
    if |subsets| > 0 && subsets[0].name != name {
      SelectIsFirst(subsets[1..], name);
      forall k: nat | FirstNamed(subsets, name, k) ensures k > 0 && FirstNamed(subsets[1..], name, k - 1) {
      }
      forall k: nat | FirstNamed(subsets[1..], name, k) ensures FirstNamed(subsets, name, k + 1) {
        assert forall i :: 0 < i <= k ==> subsets[i] == subsets[1..][i - 1];
      }
    } else if |subsets| > 0 {
      assert FirstNamed(subsets, name, 0);
    }
  }

  lemma SelectsExactly(subsets: seq<NcSubset>, d: Dim, lo: int, n: int)
    ensures Selects(subsets, d, lo, n) <==> lo == StartOf(d, subsets) && n == CountOf(d, subsets)
    ensures Rejected(d, subsets) <==> Refused(subsets, d)
    ensures Readable(d, subsets) <==> CanSelect(subsets, d)
  {
    SelectIsFirst(subsets, d.name);
    if Select(subsets, d.name).Some? {
      var k: nat :| FirstNamed(subsets, d.name, k);
    }
  }

  /** The data is the window of the block: each cell is the block's cell moved by the window's corner. */
  ghost predicate IsWindowOf(data: seq<int>, source: Block, start: seq<nat>, count: seq<nat>) {
    |start| == |count| && |data| == Product(count)
    && forall idx :: InBounds(idx, count) ==> CellIs(data, source, start, count, idx)
  }

  predicate CellIs(data: seq<int>, source: Block, start: seq<nat>, count: seq<nat>, idx: Index) {
    |start| == |count| == |idx| && Offset(count, idx) < |data|
    && data[Offset(count, idx)] == At(source, Shift(start, idx))
  }

  lemma VaraIsWindow(source: Block, start: seq<nat>, count: seq<nat>)
    requires |start| == |count|
    ensures IsWindowOf(GetVara(One(source), start, count), source, start, count)
  {
    SlabLength(start, count);
    forall idx | InBounds(idx, count) ensures CellIs(GetVara(One(source), start, count), source, start, count, idx) {
      SlabAt(start, count, idx);
    }
  }

  /** The data is what the subsets select of variable k. */
  ghost predicate IsSelected(f: NcFile, k: nat, subsets: seq<NcSubset>, data: seq<int>)
    requires k < |f.inq.vars|
  {
    exists start, count :: IsCorner(f.inq, f.inq.vars[k], subsets, start, count)
                           && IsWindowOf(data, BlockOf(f, k), start, count)
  }

  ghost predicate IsCorner(inq: Inq, v: Var, subsets: seq<NcSubset>, start: seq<nat>, count: seq<nat>) {
    |start| == |count| == |v.dimId|
    && forall j :: 0 <= j < |v.dimId| ==> Selects(subsets, DimAt(inq, v.dimId[j]), start[j], count[j])
  }

  /** The variable can be read: its type is known, and some steps of each dimension are selected. */
  ghost predicate CanSelectVar(inq: Inq, v: Var, subsets: seq<NcSubset>) {
    v.dataType != Unknown && forall j :: 0 <= j < |v.dimId| ==> CanSelect(subsets, DimAt(inq, v.dimId[j]))
  }

  lemma ReadableExactly(inq: Inq, v: Var, subsets: seq<NcSubset>)
    ensures ReadableVar(inq, v, subsets) <==> CanSelectVar(inq, v, subsets)
    ensures (exists j :: 0 <= j < |v.dimId| && Rejected(DimAt(inq, v.dimId[j]), subsets))
       <==> exists j :: 0 <= j < |v.dimId| && Refused(subsets, DimAt(inq, v.dimId[j]))
  {
    forall j | 0 <= j < |v.dimId|
      ensures Readable(DimAt(inq, v.dimId[j]), subsets) <==> CanSelect(subsets, DimAt(inq, v.dimId[j]))
      ensures Rejected(DimAt(inq, v.dimId[j]), subsets) <==> Refused(subsets, DimAt(inq, v.dimId[j]))
    {
      SelectsExactly(subsets, DimAt(inq, v.dimId[j]), 0, 0);
    }
  }

  /** No subset has the dimension's name, and it has no steps. */
  ghost predicate NoSteps(subsets: seq<NcSubset>, d: Dim) {
    d.arrayLen == 0 && forall k: nat :: !FirstNamed(subsets, d.name, k)
  }

  /** The error of the first check that fails: the ranges, the counts, the type, and the library's. */
  ghost predicate FailsWith(inq: Inq, v: Var, subsets: seq<NcSubset>, e: Error) {
    e == if exists j :: 0 <= j < |v.dimId| && Refused(subsets, DimAt(inq, v.dimId[j])) then NETCDF_DIM_MISMATCH_ERR
         else if exists j :: 0 <= j < |v.dimId| && NoSteps(subsets, DimAt(inq, v.dimId[j]))
         then NETCDF_VAR_COUNT_OUT_OF_RANGE
         else if v.dataType == Unknown then NETCDF_INVALID_DATA_TYPE
         else NETCDF_GET_VARS_ERR
  }

  lemma NoStepsExactly(subsets: seq<NcSubset>, d: Dim)
    requires !Rejected(d, subsets)
    ensures CountOf(d, subsets) <= 0 <==> NoSteps(subsets, d)
  {
    SelectIsFirst(subsets, d.name);
  }

  ghost predicate SomeRejected(inq: Inq, v: Var, subsets: seq<NcSubset>) {
    exists j :: 0 <= j < |v.dimId| && Rejected(DimAt(inq, v.dimId[j]), subsets)
  }

  ghost predicate SomeEmpty(inq: Inq, v: Var, subsets: seq<NcSubset>) {
    exists j :: 0 <= j < |v.dimId| && CountOf(DimAt(inq, v.dimId[j]), subsets) <= 0
  }

  /** The error, told by the numbers the loop computes. */
  ghost function FirstFailure(inq: Inq, v: Var, subsets: seq<NcSubset>): Error {
    if SomeRejected(inq, v, subsets) then NETCDF_DIM_MISMATCH_ERR
    else if SomeEmpty(inq, v, subsets) then NETCDF_VAR_COUNT_OUT_OF_RANGE
    else if v.dataType == Unknown then NETCDF_INVALID_DATA_TYPE
    else NETCDF_GET_VARS_ERR
  }

  lemma FailureIs(inq: Inq, v: Var, subsets: seq<NcSubset>)
    ensures FailsWith(inq, v, subsets, FirstFailure(inq, v, subsets))
    ensures SomeRejected(inq, v, subsets)
       <==> exists j :: 0 <= j < |v.dimId| && Refused(subsets, DimAt(inq, v.dimId[j]))
  {
    ReadableExactly(inq, v, subsets);
    if !SomeRejected(inq, v, subsets) {
      forall j | 0 <= j < |v.dimId|
        ensures CountOf(DimAt(inq, v.dimId[j]), subsets) <= 0 <==> NoSteps(subsets, DimAt(inq, v.dimId[j]))
      {
        NoStepsExactly(subsets, DimAt(inq, v.dimId[j]));
      }
    }
  }

  lemma SubsetIsSelected(f: NcFile, k: nat, subsets: seq<NcSubset>)
    requires k < |f.inq.vars| && ReadableVar(f.inq, f.inq.vars[k], subsets)
    ensures IsSelected(f, k, subsets, SubsetData(f, k, subsets))
  {
    var v := f.inq.vars[k];
    var start, count := Starts(f.inq, v, subsets), Counts(f.inq, v, subsets);
    VaraIsWindow(BlockOf(f, k), start, count);
    forall j | 0 <= j < |v.dimId| ensures Selects(subsets, DimAt(f.inq, v.dimId[j]), start[j], count[j]) {
      assert Readable(DimAt(f.inq, v.dimId[j]), subsets);
      SelectsExactly(subsets, DimAt(f.inq, v.dimId[j]), start[j], count[j]);
    }
    assert IsCorner(f.inq, v, subsets, start, count);
  }

  method SelectSubset(subsets: seq<NcSubset>, name: string) returns (r: Option<NcSubset>)
    ensures r == Select(subsets, name)
    ensures r.Some? ==> r.value in subsets
  {
    var k := 0;
    while k < |subsets|
      invariant 0 <= k <= |subsets|
      invariant Select(subsets, name) == Select(subsets[k..], name)
    {
      if subsets[k].name == name {
        return Some(subsets[k]);
      }
      k := k + 1;
    }
    r := None;
  }

  /** The stride does not leave out any of the range, which has one step at most otherwise. */
  predicate SkipsNothing(s: NcSubset) {
    s.stride <= 1 || s.start >= s.end
  }

  /** Looks up the subset of each dimension, checks it, and reads the window. */
  method ReadSubset(f: NcFile, k: nat, subsets: seq<NcSubset>) returns (r: Result<seq<int>>)
    requires f.Valid() && k < |f.inq.vars|
    requires forall s :: s in subsets ==> SkipsNothing(s)
    ensures r.Ok? <==> ReadableVar(f.inq, f.inq.vars[k], subsets)
    ensures r.Ok? ==> r.value == SubsetData(f, k, subsets)
    ensures r.Err? ==> r.error == FirstFailure(f.inq, f.inq.vars[k], subsets)
    ensures SomeRejected(f.inq, f.inq.vars[k], subsets) ==> r == Err(NETCDF_DIM_MISMATCH_ERR)
  {
    var v := f.inq.vars[k];
    assert ValidVar(f.inq, k);
    var start: seq<int>, count: seq<int>, stride: seq<int> := [], [], [];
    var j := 0;
    while j < |v.dimId|
      invariant 0 <= j <= |v.dimId| && |start| == |count| == |stride| == j
      invariant forall i :: 0 <= i < j ==> !Rejected(DimAt(f.inq, v.dimId[i]), subsets)
      invariant forall i :: 0 <= i < j ==> start[i] == StartOf(DimAt(f.inq, v.dimId[i]), subsets)
      invariant forall i :: 0 <= i < j ==> count[i] == CountOf(DimAt(f.inq, v.dimId[i]), subsets)
    {
      var d := f.inq.dims[v.dimId[j]];
      assert d == DimAt(f.inq, v.dimId[j]);
      var s := SelectSubset(subsets, d.name);
      if s.Some? {
        if OutOfRange(d, s.value) {
          return Err(NETCDF_DIM_MISMATCH_ERR);
        }
        start, stride := start + [s.value.start], stride + [s.value.stride];
        count := count + [s.value.end - s.value.start + 1];
      } else {
        start, stride, count := start + [0], stride + [1], count + [d.arrayLen];
      }
      j := j + 1;
    }
    var len, _ := GetSizeForGetVars(count, stride);
    if len.Err? {
      ghost var i :| 0 <= i < |count| && count[i] <= 0;
      assert !Readable(DimAt(f.inq, v.dimId[i]), subsets);
      return Err(len.error);
    }
    if v.dataType == Unknown {
      return Err(NETCDF_INVALID_DATA_TYPE);
    }
    if i :| 0 <= i < |start| && start[i] < 0 {
      assert !Readable(DimAt(f.inq, v.dimId[i]), subsets);
      return Err(NETCDF_GET_VARS_ERR);
    }
    assert start == Starts(f.inq, v, subsets) && count == Counts(f.inq, v, subsets);
    r := Ok(GetVara(One(BlockOf(f, k)), start, count));
  }

  /** getSingleNcVarData: the hyperslab the subsets select, or the error of the first check that
      fails. A negative start passes the range check and is refused by the library. */
  method GetSingleNcVarData(f: NcFile, k: nat, subsets: seq<NcSubset>) returns (r: Result<seq<int>>)
    requires f.Valid() && k < |f.inq.vars|
    requires forall s :: s in subsets ==> SkipsNothing(s)
    ensures r.Ok? <==> ReadableVar(f.inq, f.inq.vars[k], subsets)
    ensures r.Ok? ==> r.value == SubsetData(f, k, subsets)
    ensures r.Ok? <==> CanSelectVar(f.inq, f.inq.vars[k], subsets)
    ensures r.Ok? ==> IsSelected(f, k, subsets, r.value)
    ensures r.Err? ==> FailsWith(f.inq, f.inq.vars[k], subsets, r.error)
    ensures r == Err(NETCDF_DIM_MISMATCH_ERR)
       <==> exists j :: 0 <= j < |f.inq.vars[k].dimId| && Refused(subsets, DimAt(f.inq, f.inq.vars[k].dimId[j]))
  {
    r := ReadSubset(f, k, subsets);
    ReadableExactly(f.inq, f.inq.vars[k], subsets);
    FailureIs(f.inq, f.inq.vars[k], subsets);
    if r.Ok? {
      SubsetIsSelected(f, k, subsets);
    }
  }

  // ----- writing a subset of a file -----

  predicate Dumpable(f: NcFile, subsets: seq<NcSubset>) {
    (forall d :: 0 <= d < |f.inq.dims| ==> CountOf(f.inq.dims[d], subsets) >= 0)
    && forall k :: 0 <= k < |f.inq.vars| ==> ReadableVar(f.inq, f.inq.vars[k], subsets)
  }

  function NewDims(dims: seq<Dim>, subsets: seq<NcSubset>): (r: seq<Dim>)
    ensures |r| == |dims|
  {
    seq(|dims|, d requires 0 <= d < |dims| => Dim(dims[d].name, Nat(CountOf(dims[d], subsets))))
  }

  /** The file a subset is written to: every variable cut to the selected window. */
  function Dumped(f: NcFile, subsets: seq<NcSubset>): (g: NcFile) {
    NcFile(Inq(NewDims(f.inq.dims, subsets), f.inq.vars),
           seq(|f.inq.vars|, k requires 0 <= k < |f.inq.vars| => SubsetData(f, k, subsets)))
  }

  lemma NewShape(f: NcFile, subsets: seq<NcSubset>, k: nat)
    requires f.Valid() && Dumpable(f, subsets) && k < |f.inq.vars|
    ensures ShapeOf(Dumped(f, subsets).inq, f.inq.vars[k]) == Counts(f.inq, f.inq.vars[k], subsets)
  {
    assert ValidVar(f.inq, k);
  }

  lemma DumpedIsValid(f: NcFile, subsets: seq<NcSubset>)
    requires f.Valid() && Dumpable(f, subsets)
    ensures Dumped(f, subsets).Valid()
  {
    var g := Dumped(f, subsets);
    forall k: nat | k < |f.inq.vars| ensures ValidVar(g.inq, k) && g.DataFits(k) {
      assert ValidVar(f.inq, k);
      NewShape(f, subsets, k);
      SlabLength(Starts(f.inq, f.inq.vars[k], subsets), Counts(f.inq, f.inq.vars[k], subsets));
    }
  }

  /** The file holds what the subsets select of every variable, in dimensions of the selected lengths. */
  ghost predicate IsDump(f: NcFile, subsets: seq<NcSubset>, g: NcFile) {
    g.inq.vars == f.inq.vars && |g.inq.dims| == |f.inq.dims| && |g.values| == |f.inq.vars|
    && (forall d: nat :: d < |f.inq.dims| ==> DimSelected(subsets, f.inq.dims[d], g.inq.dims[d]))
    && (forall k: nat :: k < |f.inq.vars| ==> IsSelected(f, k, subsets, g.values[k]))
  }

  ghost predicate DimSelected(subsets: seq<NcSubset>, d: Dim, e: Dim) {
    e.name == d.name && exists lo :: Selects(subsets, d, lo, e.arrayLen)
  }

  lemma DumpedIsDump(f: NcFile, subsets: seq<NcSubset>)
    requires Dumpable(f, subsets)
    ensures IsDump(f, subsets, Dumped(f, subsets))
  {
    var g := Dumped(f, subsets);
    forall d: nat | d < |f.inq.dims| ensures DimSelected(subsets, f.inq.dims[d], g.inq.dims[d]) {
      SelectsExactly(subsets, f.inq.dims[d], StartOf(f.inq.dims[d], subsets), g.inq.dims[d].arrayLen);
    }
    forall k: nat | k < |f.inq.vars| ensures IsSelected(f, k, subsets, g.values[k]) {
      SubsetIsSelected(f, k, subsets);
    }
  }

  /** No dimension would get a negative length, and every variable can be read. */
  ghost predicate CanDump(f: NcFile, subsets: seq<NcSubset>) {
    (forall d, k: nat :: 0 <= d < |f.inq.dims| && FirstNamed(subsets, f.inq.dims[d].name, k) ==>
       subsets[k].start <= subsets[k].end + 1)
    && forall k :: 0 <= k < |f.inq.vars| ==> CanSelectVar(f.inq, f.inq.vars[k], subsets)
  }

  lemma DumpableExactly(f: NcFile, subsets: seq<NcSubset>)
    ensures Dumpable(f, subsets) <==> CanDump(f, subsets)
  {
    forall d | 0 <= d < |f.inq.dims|
      ensures CountOf(f.inq.dims[d], subsets) >= 0
         <==> forall k: nat :: FirstNamed(subsets, f.inq.dims[d].name, k) ==> subsets[k].start <= subsets[k].end + 1
    {
      SelectIsFirst(subsets, f.inq.dims[d].name);
    }
    forall k | 0 <= k < |f.inq.vars|
      ensures ReadableVar(f.inq, f.inq.vars[k], subsets) <==> CanSelectVar(f.inq, f.inq.vars[k], subsets)
    {
      ReadableExactly(f.inq, f.inq.vars[k], subsets);
    }
  }

  /** The subsets that skip nothing and have no stride of 0. */
  predicate Unstrided(subsets: seq<NcSubset>) {
    forall s :: s in subsets ==> s.stride == 1 || (s.stride > 1 && s.start == s.end)
  }

  /** The loop of dumpSubsetToFile that defines the dimensions of the new file. */
  method DumpDims(fileDims: seq<Dim>, subsets: seq<NcSubset>) returns (r: Result<seq<Dim>>)
    requires Unstrided(subsets)
    ensures r.Ok? <==> forall d :: 0 <= d < |fileDims| ==> CountOf(fileDims[d], subsets) >= 0
    ensures r.Ok? ==> r.value == NewDims(fileDims, subsets)
  {
    var dims: seq<Dim> := [];
    var d := 0;
    while d < |fileDims|
      invariant 0 <= d <= |fileDims| && |dims| == d
      invariant forall i :: 0 <= i < d ==> CountOf(fileDims[i], subsets) >= 0
      invariant forall i :: 0 <= i < d ==> dims[i] == Dim(fileDims[i].name, CountOf(fileDims[i], subsets))
    {
      var s := SelectSubset(subsets, fileDims[d].name);
      var arrayLen: int := fileDims[d].arrayLen;
      if s.Some? {
        arrayLen := (s.value.end - s.value.start) / s.value.stride + 1;
      }
      if arrayLen < 0 {
        return Err(NETCDF_DIM_MISMATCH_ERR);
      }
      dims := dims + [Dim(fileDims[d].name, arrayLen)];
      d := d + 1;
    }
    r := Ok(dims);
  }

  /** The loop of dumpSubsetToFile that writes the variables. */
  method DumpVars(f: NcFile, subsets: seq<NcSubset>) returns (r: Result<seq<seq<int>>>)
    requires f.Valid() && Unstrided(subsets)
    ensures r.Ok? <==> forall k :: 0 <= k < |f.inq.vars| ==> ReadableVar(f.inq, f.inq.vars[k], subsets)
    ensures r.Ok? ==> r.value == Dumped(f, subsets).values
  {
    var values: seq<seq<int>> := [];
    var k := 0;
    while k < |f.inq.vars|
      invariant 0 <= k <= |f.inq.vars| && |values| == k
      invariant forall i :: 0 <= i < k ==> ReadableVar(f.inq, f.inq.vars[i], subsets)
      invariant forall i :: 0 <= i < k ==> values[i] == SubsetData(f, i, subsets)
    {
      var data := ReadSubset(f, k, subsets);
      if data.Err? {
        return Err(data.error);
      }
      values := values + [data.value];
      k := k + 1;
    }
    r := Ok(values);
  }

  /** dumpSubsetToFile with every variable selected. */
  method DumpSubsetToFile(f: NcFile, subsets: seq<NcSubset>) returns (r: Result<NcFile>)
    requires f.Valid() && Unstrided(subsets)
    ensures r.Ok? <==> Dumpable(f, subsets)
    ensures r.Ok? ==> r.value == Dumped(f, subsets) && r.value.Valid()
    ensures r.Ok? <==> CanDump(f, subsets)
    ensures r.Ok? ==> IsDump(f, subsets, r.value)
  {
    DumpableExactly(f, subsets);
    var dims := DumpDims(f.inq.dims, subsets);
    if dims.Err? {
      return Err(dims.error);
    }
    var values := DumpVars(f, subsets);
    if values.Err? {
      return Err(values.error);
    }
    DumpedIsValid(f, subsets);
    DumpedIsDump(f, subsets);
    r := Ok(NcFile(Inq(dims.value, f.inq.vars), values.value));
  }

  // ----- a window of a time series -----

  /** A file the archiver can read times from: a time dimension, and a variable named like it that
      runs over it alone and has a type times are converted from. */
  ghost predicate IsTimed(f: NcFile, d: nat, tv: nat) {
    f.Valid() && IsTimeDim(f.inq, d) && IsTimeVar(f.inq, d, tv)
    && f.inq.vars[tv].dimId == [d] && TimeType(f.inq.vars[tv].dataType)
  }

  /** A series the archiver can cut: times, no other dimension named like theirs, and variables of
      which every window inside the series can be read. */
  ghost predicate IsSeries(f: NcFile, d: nat, tv: nat) {
    f in SeriesOver(d, tv)
  }

  ghost function SeriesOver(d: nat, tv: nat): iset<NcFile> {
    iset f: NcFile |
      IsTimed(f, d, tv)
      && (forall i: nat :: i < |f.inq.dims| && i != d ==> OtherName(f.inq, d, i))
      && (forall k: nat :: k < |f.inq.vars| ==> CanBeCut(f.inq, d, k))
  }

  /** The first variable with the name of the time dimension. */
  ghost predicate IsTimeVar(inq: Inq, d: int, v: int) {
    0 <= d < |inq.dims| && 0 <= v < |inq.vars| && inq.vars[v].name == inq.dims[d].name
    && forall k: nat :: k < v ==> OtherVar(inq, d, k)
  }

  predicate OtherVar(inq: Inq, d: nat, k: nat) {
    k < |inq.vars| && d < |inq.dims| && inq.vars[k].name != inq.dims[d].name
  }

  predicate OtherName(inq: Inq, d: nat, i: nat) {
    i < |inq.dims| && d < |inq.dims| && inq.dims[i].name != inq.dims[d].name
  }

  /** Of a known type, and along no dimension but time of length zero. */
  predicate CanBeCut(inq: Inq, d: nat, k: nat) {
    k < |inq.vars| && inq.vars[k].dataType != Unknown
    && forall j :: 0 <= j < |inq.vars[k].dimId| && inq.vars[k].dimId[j] != d ==>
         DimAt(inq, inq.vars[k].dimId[j]).arrayLen > 0
  }

  function Length(f: NcFile, d: nat): nat {
    if d < |f.inq.dims| then f.inq.dims[d].arrayLen else 0
  }

  function Times(f: NcFile, tv: nat): seq<int> {
    if tv < |f.values| then f.values[tv] else []
  }

  function TimeWindow(f: NcFile, d: nat, lo: int, hi: int): seq<NcSubset> {
    if d < |f.inq.dims| then [NcSubset(f.inq.dims[d].name, lo, 1, hi)] else []
  }

  lemma SelectWindow(f: NcFile, d: nat, lo: int, hi: int)
    requires d < |f.inq.dims|
    ensures forall name :: Select(TimeWindow(f, d, lo, hi), name)
              == if name == f.inq.dims[d].name then Some(NcSubset(name, lo, 1, hi)) else None
  {
    assert forall name :: Select(TimeWindow(f, d, lo, hi)[1..], name) == None;
  }

  lemma TimesLength(f: NcFile, d: nat, tv: nat)
    requires IsSeries(f, d, tv)
    ensures |Times(f, tv)| == Length(f, d) && |f.values| == |f.inq.vars|
  {
    assert f.DataFits(tv);
    assert ShapeOf(f.inq, f.inq.vars[tv]) == [Length(f, d)];
    assert Product([Length(f, d)]) == Length(f, d) * Product([Length(f, d)][1..]);
  }

  lemma OtherNames(f: NcFile, d: nat, tv: nat)
    requires IsSeries(f, d, tv)
    ensures forall i :: 0 <= i < |f.inq.dims| && i != d ==> f.inq.dims[i].name != f.inq.dims[d].name
  {
    forall i | 0 <= i < |f.inq.dims| && i != d ensures f.inq.dims[i].name != f.inq.dims[d].name {
      assert OtherName(f.inq, d, i);
    }
  }

  /** A time window selects its steps of the time dimension and all of every other dimension. */
  lemma DimInWindow(f: NcFile, d: nat, tv: nat, lo: int, hi: int, k: nat, j: nat)
    requires IsSeries(f, d, tv) && k < |f.inq.vars| && j < |f.inq.vars[k].dimId|
    ensures var id := f.inq.vars[k].dimId[j];
            var w := TimeWindow(f, d, lo, hi);
            if id == d then
              (Readable(DimAt(f.inq, id), w) <==> 0 <= lo <= hi < Length(f, d))
              && StartOf(DimAt(f.inq, id), w) == lo && CountOf(DimAt(f.inq, id), w) == hi - lo + 1
            else
              Readable(DimAt(f.inq, id), w) && StartOf(DimAt(f.inq, id), w) == 0
              && CountOf(DimAt(f.inq, id), w) == DimAt(f.inq, id).arrayLen
  {
    assert ValidVar(f.inq, k) && CanBeCut(f.inq, d, k);
    OtherNames(f, d, tv);
    SelectWindow(f, d, lo, hi);
  }

  /** Exactly the windows inside the series can be written. */
  lemma WindowDumpable(f: NcFile, d: nat, tv: nat, lo: int, hi: int)
    requires IsSeries(f, d, tv)
    ensures Dumpable(f, TimeWindow(f, d, lo, hi)) <==> 0 <= lo <= hi < Length(f, d)
  {
    var w := TimeWindow(f, d, lo, hi);
    DimInWindow(f, d, tv, lo, hi, tv, 0);
    assert ReadableVar(f.inq, f.inq.vars[tv], w) ==> Readable(DimAt(f.inq, f.inq.vars[tv].dimId[0]), w);
    if 0 <= lo <= hi < Length(f, d) {
      SelectWindow(f, d, lo, hi);
      forall k | 0 <= k < |f.inq.vars| ensures ReadableVar(f.inq, f.inq.vars[k], w) {
        assert CanBeCut(f.inq, d, k);
        forall j | 0 <= j < |f.inq.vars[k].dimId|
          ensures Readable(DimAt(f.inq, f.inq.vars[k].dimId[j]), w)
        {
          DimInWindow(f, d, tv, lo, hi, k, j);
        }
      }
    }
  }

  lemma WindowShape(f: NcFile, d: nat, tv: nat, lo: int, hi: int, k: nat)
    requires IsSeries(f, d, tv) && 0 <= lo <= hi < Length(f, d) && k < |f.inq.vars|
    ensures Dumpable(f, TimeWindow(f, d, lo, hi))
    ensures forall j :: 0 <= j < |f.inq.vars[k].dimId| ==>
              Starts(f.inq, f.inq.vars[k], TimeWindow(f, d, lo, hi))[j]
                == (if f.inq.vars[k].dimId[j] == d then lo else 0)
    ensures forall j :: 0 <= j < |f.inq.vars[k].dimId| ==>
              Counts(f.inq, f.inq.vars[k], TimeWindow(f, d, lo, hi))[j]
                == (if f.inq.vars[k].dimId[j] == d then hi - lo + 1 else ShapeOf(f.inq, f.inq.vars[k])[j])
  {
    WindowDumpable(f, d, tv, lo, hi);
    var w := TimeWindow(f, d, lo, hi);
    forall j | 0 <= j < |f.inq.vars[k].dimId|
      ensures Starts(f.inq, f.inq.vars[k], w)[j] == (if f.inq.vars[k].dimId[j] == d then lo else 0)
      ensures Counts(f.inq, f.inq.vars[k], w)[j]
           == (if f.inq.vars[k].dimId[j] == d then hi - lo + 1 else ShapeOf(f.inq, f.inq.vars[k])[j])
    {
      DimInWindow(f, d, tv, lo, hi, k, j);
    }
  }

  /** The steps lo..hi of a series as a file; the file itself when they cannot be written. */
  ghost function Window(f: NcFile, d: nat, tv: nat, lo: int, hi: int): (g: NcFile)
    ensures f.Valid() ==> g.Valid()
  {
    if f.Valid() && Dumpable(f, TimeWindow(f, d, lo, hi)) then
      DumpedIsValid(f, TimeWindow(f, d, lo, hi));
      Dumped(f, TimeWindow(f, d, lo, hi))
    else f
  }

  /** Where the time dimension is used once, at position p. */
  ghost predicate TimeAt(inq: Inq, v: Var, d: nat, p: nat) {
    p < |v.dimId| && v.dimId[p] == d && forall j :: 0 <= j < |v.dimId| && j != p ==> v.dimId[j] != d
  }

  function ZeroBut(n: nat, p: nat, lo: nat): (r: seq<nat>)
    ensures |r| == n
  {
    seq(n, j => if j == p then lo else 0)
  }

  /** A variable of a window file is the hyperslab of the series' variable. */
  lemma WindowBlock(f: NcFile, d: nat, tv: nat, lo: int, hi: int, k: nat, p: nat)
    requires IsSeries(f, d, tv) && 0 <= lo <= hi < Length(f, d)
    requires k < |f.inq.vars| && TimeAt(f.inq, f.inq.vars[k], d, p)
    ensures BlockOf(f, k).Valid() && |BlockOf(f, k).shape| == |f.inq.vars[k].dimId|
    ensures var start, count := ZeroBut(|BlockOf(f, k).shape|, p, lo), BlockOf(f, k).shape[p := hi - lo + 1];
            BlockOf(Window(f, d, tv, lo, hi), k) == Block(count, GetVara(One(BlockOf(f, k)), start, count))
  {
    var w := TimeWindow(f, d, lo, hi);
    assert f.DataFits(k) && Window(f, d, tv, lo, hi).DataFits(k) by {
      WindowDumpable(f, d, tv, lo, hi);
      DumpedIsValid(f, w);
      assert Dumped(f, w).DataFits(k);
    }
    WindowShape(f, d, tv, lo, hi, k);
    NewShape(f, w, k);
    assert Starts(f.inq, f.inq.vars[k], w) == ZeroBut(|BlockOf(f, k).shape|, p, lo);
    assert Counts(f.inq, f.inq.vars[k], w) == BlockOf(f, k).shape[p := hi - lo + 1];
  }

  /** A variable that does not run over time is the same in every window. */
  lemma TimelessBlock(f: NcFile, d: nat, tv: nat, lo: int, hi: int, k: nat)
    requires IsSeries(f, d, tv) && 0 <= lo <= hi < Length(f, d) && k < |f.inq.vars|
    requires forall j :: 0 <= j < |f.inq.vars[k].dimId| ==> f.inq.vars[k].dimId[j] != d
    ensures BlockOf(Window(f, d, tv, lo, hi), k) == BlockOf(f, k)
    ensures |BlockOf(f, k).shape| == |f.inq.vars[k].dimId|
  {
    var w := TimeWindow(f, d, lo, hi);
    var source := BlockOf(f, k);
    assert f.DataFits(k) && Window(f, d, tv, lo, hi).DataFits(k) by {
      WindowDumpable(f, d, tv, lo, hi);
      DumpedIsValid(f, w);
      assert Dumped(f, w).DataFits(k);
    }
    WindowShape(f, d, tv, lo, hi, k);
    NewShape(f, w, k);
    assert Starts(f.inq, f.inq.vars[k], w) == seq(|source.shape|, _ => 0);
    assert Counts(f.inq, f.inq.vars[k], w) == source.shape;
    ReadAll(source);
  }

  lemma HyperslabCell(source: Block, p: nat, lo: nat, n: nat, idx: Index)
    requires p < |source.shape| && InBounds(idx, source.shape[p := n])
    ensures |idx| == |source.shape|
    ensures var start, count := ZeroBut(|source.shape|, p, lo), source.shape[p := n];
            At(Block(count, GetVara(One(source), start, count)), idx) == At(source, idx[p := idx[p] + lo])
  {
    WindowAt(source, ZeroBut(|source.shape|, p, lo), source.shape[p := n], idx);
    assert Shift(ZeroBut(|source.shape|, p, lo), idx) == idx[p := idx[p] + lo];
  }

  /** A cell of a window is the series' cell lo steps later. */
  lemma WindowCell(f: NcFile, d: nat, tv: nat, lo: int, hi: int, k: nat, p: nat, idx: Index)
    requires IsSeries(f, d, tv) && 0 <= lo <= hi < Length(f, d)
    requires k < |f.inq.vars| && TimeAt(f.inq, f.inq.vars[k], d, p)
    requires p < |BlockOf(f, k).shape| && InBounds(idx, BlockOf(f, k).shape[p := hi - lo + 1])
    ensures p < |idx| && |idx| == |f.inq.vars[k].dimId|
    ensures At(BlockOf(Window(f, d, tv, lo, hi), k), idx) == At(BlockOf(f, k), idx[p := idx[p] + lo])
  {
    WindowBlock(f, d, tv, lo, hi, k, p);
    HyperslabCell(BlockOf(f, k), p, lo, hi - lo + 1, idx);
  }

  lemma WindowIsSeries(f: NcFile, d: nat, tv: nat, lo: int, hi: int)
    requires IsSeries(f, d, tv) && 0 <= lo <= hi < Length(f, d)
    ensures IsSeries(Window(f, d, tv, lo, hi), d, tv)
    ensures Length(Window(f, d, tv, lo, hi), d) == hi - lo + 1
  {
    var g := Window(f, d, tv, lo, hi);
    WindowDumpable(f, d, tv, lo, hi);
    SelectWindow(f, d, lo, hi);
    OtherNames(f, d, tv);
    assert forall i :: 0 <= i < |f.inq.dims| && i != d ==> g.inq.dims[i] == f.inq.dims[i];
    forall k: nat | k < |f.inq.vars|
      ensures CanBeCut(g.inq, d, k) && (k < tv ==> OtherVar(g.inq, d, k))
    {
      assert CanBeCut(f.inq, d, k) && ValidVar(f.inq, k);
      assert k < tv ==> OtherVar(f.inq, d, k);
    }
  }

  lemma TimeBlock(f: NcFile, d: nat, tv: nat)
    requires IsSeries(f, d, tv)
    ensures BlockOf(f, tv) == Block([Length(f, d)], Times(f, tv)) && BlockOf(f, tv).Valid()
  {
    assert f.DataFits(tv);
    TimesLength(f, d, tv);
    assert ShapeOf(f.inq, f.inq.vars[tv]) == [Length(f, d)];
  }

  lemma TimeCell(f: NcFile, d: nat, tv: nat, lo: int, hi: int, i: nat)
    requires IsSeries(f, d, tv) && 0 <= lo <= hi < Length(f, d) && i < hi - lo + 1
    ensures At(BlockOf(Window(f, d, tv, lo, hi), tv), [i]) == At(BlockOf(f, tv), [lo + i])
  {
    TimeBlock(f, d, tv);
    WindowCell(f, d, tv, lo, hi, tv, 0, [i]);
    assert [i][0 := i + lo] == [lo + i];
  }

  lemma WindowTimes(f: NcFile, d: nat, tv: nat, lo: int, hi: int)
    requires IsSeries(f, d, tv) && 0 <= lo <= hi < Length(f, d)
    ensures |Times(f, tv)| == Length(f, d)
    ensures Times(Window(f, d, tv, lo, hi), tv) == Times(f, tv)[lo..hi + 1]
  {
    var g := Window(f, d, tv, lo, hi);
    WindowIsSeries(f, d, tv, lo, hi);
    TimesLength(f, d, tv);
    TimesLength(g, d, tv);
    TimeBlock(f, d, tv);
    TimeBlock(g, d, tv);
    forall i | 0 <= i < hi - lo + 1
      ensures Times(g, tv)[i] == Times(f, tv)[lo + i]
    {
      OneDim(BlockOf(g, tv), i);
      OneDim(BlockOf(f, tv), lo + i);
      TimeCell(f, d, tv, lo, hi, i);
    }
  }

  lemma OneDim(b: Block, i: nat)
    requires b.Valid() && |b.shape| == 1 && i < b.shape[0]
    ensures i < |b.data| && At(b, [i]) == b.data[i]
  {
    OffsetInRange(b.shape, [i]);
    assert Offset(b.shape, [i]) == i * Product(b.shape[1..]) + Offset(b.shape[1..], [i][1..]);
  }

  // ----- a series that grows -----

  /** The later series has the same structure, at least as many steps, and the same cells where
      the earlier one has cells. */
  ghost predicate Extends(f: NcFile, g: NcFile, d: nat, tv: nat) {
    g in ExtensionsOf(f, d, tv)
  }

  ghost function ExtensionsOf(f: NcFile, d: nat, tv: nat): iset<NcFile> {
    iset g: NcFile |
      IsSeries(f, d, tv) && IsSeries(g, d, tv)
      && g.inq.vars == f.inq.vars && |g.inq.dims| == |f.inq.dims|
      && Length(f, d) <= Length(g, d) && g.inq.dims[d].name == f.inq.dims[d].name
      && (forall i :: 0 <= i < |f.inq.dims| && i != d ==> g.inq.dims[i] == f.inq.dims[i])
      && (forall k, idx :: 0 <= k < |f.values| && InBounds(idx, BlockOf(f, k).shape) ==>
            At(BlockOf(g, k), idx) == At(BlockOf(f, k), idx))
  }

  /** Windows taken before the series grew are windows of the grown series. */
  lemma WindowSurvives(f: NcFile, g: NcFile, d: nat, tv: nat, lo: int, hi: int)
    requires Extends(f, g, d, tv) && 0 <= lo <= hi < Length(f, d)
    ensures Window(g, d, tv, lo, hi) == Window(f, d, tv, lo, hi)
  {
    var w := TimeWindow(f, d, lo, hi);
    assert TimeWindow(g, d, lo, hi) == w;
    SelectWindow(f, d, lo, hi);
    WindowDumpable(f, d, tv, lo, hi);
    WindowDumpable(g, d, tv, lo, hi);
    var a, b := Window(f, d, tv, lo, hi), Window(g, d, tv, lo, hi);
    assert a.inq.dims == b.inq.dims;
    forall k | 0 <= k < |f.values|
      ensures a.values[k] == b.values[k]
    {
      SurvivingData(f, g, d, tv, lo, hi, k);
    }
  }

  lemma SurvivingData(f: NcFile, g: NcFile, d: nat, tv: nat, lo: int, hi: int, k: nat)
    requires Extends(f, g, d, tv) && 0 <= lo <= hi < Length(f, d) && k < |f.values|
    ensures |Window(g, d, tv, lo, hi).values| == |Window(f, d, tv, lo, hi).values| == |f.values|
    ensures Window(g, d, tv, lo, hi).values[k] == Window(f, d, tv, lo, hi).values[k]
  {
    var v := f.inq.vars[k];
    var w := TimeWindow(f, d, lo, hi);
    WindowShape(f, d, tv, lo, hi, k);
    WindowShape(g, d, tv, lo, hi, k);
    var start, count := Starts(f.inq, v, w), Counts(f.inq, v, w);
    assert Starts(g.inq, v, w) == start && Counts(g.inq, v, w) == count;
    forall c | 0 <= c < |Slab(start, count)|
      ensures At(BlockOf(g, k), Slab(start, count)[c]) == At(BlockOf(f, k), Slab(start, count)[c])
    {
      var idx := SlabCell(start, count, c);
      assert InBounds(Shift(start, idx), BlockOf(f, k).shape);
    }
  }
}
