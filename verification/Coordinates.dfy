/** Subset requests by value: the texts of a range are resolved to steps on the coordinates of a variable. */
module Coordinates {
  import opened Hyperslab
  import opened Blocks
  import opened NetCdf
  import opened Decimal
  import opened Subset
  import opened SubsetString
  import Copy

  /** Conversions of texts that are not part of this model: of times, and of real numbers to the
      coordinates of a variable of real type. */
  datatype Conversions = Conversions(asciToTime: string -> int, atof: string -> int)

  predicate IsInteger(t: NcType) {
    match t
    case NcShort | NcUShort | NcInt | NcUInt | NcInt64 | NcUInt64 => true
    case _ => false
  }

  /** The coordinate a text stands for. */
  function BoundOf(v: Var, text: string, conv: Conversions): int {
    if NamesTime(v.name) then conv.asciToTime(text)
    else if IsInteger(v.dataType) then Atoi(text)
    else conv.atof(text)
  }

  /** The text stands for the coordinate: a time for a variable of that name, whatever its type, else a
      whole number or a real one by the type. */
  ghost predicate StandsFor(v: Var, text: string, conv: Conversions, x: int) {
    TimeType(v.dataType)
    && (NamesTime(v.name) ==> x == conv.asciToTime(text))
    && (!NamesTime(v.name) && v.dataType in [NcShort, NcUShort, NcInt, NcUInt, NcInt64, NcUInt64] ==> x == Atoi(text))
    && (!NamesTime(v.name) && v.dataType in [NcFloat, NcDouble] ==> x == conv.atof(text))
  }

  /** The first variable of this name. */
  ghost predicate FirstVar(inq: Inq, name: string, v: nat) {
    v < |inq.vars| && inq.vars[v].name == name && forall k :: 0 <= k < v ==> inq.vars[k].name != name
  }

  method FindVar(inq: Inq, name: string) returns (found: bool, v: nat)
    ensures found ==> FirstVar(inq, name, v)
    ensures !found ==> forall k :: 0 <= k < |inq.vars| ==> inq.vars[k].name != name
  {
    v := 0;
    while v < |inq.vars|
      invariant v <= |inq.vars| && forall k :: 0 <= k < v ==> inq.vars[k].name != name
    {
      if inq.vars[v].name == name {
        return true, v;
      }
      v := v + 1;
    }
    found := false;
  }

  /** A variable has the request's name, and the first that has it holds numbers, some along every
      dimension. */
  ghost predicate CanResolve(f: NcFile, r: SubsetRequest) {
    exists v: nat :: FirstVar(f.inq, r.name, v)
                     && f.inq.vars[v].dataType
                        in [NcShort, NcUShort, NcInt, NcUInt, NcInt64, NcUInt64, NcFloat, NcDouble]
                     && forall j :: 0 <= j < |f.inq.vars[v].dimId| ==> DimAt(f.inq, f.inq.vars[v].dimId[j]).arrayLen > 0
  }

  /** The request's range has become that of the values from lo to hi, the coordinates its texts stand for,
      in the first variable of its name. */
  ghost predicate ResolvedOn(f: NcFile, conv: Conversions, before: SubsetRequest, after: SubsetRequest, v: nat,
                             lo: int, hi: int)
  {
    FirstVar(f.inq, before.name, v) && v < |f.values|
    && after == SubsetRequest(before.name, before.range.(start := after.range.start, end := after.range.end))
    && StandsFor(f.inq.vars[v], before.range.startStr, conv, lo)
    && StandsFor(f.inq.vars[v], before.range.endStr, conv, hi)
    && Copy.Resolved(f.values[v], lo, hi, after.range.start, after.range.end)
  }

  ghost predicate ResolvedIn(f: NcFile, conv: Conversions, before: SubsetRequest, after: SubsetRequest) {
    exists v: nat, lo, hi :: ResolvedOn(f, conv, before, after, v, lo, hi)
  }

  /** Without subsets a variable is read as a whole. */
  lemma ReadWhole(f: NcFile, v: nat)
    requires f.Valid() && v < |f.inq.vars| && ReadableVar(f.inq, f.inq.vars[v], [])
    ensures SubsetData(f, v, []) == f.values[v]
  {
    assert f.DataFits(v);
    var source := BlockOf(f, v);
    assert Starts(f.inq, f.inq.vars[v], []) == seq(|source.shape|, _ => 0);
    assert Counts(f.inq, f.inq.vars[v], []) == source.shape;
    ReadAll(source);
  }

  lemma CanResolveIf(f: NcFile, r: SubsetRequest, v: nat)
    requires FirstVar(f.inq, r.name, v)
    ensures CanResolve(f, r) <==> TimeType(f.inq.vars[v].dataType) && ReadableVar(f.inq, f.inq.vars[v], [])
  {
  }

  /** One request of resolveSubsetVar. */
  method ResolveRequest(f: NcFile, request: SubsetRequest, conv: Conversions) returns (r: Result<SubsetRequest>)
    requires f.Valid()
    ensures r.Ok? <==> CanResolve(f, request)
    ensures r.Ok? ==> ResolvedIn(f, conv, request, r.value)
    ensures (forall v: nat :: !FirstVar(f.inq, request.name, v)) ==> r == Err(NETCDF_DIM_MISMATCH_ERR)
  {
    var found, v := FindVar(f.inq, request.name);
    if !found {
      return Err(NETCDF_DIM_MISMATCH_ERR);
    }
    CanResolveIf(f, request, v);
    if !TimeType(f.inq.vars[v].dataType) {
      return Err(NETCDF_INVALID_DATA_TYPE);
    }
    var data := GetSingleNcVarData(f, v, []);
    if data.Err? {
      return Err(data.error);
    }
    ReadWhole(f, v);
    var lo := BoundOf(f.inq.vars[v], request.range.startStr, conv);
    var hi := BoundOf(f.inq.vars[v], request.range.endStr, conv);
    var start, end := Copy.ResolveRange(data.value, lo, hi);
    r := Ok(request.(range := request.range.(start := start, end := end)));
    assert ResolvedOn(f, conv, request, r.value, v, lo, hi);
  }

  /** resolveSubsetVar: resolves the requests in place, one by one, up to the first that cannot be. */
  method ResolveSubsetVar(f: NcFile, requests: array<SubsetRequest>, conv: Conversions)
    returns (status: Result<()>, ghost done: nat)
    requires f.Valid()
    modifies requests
    ensures done <= requests.Length && (status.Ok? <==> done == requests.Length)
    ensures forall j: nat :: j < done ==> ResolvedIn(f, conv, old(requests[j]), requests[j])
    ensures forall j: nat :: done <= j < requests.Length ==> requests[j] == old(requests[j])
    ensures forall j: nat :: j < done ==> CanResolve(f, old(requests[j]))
    ensures done < requests.Length ==> !CanResolve(f, old(requests[done]))
  {
    var j := 0;
    done := 0;
    while j < requests.Length
      invariant j == done <= requests.Length
      invariant forall i: nat :: i < j ==>
                  CanResolve(f, old(requests[i])) && ResolvedIn(f, conv, old(requests[i]), requests[i])
      invariant forall i: nat :: j <= i < requests.Length ==> requests[i] == old(requests[i])
    {
      var r := ResolveRequest(f, requests[j], conv);
      if r.Err? {
        return Err(r.error), done;
      }
      requests[j] := r.value;
      j, done := j + 1, done + 1;
    }
    status := Ok(());
  }

  // ----- which steps are selected -----

  function StepsOf(requests: seq<SubsetRequest>): (r: seq<NcSubset>)
    ensures |r| == |requests|
  {
    seq(|requests|, k requires 0 <= k < |requests| =>
      var s := requests[k].range; NcSubset(requests[k].name, s.start, s.stride, s.end))
  }

  /** Variable v holds the coordinates of dimension d, in ascending order. */
  ghost predicate IsCoordinate(f: NcFile, d: nat, v: nat) {
    f.Valid() && d < |f.inq.dims| && FirstVar(f.inq, f.inq.dims[d].name, v) && f.inq.vars[v].dimId == [d]
    && v < |f.values| && Copy.Nondecreasing(f.values[v])
  }

  lemma CoordinateLength(f: NcFile, d: nat, v: nat)
    requires IsCoordinate(f, d, v)
    ensures |f.values[v]| == f.inq.dims[d].arrayLen
  {
    assert f.DataFits(v);
    var shape := [f.inq.dims[d].arrayLen];
    assert ShapeOf(f.inq, f.inq.vars[v]) == shape;
    assert Product(shape) == shape[0] * Product(shape[1..]);
  }

  /** The steps first..first + n - 1 are those whose values are between lo and hi. When there are none, the
      dimension is refused just when some value reaches lo. */
  ghost predicate SelectsValues(values: seq<int>, lo: int, hi: int, subsets: seq<NcSubset>, dim: Dim, first: int,
                                n: int)
  {
    if exists t :: Copy.Matches(values, lo, hi, t)
    then CanSelect(subsets, dim) && forall t :: Copy.Matches(values, lo, hi, t) <==> first <= t < first + n
    else Refused(subsets, dim) <==> exists t :: 0 <= t < |values| && values[t] >= lo
  }

  lemma RangeSelected(values: seq<int>, lo: int, hi: int, subsets: seq<NcSubset>, dim: Dim, k: nat)
    requires Copy.Nondecreasing(values) && lo <= hi && |values| == dim.arrayLen && FirstNamed(subsets, dim.name, k)
    requires Copy.Resolved(values, lo, hi, subsets[k].start, subsets[k].end)
    ensures SelectsValues(values, lo, hi, subsets, dim, subsets[k].start, subsets[k].end - subsets[k].start + 1)
  {
    var start, end := subsets[k].start, subsets[k].end;
    Copy.ResolvedExactly(values, lo, hi, start, end, dim.name);
    SelectIsFirst(subsets, dim.name);
    if t :| Copy.Matches(values, lo, hi, t) {
      assert start <= t <= end;
      assert Copy.Matches(values, lo, hi, start);
    } else {
      SelectsExactly(subsets, dim, start, end - start + 1);
    }
  }

  /** Of a dimension with ascending coordinates, the resolved requests select exactly the steps whose
      coordinates are between the two that the texts of the dimension's first request stand for. */
  lemma ValuesSelected(f: NcFile, conv: Conversions, before: seq<SubsetRequest>, after: seq<SubsetRequest>,
                       d: nat, v: nat, k: nat, lo: int, hi: int, first: int, n: int)
    requires IsCoordinate(f, d, v) && |before| == |after|
    requires forall j: nat :: j < |before| ==> ResolvedIn(f, conv, before[j], after[j])
    requires FirstNamed(StepsOf(after), f.inq.dims[d].name, k)
    requires Selects(StepsOf(after), f.inq.dims[d], first, n)
    requires StandsFor(f.inq.vars[v], before[k].range.startStr, conv, lo)
    requires StandsFor(f.inq.vars[v], before[k].range.endStr, conv, hi) && lo <= hi
    ensures SelectsValues(f.values[v], lo, hi, StepsOf(after), f.inq.dims[d], first, n)
  {
    assert ResolvedIn(f, conv, before[k], after[k]);
    var v', lo', hi' :| ResolvedOn(f, conv, before[k], after[k], v', lo', hi');
    assert v' == v && lo' == lo && hi' == hi;
    CoordinateLength(f, d, v);
    RangeSelected(f.values[v], lo, hi, StepsOf(after), f.inq.dims[d], k);
  }

  /** From the text to the steps: on an integer coordinate, a request selects exactly the steps whose
      coordinates are from the first to the last number of its text. */
  lemma RequestSelects(f: NcFile, conv: Conversions, text: string, start: string, stride: string, end: string,
                       tail: string, after: SubsetRequest, d: nat, v: nat, first: int, n: int)
    requires IsCoordinate(f, d, v) && !NamesTime(f.inq.dims[d].name)
    requires f.inq.vars[v].dataType in [NcShort, NcUShort, NcInt, NcUInt, NcInt64, NcUInt64]
    requires IsRequest(text, f.inq.dims[d].name, start, stride, end, tail) && Atoi(start) <= Atoi(end)
    requires Request(text).Some? ==> ResolvedIn(f, conv, Request(text).value, after)
    requires Selects(StepsOf([after]), f.inq.dims[d], first, n)
    ensures SelectsValues(f.values[v], Atoi(start), Atoi(end), StepsOf([after]), f.inq.dims[d], first, n)
  {
    RequestParses(text, f.inq.dims[d].name, start, stride, end, tail);
    var before := Request(text).value;
    assert FirstNamed(StepsOf([after]), f.inq.dims[d].name, 0);
    ValuesSelected(f, conv, [before], [after], d, v, 0, Atoi(start), Atoi(end), first, n);
  }
}
