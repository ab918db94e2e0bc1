/** netCDF files as values, the inquiries made on them, and the sizes derived from an inquiry. */
module NetCdf {
  import opened Hyperslab
  import opened Blocks

  datatype Option<+T> = None | Some(value: T)

  datatype Error =
    | NETCDF_VAR_COUNT_OUT_OF_RANGE
    | NETCDF_DIM_MISMATCH_ERR
    | NETCDF_DEF_VAR_ERR
    | NETCDF_OPEN_ERR
    | NETCDF_INQ_ERR
    | NETCDF_GET_VARS_ERR
    | NETCDF_AGG_ELE_FILE_NOT_OPENED
    | NETCDF_AGG_ELE_INX_OUT_OF_RANGE
    | NETCDF_AGG_INFO_FILE_ERR
    | NETCDF_INVALID_DATA_TYPE
    | USER_INPUT_FORMAT_ERR
    | CREATE_ERR
    | OOI_DICT_TYPE_NOT_SUPPORTED
    | OOI_JSON_TYPE_ERR

  datatype Result<+T> = Ok(value: T) | Err(error: Error)

  datatype NcType = NcChar | NcByte | NcUByte | NcString | NcInt | NcUInt | NcShort | NcUShort
                  | NcInt64 | NcUInt64 | NcFloat | NcDouble | Unknown

  datatype Dim = Dim(name: string, arrayLen: nat)

  datatype Var = Var(id: int, name: string, dataType: NcType, dimId: seq<nat>)

  datatype Inq = Inq(dims: seq<Dim>, vars: seq<Var>)

  function DimAt(inq: Inq, id: nat): Dim {
    if id < |inq.dims| then inq.dims[id] else Dim("", 0)
  }

  /** Variables are numbered in table order, as nc_inq_varids does, and run over known dimensions. */
  predicate ValidVar(inq: Inq, k: nat) {
    k < |inq.vars| && inq.vars[k].id == k
    && forall j :: 0 <= j < |inq.vars[k].dimId| ==> inq.vars[k].dimId[j] < |inq.dims|
  }

  predicate ValidInq(inq: Inq) {
    forall k: nat :: k < |inq.vars| ==> ValidVar(inq, k)
  }

  function ShapeOf(inq: Inq, v: Var): (shape: seq<nat>)
    ensures |shape| == |v.dimId|
  {
    seq(|v.dimId|, j requires 0 <= j < |v.dimId| => DimAt(inq, v.dimId[j]).arrayLen)
  }

  datatype NcFile = NcFile(inq: Inq, values: seq<seq<int>>) {
    predicate Valid() {
      ValidInq(inq) && |values| == |inq.vars| && forall k: nat :: k < |values| ==> DataFits(k)
    }

    predicate DataFits(k: nat) {
      k < |values| && k < |inq.vars| && |values[k]| == Product(ShapeOf(inq, inq.vars[k]))
    }
  }

  /** The variable with this id as a block. */
  function BlockOf(f: NcFile, varid: int): (b: Block)
    ensures f.Valid() ==> b.Valid()
  {
    if 0 <= varid < |f.values| && f.DataFits(varid)
    then Block(ShapeOf(f.inq, f.inq.vars[varid]), f.values[varid])
    else Block([0], [])
  }

  // ----- sizes -----

  /** Bytes of one value; a type the switch does not list has size 0. */
  function DataTypeSize(t: NcType): nat {
    match t
    case NcChar | NcByte | NcUByte => 1
    case NcShort | NcUShort => 2
    case NcInt | NcUInt | NcFloat => 4
    case NcInt64 | NcUInt64 | NcDouble | NcString => 8
    case Unknown => 0
  }

  /** The least and the greatest value of an integer or character type. */
  function ValueRange(t: NcType): Option<(int, int)> {
    match t
    case NcByte => Some((-128, 127))
    case NcChar | NcUByte => Some((0, 255))
    case NcShort => Some((-32768, 32767))
    case NcUShort => Some((0, 65535))
    case NcInt => Some((-2147483648, 2147483647))
    case NcUInt => Some((0, 4294967295))
    case NcInt64 => Some((-9223372036854775808, 9223372036854775807))
    case NcUInt64 => Some((0, 18446744073709551615))
    case _ => None
  }

  function BytePatterns(size: nat): nat {
    if size == 0 then 1 else 256 * BytePatterns(size - 1)
  }

  /** The size of such a type has as many bit patterns as the type has values; reals of single and double
      precision take as much room as integers of 32 and 64 bits. */
  lemma SizeHoldsValues(t: NcType)
    ensures ValueRange(t).Some? ==>
              var (least, greatest) := ValueRange(t).value; BytePatterns(DataTypeSize(t)) == greatest - least + 1
    ensures DataTypeSize(NcFloat) == DataTypeSize(NcInt) && DataTypeSize(NcDouble) == DataTypeSize(NcInt64)
  {
    assert BytePatterns(2) == 65536;
    assert BytePatterns(4) == 4294967296;
    assert BytePatterns(6) == 65536 * BytePatterns(4);
    assert BytePatterns(8) == 18446744073709551616;
  }

  /** The types times are converted from. */
  predicate TimeType(t: NcType) {
    match t
    case NcShort | NcUShort | NcInt | NcUInt | NcInt64 | NcUInt64 | NcFloat | NcDouble => true
    case _ => false
  }

  function StepAlong(count: int, stride: int): nat
    requires count > 0 && stride > 0
  {
    (count - 1) / stride + 1
  }

  function Normal(stride: int): (s: int)
    ensures s > 0
  {
    if stride <= 0 then 1 else stride
  }

  function StridedSize(count: seq<int>, stride: seq<int>): nat
    requires |count| == |stride| && forall i :: 0 <= i < |count| ==> count[i] > 0
  {
    if |count| == 0 then 1
    else
      var last := |count| - 1;
      StridedSize(count[..last], stride[..last]) * StepAlong(count[last], Normal(stride[last]))
  }

  lemma StridedSizeNext(count: seq<int>, stride: seq<int>, i: nat)
    requires |count| == |stride| && i < |count| && forall k :: 0 <= k <= i ==> count[k] > 0
    ensures StridedSize(count[..i + 1], stride[..i + 1])
         == StridedSize(count[..i], stride[..i]) * StepAlong(count[i], Normal(stride[i]))
  {
    assert count[..i + 1][..i] == count[..i] && stride[..i + 1][..i] == stride[..i];
  }

  /** Number of values a request selects. Strides that are not positive become 1 on the way, up to
      the first count that is not positive. */
  method GetSizeForGetVars(count: seq<int>, stride: seq<int>) returns (r: Result<nat>, normalised: seq<int>)
    requires |count| == |stride|
    ensures r.Err? <==> exists i :: 0 <= i < |count| && count[i] <= 0
    ensures r.Err? ==> r.error == NETCDF_VAR_COUNT_OUT_OF_RANGE
    ensures r.Ok? ==> r.value == StridedSize(count, stride)
    ensures r.Ok? ==> normalised == seq(|stride|, i requires 0 <= i < |stride| => Normal(stride[i]))
  {
    normalised := stride;
    var len: nat := 1;
    var i := 0;
    while i < |count|
      invariant 0 <= i <= |count| && |normalised| == |stride|
      invariant forall k :: 0 <= k < i ==> count[k] > 0 && normalised[k] == Normal(stride[k])
      invariant forall k :: i <= k < |count| ==> normalised[k] == stride[k]
      invariant len == StridedSize(count[..i], stride[..i])
    {
      if count[i] <= 0 {
        return Err(NETCDF_VAR_COUNT_OUT_OF_RANGE), normalised;
      }
      if normalised[i] <= 0 {
        normalised := normalised[i := 1];
      }
      StridedSizeNext(count, stride, i);
      len := len * StepAlong(count[i], normalised[i]);
      i := i + 1;
    }
    assert count[..i] == count && stride[..i] == stride;
    r := Ok(len);
  }

  lemma {:induction false} ProductSnoc(shape: seq<nat>, n: nat)
    ensures Product(shape + [n]) == Product(shape) * n
  {
    if |shape| > 0 {
      ProductSnoc(shape[1..], n);
      assert (shape + [n])[1..] == shape[1..] + [n];
      assert shape[0] * (Product(shape[1..]) * n) == shape[0] * Product(shape[1..]) * n;
    } else {
      assert (shape + [n])[1..] == [];
    }
  }

  predicate SingleSteps(count: seq<nat>, stride: seq<int>)
    requires |count| == |stride|
  {
    forall i :: 0 <= i < |count| ==> stride[i] <= 1 || count[i] == 1
  }

  lemma StepsAlong(count: nat, stride: int)
    requires count > 0
    ensures 0 < StepAlong(count, Normal(stride)) <= count
    ensures StepAlong(count, Normal(stride)) == count <==> stride <= 1 || count == 1
  {
    var s := Normal(stride);
    var q := (count - 1) / s;
    assert count - 1 == q * s + (count - 1) % s;
    if s > 1 && q > 0 {
      MulMono(2, s, q);
    }
  }

  lemma ProductsEqual(a: nat, b: nat, c: nat, d: nat)
    requires 0 < a <= c && 0 < b <= d
    ensures 0 < a * b <= c * d
    ensures a * b == c * d <==> a == c && b == d
  {
    MulMono(a, c, b);
    assert c * d == c * b + c * (d - b);
    assert c * b == a * b + (c - a) * b;
    MulMono(1, c, d - b);
    MulMono(1, b, c - a);
    assert (c - a) * b == b * (c - a) && c * (d - b) == (d - b) * c;
    MulMono(1, a, b);
  }

  /** A request's size is at most the number of cells of its hyperslab, and the same exactly when no
      stride skips a cell. A transfer that pays no heed to the strides therefore fits into the buffer
      exactly then. */
  lemma {:induction false} StridedFitsExactly(count: seq<nat>, stride: seq<int>)
    requires |count| == |stride| && forall i :: 0 <= i < |count| ==> count[i] > 0
    ensures 0 < StridedSize(count, stride) <= Product(count)
    ensures StridedSize(count, stride) == Product(count) <==> SingleSteps(count, stride)
  {
    if |count| > 0 {
      var last := |count| - 1;
      StridedFitsExactly(count[..last], stride[..last]);
      ProductSnoc(count[..last], count[last]);
      assert count == count[..last] + [count[last]];
      StepsAlong(count[last], stride[last]);
      ProductsEqual(StridedSize(count[..last], stride[..last]), StepAlong(count[last], Normal(stride[last])),
                    Product(count[..last]), count[last]);
      assert SingleSteps(count, stride)
        <==> SingleSteps(count[..last], stride[..last]) && (stride[last] <= 1 || count[last] == 1);
    }
  }

  // ----- the time dimension -----

  function LowerChar(c: char): char {
    if 'A' <= c <= 'Z' then (c as int - 'A' as int + 'a' as int) as char else c
  }

  /** strcasecmp(s, "time") == 0 */
  predicate NamesTime(s: string) {
    |s| == 4 && forall i :: 0 <= i < 4 ==> LowerChar(s[i]) == "time"[i]
  }

  /** The four letters of time, each in either case. */
  lemma NamesTimeExactly(s: string)
    ensures NamesTime(s)
       <==> |s| == 4 && s[0] in "tT" && s[1] in "iI" && s[2] in "mM" && s[3] in "eE"
  {
    if |s| == 4 {
      LowerExactly(s[0], 't', 'T');
      LowerExactly(s[1], 'i', 'I');
      LowerExactly(s[2], 'm', 'M');
      LowerExactly(s[3], 'e', 'E');
    }
  }

  lemma LowerExactly(c: char, lower: char, upper: char)
    requires 'a' <= lower <= 'z' && upper as int - 'A' as int == lower as int - 'a' as int
    ensures LowerChar(c) == lower <==> c in [lower, upper]
  {
  }

  ghost predicate IsTimeDim(inq: Inq, d: int) {
    0 <= d < |inq.dims| && NamesTime(inq.dims[d].name)
    && forall k :: 0 <= k < d ==> !NamesTime(inq.dims[k].name)
  }

  method FindTimeDim(inq: Inq) returns (d: int)
    ensures 0 <= d ==> IsTimeDim(inq, d)
    ensures d < 0 <==> forall k :: 0 <= k < |inq.dims| ==> !NamesTime(inq.dims[k].name)
  {
    d := 0;
    while d < |inq.dims|
      invariant 0 <= d <= |inq.dims|
      invariant forall k :: 0 <= k < d ==> !NamesTime(inq.dims[k].name)
    {
      if NamesTime(inq.dims[d].name) {
        return;
      }
      d := d + 1;
    }
    d := -1;
  }

  /** Where the time dimension is among the dimensions of a variable, or negative. */
  ghost predicate IsTimeInxInVar(inq: Inq, varid: int, p: int)
    requires ValidInq(inq)
  {
    if 0 <= p then
      0 <= varid < |inq.vars| && p < |inq.vars[varid].dimId|
      && IsTimeDim(inq, inq.vars[varid].dimId[p])
      && forall j :: 0 <= j < p ==> inq.vars[varid].dimId[j] != inq.vars[varid].dimId[p]
    else
      0 <= varid < |inq.vars| ==>
        forall j :: 0 <= j < |inq.vars[varid].dimId| ==> !IsTimeDim(inq, inq.vars[varid].dimId[j])
  }

  lemma TimeInxUnique(inq: Inq, varid: int, p: int, q: int)
    requires ValidInq(inq) && IsTimeInxInVar(inq, varid, p) && IsTimeInxInVar(inq, varid, q)
    ensures p == q || (p < 0 && q < 0)
  {
    if 0 <= p && 0 <= q {
      var dimId := inq.vars[varid].dimId;
      assert IsTimeDim(inq, dimId[p]) && IsTimeDim(inq, dimId[q]);
      assert dimId[p] == dimId[q];
    }
  }

  method GetTimeInxInVar(inq: Inq, varid: int) returns (p: int)
    requires ValidInq(inq)
    ensures IsTimeInxInVar(inq, varid, p) && p >= -1
  {
    var d := FindTimeDim(inq);
    if d < 0 {
      return -1;
    }
    var v := 0;
    while v < |inq.vars| && inq.vars[v].id != varid
      invariant 0 <= v <= |inq.vars|
      invariant !(0 <= varid < v)
    {
      assert ValidVar(inq, v);
      v := v + 1;
    }
    assert v < |inq.vars| ==> ValidVar(inq, v);
    if v >= |inq.vars| {
      return -1;
    }
    p := 0;
    while p < |inq.vars[v].dimId|
      invariant 0 <= p <= |inq.vars[v].dimId|
      invariant forall j :: 0 <= j < p ==> inq.vars[v].dimId[j] != d
    {
      if inq.vars[v].dimId[p] == d {
        return;
      }
      p := p + 1;
    }
    p := -1;
  }

  // ----- bytes of one time step -----

  /** Bytes of one step of a variable: its size without the time dimension d. */
  function VarStepSize(inq: Inq, v: Var, d: nat): nat
    decreases |v.dimId|
  {
    if |v.dimId| == 0 then DataTypeSize(v.dataType)
    else
      var last := |v.dimId| - 1;
      var before := VarStepSize(inq, v.(dimId := v.dimId[..last]), d);
      if v.dimId[last] == d then before else before * DimAt(inq, v.dimId[last]).arrayLen
  }

  function StepSize(inq: Inq, d: nat): nat {
    StepSizeOf(inq, inq.vars, d)
  }

  function StepSizeOf(inq: Inq, vars: seq<Var>, d: nat): nat {
    if |vars| == 0 then 0
    else StepSizeOf(inq, vars[..|vars| - 1], d) + VarStepSize(inq, vars[|vars| - 1], d)
  }

  method GetTimeStepSize(inq: Inq) returns (r: Result<nat>)
    requires ValidInq(inq)
    ensures r.Err? <==> forall k :: 0 <= k < |inq.dims| ==> !NamesTime(inq.dims[k].name)
    ensures r.Ok? ==> exists d :: IsTimeDim(inq, d) && r.value == StepSize(inq, d)
  {
    var d := FindTimeDim(inq);
    if d < 0 {
      return Err(NETCDF_DIM_MISMATCH_ERR);
    }
    var total: nat := 0;
    var i := 0;
    while i < |inq.vars|
      invariant 0 <= i <= |inq.vars|
      invariant total == StepSizeOf(inq, inq.vars[..i], d)
    {
      var v := inq.vars[i];
      assert ValidVar(inq, i);
      var varSize := DataTypeSize(v.dataType);
      var j := 0;
      while j < |v.dimId|
        invariant 0 <= j <= |v.dimId|
        invariant varSize == VarStepSize(inq, v.(dimId := v.dimId[..j]), d)
      {
        assert v.dimId[..j + 1][..j] == v.dimId[..j];
        if v.dimId[j] != d {
          varSize := varSize * inq.dims[v.dimId[j]].arrayLen;
        }
        j := j + 1;
      }
      assert v.dimId[..j] == v.dimId;
      total := total + varSize;
      assert inq.vars[..i + 1][..i] == inq.vars[..i];
      i := i + 1;
    }
    assert inq.vars[..i] == inq.vars;
    r := Ok(total);
  }
}
