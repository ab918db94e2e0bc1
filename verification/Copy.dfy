/** Copying a variable to a new file in blocks, and turning value ranges into index ranges. */
module Copy {
  import opened Hyperslab
  import opened Blocks
  import opened NetCdf
  import opened Subset

  // ----- writing -----

  /** nc_put_vars: stores a transfer buffer at the cells of a hyperslab, in order. */
  function Put(data: seq<int>, shape: seq<nat>, cells: seq<Index>, vals: seq<int>): (r: seq<int>)
    requires |cells| == |vals| && |data| == Product(shape)
    ensures |r| == |data|
  {
    if |cells| == 0 then data
    else
      var last := |cells| - 1;
      var before := Put(data, shape, cells[..last], vals[..last]);
      if InBounds(cells[last], shape) then
        OffsetInRange(shape, cells[last]);
        before[Offset(shape, cells[last]) := vals[last]]
      else before
  }

  lemma {:induction false} PutConcat(data: seq<int>, shape: seq<nat>,
                                     a: seq<Index>, u: seq<int>, b: seq<Index>, v: seq<int>)
    requires |a| == |u| && |b| == |v| && |data| == Product(shape)
    ensures Put(Put(data, shape, a, u), shape, b, v) == Put(data, shape, a + b, u + v)
    decreases |b|
  {
    if |b| == 0 {
      assert a + b == a && u + v == u;
    } else {
      var last := |b| - 1;
      PutConcat(data, shape, a, u, b[..last], v[..last]);
      assert (a + b)[..|a + b| - 1] == a + b[..last];
      assert (u + v)[..|u + v| - 1] == u + v[..last];
    }
  }

  lemma SlabInBounds(start: seq<nat>, count: seq<nat>, shape: seq<nat>)
    requires Fits(start, count, shape)
    ensures forall k :: 0 <= k < |Slab(start, count)| ==> InBounds(Slab(start, count)[k], shape)
  {
    forall k | 0 <= k < |Slab(start, count)|
      ensures InBounds(Slab(start, count)[k], shape)
    {
      var idx := SlabCell(start, count, k);
    }
  }

  lemma OffsetInjective(shape: seq<nat>, a: Index, b: Index)
    requires InBounds(a, shape) && InBounds(b, shape)
    ensures Offset(shape, a) == Offset(shape, b) ==> a == b
  {
    var zero: seq<nat> := seq(|shape|, _ => 0);
    SlabAt(zero, shape, a);
    SlabAt(zero, shape, b);
    assert Shift(zero, a) == a && Shift(zero, b) == b;
  }

  lemma {:induction false} PutAt(data: seq<int>, shape: seq<nat>, cells: seq<Index>, vals: seq<int>, k: nat)
    requires |cells| == |vals| && |data| == Product(shape) && k < |cells|
    requires forall i :: 0 <= i < |cells| ==> InBounds(cells[i], shape)
    requires forall i, j :: 0 <= i < j < |cells| ==> cells[i] != cells[j]
    ensures InBounds(cells[k], shape) && Offset(shape, cells[k]) < |data|
    ensures Put(data, shape, cells, vals)[Offset(shape, cells[k])] == vals[k]
    decreases |cells|
  {
    OffsetInRange(shape, cells[k]);
    var last := |cells| - 1;
    if k < last {
      PutAt(data, shape, cells[..last], vals[..last], k);
      OffsetInjective(shape, cells[k], cells[last]);
    }
  }

  lemma {:induction false} PutElsewhere(data: seq<int>, shape: seq<nat>, cells: seq<Index>, vals: seq<int>, idx: Index)
    requires |cells| == |vals| && |data| == Product(shape) && InBounds(idx, shape)
    requires forall i :: 0 <= i < |cells| ==> cells[i] != idx
    ensures Offset(shape, idx) < |data|
    ensures Put(data, shape, cells, vals)[Offset(shape, idx)] == data[Offset(shape, idx)]
    decreases |cells|
  {
    OffsetInRange(shape, idx);
    if |cells| > 0 {
      var last := |cells| - 1;
      PutElsewhere(data, shape, cells[..last], vals[..last], idx);
      if InBounds(cells[last], shape) {
        OffsetInjective(shape, idx, cells[last]);
      }
    }
  }

  lemma ShiftInjective(start: seq<nat>, a: Index, b: Index)
    requires |start| == |a| == |b|
    ensures Shift(start, a) == Shift(start, b) ==> a == b
  {
    assert forall d :: 0 <= d < |start| ==> a[d] == Shift(start, a)[d] - start[d];
    assert forall d :: 0 <= d < |start| ==> b[d] == Shift(start, b)[d] - start[d];
  }

  lemma SlabDistinct(start: seq<nat>, count: seq<nat>)
    requires |start| == |count|
    ensures forall i, j :: 0 <= i < j < |Slab(start, count)| ==> Slab(start, count)[i] != Slab(start, count)[j]
  {
    forall i, j | 0 <= i < j < |Slab(start, count)|
      ensures Slab(start, count)[i] != Slab(start, count)[j]
    {
      var a := SlabCell(start, count, i);
      var b := SlabCell(start, count, j);
      ShiftInjective(start, a, b);
    }
  }

  ghost predicate InWindow(idx: Index, start: seq<nat>, count: seq<nat>) {
    |idx| == |start| == |count| && forall i :: 0 <= i < |idx| ==> start[i] <= idx[i] < start[i] + count[i]
  }

  lemma SlabIsWindow(start: seq<nat>, count: seq<nat>)
    requires |start| == |count|
    ensures forall k :: 0 <= k < |Slab(start, count)| ==> InWindow(Slab(start, count)[k], start, count)
  {
    forall k | 0 <= k < |Slab(start, count)|
      ensures InWindow(Slab(start, count)[k], start, count)
    {
      var inner := SlabCell(start, count, k);
    }
  }

  lemma WindowIsSlab(start: seq<nat>, count: seq<nat>, idx: Index) returns (k: nat)
    requires InWindow(idx, start, count)
    ensures k < |Slab(start, count)| && Slab(start, count)[k] == idx
  {
    var inner: Index := seq(|idx|, i requires 0 <= i < |idx| => idx[i] - start[i]);
    SlabAt(start, count, inner);
    assert Shift(start, inner) == idx;
    k := Offset(count, inner);
  }

  /** What a copied window leaves in the target: the source's cells inside the window, the old
      cells outside. */
  lemma CopiedCell(was: seq<int>, now: seq<int>, shape: seq<nat>, src: Block,
                   start: seq<nat>, count: seq<nat>, idx: Index)
    requires Copied(was, now, shape, src, start, count) && Fits(start, count, shape) && InBounds(idx, shape)
    ensures Offset(shape, idx) < |was| == |now|
    ensures now[Offset(shape, idx)]
         == if InWindow(idx, start, count) then At(src, idx) else was[Offset(shape, idx)]
  {
    var cells := Slab(start, count);
    OffsetInRange(shape, idx);
    SlabInBounds(start, count, shape);
    SlabDistinct(start, count);
    if InWindow(idx, start, count) {
      var k := WindowIsSlab(start, count, idx);
      PutAt(was, shape, cells, GetVara(One(src), start, count), k);
    } else {
      SlabIsWindow(start, count);
      PutElsewhere(was, shape, cells, GetVara(One(src), start, count), idx);
    }
  }

  /** Copying all of a variable onto a target of the same shape leaves the variable's data. */
  lemma WholeCopy(was: seq<int>, now: seq<int>, src: Block)
    requires src.Valid()
    requires Copied(was, now, src.shape, src, seq(|src.shape|, _ => 0), src.shape)
    ensures now == src.data
  {
    forall k | 0 <= k < |now| ensures now[k] == src.data[k] {
      var idx := Unrank(src.shape, k);
      UnrankIsRank(src.shape, k);
      CopiedCell(was, now, src.shape, src, seq(|src.shape|, _ => 0), src.shape, idx);
      assert InWindow(idx, seq(|src.shape|, _ => 0), src.shape);
    }
  }

  // ----- the copy -----

  method PutVars(dst: array<int>, shape: seq<nat>, start: seq<nat>, count: seq<nat>, vals: seq<int>)
    requires dst.Length == Product(shape) && Fits(start, count, shape) && |vals| == Product(count)
    modifies dst
    ensures |Slab(start, count)| == |vals|
    ensures dst[..] == Put(old(dst[..]), shape, Slab(start, count), vals)
  {
    SlabLength(start, count);
    SlabInBounds(start, count, shape);
    var cells := Slab(start, count);
    var k := 0;
    while k < |vals|
      invariant 0 <= k <= |vals|
      invariant dst[..] == Put(old(dst[..]), shape, cells[..k], vals[..k])
    {
      OffsetInRange(shape, cells[k]);
      assert cells[..k + 1][..k] == cells[..k] && vals[..k + 1][..k] == vals[..k];
      dst[Offset(shape, cells[k])] := vals[k];
      k := k + 1;
    }
    assert cells[..k] == cells && vals[..k] == vals;
  }

  lemma RowOfArray(count: seq<nat>)
    requires |count| > 0 && Product(count) > 0
    ensures count[0] > 0 && Product(count) / count[0] == Product(count[1..]) > 0
  {
    var row := Product(count[1..]);
    assert row > 0;
    RowOfCell(0, count[0], row);
    assert Product(count) == row * count[0] + 0;
    Quotient(row, count[0]);
  }

  lemma Quotient(a: nat, b: nat)
    requires b > 0
    ensures (a * b) / b == a
  {
    var q := (a * b) / b;
    assert a * b == q * b + (a * b) % b;
    assert (a - q) * b == (a * b) % b;
    if a - q >= 1 {
      MulMono(1, a - q, b);
    } else if a - q <= -1 {
      MulMono(1, q - a, b);
    }
  }

  /** Rows per transfer: all of them, or as many as the transfer size needs. */
  method ChooseStep(lcount: seq<nat>, transferSize: nat) returns (dimStep: nat)
    requires |lcount| > 0
    ensures lcount[0] > 0 ==> dimStep > 0
    ensures dimStep * Product(lcount[1..]) <= transferSize + Product(lcount[1..])
    ensures Product(lcount) <= transferSize ==> dimStep == lcount[0]
    ensures Product(lcount) > transferSize ==> dimStep * Product(lcount[1..]) > transferSize
  {
    var arrayLen: nat := 1;
    var i := 0;
    while i < |lcount|
      invariant 0 <= i <= |lcount| && arrayLen == Product(lcount[..i])
    {
      ProductSnoc(lcount[..i], lcount[i]);
      assert lcount[..i + 1] == lcount[..i] + [lcount[i]];
      arrayLen := arrayLen * lcount[i];
      i := i + 1;
    }
    assert lcount[..i] == lcount;
    dimStep := lcount[0];
    if arrayLen > transferSize {
      RowOfArray(lcount);
      var stepSize := arrayLen / dimStep;
      dimStep := transferSize / stepSize + 1;
      assert (transferSize / stepSize) * stepSize <= transferSize;
      assert dimStep * stepSize == (transferSize / stepSize) * stepSize + stepSize;
    }
  }

  /** The target after a window has been copied. */
  ghost predicate Copied(was: seq<int>, now: seq<int>, shape: seq<nat>, src: Block, start: seq<nat>, count: seq<nat>) {
    |was| == Product(shape) && |start| == |count|
    && now == Put(was, shape, Slab(start, count), GetVara(One(src), start, count))
  }

  function SumOf(s: seq<nat>): nat {
    if |s| == 0 then 0 else SumOf(s[..|s| - 1]) + s[|s| - 1]
  }

  lemma OneMoreTransfer(transfers: seq<nat>, t: nat)
    ensures SumOf(transfers + [t]) == SumOf(transfers) + t
  {
    assert (transfers + [t])[..|transfers|] == transfers;
  }

  ghost predicate SomeInnerEmpty(count: seq<nat>) {
    exists i :: 1 <= i < |count| && count[i] == 0
  }

  /** The block-by-block copy has the effect of one transfer of the whole window, and no transfer is
      larger than the limit plus one row of the outermost dimension. It fails, before writing
      anything, when there is something to copy but some inner dimension has length zero. */
  method GetAndPutVarToFile(src: Block, dst: array<int>, dstShape: seq<nat>,
                            lstart: seq<nat>, lcount: seq<nat>, transferSize: nat)
    returns (r: Result<()>, ghost transfers: seq<nat>)
    requires src.Valid() && dst.Length == Product(dstShape) && |lcount| > 0
    requires Fits(lstart, lcount, src.shape) && Fits(lstart, lcount, dstShape)
    modifies dst
    ensures r.Err? <==> lcount[0] > 0 && SomeInnerEmpty(lcount)
    ensures r.Err? ==> dst[..] == old(dst[..])
    ensures r.Ok? ==> Copied(old(dst[..]), dst[..], dstShape, src, lstart, lcount)
    ensures forall t :: t in transfers ==> t <= transferSize + Product(lcount[1..])
    ensures r.Ok? ==> SumOf(transfers) == Product(lcount)
  {
    transfers := [];
    var dimStep := ChooseStep(lcount, transferSize);
    var curCount := 0;
    ghost var was := dst[..];
    SlabLength(lstart, lcount[0 := 0]);
    while curCount < lcount[0]
      invariant 0 <= curCount <= lcount[0] && (curCount == 0 ==> dst[..] == was)
      invariant Copied(was, dst[..], dstShape, src, lstart, lcount[0 := curCount])
      invariant curCount > 0 ==> !SomeInnerEmpty(lcount)
      invariant forall t :: t in transfers ==> t <= transferSize + Product(lcount[1..])
      invariant SumOf(transfers) == curCount * Product(lcount[1..])
      decreases lcount[0] - curCount
    {
      var mycount: nat := if curCount + dimStep > lcount[0] then lcount[0] - curCount else dimStep;
      ghost var before := dst[..];
      var len := CopyBlock(src, dst, dstShape, lstart, lcount, curCount, mycount);
      if len.Err? {
        return Err(len.error), transfers;
      }
      MulMono(mycount, dimStep, Product(lcount[1..]));
      OneMoreTransfer(transfers, len.value);
      transfers := transfers + [len.value];
      OneMoreBlock(was, before, dst[..], dstShape, src, lstart, lcount, curCount, mycount);
      assert (curCount + mycount) * Product(lcount[1..])
          == curCount * Product(lcount[1..]) + mycount * Product(lcount[1..]);
      curCount := curCount + mycount;
    }
    assert lcount[0 := curCount] == lcount;
    r := Ok(());
  }

  lemma StridedSizeOfOnes(count: seq<nat>, stride: seq<int>)
    requires |count| == |stride| && forall i :: 0 <= i < |stride| ==> stride[i] == 1
    ensures (forall i :: 0 <= i < |count| ==> count[i] > 0) ==> StridedSize(count, stride) == Product(count)
  {
    if forall i :: 0 <= i < |count| ==> count[i] > 0 {
      StridedFitsExactly(count, stride);
    }
  }

  /** One transfer: mycount rows from row curCount of the window on. */
  method CopyBlock(src: Block, dst: array<int>, dstShape: seq<nat>, lstart: seq<nat>, lcount: seq<nat>,
                   curCount: nat, mycount: nat)
    returns (len: Result<nat>)
    requires src.Valid() && dst.Length == Product(dstShape) && |lcount| > 0
    requires Fits(lstart, lcount, dstShape) && mycount > 0 && curCount + mycount <= lcount[0]
    modifies dst
    ensures len.Err? <==> SomeInnerEmpty(lcount)
    ensures len.Err? ==> dst[..] == old(dst[..])
    ensures len.Ok? ==> len.value == mycount * Product(lcount[1..])
    ensures len.Ok? ==>
              Copied(old(dst[..]), dst[..], dstShape, src, lstart[0 := lstart[0] + curCount], lcount[0 := mycount])
  {
    var start, count := lstart[0 := lstart[0] + curCount], lcount[0 := mycount];
    var stride: seq<int> := seq(|count|, _ => 1);
    StridedSizeOfOnes(count, stride);
    len, stride := GetSizeForGetVars(count, stride);
    assert forall i :: 1 <= i < |lcount| ==> lcount[i] == count[i];
    if len.Err? {
      return;
    }
    assert count[1..] == lcount[1..];
    PutVars(dst, dstShape, start, count, GetBlock(src, start, count));
  }

  function GetBlock(src: Block, start: seq<nat>, count: seq<nat>): (r: seq<int>)
    requires |start| == |count|
    ensures |r| == Product(count)
  {
    SlabLength(start, count);
    GetVara(One(src), start, count)
  }

  lemma OneMoreBlock(was: seq<int>, before: seq<int>, now: seq<int>, shape: seq<nat>, src: Block,
                     start: seq<nat>, count: seq<nat>, a: nat, b: nat)
    requires |count| > 0 && a + b <= count[0] && |start| == |count|
    requires Copied(was, before, shape, src, start, count[0 := a])
    requires Copied(before, now, shape, src, start[0 := start[0] + a], count[0 := b])
    ensures Copied(was, now, shape, src, start, count[0 := a + b])
  {
    var whole := count[0 := a + b];
    SlabSplit(start, whole, 0, a, b);
    assert whole[0 := a] == count[0 := a] && whole[0 := b] == count[0 := b];
    var first, second := Slab(start, count[0 := a]), Slab(start[0 := start[0] + a], count[0 := b]);
    GatherConcat(One(src), first, second);
    PutConcat(was, shape, first, Gather(One(src), first), second, Gather(One(src), second));
  }

  // ----- value ranges -----

  ghost predicate Nondecreasing(v: seq<int>) {
    forall i, j :: 0 <= i <= j < |v| ==> v[i] <= v[j]
  }

  /** What the scan of resolveSubsetVar leaves in start and end. */
  ghost predicate Resolved(v: seq<int>, lo: int, hi: int, start: int, end: int) {
    -1 <= end < |v| && -1 <= start < |v|
    && (forall k :: 0 <= k <= end ==> v[k] <= hi)
    && (end + 1 < |v| ==> v[end + 1] > hi)
    && (if start == -1 then forall k :: 0 <= k < |v| && k <= end + 1 ==> v[k] < lo
        else start <= end + 1 && v[start] >= lo && forall k :: 0 <= k < start ==> v[k] < lo)
  }

  method ResolveRange(v: seq<int>, lo: int, hi: int) returns (start: int, end: int)
    ensures Resolved(v, lo, hi, start, end)
  {
    start, end := -1, -1;
    var k := 0;
    while k < |v|
      invariant 0 <= k <= |v| && end == k - 1
      invariant forall i :: 0 <= i < k ==> v[i] <= hi
      invariant if start == -1 then forall i :: 0 <= i < k ==> v[i] < lo
                else 0 <= start < k && v[start] >= lo && forall i :: 0 <= i < start ==> v[i] < lo
    {
      if start == -1 && v[k] >= lo {
        start := k;
      }
      if v[k] <= hi {
        end := k;
      } else {
        break;
      }
      k := k + 1;
    }
  }

  ghost predicate Matches(v: seq<int>, lo: int, hi: int, k: int) {
    0 <= k < |v| && lo <= v[k] <= hi
  }

  /** On sorted coordinates a non-empty selection is resolved exactly. An empty one is rejected by
      the reader's range check exactly when some coordinate reaches the lower bound; otherwise it is
      passed on with start -1. */
  lemma ResolvedExactly(v: seq<int>, lo: int, hi: int, start: int, end: int, name: string)
    requires Nondecreasing(v) && lo <= hi && Resolved(v, lo, hi, start, end)
    ensures (exists k :: Matches(v, lo, hi, k)) ==>
              forall k :: Matches(v, lo, hi, k) <==> start <= k <= end
    ensures !(exists k :: Matches(v, lo, hi, k)) ==>
              (OutOfRange(Dim(name, |v|), NcSubset(name, start, 1, end))
               <==> exists k :: 0 <= k < |v| && v[k] >= lo)
    ensures (start == -1 <==> forall k :: 0 <= k < |v| ==> v[k] < lo)
  {
    if start == -1 {
      assert end + 1 == |v|;
    }
    forall k | Matches(v, lo, hi, k) ensures start <= k <= end && start >= 0 {
    }
    if 0 <= start <= end {
      assert Matches(v, lo, hi, start);
    }
    if start >= 0 {
      assert v[start] >= lo;
      forall k | start <= k <= end ensures Matches(v, lo, hi, k) {
        assert v[start] <= v[k];
      }
    }
  }

  // ----- lattice points of a strided range -----

  function Lattice(s: int, t: int, n: nat): (r: set<int>)
    requires t > 0
  {
    if n == 0 then {} else Lattice(s, t, n - 1) + {s + (n - 1) * t}
  }

  lemma {:induction false} LatticeMember(s: int, t: int, n: nat)
    requires t > 0
    ensures forall k :: k in Lattice(s, t, n) ==> s <= k < s + n * t && (k - s) % t == 0
    ensures |Lattice(s, t, n)| == n
  {
    if n > 0 {
      LatticeMember(s, t, n - 1);
      assert n * t == (n - 1) * t + t;
      assert 0 <= (n - 1) * t;
      MultipleRemainder(n - 1, t);
    }
  }

  lemma MultipleRemainder(a: nat, t: int)
    requires t > 0
    ensures (a * t) % t == 0
  {
    Quotient(a, t);
    assert a * t == ((a * t) / t) * t + (a * t) % t;
  }

  lemma {:induction false} LatticeHas(s: int, t: int, n: nat, i: nat)
    requires t > 0 && i < n
    ensures s + i * t in Lattice(s, t, n)
  {
    if i < n - 1 {
      LatticeHas(s, t, n - 1, i);
    }
  }

  predicate OnLattice(s: int, t: int, k: int)
    requires t > 0
  {
    (k - s) % t == 0
  }

  lemma Division(x: int, t: int)
    requires t > 0
    ensures x == (x / t) * t + x % t && 0 <= x % t < t
  {
  }

  lemma WholeSteps(i: int, q: int, t: int, r: int)
    requires t > 0 && 0 <= r < t
    ensures i * t <= q * t + r <==> i <= q
  {
    if i <= q {
      assert (q - i) * t >= 0;
    } else {
      assert (i - q - 1) * t >= 0;
    }
  }

  /** A multiple of t counted from s is not above e just when its number is not above (e - s) / t. */
  lemma LatticeIndex(s: int, t: int, e: int, k: int)
    requires t > 0 && OnLattice(s, t, k)
    ensures k == s + ((k - s) / t) * t
    ensures k <= e <==> (k - s) / t <= (e - s) / t
  {
    Division(k - s, t);
    Division(e - s, t);
    WholeSteps((k - s) / t, (e - s) / t, t, (e - s) % t);
  }

  lemma LatticeIsInRange(s: int, t: int, e: int, k: int)
    requires t > 0 && s <= e && k in Lattice(s, t, (e - s) / t + 1)
    ensures s <= k <= e && OnLattice(s, t, k)
  {
    var n := (e - s) / t + 1;
    LatticeMember(s, t, n);
    LatticeIndex(s, t, e, k);
    LatticeIndex(s, t, s + n * t - 1, k);
    Division(n * t - 1, t);
    WholeSteps(n, (n * t - 1) / t, t, (n * t - 1) % t);
  }

  lemma InRangeIsLattice(s: int, t: int, e: int, k: int)
    requires t > 0 && s <= k <= e && OnLattice(s, t, k)
    ensures k in Lattice(s, t, (e - s) / t + 1)
  {
    LatticeIndex(s, t, e, k);
    LatticeHas(s, t, (e - s) / t + 1, (k - s) / t);
  }

  /** The size a strided range contributes to a transfer, which is also the length of the dimension
      written for it, is the number of its lattice points. */
  lemma LatticePoints(s: int, t: int, e: int)
    requires t > 0 && s <= e
    ensures |set k | s <= k <= e && OnLattice(s, t, k)| == (e - s) / t + 1
    ensures StepAlong(e - s + 1, t) == (e - s) / t + 1
  {
    var n := (e - s) / t + 1;
    LatticeMember(s, t, n);
    var points := set k | s <= k <= e && OnLattice(s, t, k);
    forall k ensures k in points <==> k in Lattice(s, t, n) {
      if k in points {
        InRangeIsLattice(s, t, e, k);
      }
      if k in Lattice(s, t, n) {
        LatticeIsInRange(s, t, e, k);
      }
    }
    assert points == Lattice(s, t, n);
  }

  /** How many of n steps from s on a stride takes; one that is not above 1 takes them all. */
  ghost function PointsAlong(s: int, n: nat, stride: int): nat {
    |set k | s <= k < s + n && (stride > 1 ==> OnLattice(s, stride, k))|
  }

  lemma StepsAreLatticePoints(s: int, n: nat, stride: int)
    requires n > 0
    ensures PointsAlong(s, n, stride) == StepAlong(n, Normal(stride))
  {
    LatticePoints(s, Normal(stride), s + n - 1);
    assert (set k | s <= k < s + n && (stride > 1 ==> OnLattice(s, stride, k)))
        == set k | s <= k <= s + n - 1 && OnLattice(s, Normal(stride), k);
  }

  ghost function Points(start: seq<int>, count: seq<nat>, stride: seq<int>): (r: seq<nat>)
    requires |start| == |count| == |stride|
    ensures |r| == |count|
  {
    seq(|count|, j requires 0 <= j < |count| => PointsAlong(start[j], count[j], stride[j]))
  }

  /** The size of a strided request is the number of lattice points it selects: the product, over the
      dimensions, of the steps each stride takes. */
  lemma {:induction false} SizeIsLatticePoints(start: seq<int>, count: seq<nat>, stride: seq<int>)
    requires |start| == |count| == |stride| && forall i :: 0 <= i < |count| ==> count[i] > 0
    ensures StridedSize(count, stride) == Product(Points(start, count, stride))
  {
    if |count| > 0 {
      var last := |count| - 1;
      SizeIsLatticePoints(start[..last], count[..last], stride[..last]);
      StepsAreLatticePoints(start[last], count[last], stride[last]);
      var outer, inner := Points(start[..last], count[..last], stride[..last]), Points(start, count, stride)[last];
      ProductSnoc(outer, inner);
      assert Points(start, count, stride) == outer + [inner];
    }
  }
}
