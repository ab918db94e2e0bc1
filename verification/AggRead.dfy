/** The buffer an aggregate read assembles file by file, and when it is the hyperslab of the
    virtual array made of all the files. */
module AggRead {
  import opened Hyperslab
  import opened Blocks

  function Min(a: nat, b: nat): nat { if a <= b then a else b }

  /** Steps of a window of n starting at lo that exist in the parts. */
  function Available(parts: seq<Block>, dim: nat, lo: nat, n: nat): nat {
    if lo >= Total(parts, dim) then 0 else Min(n, Total(parts, dim) - lo)
  }

  /** The per-file buffers of a window along dim, one after the other. */
  function PartsBuffer(parts: seq<Block>, dim: nat, start: seq<nat>, count: seq<nat>): seq<int>
    requires |start| == |count| && dim < |count|
    decreases |parts|
  {
    if |parts| == 0 || count[dim] == 0 then []
    else
      var steps := parts[0].Steps(dim);
      if start[dim] >= steps then
        PartsBuffer(parts[1..], dim, start[dim := start[dim] - steps], count)
      else
        var m := Min(count[dim], steps - start[dim]);
        GetVara(One(parts[0]), start, count[dim := m])
        + PartsBuffer(parts[1..], dim, start[dim := 0], count[dim := count[dim] - m])
  }

  lemma ProductZero(shape: seq<nat>, dim: nat)
    requires dim < |shape|
    ensures Product(shape[dim := 0]) == 0
  {
    ProductUpdate(shape, dim, 0, 0);
  }

  /** The buffer holds exactly the cells of the part of the window that exists. */
  lemma {:induction false} BufferLength(parts: seq<Block>, dim: nat, start: seq<nat>, count: seq<nat>)
    requires |start| == |count| && dim < |count|
    ensures |PartsBuffer(parts, dim, start, count)|
         == Product(count[dim := Available(parts, dim, start[dim], count[dim])])
    decreases |parts|
  {
    if |parts| == 0 || count[dim] == 0 {
      ProductZero(count, dim);
    } else {
      var steps := parts[0].Steps(dim);
      if start[dim] >= steps {
        BufferLength(parts[1..], dim, start[dim := start[dim] - steps], count);
        AvailableSkip(parts, dim, start[dim], count[dim]);
      } else {
        var m := Min(count[dim], steps - start[dim]);
        var rest := count[dim := count[dim] - m];
        var more := Available(parts[1..], dim, 0, count[dim] - m);
        BufferLength(parts[1..], dim, start[dim := 0], rest);
        BufferOfFirst(parts, dim, start, count, m);
        FirstPieceLength(start, count, dim, m, more);
        AvailableFirst(parts, dim, start[dim], count[dim], m);
      }
    }
  }

  lemma BufferOfFirst(parts: seq<Block>, dim: nat, start: seq<nat>, count: seq<nat>, m: nat)
    requires |start| == |count| && dim < |count| && |parts| > 0 && count[dim] > 0
    requires start[dim] < parts[0].Steps(dim) && m == Min(count[dim], parts[0].Steps(dim) - start[dim])
    ensures |PartsBuffer(parts, dim, start, count)|
         == |Slab(start, count[dim := m])|
          + |PartsBuffer(parts[1..], dim, start[dim := 0], count[dim := count[dim] - m])|
  {
  }

  lemma AvailableSkip(parts: seq<Block>, dim: nat, lo: nat, n: nat)
    requires |parts| > 0 && lo >= parts[0].Steps(dim)
    ensures Available(parts, dim, lo, n) == Available(parts[1..], dim, lo - parts[0].Steps(dim), n)
  {
  }

  lemma AvailableFirst(parts: seq<Block>, dim: nat, lo: nat, n: nat, m: nat)
    requires |parts| > 0 && lo < parts[0].Steps(dim) && m == Min(n, parts[0].Steps(dim) - lo)
    ensures Available(parts, dim, lo, n) == m + Available(parts[1..], dim, 0, n - m)
  {
  }

  lemma FirstPieceLength(start: seq<nat>, count: seq<nat>, dim: nat, m: nat, more: nat)
    requires |start| == |count| && dim < |count| && m <= count[dim]
    ensures |Slab(start, count[dim := m])| + Product(count[dim := count[dim] - m][dim := more])
         == Product(count[dim := m + more])
  {
    SlabLength(start, count[dim := m]);
    assert count[dim := count[dim] - m][dim := more] == count[dim := more];
    ProductUpdate(count, dim, m, more);
  }

  // ----- seeing the parts as one array -----

  lemma JoinedHead(parts: seq<Block>, dim: nat, start: seq<nat>, count: seq<nat>)
    requires |start| == |count| && dim < |count| && |parts| > 0
    requires start[dim] + count[dim] <= parts[0].Steps(dim)
    ensures GetVara(Joined(parts, dim), start, count) == GetVara(One(parts[0]), start, count)
  {
    forall k | 0 <= k < |Slab(start, count)|
      ensures FieldAt(Joined(parts, dim), Slab(start, count)[k]) == At(parts[0], Slab(start, count)[k])
    {
      var idx := SlabCell(start, count, k);
    }
  }

  lemma JoinedTail(parts: seq<Block>, dim: nat, start: seq<nat>, count: seq<nat>)
    requires |start| == |count| && dim < |count| && |parts| > 0
    requires start[dim] >= parts[0].Steps(dim)
    ensures GetVara(Joined(parts, dim), start, count)
         == GetVara(Joined(parts[1..], dim), start[dim := start[dim] - parts[0].Steps(dim)], count)
  {
    var start' := start[dim := start[dim] - parts[0].Steps(dim)];
    SlabLength(start, count);
    SlabLength(start', count);
    forall k | 0 <= k < |Slab(start, count)|
      ensures FieldAt(Joined(parts, dim), Slab(start, count)[k])
           == FieldAt(Joined(parts[1..], dim), Slab(start', count)[k])
    {
      UnrankIsRank(count, k);
      var idx := Unrank(count, k);
      SlabAt(start, count, idx);
      SlabAt(start', count, idx);
      assert Shift(start', idx) == Shift(start, idx)[dim := Shift(start, idx)[dim] - parts[0].Steps(dim)];
    }
  }

  lemma EmptySlab(start: seq<nat>, count: seq<nat>, dim: nat)
    requires |start| == |count| && dim < |count|
    ensures Slab(start, count[dim := 0]) == []
  {
    SlabLength(start, count[dim := 0]);
    ProductZero(count, dim);
  }

  /** A window that starts in the first file is its piece there followed by the rest, read from
      the files after it. */
  lemma CutAtFileEnd(parts: seq<Block>, dim: nat, start: seq<nat>, count: seq<nat>, m: nat)
    requires |start| == |count| && OuterCountsAreOne(count, dim) && |parts| > 0
    requires m <= count[dim] && start[dim] + m <= parts[0].Steps(dim)
    requires m < count[dim] ==> start[dim] + m == parts[0].Steps(dim)
    ensures GetVara(Joined(parts, dim), start, count)
         == GetVara(One(parts[0]), start, count[dim := m])
          + GetVara(Joined(parts[1..], dim), start[dim := 0], count[dim := count[dim] - m])
  {
    var more := count[dim] - m;
    var tail := start[dim := start[dim] + m];
    SlabSplit(start, count, dim, m, more);
    GatherConcat(Joined(parts, dim), Slab(start, count[dim := m]), Slab(tail, count[dim := more]));
    JoinedHead(parts, dim, start, count[dim := m]);
    if more == 0 {
      EmptySlab(tail, count, dim);
      EmptySlab(start[dim := 0], count, dim);
    } else {
      JoinedTail(parts, dim, tail, count[dim := more]);
      assert tail[dim := tail[dim] - parts[0].Steps(dim)] == start[dim := 0];
    }
  }

  /** The part of a window that exists, read from the virtual array. */
  function ReadExisting(parts: seq<Block>, dim: nat, start: seq<nat>, count: seq<nat>): seq<int>
    requires |start| == |count| && dim < |count|
  {
    GetVara(Joined(parts, dim), start, count[dim := Available(parts, dim, start[dim], count[dim])])
  }

  /** With no step but one outside the time dimension, the assembled buffer is the hyperslab of
      the virtual array, cut at its end. */
  lemma {:induction false} ReadIsHyperslab(parts: seq<Block>, dim: nat, start: seq<nat>, count: seq<nat>)
    requires |start| == |count| && OuterCountsAreOne(count, dim)
    ensures PartsBuffer(parts, dim, start, count) == ReadExisting(parts, dim, start, count)
    decreases |parts|
  {
    if |parts| == 0 || count[dim] == 0 {
      EmptySlab(start, count, dim);
    } else {
      var steps := parts[0].Steps(dim);
      if start[dim] >= steps {
        ReadIsHyperslab(parts[1..], dim, start[dim := start[dim] - steps], count);
        JoinedTail(parts, dim, start, count[dim := Available(parts, dim, start[dim], count[dim])]);
      } else {
        var rest := count[dim := count[dim] - Min(count[dim], steps - start[dim])];
        ReadIsHyperslab(parts[1..], dim, start[dim := 0], rest);
        ReadFromFirst(parts, dim, start, count);
      }
    }
  }

  lemma ReadFromFirst(parts: seq<Block>, dim: nat, start: seq<nat>, count: seq<nat>)
    requires |start| == |count| && OuterCountsAreOne(count, dim) && |parts| > 0
    requires start[dim] < parts[0].Steps(dim) && count[dim] > 0
    ensures var m := Min(count[dim], parts[0].Steps(dim) - start[dim]);
            ReadExisting(parts, dim, start, count)
            == GetVara(One(parts[0]), start, count[dim := m])
             + ReadExisting(parts[1..], dim, start[dim := 0], count[dim := count[dim] - m])
  {
    var m := Min(count[dim], parts[0].Steps(dim) - start[dim]);
    var rest := count[dim := count[dim] - m];
    var avail := Available(parts, dim, start[dim], count[dim]);
    var more := Available(parts[1..], dim, 0, rest[dim]);
    assert avail == m + more;
    CutAtFileEnd(parts, dim, start, count[dim := avail], m);
    assert count[dim := avail][dim := m] == count[dim := m];
    assert count[dim := avail][dim := more] == rest[dim := more];
  }

  // ----- time outermost: the virtual array is the concatenation of the data -----

  function ConcatData(parts: seq<Block>): seq<int> {
    if |parts| == 0 then [] else parts[0].data + ConcatData(parts[1..])
  }

  ghost predicate SameRows(parts: seq<Block>, rest: seq<nat>) {
    forall k :: 0 <= k < |parts| ==>
      parts[k].Valid() && |parts[k].shape| > 0 && parts[k].shape[1..] == rest
  }

  lemma {:induction false} ConcatLength(parts: seq<Block>, rest: seq<nat>)
    requires SameRows(parts, rest)
    ensures |ConcatData(parts)| == Total(parts, 0) * Product(rest)
  {
    if |parts| > 0 {
      ConcatLength(parts[1..], rest);
      assert parts[0].shape[1..] == rest;
      assert (parts[0].shape[0] + Total(parts[1..], 0)) * Product(rest)
          == parts[0].shape[0] * Product(rest) + Total(parts[1..], 0) * Product(rest);
    }
  }

  lemma OffsetCons(n: nat, rest: seq<nat>, idx: Index)
    requires InBounds(idx, [n] + rest)
    ensures Offset([n] + rest, idx) == idx[0] * Product(rest) + Offset(rest, idx[1..])
    ensures Offset(rest, idx[1..]) < Product(rest)
    ensures Product([n] + rest) == n * Product(rest)
  {
    assert ([n] + rest)[1..] == rest;
    OffsetInRange(rest, idx[1..]);
  }

  lemma AtCons(n: nat, rest: seq<nat>, data: seq<int>, idx: Index)
    requires InBounds(idx, [n] + rest) && |data| == n * Product(rest)
    ensures 0 <= idx[0] * Product(rest) + Offset(rest, idx[1..]) < |data|
    ensures At(Block([n] + rest, data), idx) == data[idx[0] * Product(rest) + Offset(rest, idx[1..])]
  {
    OffsetCons(n, rest, idx);
    OffsetInRange([n] + rest, idx);
  }

  lemma RowsBelow(i: nat, steps: nat, row: nat, o: nat)
    requires steps <= i
    ensures i * row + o - steps * row == (i - steps) * row + o
    ensures i * row + o >= steps * row
  {
    assert (i - steps) * row == i * row - steps * row;
    MulMono(steps, i, row);
  }

  lemma {:induction false} JoinedRow(parts: seq<Block>, rest: seq<nat>, t: nat, inner: Index, cell: nat)
    requires SameRows(parts, rest)
    requires t < Total(parts, 0) && InBounds(inner, rest)
    requires cell == t * Product(rest) + Offset(rest, inner)
    ensures cell < |ConcatData(parts)| && JoinedAt(parts, 0, [t] + inner) == ConcatData(parts)[cell]
    decreases |parts|
  {
    var steps := parts[0].Steps(0);
    assert parts[0].shape == [steps] + rest && parts[0].Valid();
    if t < steps {
      RowOfFirst(parts[0], steps, rest, t, inner, cell);
    } else {
      RowsBelow(t, steps, Product(rest), Offset(rest, inner));
      assert |parts[0].data| == steps * Product(rest) by { assert ([steps] + rest)[1..] == rest; }
      assert ([t] + inner)[0 := t - steps] == [t - steps] + inner;
      JoinedRow(parts[1..], rest, t - steps, inner, cell - |parts[0].data|);
    }
  }

  lemma RowOfFirst(part: Block, steps: nat, rest: seq<nat>, t: nat, inner: Index, cell: nat)
    requires part.Valid() && part.shape == [steps] + rest && t < steps && InBounds(inner, rest)
    requires cell == t * Product(rest) + Offset(rest, inner)
    ensures cell < |part.data| && At(part, [t] + inner) == part.data[cell]
  {
    assert ([t] + inner)[1..] == inner && ([steps] + rest)[1..] == rest;
    AtCons(steps, rest, part.data, [t] + inner);
  }

  /** With time outermost, the virtual array is the block whose data is the data of the files
      one after the other. */
  lemma JoinedIsConcatenation(parts: seq<Block>, rest: seq<nat>, idx: Index)
    requires SameRows(parts, rest)
    requires InBounds(idx, [Total(parts, 0)] + rest)
    ensures JoinedAt(parts, 0, idx) == At(Block([Total(parts, 0)] + rest, ConcatData(parts)), idx)
  {
    ConcatLength(parts, rest);
    AtCons(Total(parts, 0), rest, ConcatData(parts), idx);
    assert idx[0] < ([Total(parts, 0)] + rest)[0];
    assert idx == [idx[0]] + idx[1..];
    JoinedRow(parts, rest, idx[0], idx[1..], idx[0] * Product(rest) + Offset(rest, idx[1..]));
  }

  // ----- time not outermost -----

  /** Number of parts that contribute cells to a window. */
  function Touched(lens: seq<nat>, lo: nat, n: nat): nat
    decreases |lens|
  {
    if |lens| == 0 || n == 0 then 0
    else if lo >= lens[0] then Touched(lens[1..], lo - lens[0], n)
    else 1 + Touched(lens[1..], 0, n - Min(n, lens[0] - lo))
  }

  ghost predicate PartsShaped(parts: seq<Block>, lens: seq<nat>, shape: seq<nat>, dim: nat)
    requires dim < |shape|
  {
    |parts| == |lens|
    && forall k :: 0 <= k < |parts| ==> parts[k].Valid() && parts[k].shape == shape[dim := lens[k]]
  }

  ghost predicate IsRowMajor(parts: seq<Block>, dim: nat, start: seq<nat>, count: seq<nat>)
    requires |start| == |count| && dim < |count|
  {
    PartsBuffer(parts, dim, start, count) == ReadExisting(parts, dim, start, count)
  }

  lemma {:induction false} OneTouchedPart(parts: seq<Block>, lens: seq<nat>, shape: seq<nat>, dim: nat,
                                          start: seq<nat>, count: seq<nat>)
    requires dim < |shape| && PartsShaped(parts, lens, shape, dim)
    requires |start| == |count| && dim < |count|
    requires Touched(lens, start[dim], count[dim]) <= 1
    ensures IsRowMajor(parts, dim, start, count)
    decreases |parts|
  {
    if |parts| == 0 || count[dim] == 0 {
      EmptySlab(start, count, dim);
    } else {
      var steps := parts[0].Steps(dim);
      if start[dim] >= steps {
        OneTouchedPart(parts[1..], lens[1..], shape, dim, start[dim := start[dim] - steps], count);
        JoinedTail(parts, dim, start, count[dim := Available(parts, dim, start[dim], count[dim])]);
      } else {
        var m := Min(count[dim], steps - start[dim]);
        NothingTouched(parts[1..], lens[1..], shape, dim, start[dim := 0], count[dim := count[dim] - m]);
        assert Available(parts, dim, start[dim], count[dim]) == m;
        JoinedHead(parts, dim, start, count[dim := m]);
        var piece := GetVara(One(parts[0]), start, count[dim := m]);
        assert piece + [] == piece;
      }
    }
  }

  lemma {:induction false} NothingTouched(parts: seq<Block>, lens: seq<nat>, shape: seq<nat>, dim: nat,
                                          start: seq<nat>, count: seq<nat>)
    requires dim < |shape| && PartsShaped(parts, lens, shape, dim)
    requires |start| == |count| && dim < |count|
    requires Touched(lens, start[dim], count[dim]) == 0
    ensures PartsBuffer(parts, dim, start, count) == []
    ensures Available(parts, dim, start[dim], count[dim]) == 0
    decreases |parts|
  {
    if |parts| > 0 && count[dim] > 0 {
      NothingTouched(parts[1..], lens[1..], shape, dim, start[dim := start[dim] - lens[0]], count);
    }
  }

  lemma {:induction false} ProductPositive(shape: seq<nat>)
    requires forall i :: 0 <= i < |shape| ==> shape[i] > 0
    ensures Product(shape) > 0
  {
    if |shape| > 0 {
      ProductPositive(shape[1..]);
      assert shape[0] * Product(shape[1..]) >= Product(shape[1..]);
    }
  }

  /** The first cell of step m of dimension dim. */
  function CornerAt(rank: nat, dim: nat, m: nat): (idx: Index)
    requires dim < rank
  {
    seq(rank, i => if i == dim then m else 0)
  }

  /** With more than one step outside dim, step m of dim comes before m whole steps of all of the
      block have been passed. */
  lemma {:induction false} CornerIsEarly(count: seq<nat>, dim: nat, m: nat)
    requires dim < |count| && 0 < m < count[dim]
    requires forall i :: 0 <= i < |count| ==> count[i] > 0
    requires !OuterCountsAreOne(count, dim)
    ensures InBounds(CornerAt(|count|, dim, m), count)
    ensures Offset(count, CornerAt(|count|, dim, m)) < Product(count[dim := m])
  {
    var idx := CornerAt(|count|, dim, m);
    var rest := count[1..];
    assert idx[1..] == CornerAt(|rest|, dim - 1, m);
    assert count[dim := m][1..] == rest[dim - 1 := m];
    if OuterCountsAreOne(rest, dim - 1) {
      assert count[0] >= 2 by { assert forall i :: 0 < i < dim ==> count[i] == rest[i - 1]; }
      CornerOffset(rest, dim - 1, m);
      ProductPositive(rest[dim - 1 := m]);
      assert count[0] * Product(rest[dim - 1 := m]) >= 2 * Product(rest[dim - 1 := m]) by {
        MulMono(2, count[0], Product(rest[dim - 1 := m]));
      }
    } else {
      CornerIsEarly(rest, dim - 1, m);
      MulMono(1, count[0], Product(rest[dim - 1 := m]));
    }
  }

  lemma {:induction false} CornerOffset(count: seq<nat>, dim: nat, m: nat)
    requires OuterCountsAreOne(count, dim) && m < count[dim]
    ensures Offset(count, CornerAt(|count|, dim, m)) == Product(count[dim := m])
  {
    var idx := CornerAt(|count|, dim, m);
    var rest := count[1..];
    if dim == 0 {
      ZeroOffset(rest, idx[1..]);
    } else {
      assert idx[1..] == CornerAt(|rest|, dim - 1, m);
      assert count[dim := m][1..] == rest[dim - 1 := m];
      CornerOffset(rest, dim - 1, m);
    }
  }

  lemma {:induction false} ZeroOffset(shape: seq<nat>, idx: Index)
    requires |idx| == |shape| && forall i :: 0 <= i < |idx| ==> idx[i] == 0
    ensures Offset(shape, idx) == 0
  {
    if |shape| > 0 {
      ZeroOffset(shape[1..], idx[1..]);
    }
  }

  /** Parts that can be told apart: the k-th holds base + k in every cell. */
  function Marked(lens: seq<nat>, shape: seq<nat>, dim: nat, base: nat): (parts: seq<Block>)
    requires dim < |shape|
    ensures |parts| == |lens|
    ensures PartsShaped(parts, lens, shape, dim)
    decreases |lens|
  {
    if |lens| == 0 then []
    else
      var edge := shape[dim := lens[0]];
      [Block(edge, seq(Product(edge), _ => base))] + Marked(lens[1..], shape, dim, base + 1)
  }

  lemma {:induction false} MarkedAt(lens: seq<nat>, shape: seq<nat>, dim: nat, base: nat, idx: Index)
    requires dim < |shape| && |idx| == |shape|
    requires forall i :: 0 <= i < |shape| && i != dim ==> idx[i] < shape[i]
    requires idx[dim] < Total(Marked(lens, shape, dim, base), dim)
    ensures JoinedAt(Marked(lens, shape, dim, base), dim, idx) >= base
    decreases |lens|
  {
    var parts := Marked(lens, shape, dim, base);
    if idx[dim] < parts[0].Steps(dim) {
      assert InBounds(idx, parts[0].shape);
      OffsetInRange(parts[0].shape, idx);
    } else {
      MarkedAt(lens[1..], shape, dim, base + 1, idx[dim := idx[dim] - lens[0]]);
    }
  }

  ghost predicate WindowInside(start: seq<nat>, count: seq<nat>, shape: seq<nat>, dim: nat) {
    |start| == |count| == |shape| && dim < |shape|
    && (forall i :: 0 <= i < |count| ==> count[i] > 0)
    && (forall i :: 0 <= i < |shape| && i != dim ==> start[i] + count[i] <= shape[i])
  }

  lemma {:induction false} TouchedMeansMore(parts: seq<Block>, lens: seq<nat>, shape: seq<nat>, dim: nat,
                                            lo: nat, n: nat)
    requires dim < |shape| && PartsShaped(parts, lens, shape, dim)
    requires Touched(lens, lo, n) > 0
    ensures Available(parts, dim, lo, n) > 0
    decreases |lens|
  {
    if lo >= lens[0] {
      TouchedMeansMore(parts[1..], lens[1..], shape, dim, lo - lens[0], n);
    }
  }

  lemma {:induction false} MarkedIsWrong(lens: seq<nat>, shape: seq<nat>, dim: nat, base: nat,
                                         start: seq<nat>, count: seq<nat>)
    requires WindowInside(start, count, shape, dim) && !OuterCountsAreOne(count, dim)
    requires Touched(lens, start[dim], count[dim]) >= 2
    ensures !IsRowMajor(Marked(lens, shape, dim, base), dim, start, count)
    decreases |lens|
  {
    var parts := Marked(lens, shape, dim, base);
    var avail := Available(parts, dim, start[dim], count[dim]);
    if start[dim] >= lens[0] {
      MarkedIsWrong(lens[1..], shape, dim, base + 1, start[dim := start[dim] - lens[0]], count);
      JoinedTail(parts, dim, start, count[dim := avail]);
    } else {
      var m := Min(count[dim], lens[0] - start[dim]);
      TouchedMeansMore(parts[1..], lens[1..], shape, dim, 0, count[dim] - m);
      FirstForeignCell(lens, shape, dim, base, start, count, avail, m);
    }
  }

  lemma FirstForeignCell(lens: seq<nat>, shape: seq<nat>, dim: nat, base: nat,
                         start: seq<nat>, count: seq<nat>, avail: nat, m: nat)
    requires WindowInside(start, count, shape, dim) && !OuterCountsAreOne(count, dim)
    requires |lens| > 0 && start[dim] < lens[0] && m == lens[0] - start[dim] < avail <= count[dim]
    requires avail == Available(Marked(lens, shape, dim, base), dim, start[dim], count[dim])
    ensures !IsRowMajor(Marked(lens, shape, dim, base), dim, start, count)
  {
    var parts := Marked(lens, shape, dim, base);
    var whole := count[dim := avail];
    var idx := CornerAt(|count|, dim, m);
    assert forall i :: 0 <= i < dim ==> whole[i] == count[i];
    CornerIsEarly(whole, dim, m);
    assert whole[dim := m] == count[dim := m];
    var k := Offset(whole, idx);
    SlabAt(start, whole, idx);
    var cell := Shift(start, idx);
    MarkedAt(lens[1..], shape, dim, base + 1, cell[dim := cell[dim] - lens[0]]);
    assert GetVara(Joined(parts, dim), start, whole)[k] >= base + 1;
    SlabLength(start, count[dim := m]);
    CellOfFirst(lens, shape, dim, base, start, count, m, k);
  }

  lemma CellOfFirst(lens: seq<nat>, shape: seq<nat>, dim: nat, base: nat,
                    start: seq<nat>, count: seq<nat>, m: nat, k: nat)
    requires WindowInside(start, count, shape, dim)
    requires |lens| > 0 && start[dim] < lens[0] && m == lens[0] - start[dim] <= count[dim]
    requires k < |Slab(start, count[dim := m])|
    ensures var buffer := PartsBuffer(Marked(lens, shape, dim, base), dim, start, count);
            k < |buffer| && buffer[k] == base
  {
    var first := Marked(lens, shape, dim, base)[0];
    var own := SlabCell(start, count[dim := m], k);
    assert InBounds(Shift(start, own), first.shape);
    OffsetInRange(first.shape, Shift(start, own));
    assert GetVara(One(first), start, count[dim := m])[k] == base;
  }

  /** Exactly when assembling file by file is right, whatever the files hold: no outer dimension
      has more than one step, or one file serves the whole window. */
  lemma RowMajorExactly(lens: seq<nat>, shape: seq<nat>, dim: nat, start: seq<nat>, count: seq<nat>)
    requires WindowInside(start, count, shape, dim)
    ensures (forall parts: seq<Block> :: PartsShaped(parts, lens, shape, dim) ==>
               IsRowMajor(parts, dim, start, count))
       <==> OuterCountsAreOne(count, dim) || Touched(lens, start[dim], count[dim]) <= 1
  {
    if OuterCountsAreOne(count, dim) || Touched(lens, start[dim], count[dim]) <= 1 {
      forall parts: seq<Block> | PartsShaped(parts, lens, shape, dim)
        ensures IsRowMajor(parts, dim, start, count)
      {
        if OuterCountsAreOne(count, dim) {
          ReadIsHyperslab(parts, dim, start, count);
        } else {
          OneTouchedPart(parts, lens, shape, dim, start, count);
        }
      }
    } else {
      MarkedIsWrong(lens, shape, dim, 0, start, count);
    }
  }

  // ----- parts that are taken for others -----

  function StepsBefore(lens: seq<nat>, i: nat): nat
    requires i <= |lens|
  {
    if i == 0 then 0 else lens[0] + StepsBefore(lens[1..], i - 1)
  }

  /** Part i has steps of the window of n steps from lo on. */
  predicate TouchedAt(lens: seq<nat>, lo: nat, n: nat, i: nat) {
    i < |lens| && StepsBefore(lens, i) < lo + n && lo < StepsBefore(lens, i) + lens[i] && lens[i] > 0 && n > 0
  }

  /** Of the parts behind the first, those are touched that have steps of what is left of the window. */
  lemma TouchedBehind(lens: seq<nat>, lo: nat, n: nat, i: nat)
    requires |lens| > 0 && n > 0 && i > 0
    ensures TouchedAt(lens, lo, n, i)
       <==> if lo >= lens[0] then TouchedAt(lens[1..], lo - lens[0], n, i - 1)
            else TouchedAt(lens[1..], 0, n - Min(n, lens[0] - lo), i - 1)
  {
  }

  ghost predicate AgreeWhereTouched(a: seq<Block>, b: seq<Block>, lens: seq<nat>, lo: nat, n: nat) {
    |a| == |b| == |lens| && forall i: nat :: TouchedAt(lens, lo, n, i) ==> a[i] == b[i]
  }

  lemma AgreeBehind(a: seq<Block>, b: seq<Block>, lens: seq<nat>, lo: nat, n: nat)
    requires |lens| > 0 && n > 0 && AgreeWhereTouched(a, b, lens, lo, n)
    ensures lo >= lens[0] ==> AgreeWhereTouched(a[1..], b[1..], lens[1..], lo - lens[0], n)
    ensures lo < lens[0] ==>
              a[0] == b[0] && AgreeWhereTouched(a[1..], b[1..], lens[1..], 0, n - Min(n, lens[0] - lo))
  {
    var lo', n' := if lo >= lens[0] then lo - lens[0] else 0, if lo >= lens[0] then n else n - Min(n, lens[0] - lo);
    forall i: nat | TouchedAt(lens[1..], lo', n', i) ensures a[1..][i] == b[1..][i] {
      TouchedBehind(lens, lo, n, i + 1);
      assert a[i + 1] == b[i + 1];
    }
    assert lo < lens[0] ==> TouchedAt(lens, lo, n, 0);
  }

  ghost predicate HaveSteps(parts: seq<Block>, lens: seq<nat>, dim: nat) {
    |parts| == |lens| && forall i :: 0 <= i < |parts| ==> parts[i].Steps(dim) == lens[i]
  }

  /** Only the touched parts matter. */
  lemma {:induction false} OnlyTouchedMatter(a: seq<Block>, b: seq<Block>, lens: seq<nat>, dim: nat,
                                             start: seq<nat>, count: seq<nat>)
    requires |start| == |count| && dim < |count| && HaveSteps(a, lens, dim) && HaveSteps(b, lens, dim)
    requires AgreeWhereTouched(a, b, lens, start[dim], count[dim])
    ensures PartsBuffer(a, dim, start, count) == PartsBuffer(b, dim, start, count)
    decreases |lens|
  {
    if |lens| > 0 && count[dim] > 0 {
      AgreeBehind(a, b, lens, start[dim], count[dim]);
      if start[dim] >= lens[0] {
        OnlyTouchedMatter(a[1..], b[1..], lens[1..], dim, start[dim := start[dim] - lens[0]], count);
      } else {
        var m := Min(count[dim], lens[0] - start[dim]);
        OnlyTouchedMatter(a[1..], b[1..], lens[1..], dim, start[dim := 0], count[dim := count[dim] - m]);
        SameFirst(a, b, dim, start, count, m);
      }
    }
  }

  lemma SameFirst(a: seq<Block>, b: seq<Block>, dim: nat, start: seq<nat>, count: seq<nat>, m: nat)
    requires |start| == |count| && dim < |count| && |a| == |b| > 0 && a[0] == b[0] && count[dim] > 0
    requires start[dim] < a[0].Steps(dim) && m == Min(count[dim], a[0].Steps(dim) - start[dim])
    requires PartsBuffer(a[1..], dim, start[dim := 0], count[dim := count[dim] - m])
          == PartsBuffer(b[1..], dim, start[dim := 0], count[dim := count[dim] - m])
    ensures PartsBuffer(a, dim, start, count) == PartsBuffer(b, dim, start, count)
  {
  }

  predicate Dark(part: Block) {
    forall k :: 0 <= k < |part.data| ==> part.data[k] == 0
  }

  lemma DarkPiece(part: Block, start: seq<nat>, count: seq<nat>)
    requires |start| == |count| && Dark(part)
    ensures 1 !in GetVara(One(part), start, count)
  {
    forall k | 0 <= k < |Slab(start, count)| ensures At(part, Slab(start, count)[k]) == 0 {
      var idx := Slab(start, count)[k];
      if InBounds(idx, part.shape) {
        OffsetInRange(part.shape, idx);
      }
    }
  }

  lemma {:induction false} DarkBuffer(parts: seq<Block>, dim: nat, start: seq<nat>, count: seq<nat>)
    requires |start| == |count| && dim < |count| && forall k :: 0 <= k < |parts| ==> Dark(parts[k])
    ensures 1 !in PartsBuffer(parts, dim, start, count)
    decreases |parts|
  {
    if |parts| > 0 && count[dim] > 0 {
      var steps := parts[0].Steps(dim);
      if start[dim] >= steps {
        DarkBuffer(parts[1..], dim, start[dim := start[dim] - steps], count);
      } else {
        var m := Min(count[dim], steps - start[dim]);
        DarkPiece(parts[0], start, count[dim := m]);
        DarkBuffer(parts[1..], dim, start[dim := 0], count[dim := count[dim] - m]);
      }
    }
  }

  predicate Bright(part: Block) {
    forall k :: 0 <= k < |part.data| ==> part.data[k] == 1
  }

  lemma BrightPiece(part: Block, start: seq<nat>, count: seq<nat>)
    requires part.Valid() && Fits(start, count, part.shape) && Product(count) > 0 && Bright(part)
    ensures 1 in GetVara(One(part), start, count)
  {
    SlabLength(start, count);
    var idx := SlabCell(start, count, 0);
    OffsetInRange(part.shape, Shift(start, idx));
    assert GetVara(One(part), start, count)[0] == 1;
  }

  /** A bright part that is touched shows in the buffer. */
  lemma {:induction false} BrightShows(parts: seq<Block>, lens: seq<nat>, shape: seq<nat>, dim: nat, i: nat,
                                       start: seq<nat>, count: seq<nat>)
    requires WindowInside(start, count, shape, dim) && TouchedAt(lens, start[dim], count[dim], i)
    requires PartsShaped(parts, lens, shape, dim) && Bright(parts[i])
    ensures 1 in PartsBuffer(parts, dim, start, count)
    decreases |lens|
  {
    if i > 0 {
      TouchedBehind(lens, start[dim], count[dim], i);
    }
    if start[dim] >= lens[0] {
      BrightShows(parts[1..], lens[1..], shape, dim, i - 1, start[dim := start[dim] - lens[0]], count);
    } else {
      var m := Min(count[dim], lens[0] - start[dim]);
      if i == 0 {
        BrightFirst(parts[0], shape, dim, start, count, m);
      } else {
        BrightShows(parts[1..], lens[1..], shape, dim, i - 1, start[dim := 0], count[dim := count[dim] - m]);
      }
      FirstAndRest(parts, dim, start, count, m, 1);
    }
  }

  lemma BrightFirst(part: Block, shape: seq<nat>, dim: nat, start: seq<nat>, count: seq<nat>, m: nat)
    requires WindowInside(start, count, shape, dim) && part.Valid() && Bright(part)
    requires |part.shape| == |shape| && part.shape == shape[dim := part.shape[dim]]
    requires m > 0 && start[dim] + m <= part.shape[dim]
    ensures 1 in GetVara(One(part), start, count[dim := m])
  {
    ProductPositive(count[dim := m]);
    BrightPiece(part, start, count[dim := m]);
  }

  lemma FirstAndRest(parts: seq<Block>, dim: nat, start: seq<nat>, count: seq<nat>, m: nat, x: int)
    requires |start| == |count| && dim < |count| && |parts| > 0 && count[dim] > 0
    requires start[dim] < parts[0].Steps(dim) && m == Min(count[dim], parts[0].Steps(dim) - start[dim])
    ensures x in PartsBuffer(parts, dim, start, count)
       <==> x in GetVara(One(parts[0]), start, count[dim := m])
            || x in PartsBuffer(parts[1..], dim, start[dim := 0], count[dim := count[dim] - m])
  {
  }

  /** Parts of zeros, but for part i, which is all ones. */
  function Lit(lens: seq<nat>, shape: seq<nat>, dim: nat, i: int): (parts: seq<Block>)
    requires dim < |shape|
    ensures |parts| == |lens|
  {
    seq(|lens|, k requires 0 <= k < |lens| =>
      var edge := shape[dim := lens[k]]; Block(edge, seq(Product(edge), _ => if k == i then 1 else 0)))
  }

  /** Parts that differ at a touched one only, and what is read from them. */
  lemma LitDiffers(lens: seq<nat>, shape: seq<nat>, dim: nat, start: seq<nat>, count: seq<nat>, i: nat)
    requires WindowInside(start, count, shape, dim) && TouchedAt(lens, start[dim], count[dim], i)
    ensures var a, b := Lit(lens, shape, dim, i), Lit(lens, shape, dim, -1);
            PartsShaped(a, lens, shape, dim) && PartsShaped(b, lens, shape, dim)
            && (forall k :: 0 <= k < |lens| && k != i ==> a[k] == b[k])
            && PartsBuffer(a, dim, start, count) != PartsBuffer(b, dim, start, count)
  {
    BrightShows(Lit(lens, shape, dim, i), lens, shape, dim, i, start, count);
    DarkBuffer(Lit(lens, shape, dim, -1), dim, start, count);
  }

  ghost predicate AgreeAt(a: seq<Block>, b: seq<Block>, same: seq<bool>) {
    |a| == |b| == |same| && forall i :: 0 <= i < |same| && same[i] ==> a[i] == b[i]
  }

  /** Reading some parts in place of others is right, whatever the parts hold, exactly when the parts
      that the window touches are the same. */
  lemma ReadInPlaceExactly(lens: seq<nat>, shape: seq<nat>, dim: nat, start: seq<nat>, count: seq<nat>,
                           same: seq<bool>)
    requires WindowInside(start, count, shape, dim) && |same| == |lens|
    ensures (forall a, b :: PartsShaped(a, lens, shape, dim) && PartsShaped(b, lens, shape, dim) && AgreeAt(a, b, same)
               ==> PartsBuffer(a, dim, start, count) == PartsBuffer(b, dim, start, count))
       <==> forall i: nat :: TouchedAt(lens, start[dim], count[dim], i) ==> same[i]
  {
    if i: nat :| TouchedAt(lens, start[dim], count[dim], i) && !same[i] {
      LitDiffers(lens, shape, dim, start, count, i);
      assert AgreeAt(Lit(lens, shape, dim, i), Lit(lens, shape, dim, -1), same);
    } else {
      forall a, b | PartsShaped(a, lens, shape, dim) && PartsShaped(b, lens, shape, dim) && AgreeAt(a, b, same)
        ensures PartsBuffer(a, dim, start, count) == PartsBuffer(b, dim, start, count)
      {
        OnlyTouchedMatter(a, b, lens, dim, start, count);
      }
    }
  }
}
