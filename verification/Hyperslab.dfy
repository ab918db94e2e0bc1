/** Row-major index arithmetic of netCDF hyperslabs: the order in which nc_get_vara and
    nc_put_vars visit the cells of an n-dimensional array. */
module Hyperslab {

  type Index = seq<nat>

  /** Number of cells of a block with the given edge lengths. */
  function Product(shape: seq<nat>): (n: nat) {
    if |shape| == 0 then 1 else shape[0] * Product(shape[1..])
  }

  predicate InBounds(idx: Index, shape: seq<nat>) {
    |idx| == |shape| && forall i :: 0 <= i < |shape| ==> idx[i] < shape[i]
  }

  function Shift(start: seq<nat>, idx: Index): (r: Index)
    requires |start| == |idx|
  {
    seq(|start|, i requires 0 <= i < |start| => start[i] + idx[i])
  }

  /** Position of a cell in the flat buffer of an array with this shape. */
  function Offset(shape: seq<nat>, idx: Index): nat
    requires |shape| == |idx|
  {
    if |shape| == 0 then 0 else idx[0] * Product(shape[1..]) + Offset(shape[1..], idx[1..])
  }

  function Prepend(i: nat, tails: seq<Index>): (r: seq<Index>)
    ensures |r| == |tails|
  {
    seq(|tails|, k requires 0 <= k < |tails| => [i] + tails[k])
  }

  function Rows(first: nat, n: nat, tails: seq<Index>): seq<Index>
    decreases n
  {
    if n == 0 then [] else Prepend(first, tails) + Rows(first + 1, n - 1, tails)
  }

  /** The cells of the hyperslab in the order of the transfer buffer. */
  function Slab(start: seq<nat>, count: seq<nat>): seq<Index>
    requires |start| == |count|
  {
    if |count| == 0 then [[]] else Rows(start[0], count[0], Slab(start[1..], count[1..]))
  }

  // ----- size -----

  lemma {:induction false} RowsLength(first: nat, n: nat, tails: seq<Index>)
    ensures |Rows(first, n, tails)| == n * |tails|
    decreases n
  {
    if n > 0 {
      RowsLength(first + 1, n - 1, tails);
      assert (n - 1) * |tails| + |tails| == n * |tails|;
    }
  }

  /** A hyperslab has as many cells as the product of its counts. */
  lemma {:induction false} SlabLength(start: seq<nat>, count: seq<nat>)
    requires |start| == |count|
    ensures |Slab(start, count)| == Product(count)
  {
    if |count| > 0 {
      SlabLength(start[1..], count[1..]);
      RowsLength(start[0], count[0], Slab(start[1..], count[1..]));
    }
  }

  // ----- rank of a cell -----

  lemma {:induction false} OffsetInRange(shape: seq<nat>, idx: Index)
    requires InBounds(idx, shape)
    ensures Offset(shape, idx) < Product(shape)
  {
    if |shape| > 0 {
      OffsetInRange(shape[1..], idx[1..]);
      var row := Product(shape[1..]);
      assert idx[0] * row + row == (idx[0] + 1) * row;
      MulMono(idx[0] + 1, shape[0], row);
    }
  }

  lemma MulMono(a: nat, b: nat, c: nat)
    requires a <= b
    ensures a * c <= b * c
  {
    assert b * c == a * c + (b - a) * c;
  }

  lemma {:induction false} RowsAt(first: nat, n: nat, tails: seq<Index>, i: nat, j: nat)
    requires i < n && j < |tails|
    ensures i * |tails| + j < |Rows(first, n, tails)|
    ensures Rows(first, n, tails)[i * |tails| + j] == [first + i] + tails[j]
    decreases n
  {
    RowsLength(first + 1, n - 1, tails);
    if i > 0 {
      RowsAt(first + 1, n - 1, tails, i - 1, j);
      assert (i - 1) * |tails| + j + |tails| == i * |tails| + j;
    }
  }

  /** The k-th cell of a hyperslab is the one whose position within the block has rank k. */
  lemma {:induction false} SlabAt(start: seq<nat>, count: seq<nat>, idx: Index)
    requires |start| == |count| && InBounds(idx, count)
    ensures Offset(count, idx) < |Slab(start, count)|
    ensures Slab(start, count)[Offset(count, idx)] == Shift(start, idx)
  {
    if |count| > 0 {
      var tails := Slab(start[1..], count[1..]);
      SlabAt(start[1..], count[1..], idx[1..]);
      SlabLength(start[1..], count[1..]);
      RowsAt(start[0], count[0], tails, idx[0], Offset(count[1..], idx[1..]));
      assert Shift(start, idx) == [start[0] + idx[0]] + Shift(start[1..], idx[1..]);
    }
  }

  lemma RowOfCell(k: nat, rows: nat, row: nat)
    requires k < rows * row
    ensures row > 0 && 0 <= k / row < rows && 0 <= k % row < row
    ensures k == (k / row) * row + k % row
  {
    assert row > 0;
    assert k == (k / row) * row + k % row;
    assert (k / row) * row < rows * row;
  }

  /** The cell of rank k of a block with this shape. */
  function Unrank(shape: seq<nat>, k: nat): (idx: Index)
    requires k < Product(shape)
    ensures |idx| == |shape|
  {
    if |shape| == 0 then []
    else
      var row := Product(shape[1..]);
      RowOfCell(k, shape[0], row);
      [k / row] + Unrank(shape[1..], k % row)
  }

  lemma {:induction false} UnrankIsRank(shape: seq<nat>, k: nat)
    requires k < Product(shape)
    ensures InBounds(Unrank(shape, k), shape) && Offset(shape, Unrank(shape, k)) == k
  {
    if |shape| > 0 {
      var row := Product(shape[1..]);
      RowOfCell(k, shape[0], row);
      UnrankIsRank(shape[1..], k % row);
      var idx := Unrank(shape, k);
      assert idx[1..] == Unrank(shape[1..], k % row);
    }
  }

  /** Every cell of a hyperslab is its corner shifted by a position inside the block. */
  lemma SlabCell(start: seq<nat>, count: seq<nat>, k: nat) returns (idx: Index)
    requires |start| == |count| && k < |Slab(start, count)|
    ensures InBounds(idx, count) && Offset(count, idx) == k
    ensures Slab(start, count)[k] == Shift(start, idx)
  {
    SlabLength(start, count);
    idx := Unrank(count, k);
    UnrankIsRank(count, k);
    SlabAt(start, count, idx);
  }

  // ----- cutting a hyperslab in two -----

  lemma {:induction false} RowsSplit(first: nat, a: nat, b: nat, tails: seq<Index>)
    ensures Rows(first, a + b, tails) == Rows(first, a, tails) + Rows(first + a, b, tails)
    decreases a
  {
    if a > 0 {
      RowsSplit(first + 1, a - 1, b, tails);
    }
  }

  ghost predicate OuterCountsAreOne(count: seq<nat>, dim: nat) {
    dim < |count| && forall i :: 0 <= i < dim ==> count[i] == 1
  }

  /** A hyperslab is the concatenation of two consecutive pieces along a dimension when no
      dimension outside it has more than one step. */
  lemma {:induction false} SlabSplit(start: seq<nat>, count: seq<nat>, dim: nat, a: nat, b: nat)
    requires |start| == |count| && OuterCountsAreOne(count, dim) && count[dim] == a + b
    ensures Slab(start, count) == Slab(start, count[dim := a])
                                + Slab(start[dim := start[dim] + a], count[dim := b])
  {
    if dim == 0 {
      RowsSplit(start[0], a, b, Slab(start[1..], count[1..]));
    } else {
      var start', count' := start[1..], count[1..];
      SlabSplit(start', count', dim - 1, a, b);
      assert start[dim := start[dim] + a][1..] == start'[dim - 1 := start'[dim - 1] + a];
      assert count[dim := a][1..] == count'[dim - 1 := a];
      assert count[dim := b][1..] == count'[dim - 1 := b];
      RowsOne(start[0], Slab(start', count'));
      RowsOne(start[0], Slab(start', count'[dim - 1 := a]));
      RowsOne(start[0], Slab(start'[dim - 1 := start'[dim - 1] + a], count'[dim - 1 := b]));
    }
  }

  lemma RowsOne(i: nat, tails: seq<Index>)
    ensures Rows(i, 1, tails) == Prepend(i, tails)
  {
    assert Rows(i + 1, 0, tails) == [];
  }

  lemma {:induction false} ProductUpdate(shape: seq<nat>, dim: nat, a: nat, b: nat)
    requires dim < |shape|
    ensures Product(shape[dim := a + b]) == Product(shape[dim := a]) + Product(shape[dim := b])
  {
    if dim == 0 {
      assert (a + b) * Product(shape[1..]) == a * Product(shape[1..]) + b * Product(shape[1..]);
    } else {
      ProductUpdate(shape[1..], dim - 1, a, b);
      assert forall c: nat {:trigger shape[dim := c]} :: shape[dim := c][1..] == shape[1..][dim - 1 := c];
      assert shape[0] * (Product(shape[dim := a][1..]) + Product(shape[dim := b][1..]))
          == shape[0] * Product(shape[dim := a][1..]) + shape[0] * Product(shape[dim := b][1..]);
    }
  }
}
