/** Variables as row-major blocks, and several blocks seen as one along a dimension. */
module Blocks {
  import opened Hyperslab

  /** What calloc leaves in a cell nothing was transferred to. */
  const ZERO := 0

  datatype Block = Block(shape: seq<nat>, data: seq<int>) {
    predicate Valid() {
      |data| == Product(shape)
    }

    function Steps(dim: nat): nat {
      if dim < |shape| then shape[dim] else 0
    }
  }

  function At(b: Block, idx: Index): int {
    if b.Valid() && InBounds(idx, b.shape) then
      OffsetInRange(b.shape, idx);
      b.data[Offset(b.shape, idx)]
    else ZERO
  }

  /** The cell of the virtual array that has the parts one after the other along dim. */
  function JoinedAt(parts: seq<Block>, dim: nat, idx: Index): int
    requires dim < |idx|
  {
    if |parts| == 0 then ZERO
    else if idx[dim] < parts[0].Steps(dim) then At(parts[0], idx)
    else JoinedAt(parts[1..], dim, idx[dim := idx[dim] - parts[0].Steps(dim)])
  }

  function Total(parts: seq<Block>, dim: nat): nat {
    if |parts| == 0 then 0 else parts[0].Steps(dim) + Total(parts[1..], dim)
  }

  datatype Field = One(block: Block) | Joined(parts: seq<Block>, dim: nat)

  function FieldAt(f: Field, idx: Index): int {
    match f
    case One(b) => At(b, idx)
    case Joined(parts, dim) => if dim < |idx| then JoinedAt(parts, dim, idx) else ZERO
  }

  function Gather(f: Field, cells: seq<Index>): (r: seq<int>)
    ensures |r| == |cells|
  {
    seq(|cells|, k requires 0 <= k < |cells| => FieldAt(f, cells[k]))
  }

  /** nc_get_vara: the transfer buffer of a hyperslab of a variable. */
  function GetVara(f: Field, start: seq<nat>, count: seq<nat>): seq<int>
    requires |start| == |count|
  {
    Gather(f, Slab(start, count))
  }

  ghost predicate Fits(start: seq<nat>, count: seq<nat>, shape: seq<nat>) {
    |start| == |count| == |shape| && forall i :: 0 <= i < |shape| ==> start[i] + count[i] <= shape[i]
  }

  lemma GatherConcat(f: Field, a: seq<Index>, b: seq<Index>)
    ensures Gather(f, a + b) == Gather(f, a) + Gather(f, b)
  {
  }

  /** A block written with the buffer of a window has, at each position, the source's cell at
      that position moved by the window's corner. */
  lemma WindowAt(source: Block, start: seq<nat>, count: seq<nat>, idx: Index)
    requires |start| == |count| && InBounds(idx, count)
    ensures |GetVara(One(source), start, count)| == Product(count)
    ensures At(Block(count, GetVara(One(source), start, count)), idx) == At(source, Shift(start, idx))
  {
    SlabLength(start, count);
    SlabAt(start, count, idx);
    OffsetInRange(count, idx);
  }

  /** Reading a whole variable gives its data. */
  lemma ReadAll(b: Block)
    requires b.Valid()
    ensures GetVara(One(b), seq(|b.shape|, _ => 0), b.shape) == b.data
  {
    var zero: seq<nat> := seq(|b.shape|, _ => 0);
    SlabLength(zero, b.shape);
    forall k | 0 <= k < |b.data|
      ensures GetVara(One(b), zero, b.shape)[k] == b.data[k]
    {
      var idx := SlabCell(zero, b.shape, k);
      assert Shift(zero, idx) == idx;
    }
  }
}
