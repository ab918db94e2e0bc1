/** A block cut into pieces along one dimension, and reads of the pieces as if they were the block. */
module Pieces {
  import opened Hyperslab
  import opened Blocks
  import opened NetCdf
  import opened Subset
  import opened AggRead
  import opened AggSession
  import Copy

  // ----- cutting and joining -----

  /** The steps lo..hi-1 of a block along dimension p. */
  function Cut(source: Block, p: nat, lo: nat, n: nat): Block
    requires p < |source.shape|
  {
    var count := source.shape[p := n];
    Block(count, GetVara(One(source), ZeroBut(|count|, p, lo), count))
  }

  ghost predicate IsCut(source: Block, p: nat, b: seq<int>, parts: seq<Block>, i: nat) {
    i < |parts| && i + 1 < |b| && 0 <= b[i] < b[i + 1] && p < |source.shape|
    && parts[i] == Cut(source, p, b[i], b[i + 1] - b[i])
  }

  ghost predicate IsCutUp(source: Block, p: nat, b: seq<int>, parts: seq<Block>) {
    p < |source.shape| && |b| == |parts| + 1 && forall i: nat :: i < |parts| ==> IsCut(source, p, b, parts, i)
  }

  lemma CutSteps(source: Block, p: nat, b: seq<int>, parts: seq<Block>, i: nat)
    requires IsCutUp(source, p, b, parts) && i < |parts|
    ensures 0 <= b[i] < b[i + 1] && parts[i].Steps(p) == b[i + 1] - b[i]
  {
    assert IsCut(source, p, b, parts, i);
  }

  lemma {:induction false} CutTotal(source: Block, p: nat, b: seq<int>, parts: seq<Block>, i: nat)
    requires IsCutUp(source, p, b, parts) && i <= |parts|
    ensures Total(parts[i..], p) == b[|b| - 1] - b[i]
    decreases |parts| - i
  {
    if i < |parts| {
      CutSteps(source, p, b, parts, i);
      CutTotal(source, p, b, parts, i + 1);
      assert parts[i..][1..] == parts[i + 1..];
    }
  }

  /** The joined pieces have the cells of the block, from the first bound on. */
  lemma {:induction false} JoinedPieces(source: Block, p: nat, b: seq<int>, parts: seq<Block>, i: nat, idx: Index)
    requires IsCutUp(source, p, b, parts) && i <= |parts| && |idx| == |source.shape|
    requires forall j :: 0 <= j < |idx| && j != p ==> idx[j] < source.shape[j]
    requires idx[p] < Total(parts[i..], p)
    ensures b[i] >= 0 && JoinedAt(parts[i..], p, idx) == At(source, idx[p := idx[p] + b[i]])
    decreases |parts| - i
  {
    CutSteps(source, p, b, parts, i);
    assert IsCut(source, p, b, parts, i);
    var n := b[i + 1] - b[i];
    if idx[p] < n {
      HyperslabCell(source, p, b[i], n, idx);
    } else {
      assert parts[i..][1..] == parts[i + 1..];
      var next := idx[p := idx[p] - n];
      JoinedPieces(source, p, b, parts, i + 1, next);
      assert next[p := next[p] + b[i + 1]] == idx[p := idx[p] + b[i]];
    }
  }

  ghost predicate InsideBut(start: seq<nat>, count: seq<nat>, shape: seq<nat>, p: nat) {
    |start| == |count| == |shape| && p < |shape|
    && forall j :: 0 <= j < |shape| && j != p ==> start[j] + count[j] <= shape[j]
  }

  /** Any window of the joined pieces is the window of the block moved by the first bound. */
  lemma PiecesRead(source: Block, p: nat, b: seq<int>, parts: seq<Block>, start: seq<nat>, count: seq<nat>)
    requires IsCutUp(source, p, b, parts) && |parts| > 0 && InsideBut(start, count, source.shape, p)
    requires start[p] + count[p] <= Total(parts, p)
    ensures b[0] >= 0
    ensures GetVara(Joined(parts, p), start, count) == GetVara(One(source), start[p := start[p] + b[0]], count)
  {
    CutSteps(source, p, b, parts, 0);
    var moved := start[p := start[p] + b[0]];
    SlabLength(start, count);
    SlabLength(moved, count);
    forall k | 0 <= k < |Slab(start, count)|
      ensures FieldAt(Joined(parts, p), Slab(start, count)[k]) == FieldAt(One(source), Slab(moved, count)[k])
    {
      UnrankIsRank(count, k);
      var idx := Unrank(count, k);
      SlabAt(start, count, idx);
      SlabAt(moved, count, idx);
      PiecesCell(source, p, b, parts, start, count, idx);
    }
  }

  lemma MovedCell(start: seq<nat>, idx: Index, p: nat, steps: nat)
    requires |start| == |idx| && p < |start|
    ensures Shift(start[p := start[p] + steps], idx) == Shift(start, idx)[p := Shift(start, idx)[p] + steps]
  {
  }

  lemma PiecesCell(source: Block, p: nat, b: seq<int>, parts: seq<Block>, start: seq<nat>, count: seq<nat>, idx: Index)
    requires IsCutUp(source, p, b, parts) && |parts| > 0 && InsideBut(start, count, source.shape, p)
    requires start[p] + count[p] <= Total(parts, p) && InBounds(idx, count) && b[0] >= 0
    ensures JoinedAt(parts, p, Shift(start, idx)) == At(source, Shift(start[p := start[p] + b[0]], idx))
  {
    MovedCell(start, idx, p, b[0]);
    assert parts[0..] == parts;
    JoinedPieces(source, p, b, parts, 0, Shift(start, idx));
  }

  /** The steps lo..lo+n-1, counted from the first bound, are all in one piece. */
  ghost predicate InOnePiece(b: seq<int>, lo: int, n: int) {
    exists i: nat :: InPiece(b, i, lo, n)
  }

  predicate InPiece(b: seq<int>, i: nat, lo: int, n: int) {
    i + 1 < |b| && b[i] - b[0] <= lo && lo + n <= b[i + 1] - b[0]
  }

  lemma {:induction false} OnePieceTouched(b: seq<int>, lens: seq<nat>, lo: nat, n: nat, i: nat)
    requires |b| == |lens| + 1 && forall k :: 0 <= k < |lens| ==> b[k] + lens[k] == b[k + 1]
    requires (forall j, k :: 0 <= j < k < |b| ==> b[j] <= b[k]) && InPiece(b, i, lo, n)
    ensures Touched(lens, lo, n) <= 1
    decreases |lens|
  {
    if n > 0 {
      assert i > 0 ==> b[1] <= b[i];
      if lo >= lens[0] {
        OnePieceTouched(b[1..], lens[1..], lo - lens[0], n, i - 1);
      }
    }
  }

  lemma {:induction false} BoundsAscend(source: Block, p: nat, b: seq<int>, parts: seq<Block>, j: nat, k: nat)
    requires IsCutUp(source, p, b, parts) && j < k < |b|
    ensures b[j] < b[k]
    decreases k
  {
    CutSteps(source, p, b, parts, k - 1);
    if j < k - 1 {
      BoundsAscend(source, p, b, parts, j, k - 1);
    }
  }

  lemma PiecesShaped(source: Block, p: nat, b: seq<int>, parts: seq<Block>, lens: seq<nat>)
    requires IsCutUp(source, p, b, parts) && HaveSteps(parts, lens, p)
    ensures PartsShaped(parts, lens, source.shape, p)
    ensures forall k :: 0 <= k < |lens| ==> b[k] + lens[k] == b[k + 1]
  {
    forall k | 0 <= k < |parts|
      ensures parts[k].Valid() && parts[k].shape == source.shape[p := lens[k]] && b[k] + lens[k] == b[k + 1]
    {
      CutSteps(source, p, b, parts, k);
      assert IsCut(source, p, b, parts, k);
      var count := source.shape[p := lens[k]];
      SlabLength(ZeroBut(|count|, p, b[k]), count);
    }
  }

  /** Pieces are read in order when no outer dimension has more than one step, or one of them holds all
      of the window. */
  lemma PiecesInOrder(source: Block, p: nat, b: seq<int>, parts: seq<Block>, lens: seq<nat>,
                      start: seq<nat>, count: seq<nat>)
    requires IsCutUp(source, p, b, parts) && HaveSteps(parts, lens, p) && p < |start| == |count|
    requires OuterCountsAreOne(count, p) || InOnePiece(b, start[p], count[p])
    ensures ReadInOrder(parts, lens, source.shape, p, start, count)
  {
    if !OuterCountsAreOne(count, p) {
      PiecesShaped(source, p, b, parts, lens);
      var i: nat :| InPiece(b, i, start[p], count[p]);
      forall j, k | 0 <= j < k < |b| ensures b[j] <= b[k] {
        BoundsAscend(source, p, b, parts, j, k);
      }
      OnePieceTouched(b, lens, start[p], count[p], i);
    }
  }

  lemma PiecesAnswer(source: Block, p: nat, b: seq<int>, parts: seq<Block>, lens: seq<nat>,
                     start: seq<nat>, count: seq<nat>)
    requires IsCutUp(source, p, b, parts) && |parts| > 0 && InsideBut(start, count, source.shape, p)
    requires HaveSteps(parts, lens, p) && AllPositive(count)
    requires OuterCountsAreOne(count, p) || InOnePiece(b, start[p], count[p])
    requires start[p] + count[p] <= b[|b| - 1] - b[0]
    ensures b[0] >= 0
    ensures Answer(parts, lens, p, start, count) == Some(GetVara(One(source), start[p := start[p] + b[0]], count))
  {
    CutTotal(source, p, b, parts, 0);
    assert parts[0..] == parts;
    PiecesRead(source, p, b, parts, start, count);
    PiecesInOrder(source, p, b, parts, lens, start, count);
    AnswerIsHyperslab(parts, lens, source.shape, p, start, count);
  }

  // ----- when pieces read right, whatever they hold -----

  ghost predicate Ascends(b: seq<int>) {
    forall j, k :: 0 <= j < k < |b| ==> b[j] < b[k]
  }

  /** Number of the piece that has step t. */
  function PieceOf(b: seq<int>, t: int): nat {
    if |b| <= 1 || t < b[1] then 0 else 1 + PieceOf(b[1..], t)
  }

  lemma {:induction false} PieceOfStep(b: seq<int>, t: int, i: nat)
    requires Ascends(b) && i + 1 < |b| && b[i] <= t < b[i + 1]
    ensures PieceOf(b, t) == i
  {
    assert i > 1 ==> b[1] < b[i];
    if i > 0 {
      PieceOfStep(b[1..], t, i - 1);
    }
  }

  /** A block whose cells hold the number of the piece they are in. */
  function Tagged(shape: seq<nat>, p: nat, b: seq<int>): (source: Block)
    requires p < |shape|
    ensures source.Valid() && source.shape == shape
  {
    Block(shape, seq(Product(shape), k requires 0 <= k < Product(shape) => PieceOf(b, Unrank(shape, k)[p])))
  }

  lemma TaggedAt(shape: seq<nat>, p: nat, b: seq<int>, idx: Index)
    requires p < |shape| && InBounds(idx, shape)
    ensures At(Tagged(shape, p, b), idx) == PieceOf(b, idx[p])
  {
    OffsetInRange(shape, idx);
    UnrankIsRank(shape, Offset(shape, idx));
    Copy.OffsetInjective(shape, Unrank(shape, Offset(shape, idx)), idx);
  }

  predicate IsMarked(part: Block, shape: seq<nat>, mark: nat) {
    part.Valid() && part.shape == shape && forall c :: 0 <= c < |part.data| ==> part.data[c] == mark
  }

  /** The piece of a tagged block has one number in all its cells. */
  lemma TaggedCut(shape: seq<nat>, p: nat, b: seq<int>, parts: seq<Block>, i: nat, n: nat)
    requires p < |shape| && Ascends(b) && i < |parts| == |b| - 1 && 0 <= b[0] && b[|b| - 1] <= shape[p]
    requires n == b[i + 1] - b[i] > 0 && IsMarked(parts[i], shape[p := n], i)
    ensures IsCut(Tagged(shape, p, b), p, b, parts, i)
  {
    assert i > 0 ==> b[0] < b[i];
    assert i + 1 < |b| - 1 ==> b[i + 1] < b[|b| - 1];
    var start, count := ZeroBut(|shape|, p, b[i]), shape[p := n];
    SlabLength(start, count);
    forall k | 0 <= k < |Slab(start, count)| ensures At(Tagged(shape, p, b), Slab(start, count)[k]) == i {
      var idx := SlabCell(start, count, k);
      TaggedAt(shape, p, b, Shift(start, idx));
      PieceOfStep(b, b[i] + idx[p], i);
    }
    assert parts[i].data == GetVara(One(Tagged(shape, p, b)), start, count);
  }

  lemma {:induction false} MarkedIs(lens: seq<nat>, shape: seq<nat>, p: nat, base: nat, k: nat, mark: nat)
    requires p < |shape| && k < |lens| && mark == base + k
    ensures IsMarked(Marked(lens, shape, p, base)[k], shape[p := lens[k]], mark)
  {
    if k > 0 {
      MarkedIs(lens[1..], shape, p, base + 1, k - 1, mark);
      assert Marked(lens, shape, p, base)[k] == Marked(lens[1..], shape, p, base + 1)[k - 1];
    }
  }

  /** The lengths of the pieces between ascending bounds. */
  function Lengths(b: seq<int>): (lens: seq<nat>)
    requires |b| > 0 && Ascends(b)
    ensures |lens| == |b| - 1
  {
    seq(|b| - 1, i requires 0 <= i < |b| - 1 => b[i + 1] - b[i])
  }

  lemma MarkedAreCuts(shape: seq<nat>, p: nat, b: seq<int>)
    requires p < |shape| && |b| > 0 && Ascends(b) && 0 <= b[0] && b[|b| - 1] <= shape[p]
    ensures IsCutUp(Tagged(shape, p, b), p, b, Marked(Lengths(b), shape, p, 0))
  {
    var lens := Lengths(b);
    var parts := Marked(lens, shape, p, 0);
    forall i: nat | i < |parts| ensures IsCut(Tagged(shape, p, b), p, b, parts, i) {
      MarkedIs(lens, shape, p, 0, i, i);
      TaggedCut(shape, p, b, parts, i, lens[i]);
    }
  }

  lemma NextIsTouched(b: seq<int>, n: nat)
    requires |b| > 0 && Ascends(b) && 0 < n <= b[|b| - 1] - b[0]
    ensures Touched(Lengths(b), 0, n) >= 1
  {
    assert b[0] < b[1];
  }

  /** A window that no piece holds all of touches two of them. */
  lemma {:induction false} SpreadTouchesTwo(b: seq<int>, lo: nat, n: nat)
    requires |b| > 0 && Ascends(b) && n > 0 && lo + n <= b[|b| - 1] - b[0]
    requires !InOnePiece(b, lo, n)
    ensures Touched(Lengths(b), lo, n) >= 2
    decreases |b|
  {
    var first := Lengths(b)[0];
    var rest := b[1..];
    assert Lengths(b)[1..] == Lengths(rest);
    if lo >= first {
      var lo' := lo - first;
      forall i: nat ensures !InPiece(rest, i, lo', n) {
        assert !InPiece(b, i + 1, lo, n);
      }
      SpreadTouchesTwo(rest, lo', n);
    } else {
      assert !InPiece(b, 0, lo, n);
      NextIsTouched(rest, lo + n - first);
    }
  }

  /** Pieces that hold numbers show where the window has not been read in order. */
  lemma TaggedIsWrong(shape: seq<nat>, p: nat, b: seq<int>, start: seq<nat>, count: seq<nat>)
    requires WindowInside(start, count, shape, p) && |b| > 1 && Ascends(b)
    requires 0 <= b[0] && b[|b| - 1] <= shape[p] && start[p] + count[p] <= b[|b| - 1] - b[0]
    requires !OuterCountsAreOne(count, p) && !InOnePiece(b, start[p], count[p])
    ensures var source, parts := Tagged(shape, p, b), Marked(Lengths(b), shape, p, 0);
            IsCutUp(source, p, b, parts)
            && Answer(parts, Lengths(b), p, start, count)
               != Some(GetVara(One(source), start[p := start[p] + b[0]], count))
  {
    var source, parts := Tagged(shape, p, b), Marked(Lengths(b), shape, p, 0);
    MarkedAreCuts(shape, p, b);
    SpreadTouchesTwo(b, start[p], count[p]);
    MarkedIsWrong(Lengths(b), shape, p, 0, start, count);
    CutTotal(source, p, b, parts, 0);
    assert parts[0..] == parts;
    PiecesRead(source, p, b, parts, start, count);
    BufferLength(parts, p, start, count);
    assert count[p := count[p]] == count;
    ClampOf(start);
    ClampOf(count);
    var buffer := PartsBuffer(parts, p, start, count);
    assert buffer + Zeros(0) == buffer;
  }

  /** A source that has been cut up reads back in a window, whatever it holds, exactly when no dimension
      before time has more than one step in the window, or one piece holds all of it. */
  lemma PiecesReadExactly(shape: seq<nat>, p: nat, b: seq<int>, start: seq<nat>, count: seq<nat>)
    requires WindowInside(start, count, shape, p) && |b| > 1 && Ascends(b)
    requires 0 <= b[0] && b[|b| - 1] <= shape[p] && start[p] + count[p] <= b[|b| - 1] - b[0]
    ensures (forall source: Block, parts: seq<Block> ::
               source.Valid() && source.shape == shape && IsCutUp(source, p, b, parts) ==>
               Answer(parts, Lengths(b), p, start, count)
               == Some(GetVara(One(source), start[p := start[p] + b[0]], count)))
       <==> OuterCountsAreOne(count, p) || InOnePiece(b, start[p], count[p])
  {
    if OuterCountsAreOne(count, p) || InOnePiece(b, start[p], count[p]) {
      forall source: Block, parts: seq<Block> | source.Valid() && source.shape == shape && IsCutUp(source, p, b, parts)
        ensures Answer(parts, Lengths(b), p, start, count)
             == Some(GetVara(One(source), start[p := start[p] + b[0]], count))
      {
        forall i | 0 <= i < |parts| ensures parts[i].Steps(p) == Lengths(b)[i] {
          CutSteps(source, p, b, parts, i);
        }
        PiecesAnswer(source, p, b, parts, Lengths(b), start, count);
      }
    } else {
      TaggedIsWrong(shape, p, b, start, count);
    }
  }
}
