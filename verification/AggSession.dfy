/** An opened aggregate collection: at most two files open at a time, and reads over all of them. */
module AggSession {
  import opened Hyperslab
  import opened Blocks
  import opened NetCdf
  import opened AggInfo
  import opened GrownArray
  import opened AggRead

  /** What fails while one call runs: objects that cannot be opened, objects that cannot be inquired. */
  datatype Env = Env(openFails: set<string>, inqFails: set<string>)

  const NO_FAILURE := Env({}, {})

  datatype GetVarInp = GetVarInp(varid: int, start: seq<int>, stride: seq<int>, count: seq<int>) {
    /** No stride that skips a cell, and none along the time dimension p. */
    ghost predicate Valid(p: int) {
      |start| == |stride| == |count| && SingleSteps(Clamp(count), stride)
      && (0 <= p < |stride| ==> stride[p] <= 1)
    }
  }

  /** The lowest descriptor from n on that is not in use. */
  function FreshDescriptor(used: set<int>, n: int): (fd: int)
    ensures fd >= n && fd !in used
    decreases |used|
  {
    if n in used then FreshDescriptor(used - {n}, n + 1) else n
  }

  lemma {:induction false} LowestIsFree(used: set<int>, n: int)
    ensures forall k :: n <= k < FreshDescriptor(used, n) ==> k in used
    decreases |used|
  {
    if n in used {
      LowestIsFree(used - {n}, n + 1);
      forall k | n <= k < FreshDescriptor(used, n) ensures k in used {
        assert k > n ==> k in used - {n};
      }
    }
  }

  // ----- what a read returns -----

  ghost predicate AllPositive(count: seq<int>) {
    forall j :: 0 <= j < |count| ==> count[j] > 0
  }

  function Clamp(s: seq<int>): (r: seq<nat>)
    ensures |r| == |s|
  {
    seq(|s|, j requires 0 <= j < |s| => if s[j] < 0 then 0 else s[j])
  }

  function Zeros(n: int): (r: seq<int>)
    ensures |r| == (if n < 0 then 0 else n) && forall i :: 0 <= i < |r| ==> r[i] == 0
  {
    seq(if n < 0 then 0 else n, _ => ZERO)
  }

  /** The data of the first element that has steps. */
  function FirstData(parts: seq<Block>, lens: seq<nat>, start: seq<nat>, count: seq<nat>): seq<int>
    requires |lens| == |parts| && |start| == |count|
  {
    if |parts| == 0 then []
    else if lens[0] > 0 then GetVara(One(parts[0]), start, count)
    else FirstData(parts[1..], lens[1..], start, count)
  }

  /** The values of a window, file by file. A variable without time dimension (p < 0) comes from the
      first element that has steps; no file is in range of a negative time index. */
  function Selected(parts: seq<Block>, lens: seq<nat>, p: int, start: seq<int>, count: seq<int>): seq<int>
    requires |lens| == |parts| && |start| == |count| && p < |count|
  {
    if p < 0 then FirstData(parts, lens, Clamp(start), Clamp(count))
    else if start[p] < 0 then []
    else PartsBuffer(parts, p, Clamp(start), Clamp(count))
  }

  /** What an aggregate read returns: nothing when no file is in range, else a buffer of the size
      asked for, with zeros behind the end of the aggregation. */
  function Answer(parts: seq<Block>, lens: seq<nat>, p: int, start: seq<int>, count: seq<int>): Option<seq<int>>
    requires |lens| == |parts| && |start| == |count| && p < |count|
  {
    var data := Selected(parts, lens, p, start, count);
    if data == [] then None else Some(data + Zeros(Product(Clamp(count)) - |data|))
  }

  lemma ClampOf(s: seq<nat>)
    ensures Clamp(s) == s
  {
  }

  lemma WindowNotEmpty(count: seq<nat>, p: nat, n: nat)
    requires p < |count| && AllPositive(count)
    ensures Product(count[p := n]) > 0 <==> n > 0
  {
    if n > 0 {
      ProductPositive(count[p := n]);
    } else {
      ProductZero(count, p);
    }
  }

  /** No outer dimension has more than one step, or one file serves the whole window. */
  ghost predicate ReadInOrder(parts: seq<Block>, lens: seq<nat>, shape: seq<nat>, p: nat, start: seq<nat>,
                              count: seq<nat>)
  {
    p < |start| == |count|
    && (OuterCountsAreOne(count, p)
        || (p < |shape| && PartsShaped(parts, lens, shape, p) && Touched(lens, start[p], count[p]) <= 1))
  }

  /** When the window is read in order, the answer is the hyperslab of the array all files make up
      together, cut at its end and filled up with zeros; there is no answer just when the window starts
      behind the end. */
  lemma AnswerIsHyperslab(parts: seq<Block>, lens: seq<nat>, shape: seq<nat>, p: nat, start: seq<nat>, count: seq<nat>)
    requires |lens| == |parts| && ReadInOrder(parts, lens, shape, p, start, count) && AllPositive(count)
    ensures Answer(parts, lens, p, start, count) == None <==> start[p] >= Total(parts, p)
    ensures start[p] < Total(parts, p) ==>
              var existing := count[p := Available(parts, p, start[p], count[p])];
              Answer(parts, lens, p, start, count)
              == Some(GetVara(Joined(parts, p), start, existing) + Zeros(Product(count) - Product(existing)))
    ensures start[p] + count[p] <= Total(parts, p) ==>
              Answer(parts, lens, p, start, count) == Some(GetVara(Joined(parts, p), start, count))
  {
    ClampOf(start);
    ClampOf(count);
    if OuterCountsAreOne(count, p) {
      ReadIsHyperslab(parts, p, start, count);
    } else {
      OneTouchedPart(parts, lens, shape, p, start, count);
    }
    BufferLength(parts, p, start, count);
    var available := Available(parts, p, start[p], count[p]);
    WindowNotEmpty(count, p, available);
    assert count[p := count[p]] == count;
    var buffer := PartsBuffer(parts, p, start, count);
    assert buffer + Zeros(0) == buffer;
  }

  /** A variable without time is that of the first element that has steps; a window that starts before
      step 0 has no answer. */
  lemma AnswerWithoutTime(parts: seq<Block>, lens: seq<nat>, p: int, start: seq<int>, count: seq<int>, k: nat)
    requires |lens| == |parts| && |start| == |count| && p < |count| && AllPositive(count)
    requires k <= |lens| && (forall i :: 0 <= i < k ==> lens[i] == 0) && (k < |lens| ==> lens[k] > 0)
    ensures p < 0 ==>
              Answer(parts, lens, p, start, count)
              == if k < |parts| then Some(GetVara(One(parts[k]), Clamp(start), Clamp(count))) else None
    ensures p >= 0 && start[p] < 0 ==> Answer(parts, lens, p, start, count) == None
  {
    if p < 0 {
      FirstWithSteps(parts, lens, Clamp(start), Clamp(count), k);
      if k < |parts| {
        SlabLength(Clamp(start), Clamp(count));
        ProductPositive(Clamp(count));
        var data := GetVara(One(parts[k]), Clamp(start), Clamp(count));
        assert data + Zeros(0) == data;
      }
    }
  }

  lemma {:induction false} FirstWithSteps(parts: seq<Block>, lens: seq<nat>, start: seq<nat>, count: seq<nat>, k: nat)
    requires |lens| == |parts| && |start| == |count|
    requires k <= |lens| && (forall i :: 0 <= i < k ==> lens[i] == 0) && (k < |lens| ==> lens[k] > 0)
    ensures FirstData(parts, lens, start, count) == if k < |parts| then GetVara(One(parts[k]), start, count) else []
  {
    if k > 0 {
      FirstWithSteps(parts[1..], lens[1..], start, count, k - 1);
    }
  }

  // ----- the loop over the elements -----

  /** What the loop transfers from element i on, which starts at eleStart, when the next step to be
      read is curPos. */
  function Transferred(parts: seq<Block>, lens: seq<nat>, i: nat, p: int, start: seq<int>, count: seq<int>,
                       eleStart: int, curPos: int, timeEnd0: int): seq<int>
    requires i <= |lens| == |parts| && |start| == |count| && p < |count|
    decreases |parts| - i, 0
  {
    if i == |parts| then []
    else
      var eleEnd := eleStart + lens[i] - 1;
      var data := ElementData(parts[i], p, start, count, eleStart, eleEnd, curPos, timeEnd0);
      var next := NextPos(p, count, eleStart, eleEnd, curPos, timeEnd0);
      data + TransferredAfter(parts, lens, i + 1, p, start, count, eleEnd + 1, next, timeEnd0)
  }

  /** The loop stops once all of the window has been read. */
  function TransferredAfter(parts: seq<Block>, lens: seq<nat>, i: nat, p: int, start: seq<int>, count: seq<int>,
                            eleStart: int, curPos: int, timeEnd0: int): seq<int>
    requires i <= |lens| == |parts| && |start| == |count| && p < |count|
    decreases |parts| - i, 1
  {
    if curPos > timeEnd0 then [] else Transferred(parts, lens, i, p, start, count, eleStart, curPos, timeEnd0)
  }

  function ElementData(part: Block, p: int, start: seq<int>, count: seq<int>,
                       eleStart: int, eleEnd: int, curPos: int, timeEnd0: int): seq<int>
    requires |start| == |count| && p < |count|
  {
    if eleStart <= curPos <= eleEnd
    then GetVara(One(part), Clamp(ElementStart(p, start, eleStart, curPos)),
                 Clamp(ElementCount(p, count, eleEnd, curPos, timeEnd0)))
    else []
  }

  function NextPos(p: int, count: seq<int>, eleStart: int, eleEnd: int, curPos: int, timeEnd0: int): int
    requires p < |count|
  {
    if eleStart <= curPos <= eleEnd && p >= 0
    then curPos + ElementCount(p, count, eleEnd, curPos, timeEnd0)[p]
    else curPos
  }

  function ElementStart(p: int, start: seq<int>, eleStart: int, curPos: int): (s: seq<int>)
    requires p < |start|
    ensures |s| == |start|
  {
    if p >= 0 then start[p := curPos - eleStart] else start
  }

  function ElementCount(p: int, count: seq<int>, eleEnd: int, curPos: int, timeEnd0: int): (c: seq<int>)
    requires p < |count|
    ensures |c| == |count|
  {
    if p >= 0 then count[p := if timeEnd0 >= eleEnd then eleEnd - curPos + 1 else timeEnd0 - curPos + 1] else count
  }

  lemma ClampUpdate(s: seq<int>, p: nat, n: nat)
    requires p < |s|
    ensures Clamp(s[p := n]) == Clamp(s)[p := n]
  {
  }

  /** What the loop transfers from element i on, which starts at eleStart, of n steps from step lo of it. */
  function TransferredAlong(parts: seq<Block>, lens: seq<nat>, i: nat, p: nat, start: seq<int>, count: seq<int>,
                            eleStart: int, lo: nat, n: nat): seq<int>
    requires i <= |lens| == |parts| && |start| == |count| && p < |count|
  {
    TransferredAfter(parts, lens, i, p, start, count, eleStart, eleStart + lo, eleStart + lo + n - 1)
  }

  /** Along the time dimension the loop collects the window's part of each file. */
  lemma {:induction false} TransferredSteps(parts: seq<Block>, lens: seq<nat>, i: nat, p: nat, start: seq<int>,
                                            count: seq<int>, eleStart: int, lo: nat, n: nat)
    requires |start| == |count| && p < |count| && HaveSteps(parts, lens, p) && i <= |parts|
    ensures TransferredAlong(parts, lens, i, p, start, count, eleStart, lo, n)
         == Pieces(parts[i..], p, Clamp(start), Clamp(count), lo, n)
    decreases |parts| - i
  {
    if i == |parts| || n == 0 {
      assert i == |parts| ==> parts[i..] == [];
      assert i == |parts| ==>
          Transferred(parts, lens, i, p, start, count, eleStart, eleStart + lo, eleStart + lo + n - 1) == [];
    } else {
      var steps := lens[i];
      assert parts[i].Steps(p) == steps;
      if lo >= steps {
        TransferredSkip(parts, lens, i, p, start, count, eleStart, lo, n);
        TransferredSteps(parts, lens, i + 1, p, start, count, eleStart + steps, lo - steps, n);
        SkippedFile(parts, i, p, Clamp(start), Clamp(count), lo, n);
      } else {
        var m := Min(n, steps - lo);
        TransferredPiece(parts, lens, i, p, start, count, eleStart, lo, n, m);
        TransferredSteps(parts, lens, i + 1, p, start, count, eleStart + steps, 0, n - m);
        ReadFile(parts, i, p, Clamp(start), Clamp(count), lo, n, m);
      }
    }
  }

  function Pieces(parts: seq<Block>, p: nat, start: seq<nat>, count: seq<nat>, lo: nat, n: nat): seq<int>
    requires |start| == |count| && p < |count|
  {
    PartsBuffer(parts, p, start[p := lo], count[p := n])
  }

  function Piece(part: Block, p: nat, start: seq<nat>, count: seq<nat>, lo: nat, m: nat): seq<int>
    requires |start| == |count| && p < |count|
  {
    GetVara(One(part), start[p := lo], count[p := m])
  }

  /** An element of steps steps holds m of the n steps that are left to read from step lo of it. */
  lemma DataOfElement(part: Block, p: nat, start: seq<int>, count: seq<int>, eleStart: int, steps: nat,
                      lo: nat, n: nat, m: nat)
    requires |start| == |count| && p < |count| && n > 0 && lo < steps && m == Min(n, steps - lo)
    ensures var eleEnd, curPos, timeEnd0 := eleStart + steps - 1, eleStart + lo, eleStart + lo + n - 1;
            ElementData(part, p, start, count, eleStart, eleEnd, curPos, timeEnd0)
            == Piece(part, p, Clamp(start), Clamp(count), lo, m)
            && NextPos(p, count, eleStart, eleEnd, curPos, timeEnd0) == curPos + m
  {
    ClampUpdate(start, p, lo);
    ClampUpdate(count, p, m);
  }

  /** One turn of the loop. */
  lemma OneTurn(parts: seq<Block>, lens: seq<nat>, i: nat, p: int, start: seq<int>, count: seq<int>,
                eleStart: int, curPos: int, timeEnd0: int)
    requires i < |lens| == |parts| && |start| == |count| && p < |count|
    ensures var eleEnd := eleStart + lens[i] - 1;
            var next := NextPos(p, count, eleStart, eleEnd, curPos, timeEnd0);
            Transferred(parts, lens, i, p, start, count, eleStart, curPos, timeEnd0)
            == ElementData(parts[i], p, start, count, eleStart, eleEnd, curPos, timeEnd0)
             + TransferredAfter(parts, lens, i + 1, p, start, count, eleEnd + 1, next, timeEnd0)
  {
  }

  lemma TransferredPiece(parts: seq<Block>, lens: seq<nat>, i: nat, p: nat, start: seq<int>, count: seq<int>,
                         eleStart: int, lo: nat, n: nat, m: nat)
    requires i < |lens| == |parts| && |start| == |count| && p < |count|
    requires n > 0 && lo < lens[i] && m == Min(n, lens[i] - lo)
    ensures TransferredAlong(parts, lens, i, p, start, count, eleStart, lo, n)
         == Piece(parts[i], p, Clamp(start), Clamp(count), lo, m)
          + TransferredAlong(parts, lens, i + 1, p, start, count, eleStart + lens[i], 0, n - m)
  {
    var curPos, timeEnd0, next := eleStart + lo, eleStart + lo + n - 1, eleStart + lens[i];
    DataOfElement(parts[i], p, start, count, eleStart, lens[i], lo, n, m);
    TurnTo(parts, lens, i, p, start, count, eleStart, curPos, timeEnd0,
           Piece(parts[i], p, Clamp(start), Clamp(count), lo, m), curPos + m);
    RestAlong(parts, lens, i + 1, p, start, count, next, curPos + m, timeEnd0, n - m);
  }

  lemma TurnTo(parts: seq<Block>, lens: seq<nat>, i: nat, p: int, start: seq<int>, count: seq<int>,
               eleStart: int, curPos: int, timeEnd0: int, data: seq<int>, next: int)
    requires i < |lens| == |parts| && |start| == |count| && p < |count| && curPos <= timeEnd0
    requires data == ElementData(parts[i], p, start, count, eleStart, eleStart + lens[i] - 1, curPos, timeEnd0)
    requires next == NextPos(p, count, eleStart, eleStart + lens[i] - 1, curPos, timeEnd0)
    ensures TransferredAfter(parts, lens, i, p, start, count, eleStart, curPos, timeEnd0)
         == data + TransferredAfter(parts, lens, i + 1, p, start, count, eleStart + lens[i], next, timeEnd0)
  {
    OneTurn(parts, lens, i, p, start, count, eleStart, curPos, timeEnd0);
    assert eleStart + lens[i] - 1 + 1 == eleStart + lens[i];
  }

  /** Nothing, or the files from one that is read from its first step on. */
  lemma RestAlong(parts: seq<Block>, lens: seq<nat>, i: nat, p: nat, start: seq<int>, count: seq<int>,
                  eleStart: int, curPos: int, timeEnd0: int, n: nat)
    requires i <= |lens| == |parts| && |start| == |count| && p < |count|
    requires timeEnd0 - curPos + 1 == n && (n > 0 ==> curPos == eleStart)
    ensures TransferredAfter(parts, lens, i, p, start, count, eleStart, curPos, timeEnd0)
         == TransferredAlong(parts, lens, i, p, start, count, eleStart, 0, n)
  {
    assert n > 0 ==> eleStart + 0 == curPos && eleStart + 0 + n - 1 == timeEnd0;
  }

  lemma TransferredSkip(parts: seq<Block>, lens: seq<nat>, i: nat, p: nat, start: seq<int>, count: seq<int>,
                        eleStart: int, lo: nat, n: nat)
    requires i < |lens| == |parts| && |start| == |count| && p < |count| && n > 0 && lo >= lens[i]
    ensures TransferredAlong(parts, lens, i, p, start, count, eleStart, lo, n)
         == TransferredAlong(parts, lens, i + 1, p, start, count, eleStart + lens[i], lo - lens[i], n)
  {
    var rest := TransferredAlong(parts, lens, i + 1, p, start, count, eleStart + lens[i], lo - lens[i], n);
    assert [] + rest == rest;
    var eleEnd, next := eleStart + lens[i] - 1, eleStart + lens[i];
    OneTurn(parts, lens, i, p, start, count, eleStart, eleStart + lo, eleStart + lo + n - 1);
    assert eleEnd + 1 == next && next + (lo - lens[i]) == eleStart + lo;
    assert next + (lo - lens[i]) + n - 1 == eleStart + lo + n - 1;
  }

  lemma SkippedFile(parts: seq<Block>, i: nat, p: nat, start: seq<nat>, count: seq<nat>, lo: nat, n: nat)
    requires i < |parts| && |start| == |count| && p < |count| && n > 0 && lo >= parts[i].Steps(p)
    ensures Pieces(parts[i..], p, start, count, lo, n)
         == Pieces(parts[i + 1..], p, start, count, lo - parts[i].Steps(p), n)
  {
    assert parts[i..][1..] == parts[i + 1..];
    assert start[p := lo][p := lo - parts[i].Steps(p)] == start[p := lo - parts[i].Steps(p)];
  }

  lemma ReadFile(parts: seq<Block>, i: nat, p: nat, start: seq<nat>, count: seq<nat>, lo: nat, n: nat, m: nat)
    requires i < |parts| && |start| == |count| && p < |count| && n > 0 && lo < parts[i].Steps(p)
    requires m == Min(n, parts[i].Steps(p) - lo)
    ensures Pieces(parts[i..], p, start, count, lo, n)
         == Piece(parts[i], p, start, count, lo, m) + Pieces(parts[i + 1..], p, start, count, 0, n - m)
  {
    assert parts[i..][1..] == parts[i + 1..];
    assert start[p := lo][p := 0] == start[p := 0];
    assert count[p := n][p := m] == count[p := m];
    assert count[p := n][p := n - m] == count[p := n - m];
  }

  lemma {:induction false} NothingInRange(parts: seq<Block>, lens: seq<nat>, i: nat, p: int, start: seq<int>,
                                          count: seq<int>, eleStart: int, curPos: int, timeEnd0: int)
    requires i <= |lens| == |parts| && |start| == |count| && p < |count| && curPos < eleStart
    ensures Transferred(parts, lens, i, p, start, count, eleStart, curPos, timeEnd0) == []
    decreases |parts| - i
  {
    if i < |parts| && curPos <= timeEnd0 {
      NothingInRange(parts, lens, i + 1, p, start, count, eleStart + lens[i], curPos, timeEnd0);
    }
  }

  lemma {:induction false} TransferredOnce(parts: seq<Block>, lens: seq<nat>, i: nat, p: int, start: seq<int>,
                                           count: seq<int>)
    requires i <= |lens| == |parts| && |start| == |count| && p < 0
    ensures Transferred(parts, lens, i, p, start, count, 0, 0, 0)
         == FirstData(parts[i..], lens[i..], Clamp(start), Clamp(count))
    decreases |parts| - i
  {
    if i < |parts| {
      assert parts[i..][1..] == parts[i + 1..] && lens[i..][1..] == lens[i + 1..];
      if lens[i] > 0 {
        NothingInRange(parts, lens, i + 1, p, start, count, lens[i], 0, 0);
      } else {
        TransferredOnce(parts, lens, i + 1, p, start, count);
      }
    }
  }

  function TimeStart(p: int, start: seq<int>): int
    requires p < |start|
  {
    if p >= 0 then start[p] else 0
  }

  function TimeEnd(p: int, start: seq<int>, count: seq<int>): int
    requires p < |start| == |count|
  {
    if p >= 0 then start[p] + count[p] - 1 else 0
  }

  /** The loop transfers the selected values, and they fit into the buffer. */
  lemma TransferredIsSelected(parts: seq<Block>, lens: seq<nat>, p: int, start: seq<int>, count: seq<int>)
    requires |start| == |count| && p < |count| && |lens| == |parts| && AllPositive(count)
    requires 0 <= p ==> HaveSteps(parts, lens, p)
    ensures TransferredAfter(parts, lens, 0, p, start, count, 0, TimeStart(p, start), TimeEnd(p, start, count))
         == Selected(parts, lens, p, start, count)
    ensures |Selected(parts, lens, p, start, count)| <= Product(Clamp(count))
  {
    var s, c := Clamp(start), Clamp(count);
    assert parts[0..] == parts && lens[0..] == lens;
    if p < 0 {
      TransferredOnce(parts, lens, 0, p, start, count);
      FirstDataLength(parts, lens, s, c);
    } else if start[p] < 0 {
      NothingInRange(parts, lens, 0, p, start, count, 0, start[p], start[p] + count[p] - 1);
    } else {
      SelectedSteps(parts, lens, p, start, count);
      BufferFits(parts, p, s, c);
    }
  }

  lemma SelectedSteps(parts: seq<Block>, lens: seq<nat>, p: nat, start: seq<int>, count: seq<int>)
    requires |start| == |count| && p < |count| && AllPositive(count) && HaveSteps(parts, lens, p) && start[p] >= 0
    ensures TransferredAfter(parts, lens, 0, p, start, count, 0, start[p], start[p] + count[p] - 1)
         == PartsBuffer(parts, p, Clamp(start), Clamp(count))
  {
    var s, c := Clamp(start), Clamp(count);
    TransferredSteps(parts, lens, 0, p, start, count, 0, s[p], c[p]);
    assert parts[0..] == parts && s[p := s[p]] == s && c[p := c[p]] == c;
  }

  lemma BufferFits(parts: seq<Block>, p: nat, start: seq<nat>, count: seq<nat>)
    requires |start| == |count| && p < |count|
    ensures |PartsBuffer(parts, p, start, count)| <= Product(count)
  {
    BufferLength(parts, p, start, count);
    var n := Available(parts, p, start[p], count[p]);
    ProductUpdate(count, p, n, count[p] - n);
    assert count[p := count[p]] == count;
  }

  lemma {:induction false} FirstDataLength(parts: seq<Block>, lens: seq<nat>, start: seq<nat>, count: seq<nat>)
    requires |lens| == |parts| && |start| == |count|
    ensures |FirstData(parts, lens, start, count)| <= Product(count)
  {
    if |parts| > 0 {
      SlabLength(start, count);
      if lens[0] == 0 {
        FirstDataLength(parts[1..], lens[1..], start, count);
      }
    }
  }

  // ----- strides -----

  /** Where the loop goes on when a file's part of a strided read has ended before pos. */
  function StrideCorrected(pos: int, stride: int): int {
    if stride > 0 && pos % stride > 0 then (pos / stride) * (stride + 1) else pos
  }

  lemma UnstridedCorrection(pos: int, stride: int)
    requires stride <= 1
    ensures StrideCorrected(pos, stride) == pos
  {
  }

  /** The first step of a strided read, which are start, start + stride and so on, that is not before pos. */
  ghost predicate IsNextStep(start: nat, pos: nat, stride: nat, next: int)
    requires stride > 0
  {
    (next - start) % stride == 0 && pos <= next < pos + stride
  }

  /** The correction goes on at the next step of the read exactly when pos and start are both
      multiples of the stride, or the number of multiples before pos happens to be the distance of
      the next step from the last of them. */
  lemma StrideCorrectionExactly(start: nat, pos: nat, stride: nat)
    requires stride > 0
    ensures var a, r, q := start % stride, pos % stride, pos / stride;
            IsNextStep(start, pos, stride, StrideCorrected(pos, stride))
            <==> if r == 0 then a == 0 else q == if a >= r then a else a + stride
  {
    var a, r, q := start % stride, pos % stride, pos / stride;
    assert pos == q * stride + r;
    var first := q * stride + if a >= r then a else a + stride;
    SameRemainder(start, first, q, stride);
    var next := StrideCorrected(pos, stride);
    if r > 0 {
      assert q * (stride + 1) == q * stride + q;
    }
    if IsNextStep(start, pos, stride, next) {
      NextStepUnique(next - start, first - start, stride);
    }
  }

  /** The position a behind the last multiple, or behind the next one, is a step of the read. */
  lemma SameRemainder(start: nat, first: nat, q: nat, stride: nat)
    requires stride > 0
    requires first == q * stride + start % stride || first == q * stride + start % stride + stride
    ensures (first - start) % stride == 0
  {
    var k := start / stride;
    assert start == k * stride + start % stride;
    assert (q - k) * stride == q * stride - k * stride;
    MultipleOf(q - k, stride);
    MultipleOf(q - k + 1, stride);
    assert (q - k + 1) * stride == (q - k) * stride + stride;
  }

  /** Two multiples less than a stride apart are the same. */
  lemma NextStepUnique(x: int, y: int, stride: nat)
    requires stride > 0 && x % stride == 0 && y % stride == 0 && y - stride < x < y + stride
    ensures x == y
  {
    var d := x / stride - y / stride;
    assert x == (x / stride) * stride && y == (y / stride) * stride;
    assert d * stride == x - y;
    ScaleSign(d, stride);
  }

  lemma MultipleOf(q: int, stride: nat)
    requires stride > 0
    ensures (q * stride) % stride == 0
  {
    var x := q * stride;
    assert x == (x / stride) * stride + x % stride;
    var d := x / stride - q;
    assert d * stride == -(x % stride);
    ScaleSign(d, stride);
  }

  // ----- what a collection offers to a read -----

  function LensOf(index: seq<AggElement>): (lens: seq<nat>)
    ensures |lens| == |index|
  {
    seq(|index|, i requires 0 <= i < |index| => index[i].arraylen)
  }

  /** A variable as the files of the index hold it. */
  function PartsOf(files: map<string, NcFile>, index: seq<AggElement>, varid: int): (parts: seq<Block>)
    ensures |parts| == |index|
  {
    seq(|index|, i requires 0 <= i < |index| =>
      if index[i].objPath in files then BlockOf(files[index[i].objPath], varid) else Block([0], []))
  }

  function AnswerOf(files: map<string, NcFile>, index: seq<AggElement>, p: int, inp: GetVarInp): Option<seq<int>> {
    if |inp.start| == |inp.count| && p < |inp.count|
    then Answer(PartsOf(files, index, inp.varid), LensOf(index), p, inp.start, inp.count)
    else None
  }

  /** Element i can be read at the window: its variable has the request's rank and the time length
      the index says, and the window is inside its other dimensions. */
  ghost predicate ElementReadable(files: map<string, NcFile>, index: seq<AggElement>, i: nat, p: int, inp: GetVarInp) {
    i < |index| && index[i].objPath in files
    && match BlockOf(files[index[i].objPath], inp.varid)
       case Block(shape, _) =>
         |shape| == |inp.start| == |inp.count| && (0 <= p < |shape| ==> shape[p] == index[i].arraylen)
         && forall j :: 0 <= j < |shape| && j != p ==> 0 <= inp.start[j] && inp.start[j] + inp.count[j] <= shape[j]
  }

  /** Element 0 names its variables uniquely, and time is at position p of the one asked for. */
  ghost predicate Described(inq: Inq, varid: int, p: int) {
    ValidInq(inq) && IsTimeInxInVar(inq, varid, p) && p >= -1 && 0 <= varid < |inq.vars|
    && forall i, j :: 0 <= i < j < |inq.vars| ==> inq.vars[i].name != inq.vars[j].name
  }

  /** Per-file reads succeed. */
  ghost predicate ReadsSucceed(files: map<string, NcFile>, index: seq<AggElement>, p: int, inp: GetVarInp) {
    inp in ReadableInputs(files, index, p)
  }

  ghost function ReadableInputs(files: map<string, NcFile>, index: seq<AggElement>, p: int): iset<GetVarInp> {
    iset inp: GetVarInp |
      |index| > 0 && inp.Valid(p) && index[0].objPath in files
      && Described(files[index[0].objPath].inq, inp.varid, p)
      && forall i: nat :: i < |index| ==> ElementReadable(files, index, i, p, inp)
  }

  /** The steps of element i, and the steps lo..hi, have one in common. */
  ghost predicate Overlaps(index: seq<AggElement>, i: nat, lo: int, hi: int) {
    i < |index| && SumLen(index[..i]) <= hi && lo < SumLen(index[..i]) + index[i].arraylen && index[i].arraylen > 0
  }

  lemma NextElementStart(index: seq<AggElement>, i: nat)
    requires i < |index|
    ensures SumLen(index[..i + 1]) == SumLen(index[..i]) + index[i].arraylen
  {
    assert index[..i + 1][..i] == index[..i];
  }

  lemma ReadableLens(files: map<string, NcFile>, index: seq<AggElement>, p: nat, inp: GetVarInp)
    requires ReadsSucceed(files, index, p, inp) && p < |inp.start|
    ensures HaveSteps(PartsOf(files, index, inp.varid), LensOf(index), p)
  {
    forall i | 0 <= i < |index|
      ensures PartsOf(files, index, inp.varid)[i].Steps(p) == LensOf(index)[i]
    {
      assert ElementReadable(files, index, i, p, inp);
    }
  }

  // ----- variables by name -----

  /** The first variable with this name, or -1. */
  function IdOfName(vars: seq<Var>, name: string): (id: int)
    ensures -1 <= id < |vars| && (id >= 0 ==> vars[id].name == name)
    ensures forall k :: 0 <= k < |vars| && (id == -1 || k < id) ==> vars[k].name != name
  {
    if |vars| == 0 then -1
    else
      var last := |vars| - 1;
      var before := IdOfName(vars[..last], name);
      if before >= 0 then before else if vars[last].name == name then last else -1
  }

  /** The variable of this name as the files of the index hold it. */
  function PartsByName(files: map<string, NcFile>, index: seq<AggElement>, name: string): (parts: seq<Block>)
    ensures |parts| == |index|
  {
    seq(|index|, i requires 0 <= i < |index| =>
      if index[i].objPath in files
      then BlockOf(files[index[i].objPath], IdOfName(files[index[i].objPath].inq.vars, name))
      else Block([0], []))
  }

  /** Element i has the variable of this name under the id. */
  ghost predicate HasNameAt(files: map<string, NcFile>, index: seq<AggElement>, i: nat, name: string, varid: int) {
    i < |index| && index[i].objPath in files && IdOfName(files[index[i].objPath].inq.vars, name) == varid
  }

  lemma {:induction false} BeforeIsSum(index: seq<AggElement>, i: nat)
    requires i <= |index|
    ensures StepsBefore(LensOf(index), i) == SumLen(index[..i])
  {
    if i > 0 {
      BeforeIsSum(index, i - 1);
      NextElementStart(index, i - 1);
      BeforeNext(LensOf(index), i - 1);
    }
  }

  lemma {:induction false} BeforeNext(lens: seq<nat>, i: nat)
    requires i < |lens|
    ensures StepsBefore(lens, i + 1) == StepsBefore(lens, i) + lens[i]
  {
    if i > 0 {
      BeforeNext(lens[1..], i - 1);
    }
  }

  lemma {:induction false} FirstDataAgrees(a: seq<Block>, b: seq<Block>, lens: seq<nat>, start: seq<nat>,
                                           count: seq<nat>)
    requires |start| == |count| && AgreeWhereTouched(a, b, lens, 0, 1)
    ensures FirstData(a, lens, start, count) == FirstData(b, lens, start, count)
    decreases |lens|
  {
    if |lens| > 0 {
      AgreeBehind(a, b, lens, 0, 1);
      if lens[0] == 0 {
        FirstDataAgrees(a[1..], b[1..], lens[1..], start, count);
      }
    }
  }

  /** Every file is read by the id the variable has in element 0. That is reading by name when the
      elements that have steps of the window have the variable under that id. */
  lemma ReadIsByName(files: map<string, NcFile>, index: seq<AggElement>, p: int, inp: GetVarInp, name: string)
    requires ReadsSucceed(files, index, p, inp) && p < |inp.start|
    requires p >= 0 ==> HaveSteps(PartsByName(files, index, name), LensOf(index), p)
    requires forall i: nat :: Overlaps(index, i, TimeStart(p, inp.start), TimeEnd(p, inp.start, inp.count)) ==>
               HasNameAt(files, index, i, name, inp.varid)
    ensures AnswerOf(files, index, p, inp)
         == Answer(PartsByName(files, index, name), LensOf(index), p, inp.start, inp.count)
  {
    var a, b, lens := PartsOf(files, index, inp.varid), PartsByName(files, index, name), LensOf(index);
    var lo, n := TimeStart(p, inp.start), TimeEnd(p, inp.start, inp.count) - TimeStart(p, inp.start) + 1;
    if lo >= 0 && n >= 0 {
      forall i: nat | TouchedAt(lens, lo, n, i) ensures a[i] == b[i] {
        BeforeIsSum(index, i);
        assert Overlaps(index, i, lo, lo + n - 1);
        assert HasNameAt(files, index, i, name, inp.varid);
      }
    }
    if p < 0 {
      FirstDataAgrees(a, b, lens, Clamp(inp.start), Clamp(inp.count));
    } else if lo >= 0 {
      ReadableLens(files, index, p, inp);
      OnlyTouchedMatter(a, b, lens, p, Clamp(inp.start), Clamp(inp.count));
    }
  }

  // ----- which elements a read opens -----

  /** The parts of a session's state that decide what a read opens: whether element 0 is open, which other
      element is (0 or less for none), and whether element 0 has been inquired. */
  datatype Cache = Cache(firstOpen: bool, other: int, inquired: bool)

  ghost predicate CanOpen(files: map<string, NcFile>, index: seq<AggElement>, i: nat, env: Env) {
    i < |index| && index[i].objPath in files && index[i].objPath !in env.openFails
  }

  ghost predicate Unavailable(files: map<string, NcFile>, index: seq<AggElement>, i: nat, env: Env) {
    i < |index| && (!CanOpen(files, index, i, env) || index[i].objPath in env.inqFails)
  }

  /** Element i has steps of the window; none has when the window starts before step 0. */
  ghost predicate Touches(index: seq<AggElement>, i: nat, p: int, inp: GetVarInp) {
    p < |inp.start| == |inp.count| && TimeStart(p, inp.start) >= 0
    && Overlaps(index, i, TimeStart(p, inp.start), TimeEnd(p, inp.start, inp.count))
  }

  /** Some element behind the first and before i has steps of the window. */
  ghost predicate TouchedBefore(index: seq<AggElement>, i: nat, p: int, inp: GetVarInp) {
    exists j: nat :: 0 < j < i && Touches(index, j, p, inp)
  }

  /** A read that finds element other open has to open element i: it has steps of the window, and it is
      neither the first nor the open one, or another has been opened in between. */
  ghost predicate MustOpen(index: seq<AggElement>, i: nat, other: int, p: int, inp: GetVarInp) {
    i > 0 && Touches(index, i, p, inp) && (i == other ==> TouchedBefore(index, i, p, inp))
  }

  /** The element open after the elements before i have been read: the last that has been needed, or
      else the one that was open before. */
  ghost predicate LastOpen(index: seq<AggElement>, i: nat, other: int, p: int, inp: GetVarInp, k: int) {
    if TouchedBefore(index, i, p, inp)
    then 0 < k < i && Touches(index, k, p, inp) && forall j: nat :: k < j < i ==> !Touches(index, j, p, inp)
    else k == other
  }

  /** Every element before i that has to be opened can be opened and inquired. */
  ghost predicate NoneMissing(files: map<string, NcFile>, index: seq<AggElement>, i: nat, other: int, p: int,
                              inp: GetVarInp, env: Env)
  {
    forall j: nat :: j < i && MustOpen(index, j, other, p, inp) ==> !Unavailable(files, index, j, env)
  }

  /** The error of a call, if any. */
  function FailureOf<T>(r: Result<T>): Option<Error> {
    match r case Ok(_) => None case Err(e) => Some(e)
  }

  /** Element i is the first that has to be opened and cannot be opened or inquired; it stays open when
      only the inquiry fails. */
  ghost predicate StopsAt(files: map<string, NcFile>, index: seq<AggElement>, i: nat, other: int, p: int,
                          inp: GetVarInp, env: Env, k: int, failure: Option<Error>)
  {
    NoneMissing(files, index, i, other, p, inp, env) && MustOpen(index, i, other, p, inp)
    && Unavailable(files, index, i, env)
    && if CanOpen(files, index, i, env) then k == i && failure == Some(NETCDF_INQ_ERR)
       else LastOpen(index, i, other, p, inp, k) && failure == Some(NETCDF_OPEN_ERR)
  }

  /** The elements before i have been read, and element k is open after them. */
  ghost predicate ReadTo(files: map<string, NcFile>, index: seq<AggElement>, i: nat, other: int, p: int,
                         inp: GetVarInp, env: Env, k: int)
  {
    k in OpenAfter(files, index, i, other, p, inp, env)
  }

  ghost function OpenAfter(files: map<string, NcFile>, index: seq<AggElement>, i: nat, other: int, p: int,
                           inp: GetVarInp, env: Env): iset<int>
  {
    iset k: int | NoneMissing(files, index, i, other, p, inp, env) && LastOpen(index, i, other, p, inp, k)
  }

  /** The read stops at an element that is missing, and element k is open by then. */
  ghost predicate Stopped(files: map<string, NcFile>, index: seq<AggElement>, other: int, p: int, inp: GetVarInp,
                          env: Env, k: int, failure: Option<Error>)
  {
    exists i: nat :: i < |index| && StopsAt(files, index, i, other, p, inp, env, k, failure)
  }

  /** The request is one the first checks pass: the session is open, element 0 has been inquired or can
      be, and something is asked for in every dimension. */
  ghost predicate Accepted(index: seq<AggElement>, p: int, inp: GetVarInp, env: Env, c: Cache) {
    |index| > 0 && c.firstOpen && (c.inquired || index[0].objPath !in env.inqFails)
    && p < |inp.start| && AllPositive(inp.count)
  }

  /** A read from this state succeeds. */
  ghost predicate CanRead(files: map<string, NcFile>, index: seq<AggElement>, p: int, inp: GetVarInp, env: Env,
                          c: Cache)
  {
    Accepted(index, p, inp, env, c) && NoneMissing(files, index, |index|, c.other, p, inp, env)
  }

  /** The error a read reports, if any, and the state it leaves behind. */
  ghost predicate ReadLeaves(files: map<string, NcFile>, index: seq<AggElement>, p: int, inp: GetVarInp, env: Env,
                             c: Cache, failure: Option<Error>, c': Cache)
  {
    c'.firstOpen == c.firstOpen && |index| > 0
    && c'.inquired == (c.inquired || (c.firstOpen && index[0].objPath !in env.inqFails))
    && if !Accepted(index, p, inp, env, c) then c'.other == c.other && failure == Refusal(index, p, inp, env, c)
       else if NoneMissing(files, index, |index|, c.other, p, inp, env)
       then LastOpen(index, |index|, c.other, p, inp, c'.other) && failure == None
       else Stopped(files, index, c.other, p, inp, env, c'.other, failure)
  }

  /** The error of the first check a request fails. */
  function Refusal(index: seq<AggElement>, p: int, inp: GetVarInp, env: Env, c: Cache): Option<Error> {
    if !c.firstOpen then Some(NETCDF_AGG_ELE_FILE_NOT_OPENED)
    else if !c.inquired && |index| > 0 && index[0].objPath in env.inqFails then Some(NETCDF_INQ_ERR)
    else if p >= |inp.start| then Some(NETCDF_DIM_MISMATCH_ERR)
    else Some(NETCDF_VAR_COUNT_OUT_OF_RANGE)
  }

  /** What turning to element i does when element was is open: it is opened and inquired unless it is the
      first or open already. */
  ghost predicate TurnsTo(files: map<string, NcFile>, index: seq<AggElement>, i: nat, env: Env, was: int,
                          failure: Option<Error>, now: int)
  {
    failure == (if i == 0 || i == was || !Unavailable(files, index, i, env) then None
                else if CanOpen(files, index, i, env) then Some(NETCDF_INQ_ERR) else Some(NETCDF_OPEN_ERR))
    && now == if i == 0 || failure == Some(NETCDF_OPEN_ERR) then was else i
  }

  lemma TurnsWhenTouched(files: map<string, NcFile>, index: seq<AggElement>, i: nat, other: int, p: int,
                         inp: GetVarInp, env: Env, was: int, failure: Option<Error>, now: int)
    requires ReadTo(files, index, i, other, p, inp, env, was) && TurnsTo(files, index, i, env, was, failure, now)
    requires Touches(index, i, p, inp)
    ensures failure.None? ==> ReadTo(files, index, i + 1, other, p, inp, env, now)
    ensures failure.Some? ==> Stopped(files, index, other, p, inp, env, now, failure)
  {
    if i > 0 {
      assert TouchedBefore(index, i + 1, p, inp);
    } else {
      assert !TouchedBefore(index, 1, p, inp);
    }
    assert NoneMissing(files, index, i, other, p, inp, env) && LastOpen(index, i, other, p, inp, was);
    if failure.None? {
      assert NoneMissing(files, index, i + 1, other, p, inp, env) && LastOpen(index, i + 1, other, p, inp, now);
    } else {
      assert StopsAt(files, index, i, other, p, inp, env, now, failure);
    }
  }

  lemma NothingReadYet(files: map<string, NcFile>, index: seq<AggElement>, p: int, inp: GetVarInp, env: Env, was: int)
    ensures ReadTo(files, index, 0, was, p, inp, env, was)
  {
    assert NoneMissing(files, index, 0, was, p, inp, env) && LastOpen(index, 0, was, p, inp, was);
  }

  lemma PassedUntouched(files: map<string, NcFile>, index: seq<AggElement>, i: nat, n: nat, other: int, p: int,
                        inp: GetVarInp, env: Env, was: int)
    requires ReadTo(files, index, i, other, p, inp, env, was) && i <= n
    requires forall j: nat :: i <= j < n ==> !Touches(index, j, p, inp)
    ensures ReadTo(files, index, n, other, p, inp, env, was)
  {
    assert TouchedBefore(index, n, p, inp) <==> TouchedBefore(index, i, p, inp);
    assert NoneMissing(files, index, n, other, p, inp, env) && LastOpen(index, n, other, p, inp, was);
  }

  // ----- where the loop over the elements is -----

  /** The next step to be read is the first of the window that is not before the element's start. */
  ghost predicate AtElement(index: seq<AggElement>, i: nat, p: int, inp: GetVarInp, eleStart: int, curPos: int,
                            timeEnd0: int)
  {
    i <= |index| && p < |inp.start| == |inp.count| && eleStart == SumLen(index[..i])
    && timeEnd0 == TimeEnd(p, inp.start, inp.count)
    && if curPos > timeEnd0 then eleStart > timeEnd0
       else if p >= 0 && 0 <= TimeStart(p, inp.start) < eleStart then curPos == eleStart
       else curPos == TimeStart(p, inp.start)
  }

  /** The loop finds element i in range exactly when it has steps of the window. */
  lemma InRangeExactly(index: seq<AggElement>, i: nat, p: int, inp: GetVarInp, eleStart: int, curPos: int,
                       timeEnd0: int)
    requires AtElement(index, i, p, inp, eleStart, curPos, timeEnd0) && curPos <= timeEnd0 && i < |index|
    ensures eleStart <= curPos <= eleStart + index[i].arraylen - 1 <==> Touches(index, i, p, inp)
  {
  }

  lemma AtNextElement(index: seq<AggElement>, i: nat, p: int, inp: GetVarInp, eleStart: int, curPos: int,
                      timeEnd0: int)
    requires AtElement(index, i, p, inp, eleStart, curPos, timeEnd0) && curPos <= timeEnd0 && i < |index|
    ensures var eleEnd := eleStart + index[i].arraylen - 1;
            AtElement(index, i + 1, p, inp, eleEnd + 1, NextPos(p, inp.count, eleStart, eleEnd, curPos, timeEnd0),
                      timeEnd0)
  {
    NextElementStart(index, i);
  }

  /** After element i, which is in range. */
  lemma AfterElement(files: map<string, NcFile>, index: seq<AggElement>, i: nat, other: int, p: int, inp: GetVarInp,
                     env: Env, was: int, failure: Option<Error>, now: int, eleStart: int, curPos: int, timeEnd0: int)
    requires i < |index| && eleStart <= curPos <= eleStart + index[i].arraylen - 1 && curPos <= timeEnd0
    requires AtElement(index, i, p, inp, eleStart, curPos, timeEnd0)
    requires ReadTo(files, index, i, other, p, inp, env, was) && TurnsTo(files, index, i, env, was, failure, now)
    ensures var eleEnd := eleStart + index[i].arraylen - 1;
            AtElement(index, i + 1, p, inp, eleEnd + 1, NextPos(p, inp.count, eleStart, eleEnd, curPos, timeEnd0),
                      timeEnd0)
    ensures if failure.None? then ReadTo(files, index, i + 1, other, p, inp, env, now)
            else Stopped(files, index, other, p, inp, env, now, failure)
  {
    InRangeExactly(index, i, p, inp, eleStart, curPos, timeEnd0);
    AtNextElement(index, i, p, inp, eleStart, curPos, timeEnd0);
    TurnsWhenTouched(files, index, i, other, p, inp, env, was, failure, now);
  }

  lemma {:induction false} StartsAscend(index: seq<AggElement>, i: nat, j: nat)
    requires i <= j <= |index|
    ensures SumLen(index[..i]) <= SumLen(index[..j])
  {
    if i < j {
      StartsAscend(index, i, j - 1);
      NextElementStart(index, j - 1);
    }
  }

  /** Behind the window no element has steps of it. */
  lemma UntouchedBehind(index: seq<AggElement>, i: nat, p: int, inp: GetVarInp, eleStart: int, curPos: int,
                        timeEnd0: int)
    requires AtElement(index, i, p, inp, eleStart, curPos, timeEnd0) && (curPos > timeEnd0 || i == |index|)
    ensures forall j: nat :: i <= j < |index| ==> !Touches(index, j, p, inp)
  {
    forall j: nat | i <= j < |index| ensures !Touches(index, j, p, inp) {
      StartsAscend(index, i, j);
    }
  }

  lemma ReadToEnd(files: map<string, NcFile>, index: seq<AggElement>, i: nat, other: int, p: int, inp: GetVarInp,
                  env: Env, was: int, eleStart: int, curPos: int, timeEnd0: int)
    requires ReadTo(files, index, i, other, p, inp, env, was)
    requires AtElement(index, i, p, inp, eleStart, curPos, timeEnd0) && (curPos > timeEnd0 || i == |index|)
    ensures ReadTo(files, index, |index|, other, p, inp, env, was)
  {
    UntouchedBehind(index, i, p, inp, eleStart, curPos, timeEnd0);
    PassedUntouched(files, index, i, |index|, other, p, inp, env, was);
  }

  // ----- the session -----

  /** Which elements of a session are open. */
  datatype OpenFiles = NoFile | FirstFile | FirstAndOther(i: int) | Inconsistent

  class Session {
    const files: map<string, NcFile>
    const index: seq<AggElement>
    /** Descriptors in use, with the object each one is open on. */
    var descriptors: map<int, string>
    var objNcid0: int
    var objNcid: int
    var aggElementInx: int
    var ncInqOut0: Option<Inq>
    var ncInqOut: Option<Inq>

    constructor (files: map<string, NcFile>, index: seq<AggElement>)
      requires |index| > 0
      ensures Valid() && objNcid0 == -1 && this.files == files && this.index == index
    {
      this.files, this.index := files, index;
      descriptors := map[];
      objNcid0, objNcid, aggElementInx := -1, -1, 0;
      ncInqOut0, ncInqOut := None, None;
    }

    ghost function State(): Cache
      reads this
    {
      Cache(objNcid0 != -1, aggElementInx, ncInqOut0.Some?)
    }

    ghost predicate OpenOn(fd: int, i: int)
      reads this
    {
      fd >= 0 && fd in descriptors && 0 <= i < |index| && descriptors[fd] == index[i].objPath
      && index[i].objPath in files
    }

    /** Open descriptors are exactly element 0's and, if another element has been opened, that
        element's; a cached inquiry belongs to the file it is paired with. */
    ghost predicate Valid()
      reads this
    {
      Opened() != Inconsistent
    }

    ghost function Opened(): OpenFiles
      reads this
    {
      if !Sound() then Inconsistent
      else if objNcid0 == -1 then NoFile
      else if aggElementInx == 0 then FirstFile
      else FirstAndOther(aggElementInx)
    }

    ghost predicate Sound()
      reads this
    {
      match ncInqOut0
      case None => DescriptorsMatch()
      case Some(inq) => DescriptorsMatch() && OpenOn(objNcid0, 0) && inq == files[index[0].objPath].inq
    }

    /** Open on element 0, whose inquiry has been made. */
    ghost predicate Serving(fd: int, inqOut0: Option<Inq>)
      reads this
    {
      match inqOut0
      case Some(inq) => Valid() && objNcid0 == fd != -1 && ncInqOut0 == inqOut0
      case None => false
    }

    ghost predicate DescriptorsMatch()
      reads this
    {
      match ncInqOut
      case Some(inq) => OtherOpen() && inq == files[index[aggElementInx].objPath].inq
      case None => if objNcid0 == -1 then NoneOpen() else if aggElementInx == 0 then OnlyFirstOpen() else OtherOpen()
    }

    ghost predicate NoneOpen()
      reads this
    {
      |index| > 0 && descriptors == map[] && objNcid0 == -1 && objNcid == -1 && aggElementInx <= 0
    }

    ghost predicate OnlyFirstOpen()
      reads this
    {
      OpenOn(objNcid0, 0) && aggElementInx == 0 && descriptors.Keys == {objNcid0}
    }

    ghost predicate OtherOpen()
      reads this
    {
      OpenOn(objNcid0, 0) && aggElementInx > 0 && OpenOn(objNcid, aggElementInx) && objNcid != objNcid0
      && descriptors.Keys == {objNcid0, objNcid}
    }

    /** _rsNcOpenDataObj */
    method OpenDataObj(path: string, env: Env) returns (r: Result<int>)
      modifies this`descriptors
      ensures r.Ok? <==> path in files && path !in env.openFails
      ensures r.Ok? ==> r.value >= 3 && r.value !in old(descriptors) && descriptors == old(descriptors)[r.value := path]
      ensures r.Ok? ==> forall k :: 3 <= k < r.value ==> k in old(descriptors)
      ensures r.Err? ==> descriptors == old(descriptors) && r.error == NETCDF_OPEN_ERR
    {
      if path !in files || path in env.openFails {
        return Err(NETCDF_OPEN_ERR);
      }
      var fd := FreshDescriptor(descriptors.Keys, 3);
      LowestIsFree(descriptors.Keys, 3);
      descriptors := descriptors[fd := path];
      r := Ok(fd);
    }

    method CloseDataObj(fd: int)
      modifies this`descriptors
      ensures descriptors == old(descriptors) - {fd}
    {
      descriptors := descriptors - {fd};
    }

    /** openAggrFile */
    method OpenAggrFile(i: int, env: Env) returns (status: Result<()>)
      requires Valid() && 0 <= i < |index| && (i == 0 <==> objNcid0 == -1) && (i == 0 ==> aggElementInx == 0)
      modifies this
      ensures Valid()
      ensures status.Ok? ==> objNcid0 != -1 && aggElementInx == i && (i > 0 ==> objNcid0 == old(objNcid0))
      ensures status.Err? <==> !(i > 0 && i == old(aggElementInx))
                               && (index[i].objPath !in files || index[i].objPath in env.openFails)
      ensures status.Err? ==> unchanged(this) && status.error == NETCDF_OPEN_ERR
      ensures ncInqOut0 == old(ncInqOut0)
    {
      if i > 0 && i == aggElementInx {
        return Ok(());
      }
      var ncid := OpenDataObj(index[i].objPath, env);
      if ncid.Err? {
        return Err(ncid.error);
      }
      if i > 0 && aggElementInx > 0 {
        CloseDataObj(objNcid);
        ncInqOut := None;
      }
      if i == 0 {
        objNcid0 := ncid.value;
      } else {
        objNcid := ncid.value;
        aggElementInx := i;
      }
      status := Ok(());
    }

    /** _rsNcOpenColl, once the index has been read */
    method Open(env: Env) returns (status: Result<()>)
      requires Valid() && objNcid0 == -1
      modifies this
      ensures Valid()
      ensures status.Ok? <==> objNcid0 != -1
      ensures status.Err? <==> index[0].objPath !in files || index[0].objPath in env.openFails
      ensures State() == Cache(status.Ok?, 0, false)
    {
      aggElementInx := 0;
      status := OpenAggrFile(0, env);
    }

    /** ncCloseColl */
    method Close()
      requires Valid()
      modifies this
      ensures Valid() && descriptors == map[] && objNcid0 == -1 && State() == Cache(false, -1, false)
    {
      if aggElementInx > 0 && objNcid >= 0 {
        CloseDataObj(objNcid);
      }
      if objNcid0 >= 0 {
        CloseDataObj(objNcid0);
      }
      assert descriptors.Keys == {};
      aggElementInx, objNcid, objNcid0 := -1, -1, -1;
      ncInqOut0, ncInqOut := None, None;
    }

    method InqDataObj(fd: int, env: Env) returns (r: Result<Inq>)
      requires fd in descriptors && descriptors[fd] in files
      ensures r.Ok? <==> descriptors[fd] !in env.inqFails
      ensures r.Err? ==> r.error == NETCDF_INQ_ERR
      ensures r.Ok? ==> r.value == files[descriptors[fd]].inq
    {
      if descriptors[fd] in env.inqFails {
        return Err(NETCDF_INQ_ERR);
      }
      r := Ok(files[descriptors[fd]].inq);
    }

    /** _rsNcInqColl: element 0's inquiry with the length of the whole aggregation as time length. */
    method InqColl(env: Env) returns (r: Result<Inq>)
      requires Valid() && forall p :: p in files ==> files[p].Valid()
      ensures r.Ok? <==> objNcid0 != -1 && index[0].objPath !in env.inqFails
      ensures r.Err? ==> r.error == if objNcid0 == -1 then NETCDF_AGG_ELE_FILE_NOT_OPENED else NETCDF_INQ_ERR
      ensures r.Ok? ==>
                var inq := files[index[0].objPath].inq;
                r.value.vars == inq.vars && |r.value.dims| == |inq.dims|
                && forall d :: 0 <= d < |inq.dims| ==>
                     r.value.dims[d] == if IsTimeDim(inq, d) then Dim(inq.dims[d].name, SumLen(index)) else inq.dims[d]
    {
      if objNcid0 == -1 {
        return Err(NETCDF_AGG_ELE_FILE_NOT_OPENED);
      }
      r := InqDataObj(objNcid0, env);
      if r.Ok? {
        var d := FindTimeDim(r.value);
        if d >= 0 {
          var arrayLen := SumAggElementArraylen(index, |index|);
          r := Ok(r.value.(dims := r.value.dims[d := Dim(r.value.dims[d].name, arrayLen.value)]));
        }
      }
    }

    // ----- reads -----

    /** Opens element i, unless it is open already, and inquires it. */
    method SelectElement(i: nat, env: Env) returns (status: Result<()>)
      requires Valid() && objNcid0 != -1 && i < |index|
      modifies this
      ensures Valid() && objNcid0 == old(objNcid0) && ncInqOut0 == old(ncInqOut0)
      ensures TurnsTo(files, index, i, env, old(aggElementInx), FailureOf(status), aggElementInx)
    {
      if i != 0 && i != aggElementInx {
        status := OpenAggrFile(i, env);
        if status.Err? {
          return;
        }
        var inq := InqDataObj(objNcid, env);
        if inq.Err? {
          return Err(inq.error);
        }
        ncInqOut := Some(inq.value);
      }
      status := Ok(());
    }

    /** The descriptor and the id element i is read by. */
    method FindPart(i: nat, ghost p: int, inp: GetVarInp) returns (ncid: int, varid: int)
      requires Serving(objNcid0, ncInqOut0) && ReadsSucceed(files, index, p, inp)
      requires i < |index| && (i == 0 || i == aggElementInx)
      ensures OpenOn(ncid, i) && varid == inp.varid
    {
      ncid, varid := objNcid0, inp.varid;
      if i != 0 {
        ncid := objNcid;
        var found := LookUpVarId(ncInqOut0.value, inp.varid);
        varid := found.value;
      }
    }

    /** The part of the window that element i, which is in range, holds, and the step to go on with. */
    method ReadElement(i: nat, p: int, inp: GetVarInp, eleStart: int, eleEnd: int, curPos: int, timeEnd0: int, env: Env)
      returns (r: Result<seq<int>>, next: int)
      requires Serving(objNcid0, ncInqOut0) && ReadsSucceed(files, index, p, inp)
      requires i < |index| && eleStart <= curPos <= eleEnd && p < |inp.start|
      modifies this
      ensures Serving(old(objNcid0), old(ncInqOut0))
      ensures TurnsTo(files, index, i, env, old(aggElementInx), FailureOf(r), aggElementInx)
      ensures r.Ok? ==> r.value == DataOf(files, index, i, p, inp, eleStart, eleEnd, curPos, timeEnd0)
      ensures next == NextPos(p, inp.count, eleStart, eleEnd, curPos, timeEnd0)
    {
      var start, count := inp.start, inp.count;
      next := curPos;
      if p >= 0 {
        start := start[p := curPos - eleStart];
        count := count[p := if timeEnd0 >= eleEnd then eleEnd - curPos + 1 else timeEnd0 - curPos + 1];
        next := StrideCorrected(curPos + count[p], inp.stride[p]);
        UnstridedCorrection(curPos + count[p], inp.stride[p]);
      }
      var status := SelectElement(i, env);
      if status.Err? {
        return Err(status.error), next;
      }
      var ncid, varid := FindPart(i, p, inp);
      r := Ok(GetVara(One(BlockOf(files[descriptors[ncid]], varid)), Clamp(start), Clamp(count)));
    }

    /** Reads the part of element i, which is in range, and puts it behind what has been read before. */
    method CopyElement(i: nat, p: int, inp: GetVarInp, eleStart: int, eleEnd: int, curPos: int, timeEnd0: int, env: Env,
                       buf: array<int>, curLen: nat)
      returns (status: Result<()>, newPos: int, newLen: nat)
      requires Serving(objNcid0, ncInqOut0) && ReadsSucceed(files, index, p, inp)
      requires i < |index| && eleEnd == eleStart + index[i].arraylen - 1 && eleStart <= curPos <= eleEnd
      requires curPos <= timeEnd0 && CopiedTo(files, index, i, p, inp, eleStart, curPos, timeEnd0, buf, curLen)
      modifies this, buf
      ensures Serving(old(objNcid0), old(ncInqOut0))
      ensures TurnsTo(files, index, i, env, old(aggElementInx), FailureOf(status), aggElementInx)
      ensures newPos == NextPos(p, inp.count, eleStart, eleEnd, curPos, timeEnd0)
      ensures status.Ok? ==> CopiedTo(files, index, i + 1, p, inp, eleEnd + 1, newPos, timeEnd0, buf, newLen)
    {
      newLen := curLen;
      var data, next := ReadElement(i, p, inp, eleStart, eleEnd, curPos, timeEnd0, env);
      newPos := next;
      if data.Err? {
        return Err(data.error), newPos, newLen;
      }
      newLen := PutElement(files, index, i, p, inp, eleStart, eleEnd, curPos, timeEnd0, buf, curLen, data.value);
      status := Ok(());
    }

    /** The loop over the elements is at element i: all values before it are in the buffer, and the element
        is open that was needed last, or other. */
    ghost predicate Reading(i: nat, p: int, inp: GetVarInp, eleStart: int, curPos: int, timeEnd0: int, env: Env,
                            buf: array<int>, curLen: nat, other: int)
      reads this, buf
    {
      CopiedTo(files, index, i, p, inp, eleStart, curPos, timeEnd0, buf, curLen)
      && AtElement(index, i, p, inp, eleStart, curPos, timeEnd0)
      && ReadTo(files, index, i, other, p, inp, env, aggElementInx)
    }

    /** An element that is not in range is passed over. */
    lemma PassedBy(i: nat, p: int, inp: GetVarInp, eleStart: int, eleEnd: int, curPos: int, timeEnd0: int, env: Env,
                   buf: array<int>, curLen: nat, other: int)
      requires i < |index| && eleEnd == eleStart + index[i].arraylen - 1 && curPos <= timeEnd0
      requires Reading(i, p, inp, eleStart, curPos, timeEnd0, env, buf, curLen, other)
      requires !(eleStart <= curPos <= eleEnd)
      ensures Reading(i + 1, p, inp, eleEnd + 1, curPos, timeEnd0, env, buf, curLen, other)
    {
      InRangeExactly(index, i, p, inp, eleStart, curPos, timeEnd0);
      AtNextElement(index, i, p, inp, eleStart, curPos, timeEnd0);
      PassedUntouched(files, index, i, i + 1, other, p, inp, env, aggElementInx);
      NothingCopied(PartsOf(files, index, inp.varid), LensOf(index), i, p, inp, eleStart, curPos, timeEnd0, buf,
          curLen);
    }

    lemma ReadingDone(i: nat, p: int, inp: GetVarInp, eleStart: int, curPos: int, timeEnd0: int, env: Env,
                      buf: array<int>, curLen: nat, other: int)
      requires Reading(i, p, inp, eleStart, curPos, timeEnd0, env, buf, curLen, other)
      requires curPos > timeEnd0 || i == |index|
      ensures AnswerOf(files, index, p, inp) == if curLen > 0 then Some(buf[..]) else None
      ensures ReadTo(files, index, |index|, other, p, inp, env, aggElementInx)
    {
      ReadToEnd(files, index, i, other, p, inp, env, aggElementInx, eleStart, curPos, timeEnd0);
      AllCopied(PartsOf(files, index, inp.varid), LensOf(index), i, p, inp, eleStart, curPos, timeEnd0, buf, curLen);
    }

    /** One turn of the loop over the elements: copies the element's part when it is in range. */
    method TakeElement(i: nat, p: int, inp: GetVarInp, eleStart: int, eleEnd: int, curPos: int, timeEnd0: int, env: Env,
                       buf: array<int>, curLen: nat, ghost other: int)
      returns (status: Result<()>, newPos: int, newLen: nat)
      requires Serving(objNcid0, ncInqOut0) && ReadsSucceed(files, index, p, inp)
      requires i < |index| && eleEnd == eleStart + index[i].arraylen - 1 && curPos <= timeEnd0
      requires Reading(i, p, inp, eleStart, curPos, timeEnd0, env, buf, curLen, other)
      modifies this, buf
      ensures Serving(old(objNcid0), old(ncInqOut0))
      ensures status.Err? ==> Stopped(files, index, other, p, inp, env, aggElementInx, FailureOf(status))
      ensures status.Ok? ==> Reading(i + 1, p, inp, eleEnd + 1, newPos, timeEnd0, env, buf, newLen, other)
    {
      status, newPos, newLen := Ok(()), curPos, curLen;
      if eleStart <= curPos <= eleEnd {
        status, newPos, newLen := CopyElement(i, p, inp, eleStart, eleEnd, curPos, timeEnd0, env, buf, curLen);
        AfterElement(files, index, i, other, p, inp, env, old(aggElementInx), FailureOf(status), aggElementInx,
                     eleStart, curPos, timeEnd0);
      } else {
        PassedBy(i, p, inp, eleStart, eleEnd, curPos, timeEnd0, env, buf, curLen, other);
      }
    }

    /** The inquiry of element 0, made once. */
    method InquireFirst(env: Env) returns (status: Result<()>)
      requires Valid() && objNcid0 != -1
      modifies this`ncInqOut0
      ensures status.Ok? <==> old(ncInqOut0).Some? || index[0].objPath !in env.inqFails
      ensures status.Err? ==> Valid() && unchanged(this) && status.error == NETCDF_INQ_ERR
      ensures status.Ok? ==> Serving(objNcid0, Some(files[index[0].objPath].inq))
    {
      if ncInqOut0 == None {
        var inq := InqDataObj(objNcid0, env);
        if inq.Err? {
          return Err(inq.error);
        }
        ncInqOut0 := Some(inq.value);
      }
      status := Ok(());
    }

    /** _rsNcGetVarsByTypeForColl. The answer depends on the files, the index and the request only, not
        on which elements earlier reads have left open. It is given exactly when the request passes the
        first checks and every element can be opened and inquired that has steps of the window and is not
        open already, and never fails for want of room in the buffer. */
    method GetVarsByType(inp: GetVarInp, env: Env, ghost p: int) returns (r: Result<Option<seq<int>>>)
      requires Valid() && ReadsSucceed(files, index, p, inp)
      modifies this
      ensures Valid() && objNcid0 == old(objNcid0)
      ensures r.Ok? <==> CanRead(files, index, p, inp, env, old(State()))
      ensures r.Ok? ==> r.value == AnswerOf(files, index, p, inp)
      ensures ReadLeaves(files, index, p, inp, env, old(State()), FailureOf(r), State())
    {
      if objNcid0 == -1 {
        return Err(NETCDF_AGG_ELE_FILE_NOT_OPENED);
      }
      var inquired := InquireFirst(env);
      if inquired.Err? {
        return Err(inquired.error);
      }
      var timeInxInVar0 := GetTimeInxInVar(ncInqOut0.value, inp.varid);
      TimeInxUnique(ncInqOut0.value, inp.varid, p, timeInxInVar0);
      assert ElementReadable(files, index, 0, p, inp);
      if timeInxInVar0 >= |inp.start| {
        return Err(NETCDF_DIM_MISMATCH_ERR);
      }
      var len, _ := GetSizeForGetVars(inp.count, inp.stride);
      if len.Err? {
        return Err(len.error);
      }
      assert Clamp(inp.count) == inp.count;
      StridedFitsExactly(Clamp(inp.count), inp.stride);
      r := ReadAllElements(inp, timeInxInVar0, len.value, env);
    }

    /** The loop of _rsNcGetVarsByTypeForColl. */
    method ReadAllElements(inp: GetVarInp, p: int, len: nat, env: Env) returns (r: Result<Option<seq<int>>>)
      requires Serving(objNcid0, ncInqOut0) && ReadsSucceed(files, index, p, inp)
      requires AllPositive(inp.count) && p < |inp.count| && len == Product(Clamp(inp.count))
      modifies this
      ensures Serving(old(objNcid0), old(ncInqOut0))
      ensures r.Ok? ==> r.value == AnswerOf(files, index, p, inp)
      ensures r.Ok? ==> ReadTo(files, index, |index|, old(aggElementInx), p, inp, env, aggElementInx)
      ensures r.Err? ==> Stopped(files, index, old(aggElementInx), p, inp, env, aggElementInx, FailureOf(r))
    {
      var timeStart0, timeEnd0 := TimeStart(p, inp.start), TimeEnd(p, inp.start, inp.count);
      var buf := new int[len](_ => ZERO);
      CopiedFirst(files, index, p, inp, buf);
      NothingReadYet(files, index, p, inp, env, aggElementInx);
      var status, curLen := CopyElements(inp, p, timeStart0, timeEnd0, env, buf);
      if status.Err? {
        return Err(status.error);
      }
      r := Ok(if curLen > 0 then Some(buf[..]) else None);
    }

    /** The loop over the elements. */
    method CopyElements(inp: GetVarInp, p: int, timeStart0: int, timeEnd0: int, env: Env, buf: array<int>)
      returns (status: Result<()>, curLen: nat)
      requires Serving(objNcid0, ncInqOut0) && ReadsSucceed(files, index, p, inp) && timeStart0 <= timeEnd0
      requires Reading(0, p, inp, 0, timeStart0, timeEnd0, env, buf, 0, aggElementInx)
      modifies this, buf
      ensures Serving(old(objNcid0), old(ncInqOut0))
      ensures status.Ok? ==> AnswerOf(files, index, p, inp) == if curLen > 0 then Some(buf[..]) else None
      ensures status.Ok? ==> ReadTo(files, index, |index|, old(aggElementInx), p, inp, env, aggElementInx)
      ensures status.Err? ==> Stopped(files, index, old(aggElementInx), p, inp, env, aggElementInx, FailureOf(status))
    {
      var curPos, eleStart := timeStart0, 0;
      curLen := 0;
      var i := 0;
      while i < |index|
        invariant 0 <= i <= |index| && Serving(old(objNcid0), old(ncInqOut0)) && curPos <= timeEnd0
        invariant Reading(i, p, inp, eleStart, curPos, timeEnd0, env, buf, curLen, old(aggElementInx))
      {
        var eleEnd := eleStart + index[i].arraylen - 1;
        status, curPos, curLen :=
          TakeElement(i, p, inp, eleStart, eleEnd, curPos, timeEnd0, env, buf, curLen, old(aggElementInx));
        if status.Err? {
          return;
        }
        eleStart := eleEnd + 1;
        i := i + 1;
        if curPos > timeEnd0 {
          break;
        }
      }
      ReadingDone(i, p, inp, eleStart, curPos, timeEnd0, env, buf, curLen, old(aggElementInx));
      status := Ok(());
    }
  }

  // ----- whole sessions -----

  datatype Call = OpenCall(env: Env) | InqCall(env: Env) | ReadCall(inp: GetVarInp, env: Env) | CloseCall

  ghost predicate Servable(files: map<string, NcFile>, index: seq<AggElement>, call: Call, p: int) {
    call.ReadCall? ==> ReadsSucceed(files, index, p, call.inp)
  }

  /** What a call answers and which state it leaves. A read gives, whenever every element can be opened that
      has to be, the answer a freshly opened session gives. */
  ghost predicate Explained(files: map<string, NcFile>, index: seq<AggElement>, call: Call, p: int, c: Cache,
                            answer: Result<Option<seq<int>>>, c': Cache)
  {
    match call
    case OpenCall(env) => c' == if c.firstOpen then c else Cache(CanOpen(files, index, 0, env), 0, false)
    case InqCall(_) => c' == c
    case ReadCall(inp, env) =>
      (answer.Ok? <==> CanRead(files, index, p, inp, env, c))
      && (answer.Ok? ==> answer.value == AnswerOf(files, index, p, inp))
      && ReadLeaves(files, index, p, inp, env, c, FailureOf(answer), c')
    case CloseCall => c' == Cache(false, -1, false)
  }

  /** Whatever calls are made, in whatever order and with whatever failures, every read that succeeds
      has the same answer as if it had been the first one, the elements it opens and whether it succeeds
      follow from the state before it, and in the end no descriptor is left open. times tells where time
      is in the variables that are read. */
  method Serve(s: Session, calls: seq<Call>, ghost times: seq<int>)
    returns (answers: seq<Result<Option<seq<int>>>>, ghost states: seq<Cache>)
    requires s.Valid() && |times| == |calls|
    requires forall path :: path in s.files ==> s.files[path].Valid()
    requires forall k: nat :: k < |calls| ==> Servable(s.files, s.index, calls[k], times[k])
    modifies s
    ensures s.Valid() && s.descriptors == map[]
    ensures |answers| == |calls| && |states| == |calls| + 1 && states[0] == old(s.State())
    ensures forall k: nat :: k < |calls| ==>
              Explained(s.files, s.index, calls[k], times[k], states[k], answers[k], states[k + 1])
  {
    answers, states := [], [s.State()];
    var k := 0;
    while k < |calls|
      invariant 0 <= k <= |calls| && s.Valid() && |answers| == k && |states| == k + 1
      invariant states[0] == old(s.State()) && states[k] == s.State()
      invariant forall j: nat :: j < k ==>
                  Explained(s.files, s.index, calls[j], times[j], states[j], answers[j], states[j + 1])
    {
      assert Servable(s.files, s.index, calls[k], times[k]);
      var answer := ServeCall(s, calls[k], times[k]);
      answers, states := answers + [answer], states + [s.State()];
      k := k + 1;
    }
    s.Close();
  }

  method ServeCall(s: Session, call: Call, ghost p: int) returns (answer: Result<Option<seq<int>>>)
    requires s.Valid() && Servable(s.files, s.index, call, p)
    requires forall path :: path in s.files ==> s.files[path].Valid()
    modifies s
    ensures s.Valid() && Explained(s.files, s.index, call, p, old(s.State()), answer, s.State())
  {
    answer := Ok(None);
    match call {
      case OpenCall(env) =>
        if s.objNcid0 == -1 {
          var status := s.Open(env);
        }
      case InqCall(env) =>
        var inq := s.InqColl(env);
      case ReadCall(inp, env) =>
        answer := s.GetVarsByType(inp, env, p);
      case CloseCall =>
        s.Close();
    }
  }

  // ----- the buffer -----

  /** The buffer starts with these values, and nothing has been copied behind them. */
  ghost predicate Filled(buf: array<int>, data: seq<int>)
    reads buf
  {
    |data| <= buf.Length && (forall k: nat :: k < |data| ==> buf[k] == data[k])
    && forall k: nat :: |data| <= k < buf.Length ==> buf[k] == ZERO
  }

  method Append(buf: array<int>, curLen: nat, data: seq<int>, ghost before: seq<int>) returns (newLen: nat)
    requires curLen == |before| && curLen + |data| <= buf.Length && Filled(buf, before)
    modifies buf
    ensures newLen == curLen + |data| && Filled(buf, before + data)
  {
    forall k | 0 <= k < |data| {
      buf[curLen + k] := data[k];
    }
    newLen := curLen + |data|;
  }

  /** All values before element i are in the buffer; those still to come are in the elements left. */
  ghost predicate Copied(parts: seq<Block>, lens: seq<nat>, i: nat, p: int, inp: GetVarInp,
                         eleStart: int, curPos: int, timeEnd0: int, buf: array<int>, curLen: nat)
    reads buf
  {
    i <= |lens| == |parts| && p < |inp.start| == |inp.count|
    && curLen <= |Selected(parts, lens, p, inp.start, inp.count)| <= buf.Length == Product(Clamp(inp.count))
    && Filled(buf, Selected(parts, lens, p, inp.start, inp.count)[..curLen])
    && Selected(parts, lens, p, inp.start, inp.count)[curLen..]
       == TransferredAfter(parts, lens, i, p, inp.start, inp.count, eleStart, curPos, timeEnd0)
  }

  /** The values of the elements before i of a collection have been copied. */
  ghost predicate CopiedTo(files: map<string, NcFile>, index: seq<AggElement>, i: nat, p: int, inp: GetVarInp,
                           eleStart: int, curPos: int, timeEnd0: int, buf: array<int>, curLen: nat)
    reads buf
  {
    Copied(PartsOf(files, index, inp.varid), LensOf(index), i, p, inp, eleStart, curPos, timeEnd0, buf, curLen)
  }

  /** What is read of element i. */
  ghost function DataOf(files: map<string, NcFile>, index: seq<AggElement>, i: nat, p: int, inp: GetVarInp,
                        eleStart: int, eleEnd: int, curPos: int, timeEnd0: int): seq<int>
    requires i < |index| && p < |inp.start| == |inp.count|
  {
    ElementData(PartsOf(files, index, inp.varid)[i], p, inp.start, inp.count, eleStart, eleEnd, curPos, timeEnd0)
  }

  lemma CopiedNext(parts: seq<Block>, lens: seq<nat>, i: nat, p: int, inp: GetVarInp,
                   eleStart: int, curPos: int, timeEnd0: int, buf: array<int>, curLen: nat)
    requires i < |lens| && curPos <= timeEnd0
    requires Copied(parts, lens, i, p, inp, eleStart, curPos, timeEnd0, buf, curLen)
    ensures var eleEnd := eleStart + lens[i] - 1;
            var data := ElementData(parts[i], p, inp.start, inp.count, eleStart, eleEnd, curPos, timeEnd0);
            var all := Selected(parts, lens, p, inp.start, inp.count);
            && curLen + |data| <= |all| && all[..curLen] + data == all[..curLen + |data|]
            && all[curLen + |data|..]
               == TransferredAfter(parts, lens, i + 1, p, inp.start, inp.count, eleEnd + 1,
                                   NextPos(p, inp.count, eleStart, eleEnd, curPos, timeEnd0), timeEnd0)
  {
    var eleEnd := eleStart + lens[i] - 1;
    var next := NextPos(p, inp.count, eleStart, eleEnd, curPos, timeEnd0);
    OneTurn(parts, lens, i, p, inp.start, inp.count, eleStart, curPos, timeEnd0);
    CutAt(Selected(parts, lens, p, inp.start, inp.count), curLen,
          ElementData(parts[i], p, inp.start, inp.count, eleStart, eleEnd, curPos, timeEnd0),
          TransferredAfter(parts, lens, i + 1, p, inp.start, inp.count, eleEnd + 1, next, timeEnd0));
  }

  lemma CutAt(all: seq<int>, n: nat, data: seq<int>, rest: seq<int>)
    requires n <= |all| && all[n..] == data + rest
    ensures n + |data| <= |all| && all[..n] + data == all[..n + |data|] && all[n + |data|..] == rest
  {
    assert all == all[..n] + (data + rest);
  }

  /** Puts element i's data behind what has been read before. */
  method PutData(ghost parts: seq<Block>, ghost lens: seq<nat>, ghost i: nat, ghost p: int,
                 ghost inp: GetVarInp, ghost eleStart: int, ghost curPos: int, ghost timeEnd0: int,
                 buf: array<int>, curLen: nat, data: seq<int>)
    returns (newLen: nat)
    requires i < |lens| && curPos <= timeEnd0
    requires Copied(parts, lens, i, p, inp, eleStart, curPos, timeEnd0, buf, curLen)
    requires data == ElementData(parts[i], p, inp.start, inp.count, eleStart, eleStart + lens[i] - 1, curPos, timeEnd0)
    modifies buf
    ensures Copied(parts, lens, i + 1, p, inp, eleStart + lens[i],
                   NextPos(p, inp.count, eleStart, eleStart + lens[i] - 1, curPos, timeEnd0), timeEnd0, buf, newLen)
  {
    CopiedNext(parts, lens, i, p, inp, eleStart, curPos, timeEnd0, buf, curLen);
    newLen := Append(buf, curLen, data, Selected(parts, lens, p, inp.start, inp.count)[..curLen]);
  }

  /** Puts what has been read of element i of a collection behind what has been read before. */
  method PutElement(ghost files: map<string, NcFile>, ghost index: seq<AggElement>, ghost i: nat, ghost p: int,
                    ghost inp: GetVarInp, ghost eleStart: int, ghost eleEnd: int, ghost curPos: int,
                    ghost timeEnd0: int, buf: array<int>, curLen: nat, data: seq<int>)
    returns (newLen: nat)
    requires i < |index| && eleEnd == eleStart + index[i].arraylen - 1 && curPos <= timeEnd0
    requires CopiedTo(files, index, i, p, inp, eleStart, curPos, timeEnd0, buf, curLen)
    requires data == DataOf(files, index, i, p, inp, eleStart, eleEnd, curPos, timeEnd0)
    modifies buf
    ensures CopiedTo(files, index, i + 1, p, inp, eleEnd + 1,
                     NextPos(p, inp.count, eleStart, eleEnd, curPos, timeEnd0), timeEnd0, buf, newLen)
  {
    assert LensOf(index)[i] == index[i].arraylen;
    newLen := PutData(PartsOf(files, index, inp.varid), LensOf(index), i, p, inp, eleStart, curPos, timeEnd0, buf,
        curLen, data);
  }

  lemma NothingCopied(parts: seq<Block>, lens: seq<nat>, i: nat, p: int, inp: GetVarInp,
                      eleStart: int, curPos: int, timeEnd0: int, buf: array<int>, curLen: nat)
    requires i < |lens| && curPos <= timeEnd0
    requires !(eleStart <= curPos <= eleStart + lens[i] - 1)
    requires Copied(parts, lens, i, p, inp, eleStart, curPos, timeEnd0, buf, curLen)
    ensures Copied(parts, lens, i + 1, p, inp, eleStart + lens[i], curPos, timeEnd0, buf, curLen)
  {
    CopiedNext(parts, lens, i, p, inp, eleStart, curPos, timeEnd0, buf, curLen);
  }

  lemma AllCopied(parts: seq<Block>, lens: seq<nat>, i: nat, p: int, inp: GetVarInp,
                  eleStart: int, curPos: int, timeEnd0: int, buf: array<int>, curLen: nat)
    requires i == |lens| || curPos > timeEnd0
    requires Copied(parts, lens, i, p, inp, eleStart, curPos, timeEnd0, buf, curLen)
    ensures Answer(parts, lens, p, inp.start, inp.count) == if curLen > 0 then Some(buf[..]) else None
  {
    var all := Selected(parts, lens, p, inp.start, inp.count);
    assert TransferredAfter(parts, lens, i, p, inp.start, inp.count, eleStart, curPos, timeEnd0) == [];
    assert all[curLen..] == [];
    assert all[..curLen] == all;
    assert buf[..] == all + Zeros(buf.Length - |all|);
  }

  lemma CopiedFirst(files: map<string, NcFile>, index: seq<AggElement>, p: int, inp: GetVarInp, buf: array<int>)
    requires ReadsSucceed(files, index, p, inp) && p < |inp.start| && AllPositive(inp.count)
    requires buf.Length == Product(Clamp(inp.count)) && Filled(buf, [])
    ensures Copied(PartsOf(files, index, inp.varid), LensOf(index), 0, p, inp,
                   0, TimeStart(p, inp.start), TimeEnd(p, inp.start, inp.count), buf, 0)
  {
    if p >= 0 {
      ReadableLens(files, index, p, inp);
    }
    TransferredIsSelected(PartsOf(files, index, inp.varid), LensOf(index), p, inp.start, inp.count);
  }

  /** The first variable that has the name of the requested one, both looked up in one table. */
  method LookUpVarId(inq: Inq, varid: int) returns (r: Result<int>)
    requires ValidInq(inq)
    ensures r.Ok? <==> 0 <= varid < |inq.vars|
    ensures r.Err? ==> r.error == NETCDF_DEF_VAR_ERR
    ensures r.Ok? ==> 0 <= r.value <= varid && inq.vars[r.value].name == inq.vars[varid].name
                      && forall k :: 0 <= k < r.value ==> inq.vars[k].name != inq.vars[varid].name
  {
    var j := 0;
    while j < |inq.vars| && inq.vars[j].id != varid
      invariant 0 <= j <= |inq.vars| && !(0 <= varid < j)
    {
      assert ValidVar(inq, j);
      j := j + 1;
    }
    if j == |inq.vars| {
      return Err(NETCDF_DEF_VAR_ERR);
    }
    assert ValidVar(inq, j);
    var varName0 := inq.vars[j].name;
    j := 0;
    while j < |inq.vars|
      invariant 0 <= j <= varid
      invariant forall k :: 0 <= k < j ==> inq.vars[k].name != varName0
    {
      assert ValidVar(inq, j);
      if varName0 == inq.vars[j].name {
        return Ok(inq.vars[j].id);
      }
      j := j + 1;
    }
    r := Err(NETCDF_DEF_VAR_ERR);
  }
}
