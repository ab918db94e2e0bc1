/** The aggregate index: elements sorted by time in a growable array, the virtual length of the
    aggregation, and the number of the next file. */
module AggInfo {
  import opened GrownArray
  import opened NetCdf
  import Decimal

  datatype AggElement = AggElement(startTime: nat, endTime: nat, arraylen: nat, objPath: string)

  const EMPTY_ELEMENT := AggElement(0, 0, 0, "")

  /** Strict lexicographic order by (startTime, endTime). */
  predicate Before(a: AggElement, b: AggElement) {
    a.startTime < b.startTime || (a.startTime == b.startTime && a.endTime < b.endTime)
  }

  predicate SameKey(a: AggElement, b: AggElement) {
    a.startTime == b.startTime && a.endTime == b.endTime
  }

  ghost predicate Sorted(s: seq<AggElement>) {
    forall i, j :: 0 <= i < j < |s| ==> !Before(s[j], s[i])
  }

  /** Insertion after every element that is not greater. */
  function Insert(s: seq<AggElement>, e: AggElement): seq<AggElement> {
    if |s| == 0 then [e]
    else if Before(e, s[0]) then [e] + s
    else [s[0]] + Insert(s[1..], e)
  }

  /** The index after adding the elements one by one. */
  function Built(added: seq<AggElement>): seq<AggElement> {
    if |added| == 0 then [] else Insert(Built(added[..|added| - 1]), added[|added| - 1])
  }

  // ----- the index is the stable sort of what was added -----

  /** The elements with the key of k, in order. */
  function WithKey(s: seq<AggElement>, k: AggElement): seq<AggElement> {
    if |s| == 0 then []
    else (if SameKey(s[0], k) then [s[0]] else []) + WithKey(s[1..], k)
  }

  lemma {:induction false} InsertContents(s: seq<AggElement>, e: AggElement)
    ensures multiset(Insert(s, e)) == multiset(s) + multiset{e}
  {
    if |s| > 0 && !Before(e, s[0]) {
      InsertContents(s[1..], e);
      assert s == [s[0]] + s[1..];
    }
  }

  lemma {:induction false} InsertKeepsSorted(s: seq<AggElement>, e: AggElement)
    requires Sorted(s)
    ensures Sorted(Insert(s, e))
  {
    if |s| > 0 && !Before(e, s[0]) {
      InsertKeepsSorted(s[1..], e);
      NoneBeforeFirst(s, e);
      SortedCons(s[0], Insert(s[1..], e));
    }
  }

  lemma NoneBeforeFirst(s: seq<AggElement>, e: AggElement)
    requires Sorted(s) && |s| > 0 && !Before(e, s[0])
    ensures forall j :: 0 <= j < |Insert(s[1..], e)| ==> !Before(Insert(s[1..], e)[j], s[0])
  {
    var rest := Insert(s[1..], e);
    forall j | 0 <= j < |rest|
      ensures !Before(rest[j], s[0])
    {
      InsertContents(s[1..], e);
      assert rest[j] in multiset(rest);
      assert rest[j] in s[1..] || rest[j] == e;
    }
  }

  lemma SortedCons(first: AggElement, rest: seq<AggElement>)
    requires Sorted(rest) && forall j :: 0 <= j < |rest| ==> !Before(rest[j], first)
    ensures Sorted([first] + rest)
  {
  }

  lemma {:induction false} WithKeyOfNone(s: seq<AggElement>, k: AggElement)
    requires forall i :: 0 <= i < |s| ==> Before(k, s[i])
    ensures WithKey(s, k) == []
  {
    if |s| > 0 {
      WithKeyOfNone(s[1..], k);
    }
  }

  /** Equal keys keep the order they were added in. */
  lemma {:induction false} InsertIsStable(s: seq<AggElement>, e: AggElement, k: AggElement)
    requires Sorted(s)
    ensures WithKey(Insert(s, e), k) == WithKey(s, k) + (if SameKey(e, k) then [e] else [])
  {
    if |s| > 0 {
      if Before(e, s[0]) {
        assert ([e] + s)[1..] == s;
        if SameKey(e, k) {
          forall i | 0 <= i < |s| ensures Before(k, s[i]) {
            assert i > 0 ==> !Before(s[i], s[0]);
          }
          WithKeyOfNone(s, k);
        }
      } else {
        InsertIsStable(s[1..], e, k);
        assert ([s[0]] + Insert(s[1..], e))[1..] == Insert(s[1..], e);
      }
    }
  }

  lemma {:induction false} WithKeySnoc(s: seq<AggElement>, e: AggElement, k: AggElement)
    ensures WithKey(s + [e], k) == WithKey(s, k) + (if SameKey(e, k) then [e] else [])
  {
    if |s| > 0 {
      WithKeySnoc(s[1..], e, k);
      assert (s + [e])[1..] == s[1..] + [e];
    }
  }

  ghost predicate StableSortOf(out: seq<AggElement>, added: seq<AggElement>) {
    Sorted(out) && multiset(out) == multiset(added)
    && forall k :: WithKey(out, k) == WithKey(added, k)
  }

  /** The index is the stable sort of what was added. */
  lemma {:induction false} BuiltIsStableSort(added: seq<AggElement>)
    ensures StableSortOf(Built(added), added)
  {
    if |added| > 0 {
      var front, e := added[..|added| - 1], added[|added| - 1];
      assert added == front + [e];
      BuiltIsStableSort(front);
      InsertKeepsSorted(Built(front), e);
      InsertContents(Built(front), e);
      forall k ensures WithKey(Built(added), k) == WithKey(added, k) {
        InsertIsStable(Built(front), e, k);
        WithKeySnoc(front, e, k);
      }
    }
  }

  /** The index lists what was added by start time, and elements of one start time by end time. */
  lemma BuiltInTimeOrder(added: seq<AggElement>)
    ensures var s := Built(added);
            multiset(s) == multiset(added)
            && forall i, j :: 0 <= i < j < |s| ==>
                 s[i].startTime < s[j].startTime
                 || (s[i].startTime == s[j].startTime && s[i].endTime <= s[j].endTime)
  {
    BuiltIsStableSort(added);
  }

  lemma {:induction false} WithKeySound(s: seq<AggElement>, k: AggElement)
    ensures forall x :: x in WithKey(s, k) <==> x in s && SameKey(x, k)
  {
    if |s| > 0 {
      WithKeySound(s[1..], k);
    }
  }

  /** A stable sort is determined by what was added. */
  lemma {:induction false} StableSortUnique(a: seq<AggElement>, b: seq<AggElement>)
    requires Sorted(a) && Sorted(b)
    requires forall k :: WithKey(a, k) == WithKey(b, k)
    ensures a == b
  {
    if |a| == 0 {
      var k := if |b| > 0 then b[0] else EMPTY_ELEMENT;
      WithKeySound(b, k);
      assert WithKey(a, k) == [];
    } else {
      FirstOfStableSort(a, b);
      forall k ensures WithKey(a[1..], k) == WithKey(b[1..], k) {
        var c := if SameKey(a[0], k) then [a[0]] else [];
        assert WithKey(a, k) == c + WithKey(a[1..], k);
        assert WithKey(b, k) == c + WithKey(b[1..], k);
        assert WithKey(a[1..], k) == WithKey(a, k)[|c|..];
      }
      StableSortUnique(a[1..], b[1..]);
    }
  }

  lemma FirstOfStableSort(a: seq<AggElement>, b: seq<AggElement>)
    requires Sorted(a) && Sorted(b) && |a| > 0
    requires forall k :: WithKey(a, k) == WithKey(b, k)
    ensures |b| > 0 && a[0] == b[0]
  {
    WithKeySound(a, a[0]);
    WithKeySound(b, a[0]);
    assert a[0] in WithKey(b, a[0]);
    WithKeySound(a, b[0]);
    WithKeySound(b, b[0]);
    assert b[0] in WithKey(a, b[0]);
    var i :| 0 <= i < |a| && a[i] == b[0];
    var j :| 0 <= j < |b| && b[j] == a[0];
    assert SameKey(a[0], b[0]);
    assert WithKey(a, a[0])[0] == a[0];
    assert WithKey(b, a[0])[0] == b[0];
  }

  ghost predicate StrictlySorted(s: seq<AggElement>) {
    forall i, j :: 0 <= i < j < |s| ==> Before(s[i], s[j])
  }

  /** When no two files have the same time range, the index does not depend on the order in which
      the collection lists them. */
  lemma ListingOrderIrrelevant(added: seq<AggElement>, sorted: seq<AggElement>)
    requires multiset(added) == multiset(sorted) && StrictlySorted(sorted)
    ensures Built(added) == sorted
  {
    BuiltIsStableSort(added);
    SortedUnique(Built(added), sorted);
  }

  lemma SameFirst(a: seq<AggElement>, b: seq<AggElement>)
    requires Sorted(a) && StrictlySorted(b) && multiset(a) == multiset(b) && |a| > 0 && |b| > 0
    ensures a[0] == b[0]
  {
    assert a[0] in multiset(b) && b[0] in multiset(a);
    var i :| 0 <= i < |a| && a[i] == b[0];
    var j :| 0 <= j < |b| && b[j] == a[0];
  }

  lemma {:induction false} SortedUnique(a: seq<AggElement>, b: seq<AggElement>)
    requires Sorted(a) && StrictlySorted(b) && multiset(a) == multiset(b)
    ensures a == b
    decreases |a|
  {
    assert |a| == |multiset(a)| == |multiset(b)| == |b|;
    if |a| > 0 {
      SameFirst(a, b);
      assert a == [a[0]] + a[1..] && b == [b[0]] + b[1..];
      assert multiset(a[1..]) == multiset(a) - multiset{a[0]};
      assert multiset(b[1..]) == multiset(b) - multiset{a[0]};
      SortedUnique(a[1..], b[1..]);
    }
  }

  // ----- virtual length -----

  function SumLen(s: seq<AggElement>): nat {
    if |s| == 0 then 0 else SumLen(s[..|s| - 1]) + s[|s| - 1].arraylen
  }

  lemma {:induction false} SumLenConcat(a: seq<AggElement>, b: seq<AggElement>)
    ensures SumLen(a + b) == SumLen(a) + SumLen(b)
  {
    if |b| == 0 {
      assert a + b == a;
    } else {
      SumLenConcat(a, b[..|b| - 1]);
      assert (a + b)[..|a + b| - 1] == a + b[..|b| - 1];
    }
  }

  lemma {:induction false} InsertSum(s: seq<AggElement>, e: AggElement)
    ensures SumLen(Insert(s, e)) == SumLen(s) + e.arraylen
  {
    SumLenConcat([e], s);
    assert SumLen([e]) == e.arraylen by { assert [e][..0] == []; }
    if |s| > 0 && !Before(e, s[0]) {
      InsertSum(s[1..], e);
      SumLenConcat([s[0]], Insert(s[1..], e));
      SumLenConcat([s[0]], s[1..]);
      assert s == [s[0]] + s[1..];
    }
  }

  /** The virtual length is the total over the files, in whatever order they were added. */
  lemma {:induction false} BuiltSum(added: seq<AggElement>)
    ensures SumLen(Built(added)) == SumLen(added)
  {
    if |added| > 0 {
      BuiltSum(added[..|added| - 1]);
      InsertSum(Built(added[..|added| - 1]), added[|added| - 1]);
    }
  }

  // ----- the array -----

  /** sumAggElementArraylen: the index argument is only checked, the sum is over all elements. */
  method SumAggElementArraylen(elements: seq<AggElement>, aggElementInx: int) returns (r: Result<nat>)
    ensures aggElementInx > |elements| ==> r == Err(NETCDF_AGG_ELE_INX_OUT_OF_RANGE)
    ensures aggElementInx <= |elements| ==> r == Ok(SumLen(elements))
  {
    if aggElementInx > |elements| {
      return Err(NETCDF_AGG_ELE_INX_OUT_OF_RANGE);
    }
    var sum: nat := 0;
    var i := 0;
    while i < |elements|
      invariant 0 <= i <= |elements| && sum == SumLen(elements[..i])
    {
      sum := sum + elements[i].arraylen;
      assert elements[..i + 1][..i] == elements[..i];
      i := i + 1;
    }
    assert elements[..i] == elements;
    r := Ok(sum);
  }

  class AggTable {
    var numFiles: nat
    var ncAggElement: array?<AggElement>
    /** PTR_ARRAY_MALLOC_LEN */
    const growth: nat

    function Capacity(): nat
      reads this
    {
      if ncAggElement == null then 0 else ncAggElement.Length
    }

    /** The array is as long as the element count rounded up to a multiple of the growth step. */
    ghost predicate Valid()
      reads this
    {
      growth > 0 && Capacity() == numFiles + Slack(numFiles, growth)
    }

    function Elements(): seq<AggElement>
      requires Valid()
      reads this, ncAggElement
    {
      if ncAggElement == null then [] else ncAggElement[..numFiles]
    }

    constructor (growth: nat)
      requires growth > 0
      ensures Valid() && Elements() == [] && this.growth == growth && ncAggElement == null
    {
      this.growth := growth;
      numFiles := 0;
      ncAggElement := null;
    }

    method AddNcAggElement(e: AggElement)
      requires Valid()
      modifies this, ncAggElement
      ensures Valid() && fresh({ncAggElement} - {old(ncAggElement)})
      ensures Elements() == Insert(old(Elements()), e)
    {
      SlackNext(numFiles, growth);
      ghost var was := Elements();
      if numFiles % growth == 0 {
        var newElement := new AggElement[numFiles + growth](_ => EMPTY_ELEMENT);
        if numFiles > 0 {
          forall k | 0 <= k < numFiles {
            newElement[k] := ncAggElement[k];
          }
        }
        ncAggElement := newElement;
      }
      assert ncAggElement[..numFiles] == was;
      InsertInto(ncAggElement, numFiles, e);
      numFiles := numFiles + 1;
    }
  }

  lemma {:induction false} InsertAt(s: seq<AggElement>, e: AggElement, i: nat)
    requires i <= |s| && (forall k :: 0 <= k < i ==> !Before(e, s[k]))
    requires i < |s| ==> Before(e, s[i])
    ensures Insert(s, e) == s[..i] + [e] + s[i..]
  {
    if i > 0 {
      InsertAt(s[1..], e, i - 1);
      assert s[1..][..i - 1] == s[1..i] && s[1..][i - 1..] == s[i..];
    }
  }

  /** Shifts the greater elements up by one and puts e in the gap, or at the end. */
  method InsertInto(a: array<AggElement>, n: nat, e: AggElement)
    requires n < a.Length
    modifies a
    ensures a[..n + 1] == Insert(old(a[..n]), e)
  {
    ghost var was := a[..n];
    var i := 0;
    while i < n && !Before(e, a[i])
      invariant 0 <= i <= n && a[..n] == was
      invariant forall k :: 0 <= k < i ==> !Before(e, was[k])
    {
      i := i + 1;
    }
    InsertAt(was, e, i);
    ShiftUp(a, i, n);
    a[i] := e;
    ghost var inserted := was[..i] + [e] + was[i..];
    assert forall k :: 0 <= k <= n ==> a[k] == inserted[k];
    assert a[..n + 1] == inserted;
  }

  /** Moves a[i..n] up by one place. */
  method ShiftUp(a: array<AggElement>, i: nat, n: nat)
    requires i <= n < a.Length
    modifies a
    ensures forall k :: 0 <= k < i ==> a[k] == old(a[k])
    ensures forall k :: i < k <= n ==> a[k] == old(a[k - 1])
  {
    var j := n;
    while j > i
      invariant i <= j <= n
      invariant forall k :: 0 <= k < j ==> a[k] == old(a[k])
      invariant forall k :: j < k <= n ==> a[k] == old(a[k - 1])
    {
      a[j] := a[j - 1];
      j := j - 1;
    }
  }

  // ----- names of the files of an archive -----

  /** The element's path is the base path followed by a digit. */
  predicate Numbered(basePath: string, path: string) {
    basePath <= path && |basePath| < |path| && Decimal.IsDigit(path[|basePath|])
  }

  function NumberOf(basePath: string, path: string): nat
    requires Numbered(basePath, path)
  {
    Decimal.Atoi(path[|basePath|..])
  }

  function FileName(basePath: string, n: nat): string {
    basePath + Decimal.Print(n)
  }

  /** The path is the base path, then the number in decimal, and then nothing or no further digit. */
  ghost predicate NumberIn(basePath: string, path: string, n: nat) {
    exists digits, rest ::
      path == basePath + digits + rest && Decimal.AllDigits(digits) && Decimal.Atoi(digits) == n
      && (|rest| > 0 ==> !Decimal.IsDigit(rest[0]))
  }

  lemma NumberedExactly(basePath: string, path: string, n: nat)
    ensures Numbered(basePath, path) && NumberOf(basePath, path) == n <==> NumberIn(basePath, path, n)
  {
    if Numbered(basePath, path) && NumberOf(basePath, path) == n {
      var digits, rest := Decimal.SplitDigits(path[|basePath|..]);
      Decimal.AtoiPrefix(digits, rest);
      assert path == basePath + path[|basePath|..] == basePath + digits + rest;
    }
    if NumberIn(basePath, path, n) {
      var digits, rest :| path == basePath + digits + rest && Decimal.AllDigits(digits) && Decimal.Atoi(digits) == n
                          && (|rest| > 0 ==> !Decimal.IsDigit(rest[0]));
      assert path[|basePath|..] == digits + rest && path[|basePath|] == digits[0];
      Decimal.AtoiPrefix(digits, rest);
    }
  }

  lemma NextNumberExactly(elements: seq<AggElement>, basePath: string)
    ensures IsNextNumber(elements, basePath, NextNumber(elements, basePath))
  {
    forall i: nat, n: nat | i < |elements|
      ensures Numbered(basePath, elements[i].objPath) && NumberOf(basePath, elements[i].objPath) == n
         <==> NumberIn(basePath, elements[i].objPath, n)
    {
      NumberedExactly(basePath, elements[i].objPath, n);
    }
  }

  /** 1, or one above the highest number in the paths. */
  ghost predicate IsNextNumber(elements: seq<AggElement>, basePath: string, next: nat) {
    next >= 1
    && (forall i: nat, n: nat :: i < |elements| && NumberIn(basePath, elements[i].objPath, n) ==> n < next)
    && (next == 1 || exists i: nat :: i < |elements| && NumberIn(basePath, elements[i].objPath, next - 1))
  }

  /** getNextAggEleObjPath */
  method GetNextNumber(elements: seq<AggElement>, basePath: string) returns (next: nat)
    ensures next == NextNumber(elements, basePath)
    ensures IsNextNumber(elements, basePath, next)
  {
    var lastNum: nat := 0;
    var i := 0;
    while i < |elements|
      invariant 0 <= i <= |elements|
      invariant lastNum + 1 == NextNumber(elements[..i], basePath)
    {
      if Numbered(basePath, elements[i].objPath) {
        var myInt := NumberOf(basePath, elements[i].objPath);
        if myInt > lastNum {
          lastNum := myInt;
        }
      }
      assert elements[..i + 1][..i] == elements[..i];
      i := i + 1;
    }
    assert elements[..i] == elements;
    next := lastNum + 1;
    NextNumberExactly(elements, basePath);
  }

  function NextNumber(elements: seq<AggElement>, basePath: string): (next: nat)
    ensures next >= 1
    ensures forall i :: 0 <= i < |elements| && Numbered(basePath, elements[i].objPath) ==>
              NumberOf(basePath, elements[i].objPath) < next
    ensures next == 1 || exists i :: 0 <= i < |elements| && Numbered(basePath, elements[i].objPath)
                                 && NumberOf(basePath, elements[i].objPath) == next - 1
  {
    if |elements| == 0 then 1
    else
      var last := elements[|elements| - 1].objPath;
      var before := NextNumber(elements[..|elements| - 1], basePath);
      if Numbered(basePath, last) && NumberOf(basePath, last) >= before
      then NumberOf(basePath, last) + 1 else before
  }

  lemma FileNameNumber(basePath: string, n: nat)
    ensures Numbered(basePath, FileName(basePath, n)) && NumberOf(basePath, FileName(basePath, n)) == n
  {
    Decimal.AtoiPrint(n, "");
    assert FileName(basePath, n)[|basePath|..] == Decimal.Print(n) + "";
  }

  /** The path is the base path followed by the number, in decimal and without leading zeros. */
  predicate HasNumber(basePath: string, path: string, n: nat) {
    basePath <= path
    && var digits := path[|basePath|..];
       Decimal.AllDigits(digits) && (digits[0] == '0' ==> digits == "0") && Decimal.Atoi(digits) == n
  }

  lemma FileNameExactly(basePath: string, n: nat, path: string)
    ensures path == FileName(basePath, n) <==> HasNumber(basePath, path, n)
  {
    if basePath <= path {
      assert path == basePath + path[|basePath|..];
      Decimal.PrintExactly(n, path[|basePath|..]);
    }
    if path == FileName(basePath, n) {
      assert path[|basePath|..] == Decimal.Print(n);
      Decimal.PrintExactly(n, Decimal.Print(n));
    }
  }

  lemma FileNameInjective(basePath: string, m: nat, n: nat)
    requires FileName(basePath, m) == FileName(basePath, n)
    ensures m == n
  {
    FileNameNumber(basePath, m);
    FileNameNumber(basePath, n);
  }

  /** Names made from the next number on are new, whatever the existing paths look like. */
  lemma FreshNames(elements: seq<AggElement>, basePath: string, k: nat, i: nat)
    requires k >= NextNumber(elements, basePath) && i < |elements|
    ensures elements[i].objPath != FileName(basePath, k)
  {
    FileNameNumber(basePath, k);
  }
}
