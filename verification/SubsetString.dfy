/** Parsing subset requests of the form name[start%stride%end] in place. */
module SubsetString {
  import opened NetCdf
  import opened Decimal

  const NUL := '\0'
  const MAX_NUM_VAR := 64

  /** Position of the first c, or the length. */
  function Index(s: string, c: char): (i: nat)
    ensures i <= |s| && (i < |s| ==> s[i] == c)
    ensures forall j :: 0 <= j < i ==> s[j] != c
  {
    if |s| == 0 || s[0] == c then 0 else 1 + Index(s[1..], c)
  }

  datatype Field = Field(text: string, rest: string)

  /** The text before the first delimiter and the text behind it. */
  function Cut(s: string, delimiter: char): Option<Field> {
    var i := Index(s, delimiter);
    if i < |s| then Some(Field(s[..i], s[i + 1..])) else None
  }

  function Behind(text: string, delimiter: char, rest: string): string {
    text + [delimiter] + rest
  }

  lemma {:induction false} IndexBehind(text: string, delimiter: char, rest: string)
    requires delimiter !in text
    ensures Index(Behind(text, delimiter, rest), delimiter) == |text|
  {
    if |text| > 0 {
      assert Behind(text, delimiter, rest)[1..] == Behind(text[1..], delimiter, rest);
      IndexBehind(text[1..], delimiter, rest);
    }
  }

  lemma CutExactly(s: string, delimiter: char, f: Field)
    ensures Cut(s, delimiter) == Some(f) <==> delimiter !in f.text && s == Behind(f.text, delimiter, f.rest)
  {
    if delimiter !in f.text && s == Behind(f.text, delimiter, f.rest) {
      IndexBehind(f.text, delimiter, f.rest);
      assert s[..|f.text|] == f.text && s[|f.text| + 1..] == f.rest;
    }
  }

  /** A number at the start of the text, which has to start with a digit and ends before the delimiter. */
  function Number(s: string, delimiter: char): Option<Field> {
    if |s| > 0 && IsDigit(s[0]) then Cut(s, delimiter) else None
  }

  function NextNumber(before: Option<Field>, delimiter: char): Option<Field> {
    if before.Some? then Number(before.value.rest, delimiter) else None
  }

  datatype Numbers = Numbers(startStr: string, strideStr: string, endStr: string)

  datatype Parsed = Parsed(name: string, numbers: Numbers)

  function ThreeNumbers(s: string): Option<Numbers> {
    var start := Number(s, '%');
    var stride := NextNumber(start, '%');
    var end := NextNumber(stride, ']');
    if end.None? then None else Some(Numbers(start.value.text, stride.value.text, end.value.text))
  }

  function Parse(s: string): Option<Parsed> {
    var name := Cut(s, '[');
    if name.None? then None
    else
      var numbers := ThreeNumbers(name.value.rest);
      if numbers.None? then None else Some(Parsed(name.value.text, numbers.value))
  }

  /** What the parser stores besides the name: the numbers, and the texts of start and end, which may
      stand for times. */
  datatype Range = Range(start: int, startStr: string, stride: int, end: int, endStr: string)

  datatype SubsetRequest = SubsetRequest(name: string, range: Range)

  function RangeOf(n: Numbers): Range {
    Range(Atoi(n.startStr), n.startStr, Atoi(n.strideStr), Atoi(n.endStr), n.endStr)
  }

  /** One word as a request. */
  function Request(word: string): Option<SubsetRequest> {
    var p := Parse(word);
    if p.None? then None else Some(SubsetRequest(p.value.name, RangeOf(p.value.numbers)))
  }

  // ----- what is accepted -----

  /** The text is a name and three numbers in brackets, with anything behind them. */
  ghost predicate IsRequest(s: string, name: string, start: string, stride: string, end: string, tail: string) {
    s == name + "[" + start + "%" + stride + "%" + end + "]" + tail
    && '[' !in name && IsNumber(start, '%') && IsNumber(stride, '%') && IsNumber(end, ']')
  }

  ghost predicate IsNumber(text: string, delimiter: char) {
    |text| > 0 && IsDigit(text[0]) && delimiter !in text
  }

  /** The form name[start%stride%end] with anything behind it. */
  function Written(p: Parsed, tail: string): string {
    var n := p.numbers;
    Behind(p.name, '[', Behind(n.startStr, '%', Behind(n.strideStr, '%', Behind(n.endStr, ']', tail))))
  }

  /** Three numbers behind a name without bracket. */
  ghost predicate WellFormed(p: Parsed) {
    '[' !in p.name && IsNumber(p.numbers.startStr, '%') && IsNumber(p.numbers.strideStr, '%')
    && IsNumber(p.numbers.endStr, ']')
  }

  lemma NumberExactly(before: Option<Field>, delimiter: char, f: Field)
    requires !IsDigit(delimiter)
    ensures NextNumber(before, delimiter) == Some(f)
       <==> before.Some? && IsNumber(f.text, delimiter) && before.value.rest == Behind(f.text, delimiter, f.rest)
  {
    if before.Some? {
      CutExactly(before.value.rest, delimiter, f);
    }
  }

  lemma WrittenParses(p: Parsed, tail: string)
    requires WellFormed(p)
    ensures Parse(Written(p, tail)) == Some(p)
  {
    var end := Field(p.numbers.endStr, tail);
    var stride := Field(p.numbers.strideStr, Behind(end.text, ']', end.rest));
    var start := Field(p.numbers.startStr, Behind(stride.text, '%', stride.rest));
    var name := Field(p.name, Behind(start.text, '%', start.rest));
    CutExactly(Written(p, tail), '[', name);
    NumberExactly(Some(name), '%', start);
    NumberExactly(Some(start), '%', stride);
    NumberExactly(Some(stride), ']', end);
  }

  lemma ParsedIsWritten(s: string) returns (tail: string)
    requires Parse(s).Some?
    ensures WellFormed(Parse(s).value) && s == Written(Parse(s).value, tail)
  {
    var name := Cut(s, '[');
    var start := Number(name.value.rest, '%');
    var stride := NextNumber(start, '%');
    var end := NextNumber(stride, ']');
    CutExactly(s, '[', name.value);
    NumberExactly(name, '%', start.value);
    NumberExactly(start, '%', stride.value);
    NumberExactly(stride, ']', end.value);
    tail := end.value.rest;
  }

  /** A text is accepted as p exactly when it is p in the form, whatever follows the closing bracket. */
  lemma ParseExactly(s: string, p: Parsed)
    ensures Parse(s) == Some(p) <==> WellFormed(p) && exists tail :: s == Written(p, tail)
  {
    if Parse(s) == Some(p) {
      var tail := ParsedIsWritten(s);
    }
    if WellFormed(p) && exists tail :: s == Written(p, tail) {
      var tail :| s == Written(p, tail);
      WrittenParses(p, tail);
    }
  }

  lemma WrittenOut(p: Parsed, tail: string)
    ensures var n := p.numbers;
            Written(p, tail) == p.name + "[" + n.startStr + "%" + n.strideStr + "%" + n.endStr + "]" + tail
  {
    var n := p.numbers;
    assert Behind(n.endStr, ']', tail) == n.endStr + "]" + tail;
    assert Behind(n.strideStr, '%', n.endStr + "]" + tail) == n.strideStr + "%" + n.endStr + "]" + tail;
    assert Behind(n.startStr, '%', n.strideStr + "%" + n.endStr + "]" + tail)
        == n.startStr + "%" + n.strideStr + "%" + n.endStr + "]" + tail;
  }

  /** Of such a text the first number is the start, the second the stride and the third the end, and the
      texts of the first and the third are kept. */
  lemma RequestParses(s: string, name: string, start: string, stride: string, end: string, tail: string)
    requires IsRequest(s, name, start, stride, end, tail)
    ensures Parse(s).Some? && Parse(s).value.name == name
    ensures RangeOf(Parse(s).value.numbers) == Range(Atoi(start), start, Atoi(stride), Atoi(end), end)
    ensures Request(s) == Some(SubsetRequest(name, Range(Atoi(start), start, Atoi(stride), Atoi(end), end)))
  {
    var p := Parsed(name, Numbers(start, stride, end));
    WrittenParses(p, tail);
    WrittenOut(p, tail);
  }

  /** Printed requests are parsed back to the name, the three numbers and the texts of two of them. */
  lemma PrintedSubsetParses(name: string, start: nat, stride: nat, end: nat)
    requires '[' !in name
    ensures Request(name + "[" + Print(start) + "%" + Print(stride) + "%" + Print(end) + "]")
         == Some(SubsetRequest(name, Range(start, Print(start), stride, end, Print(end))))
  {
    PrintIsNumber(start, '%');
    PrintIsNumber(stride, '%');
    PrintIsNumber(end, ']');
    var s := name + "[" + Print(start) + "%" + Print(stride) + "%" + Print(end) + "]";
    assert s == s + "";
    RequestParses(s, name, Print(start), Print(stride), Print(end), "");
  }

  lemma RequestsParse(s: string)
    ensures Parse(s).Some? <==> exists name, start, stride, end, tail :: IsRequest(s, name, start, stride, end, tail)
    ensures forall name, start, stride, end, tail :: IsRequest(s, name, start, stride, end, tail) ==>
              Parse(s).Some? && Parse(s).value.name == name
              && RangeOf(Parse(s).value.numbers) == Range(Atoi(start), start, Atoi(stride), Atoi(end), end)
  {
    if Parse(s).Some? {
      ParsedIsRequest(s);
    }
    forall name, start, stride, end, tail | IsRequest(s, name, start, stride, end, tail)
      ensures Parse(s).Some? && Parse(s).value.name == name
              && RangeOf(Parse(s).value.numbers) == Range(Atoi(start), start, Atoi(stride), Atoi(end), end)
    {
      RequestParses(s, name, start, stride, end, tail);
    }
  }

  /** Any other text is refused. */
  lemma ParsedIsRequest(s: string)
    requires Parse(s).Some?
    ensures exists name, start, stride, end, tail :: IsRequest(s, name, start, stride, end, tail)
  {
    var tail := ParsedIsWritten(s);
    var p := Parse(s).value;
    WrittenOut(p, tail);
    assert IsRequest(s, p.name, p.numbers.startStr, p.numbers.strideStr, p.numbers.endStr, tail);
  }

  lemma PrintIsNumber(n: nat, delimiter: char)
    requires !IsDigit(delimiter)
    ensures IsNumber(Print(n), delimiter) && Atoi(Print(n)) == n
  {
    AtoiPrint(n, "");
    assert Print(n) + "" == Print(n);
  }

  // ----- the parser on the buffer -----

  /** The buffer holds the zero-terminated text from a position on. */
  ghost predicate Stores(buf: array<char>, from: nat, s: string)
    reads buf
  {
    from + |s| < buf.Length && NUL !in s && buf[from + |s|] == NUL
    && forall i: nat :: i < |s| ==> buf[from + i] == s[i] && s[i] != NUL
  }

  method StrChr(buf: array<char>, from: nat, c: char, ghost s: string) returns (p: nat, found: bool)
    requires Stores(buf, from, s) && c != NUL
    ensures p == from + Index(s, c) && (found <==> Index(s, c) < |s|)
  {
    p := from;
    while buf[p] != NUL && buf[p] != c
      invariant from <= p <= from + |s|
      invariant forall j: nat :: j < p - from ==> s[j] != c
      decreases from + |s| - p
    {
      assert buf[p] == s[p - from];
      p := p + 1;
    }
    assert p < from + |s| ==> buf[p] == s[p - from];
    found := buf[p] == c;
  }

  /** atoi */
  method ReadNumber(buf: array<char>, from: nat, ghost s: string) returns (n: nat)
    requires Stores(buf, from, s)
    ensures n == Atoi(s)
  {
    n := 0;
    var p := from;
    while IsDigit(buf[p])
      invariant from <= p <= from + |s|
      invariant AtoiFrom(s[p - from..], n) == Atoi(s)
      decreases from + |s| - p
    {
      assert p < from + |s| ==> buf[p] == s[p - from];
      n := n * 10 + (buf[p] as int - '0' as int);
      p := p + 1;
    }
    assert p < from + |s| ==> buf[p] == s[p - from];
  }

  method ReadString(buf: array<char>, from: nat, ghost s: string) returns (text: string)
    requires Stores(buf, from, s)
    ensures text == s
  {
    text := "";
    var p := from;
    assert |s| > 0 ==> buf[from + 0] == s[0];
    while buf[p] != NUL
      invariant from <= p <= from + |s| && text == s[..p - from]
      invariant p < from + |s| ==> buf[p] == s[p - from]
      decreases from + |s| - p
    {
      assert p + 1 < from + |s| ==> buf[from + (p + 1 - from)] == s[p + 1 - from];
      text := text + [buf[p]];
      p := p + 1;
    }
    assert s[..|s|] == s;
  }

  /** One field: overwrites the delimiter at q with a zero while the number before it is read. */
  method TakeNumber(buf: array<char>, p: nat, q: nat, ghost text: string) returns (n: nat, str: string)
    requires p <= q < buf.Length && buf[p..q] == text && NUL !in text
    modifies buf
    ensures n == Atoi(text) && str == text && buf[..] == old(buf[..])[q := NUL]
  {
    buf[q] := NUL;
    assert forall i: nat :: i < |text| ==> buf[p + i] == old(buf[p..q])[i];
    n := ReadNumber(buf, p, text);
    str := ReadString(buf, p, text);
  }

  /** The number that starts at p, if there is one: its delimiter at q is overwritten. */
  method FindNumber(buf: array<char>, p: nat, delimiter: char, ghost s: string)
    returns (q: nat, n: nat, str: string, ok: bool)
    requires Stores(buf, p, s) && delimiter != NUL
    modifies buf
    ensures ok <==> Number(s, delimiter).Some?
    ensures ok ==> var f := Number(s, delimiter).value;
                   str == f.text && n == Atoi(f.text) && q == p + |f.text| && q < p + |s|
                   && buf[..] == old(buf[..])[q := NUL]
    ensures !ok ==> buf[..] == old(buf[..])
  {
    n, str := 0, "";
    q, ok := StrChr(buf, p, delimiter, s);
    assert |s| > 0 ==> buf[p + 0] == s[0];
    if !ok || !IsDigit(buf[p]) {
      ok := false;
      return;
    }
    ghost var f := Number(s, delimiter).value;
    assert forall i: nat :: i < |f.text| ==> buf[p + i] == s[i];
    assert buf[p..q] == f.text;
    n, str := TakeNumber(buf, p, q, f.text);
  }

  lemma StoresTail(buf: array<char>, from: nat, s: string, n: nat)
    requires Stores(buf, from, s) && n <= |s|
    ensures Stores(buf, from + n, s[n..])
  {
    forall i: nat | i < |s| - n ensures buf[from + n + i] == s[n..][i] {
      assert buf[from + (n + i)] == s[n + i];
    }
  }

  /** A number that another one follows: the delimiter is put back. */
  method PeekNumber(buf: array<char>, p: nat, ghost s: string) returns (q: nat, n: nat, str: string, ok: bool)
    requires Stores(buf, p, s)
    modifies buf
    ensures ok <==> Number(s, '%').Some?
    ensures ok ==> var f := Number(s, '%').value;
                   str == f.text && n == Atoi(f.text) && q == p + |f.text| && Stores(buf, q + 1, f.rest)
    ensures buf[..] == old(buf[..])
  {
    q, n, str, ok := FindNumber(buf, p, '%', s);
    if ok {
      assert old(buf[p + |Number(s, '%').value.text|]) == s[|Number(s, '%').value.text|];
      buf[q] := '%';
      assert buf[..] == old(buf[..]);
      assert forall i :: 0 <= i < buf.Length ==> buf[..][i] == old(buf[..])[i];
      StoresTail(buf, p, s, q + 1 - p);
    }
  }

  /** The three numbers behind the bracket. */
  method ParseNumbers(buf: array<char>, p: nat, ghost s: string) returns (r: Result<Range>)
    requires Stores(buf, p, s)
    modifies buf
    ensures r == match ThreeNumbers(s) case Some(n) => Ok(RangeOf(n)) case None => Err(USER_INPUT_FORMAT_ERR)
    ensures r.Ok? ==> buf[..p] == old(buf[..p])
    ensures r.Err? ==> buf[..] == old(buf[..])
  {
    var p2, start, startStr, ok := PeekNumber(buf, p, s);
    if !ok {
      return Err(USER_INPUT_FORMAT_ERR);
    }
    ghost var first := Number(s, '%').value;
    var p4, stride, strideStr, ok2 := PeekNumber(buf, p2 + 1, first.rest);
    if !ok2 {
      return Err(USER_INPUT_FORMAT_ERR);
    }
    ghost var was := buf[..];
    ghost var second := Number(first.rest, '%').value;
    var p6, end, endStr, ok3 := FindNumber(buf, p4 + 1, ']', second.rest);
    if !ok3 {
      return Err(USER_INPUT_FORMAT_ERR);
    }
    assert buf[..p] == was[..p];
    r := Ok(Range(start, startStr, stride, end, endStr));
  }

  /** parseNcSubset. The buffer keeps the name alone; when the form is wrong, nothing of it is changed. */
  method ParseNcSubset(buf: array<char>, ghost s: string) returns (r: Result<Range>)
    requires Stores(buf, 0, s)
    modifies buf
    ensures r == match Parse(s) case Some(p) => Ok(RangeOf(p.numbers)) case None => Err(USER_INPUT_FORMAT_ERR)
    ensures r.Ok? ==> Stores(buf, 0, Parse(s).value.name)
    ensures r.Err? ==> buf[..] == old(buf[..])
    ensures r.Ok? <==> exists name, start, stride, end, tail :: IsRequest(s, name, start, stride, end, tail)
    ensures forall name, start, stride, end, tail :: IsRequest(s, name, start, stride, end, tail) ==>
              r == Ok(Range(Atoi(start), start, Atoi(stride), Atoi(end), end)) && Stores(buf, 0, name)
  {
    RequestsParse(s);
    var endPtr, found := StrChr(buf, 0, '[', s);
    if !found {
      return Err(USER_INPUT_FORMAT_ERR);
    }
    r := ParseBehind(buf, endPtr, s);
  }

  /** What is left to do once the bracket has been found. */
  method ParseBehind(buf: array<char>, endPtr: nat, ghost s: string) returns (r: Result<Range>)
    requires Stores(buf, 0, s) && Cut(s, '[').Some? && endPtr == |Cut(s, '[').value.text|
    modifies buf
    ensures r == match ThreeNumbers(Cut(s, '[').value.rest)
                 case Some(n) => Ok(RangeOf(n))
                 case None => Err(USER_INPUT_FORMAT_ERR)
    ensures r.Ok? ==> Stores(buf, 0, Cut(s, '[').value.text)
    ensures r.Err? ==> buf[..] == old(buf[..])
  {
    ghost var name := Cut(s, '[').value;
    StoresTail(buf, 0, s, endPtr + 1);
    assert buf[..endPtr] == name.text;
    r := ParseNumbers(buf, endPtr + 1, name.rest);
    if r.Ok? {
      KeptPrefix(buf[..], old(buf[..]), endPtr);
      Truncate(buf, endPtr, name.text);
    }
  }

  lemma KeptPrefix(a: seq<char>, b: seq<char>, n: nat)
    requires n < |a| && n < |b| && a[..n + 1] == b[..n + 1]
    ensures a[..n] == b[..n]
  {
    assert a[..n] == a[..n + 1][..n];
  }

  method Truncate(buf: array<char>, endPtr: nat, ghost name: string)
    requires endPtr == |name| < buf.Length && buf[..endPtr] == name && NUL !in name
    modifies buf
    ensures Stores(buf, 0, name)
  {
    buf[endPtr] := NUL;
    assert forall i: nat :: i < |name| ==> buf[i] == old(buf[..endPtr])[i];
  }

  // ----- several requests -----

  function Requests(words: seq<string>): (r: seq<Option<SubsetRequest>>)
    ensures |r| == |words|
  {
    seq(|words|, i requires 0 <= i < |words| => Request(words[i]))
  }

  /** The results are these requests, one by one. */
  ghost predicate Yield(results: seq<Option<SubsetRequest>>, subsets: seq<SubsetRequest>) {
    |results| == |subsets| && forall i: nat :: i < |results| ==> results[i] == Some(subsets[i])
  }

  lemma YieldNext(results: seq<Option<SubsetRequest>>, i: nat, subsets: seq<SubsetRequest>, s: SubsetRequest)
    requires i < |results| && Yield(results[..i], subsets) && results[i] == Some(s)
    ensures Yield(results[..i + 1], subsets + [s])
  {
    assert results[..i + 1] == results[..i] + [Some(s)];
  }

  method ParseWord(word: string) returns (r: Result<SubsetRequest>)
    requires NUL !in word
    ensures r == match Request(word) case Some(s) => Ok(s) case None => Err(USER_INPUT_FORMAT_ERR)
  {
    var buf := new char[|word| + 1](i => if 0 <= i < |word| then word[i] else NUL);
    var range := ParseNcSubset(buf, word);
    if range.Err? {
      return Err(range.error);
    }
    var name := ReadString(buf, 0, Parse(word).value.name);
    r := Ok(SubsetRequest(name, range.value));
  }

  /** parseSubsetStr on the words of its argument: fails at the first word that is not in the form, and
      takes no notice of what comes after the MAX_NUM_VAR-th request. */
  method ParseSubsetStr(words: seq<string>) returns (r: Result<()>, subsets: seq<SubsetRequest>)
    requires forall i :: 0 <= i < |words| ==> NUL !in words[i]
    ensures |subsets| <= |words| && |subsets| <= 64 && Yield(Requests(words)[..|subsets|], subsets)
    ensures r.Ok? ==> |subsets| == |words| || |subsets| == 64
    ensures r.Err? ==> r.error == USER_INPUT_FORMAT_ERR && |subsets| < |words| && |subsets| < 64
                       && Requests(words)[|subsets|] == None
  {
    ghost var results := Requests(words);
    subsets := [];
    var i := 0;
    while i < |words|
      invariant 0 <= i <= |words| && |subsets| == i < MAX_NUM_VAR && Yield(results[..i], subsets)
    {
      var s := ParseWord(words[i]);
      assert results[i] == Request(words[i]);
      if s.Err? {
        return Err(s.error), subsets;
      }
      YieldNext(results, i, subsets, s.value);
      subsets := subsets + [s.value];
      i := i + 1;
      if i >= MAX_NUM_VAR {
        break;
      }
    }
    r := Ok(());
  }
}
