/** Decimal printing (%d) and atoi. */
module Decimal {

  predicate IsDigit(c: char) {
    '0' <= c <= '9'
  }

  predicate AllDigits(s: string) {
    |s| > 0 && forall i :: 0 <= i < |s| ==> IsDigit(s[i])
  }

  function DigitChar(d: nat): char
    requires d < 10
  {
    ('0' as int + d) as char
  }

  /** Without leading zeros. */
  function Print(n: nat): (s: string)
    ensures AllDigits(s) && (s[0] == '0' ==> s == "0")
    ensures s == "0" <==> n == 0
  {
    if n < 10 then [DigitChar(n)] else Print(n / 10) + [DigitChar(n % 10)]
  }

  /** atoi continued after digits worth acc: stops at the first character that is no digit. */
  function AtoiFrom(s: string, acc: nat): nat {
    if |s| > 0 && IsDigit(s[0]) then AtoiFrom(s[1..], acc * 10 + (s[0] as int - '0' as int))
    else acc
  }

  function Atoi(s: string): nat {
    AtoiFrom(s, 0)
  }

  lemma {:induction false} AtoiAfterPrint(n: nat, rest: string)
    ensures AtoiFrom(Print(n) + rest, 0) == AtoiFrom(rest, n)
  {
    if n < 10 {
      assert (Print(n) + rest)[1..] == rest;
    } else {
      var last := [DigitChar(n % 10)];
      assert Print(n) + rest == Print(n / 10) + (last + rest);
      AtoiAfterPrint(n / 10, last + rest);
      assert (last + rest)[1..] == rest;
    }
  }

  /** What atoi makes of a text: nothing behind the digits counts, and a further digit is worth its value
      and ten times the digits before it. */
  lemma {:induction false} AtoiFromDigits(digits: string, acc: nat, rest: string)
    requires forall i :: 0 <= i < |digits| ==> IsDigit(digits[i])
    ensures AtoiFrom(digits + rest, acc) == AtoiFrom(rest, AtoiFrom(digits, acc))
  {
    if |digits| > 0 {
      assert (digits + rest)[1..] == digits[1..] + rest;
      AtoiFromDigits(digits[1..], acc * 10 + (digits[0] as int - '0' as int), rest);
    } else {
      assert digits + rest == rest;
    }
  }

  lemma AtoiOf(digits: string, c: char, rest: string)
    requires forall i :: 0 <= i < |digits| ==> IsDigit(digits[i])
    ensures Atoi("") == 0
    ensures !IsDigit(c) ==> Atoi(digits + [c] + rest) == Atoi(digits)
    ensures IsDigit(c) ==> Atoi(digits + [c]) == 10 * Atoi(digits) + (c as int - '0' as int)
  {
    AtoiFromDigits(digits, 0, [c] + rest);
    assert digits + [c] + rest == digits + ([c] + rest);
    AtoiFromDigits(digits, 0, [c]);
    assert [c][1..] == "";
  }

  /** A text that starts with a digit is its leading digits and the rest. */
  lemma {:induction false} SplitDigits(s: string) returns (digits: string, rest: string)
    requires |s| > 0 && IsDigit(s[0])
    ensures s == digits + rest && AllDigits(digits) && (|rest| > 0 ==> !IsDigit(rest[0]))
  {
    if |s| > 1 && IsDigit(s[1]) {
      digits, rest := SplitDigits(s[1..]);
      digits := [s[0]] + digits;
    } else {
      digits, rest := s[..1], s[1..];
    }
  }

  /** atoi reads the leading digits. */
  lemma AtoiPrefix(digits: string, rest: string)
    requires AllDigits(digits) && (|rest| > 0 ==> !IsDigit(rest[0]))
    ensures Atoi(digits + rest) == Atoi(digits)
  {
    AtoiFromDigits(digits, 0, rest);
  }

  /** There is one text without leading zeros for every number. */
  lemma {:induction false} PrintExactly(n: nat, s: string)
    ensures s == Print(n) <==> AllDigits(s) && (s[0] == '0' ==> s == "0") && Atoi(s) == n
    decreases |s|
  {
    AtoiPrint(n, "");
    assert Print(n) + "" == Print(n);
    if AllDigits(s) && (s[0] == '0' ==> s == "0") && Atoi(s) == n {
      var front, c := s[..|s| - 1], s[|s| - 1];
      assert s == front + [c];
      AtoiOf(front, c, "");
      if |s| > 1 {
        PrintExactly(Atoi(front), front);
        assert Atoi(front) > 0;
      } else {
        assert front == "" && s == [c];
      }
    }
  }

  /** atoi inverts %d, whatever follows the number. */
  lemma AtoiPrint(n: nat, rest: string)
    requires |rest| > 0 ==> !IsDigit(rest[0])
    ensures Atoi(Print(n) + rest) == n
  {
    AtoiAfterPrint(n, rest);
  }
}
