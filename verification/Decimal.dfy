/** The decimal text of numbers, as `int_to_str` of `calculator.c` prints it. */
module Decimal {
  import opened Machine

  const INT64_MIN := -0x8000_0000_0000_0000
  const INT64_MAX := 0x7FFF_FFFF_FFFF_FFFF

  function DigitChar(d: int): (c: char)
    requires 0 <= d < 10
    ensures IsDigit(c) && DigitValue(c) == d
  {
    '0' + d as char
  }

  predicate IsDigit(c: char) {
    '0' <= c <= '9'
  }

  function DigitValue(c: char): (d: int)
    requires IsDigit(c)
    ensures 0 <= d < 10
  {
    c as int - '0' as int
  }

  /** The decimal digits of a number. */
  function Digits(n: nat): (s: string)
    ensures s != [] && forall i {:trigger s[i]} :: 0 <= i < |s| ==> IsDigit(s[i])
  {
    if n < 10 then [DigitChar(n)] else Digits(n / 10) + [DigitChar(n % 10)]
  }

  function Text(v: int): (s: string)
    ensures s != []
  {
    if v < 0 then ['-'] + Digits(-v) else Digits(v)
  }

  // ---------- Reading it back ----------

  predicate AllDigits(s: string) {
    forall i :: 0 <= i < |s| ==> IsDigit(s[i])
  }

  function Value(s: string): (n: int)
    requires AllDigits(s)
    ensures n >= 0
  {
    if s == [] then 0 else Value(s[..|s| - 1]) * 10 + DigitValue(s[|s| - 1])
  }

  /** The number a text stands for: digits, perhaps behind a minus sign. */
  function Parse(s: string): Option<int> {
    if s != [] && AllDigits(s) then Some(Value(s))
    else if |s| > 1 && s[0] == '-' && AllDigits(s[1..]) then Some(-Value(s[1..]))
    else None
  }

  lemma {:induction false} ValueOfDigits(n: nat)
    ensures AllDigits(Digits(n)) && Value(Digits(n)) == n
  {
    if n >= 10 {
      ValueOfDigits(n / 10);
      var s := Digits(n / 10);
      assert Digits(n) == s + [DigitChar(n % 10)] && Digits(n)[..|s|] == s;
    }
  }

  lemma ParseText(v: int)
    ensures Parse(Text(v)) == Some(v)
  {
    ValueOfDigits(if v < 0 then -v else v);
    if v < 0 {
      assert Text(v)[1..] == Digits(-v) && !IsDigit(Text(v)[0]);
    }
  }

  lemma TextInjective(v: int, w: int)
    requires Text(v) == Text(w)
    ensures v == w
  {
    ParseText(v);
    ParseText(w);
  }

  /** No leading zero, except for zero itself. */
  lemma {:induction false} DigitsCanonical(n: nat)
    ensures Digits(n)[0] == '0' <==> n == 0
    ensures n == 0 <==> Digits(n) == "0"
  {
    if n >= 10 {
      DigitsCanonical(n / 10);
      assert Digits(n)[0] == Digits(n / 10)[0];
    }
  }

  /** One more digit. */
  lemma TextOfNext(v: int, d: int)
    requires 0 < v && 0 <= d < 10
    ensures Text(v * 10 + d) == Text(v) + [DigitChar(d)]
  {
    assert (v * 10 + d) / 10 == v && (v * 10 + d) % 10 == d;
  }

  function Pow10(k: nat): nat {
    if k == 0 then 1 else 10 * Pow10(k - 1)
  }

  lemma {:induction false} DigitsFit(n: nat, k: nat)
    requires k > 0 && n < Pow10(k)
    ensures |Digits(n)| <= k
  {
    if n >= 10 {
      if k > 1 { DigitsFit(n / 10, k - 1); }
    }
  }

  lemma TextFits(v: int)
    requires Int64(v)
    ensures |Text(v)| <= 20
  {
    Powers();
    DigitsFit(if v < 0 then -v else v, 19);
  }

  // ---------- int_to_str ----------

  /** What is printed: the least number has no positive counterpart, and loses its digits. */
  function Printed(v: int): string
    requires Int64(v)
  {
    if v == INT64_MIN then "-" else Text(v)
  }

  /** A printed number reads back as itself, except for the least of all. */
  lemma PrintedReads(v: int)
    requires Int64(v)
    ensures Parse(Printed(v)) == Some(v) <==> v != INT64_MIN
  {
    ParseText(v);
  }

  function Reversed(s: string): (r: string)
    ensures |r| == |s|
    ensures forall i {:trigger r[i]} :: 0 <= i < |s| ==> r[i] == s[|s| - 1 - i]
  {
    seq(|s|, i requires 0 <= i < |s| => s[|s| - 1 - i])
  }

  /** The text up to the terminating zero. */
  function CString(buf: seq<char>): string {
    if buf == [] || buf[0] == '\0' then [] else [buf[0]] + CString(buf[1..])
  }

  lemma {:induction false} CStringIs(buf: seq<char>, s: string)
    requires s + ['\0'] <= buf && forall i :: 0 <= i < |s| ==> s[i] != '\0'
    ensures CString(buf) == s
  {
    if s != [] {
      assert buf[0] == s[0];
      assert s[1..] + ['\0'] <= buf[1..];
      CStringIs(buf[1..], s[1..]);
    }
  }

  /** The digits of a positive number; none of zero. */
  function DigitsLeft(n: nat): string {
    if n == 0 then "" else Digits(n)
  }

  lemma DigitsLeftNext(n: nat, done: string)
    requires n > 0
    ensures DigitsLeft(n / 10) + Reversed(done + [DigitChar(n % 10)]) == DigitsLeft(n) + Reversed(done)
  {
    assert Reversed(done + [DigitChar(n % 10)]) == [DigitChar(n % 10)] + Reversed(done);
  }

  /** Finds the digits of a number, the last one first. */
  method SplitDigits(n: int, rev: array<char>) returns (idx: nat)
    requires n <= INT64_MAX && rev.Length == 64
    modifies rev
    ensures idx <= 19 && Reversed(rev[..idx]) == if n > 0 then Digits(n) else ""
  {
    var temp := n;
    idx := 0;
    if n > 0 { TextFits19(n); }
    while temp > 0
      invariant n > 0 ==> temp >= 0 && |DigitsLeft(temp)| + idx == |Digits(n)|
      invariant n > 0 ==> idx <= 19 && DigitsLeft(temp) + Reversed(rev[..idx]) == Digits(n)
      invariant n <= 0 ==> temp == n && idx == 0
    {
      DigitsLeftNext(temp, rev[..idx]);
      rev[idx] := DigitChar(temp % 10);
      idx := idx + 1;
      assert rev[..idx] == rev[..idx - 1] + [DigitChar(temp % 10)];
      temp := temp / 10;
    }
  }

  method PutReversed(buf: array<char>, start: nat, rev: array<char>, idx: nat)
    requires idx <= rev.Length && start + idx < buf.Length && buf != rev
    modifies buf
    ensures buf[..start + idx + 1] == old(buf[..start]) + Reversed(rev[..idx]) + ['\0']
  {
    var i := 0;
    while i < idx
      invariant i <= idx
      invariant buf[..start + i] == old(buf[..start]) + Reversed(rev[..idx])[..i]
    {
      buf[start + i] := rev[idx - 1 - i];
      i := i + 1;
    }
    buf[start + idx] := '\0';
  }

  /** Prints `val` into `buf`: its digits are found from the last to the first. */
  method IntToStr(val: int, buf: array<char>)
    requires Int64(val) && buf.Length >= 21
    modifies buf
    ensures CString(buf[..]) == Printed(val)
  {
    if val == 0 {
      buf[0], buf[1] := '0', '\0';
      CStringIs(buf[..], "0");
      return;
    }
    var temp := if val < 0 then Signed64(-val) else val;
    var rev := new char[64];
    var idx := SplitDigits(temp, rev);
    var start := 0;
    if val < 0 {
      buf[0] := '-';
      start := 1;
    }
    assert buf[..start] == if val < 0 then "-" else "";
    PutReversed(buf, start, rev, idx);
    PrintedHasNoNul(val);
    assert Printed(val) + ['\0'] == buf[..start + idx + 1];
    CStringIs(buf[..], Printed(val));
  }

  lemma PrintedHasNoNul(v: int)
    requires Int64(v)
    ensures forall i :: 0 <= i < |Printed(v)| ==> Printed(v)[i] != '\0'
  {
  }

  lemma TextFits19(n: int)
    requires 0 < n <= INT64_MAX
    ensures |Digits(n)| <= 19
  {
    Powers();
    DigitsFit(n, 19);
  }

  lemma Powers()
    ensures Pow10(19) == 10000000000000000000
  {
    assert Pow10(5) == 100000;
    assert Pow10(10) == 10000000000;
    assert Pow10(15) == 1000000000000000;
  }
}
