/** C strings and the library routines that the token and form parsers use: strstr, strchr, strtoll, %llu. */
module Text {
  import opened Common

  /** A string as the bytes of its characters. */
  function Bytes(s: string): (b: seq<byte>)
    ensures |b| == |s|
  {
    seq(|s|, i requires 0 <= i < |s| => (s[i] as int) % 256)
  }

  function Chars(b: seq<byte>): (s: string)
    ensures |s| == |b|
  {
    seq(|b|, i requires 0 <= i < |b| => b[i] as char)
  }

  predicate IsCString(s: string) {
    forall i :: 0 <= i < |s| ==> 0 < s[i] as int < 256
  }

  lemma CharsOfBytes(s: string)
    requires IsCString(s)
    ensures Chars(Bytes(s)) == s
  {
  }

  /** What a C string function sees of a buffer: the characters before the first NUL. */
  function UpToNul(s: string): (r: string)
    ensures IsPrefix(r, s) && 0 as char !in r
    ensures 0 as char !in s ==> r == s
  {
    if s == "" || s[0] == 0 as char then "" else [s[0]] + UpToNul(s[1..])
  }

  predicate IsPrefix(r: string, s: string) {
    |r| <= |s| && s[..|r|] == r
  }

  predicate EndsWith(s: string, t: string) {
    |t| <= |s| && s[|s| - |t|..] == t
  }

  predicate OccursAt(s: string, needle: string, i: int) {
    0 <= i <= |s| - |needle| && s[i..i + |needle|] == needle
  }

  /** `strstr` from position `from` on: the first occurrence, or -1. */
  function IndexOf(s: string, needle: string, from: nat): (i: int)
    requires from <= |s|
    ensures i == -1 || (from <= i && OccursAt(s, needle, i))
    ensures forall j :: from <= j && (i == -1 || j < i) ==> !OccursAt(s, needle, j)
    decreases |s| - from
  {
    if OccursAt(s, needle, from) then from
    else if from == |s| then -1
    else IndexOf(s, needle, from + 1)
  }

  lemma IndexIs(s: string, needle: string, from: nat, i: int)
    requires from <= i && OccursAt(s, needle, i)
    requires forall j :: from <= j < i ==> !OccursAt(s, needle, j)
    ensures from <= |s| && IndexOf(s, needle, from) == i
  {
  }

  /** `strchr` from position `from` on: the first occurrence of c, or -1. */
  function IndexOfChar(s: string, c: char, from: nat): (i: int)
    requires from <= |s|
    ensures i == -1 || (from <= i < |s| && s[i] == c)
    ensures forall j :: from <= j < |s| && (i == -1 || j < i) ==> s[j] != c
    decreases |s| - from
  {
    if from == |s| then -1
    else if s[from] == c then from
    else IndexOfChar(s, c, from + 1)
  }

  lemma CharIndexIs(s: string, c: char, from: nat, i: int)
    requires from <= i < |s| && s[i] == c && forall j :: from <= j < i ==> s[j] != c
    ensures IndexOfChar(s, c, from) == i
  {
  }

  // ----------------------------------------------------------------- decimals

  predicate IsDigit(c: char) {
    '0' <= c <= '9'
  }

  function Digit(d: nat): (c: char)
    requires d < 10
    ensures IsDigit(c)
  {
    ('0' as int + d) as char
  }

  /** `%llu`. */
  function Decimal(n: nat): (s: string)
    ensures s != "" && forall i :: 0 <= i < |s| ==> IsDigit(s[i])
  {
    if n < 10 then [Digit(n)] else Decimal(n / 10) + [Digit(n % 10)]
  }

  function DigitOf(c: char): nat
    requires IsDigit(c)
  {
    c as int - '0' as int
  }

  function DigitsValue(s: string): nat
    requires forall i :: 0 <= i < |s| ==> IsDigit(s[i])
  {
    if s == "" then 0 else 10 * DigitsValue(s[..|s| - 1]) + DigitOf(s[|s| - 1])
  }

  lemma {:induction false} ValueOfDecimal(n: nat)
    ensures DigitsValue(Decimal(n)) == n
  {
    if n < 10 {
      assert Decimal(n)[..0] == "";
    } else {
      assert Decimal(n)[..|Decimal(n)| - 1] == Decimal(n / 10);
      ValueOfDecimal(n / 10);
    }
  }

  predicate IsSpace(c: char) {
    c == ' ' || 9 <= c as int <= 13
  }

  function SkipSpaces(s: string): string {
    if s != "" && IsSpace(s[0]) then SkipSpaces(s[1..]) else s
  }

  /** The length of the longest prefix of digits. */
  function DigitRun(s: string): (n: nat)
    ensures n <= |s| && forall i :: 0 <= i < n ==> IsDigit(s[i])
    ensures n < |s| ==> !IsDigit(s[n])
  {
    if s != "" && IsDigit(s[0]) then 1 + DigitRun(s[1..]) else 0
  }

  lemma {:induction false} RunOfDigits(d: string, rest: string)
    requires forall i :: 0 <= i < |d| ==> IsDigit(d[i])
    requires rest == "" || !IsDigit(rest[0])
    ensures DigitRun(d + rest) == |d|
  {
    if d == "" {
      assert d + rest == rest;
    } else {
      assert (d + rest)[1..] == d[1..] + rest;
      RunOfDigits(d[1..], rest);
    }
  }

  const INT64_MAX := 0x7FFF_FFFF_FFFF_FFFF

  function Saturate(v: int): int {
    if v > INT64_MAX then INT64_MAX else if v < -INT64_MAX - 1 then -INT64_MAX - 1 else v
  }

  /** `strtoll` in base 10; None when no digit is read. */
  function Strtoll(s: string): Option<int> {
    var t := SkipSpaces(s);
    var negative := t != "" && t[0] == '-';
    var u := if t != "" && (t[0] == '-' || t[0] == '+') then t[1..] else t;
    var n := DigitRun(u);
    if n == 0 then None
    else Some(Saturate(if negative then 0 - DigitsValue(u[..n]) else DigitsValue(u[..n])))
  }

  /** Reading back a printed number that is followed by something other than a digit. */
  lemma StrtollReadsDecimal(n: nat, rest: string)
    requires rest == "" || !IsDigit(rest[0])
    ensures Strtoll(Decimal(n) + rest) == Some(Saturate(n))
  {
    var s := Decimal(n) + rest;
    assert s[0] == Decimal(n)[0] && IsDigit(s[0]);
    assert SkipSpaces(s) == s;
    RunOfDigits(Decimal(n), rest);
    assert s[..|Decimal(n)|] == Decimal(n);
    ValueOfDecimal(n);
  }

  lemma StrtollReadsNegative(n: nat, rest: string)
    requires rest == "" || !IsDigit(rest[0])
    ensures Strtoll("-" + Decimal(n) + rest) == Some(Saturate(0 - n))
  {
    hide Decimal, SkipSpaces, DigitRun, DigitsValue, Saturate;
    var s, d := "-" + Decimal(n) + rest, Decimal(n);
    NoSpace(s);
    assert s[1..] == d + rest && (d + rest)[..|d|] == d;
    RunOfDigits(d, rest);
    ValueOfDecimal(n);
  }

  lemma NoSpace(s: string)
    requires s != "" && !IsSpace(s[0])
    ensures SkipSpaces(s) == s
  {
  }

  lemma StrtollNeedsDigit(s: string)
    requires s != "" && !IsSpace(s[0]) && !IsDigit(s[0]) && s[0] != '-' && s[0] != '+'
    ensures Strtoll(s) == None
  {
  }
}
