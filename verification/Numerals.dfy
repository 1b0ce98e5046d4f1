/** Numbers as the strings JavaScript prints and reads: decimal numerals, padding, trimming, splitting. */
module Numerals {
  import opened Options

  function Digit(d: nat): (c: char)
    requires d < 10
    ensures IsDigit(c) && DigitValue(c) == d
  {
    '0' + d as char
  }

  predicate IsDigit(c: char) {
    '0' <= c <= '9'
  }

  function DigitValue(c: char): nat
    requires IsDigit(c)
  {
    c as int - '0' as int
  }

  predicate IsHex(c: char) {
    '0' <= c <= '9' || 'a' <= c <= 'f' || 'A' <= c <= 'F'
  }

  function HexDigit(c: char): (d: nat)
    requires IsHex(c)
    ensures d < 16
  {
    if c <= '9' then c as int - '0' as int
    else if c <= 'F' then c as int - 'A' as int + 10
    else c as int - 'a' as int + 10
  }

  /** The sixteen digits and their values, in either case. */
  lemma HexDigitMeans(d: nat)
    requires d < 16
    ensures var lower, upper := "0123456789abcdef"[d], "0123456789ABCDEF"[d];
      IsHex(lower) && HexDigit(lower) == d && IsHex(upper) && HexDigit(upper) == d
  {
  }

  predicate AllDigits(s: string) {
    forall c :: c in s ==> IsDigit(c)
  }

  /** String(n) for a natural number. */
  function Decimal(n: nat): (s: string)
    ensures |s| > 0
  {
    if n < 10 then [Digit(n)] else Decimal(n / 10) + [Digit(n % 10)]
  }

  /** The last width digits of n, zeros included. */
  function Padded(n: nat, width: nat): (s: string)
    ensures |s| == width
  {
    if width == 0 then "" else Padded(n / 10, width - 1) + [Digit(n % 10)]
  }

  /** The number a run of digits denotes. */
  function Value(s: string): nat
    requires AllDigits(s)
  {
    if s == "" then 0 else 10 * Value(s[..|s| - 1]) + DigitValue(s[|s| - 1])
  }

  function Pow10(e: nat): (p: nat)
    ensures p > 0
  {
    if e == 0 then 1 else 10 * Pow10(e - 1)
  }

  lemma DecimalReadsBack(n: nat)
    ensures AllDigits(Decimal(n)) && Value(Decimal(n)) == n
  {
    if n >= 10 {
      DecimalReadsBack(n / 10);
      assert Decimal(n)[..|Decimal(n)| - 1] == Decimal(n / 10);
    }
  }

  /** A printed natural number has no leading zero but zero itself. */
  lemma {:induction false} NoLeadingZero(n: nat)
    ensures Decimal(n)[0] == '0' ==> Decimal(n) == "0"
    ensures n > 0 ==> Decimal(n)[0] != '0'
  {
    if n >= 10 {
      NoLeadingZero(n / 10);
    }
  }

  /** n without its last width digits. */
  function Whole(n: nat, width: nat): nat {
    if width == 0 then n else Whole(n / 10, width - 1)
  }

  lemma {:induction false} ValueOfOneMore(t: string, d: nat)
    requires AllDigits(t) && d < 10
    ensures AllDigits(t + [Digit(d)]) && Value(t + [Digit(d)]) == 10 * Value(t) + d
  {
    assert (t + [Digit(d)])[..|t|] == t;
  }

  /** The whole part followed by the last digits is the numeral again. */
  lemma {:induction false} WholeAndPadded(n: nat, width: nat)
    ensures AllDigits(Decimal(Whole(n, width))) && AllDigits(Padded(n, width))
    ensures Value(Decimal(Whole(n, width)) + Padded(n, width)) == n
  {
    hide Value;
    if width == 0 {
      DecimalReadsBack(n);
      assert Decimal(n) + "" == Decimal(n);
    } else {
      var s := Decimal(Whole(n, width)) + Padded(n, width);
      WholeAndPadded(n / 10, width - 1);
      var t := Decimal(Whole(n / 10, width - 1)) + Padded(n / 10, width - 1);
      assert s == t + [Digit(n % 10)];
      ValueOfOneMore(t, n % 10);
    }
  }

  /** The part of s before its first c, and the part after it, if c occurs. */
  function FirstSplit(s: string, c: char): (r: Option<(string, string)>)
    ensures r.None? <==> c !in s
    ensures r.Some? ==> s == r.value.0 + [c] + r.value.1 && c !in r.value.0
  {
    if s == "" then None
    else if s[0] == c then Some(("", s[1..]))
    else
      match FirstSplit(s[1..], c)
      case None => None
      case Some((a, b)) => Some(([s[0]] + a, b))
  }

  /** s.split(c). */
  function Split(s: string, c: char): (r: seq<string>)
    ensures |r| > 0
    decreases |s|
  {
    match FirstSplit(s, c)
    case None => [s]
    case Some((a, b)) => [a] + Split(b, c)
  }

  /** parts.join(c). */
  function Join(parts: seq<string>, c: char): string {
    if parts == [] then ""
    else if |parts| == 1 then parts[0]
    else parts[0] + [c] + Join(parts[1..], c)
  }

  lemma {:induction false} FirstSplitAt(a: string, c: char, b: string)
    requires c !in a
    ensures FirstSplit(a + [c] + b, c) == Some((a, b))
  {
    var s := a + [c] + b;
    if a == "" {
      assert s[1..] == b;
    } else {
      assert s[1..] == a[1..] + [c] + b;
      FirstSplitAt(a[1..], c, b);
      assert [a[0]] + a[1..] == a;
    }
  }

  /** Joining what a split took apart gives the string back. */
  lemma {:induction false} JoinSplit(s: string, c: char)
    ensures Join(Split(s, c), c) == s
    decreases |s|
  {
    match FirstSplit(s, c)
    case None =>
    case Some((a, b)) =>
      JoinSplit(b, c);
      assert Split(s, c)[1..] == Split(b, c);
  }

  /** White space as JavaScript's trim() sees it. */
  predicate IsSpace(c: char) {
    c == ' ' || '\t' <= c <= '\r' || c == '\U{A0}' || c == '\U{FEFF}' || c == '\U{1680}'
    || '\U{2000}' <= c <= '\U{200A}'
    || c == '\U{2028}' || c == '\U{2029}' || c == '\U{202F}' || c == '\U{205F}' || c == '\U{3000}'
  }

  /** WhiteSpace and LineTerminator, sections 12.2 and 12.3 of ECMA-262, by code point. */
  lemma SpaceMeans(c: char)
    ensures var n := c as int; IsSpace(c) <==>
      || 9 <= n <= 13 || n == 32 || n == 160 || n == 0x1680 || 0x2000 <= n <= 0x200A || n == 0x2028 || n == 0x2029
      || n == 0x202F || n == 0x205F || n == 0x3000 || n == 0xFEFF
  {
  }

  function TrimBy(s: string, space: char -> bool): string
    decreases |s|
  {
    if s == "" then ""
    else if space(s[0]) then TrimBy(s[1..], space)
    else if space(s[|s| - 1]) then TrimBy(s[..|s| - 1], space)
    else s
  }

  function Trim(s: string): string {
    TrimBy(s, IsSpace)
  }

  /** Trimming takes white space off both ends, and nothing else. */
  lemma {:induction false} TrimMeans(before: string, s: string, after: string, space: char -> bool)
    requires forall c :: c in before || c in after ==> space(c)
    requires s != "" ==> !space(s[0]) && !space(s[|s| - 1])
    ensures TrimBy(before + s + after, space) == s
    decreases |before| + |after|
  {
    var all := before + s + after;
    if before != "" {
      assert all[0] == before[0] && all[1..] == before[1..] + s + after;
      TrimMeans(before[1..], s, after, space);
    } else if after != "" && s != "" {
      var n := |after| - 1;
      assert all[0] == s[0] && all[|all| - 1] == after[n] && all[..|all| - 1] == before + s + after[..n];
      TrimMeans(before, s, after[..n], space);
    } else if after != "" {
      assert all[0] == after[0] && all[1..] == before + s + after[1..];
      TrimMeans(before, s, after[1..], space);
    } else {
      assert all == s;
    }
  }

  lemma {:induction false} SplitNone(s: string, c: char)
    requires c !in s
    ensures Split(s, c) == [s]
  {
  }
}
