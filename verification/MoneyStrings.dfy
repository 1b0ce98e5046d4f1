/**
 Money as text (src/lib/money.ts): centsToMajorString prints minor units in major
 units, parseMoneyInput reads them back.
 */
module MoneyStrings {
  import opened Options
  import opened Money
  import opened Numerals

  const NO_DECIMALS := {
    "BIF", "CLP", "DJF", "GNF", "ISK", "JPY", "KMF", "KRW", "PYG", "RWF",
    "UGX", "UYI", "VND", "VUV", "XAF", "XOF", "XPF"
  }
  const THREE_DECIMALS := {"BHD", "IQD", "JOD", "KWD", "LYD", "OMR", "TND"}

  function Upper(s: string): string {
    seq(|s|, i requires 0 <= i < |s| => if 'a' <= s[i] <= 'z' then s[i] - 'a' + 'A' else s[i])
  }

  function CurrencyExponent(code: string): nat {
    if Upper(code) in NO_DECIMALS then 0 else if Upper(code) in THREE_DECIMALS then 3 else 2
  }

  /** (amount / 10^e).toFixed(e): the numeral of the amount with a point before its last e digits. */
  function ToFixed(amount: int, e: nat): string {
    var n: nat := if amount < 0 then -amount else amount;
    (if amount < 0 then "-" else "")
    + Decimal(Whole(n, e))
    + if e == 0 then "" else "." + Padded(n, e)
  }

  function CentsToMajorString(amount: Option<int>, code: string): string {
    match amount
    case None => ""
    case Some(a) => ToFixed(a, CurrencyExponent(code))
  }

  /** The decimals of a currency (ISO 4217). */
  lemma ExponentMeans(code: string)
    ensures CurrencyExponent(code) == 0 <==> Upper(code) in {
      "BIF", "CLP", "DJF", "GNF", "ISK", "JPY", "KMF", "KRW", "PYG", "RWF",
      "UGX", "UYI", "VND", "VUV", "XAF", "XOF", "XPF"}
    ensures CurrencyExponent(code) == 3 <==> Upper(code) in {"BHD", "IQD", "JOD", "KWD", "LYD", "OMR", "TND"}
    ensures CurrencyExponent(code) in {0, 2, 3}
  {
    hide Upper;
    assert NO_DECIMALS !! THREE_DECIMALS;
  }

  /** A letter of the code may be in either case. */
  lemma {:induction false} CaseIgnored(code: string, i: nat)
    requires i < |code| && 'a' <= code[i] <= 'z'
    ensures CurrencyExponent(code[i := code[i] - 'a' + 'A']) == CurrencyExponent(code)
  {
    assert Upper(code[i := code[i] - 'a' + 'A']) == Upper(code);
  }

  /** A printed amount: a sign if it is negative, the whole units without a leading zero, and exactly its decimals. */
  lemma {:induction false} PrintedShape(amount: int, code: string) returns (units: string, decimals: string)
    ensures CentsToMajorString(Some(amount), code)
      == (if amount < 0 then "-" else "") + units + if CurrencyExponent(code) == 0 then "" else "." + decimals
    ensures CentsToMajorString(None, code) == ""
    ensures AllDigits(units) && units != "" && (units[0] == '0' ==> units == "0")
    ensures AllDigits(decimals) && |decimals| == CurrencyExponent(code)
    ensures Value(units + decimals) == if amount < 0 then -amount else amount
  {
    var n, e := if amount < 0 then -amount else amount, CurrencyExponent(code);
    units, decimals := Decimal(Whole(n, e)), Padded(n, e);
    WholeAndPadded(n, e);
    NoLeadingZero(Whole(n, e));
  }

  // ---- reading -----------------------------------------------------------

  predicate IsMoneyChar(c: char) {
    IsDigit(c) || c == '.' || c == '-'
  }

  /** String(input).replace(/[^\d.-]/g, ''). */
  function Strip(input: string): string {
    Filter(input, IsMoneyChar)
  }

  /** A finite decimal number, (+/-) mantissa / 10^scale. */
  datatype Number = Number(negative: bool, mantissa: nat, scale: nat)

  function Unsigned(s: string, negative: bool): Option<Number> {
    match FirstSplit(s, '.')
    case None => if s != "" && AllDigits(s) then Some(Number(negative, Value(s), 0)) else None
    case Some((a, b)) =>
      if AllDigits(a) && AllDigits(b) && a + b != "" then Some(Number(negative, Value(a + b), |b|)) else None
  }

  /** Number(s) on the characters that Strip leaves; None is NaN. */
  function ReadNumber(s: string): Option<Number> {
    if s == "" then Some(Number(false, 0, 0))
    else if s[0] == '-' then Unsigned(s[1..], true)
    else Unsigned(s, false)
  }

  /** None is the error thrown for input that is not a number. */
  function ParseMoneyInput(input: string, code: string): Option<int> {
    match ReadNumber(Strip(input))
    case None => None
    case Some(Number(negative, mantissa, scale)) =>
      var minor := mantissa * Pow10(CurrencyExponent(code));
      Some(MathRound(if negative then -minor else minor, Pow10(scale)))
  }

  /**
   What is read as a number: nothing at all, as zero; or an optional minus sign, digits, and optionally a point
   and digits, at least one digit in all. The digits on both sides of the point are the mantissa.
   */
  ghost predicate Spells(s: string, n: Number, a: string, point: bool, b: string) {
    && AllDigits(a) && AllDigits(b) && |a| + |b| > 0 && (point || b == "")
    && s == (if n.negative then "-" else "") + a + (if point then "." else "") + b
    && n.mantissa == Value(a + b) && n.scale == |b|
  }

  lemma {:induction false} UnsignedReads(a: string, point: bool, b: string, negative: bool)
    requires AllDigits(a) && AllDigits(b) && |a| + |b| > 0 && (point || b == "")
    ensures Unsigned(a + (if point then "." else "") + b, negative) == Some(Number(negative, Value(a + b), |b|))
  {
    NoDot(a);
    if point {
      assert a + "." + b == a + ['.'] + b;
      FirstSplitAt(a, '.', b);
    } else {
      assert a + "" + b == a == a + b;
    }
  }

  lemma {:induction false} SpelledIsRead(s: string, n: Number, a: string, point: bool, b: string)
    requires Spells(s, n, a, point, b)
    ensures ReadNumber(s) == Some(n)
  {
    UnsignedReads(a, point, b, n.negative);
    var rest := a + (if point then "." else "") + b;
    if n.negative {
      assert s == "-" + rest && s[1..] == rest;
    } else {
      NoDot(a);
      assert s == rest;
      assert s[0] == if a != "" then a[0] else '.';
      assert a != "" ==> a[0] in a;
    }
  }

  lemma {:induction false} ReadIsSpelled(s: string) returns (a: string, point: bool, b: string)
    requires s != "" && ReadNumber(s).Some?
    ensures Spells(s, ReadNumber(s).value, a, point, b)
  {
    hide Unsigned;
    if s[0] == '-' {
      assert s == "-" + s[1..];
      a, point, b := UnsignedIsSpelled(s[1..], true);
      assert "-" + (a + (if point then "." else "") + b) == "-" + a + (if point then "." else "") + b;
    } else {
      a, point, b := UnsignedIsSpelled(s, false);
      assert "" + a == a;
    }
  }

  lemma {:induction false} UnsignedIsSpelled(s: string, negative: bool) returns (a: string, point: bool, b: string)
    requires Unsigned(s, negative).Some?
    ensures AllDigits(a) && AllDigits(b) && |a| + |b| > 0 && (point || b == "")
    ensures s == a + (if point then "." else "") + b
    ensures Unsigned(s, negative) == Some(Number(negative, Value(a + b), |b|))
  {
    match FirstSplit(s, '.') {
      case None =>
        a, point, b := s, false, "";
        assert s + "" == s;
      case Some(parts) =>
        a, point, b := parts.0, true, parts.1;
        assert s == a + "." + b;
    }
  }

  /**
   A whole number of units is that many times 1, 100 or 1000 minor units, by the decimals of the currency; no
   input at all is zero.
   */
  lemma {:induction false} WholeUnits(digits: string, code: string)
    requires AllDigits(digits)
    ensures ParseMoneyInput(digits, code) == Some(
      (if digits == "" then 0 else Value(digits))
        * (if CurrencyExponent(code) == 0 then 1 else if CurrencyExponent(code) == 3 then 1000 else 100))
  {
    hide Strip;
    StripKeeps(digits);
    var minor := (if digits == "" then 0 else Value(digits)) * Pow10(CurrencyExponent(code));
    assert Pow10(3) == 1000 && Pow10(2) == 100 && Pow10(1) == 10;
    RoundWhole(minor, 1);
    if digits != "" {
      assert digits + "" == digits;
      SpelledIsRead(digits, Number(false, Value(digits), 0), digits, false, "");
    }
  }

  /** Any number that can be read is rounded to a nearest minor unit, halves up. */
  lemma ParseIsNearest(input: string, code: string)
    requires ReadNumber(Strip(input)).Some?
    ensures ParseMoneyInput(input, code).Some?
    ensures var n := ReadNumber(Strip(input)).value; var unit: int := Pow10(n.scale);
      -unit <= 2 * (Signed(n) * Pow10(CurrencyExponent(code))) - 2 * (ParseMoneyInput(input, code).value * unit) < unit
  {
    hide ReadNumber, Strip, Pow10, MathRound;
    var n := ReadNumber(Strip(input)).value;
    SignedMinor(n, Pow10(CurrencyExponent(code)));
    RoundUp(Signed(n) * Pow10(CurrencyExponent(code)), Pow10(n.scale), ParseMoneyInput(input, code).value);
  }

  lemma SignedMinor(n: Number, p: int)
    ensures Signed(n) * p == if n.negative then -(n.mantissa * p) else n.mantissa * p
  {
    var m: int := n.mantissa;
    assert (-m) * p == -(m * p);
  }

  function Signed(n: Number): int {
    var m: int := n.mantissa;
    if n.negative then -m else m
  }

  // ---- round trip --------------------------------------------------------

  lemma {:induction false} NoDot(s: string)
    requires AllDigits(s)
    ensures '.' !in s && '-' !in s
  {
  }

  lemma {:induction false} ReadsUnsigned(n: nat, e: nat, negative: bool)
    ensures Unsigned(ToFixed(n, e), negative) == Some(Number(negative, n, e))
  {
    var q := Decimal(Whole(n, e));
    WholeAndPadded(n, e);
    NoDot(q);
    if e == 0 {
      assert ToFixed(n, e) == q == q + Padded(n, e);
    } else {
      assert ToFixed(n, e) == q + ['.'] + Padded(n, e);
      FirstSplitAt(q, '.', Padded(n, e));
    }
  }

  lemma {:induction false} StripKeeps(s: string)
    requires forall c :: c in s ==> IsMoneyChar(c)
    ensures Strip(s) == s
  {
    if s != "" {
      StripKeeps(s[..|s| - 1]);
    }
  }

  lemma {:induction false} StripDrops(s: string)
    requires forall c :: c in s ==> !IsMoneyChar(c)
    ensures Strip(s) == ""
  {
    if s != "" {
      StripDrops(s[..|s| - 1]);
    }
  }

  lemma {:induction false} PrintedChars(amount: int, e: nat)
    ensures forall c :: c in ToFixed(amount, e) ==> IsMoneyChar(c)
  {
    var n: nat := if amount < 0 then -amount else amount;
    WholeAndPadded(n, e);
  }

  lemma {:induction false} ReadsPrinted(amount: int, e: nat)
    ensures ReadNumber(ToFixed(amount, e)) == Some(Number(amount < 0, if amount < 0 then -amount else amount, e))
  {
    var n: nat := if amount < 0 then -amount else amount;
    ReadsUnsigned(n, e, amount < 0);
    if amount < 0 {
      assert ToFixed(amount, e) == "-" + ToFixed(n, e);
    } else {
      WholeAndPadded(n, e);
      assert ToFixed(amount, e)[0] == Decimal(Whole(n, e))[0];
      assert ToFixed(amount, e)[0] in Decimal(Whole(n, e));
    }
  }

  lemma RoundWhole(n: int, p: nat)
    requires p > 0
    ensures MathRound(if n < 0 then -((-n) * p) else n * p, p) == n
  {
    assert -((-n) * p) == n * p;
    RoundUp(n * p, p, n);
  }

  /**
   Whatever reads, once stripped, like a printed amount is parsed as exactly that amount: every
   integer, every currency.
   */
  lemma MoneyRoundTrip(amount: int, code: string, input: string)
    requires Strip(input) == CentsToMajorString(Some(amount), code)
    ensures ParseMoneyInput(input, code) == Some(amount)
  {
    ReadsPrinted(amount, CurrencyExponent(code));
    RoundWhole(amount, Pow10(CurrencyExponent(code)));
  }

  /** In particular the printed amount itself. */
  lemma PrintedMoneyParses(amount: int, code: string)
    ensures ParseMoneyInput(CentsToMajorString(Some(amount), code), code) == Some(amount)
  {
    PrintedChars(amount, CurrencyExponent(code));
    StripKeeps(CentsToMajorString(Some(amount), code));
    MoneyRoundTrip(amount, code, CentsToMajorString(Some(amount), code));
  }

  /** Grouping commas, spaces, currency letters and symbols anywhere in the input change nothing. */
  lemma {:induction false} DecorationIgnored(before: string, decoration: string, after: string, code: string)
    requires forall c :: c in decoration ==> !IsMoneyChar(c)
    ensures ParseMoneyInput(before + decoration + after, code) == ParseMoneyInput(before + after, code)
  {
    StripIgnores(before, decoration, after);
  }

  lemma {:induction false} StripIgnores(before: string, decoration: string, after: string)
    requires forall c :: c in decoration ==> !IsMoneyChar(c)
    ensures Strip(before + decoration + after) == Strip(before + after)
  {
    FilterAppend(before + decoration, after, IsMoneyChar);
    FilterAppend(before, decoration, IsMoneyChar);
    FilterAppend(before, after, IsMoneyChar);
    StripDrops(decoration);
    assert Strip(before) + "" == Strip(before);
  }
}
