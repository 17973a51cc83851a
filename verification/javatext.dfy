/** Java's fixed-width integers and the string conversions the library
    relies on: `Long.toString`, `Long.parseLong`, `Long.intValue`, and
    string concatenation of a possibly-null reference. */
module JavaText {
  import opened Wrappers

  const MIN_LONG: int := -0x8000_0000_0000_0000
  const MAX_LONG: int := 0x7FFF_FFFF_FFFF_FFFF
  const MIN_INT: int := -0x8000_0000
  const MAX_INT: int := 0x7FFF_FFFF

  /** Java `long`. */
  type Long = x: int | MIN_LONG <= x <= MAX_LONG

  /** Java `int`. */
  type Int32 = x: int | MIN_INT <= x <= MAX_INT

  /** `Long.intValue()`: keeps the low 32 bits, read as two's complement. */
  function IntValue(n: Long): (r: Int32)
    ensures (n - r) % 0x1_0000_0000 == 0
    ensures MIN_INT <= n <= MAX_INT ==> r == n
  {
    var m := n % 0x1_0000_0000;
    assert n == (n / 0x1_0000_0000) * 0x1_0000_0000 + m;
    if m > MAX_INT then m - 0x1_0000_0000 else m
  }

  predicate IsDigit(c: char) {
    '0' <= c <= '9'
  }

  predicate AllDigits(s: string) {
    forall i :: 0 <= i < |s| ==> IsDigit(s[i])
  }

  function DigitValue(c: char): int
    requires IsDigit(c)
  {
    c as int - '0' as int
  }

  function DigitChar(d: int): (c: char)
    requires 0 <= d <= 9
    ensures IsDigit(c) && DigitValue(c) == d
  {
    (('0' as int) + d) as char
  }

  /** The decimal digits of `n`, most significant first, without leading zeros. */
  function NatToString(n: nat): (s: string)
    ensures |s| >= 1 && AllDigits(s)
    decreases n
  {
    if n < 10 then [DigitChar(n)] else NatToString(n / 10) + [DigitChar(n % 10)]
  }

  /** The number a string of decimal digits denotes. */
  function DigitsValue(s: string): nat
    requires AllDigits(s)
    decreases |s|
  {
    if |s| == 0 then 0 else DigitsValue(s[..|s| - 1]) * 10 + DigitValue(s[|s| - 1])
  }

  /** `Long.toString(n)` / `String.valueOf(n)` (also `Integer.toString` on an `int`). */
  function Decimal(n: int): string {
    if n < 0 then "-" + NatToString(-n) else NatToString(n)
  }

  /** `Long.parseLong(s)` and `Long.valueOf(s)`: an optional sign, then one or
      more digits, and the value must fit in a `long`; anything else raises
      NumberFormatException. */
  function ParseLong(s: string): (r: Result<Long>)
    ensures r.Ok? ==> |s| > 0
  {
    if |s| == 0 then Err(NumberFormat)
    else
      var digits := if s[0] == '-' || s[0] == '+' then s[1..] else s;
      if |digits| == 0 || !AllDigits(digits) then Err(NumberFormat)
      else
        var v: int := if s[0] == '-' then -(DigitsValue(digits) as int) else DigitsValue(digits);
        if MIN_LONG <= v <= MAX_LONG then Ok(v) else Err(NumberFormat)
  }

  lemma {:induction false} NatToStringValue(n: nat)
    ensures DigitsValue(NatToString(n)) == n
    decreases n
  {
    if n >= 10 {
      var p := NatToString(n / 10);
      var s := p + [DigitChar(n % 10)];
      assert s[..|s| - 1] == p;
      NatToStringValue(n / 10);
    }
  }

  /** Parsing the decimal text of a `long` gives the `long` back. */
  lemma ParseDecimal(n: Long)
    ensures ParseLong(Decimal(n)) == Ok(n)
  {
    if n < 0 {
      var k: nat := -(n as int);
      var d := NatToString(k);
      NatToStringValue(k);
      var s := "-" + d;
      assert s == Decimal(n);
      assert s[0] == '-' && s[1..] == d;
      assert ParseLong(s) == Ok(n);
    } else {
      var d := NatToString(n);
      NatToStringValue(n);
      assert d == Decimal(n);
      assert IsDigit(d[0]);
      assert ParseLong(d) == Ok(n);
    }
  }

  /** Decimal text is a non-empty string without '/', so it can stand as one URI path segment. */
  lemma DecimalIsSegment(n: int)
    ensures |Decimal(n)| > 0
    ensures forall i :: 0 <= i < |Decimal(n)| ==> Decimal(n)[i] != '/'
  {
    var k: nat := if n < 0 then -(n as int) else n;
    var d := NatToString(k);
    assert forall i :: 0 <= i < |d| ==> IsDigit(d[i]);
  }

  /** Decimal text of a `long` determines the `long`. */
  lemma DecimalInjective(m: Long, n: Long)
    requires Decimal(m) == Decimal(n)
    ensures m == n
  {
    ParseDecimal(m);
    ParseDecimal(n);
  }

  /** The pieces of `s` between `separator` characters, empty pieces
      included (so there is always one more piece than separators). */
  function Split(s: string, separator: char): (r: seq<string>)
    ensures |r| >= 1
    decreases |s|
  {
    if |s| == 0 then [""]
    else if s[0] == separator then [""] + Split(s[1..], separator)
    else
      var rest := Split(s[1..], separator);
      [[s[0]] + rest[0]] + rest[1..]
  }

  /** Splitting around one separator splits both sides. */
  lemma {:induction false} SplitAround(a: string, b: string, separator: char)
    ensures Split(a + [separator] + b, separator) == Split(a, separator) + Split(b, separator)
    decreases |a|
  {
    if |a| == 0 {
      assert a + [separator] + b == [separator] + b;
      assert ([separator] + b)[1..] == b;
    } else {
      assert (a + [separator] + b)[0] == a[0];
      assert (a + [separator] + b)[1..] == a[1..] + [separator] + b;
      SplitAround(a[1..], b, separator);
    }
  }

  /** A string without the separator is a single piece. */
  lemma {:induction false} SplitOfPiece(s: string, separator: char)
    requires forall i :: 0 <= i < |s| ==> s[i] != separator
    ensures Split(s, separator) == [s]
    decreases |s|
  {
    if |s| > 0 {
      SplitOfPiece(s[1..], separator);
      assert [s[0]] + s[1..] == s;
    }
  }

  /** The items separated by `separator` (what a StringBuilder loop that writes
      the separator before every item but the first produces). */
  function Join(items: seq<string>, separator: string): string
    decreases |items|
  {
    if |items| == 0 then ""
    else if |items| == 1 then items[0]
    else items[0] + separator + Join(items[1..], separator)
  }

  /** Java string conversion of a possibly-null String: `"" + null` is "null". */
  function StringOf(s: Option<string>): string {
    match s
    case None => "null"
    case Some(t) => t
  }
}
