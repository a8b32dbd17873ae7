/**
 * `formatFileSize(bytes)`: "0 Bytes" for zero, otherwise the size scaled to
 * the largest power of 1024 not above it, written with at most one decimal,
 * a space and the unit name.
 *
 * The unit index is an exact integer here (the largest i with 1024^i <= bytes);
 * the source computes it as `Math.floor(Math.log(bytes) / Math.log(1024))`.
 * The number is modelled exactly: for a size below 2^53 bytes,
 * `bytes / Math.pow(1024, i)` is an exact binary fraction, `toFixed(1)` picks
 * the nearest tenth of that exact value (the larger one on a tie), and
 * `parseFloat` followed by string concatenation drops a trailing ".0".
 */
module FileSizes {

  const Base: nat := 1024
  /** `sizes`: only indices 0 to 3 are defined. */
  const Units: seq<string> := ["Bytes", "KB", "MB", "GB"]
  /** What `sizes[i]` turns into when concatenated for an index past the table. */
  const UndefinedText: string := "undefined"
  const ZeroText: string := "0 Bytes"

  /** 1024^i, the number of bytes in one unit of index i. */
  function UnitBytes(i: nat): (p: nat)
    ensures p >= 1
  {
    if i == 0 then 1 else Base * UnitBytes(i - 1)
  }

  lemma {:induction false} UnitBytesMonotonic(i: nat, j: nat)
    requires i <= j
    ensures UnitBytes(i) <= UnitBytes(j)
    decreases j - i
  {
    if i < j {
      UnitBytesMonotonic(i + 1, j);
    }
  }

  /** The unit index for a positive size (integer form of line 97). */
  function UnitIndex(bytes: nat): (i: nat)
    requires bytes >= 1
    ensures UnitBytes(i) <= bytes < UnitBytes(i + 1)
  {
    if bytes < Base then 0 else 1 + UnitIndex(bytes / Base)
  }

  /** The unit index is the LARGEST i with 1024^i <= bytes. */
  lemma UnitIndexIsLargest(bytes: nat, j: nat)
    requires bytes >= 1 && UnitBytes(j) <= bytes
    ensures j <= UnitIndex(bytes)
  {
    var i := UnitIndex(bytes);
    if j > i {
      UnitBytesMonotonic(i + 1, j);
    }
  }

  /** `sizes[i]` as it ends up in the text. */
  function UnitName(i: nat): string
  {
    if i < |Units| then Units[i] else UndefinedText
  }

  /** A positive size gets a real unit name exactly when it is below 1024^4 bytes. */
  lemma UnitDefinedBelowFourthPower(bytes: nat)
    requires bytes >= 1
    ensures UnitIndex(bytes) < |Units| <==> bytes < UnitBytes(4)
    ensures UnitName(UnitIndex(bytes)) != UndefinedText <==> bytes < UnitBytes(4)
  {
    var i := UnitIndex(bytes);
    if i < 4 {
      UnitBytesMonotonic(i + 1, 4);
    } else {
      UnitBytesMonotonic(4, i);
    }
  }

  /** `(bytes / 1024^i).toFixed(1)` as a whole number of tenths: the nearest
      tenth, the larger one on a tie. */
  function RoundedTenths(bytes: nat, i: nat): (n: nat)
    ensures (2 * n - 1) * UnitBytes(i) <= 20 * bytes < (2 * n + 1) * UnitBytes(i)
  {
    var p := UnitBytes(i);
    var n := (20 * bytes + p) / (2 * p);
    assert 2 * p * n <= 20 * bytes + p < 2 * p * n + 2 * p;
    n
  }

  /** Multiplying both sides by the same positive number keeps their order. */
  lemma MultiplierOrder(a: int, b: int, p: nat)
    requires p >= 1 && a * p < b * p
    ensures a < b
  {
  }

  /** The scaled value shown for a positive size lies between 1 and 1024. */
  lemma ShownValueBounds(bytes: nat)
    requires bytes >= 1
    ensures 10 <= RoundedTenths(bytes, UnitIndex(bytes)) <= 10 * Base
  {
    var i := UnitIndex(bytes);
    var p := UnitBytes(i);
    var n := RoundedTenths(bytes, i);
    assert UnitBytes(i + 1) == Base * p;
    MultiplierOrder(20, 2 * n + 1, p);
    MultiplierOrder(2 * n - 1, 20 * Base, p);
  }

  /** The decimal digit of a value below ten. */
  function Digit(d: nat): (c: char)
    requires d < 10
    ensures '0' <= c <= '9' && c as int - '0' as int == d
  {
    "0123456789"[d]
  }

  /** The value of a decimal digit character. */
  function DigitValue(c: char): nat
    requires '0' <= c <= '9'
  {
    (c as int - '0' as int) as nat
  }

  /** A whole number as JavaScript writes it: one or more digits, with no
      leading zero unless the number is zero. */
  predicate Numeral(s: string)
  {
    && |s| >= 1
    && (forall k :: 0 <= k < |s| ==> '0' <= s[k] <= '9')
    && (|s| > 1 ==> s[0] != '0')
  }

  /** JavaScript's decimal rendering of a whole number (below 10^21). */
  function DecimalText(n: nat): (s: string)
    ensures Numeral(s)
    ensures n >= 1 ==> s[0] != '0'
  {
    if n < 10 then [Digit(n)] else DecimalText(n / 10) + [Digit(n % 10)]
  }

  /** Reading a string of decimal digits. */
  function DecimalValue(s: string): nat
    requires forall k :: 0 <= k < |s| ==> '0' <= s[k] <= '9'
  {
    if s == [] then 0 else 10 * DecimalValue(s[..|s| - 1]) + DigitValue(s[|s| - 1])
  }

  /** The decimal rendering is read back as the same number. */
  lemma {:induction false} DecimalTextRoundTrip(n: nat)
    ensures DecimalValue(DecimalText(n)) == n
  {
    if n >= 10 {
      DecimalTextRoundTrip(n / 10);
      var s := DecimalText(n);
      assert s[..|s| - 1] == DecimalText(n / 10);
    }
  }

  /** A digit character is the digit of its own value. */
  lemma DigitOfValue(c: char)
    requires '0' <= c <= '9'
    ensures Digit(DigitValue(c)) == c
  {
    assert Digit(DigitValue(c)) as int == c as int;
  }

  /** Digits that do not start with '0' stand for a positive number. */
  lemma {:induction false} LeadingDigitPositive(s: string)
    requires |s| >= 1 && (forall k :: 0 <= k < |s| ==> '0' <= s[k] <= '9') && s[0] != '0'
    ensures DecimalValue(s) >= 1
  {
    if |s| > 1 {
      LeadingDigitPositive(s[..|s| - 1]);
    }
  }

  /** Every numeral is the rendering of the number it stands for, so the
      rendering is the only numeral for its number. */
  lemma {:induction false} NumeralIsDecimalText(s: string)
    requires Numeral(s)
    ensures s == DecimalText(DecimalValue(s))
  {
    if |s| > 1 {
      var front := s[..|s| - 1];
      assert Numeral(front);
      NumeralIsDecimalText(front);
      LeadingDigitPositive(front);
      var v := DecimalValue(s);
      assert v / 10 == DecimalValue(front) && v % 10 == DigitValue(s[|s| - 1]);
      assert s == front + [s[|s| - 1]];
    }
  }

  /** `t` is how JavaScript writes the number n / 10: a whole numeral, or a
      numeral, '.', and a tenths digit other than '0'. */
  predicate ShowsTenths(t: string, n: nat)
  {
    || (Numeral(t) && 10 * DecimalValue(t) == n)
    || (&& |t| >= 3 && t[|t| - 2] == '.' && '1' <= t[|t| - 1] <= '9'
        && Numeral(t[..|t| - 2])
        && 10 * DecimalValue(t[..|t| - 2]) + DigitValue(t[|t| - 1]) == n)
  }

  /** `String(parseFloat(x.toFixed(1)))` for x = n / 10: the whole part, then
      the tenths digit unless it is zero, which drops a trailing ".0". */
  function TenthsText(n: nat): (t: string)
    ensures ShowsTenths(t, n)
  {
    var whole := DecimalText(n / 10);
    DecimalTextRoundTrip(n / 10);
    if n % 10 == 0 then whole
    else
      var t := whole + "." + [Digit(n % 10)];
      assert t[..|t| - 2] == whole;
      t
  }

  /** No other text writes n / 10: TenthsText is JavaScript's only rendering. */
  lemma TenthsTextIsTheOnlyRendering(t: string, n: nat)
    requires ShowsTenths(t, n)
    ensures t == TenthsText(n)
  {
    if Numeral(t) && 10 * DecimalValue(t) == n {
      NumeralIsDecimalText(t);
      assert n % 10 == 0 && n / 10 == DecimalValue(t);
    } else {
      var whole := t[..|t| - 2];
      var last := t[|t| - 1];
      NumeralIsDecimalText(whole);
      DigitOfValue(last);
      var w, d := DecimalValue(whole), DigitValue(last);
      assert n == 10 * w + d && 1 <= d <= 9;
      assert n / 10 == w && n % 10 == d;
      assert t == whole + "." + [last];
    }
  }

  /** `formatFileSize(bytes)` (lines 93-99): "0 Bytes" for zero; otherwise the
      nearest tenth of bytes / 1024^i as JavaScript writes it, a space, and the
      name of unit i. */
  function FormatFileSize(bytes: nat): (r: string)
    ensures bytes == 0 ==> r == ZeroText
    ensures bytes >= 1 ==>
      var u := " " + UnitName(UnitIndex(bytes));
      && |r| > |u| && r[|r| - |u|..] == u
      && ShowsTenths(r[..|r| - |u|], RoundedTenths(bytes, UnitIndex(bytes)))
  {
    if bytes == 0 then ZeroText
    else
      var i := UnitIndex(bytes);
      var t := TenthsText(RoundedTenths(bytes, i));
      var u := " " + UnitName(i);
      assert (t + u)[..|t|] == t && (t + u)[|t|..] == u;
      t + u
  }

  /** The unit index is the only i with 1024^i <= bytes < 1024^(i+1). */
  lemma UnitIndexUnique(bytes: nat, j: nat)
    requires UnitBytes(j) <= bytes < UnitBytes(j + 1)
    ensures UnitIndex(bytes) == j
  {
    UnitIndexIsLargest(bytes, j);
    var i := UnitIndex(bytes);
    if i > j {
      UnitBytesMonotonic(j + 1, i);
    }
  }

  lemma FormatFileSizeOfZero()
    ensures FormatFileSize(0) == "0 Bytes"
  {
  }

  /** One kibibyte exactly: toFixed gives "1.0", which parseFloat turns into 1. */
  lemma FormatFileSizeOfOneKilobyte()
    ensures FormatFileSize(1024) == "1 KB"
  {
    var bytes := 1024;
    UnitIndexUnique(bytes, 1);
    assert RoundedTenths(bytes, 1) == 10;
  }

  lemma FormatFileSizeOfOneAndAHalfKilobytes()
    ensures FormatFileSize(1536) == "1.5 KB"
  {
    var bytes := 1536;
    UnitIndexUnique(bytes, 1);
    assert RoundedTenths(bytes, 1) == 15;
  }

  lemma FormatFileSizeOfOneMegabyte()
    ensures FormatFileSize(1048576) == "1 MB"
  {
    var bytes := 1048576;
    assert UnitBytes(2) == 1048576;
    UnitIndexUnique(bytes, 2);
    assert RoundedTenths(bytes, 2) == 10;
  }

  /** Just under one mebibyte is still counted in KB, and rounds up to 1024. */
  lemma FormatFileSizeJustUnderOneMegabyte()
    ensures FormatFileSize(1048575) == "1024 KB"
  {
    var bytes := 1048575;
    UnitIndexUnique(bytes, 1);
    assert RoundedTenths(bytes, 1) == 10240;
    assert DecimalText(1024) == "1024";
    assert TenthsText(10240) == "1024";
  }

  /** One tebibyte has no entry in the unit table. */
  lemma FormatFileSizeOfOneTerabyte()
    ensures FormatFileSize(1099511627776) == "1 undefined"
  {
    var bytes := 1099511627776;
    assert UnitBytes(4) == 1099511627776;
    UnitIndexUnique(bytes, 4);
    assert RoundedTenths(bytes, 4) == 10;
  }
}
