/**
 * The numeric side of a conversion: the amount string normalised from a match
 * and its decimal continuation (Content.js:188-189), `parseFloat`, `String` of a
 * number, `toFixed(2)` and `formatCurrency`. Amounts and rates are exact
 * non-negative decimals, so binary floating-point rounding is not modelled.
 */
module Numbers {
  import opened Wrappers
  import opened PriceScan

  /** The exact amount `units / 10^scale`. */
  datatype Decimal = Decimal(units: nat, scale: nat)

  function Pow10(n: nat): (r: nat)
    ensures r >= 1
  {
    if n == 0 then 1 else 10 * Pow10(n - 1)
  }

  /** Two decimals that denote the same amount. */
  predicate SameValue(a: Decimal, b: Decimal) {
    a.units * Pow10(b.scale) == b.units * Pow10(a.scale)
  }

  /** `cnyVal * rate`, exactly. */
  function Mul(a: Decimal, b: Decimal): Decimal {
    Decimal(a.units * b.units, a.scale + b.scale)
  }

  // ---------------------------------------------------------------------------
  // Digit strings.

  predicate AllDigits(t: string) {
    forall i :: 0 <= i < |t| ==> IsDigit(t[i])
  }

  lemma AllDigitsAppend(a: string, b: string)
    requires AllDigits(a) && AllDigits(b)
    ensures AllDigits(a + b)
  {
  }

  function DigitValue(c: char): nat
    requires IsDigit(c)
  {
    c as int - '0' as int
  }

  /** The number a string of decimal digits denotes (0 for the empty string). */
  function DigitsValue(t: string): nat
    requires AllDigits(t)
  {
    if t == [] then 0 else DigitsValue(t[..|t| - 1]) * 10 + DigitValue(t[|t| - 1])
  }

  function DigitChar(d: nat): (c: char)
    requires d < 10
    ensures IsDigit(c) && DigitValue(c) == d
  {
    ('0' as int + d) as char
  }

  /** The decimal numeral of `n`, without leading zeros. */
  function NatToString(n: nat): (t: string)
    ensures |t| > 0 && AllDigits(t)
  {
    if n < 10 then [DigitChar(n)] else NatToString(n / 10) + [DigitChar(n % 10)]
  }

  function Zeros(k: nat): (z: string)
    ensures |z| == k && AllDigits(z)
  {
    if k == 0 then "" else "0" + Zeros(k - 1)
  }

  /** `t` padded on the left with zeros to at least `k` characters. */
  function PadStart(t: string, k: nat): (r: string)
    ensures |r| == if |t| < k then k else |t|
  {
    if |t| < k then Zeros(k - |t|) + t else t
  }

  lemma {:induction false} DigitsValueAppend(a: string, b: string)
    requires AllDigits(a) && AllDigits(b)
    ensures AllDigits(a + b)
    ensures DigitsValue(a + b) == DigitsValue(a) * Pow10(|b|) + DigitsValue(b)
    decreases |b|
  {
    assert AllDigits(a + b);
    if b != [] {
      var b' := b[..|b| - 1];
      var d := DigitValue(b[|b| - 1]);
      assert (a + b)[..|a + b| - 1] == a + b';
      assert DigitsValue(a + b) == DigitsValue(a + b') * 10 + d;
      DigitsValueAppend(a, b');
      assert DigitsValue(b) == DigitsValue(b') * 10 + d;
      assert Pow10(|b|) == Pow10(|b'|) * 10;
      ShiftDigit(DigitsValue(a), Pow10(|b'|), DigitsValue(b'), d);
    } else {
      assert a + b == a;
    }
  }

  /** Appending a digit to `x * p + y` appends it to `y` and shifts `x` one place more. */
  lemma ShiftDigit(x: nat, p: nat, y: nat, d: nat)
    ensures (x * p + y) * 10 + d == x * (p * 10) + (y * 10 + d)
  {
  }

  lemma {:induction false} ZerosValue(k: nat)
    ensures DigitsValue(Zeros(k)) == 0
  {
    if k > 0 {
      DigitsValueAppend("0", Zeros(k - 1));
      ZerosValue(k - 1);
      assert DigitsValue("0") == 0 by {
        assert "0"[..0] == "";
      }
    }
  }

  /** Leading zeros do not change the value of a digit string. */
  lemma PadStartValue(t: string, k: nat)
    requires AllDigits(t)
    ensures AllDigits(PadStart(t, k)) && DigitsValue(PadStart(t, k)) == DigitsValue(t)
  {
    if |t| < k {
      DigitsValueAppend(Zeros(k - |t|), t);
      ZerosValue(k - |t|);
    }
  }

  /** Printing a number and reading the digits back gives the number. */
  lemma {:induction false} NatToStringValue(n: nat)
    ensures DigitsValue(NatToString(n)) == n
  {
    if n >= 10 {
      NatToStringValue(n / 10);
      var t := NatToString(n);
      assert t[..|t| - 1] == NatToString(n / 10);
    }
  }

  // ---------------------------------------------------------------------------
  // parseFloat and String(number).

  /** Leading `\s` removed, as `parseFloat` and the `^[\s ]+` replace do. */
  function TrimStart(s: string): (t: string)
    ensures |t| <= |s| && t == s[|s| - |t|..]
    ensures forall k :: 0 <= k < |s| - |t| ==> IsSpace(s[k])
    ensures t == [] || !IsSpace(t[0])
  {
    if s != [] && IsSpace(s[0]) then TrimStart(s[1..]) else s
  }

  /**
   * `parseFloat`: after leading white space, the longest prefix of the form
   * `digits [. digits]` with at least one digit; `None` stands for `NaN`.
   */
  function ParseFloat(s: string): Option<Decimal> {
    ParseNumeral(TrimStart(s))
  }

  /** The longest numeral prefix of `t`, read as a decimal. */
  function ParseNumeral(t: string): Option<Decimal> {
    var i := DigitRunEnd(t, 0);
    var whole := t[..i];
    var frac := if i < |t| && t[i] == '.' then t[i + 1..DigitRunEnd(t, i + 1)] else "";
    if whole == "" && frac == "" then None
    else
      AllDigitsAppend(whole, frac);
      Some(Decimal(DigitsValue(whole + frac), |frac|))
  }

  /** The run end is the first non-digit after a run of digits. */
  lemma DigitRunEndAt(s: string, i: nat, j: nat)
    requires i <= j <= |s|
    requires forall k :: i <= k < j ==> IsDigit(s[k])
    requires j == |s| || !IsDigit(s[j])
    ensures DigitRunEnd(s, i) == j
  {
  }

  /** Nothing to trim before a digit or a point. */
  lemma TrimStartNumeral(t: string)
    requires t != [] && (IsDigit(t[0]) || t[0] == '.')
    ensures TrimStart(t) == t
  {
  }

  /** A numeral `I.F` (either part may be empty, not both) reads as `IF / 10^|F|`. */
  lemma ParseDotted(i: string, f: string)
    requires AllDigits(i) && AllDigits(f) && |i| + |f| > 0
    ensures ParseFloat(i + "." + f) == Some(Decimal(DigitsValue(i + f), |f|))
  {
    var t := i + "." + f;
    assert t == (i + ".") + f;
    assert ParseFloat(t) == ParseNumeral(t) by {
      TrimStartNumeral(t);
    }
    DigitsThenPoint(i, f);
    DigitsToEnd(i + ".", f);
    DottedNumeral(t, i, f);
  }

  /** The digit run of `I.F` from the start ends at the point. */
  lemma DigitsThenPoint(i: string, f: string)
    requires AllDigits(i)
    ensures DigitRunEnd(i + "." + f, 0) == |i|
    ensures (i + "." + f)[..|i|] == i && (i + "." + f)[|i|] == '.'
  {
    var t := i + "." + f;
    assert forall k :: 0 <= k < |i| ==> t[k] == i[k];
    DigitRunEndAt(t, 0, |i|);
  }

  /** A digit run that starts after `a` and covers all of `f` ends at the end. */
  lemma DigitsToEnd(a: string, f: string)
    requires AllDigits(f)
    ensures DigitRunEnd(a + f, |a|) == |a + f|
    ensures (a + f)[|a|..] == f
  {
    var t := a + f;
    assert forall k :: |a| <= k < |t| ==> t[k] == f[k - |a|];
    DigitRunEndAt(t, |a|, |t|);
  }

  lemma DottedNumeral(t: string, i: string, f: string)
    requires |i| < |t| && DigitRunEnd(t, 0) == |i| && t[..|i|] == i && t[|i|] == '.'
    requires DigitRunEnd(t, |i| + 1) == |t| && t[|i| + 1..] == f && |i| + |f| > 0
    requires AllDigits(i) && AllDigits(f)
    ensures ParseNumeral(t) == Some(Decimal(DigitsValue(i + f), |f|))
  {
    assert t[|i| + 1..DigitRunEnd(t, |i| + 1)] == f;
  }

  /** A numeral without a point reads as itself. */
  lemma ParseWhole(i: string)
    requires AllDigits(i) && |i| > 0
    ensures ParseFloat(i) == Some(Decimal(DigitsValue(i), 0))
  {
    assert ParseFloat(i) == ParseNumeral(i) by {
      TrimStartNumeral(i);
    }
    WholeNumeral(i);
  }

  lemma WholeNumeral(t: string)
    requires AllDigits(t) && |t| > 0
    ensures ParseNumeral(t) == Some(Decimal(DigitsValue(t), 0))
  {
    DigitRunEndAt(t, 0, |t|);
    assert t[..|t|] + "" == t;
  }

  /** The shortest representation: no trailing zero after the point. */
  function Canon(d: Decimal): (c: Decimal)
    ensures c.scale <= d.scale
    ensures c.scale > 0 ==> c.units % 10 != 0
    decreases d.scale
  {
    if d.scale > 0 && d.units % 10 == 0 then Canon(Decimal(d.units / 10, d.scale - 1)) else d
  }

  lemma {:induction false} CanonSameValue(d: Decimal)
    ensures SameValue(Canon(d), d)
    ensures d.units == Canon(d).units * Pow10(d.scale - Canon(d).scale)
    decreases d.scale
  {
    if d.scale > 0 && d.units % 10 == 0 {
      var e := Decimal(d.units / 10, d.scale - 1);
      CanonSameValue(e);
      var c := Canon(d);
      assert c == Canon(e);
      var k := e.scale - c.scale;
      assert Pow10(k + 1) == 10 * Pow10(k);
      assert d.scale - c.scale == k + 1;
      ScaleUp(d.units, e.units, c.units, Pow10(k));
      Pow10Split(d.scale, c.scale);
      Regroup3(c.units, Pow10(d.scale - c.scale), Pow10(c.scale));
    }
  }

  lemma ScaleUp(du: nat, eu: nat, cu: nat, p: nat)
    requires du == 10 * eu && eu == cu * p
    ensures du == cu * (10 * p)
  {
  }

  lemma Regroup3(x: nat, y: nat, z: nat)
    ensures x * (y * z) == (x * y) * z
  {
  }

  lemma {:induction false} Pow10Split(n: nat, k: nat)
    requires k <= n
    ensures Pow10(n) == Pow10(n - k) * Pow10(k)
    decreases n
  {
    if k < n {
      Pow10Split(n - 1, k);
    }
  }

  /**
   * `String(x)` for a number without exponent notation: the integer part, and
   * when the amount is not whole, a point and the fraction without trailing zeros.
   */
  function NumberToString(d: Decimal): string {
    var c := Canon(d);
    if c.scale == 0 then NatToString(c.units) else PointString(c.units, c.scale)
  }

  /**
   * `u / 10^k` written with `k` decimals: the digits of `u`, padded with
   * zeros to at least `k + 1` of them, with a point before the last `k`.
   */
  function PointString(u: nat, k: nat): string
    requires k >= 1
  {
    var ds := PadStart(NatToString(u), k + 1);
    ds[..|ds| - k] + "." + ds[|ds| - k..]
  }

  /**
   * What the annotator stores as `data-cny-original` is what the re-sync reads
   * back: `parseFloat(String(x))` is `x`.
   */
  lemma NumberToStringRoundTrip(d: Decimal)
    ensures NumberToString(d) != ""
    ensures ParseFloat(NumberToString(d)) == Some(Canon(d))
  {
    var c := Canon(d);
    if c.scale == 0 {
      ParseWhole(NatToString(c.units));
      NatToStringValue(c.units);
    } else {
      PointStringReads(c.units, c.scale);
    }
  }

  lemma PointStringReads(u: nat, k: nat)
    requires k >= 1
    ensures PointString(u, k) != ""
    ensures ParseFloat(PointString(u, k)) == Some(Decimal(u, k))
  {
    var ds := PadStart(NatToString(u), k + 1);
    assert AllDigits(ds) && DigitsValue(ds) == u by {
      NatToStringValue(u);
      PadStartValue(NatToString(u), k + 1);
    }
    var i := ds[..|ds| - k];
    var f := ds[|ds| - k..];
    AllDigitsSplit(ds, |ds| - k);
    assert PointString(u, k) == i + "." + f;
    assert DigitsValue(i + f) == u && |f| == k;
    ParseDotted(i, f);
  }

  lemma AllDigitsSplit(t: string, n: nat)
    requires AllDigits(t) && n <= |t|
    ensures AllDigits(t[..n]) && AllDigits(t[n..]) && t[..n] + t[n..] == t
  {
    assert forall j :: 0 <= j < |t| - n ==> t[n..][j] == t[n + j];
  }

  /** A point string ends in a point and `k` digits. */
  lemma PointStringShape(u: nat, k: nat)
    requires k >= 1
    ensures var t := PointString(u, k);
      |t| >= k + 2 && t[|t| - k - 1] == '.' && AllDigits(t[|t| - k..])
  {
    var ds := PadStart(NatToString(u), k + 1);
    PadStartValue(NatToString(u), k + 1);
    var t := PointString(u, k);
    assert t[|t| - k..] == ds[|ds| - k..];
  }

  // ---------------------------------------------------------------------------
  // toFixed(2) and formatCurrency.

  /** `a / b` rounded to the nearest integer, a tie going up. */
  function HalfUp(a: nat, b: nat): nat
    requires b >= 1
  {
    (2 * a + b) / (2 * b)
  }

  /** The amount in hundredths, rounded to nearest with ties up, as `toFixed(2)` rounds. */
  function Cents(d: Decimal): nat {
    HalfUp(100 * d.units, Pow10(d.scale))
  }

  /** `x.toFixed(2)`: the integer part, a point and exactly two digits. */
  function ToFixed2(d: Decimal): string {
    PointString(Cents(d), 2)
  }

  /**
   * The cents shown are the amount rounded to the nearest hundredth, a tie
   * going up: `100 * x - 1/2 < n <= 100 * x + 1/2`.
   */
  lemma CentsRounding(d: Decimal)
    ensures 200 * d.units - Pow10(d.scale) < 2 * Cents(d) * Pow10(d.scale) <= 200 * d.units + Pow10(d.scale)
  {
    HalfUpBounds(100 * d.units, Pow10(d.scale));
  }

  lemma HalfUpBounds(a: nat, b: nat)
    requires b >= 1
    ensures 2 * a - b < 2 * HalfUp(a, b) * b <= 2 * a + b
  {
    var x := 2 * a + b;
    var m := 2 * b;
    var n := x / m;
    assert x == n * m + x % m && 0 <= x % m < m;
    assert 2 * n * b == n * m;
  }

  /** `toFixed(2)` always shows a point and exactly two decimals. */
  lemma ToFixed2Shape(d: Decimal)
    ensures var t := ToFixed2(d);
      |t| >= 4 && t[|t| - 3] == '.' && IsDigit(t[|t| - 2]) && IsDigit(t[|t| - 1])
  {
    var t := ToFixed2(d);
    PointStringShape(Cents(d), 2);
    assert t[|t| - 2] == t[|t| - 2..][0] && t[|t| - 1] == t[|t| - 2..][1];
  }

  /** `toFixed(2)` reads back as the rounded cents. */
  lemma ToFixed2ReadsBack(d: Decimal)
    ensures ParseFloat(ToFixed2(d)) == Some(Decimal(Cents(d), 2))
  {
    PointStringReads(Cents(d), 2);
  }

  lemma MulMono(a: int, b: int, d: nat)
    requires a <= b
    ensures a * d <= b * d
  {
  }

  /** Euclidean division has one quotient and one remainder. */
  lemma DivUnique(x: nat, d: nat, q: nat, r: nat)
    requires d > 0 && r < d && x == q * d + r
    ensures x / d == q && x % d == r
  {
    var q' := x / d;
    assert x == q' * d + x % d;
    if q' < q {
      MulMono(q' + 1, q, d);
    } else if q < q' {
      MulMono(q + 1, q', d);
    }
  }

  lemma DivCancel(a: nat, b: nat, c: nat)
    requires b > 0 && c > 0
    ensures (a * c) / (b * c) == a / b
  {
    var q := a / b;
    var r := a % b;
    assert a == q * b + r;
    Spread(q, b, r, c);
    assert r * c < b * c by {
      MulMono(r + 1, b, c);
    }
    DivUnique(a * c, b * c, q, r * c);
  }

  lemma Spread(q: nat, b: nat, r: nat, c: nat)
    ensures (q * b + r) * c == q * (b * c) + r * c
  {
  }

  /** Scaling the representation by ten does not change the cents. */
  lemma CentsScale(u: nat, s: nat)
    ensures Cents(Decimal(10 * u, s + 1)) == Cents(Decimal(u, s))
  {
    var p := Pow10(s);
    assert Pow10(s + 1) == 10 * p;
    assert 2 * (100 * (10 * u)) + 10 * p == (2 * (100 * u) + p) * 10;
    assert 2 * (10 * p) == (2 * p) * 10;
    DivCancel(2 * (100 * u) + p, 2 * p, 10);
  }

  /** The cents of `x * rate` depend only on the amount `x`, not on how it is written. */
  lemma {:induction false} CentsOfCanon(v: Decimal, rate: Decimal)
    ensures Cents(Mul(Canon(v), rate)) == Cents(Mul(v, rate))
    decreases v.scale
  {
    if v.scale > 0 && v.units % 10 == 0 {
      var e := Decimal(v.units / 10, v.scale - 1);
      assert Canon(v) == Canon(e);
      CentsOfCanon(e, rate);
      var w := e.units * rate.units;
      assert Mul(v, rate).units == 10 * w by {
        assert v.units == 10 * e.units;
        TenTimes(e.units, rate.units);
      }
      assert Mul(v, rate) == Decimal(10 * w, (e.scale + rate.scale) + 1);
      CentsScale(w, e.scale + rate.scale);
    }
  }

  lemma TenTimes(a: nat, b: nat)
    ensures (10 * a) * b == 10 * (a * b)
  {
  }

  /** The symbol `formatCurrency` falls back to: `$`, `€`, or the code and a space. */
  function CurrencyPrefix(currency: string): string {
    if currency == "USD" then "$" else if currency == "EUR" then "€" else currency + " "
  }

  /** `formatCurrency(amount, currency)` (its fallback branch). */
  function FormatCurrency(amount: Decimal, currency: string): string {
    CurrencyPrefix(currency) + ToFixed2(amount)
  }

  /** `(1000 * 0.14)` in USD reads `$140.00`. */
  lemma FormatExample()
    ensures FormatCurrency(Mul(Decimal(1000, 0), Decimal(14, 2)), "USD") == "$140.00"
  {
    assert Mul(Decimal(1000, 0), Decimal(14, 2)) == Decimal(14000, 2);
    assert Cents(Decimal(14000, 2)) == 14000;
    assert NatToString(14000) == "14000" by {
      assert NatToString(14) == "14";
      assert NatToString(140) == "140";
      assert NatToString(1400) == "1400";
    }
    assert PointString(14000, 2) == "140.00" by {
      var ds := PadStart("14000", 3);
      assert ds == "14000";
      assert ds[..3] == "140" && ds[3..] == "00";
    }
  }

  // ---------------------------------------------------------------------------
  // The amount string of a match (Content.js:188-189).

  function RemoveCommas(t: string): (r: string)
    ensures |r| <= |t|
  {
    if t == [] then []
    else (if t[0] == ',' then [] else [t[0]]) + RemoveCommas(t[1..])
  }

  /** `s.replace(',', '.')`: the first comma only. */
  function ReplaceFirstComma(t: string): string {
    if t == [] then []
    else if t[0] == ',' then "." + t[1..]
    else [t[0]] + ReplaceFirstComma(t[1..])
  }

  /**
   * The string parsed for a match: every comma deleted, leading white space
   * trimmed, then the first comma turned into a point.
   */
  function Normalise(t: string): string {
    ReplaceFirstComma(TrimStart(RemoveCommas(t)))
  }

  /** A consumed decimal continuation, `[.,]\d+`. */
  predicate IsDecimalRun(d: string) {
    |d| >= 2 && (d[0] == '.' || d[0] == ',') && AllDigits(d[1..])
  }

  lemma RemoveCommasAppend(a: string, b: string)
    ensures RemoveCommas(a + b) == RemoveCommas(a) + RemoveCommas(b)
  {
    if a != [] {
      assert (a + b)[1..] == a[1..] + b;
      RemoveCommasAppend(a[1..], b);
    } else {
      assert a + b == b;
    }
  }

  lemma RemoveCommasOfDigits(t: string)
    requires AllDigits(t)
    ensures RemoveCommas(t) == t
  {
    if t != [] {
      RemoveCommasOfDigits(t[1..]);
      assert t == [t[0]] + t[1..];
    }
  }

  lemma RemoveCommasOfAmountChars(t: string)
    requires forall i :: 0 <= i < |t| ==> IsAmountChar(t[i])
    ensures AllDigits(RemoveCommas(t))
    ensures RemoveCommas(t) == [] <==> forall i :: 0 <= i < |t| ==> t[i] == ','
  {
    if t != [] {
      var r := t[1..];
      assert forall i :: 0 <= i < |r| ==> r[i] == t[i + 1];
      RemoveCommasOfAmountChars(r);
      var head := if t[0] == ',' then [] else [t[0]];
      assert RemoveCommas(t) == head + RemoveCommas(r);
      if t[0] == ',' {
        assert RemoveCommas(t) == RemoveCommas(r);
        AllCommasShift(t);
      } else {
        assert RemoveCommas(t) != [];
      }
    }
  }

  /** A text that opens with a comma is all commas exactly when the rest is. */
  lemma AllCommasShift(t: string)
    requires t != [] && t[0] == ','
    ensures (forall i :: 0 <= i < |t| ==> t[i] == ',') <==> (forall i :: 0 <= i < |t| - 1 ==> t[1..][i] == ',')
  {
    if forall i :: 0 <= i < |t| - 1 ==> t[1..][i] == ',' {
      forall i | 0 <= i < |t|
        ensures t[i] == ','
      {
        if i > 0 {
          assert t[1..][i - 1] == t[i];
        }
      }
    }
  }

  lemma NoCommaLeftToReplace(t: string)
    requires ',' !in t
    ensures ReplaceFirstComma(t) == t
  {
    if t != [] {
      NoCommaLeftToReplace(t[1..]);
    }
  }

  lemma RemoveCommasHasNoComma(t: string)
    ensures ',' !in RemoveCommas(t)
  {
    if t != [] {
      RemoveCommasHasNoComma(t[1..]);
    }
  }

  /** The digits of a `[\d,]` run, as the normalisation keeps them. */
  function DigitsOf(g: string): string { RemoveCommas(g) }

  /**
   * What a match parses to, whole and decimal: a `.` continuation gives the
   * intended amount; a `,` continuation loses its separator and its digits
   * run on into the whole part; a group made of commas only parses to `NaN`.
   * `g` is a captured group without a `.`, `dec` the consumed continuation
   * (empty when none was consumed).
   */
  lemma ParseStitched(g: string, dec: string)
    requires |g| > 0 && forall i :: 0 <= i < |g| ==> IsAmountChar(g[i])
    requires dec == "" || IsDecimalRun(dec)
    ensures AllDigits(DigitsOf(g))
    ensures dec == "" ==>
      ParseFloat(Normalise(g + dec)) ==
        if DigitsOf(g) == "" then None else Some(Decimal(DigitsValue(DigitsOf(g)), 0))
    ensures dec != "" && dec[0] == '.' ==>
      ParseFloat(Normalise(g + dec)) == Some(Decimal(DigitsValue(DigitsOf(g) + dec[1..]), |dec| - 1))
    ensures dec != "" && dec[0] == ',' ==>
      ParseFloat(Normalise(g + dec)) == Some(Decimal(DigitsValue(DigitsOf(g) + dec[1..]), 0))
  {
    RemoveCommasOfAmountChars(g);
    if dec == "" {
      ParseGroupAlone(g);
    } else {
      ParseGroupWithDecimals(g, dec);
    }
  }

  lemma ParseGroupAlone(g: string)
    requires forall i :: 0 <= i < |g| ==> IsAmountChar(g[i])
    ensures AllDigits(DigitsOf(g))
    ensures ParseFloat(Normalise(g + "")) ==
      if DigitsOf(g) == "" then None else Some(Decimal(DigitsValue(DigitsOf(g)), 0))
  {
    RemoveCommasOfAmountChars(g);
    var i := DigitsOf(g);
    assert g + "" == g;
    if i != [] {
      TrimStartNumeral(i);
      RemoveCommasHasNoComma(g);
      NoCommaLeftToReplace(i);
      ParseWhole(i);
    } else {
      assert TrimStart(i) == [];
      assert Normalise(g) == "";
    }
  }

  lemma ParseGroupWithDecimals(g: string, dec: string)
    requires forall i :: 0 <= i < |g| ==> IsAmountChar(g[i])
    requires IsDecimalRun(dec)
    ensures AllDigits(DigitsOf(g)) && AllDigits(DigitsOf(g) + dec[1..])
    ensures dec[0] == '.' ==>
      ParseFloat(Normalise(g + dec)) == Some(Decimal(DigitsValue(DigitsOf(g) + dec[1..]), |dec| - 1))
    ensures dec[0] == ',' ==>
      ParseFloat(Normalise(g + dec)) == Some(Decimal(DigitsValue(DigitsOf(g) + dec[1..]), 0))
  {
    RemoveCommasOfAmountChars(g);
    AllDigitsAppend(DigitsOf(g), dec[1..]);
    if dec[0] == '.' {
      ParseGroupPoint(g, dec);
    } else {
      ParseGroupComma(g, dec);
    }
  }

  lemma ParseGroupPoint(g: string, dec: string)
    requires AllDigits(DigitsOf(g)) && IsDecimalRun(dec) && dec[0] == '.'
    ensures AllDigits(DigitsOf(g) + dec[1..])
    ensures ParseFloat(Normalise(g + dec)) == Some(Decimal(DigitsValue(DigitsOf(g) + dec[1..]), |dec| - 1))
  {
    RemoveCommasHasNoComma(g + dec);
    RemoveCommasOfRun(g, dec);
    AllDigitsAppend(DigitsOf(g), dec[1..]);
    ParsePointRun(DigitsOf(g), dec[1..], RemoveCommas(g + dec));
  }

  lemma ParseGroupComma(g: string, dec: string)
    requires AllDigits(DigitsOf(g)) && IsDecimalRun(dec) && dec[0] == ','
    ensures AllDigits(DigitsOf(g) + dec[1..])
    ensures ParseFloat(Normalise(g + dec)) == Some(Decimal(DigitsValue(DigitsOf(g) + dec[1..]), 0))
  {
    AllDigitsAppend(DigitsOf(g), dec[1..]);
    RemoveCommasHasNoComma(g + dec);
    RemoveCommasOfRun(g, dec);
    ParseCommaRun(DigitsOf(g), dec[1..], RemoveCommas(g + dec));
  }

  /** Deleting the commas of a group and its continuation keeps a `.` and drops a `,`. */
  lemma RemoveCommasOfRun(g: string, dec: string)
    requires IsDecimalRun(dec)
    ensures dec[0] == '.' ==> RemoveCommas(g + dec) == DigitsOf(g) + "." + dec[1..]
    ensures dec[0] == ',' ==> RemoveCommas(g + dec) == DigitsOf(g) + dec[1..]
  {
    var f := dec[1..];
    var head := if dec[0] == ',' then "" else ".";
    assert RemoveCommas(dec) == head + f by {
      RemoveCommasOfDigits(f);
    }
    assert RemoveCommas(g + dec) == DigitsOf(g) + (head + f) by {
      RemoveCommasAppend(g, dec);
    }
    assert DigitsOf(g) + (head + f) == DigitsOf(g) + head + f;
  }

  lemma ParsePointRun(i: string, f: string, r: string)
    requires AllDigits(i) && AllDigits(f) && f != []
    requires r == i + "." + f && ',' !in r
    ensures ParseFloat(ReplaceFirstComma(TrimStart(r))) == Some(Decimal(DigitsValue(i + f), |f|))
  {
    assert r[0] == '.' || r[0] == i[0];
    TrimStartNumeral(r);
    NoCommaLeftToReplace(r);
    ParseDotted(i, f);
  }

  lemma ParseCommaRun(i: string, f: string, r: string)
    requires AllDigits(i) && AllDigits(f) && f != []
    requires r == i + f && ',' !in r
    ensures ParseFloat(ReplaceFirstComma(TrimStart(r))) == Some(Decimal(DigitsValue(i + f), 0))
  {
    DigitsValueAppend(i, f);
    assert IsDigit(r[0]);
    TrimStartNumeral(r);
    NoCommaLeftToReplace(r);
    ParseWhole(r);
  }

  /** `¥1,200` stitched with `.50` is 1200.50; stitched with `,50` it is 120050. */
  lemma StitchedExamples()
    ensures ParseFloat(Normalise("1,200" + ".50")) == Some(Decimal(120050, 2))
    ensures ParseFloat(Normalise("1,200" + ",50")) == Some(Decimal(120050, 0))
  {
    assert IsDecimalRun(".50") && IsDecimalRun(",50");
    ParseStitched("1,200", ".50");
    ParseStitched("1,200", ",50");
    CommaGroupDigits();
    StitchedDigitsValue();
    assert ".50"[1..] == "50" && ",50"[1..] == "50";
  }

  lemma CommaGroupDigits()
    ensures DigitsOf("1,200") == "1200"
  {
    assert "1,200"[1..] == ",200" && ",200"[1..] == "200";
    assert "200"[1..] == "00" && "00"[1..] == "0" && "0"[1..] == "";
  }

  lemma StitchedDigitsValue()
    ensures DigitsValue("1200" + "50") == 120050
  {
    assert "1200" + "50" == "120050";
    assert "120050"[..5] == "12005" && "12005"[..4] == "1200" && "1200"[..3] == "120";
    assert "120"[..2] == "12" && "12"[..1] == "1" && "1"[..0] == "";
  }
}
