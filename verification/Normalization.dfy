/** How a percentile's name (999 for 99.9) becomes a number. */
module Normalization {
  import opened Powers
  import opened Decimal
  import Reals

  /** Index of the decimal point. */
  function PointAt(text: string): (k: nat)
    ensures k <= |text| && forall i :: 0 <= i < k ==> text[i] != '.'
    ensures k < |text| ==> text[k] == '.'
  {
    if text == "" || text[0] == '.' then 0 else 1 + PointAt(text[1..])
  }

  lemma {:induction false} PointIs(text: string, k: nat)
    requires k < |text| && text[k] == '.' && forall i :: 0 <= i < k ==> text[i] != '.'
    ensures PointAt(text) == k
  {
    if k > 0 { PointIs(text[1..], k - 1); }
  }

  function TenTo(k: nat): (r: real)
    ensures r > 0.0
  {
    Pow(10, k) as real
  }

  /** float(text) for digits, a point and digits. */
  function ParseFloat(text: string): real
    requires Numeral(text[..PointAt(text)]) && PointAt(text) < |text| && Numeral(text[PointAt(text) + 1..])
  {
    var k := PointAt(text);
    Parse(text[..k]) as real + Parse(text[k + 1..]) as real / TenTo(|text| - k - 1)
  }

  /** The text that _normalize turns into a float: first digit, "9.", then everything after the second digit. */
  function NormalizeText(pct: nat): string {
    var s := Digits(pct);
    [s[0], '9', '.'] + if |s| >= 2 then s[2..] else ""
  }

  lemma {:induction false} NormalizeTextParts(pct: nat)
    ensures var t, s := NormalizeText(pct), Digits(pct);
      && PointAt(t) == 2 && |t| > 2 && t[..2] == [s[0], '9'] && Numeral(t[..2])
      && t[3..] == (if |s| >= 2 then s[2..] else "") && Numeral(t[3..])
  {
    ParseDigits(pct);
    PointIs(NormalizeText(pct), 2);
  }

  function Normalize(pct: nat): real {
    NormalizeTextParts(pct);
    ParseFloat(NormalizeText(pct))
  }

  function Value(c: char): nat
    requires '0' <= c <= '9'
  {
    c as int - '0' as int
  }

  lemma {:induction false} ParseTwo(c: char, d: char)
    requires '0' <= c <= '9' && '0' <= d <= '9'
    ensures Numeral([c, d]) && Parse([c, d]) == 10 * Value(c) + Value(d)
  {
    ParseNext("", c);
    ParseNext([c], d);
    assert "" + [c] == [c] && [c] + [d] == [c, d];
  }

  lemma {:induction false} ParseSplit(s: string, k: nat)
    requires Numeral(s) && k <= |s|
    ensures Parse(s) == Parse(s[..k]) * Pow(10, |s| - k) + Parse(s[k..])
    decreases |s|
  {
    if k == |s| {
      assert s[..k] == s;
    } else {
      var n := |s| - 1;
      ParseSplit(s[..n], k);
      assert s[..n][..k] == s[..k];
      assert s[k..][..n - k] == s[..n][k..] && s[k..][n - k] == s[n];
      ShiftLeft(Parse(s[..k]), Pow(10, n - k), Parse(s[..n][k..]));
      assert Pow(10, |s| - k) == 10 * Pow(10, n - k);
    }
  }

  lemma {:induction false} ShiftLeft(a: nat, w: nat, r: nat)
    ensures (a * w + r) * 10 == a * (10 * w) + r * 10
  {
  }

  lemma {:induction false} SplitReal(a: nat, b: nat, w: nat)
    requires w > 0
    ensures (a * w + b) as real / w as real == a as real + b as real / w as real
  {
    var u, x := w as real, b as real / w as real;
    assert x * u == b as real;
    assert (a as real + x) * u == a as real * u + x * u;
    assert (a * w + b) as real == a as real * u + b as real;
    Reals.Quotient(a as real + x, u, (a * w + b) as real);
  }

  /** What the name means: its digits with a point after the second one. */
  lemma {:induction false} NameValue(pct: nat)
    requires pct >= 10
    ensures var s := Digits(pct);
      && |s| >= 2 && Numeral(s)
      && pct as real / TenTo(|s| - 2)
           == (10 * Value(s[0]) + Value(s[1])) as real + Parse(s[2..]) as real / TenTo(|s| - 2)
  {
    var s := Digits(pct);
    TwoDigits(pct);
    ParseSplit(s, 2);
    ParseTwo(s[0], s[1]);
    assert s[..2] == [s[0], s[1]];
    hide Digits, Parse, Pow;
    SplitReal(Parse(s[..2]), Parse(s[2..]), Pow(10, |s| - 2));
  }

  lemma {:induction false} TwoDigits(pct: nat)
    requires pct >= 10
    ensures var s := Digits(pct); |s| >= 2 && Numeral(s) && Parse(s) == pct
  {
    ParseDigits(pct);
    DigitCount(pct, 1);
    assert Pow(10, 1) == 10;
  }

  /** What _normalize returns: the same with a 9 for the second digit. */
  lemma {:induction false} NormalizeValue(pct: nat)
    requires pct >= 10
    ensures var s := Digits(pct);
      && |s| >= 2 && Numeral(s)
      && Normalize(pct) == (10 * Value(s[0]) + 9) as real + Parse(s[2..]) as real / TenTo(|s| - 2)
  {
    var s := Digits(pct);
    TwoDigits(pct);
    NormalizeTextParts(pct);
    ParseTwo(s[0], '9');
  }

  /** A percentile's name is its digits with a point after the second one (999 means 99.9); _normalize reads it so
      exactly when the second digit is a 9, because it writes a 9 there whatever the digit was. */
  lemma {:induction false} NormalizeExact(pct: nat)
    requires pct >= 10
    ensures |Digits(pct)| >= 2
    ensures Normalize(pct) == pct as real / TenTo(|Digits(pct)| - 2) <==> Digits(pct)[1] == '9'
  {
    NameValue(pct);
    NormalizeValue(pct);
  }

  /** For example 955, which means 95.5, is read as 99.5. */
  lemma {:induction false} NormalizeWrong()
    ensures Normalize(955) != 955.0 / TenTo(|Digits(955)| - 2)
  {
    assert Digits(9) == "9";
    assert Digits(95) == "95";
    assert Digits(955) == "955";
    NormalizeExact(955);
  }

  lemma {:induction false} NinesDigits(k: nat)
    requires k > 0
    ensures Digits(Pow(10, k) - 1) == seq(k, _ => '9')
  {
    if k == 1 {
      assert Pow(10, 1) == 10;
    } else {
      NinesDigits(k - 1);
      var p := Pow(10, k - 1);
      assert Pow(10, k) - 1 == 10 * (p - 1) + 9;
      PowMonotone(10, 1, k - 1);
      assert Pow(10, 1) == 10;
    }
  }

  lemma {:induction false} NinesQuotient(n: nat, w: nat)
    requires w > 0 && n + 1 == 100 * w
    ensures n as real / w as real == 100.0 - 1.0 / w as real
  {
    var x, u := 1.0 / w as real, w as real;
    assert x * u == 1.0;
    assert (100.0 - x) * u == 100.0 * u - x * u;
    assert n as real == 100.0 * u - 1.0;
    Reals.Quotient(100.0 - x, u, n as real);
  }

  lemma {:induction false} NinesRead(k: nat)
    requires k >= 2
    ensures var n := Pow(10, k) - 1; n >= 10 && |Digits(n)| == k && Normalize(n) == n as real / TenTo(k - 2)
  {
    PowMonotone(10, 2, k);
    assert Pow(10, 2) == 100;
    NinesDigits(k);
    hide Pow, Normalize, Digits, TenTo;
    NormalizeExact(Pow(10, k) - 1);
  }

  lemma {:induction false} NinesValue(k: nat)
    requires k >= 2
    ensures Normalize(Pow(10, k) - 1) == (Pow(10, k) - 1) as real / TenTo(k - 2)
    ensures Normalize(Pow(10, k) - 1) == 100.0 - 1.0 / TenTo(k - 2)
  {
    NinesRead(k);
    PowAdd(10, 2, k - 2);
    assert Pow(10, 2) == 100;
    hide Pow, Normalize, Digits;
    NinesQuotient(Pow(10, k) - 1, Pow(10, k - 2));
  }

  lemma {:induction false} Tenth(w: real)
    requires w >= 1.0
    ensures 0.0 < 1.0 / (10.0 * w) < 1.0 / w <= 1.0
  {
    var x, y := 1.0 / w, 1.0 / (10.0 * w);
    assert x * w == 1.0 && y * (10.0 * w) == 1.0;
    Reals.Quotient(10.0 * y, w, 1.0);
    Reals.DivideBounds(0.0, 1.0, 1.0, w);
  }

  /** k nines stand for (10^k - 1) / 10^(k - 2) percent: from 99 up, larger with each further 9, always below 100. */
  lemma {:induction false} NormalizeNines(k: nat)
    requires k >= 2
    ensures Normalize(Pow(10, k) - 1) == (Pow(10, k) - 1) as real / TenTo(k - 2)
    ensures 99.0 <= Normalize(Pow(10, k) - 1) < Normalize(Pow(10, k + 1) - 1) < 100.0
  {
    NinesValue(k);
    NinesValue(k + 1);
    assert Pow(10, k - 1) == 10 * Pow(10, k - 2);
    assert TenTo(k - 1) == 10.0 * TenTo(k - 2);
    PowMonotone(10, 0, k - 2);
    Tenth(TenTo(k - 2));
  }
}
