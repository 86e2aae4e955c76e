/** Decimal numerals: printing, zero padding and their order as text. */
module Decimal {
  import opened Powers

  function Digit(d: nat): char
    requires d < 10
  {
    '0' + d as char
  }

  /** str(n). */
  function Digits(n: nat): (s: string)
    ensures s != ""
  {
    if n < 10 then [Digit(n)] else Digits(n / 10) + [Digit(n % 10)]
  }

  function Zeros(k: nat): (s: string)
    ensures |s| == k
  {
    seq(k, _ => '0')
  }

  /** n printed with at least w digits. */
  function Padded(n: nat, w: nat): string {
    var s := Digits(n);
    if |s| < w then Zeros(w - |s|) + s else s
  }

  predicate Numeral(s: string) {
    forall i :: 0 <= i < |s| ==> '0' <= s[i] <= '9'
  }

  function Parse(s: string): nat
    requires Numeral(s)
  {
    if s == "" then 0 else Parse(s[..|s| - 1]) * 10 + (s[|s| - 1] as int - '0' as int)
  }

  lemma {:induction false} ParseNext(s: string, c: char)
    requires Numeral(s) && '0' <= c <= '9'
    ensures Numeral(s + [c]) && Parse(s + [c]) == Parse(s) * 10 + (c as int - '0' as int)
  {
    assert (s + [c])[..|s|] == s;
  }

  lemma {:induction false} ParseDigits(n: nat)
    ensures Numeral(Digits(n)) && Parse(Digits(n)) == n
  {
    if n < 10 {
      ParseNext("", Digit(n));
      assert "" + [Digit(n)] == [Digit(n)];
    } else {
      ParseDigits(n / 10);
      ParseNext(Digits(n / 10), Digit(n % 10));
    }
  }

  lemma {:induction false} ParseZeros(k: nat, s: string)
    requires Numeral(s)
    ensures Numeral(Zeros(k) + s) && Parse(Zeros(k) + s) == Parse(s)
  {
    if s == "" {
      assert Zeros(k) + s == Zeros(k);
      if k > 0 {
        ParseZeros(k - 1, "");
        assert Zeros(k - 1) + "" == Zeros(k - 1);
        ParseNext(Zeros(k - 1), '0');
        assert Zeros(k) == Zeros(k - 1) + ['0'];
      }
    } else {
      var t, c := s[..|s| - 1], s[|s| - 1];
      ParseZeros(k, t);
      ParseNext(Zeros(k) + t, c);
      assert Zeros(k) + s == Zeros(k) + t + [c];
    }
  }

  /** Parsing undoes padded printing, whatever the width. */
  lemma {:induction false} ParsePadded(n: nat, w: nat)
    ensures Numeral(Padded(n, w)) && Parse(Padded(n, w)) == n
  {
    ParseDigits(n);
    if |Digits(n)| < w { ParseZeros(w - |Digits(n)|, Digits(n)); }
  }

  lemma {:induction false} DigitCount(n: nat, w: nat)
    requires w > 0
    ensures |Digits(n)| <= w <==> n < Pow(10, w)
  {
    if w == 1 {
      assert Pow(10, 1) == 10;
    } else if n >= 10 {
      DigitCount(n / 10, w - 1);
      assert Pow(10, w) == 10 * Pow(10, w - 1);
    } else {
      PowMonotone(10, 1, w);
      assert Pow(10, 1) == 10;
    }
  }

  /** Text order, as Python compares strings. */
  predicate TextLess(s: string, t: string) {
    t != "" && (s == "" || s[0] < t[0] || (s[0] == t[0] && TextLess(s[1..], t[1..])))
  }

  lemma {:induction false} TextLessLast(s: string, t: string, x: char, y: char)
    requires |s| == |t|
    ensures TextLess(s + [x], t + [y]) <==> TextLess(s, t) || (s == t && x < y)
  {
    if s != "" {
      TextLessLast(s[1..], t[1..], x, y);
      assert (s + [x])[1..] == s[1..] + [x] && (t + [y])[1..] == t[1..] + [y];
      assert s == [s[0]] + s[1..] && t == [t[0]] + t[1..];
    }
  }

  lemma {:induction false} TextLessPrefix(p: string, s: string, t: string)
    ensures TextLess(p + s, p + t) <==> TextLess(s, t)
  {
    if p == "" {
      assert p + s == s && p + t == t;
    } else {
      TextLessPrefix(p[1..], s, t);
      assert (p + s)[1..] == p[1..] + s && (p + t)[1..] == p[1..] + t;
    }
  }

  lemma {:induction false} NumeralOrder(s: string, t: string)
    requires Numeral(s) && Numeral(t) && |s| == |t|
    ensures TextLess(s, t) <==> Parse(s) < Parse(t)
    ensures s == t <==> Parse(s) == Parse(t)
  {
    if s != "" {
      var n := |s| - 1;
      NumeralOrder(s[..n], t[..n]);
      TextLessLast(s[..n], t[..n], s[n], t[n]);
      assert s == s[..n] + [s[n]] && t == t[..n] + [t[n]];
    }
  }

  /** With w digits at most, text order is numeric order. */
  lemma {:induction false} PaddedOrder(i: nat, j: nat, w: nat)
    requires w > 0 && i < Pow(10, w) && j < Pow(10, w)
    ensures |Padded(i, w)| == |Padded(j, w)| == w
    ensures TextLess(Padded(i, w), Padded(j, w)) <==> i < j
  {
    DigitCount(i, w);
    DigitCount(j, w);
    ParsePadded(i, w);
    ParsePadded(j, w);
    NumeralOrder(Padded(i, w), Padded(j, w));
  }

  lemma {:induction false} FirstDigits(w: nat)
    requires w > 0
    ensures Digits(Pow(10, w))[0] == '1'
    ensures Digits(Pow(10, w) - 1)[0] == '9'
  {
    if w == 1 {
      assert Pow(10, 1) == 10;
      assert Digits(1) == "1" && Digits(9) == "9";
    } else {
      FirstDigits(w - 1);
      var p := Pow(10, w - 1);
      assert Pow(10, w) == 10 * p;
      assert (10 * p) / 10 == p && (10 * p - 1) / 10 == p - 1;
      PowMonotone(10, 1, w - 1);
      assert Pow(10, 1) == 10;
    }
  }

  /** Where the numerals outgrow the padding, text order breaks: 10^w sorts before 10^w - 1. */
  lemma {:induction false} OverflowOrder(w: nat)
    requires w > 0
    ensures !TextLess(Padded(Pow(10, w) - 1, w), Padded(Pow(10, w), w))
  {
    FirstDigits(w);
    DigitCount(Pow(10, w) - 1, w);
    DigitCount(Pow(10, w), w);
    if w > 1 {
      DigitCount(Pow(10, w) - 1, w - 1);
      PowMonotone(10, 0, w - 1);
    }
  }
}
