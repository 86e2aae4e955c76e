/** Products and quotients of reals, one step at a time; results come back as variables, which keeps the products
    out of the callers' arithmetic. */
module Reals {
  lemma {:induction false} MulLe(x: real, y: real, z: real)
    requires x <= y && 0.0 <= z
    ensures x * z <= y * z
  {
  }

  lemma {:induction false} MulLt(x: real, y: real, z: real)
    requires x < y && 0.0 < z
    ensures x * z < y * z
  {
  }

  lemma {:induction false} MulDiff(x: real, y: real, z: real)
    ensures x * y - x * z == x * (y - z)
  {
  }

  lemma {:induction false} MulAssoc(x: real, y: real, z: real)
    ensures x * (y * z) == x * y * z
  {
  }

  lemma {:induction false} MulNegate(x: real, y: real)
    ensures x * (-y) == -(x * y)
  {
  }

  lemma {:induction false} MulNext(x: real, y: real)
    ensures x * (y + 1.0) == x * y + x
  {
  }

  lemma {:induction false} Units(d: real)
    ensures 0.0 * d == 0.0 && 1.0 * d == d
  {
  }

  lemma {:induction false} Ordered(f: real, g: real, d: real) returns (v: real, w: real)
    requires f <= g && d >= 0.0
    ensures v == f * d && w == g * d && v <= w
  {
    v, w := f * d, g * d;
  }

  /** Two fractions of a non-negative length. */
  lemma {:induction false} Fractions(f: real, g: real, d: real) returns (v: real, w: real)
    requires 0.0 <= f <= g <= 1.0 && d >= 0.0
    ensures v == f * d && w == g * d && 0.0 <= v <= w <= d
  {
    Units(d);
    var a, b: real;
    v, w := Ordered(f, g, d);
    a, b := Ordered(0.0, f, d);
    assert b == v;
    a, b := Ordered(g, 1.0, d);
    assert a == w;
  }

  lemma {:induction false} Positive(y: real, n: real) returns (x: real)
    requires y > 0.0 && n > 0.0
    ensures x == y * n && x > 0.0
  {
    x := y * n;
  }

  /** A quotient has the sign of its numerator. */
  lemma {:induction false} Ratio(x: real, n: real) returns (y: real)
    requires x >= 0.0 && n > 0.0
    ensures y == x / n && y >= 0.0 && (y == 0.0 <==> x == 0.0)
  {
    y := x / n;
    assert y * n == x;
    Units(n);
    if y > 0.0 { var _ := Positive(y, n); }
    if y < 0.0 { var _ := Positive(-y, n); }
  }

  lemma {:induction false} Quotient(y: real, u: real, x: real)
    requires u > 0.0 && y * u == x
    ensures x / u == y
  {
  }

  /** Going a fraction of the way along d from u does not cross zero when the end does not. */
  lemma {:induction false} PartWay(u: real, f: real, d: real) returns (w: real)
    requires 0.0 <= f <= 1.0 && u >= 0.0 && u + d >= 0.0
    ensures w == f * d && u + w >= 0.0
  {
    var v: real;
    if d >= 0.0 {
      v, w := Fractions(f, f, d);
    } else {
      v, w := Fractions(f, f, -d);
      MulNegate(f, d);
      w := -v;
    }
  }

  lemma {:induction false} DivideBounds(lo: real, x: real, hi: real, n: real)
    requires n > 0.0 && lo * n <= x <= hi * n
    ensures lo <= x / n <= hi
  {
    var y := x / n;
    assert y * n == x;
    if y < lo { MulLt(y, lo, n); }
    if y > hi { MulLt(hi, y, n); }
  }
}
