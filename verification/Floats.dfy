/** Binary floating point as bit patterns: correct rounding, conversions between binary32 and binary64, and integers
    stored in them (IEEE 754-2019, sections 3.4, 4.3.1 and 5.4.1). */
module Floats {
  import opened Powers

  // ---------- Values of bit patterns ----------

  /** Value of a non-negative magnitude pattern with `p` fraction bits, in units of the format's
      least positive number: gradual underflow at exponent field 0, a hidden bit above it.
      The pattern of infinity reads as the first power of two that the format cannot hold. */
  function Val(p: nat, m: nat): nat {
    var e, f := m / Pow(2, p), m % Pow(2, p);
    if e == 0 then f else (f + Pow(2, p)) * Pow(2, e - 1)
  }

  /** The pattern of significand q over a base exponent; q may carry into the exponent field. */
  function Pattern(p: nat, base: nat, q: nat): nat {
    base * Pow(2, p) + q
  }

  /** Round to nearest, ties to even: n / d. */
  function Rne(n: nat, d: nat): nat
    requires d > 0
  {
    var q, r := n / d, n % d;
    if 2 * r > d || (2 * r == d && q % 2 == 1) then q + 1 else q
  }

  /** Bits dropped when n, counted in units of 2^-u, is rounded to p fraction bits. */
  function Shift(p: nat, u: nat, n: nat): (s: nat)
    requires n > 0
    ensures s >= u
  {
    if Log2(n) >= p + u then Log2(n) - p else u
  }

  /** The magnitude pattern with p fraction bits nearest to n * 2^-u, ties to even. */
  function RoundMag(p: nat, u: nat, n: nat): nat {
    if n == 0 then 0
    else var s := Shift(p, u, n); Pattern(p, s - u, Rne(n, Pow(2, s)))
  }

  /** A significand q over a common base exponent, including the carry into the next binade. */
  lemma {:induction false} ValBinade(p: nat, base: nat, q: nat)
    requires q <= Pow(2, p + 1)
    requires base == 0 || Pow(2, p) <= q
    ensures Val(p, Pattern(p, base, q)) == q * Pow(2, base)
  {
    var w := Pow(2, p);
    hide Val, Pow, Pattern;
    assert Pow(2, p + 1) == 2 * w by { Twice(p); }
    Twice(base);
    PatternIs(p, base, q);
    if q < w {
      NoShift();
      ValOf(p, q, 0, q);
    } else if q < 2 * w {
      Distribute(base, w);
      ValOf(p, base * w + q, base + 1, q - w);
    } else {
      Distribute(base, w);
      Distribute(base + 1, w);
      ValOf(p, base * w + q, base + 2, 0);
      MulAssoc(w, 2, Pow(2, base));
    }
  }

  lemma {:induction false} NoShift()
    ensures Pow(2, 0) == 1
  {
  }

  lemma {:induction false} Twice(l: nat)
    ensures Pow(2, l + 1) == 2 * Pow(2, l)
  {
  }

  lemma {:induction false} PatternIs(p: nat, base: nat, q: nat)
    ensures Pattern(p, base, q) == base * Pow(2, p) + q
    ensures base == 0 ==> Pattern(p, base, q) == q
  {
  }

  lemma {:induction false} ValOf(p: nat, m: nat, e: nat, f: nat)
    requires f < Pow(2, p) && m == e * Pow(2, p) + f
    ensures Val(p, m) == if e == 0 then f else (f + Pow(2, p)) * Pow(2, e - 1)
  {
    DivModUnique(m, Pow(2, p), e, f);
  }

  /** Every magnitude is a significand over a base exponent, with room for one more unit. */
  lemma {:induction false} Significand(p: nat, m: nat) returns (base: nat, q: nat)
    ensures m == Pattern(p, base, q)
    ensures q < Pow(2, p + 1)
    ensures base == 0 || Pow(2, p) <= q
  {
    var w := Pow(2, p);
    if m / w == 0 {
      base, q := 0, m;
    } else {
      base, q := m / w - 1, m % w + w;
    }
  }

  lemma {:induction false} ValStep(p: nat, m: nat)
    ensures Val(p, m) < Val(p, m + 1)
  {
    var base, q := Significand(p, m);
    ValBinade(p, base, q);
    ValBinade(p, base, q + 1);
    MulLt(q, q + 1, Pow(2, base));
  }

  lemma {:induction false} ValMonotone(p: nat, m: nat, n: nat)
    requires m < n
    ensures Val(p, m) < Val(p, n)
    decreases n - m
  {
    ValStep(p, n - 1);
    if m < n - 1 {
      ValMonotone(p, m, n - 1);
    }
  }

  // ---------- Correct rounding ----------

  function Dist(a: int, b: int): nat { if a < b then b - a else a - b }

  lemma {:induction false} RneCases(n: nat, d: nat) returns (lo: nat)
    requires d > 0
    ensures lo == n / d * d && lo <= n < lo + d
    ensures Rne(n, d) == n / d ==> 2 * (n - lo) < d || (2 * (n - lo) == d && (n / d) % 2 == 0)
    ensures Rne(n, d) != n / d ==>
      Rne(n, d) == n / d + 1 && (2 * (n - lo) > d || (2 * (n - lo) == d && (n / d) % 2 == 1))
  {
    lo := n / d * d;
    assert n % d == n - lo;
  }

  lemma {:induction false} QuotientBounds(n: nat, d: nat, x: nat)
    requires d > 0
    ensures n < x * d ==> n / d < x
    ensures x * d <= n ==> x <= n / d
  {
    if n < x * d && x <= n / d { MulLe(x, n / d, d); }
    if x * d <= n && n / d < x { MulLe(n / d + 1, x, d); }
  }

  /** The quotient fits the significand. */
  lemma {:induction false} QuotientFits(p: nat, u: nat, n: nat)
    requires n > 0
    ensures n / Pow(2, Shift(p, u, n)) < Pow(2, p + 1)
    ensures Shift(p, u, n) == u || Pow(2, p) <= n / Pow(2, Shift(p, u, n))
  {
    var k, s := Log2(n), Shift(p, u, n);
    PowAdd(2, p, s);
    PowAdd(2, p + 1, s);
    PowMonotone(2, k + 1, p + 1 + s);
    QuotientBounds(n, Pow(2, s), Pow(2, p + 1));
    QuotientBounds(n, Pow(2, s), Pow(2, p));
  }

  lemma {:induction false} ValScaled(p: nat, u: nat, s: nat, q: nat)
    requires u <= s && q <= Pow(2, p + 1)
    requires s == u || Pow(2, p) <= q
    ensures Val(p, Pattern(p, s - u, q)) * Pow(2, u) == q * Pow(2, s)
  {
    ValBinade(p, s - u, q);
    PowAdd(2, s - u, u);
    MulAssoc(q, Pow(2, s - u), Pow(2, u));
  }

  /** The greatest pattern whose value is at most n * 2^-u. */
  function Below(p: nat, u: nat, n: nat): nat
    requires n > 0
  {
    Pattern(p, Shift(p, u, n) - u, n / Pow(2, Shift(p, u, n)))
  }

  /** n lies between the values of two adjacent patterns. */
  lemma {:induction false} Bracket(p: nat, u: nat, n: nat) returns (lo: nat, d: nat)
    requires n > 0
    ensures d == Pow(2, Shift(p, u, n))
    ensures Val(p, Below(p, u, n)) * Pow(2, u) == lo == n / d * d <= n
    ensures Val(p, Below(p, u, n) + 1) * Pow(2, u) == lo + d > n
  {
    var s := Shift(p, u, n);
    d := Pow(2, s);
    lo := RneCases(n, d);
    QuotientFits(p, u, n);
    ValScaled(p, u, s, n / d);
    ValScaled(p, u, s, n / d + 1);
    Distribute(n / d, d);
  }

  lemma {:induction false} NextPattern(p: nat, base: nat, q: nat)
    ensures Pattern(p, base, q + 1) == Pattern(p, base, q) + 1
  {
  }

  /** RoundMag picks the nearer of the two neighbours. */
  lemma {:induction false} RoundChoice(p: nat, u: nat, n: nat, lo: nat, d: nat)
    requires p > 0 && n > 0 && d == Pow(2, Shift(p, u, n)) && lo == n / d * d
    ensures var r, b := RoundMag(p, u, n), Below(p, u, n);
            || (r == b && (2 * (n - lo) < d || (2 * (n - lo) == d && r % 2 == 0)))
            || (r == b + 1 && (2 * (n - lo) > d || (2 * (n - lo) == d && r % 2 == 0)))
  {
    hide Pow, Log2, Log2From, Shift, Pattern, Rne;
    var q, base := n / d, Shift(p, u, n) - u;
    var _ := RneCases(n, d);
    Parity(p, base, q);
    NextPattern(p, base, q);
    PickNeighbour(q, Rne(n, d), n - lo, d, Below(p, u, n), RoundMag(p, u, n));
  }

  lemma {:induction false} PickNeighbour(q: nat, picked: nat, gap: int, d: nat, b: nat, r: nat)
    requires picked == q ==> 2 * gap < d || (2 * gap == d && q % 2 == 0)
    requires picked != q ==> picked == q + 1 && (2 * gap > d || (2 * gap == d && q % 2 == 1))
    requires b % 2 == q % 2 && r == b + picked - q
    ensures || (r == b && (2 * gap < d || (2 * gap == d && r % 2 == 0)))
            || (r == b + 1 && (2 * gap > d || (2 * gap == d && r % 2 == 0)))
  {
  }

  lemma {:induction false} Distribute(q: int, d: int)
    ensures (q + 1) * d == q * d + d
  {
  }

  lemma {:induction false} ValOrder(p: nat, u: nat, b: nat, c: nat)
    requires b <= c
    ensures Val(p, b) * Pow(2, u) <= Val(p, c) * Pow(2, u)
    ensures b < c ==> Val(p, b) * Pow(2, u) < Val(p, c) * Pow(2, u)
  {
    if b < c {
      ValMonotone(p, b, c);
      MulLt(Val(p, b), Val(p, c), Pow(2, u));
    }
  }

  lemma {:induction false} EvenPlus(x: nat, q: nat)
    ensures (x * 2 + q) % 2 == q % 2
  {
  }

  lemma {:induction false} Parity(p: nat, base: nat, q: nat)
    requires p > 0
    ensures Pattern(p, base, q) % 2 == q % 2
  {
    var half := Pow(2, p - 1);
    assert Pow(2, p) == half * 2;
    hide Pow;
    MulAssoc(base, half, 2);
    EvenPlus(base * half, q);
  }

  /** The value RoundMag picks is a neighbour of n, at most half a step away. */
  lemma {:induction false} RoundPicks(p: nat, u: nat, n: nat) returns (lo: nat, d: nat, mine: nat)
    requires p > 0 && n > 0
    ensures mine == Val(p, RoundMag(p, u, n)) * Pow(2, u)
    ensures d == Pow(2, Shift(p, u, n)) && lo <= n < lo + d && lo == n / d * d
    ensures (mine == lo && 2 * (n - lo) <= d) || (mine == lo + d && 2 * (n - lo) >= d)
    ensures 2 * (n - lo) == d ==> RoundMag(p, u, n) % 2 == 0
  {
    lo, d := Bracket(p, u, n);
    RoundChoice(p, u, n, lo, d);
    mine := Val(p, RoundMag(p, u, n)) * Pow(2, u);
  }

  /** No pattern has its value strictly between the neighbours of n. */
  lemma {:induction false} NoneBetween(p: nat, u: nat, n: nat, c: nat) returns (lo: nat, d: nat, other: nat)
    requires n > 0
    ensures other == Val(p, c) * Pow(2, u)
    ensures d == Pow(2, Shift(p, u, n)) && lo <= n < lo + d && lo == n / d * d
    ensures other <= lo || lo + d <= other
  {
    lo, d := Bracket(p, u, n);
    other := Val(p, c) * Pow(2, u);
    var b := Below(p, u, n);
    if c <= b { ValOrder(p, u, c, b); } else { ValOrder(p, u, b + 1, c); }
  }

  lemma {:induction false} NearerNeighbour(n: nat, lo: nat, d: nat, mine: nat, other: nat)
    requires lo <= n < lo + d
    requires (mine == lo && 2 * (n - lo) <= d) || (mine == lo + d && 2 * (n - lo) >= d)
    requires other <= lo || lo + d <= other
    ensures Dist(mine, n) <= Dist(other, n)
    ensures Dist(mine, n) == Dist(other, n) ==> other == mine || 2 * (n - lo) == d
    ensures 2 * Dist(mine, n) <= d
  {
  }

  /** Rounding is correct: no pattern is nearer to n * 2^-u, and in a tie the even one is taken. */
  lemma {:induction false} RoundNearest(p: nat, u: nat, n: nat, c: nat)
    requires p > 0
    ensures var r := RoundMag(p, u, n);
            var mine, other := Dist(Val(p, r) * Pow(2, u), n), Dist(Val(p, c) * Pow(2, u), n);
            mine <= other && (c != r && mine == other ==> r % 2 == 0)
  {
    if n > 0 {
      var r := RoundMag(p, u, n);
      var lo, d, mine := RoundPicks(p, u, n);
      var _, _, other := NoneBetween(p, u, n, c);
      NearerNeighbour(n, lo, d, mine, other);
      if c < r { ValOrder(p, u, c, r); } else { ValOrder(p, u, r, c); }
    }
  }

  /** A number the format holds is left alone. */
  lemma {:induction false} RoundExact(p: nat, u: nat, c: nat)
    requires p > 0
    ensures RoundMag(p, u, Val(p, c) * Pow(2, u)) == c
  {
    var n := Val(p, c) * Pow(2, u);
    var r := RoundMag(p, u, n);
    RoundNearest(p, u, n, c);
    if r < c { ValOrder(p, u, r, c); } else if c < r { ValOrder(p, u, c, r); }
  }

  lemma {:induction false} RoundMonotone(p: nat, u: nat, n1: nat, n2: nat)
    requires p > 0 && n1 <= n2
    ensures RoundMag(p, u, n1) <= RoundMag(p, u, n2)
  {
    var r1, r2 := RoundMag(p, u, n1), RoundMag(p, u, n2);
    if r1 > r2 {
      ValOrder(p, u, r2, r1);
      RoundNearest(p, u, n1, r2);
      RoundNearest(p, u, n2, r1);
    }
  }

  /** The error is at most half a unit in the last place. */
  lemma {:induction false} RoundError(p: nat, u: nat, n: nat)
    requires p > 0 && n > 0
    ensures 2 * Dist(Val(p, RoundMag(p, u, n)) * Pow(2, u), n) <= Pow(2, Shift(p, u, n))
  {
    var lo, d := Bracket(p, u, n);
    RoundChoice(p, u, n, lo, d);
  }

  lemma {:induction false} ScaleBetween(a: nat, n: nat, b: nat, w: nat)
    requires a <= n < b && w > 0
    ensures a * w <= n * w < b * w
  {
  }

  lemma {:induction false} PowScaled(n: nat, l: nat, k: nat)
    requires Pow(2, l) <= n < Pow(2, l + 1)
    ensures Pow(2, l + k) <= n * Pow(2, k) < Pow(2, l + k + 1)
  {
    ScaleBetween(Pow(2, l), n, Pow(2, l + 1), Pow(2, k));
    PowAdd(2, l, k);
    PowAdd(2, l + 1, k);
    assert l + 1 + k == l + k + 1;
  }

  lemma {:induction false} Log2Scaled(n: nat, k: nat)
    requires n > 0
    ensures n * Pow(2, k) > 0 && Log2(n * Pow(2, k)) == Log2(n) + k
  {
    var l, m := Log2(n), n * Pow(2, k);
    PowScaled(n, l, k);
    Log2Unique(m, l + k);
  }

  /** A significand of at most p + 1 bits over an exponent in range is represented exactly. */
  lemma {:induction false} RoundRepresentable(p: nat, u: nat, q: nat, t: nat)
    requires p > 0 && u <= t && q < Pow(2, p + 1)
    ensures Val(p, RoundMag(p, u, q * Pow(2, t))) * Pow(2, u) == q * Pow(2, t)
  {
    var n := q * Pow(2, t);
    if q > 0 {
      Log2Scaled(q, t);
      if Log2(q) > p { PowMonotone(2, p + 1, Log2(q)); }
      var s := Shift(p, u, n);
      assert s <= t;
      PowAdd(2, t - s, s);
      MulAssoc(q, Pow(2, t - s), Pow(2, s));
      DivModUnique(n, Pow(2, s), q * Pow(2, t - s), 0);
      var lo, d, mine := RoundPicks(p, u, n);
    }
  }

  // ---------- binary32 and binary64 ----------

  type F32 = x: int | 0 <= x < 0x1_0000_0000
  type F64 = x: int | 0 <= x < 0x1_0000_0000_0000_0000

  const F32_SIGN := 0x8000_0000
  const F64_SIGN := 0x8000_0000_0000_0000
  const F32_INF := 0x7F80_0000
  const F64_INF := 0x7FF0_0000_0000_0000
  const F32_QUIET := 0x40_0000
  const F64_QUIET := 0x8_0000_0000_0000
  /** The fraction of binary64 is 29 bits longer. */
  const EXTRA := 0x2000_0000

  /** The least positive binary32 is 2^-149, the least positive binary64 is 2^-1074. */
  const F32_SHIFT: nat := 925
  const ONE64: nat := 1074

  function NarrowMag(m: nat): (r: nat)
    requires m < F64_SIGN
  {
    if m > F64_INF then F32_INF + F32_QUIET + (m - F64_INF) / EXTRA % F32_QUIET
    else if m == F64_INF then F32_INF
    else
      var r := RoundMag(23, F32_SHIFT, Val(52, m));
      if r < F32_INF then r else F32_INF
  }

  /** Conversion binary64 -> binary32: correctly rounded, overflow to infinity, NaNs quieted. */
  function Narrow(x: F64): F32 {
    if x < F64_SIGN then NarrowMag(x) else F32_SIGN + NarrowMag(x - F64_SIGN)
  }

  lemma {:induction false} CarryBound(x: nat, y: nat, w: nat, q: nat)
    requires x + 2 <= y && q <= 2 * w
    ensures x * w + q <= y * w
  {
    MulLe(x + 2, y, w);
  }

  lemma {:induction false} RoundSmall(p: nat, u: nat, n: nat, t: nat, top: nat)
    requires n < Pow(2, t) && p + u < t && top == t - p - u + 1
    ensures RoundMag(p, u, n) <= top * Pow(2, p)
  {
    hide Log2;
    if n > 0 {
      var s := Shift(p, u, n);
      if Log2(n) >= t { PowMonotone(2, t, Log2(n)); }
      var r := Rne(n, Pow(2, s));
      assert r <= 2 * Pow(2, p) by { QuotientFits(p, u, n); }
      CarryBound(s - u, top, Pow(2, p), r);
    }
  }

  lemma {:induction false} ValAtMost(p: nat, base: nat, b: nat)
    requires b <= (base + 1) * Pow(2, p)
    ensures Val(p, b) <= Pow(2, p + base)
  {
    var top := (base + 1) * Pow(2, p);
    Distribute(base, Pow(2, p));
    ValBinade(p, base, Pow(2, p));
    PowAdd(2, p, base);
    if b < top { ValMonotone(p, b, top); }
  }

  /** 2^128, where binary32 overflows, in units of 2^-1074. */
  lemma {:induction false} FiniteF32(b: nat)
    requires b <= F32_INF
    ensures Val(23, b) * Pow(2, F32_SHIFT) < Pow(2, 278 + F32_SHIFT)
  {
    hide Val, Pow;
    PowLiterals();
    ValAtMost(23, 254, b);
    PowAdd(2, 278, F32_SHIFT);
    Twice(277);
    MulLt(Val(23, b), Pow(2, 278), Pow(2, F32_SHIFT));
  }

  function WidenMag(b: nat): (r: nat)
    requires b < F32_SIGN
    ensures r < F64_SIGN
  {
    if b > F32_INF then F64_INF + F64_QUIET + (b - F32_INF) * EXTRA % F64_QUIET
    else if b == F32_INF then F64_INF
    else
      FiniteF32(b);
      PowLiterals();
      RoundSmall(52, 0, Val(23, b) * Pow(2, F32_SHIFT), 278 + F32_SHIFT, 279 + F32_SHIFT - 52);
      RoundMag(52, 0, Val(23, b) * Pow(2, F32_SHIFT))
  }

  /** Conversion binary32 -> binary64: exact, NaNs quieted. */
  function Widen(b: F32): F64 {
    if b < F32_SIGN then WidenMag(b) else F64_SIGN + WidenMag(b - F32_SIGN)
  }

  predicate SignalingF32(b: F32) {
    var m := b % F32_SIGN;
    F32_INF < m < F32_INF + F32_QUIET
  }

  /** Scaling a binary32 up to units of 2^-1074 keeps it a short significand. */
  lemma {:induction false} ScaledSignificand(b: nat, u: nat) returns (q: nat, t: nat)
    ensures q < Pow(2, 24) && t >= u
    ensures Val(23, b) * Pow(2, u) == q * Pow(2, t)
  {
    var base: nat;
    hide Val, Pow;
    base, q := Significand(23, b);
    t := base + u;
    ValBinade(23, base, q);
    PowAdd(2, base, u);
    MulAssoc(q, Pow(2, base), Pow(2, u));
  }

  /** A short significand fits binary64 unchanged. */
  lemma {:induction false} ShortIsExact(n: nat, q: nat, t: nat)
    requires n == q * Pow(2, t) && q < Pow(2, 53)
    ensures Val(52, RoundMag(52, 0, n)) == n
  {
    assert Pow(2, 0) == 1;
    hide Val, RoundMag, Pow;
    RoundRepresentable(52, 0, q, t);
  }

  lemma {:induction false} WidenExact(b: nat)
    requires b < F32_INF
    ensures Val(52, WidenMag(b)) == Val(23, b) * Pow(2, F32_SHIFT)
    ensures WidenMag(b) < F64_INF
  {
    hide Val, RoundMag, Pow;
    PowLiterals();
    FiniteF32(b);
    var n := Val(23, b) * Pow(2, F32_SHIFT);
    RoundSmall(52, 0, n, 278 + F32_SHIFT, 279 + F32_SHIFT - 52);
    var q, t := ScaledSignificand(b, F32_SHIFT);
    ShortIsExact(n, q, t);
  }

  lemma {:induction false} NarrowWidenMag(b: nat)
    requires b < F32_SIGN && !SignalingF32(b)
    ensures NarrowMag(WidenMag(b)) == b
  {
    if b < F32_INF {
      WidenExact(b);
      RoundExact(23, F32_SHIFT, b);
    } else if b > F32_INF {
      var t := b - F32_INF - F32_QUIET;
      assert (b - F32_INF) * EXTRA == F64_QUIET + t * EXTRA;
    }
  }

  lemma {:induction false} NarrowIsQuiet(x: F64)
    ensures !SignalingF32(Narrow(x))
  {
    hide RoundMag, Val;
    var m := if x < F64_SIGN then x else x - F64_SIGN;
    assert Narrow(x) % F32_SIGN == NarrowMag(m);
  }

  lemma {:induction false} NarrowNegative(m: nat, n: nat)
    requires m < F64_SIGN && n == NarrowMag(m)
    ensures Narrow(m) == n && Narrow(F64_SIGN + m) == F32_SIGN + n
  {
  }

  /** Widening then narrowing gives back every binary32 except a signaling NaN. */
  lemma {:induction false} NarrowWiden(b: F32)
    ensures Narrow(Widen(b)) == b <==> !SignalingF32(b)
  {
    hide NarrowMag, WidenMag;
    if SignalingF32(b) {
      NarrowIsQuiet(Widen(b));
    } else {
      var m := if b < F32_SIGN then b else b - F32_SIGN;
      assert b % F32_SIGN == m % F32_SIGN;
      NarrowWidenMag(m);
      NarrowNegative(WidenMag(m), m);
    }
  }

  /** Rounding to binary32 is idempotent. */
  lemma {:induction false} NarrowIdempotent(x: F64)
    ensures Narrow(Widen(Narrow(x))) == Narrow(x)
  {
    NarrowIsQuiet(x);
    NarrowWiden(Narrow(x));
  }

  /** Narrowing is correctly rounded: below overflow no binary32 is nearer, ties go to even. */
  lemma {:induction false} NarrowNearest(m: nat, c: nat)
    requires m < F64_INF && NarrowMag(m) < F32_INF
    ensures var r, n := NarrowMag(m), Val(52, m);
            var mine, other := Dist(Val(23, r) * Pow(2, F32_SHIFT), n), Dist(Val(23, c) * Pow(2, F32_SHIFT), n);
            mine <= other && (c != r && mine == other ==> r % 2 == 0)
  {
    RoundNearest(23, F32_SHIFT, Val(52, m), c);
  }

  lemma {:induction false} NarrowMonotone(m: nat, n: nat)
    requires m <= n <= F64_INF
    ensures NarrowMag(m) <= NarrowMag(n)
  {
    if m < n < F64_INF {
      ValMonotone(52, m, n);
      RoundMonotone(23, F32_SHIFT, Val(52, m), Val(52, n));
    }
  }

  // ---------- Integers ----------

  function Abs(i: int): nat { if i < 0 then -i else i }

  const INT_LIMIT: nat := 0x1_0000_0000_0000_0000

  lemma {:induction false} IntSmall(n: nat)
    requires n <= INT_LIMIT
    ensures RoundMag(52, 0, n * Pow(2, ONE64)) < F64_INF
  {
    hide RoundMag, Pow;
    PowLiterals();
    PowAdd(2, 65, ONE64);
    Twice(64);
    MulLt(n, Pow(2, 65), Pow(2, ONE64));
    RoundSmall(52, 0, n * Pow(2, ONE64), 65 + ONE64, 66 + ONE64 - 52);
  }

  /** Conversion of an integer to binary64: correctly rounded. */
  function IntToF64(i: int): F64
    requires Abs(i) <= INT_LIMIT
  {
    IntSmall(Abs(i));
    var m := RoundMag(52, 0, Abs(i) * Pow(2, ONE64));
    if i < 0 then F64_SIGN + m else m
  }

  /** An integer stored in a binary32 cell goes through binary64. */
  function IntToF32(i: int): F32
    requires Abs(i) <= INT_LIMIT
  {
    Narrow(IntToF64(i))
  }

  lemma {:induction false} IntToF64Exact(i: nat)
    requires i < Pow(2, 53)
    ensures i <= INT_LIMIT && Val(52, IntToF64(i)) == i * Pow(2, ONE64)
  {
    hide Val, RoundMag, Pow;
    PowLiterals();
    IntSmall(i);
    ShortIsExact(i * Pow(2, ONE64), i, ONE64);
  }

  lemma {:induction false} IntToF32Finite(i: nat)
    requires i < Pow(2, 53)
    ensures i <= INT_LIMIT && IntToF32(i) == RoundMag(23, F32_SHIFT, i * Pow(2, ONE64)) < F32_INF
  {
    hide Val, RoundMag, Pow;
    PowLiterals();
    IntToF64Exact(i);
    IntSmall(i);
    PowAdd(2, 54, ONE64);
    Twice(53);
    MulLt(i, Pow(2, 54), Pow(2, ONE64));
    RoundSmall(23, F32_SHIFT, i * Pow(2, ONE64), 54 + ONE64, 55 + ONE64 - 23 - F32_SHIFT);
  }
}
