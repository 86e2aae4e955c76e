/** Interpolated percentiles of one run's samples. */
module Percentiles {
  import opened Reals
  import opened OrderStats

  // ---------- Interpolation between order statistics ----------

  /** The value at fractional position h of a sorted sample. */
  function Interp(t: seq<real>, h: real): real
    requires t != [] && 0.0 <= h <= (|t| - 1) as real
  {
    var lo := h.Floor;
    if lo >= |t| - 1 then t[|t| - 1] else t[lo] + (h - lo as real) * (t[lo + 1] - t[lo])
  }

  lemma {:induction false} InterpCell(t: seq<real>, h: real)
    requires Sorted(t) && t != [] && 0.0 <= h <= (|t| - 1) as real
    ensures 0 <= h.Floor < |t|
    ensures t[h.Floor] <= Interp(t, h)
    ensures h.Floor + 1 < |t| ==> Interp(t, h) <= t[h.Floor + 1]
    ensures t[0] <= Interp(t, h) <= t[|t| - 1]
  {
    var lo := h.Floor;
    if lo < |t| - 1 {
      var _, w := Fractions(h - lo as real, h - lo as real, t[lo + 1] - t[lo]);
      assert Interp(t, h) == t[lo] + w;
    }
  }

  lemma {:induction false} InterpMonotone(t: seq<real>, g: real, h: real)
    requires Sorted(t) && t != [] && 0.0 <= g <= h <= (|t| - 1) as real
    ensures Interp(t, g) <= Interp(t, h)
  {
    InterpCell(t, g);
    InterpCell(t, h);
    var lo := g.Floor;
    if lo < h.Floor {
      assert t[lo + 1] <= t[h.Floor];
    } else if lo < |t| - 1 {
      var v, w := Fractions(g - lo as real, h - lo as real, t[lo + 1] - t[lo]);
      assert Interp(t, g) == t[lo] + v && Interp(t, h) == t[lo] + w;
    }
  }

  /** Blends of a with a + x and of c with c + y. */
  lemma {:induction false} BlendBelow(a: real, c: real, f: real, x: real, y: real) returns (v: real, w: real)
    requires 0.0 <= f <= 1.0 && a <= c && a + x <= c + y
    ensures v == f * x && w == f * y && a + v <= c + w
  {
    var z := PartWay(c - a, f, y - x);
    v, w := f * x, f * y;
    MulDiff(f, y, x);
    assert w - v == z;
  }

  lemma {:induction false} InterpBelow(t: seq<real>, u: seq<real>, h: real)
    requires Below(t, u) && t != [] && 0.0 <= h <= (|t| - 1) as real
    ensures Interp(t, h) <= Interp(u, h)
  {
    var lo := h.Floor;
    if lo < |t| - 1 {
      var v, w := BlendBelow(t[lo], u[lo], h - lo as real, t[lo + 1] - t[lo], u[lo + 1] - u[lo]);
      assert Interp(t, h) == t[lo] + v && Interp(u, h) == u[lo] + w;
    }
  }

  // ---------- np.percentile ----------

  /** The fractional position of percentile q among n samples. */
  function Position(n: nat, q: real): real {
    q / 100.0 * (n as real - 1.0)
  }

  lemma {:induction false} PositionBounds(n: nat, p: real, q: real)
    requires n > 0 && 0.0 <= p <= q <= 100.0
    ensures 0.0 <= Position(n, p) <= Position(n, q) <= (n - 1) as real
  {
    var v, w := Fractions(p / 100.0, q / 100.0, n as real - 1.0);
    assert Position(n, p) == v && Position(n, q) == w;
  }

  function Percentile(s: seq<real>, q: real): real
    requires s != [] && 0.0 <= q <= 100.0
  {
    PositionBounds(|s|, q, q);
    Interp(Sort(s), Position(|s|, q))
  }

  /** Percentiles grow with q, across every cell boundary. */
  lemma {:induction false} PercentileMonotone(s: seq<real>, p: real, q: real)
    requires s != [] && 0.0 <= p <= q <= 100.0
    ensures Percentile(s, p) <= Percentile(s, q)
  {
    SortSorts(s);
    PositionBounds(|s|, p, q);
    InterpMonotone(Sort(s), Position(|s|, p), Position(|s|, q));
  }

  lemma {:induction false} PercentilePermutation(s: seq<real>, t: seq<real>, q: real)
    requires s != [] && multiset(s) == multiset(t) && 0.0 <= q <= 100.0
    ensures t != [] && Percentile(s, q) == Percentile(t, q)
  {
    SortPermutation(s, t);
    assert |s| == |multiset(s)| == |multiset(t)| == |t|;
  }

  /** If every sample grows, every percentile grows. */
  lemma {:induction false} PercentileBelow(s: seq<real>, t: seq<real>, q: real)
    requires s != [] && Below(s, t) && 0.0 <= q <= 100.0
    ensures Percentile(s, q) <= Percentile(t, q)
  {
    SortMonotone(s, t);
    SortSorts(s);
    SortSorts(t);
    PositionBounds(|s|, q, q);
    InterpBelow(Sort(s), Sort(t), Position(|s|, q));
  }

  /** At its own rank a percentile is an order statistic: k / (n - 1) of the way through is the k-th smallest. */
  lemma {:induction false} PercentileAtRank(s: seq<real>, k: nat)
    requires |s| > 1 && k < |s|
    ensures 0.0 <= 100.0 * k as real / (|s| - 1) as real <= 100.0
    ensures Percentile(s, 100.0 * k as real / (|s| - 1) as real) == Sort(s)[k]
  {
    PositionOfRank(|s|, k as real);
    assert (k as real).Floor == k;
    if k < |s| - 1 { Units(Sort(s)[k + 1] - Sort(s)[k]); }
  }

  /** Within a cell the percentile moves in a straight line from one order statistic to the next: a fraction f of the
      way
      from rank k to rank k + 1. */
  lemma {:induction false} PercentileInCell(s: seq<real>, k: nat, f: real)
    requires |s| > 1 && k < |s| - 1 && 0.0 <= f <= 1.0
    ensures 0.0 <= 100.0 * (k as real + f) / (|s| - 1) as real <= 100.0
    ensures Percentile(s, 100.0 * (k as real + f) / (|s| - 1) as real) == (1.0 - f) * Sort(s)[k] + f * Sort(s)[k + 1]
  {
    var h := k as real + f;
    PositionOfRank(|s|, h);
    InterpInCell(Sort(s), k, f);
  }

  lemma {:induction false} PositionOfRank(n: nat, h: real)
    requires n > 1 && 0.0 <= h <= (n - 1) as real
    ensures var q := 100.0 * h / (n - 1) as real; 0.0 <= q <= 100.0 && Position(n, q) == h
  {
    var m := (n - 1) as real;
    var r := h / m;
    assert r * m == h;
    Units(m);
    DivideBounds(0.0, h, 1.0, m);
    MulAssoc(100.0, r, m);
    Quotient(100.0 * r, m, 100.0 * h);
    assert 100.0 * h / m / 100.0 == r;
    assert Position(n, 100.0 * h / m) == r * m;
  }

  lemma {:induction false} InterpInCell(t: seq<real>, k: nat, f: real)
    requires k < |t| - 1 && 0.0 <= f <= 1.0
    ensures 0.0 <= k as real + f <= (|t| - 1) as real
    ensures Interp(t, k as real + f) == (1.0 - f) * t[k] + f * t[k + 1]
  {
    var h := k as real + f;
    Blend(f, t[k], t[k + 1]);
    if f < 1.0 {
      assert h.Floor == k && h - k as real == f;
    } else {
      assert h == (k + 1) as real && h.Floor == k + 1;
      Units(t[k + 1]);
      Units(t[k]);
      if k + 1 < |t| - 1 { Units(t[k + 2] - t[k + 1]); }
    }
  }

  lemma {:induction false} Blend(f: real, a: real, b: real)
    ensures a + f * (b - a) == (1.0 - f) * a + f * b
  {
    MulDiff(f, b, a);
    assert (1.0 - f) * a == a - f * a;
  }

  /** The 50th percentile is the median. */
  lemma {:induction false} PercentileFiftyIsMedian(s: seq<real>)
    requires s != []
    ensures Percentile(s, 50.0) == Median(s)
  {
    var n := |s|;
    var h := Position(n, 50.0);
    assert h == (n as real - 1.0) / 2.0;
    if n % 2 == 1 {
      assert n == 2 * (n / 2) + 1;
      assert h == (n / 2) as real;
      assert h.Floor == n / 2;
    } else {
      assert n == 2 * (n / 2);
      assert h == (n / 2 - 1) as real + 0.5;
      assert h.Floor == n / 2 - 1;
    }
  }

  function Times(x: real, c: real): real {
    x * c
  }

  function Scaled(s: seq<real>, c: real): (r: seq<real>)
    ensures |r| == |s|
  {
    seq(|s|, i requires 0 <= i < |s| => Times(s[i], c))
  }

  lemma {:induction false} ScaleOrder(x: real, y: real, c: real)
    requires c > 0.0
    ensures x <= y <==> Times(x, c) <= Times(y, c)
  {
    if x <= y { MulLe(x, y, c); } else { MulLt(y, x, c); }
  }

  lemma {:induction false} InsertScaled(x: real, s: seq<real>, c: real)
    requires c > 0.0
    ensures Insert(Times(x, c), Scaled(s, c)) == Scaled(Insert(x, s), c)
  {
    hide Times;
    if s != [] {
      ScaleOrder(x, s[0], c);
      assert Scaled(s, c)[1..] == Scaled(s[1..], c);
      if x > s[0] { InsertScaled(x, s[1..], c); }
    }
  }

  lemma {:induction false} SortScaled(s: seq<real>, c: real)
    requires c > 0.0
    ensures Sort(Scaled(s, c)) == Scaled(Sort(s), c)
  {
    hide Times;
    if s != [] {
      SortScaled(s[1..], c);
      InsertScaled(s[0], Sort(s[1..]), c);
      assert Scaled(s, c)[1..] == Scaled(s[1..], c);
    }
  }

  /** Converting nanoseconds to seconds converts every percentile. */
  lemma {:induction false} PercentileScaled(s: seq<real>, q: real, c: real)
    requires s != [] && 0.0 <= q <= 100.0 && c > 0.0
    ensures Percentile(Scaled(s, c), q) == Times(Percentile(s, q), c)
  {
    hide Times, Interp;
    SortScaled(s, c);
    PositionBounds(|s|, q, q);
    InterpScaled(Sort(s), Position(|s|, q), c);
  }

  lemma {:induction false} InterpScaled(t: seq<real>, h: real, c: real)
    requires t != [] && 0.0 <= h <= (|t| - 1) as real
    ensures Interp(Scaled(t, c), h) == Times(Interp(t, h), c)
  {
    var lo := h.Floor;
    if lo < |t| - 1 {
      BlendScaled(t[lo], t[lo + 1], h - lo as real, c);
    }
  }

  lemma {:induction false} BlendScaled(a: real, b: real, f: real, c: real)
    ensures Times(a, c) + f * (Times(b, c) - Times(a, c)) == Times(a + f * (b - a), c)
  {
    var d := b - a;
    assert b * c - a * c == d * c;
    MulAssoc(f, d, c);
    assert (a + f * d) * c == a * c + f * d * c;
  }

  /** One nanosecond, in seconds. */
  const NANO := 0.000000001

  function AsReals(ticks: seq<nat>): (s: seq<real>)
    ensures |s| == |ticks|
  {
    seq(|ticks|, i requires 0 <= i < |ticks| => ticks[i] as real)
  }

  /** A thousand million nanoseconds are a second. */
  lemma {:induction false} Billionth(x: real)
    ensures Times(1_000_000_000.0 * x, NANO) == x
  {
  }

  /** Durations in nanoseconds, as seconds. */
  function Seconds(ticks: seq<nat>): (s: seq<real>)
    ensures |s| == |ticks|
  {
    Scaled(AsReals(ticks), NANO)
  }

  // ---------- Minimum, maximum, mean ----------

  function Least(s: seq<real>): real
    requires s != []
  {
    if |s| == 1 || s[0] <= Least(s[1..]) then s[0] else Least(s[1..])
  }

  function Greatest(s: seq<real>): real
    requires s != []
  {
    if |s| == 1 || s[0] >= Greatest(s[1..]) then s[0] else Greatest(s[1..])
  }

  lemma {:induction false} LeastBounds(s: seq<real>)
    requires s != []
    ensures Least(s) in s && forall i :: 0 <= i < |s| ==> Least(s) <= s[i]
  {
    if |s| > 1 { LeastBounds(s[1..]); }
  }

  lemma {:induction false} GreatestBounds(s: seq<real>)
    requires s != []
    ensures Greatest(s) in s && forall i :: 0 <= i < |s| ==> s[i] <= Greatest(s)
  {
    if |s| > 1 { GreatestBounds(s[1..]); }
  }

  lemma {:induction false} ExtremesAreEnds(s: seq<real>)
    requires s != []
    ensures Least(s) == Sort(s)[0] && Greatest(s) == Sort(s)[|s| - 1]
  {
    SortSorts(s);
    LeastBounds(s);
    GreatestBounds(s);
    var t := Sort(s);
    assert t[0] in multiset(s) && t[|s| - 1] in multiset(s);
    assert Least(s) in multiset(t) && Greatest(s) in multiset(t);
    HeadIsLeast(t, Least(s));
    LastIsGreatest(t, Greatest(s));
  }

  lemma {:induction false} LastIsGreatest(s: seq<real>, x: real)
    requires Sorted(s) && x in multiset(s)
    ensures s != [] && x <= s[|s| - 1]
  {
    var i :| 0 <= i < |s| && s[i] == x;
    assert s[i] <= s[|s| - 1];
  }

  function Sum(s: seq<real>): real {
    if s == [] then 0.0 else s[0] + Sum(s[1..])
  }

  function Mean(s: seq<real>): real
    requires s != []
  {
    Sum(s) / |s| as real
  }

  lemma {:induction false} SumConcat(s: seq<real>, t: seq<real>)
    ensures Sum(s + t) == Sum(s) + Sum(t)
  {
    if s == [] {
      assert s + t == t;
    } else {
      SumConcat(s[1..], t);
      assert (s + t)[1..] == s[1..] + t;
    }
  }

  /** The total behind the mean: additive, a single sample counts as itself, and the mean shares it out evenly. */
  lemma {:induction false} MeanTotal(s: seq<real>, t: seq<real>, x: real)
    requires s != []
    ensures Sum(s + t) == Sum(s) + Sum(t) && Sum([x]) == x
    ensures Mean(s) * |s| as real == Sum(s)
  {
    SumConcat(s, t);
    assert [x][1..] == [];
  }

  lemma {:induction false} SumBounds(s: seq<real>, lo: real, hi: real)
    requires forall i :: 0 <= i < |s| ==> lo <= s[i] <= hi
    ensures lo * |s| as real <= Sum(s) <= hi * |s| as real
  {
    if s != [] {
      SumBounds(s[1..], lo, hi);
      MulNext(lo, |s[1..]| as real);
      MulNext(hi, |s[1..]| as real);
    }
  }

  lemma {:induction false} MeanBounds(s: seq<real>)
    requires s != []
    ensures Least(s) <= Mean(s) <= Greatest(s)
  {
    LeastBounds(s);
    GreatestBounds(s);
    SumBounds(s, Least(s), Greatest(s));
    DivideBounds(Least(s), Sum(s), Greatest(s), |s| as real);
  }

  /** One run's statistics are ordered: min <= p <= q <= max whenever p <= q. */
  lemma {:induction false} RunOrder(s: seq<real>, p: real, q: real)
    requires s != [] && 0.0 <= p <= q <= 100.0
    ensures Least(s) <= Percentile(s, p) <= Percentile(s, q) <= Greatest(s)
  {
    PercentileMonotone(s, p, q);
    ExtremesAreEnds(s);
    SortSorts(s);
    PositionBounds(|s|, p, q);
    InterpCell(Sort(s), Position(|s|, p));
    InterpCell(Sort(s), Position(|s|, q));
  }
}
