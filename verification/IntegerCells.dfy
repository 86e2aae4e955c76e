/** What becomes of an integer in a float32 cell: it is rounded twice, to binary64 and then to binary32. */
module IntegerCells {
  import opened Powers
  import opened Floats

  // ---------- Two roundings of a quotient ----------

  lemma {:induction false} RneScaled(n: nat, d: nat, w: nat)
    requires d > 0 && w > 0
    ensures d * w > 0 && Rne(n * w, d * w) == Rne(n, d)
  {
    var q, r := n / d, n % d;
    Scaled(q, d, r, w);
    MulLt(r, d, w);
    MulLt(0, d, w);
    DivModUnique(n * w, d * w, q, r * w);
    if 2 * r < d { MulLt(2 * r, d, w); } else if 2 * r > d { MulLt(d, 2 * r, w); }
    MulAssoc(2, r, w);
  }

  lemma {:induction false} Scaled(q: nat, d: nat, r: nat, w: nat)
    ensures (q * d + r) * w == q * (d * w) + r * w
  {
    MulAssoc(q, d, w);
  }

  /** Rounding to multiples of c commutes with taking off multiples of an even number of c's. */
  lemma {:induction false} RneSplit(q: nat, k: nat, c: nat, x: nat)
    requires c > 0 && k % 2 == 0
    ensures Rne(q * (k * c) + x, c) == q * k + Rne(x, c)
  {
    MulAssoc(q, k, c);
    Factor(q * k, x / c, c);
    DivModUnique(q * k * c + x, c, q * k + x / c, x % c);
    EvenProduct(q, k);
  }

  lemma {:induction false} Factor(a: nat, b: nat, c: nat)
    ensures (a + b) * c == a * c + b * c
  {
  }

  lemma {:induction false} EvenProduct(q: nat, k: nat)
    requires k % 2 == 0
    ensures (q * k) % 2 == 0
  {
    MulAssoc(q, k / 2, 2);
    DivModUnique(q * k, 2, q * (k / 2), 0);
  }

  /** Rounding to multiples of c keeps to the same side of a multiple of c. */
  lemma {:induction false} RneSide(x: nat, c: nat, j: nat) returns (y: nat)
    requires c > 0
    ensures y == Rne(x, c) * c
    ensures (x <= j * c ==> y <= j * c) && (x >= j * c ==> y >= j * c)
  {
    var r := Rne(x, c);
    y := r * c;
    QuotientBounds(x, c, j);
    if x == j * c { DivModUnique(x, c, j, 0); }
    if x <= j * c { MulLe(r, j, c); }
    if x >= j * c { MulLe(j, r, c); }
  }

  /** The number is moved onto a midpoint of the coarser grid that it does not lie on, and the tie goes the other
      way. */
  predicate Misled(n: nat, first: nat, d: nat)
    requires d > 0
  {
    2 * (first % d) == d && first != n && (first < n <==> first / d % 2 == 0)
  }

  /** Rounding to multiples of c and then of d, a multiple of 2c, differs from rounding to multiples of d at once
      exactly when the first rounding misleads the second. */
  lemma {:induction false} TwoSteps(n: nat, c: nat, h: nat, d: nat, first: nat)
    requires c > 0 && h > 0 && d == 2 * h * c && first == Rne(n, c) * c
    ensures d > 0 && (Rne(first, d) != Rne(n, d) <==> Misled(n, first, d))
  {
    MulLt(0, 2 * h, c);
    var q, x := n / d, n % d;
    var y := FirstStep(n, c, 2 * h, d, q, x);
    var y1 := RneSide(x, c, h);
    var y2 := RneSide(x, c, 2 * h);
    MulAssoc(2, h, c);
    hide Rne;
    Compare(n, q, x, y, d, first);
  }

  lemma {:induction false} FirstStep(n: nat, c: nat, k: nat, d: nat, q: nat, x: nat) returns (y: nat)
    requires c > 0 && k % 2 == 0 && d == k * c && n == q * d + x
    ensures y == Rne(x, c) * c && Rne(n, c) * c == q * d + y
  {
    y := Rne(x, c) * c;
    RneSplit(q, k, c, x);
    hide Rne;
    Factor(q * k, Rne(x, c), c);
    MulAssoc(q, k, c);
  }

  lemma {:induction false} Compare(n: nat, q: nat, x: nat, y: nat, d: nat, first: nat)
    requires d > 0 && n == q * d + x && first == q * d + y && x < d && y <= d
    requires (2 * x <= d ==> 2 * y <= d) && (2 * x >= d ==> 2 * y >= d)
    ensures Rne(first, d) != Rne(n, d) <==> Misled(n, first, d)
  {
    DivModUnique(n, d, q, x);
    if y < d {
      DivModUnique(first, d, q, y);
    } else {
      Factor(q, 1, d);
      DivModUnique(first, d, q + 1, 0);
    }
  }

  // ---------- Integers up to 2^64 ----------

  /** The magnitude pattern of i in binary32, correctly rounded. */
  function Nearest32(i: nat): nat {
    RoundMag(23, F32_SHIFT, i * Pow(2, ONE64))
  }

  lemma {:induction false} IntegerScale(i: nat) returns (n: nat)
    requires i > 0
    ensures n == i * Pow(2, ONE64) > 0 && Log2(n) == Log2(i) + ONE64
  {
    n := i * Pow(2, ONE64);
    Log2Scaled(i, ONE64);
  }

  /** The value of a rounded number, counted in units of 2^-u. */
  lemma {:induction false} RoundedValue(p: nat, n: nat, s: nat)
    requires n > 0 && s == Shift(p, 0, n)
    ensures Val(p, RoundMag(p, 0, n)) == Rne(n, Pow(2, s)) * Pow(2, s)
  {
    QuotientFits(p, 0, n);
    ValBinade(p, s, Rne(n, Pow(2, s)));
  }

  /** The grids of binary64 and binary32 around an integer of 54 bits or more. */
  lemma {:induction false} Grids(l: nat) returns (c: nat, d: nat, w: nat)
    requires l >= 53
    ensures c == Pow(2, l - 52) && d == Pow(2, l - 23) && w == Pow(2, ONE64) && c > 0 && w > 0
    ensures c * w == Pow(2, l + ONE64 - 52) && d * w == Pow(2, l + ONE64 - 23)
    ensures d == 2 * 0x1000_0000 * c
  {
    c, d, w := Pow(2, l - 52), Pow(2, l - 23), Pow(2, ONE64);
    PowAdd(2, l - 52, ONE64);
    PowAdd(2, l - 23, ONE64);
    PowAdd(2, 29, l - 52);
    PowTwentyNine();
  }

  lemma {:induction false} PowTwentyNine()
    ensures Pow(2, 29) == 2 * 0x1000_0000
  {
    PowLiterals();
    PowAdd(2, 24, 5);
    assert Pow(2, 5) == 32;
  }

  /** The integer that the binary64 of i holds: i itself below 2^53, else the nearest multiple of the spacing there. */
  function Held64(i: nat): nat {
    if i == 0 || Log2(i) < 53 then i else Rne(i, Pow(2, Log2(i) - 52)) * Pow(2, Log2(i) - 52)
  }

  lemma {:induction false} SmallHeld(i: nat)
    requires i == 0 || Log2(i) < 53
    ensures i < Pow(2, 53)
  {
    if i > 0 { PowMonotone(2, Log2(i) + 1, 53); }
  }

  lemma {:induction false} Held(i: nat)
    requires i <= INT_LIMIT
    ensures Val(52, IntToF64(i)) == Held64(i) * Pow(2, ONE64)
  {
    if i == 0 || Log2(i) < 53 {
      SmallHeld(i);
      IntToF64Exact(i);
    } else {
      var n := IntegerScale(i);
      var c, d, w := Grids(Log2(i));
      hide Val, RoundMag, Pow, Log2, Rne;
      RoundedValue(52, n, Log2(i) + ONE64 - 52);
      RneScaled(i, c, w);
      MulAssoc(Rne(i, c), c, w);
    }
  }

  /** Rounding to binary32 of an integer in the binade of 2^l, or at its upper end. */
  lemma {:induction false} PatternOf(i: nat, l: nat)
    requires l >= 53 && Pow(2, l) <= i <= Pow(2, l + 1)
    ensures Pow(2, l - 23) > 0
    ensures Nearest32(i) == Pattern(23, l + ONE64 - 23 - F32_SHIFT, Rne(i, Pow(2, l - 23)))
  {
    hide Pow, Log2, Rne;
    var n := IntegerScale(i);
    var c, d, w := Grids(l);
    if i < Pow(2, l + 1) {
      Log2Unique(i, l);
      hide Pattern;
      RneScaled(i, d, w);
    } else {
      Doubling(l + 1);
      Log2Unique(i, l + 1);
      TopOfBinade(l);
      var c', d', w' := Grids(l + 1);
      RneScaled(i, d', w);
      Distribute(l + ONE64 - 23 - F32_SHIFT, Pow(2, 23));
    }
  }

  lemma {:induction false} Doubling(l: nat)
    ensures Pow(2, l + 1) == 2 * Pow(2, l) > Pow(2, l)
  {
  }

  lemma {:induction false} TopOfBinade(l: nat)
    requires l >= 53
    ensures Pow(2, l - 23) > 0 && Rne(Pow(2, l + 1), Pow(2, l - 23)) == 2 * Pow(2, 23)
    ensures Pow(2, l - 22) > 0 && Rne(Pow(2, l + 1), Pow(2, l - 22)) == Pow(2, 23)
  {
    PowAdd(2, 24, l - 23);
    PowAdd(2, 23, l - 22);
    DivModUnique(Pow(2, l + 1), Pow(2, l - 23), Pow(2, 24), 0);
    DivModUnique(Pow(2, l + 1), Pow(2, l - 22), Pow(2, 23), 0);
    assert Pow(2, 24) == 2 * Pow(2, 23);
  }

  lemma {:induction false} HeldInBinade(i: nat)
    requires i > 0 && Log2(i) >= 53
    ensures Pow(2, Log2(i)) <= Held64(i) <= Pow(2, Log2(i) + 1)
  {
    var l := Log2(i);
    var c, d, w := Grids(l);
    PowAdd(2, 52, l - 52);
    PowAdd(2, 53, l - 52);
    var y := RneSide(i, c, Pow(2, 52));
    var z := RneSide(i, c, Pow(2, 53));
  }

  /** The float32 that a cell receives: i rounded to binary64, and that rounded to binary32. */
  lemma {:induction false} Served(i: nat)
    requires i <= INT_LIMIT
    ensures IntToF32(i) == Nearest32(Held64(i)) < F32_INF
  {
    Held(i);
    IntSmall(i);
    var m := IntToF64(i);
    assert m == RoundMag(52, 0, i * Pow(2, ONE64));
    ServedSmall(i);
    hide Val, RoundMag, Pow, IntToF64, Held64;
  }

  lemma {:induction false} ServedSmall(i: nat)
    requires i <= INT_LIMIT
    ensures Nearest32(Held64(i)) < F32_INF
  {
    hide Val, RoundMag, Pow, Held64;
    HeldSmall(i);
    PowLiterals();
    PowAdd(2, 66, ONE64);
    PowSixtySix();
    MulLt(Held64(i), Pow(2, 66), Pow(2, ONE64));
    RoundSmall(23, F32_SHIFT, Held64(i) * Pow(2, ONE64), 66 + ONE64, 67 + ONE64 - 23 - F32_SHIFT);
  }

  lemma {:induction false} PowSixtySix()
    ensures Pow(2, 66) == 4 * INT_LIMIT && Pow(2, 65) == 2 * INT_LIMIT
  {
    PowLiterals();
    assert Pow(2, 65) == 2 * Pow(2, 64);
    assert Pow(2, 66) == 2 * Pow(2, 65);
  }

  lemma {:induction false} HeldSmall(i: nat)
    requires i <= INT_LIMIT
    ensures Held64(i) < Pow(2, 66)
  {
    PowSixtySix();
    if i > 0 && Log2(i) >= 53 {
      HeldInBinade(i);
      if Log2(i) > 64 { PowMonotone(2, 65, Log2(i)); }
      PowMonotone(2, Log2(i) + 1, 65);
    }
  }

  /** The number loses more than it has to: its binary64 lies half-way between two float32 and it does not, and the tie
      goes to the float32 on the other side. */
  predicate Misrounded(i: nat) {
    i > 0 && Log2(i) >= 53 && Misled(i, Held64(i), Pow(2, Log2(i) - 23))
  }

  lemma {:induction false} SamePattern(p: nat, base: nat, q: nat, r: nat)
    ensures Pattern(p, base, q) == Pattern(p, base, r) <==> q == r
  {
  }

  lemma {:induction false} LargeServed(i: nat, l: nat, c: nat, d: nat, first: nat)
    requires l >= 53 && Pow(2, l) <= i <= Pow(2, l + 1) && Pow(2, l) <= first <= Pow(2, l + 1)
    requires c > 0 && d == Pow(2, l - 23) && d == 2 * 0x1000_0000 * c && first == Rne(i, c) * c
    ensures d > 0 && (Nearest32(first) == Nearest32(i) <==> !Misled(i, first, d))
  {
    hide Pow, Rne, Misled, Nearest32, Pattern;
    TwoSteps(i, c, 0x1000_0000, d, first);
    PatternOf(i, l);
    PatternOf(first, l);
    SamePattern(23, l + ONE64 - 23 - F32_SHIFT, Rne(i, d), Rne(first, d));
  }

  /** The served float32 is the correctly rounded integer exactly when the first rounding does not mislead the second,
      for every magnitude up to 2^64. */
  lemma {:induction false} ServedIsCorrect(i: nat)
    requires i <= INT_LIMIT
    ensures IntToF32(i) == Nearest32(i) <==> !Misrounded(i)
  {
    hide Pow, Rne, Misled, IntToF32, Nearest32;
    Served(i);
    if i > 0 && Log2(i) >= 53 {
      var l := Log2(i);
      var c, d, w := Grids(l);
      HeldInBinade(i);
      LargeServed(i, l, c, d, Held64(i));
    }
  }

  // ---------- How far the served number is from the integer ----------

  /** 1 in units of the least positive binary32. */
  const ONE32: nat := 149

  lemma {:induction false} ScaledDist(a: nat, b: nat, w: nat)
    ensures Dist(a * w, b * w) == Dist(a, b) * w
  {
    if a < b {
      assert (b - a) * w == b * w - a * w;
      MulLe(a, b, w);
    } else {
      assert (a - b) * w == a * w - b * w;
      MulLe(b, a, w);
    }
  }

  lemma {:induction false} IntDistScaled(i: nat, v: nat)
    ensures Dist(v * Pow(2, F32_SHIFT), i * Pow(2, ONE64)) == Dist(v, i * Pow(2, ONE32)) * Pow(2, F32_SHIFT)
  {
    hide Dist, Pow;
    var w := Pow(2, F32_SHIFT);
    PowAdd(2, ONE32, F32_SHIFT);
    MulAssoc(i, Pow(2, ONE32), w);
    ScaledDist(v, i * Pow(2, ONE32), w);
  }

  lemma {:induction false} Cancel(x: nat, y: nat, w: nat)
    requires w > 0 && x * w <= y * w
    ensures x <= y
  {
    if y < x { MulLt(y, x, w); }
  }

  lemma {:induction false} IntRepresentable(i: nat, q: nat, t: nat)
    requires i == q * Pow(2, t) && q < Pow(2, 24)
    ensures Val(23, RoundMag(23, F32_SHIFT, i * Pow(2, ONE64))) * Pow(2, F32_SHIFT) == i * Pow(2, ONE64)
  {
    hide Val, RoundMag, Pow;
    PowAdd(2, t, ONE64);
    MulAssoc(q, Pow(2, t), Pow(2, ONE64));
    RoundRepresentable(23, F32_SHIFT, q, t + ONE64);
  }

  /** The distance between i and a binary32 magnitude, in units of 2^-1074. */
  function Gap(i: nat, r: nat): nat {
    Dist(Val(23, r) * Pow(2, F32_SHIFT), i * Pow(2, ONE64))
  }

  lemma {:induction false} TieOnGrid(n: nat, c: nat, h: nat, d: nat)
    requires c > 0 && d > 0 && d == 2 * h * c && 2 * (n % d) == d
    ensures Rne(n, c) * c == n
  {
    var q := n / d;
    MulAssoc(2, h, c);
    MulAssoc(q, 2 * h, c);
    Factor(q * (2 * h), h, c);
    DivModUnique(n, c, q * (2 * h) + h, 0);
  }

  lemma {:induction false} TieIsHeld(i: nat)
    requires i > 0 && Log2(i) >= 53 && 2 * (i % Pow(2, Log2(i) - 23)) == Pow(2, Log2(i) - 23)
    ensures Held64(i) == i
  {
    var c, d, w := Grids(Log2(i));
    hide Log2, Pow, Rne;
    TieOnGrid(i, c, 0x1000_0000, d);
  }

  /** The correctly rounded number is strictly nearer than any other, ties apart. */
  lemma {:induction false} StrictlyNearer(i: nat, r: nat, n: nat, d: nat)
    requires i > 0 && r != Nearest32(i) && Gap(i, r) <= Gap(i, Nearest32(i))
    requires n == i * Pow(2, ONE64) && n > 0 && d == Pow(2, Shift(23, F32_SHIFT, n))
    ensures d > 0 && 2 * (n % d) == d
  {
    var lo, _, mine := RoundPicks(23, F32_SHIFT, n);
    var _, _, other := NoneBetween(23, F32_SHIFT, n, r);
    if r < Nearest32(i) { ValOrder(23, F32_SHIFT, r, Nearest32(i)); } else { ValOrder(23, F32_SHIFT, Nearest32(i), r); }
    hide Val, RoundMag, Log2, Pow, Shift;
    NearerNeighbour(n, lo, d, mine, other);
    DivModUnique(n, d, n / d, n - lo);
  }

  lemma {:induction false} TieUnscaled(i: nat, d: nat, w: nat)
    requires d > 0 && w > 0 && d * w > 0 && 2 * (i * w % (d * w)) == d * w
    ensures 2 * (i % d) == d
  {
    var q, r := i / d, i % d;
    Scaled(q, d, r, w);
    MulLt(r, d, w);
    DivModUnique(i * w, d * w, q, r * w);
    MulAssoc(2, r, w);
    Cancel(2 * r, d, w);
    Cancel(d, 2 * r, w);
  }

  lemma {:induction false} TieInInteger(i: nat, l: nat)
    requires l >= 53 && Pow(2, l + ONE64 - 23) > 0
    requires 2 * (i * Pow(2, ONE64) % Pow(2, l + ONE64 - 23)) == Pow(2, l + ONE64 - 23)
    ensures Pow(2, l - 23) > 0 && 2 * (i % Pow(2, l - 23)) == Pow(2, l - 23)
  {
    hide Pow;
    var c, d, w := Grids(l);
    TieUnscaled(i, d, w);
  }

  /** No binary32 magnitude is nearer to i. */
  ghost predicate IsNearest(i: nat, r: nat) {
    forall c: nat :: Gap(i, r) <= Gap(i, c)
  }

  lemma {:induction false} CorrectIsNearest(i: nat)
    ensures IsNearest(i, Nearest32(i))
  {
    forall c: nat ensures Gap(i, Nearest32(i)) <= Gap(i, c) { RoundNearest(23, F32_SHIFT, i * Pow(2, ONE64), c); }
  }

  lemma {:induction false} ScaledShift(i: nat, n: nat)
    requires i > 0 && n > 0 && Log2(n) == Log2(i) + ONE64
    ensures Shift(23, F32_SHIFT, n) == Log2(i) + ONE64 - 23
  {
  }

  lemma {:induction false} MisroundedIsFarther(i: nat)
    requires i <= INT_LIMIT && Misrounded(i)
    ensures Gap(i, Nearest32(i)) < Gap(i, IntToF32(i))
  {
    hide Pow, Gap, Nearest32, IntToF32, Log2, Held64, Shift;
    ServedIsCorrect(i);
    var n := IntegerScale(i);
    if Gap(i, IntToF32(i)) <= Gap(i, Nearest32(i)) {
      ScaledShift(i, n);
      StrictlyNearer(i, IntToF32(i), n, Pow(2, Log2(i) + ONE64 - 23));
      TieInInteger(i, Log2(i));
      TieIsHeld(i);
      assert false;
    }
  }

  /** The cell holds a nearest float32 exactly when the first rounding does not mislead the second. */
  lemma {:induction false} ServedNearest(i: nat)
    requires i <= INT_LIMIT
    ensures IsNearest(i, IntToF32(i)) <==> !Misrounded(i)
  {
    CorrectIsNearest(i);
    ServedIsCorrect(i);
    hide Misrounded, Gap, Nearest32, IntToF32;
    if Misrounded(i) { MisroundedIsFarther(i); }
  }

  lemma {:induction false} MisroundedIf(i: nat, l: nat, c: nat, d: nat)
    requires l >= 53 && Pow(2, l) <= i < Pow(2, l + 1) && c == Pow(2, l - 52) && d == Pow(2, l - 23) && c > 0 && d > 0
    requires Misled(i, Rne(i, c) * c, d)
    ensures Misrounded(i)
  {
    Log2Unique(i, l);
  }

  /** An int64 that is misrounded: 2^60 + 2^36 + 1. */
  lemma {:induction false} MisroundedNumber()
    ensures Misrounded(0x1000_0010_0000_0001)
  {
    PowLiterals();
    PowAdd(2, 52, 8);
    assert Pow(2, 61) == 2 * Pow(2, 60);
    PowAdd(2, 32, 5);
    assert Pow(2, 5) == 32;
    hide Pow;
    MisroundedIf(0x1000_0010_0000_0001, 60, 0x100, 0x20_0000_0000);
  }

  /** Negative integers are served like their magnitudes. */
  lemma {:induction false} SignOfCell(i: int)
    requires 0 < i <= INT_LIMIT
    ensures IntToF64(-i) == F64_SIGN + IntToF64(i) && IntToF32(-i) == F32_SIGN + IntToF32(i)
  {
    IntSmall(i);
    SignOfDouble(i);
    hide RoundMag, Pow, IntToF64;
    NarrowNegative(IntToF64(i), NarrowMag(IntToF64(i)));
  }

  lemma {:induction false} SignOfDouble(i: int)
    requires 0 < i <= INT_LIMIT
    ensures IntToF64(i) < F64_SIGN && IntToF64(-i) == F64_SIGN + IntToF64(i)
  {
    hide RoundMag, Pow;
    IntSmall(i);
  }

  /** Unless it is misrounded, the number served for i is within half a unit in the last place of i, with ties to
      even. */
  lemma {:induction false} IntToF32Error(i: nat, c: nat)
    requires 0 < i <= INT_LIMIT && !Misrounded(i)
    ensures var r := IntToF32(i);
      && 2 * Gap(i, r) <= Pow(2, Log2(i) + ONE64 - 23)
      && Gap(i, r) <= Gap(i, c) && (c != r && Gap(i, r) == Gap(i, c) ==> r % 2 == 0)
  {
    hide Pow;
    ServedIsCorrect(i);
    var n := IntegerScale(i);
    RoundNearest(23, F32_SHIFT, n, c);
    RoundError(23, F32_SHIFT, n);
  }

  lemma {:induction false} SamePlace(a: nat, b: nat)
    ensures Dist(a, b) <= 0 <==> a == b
    ensures Dist(a, a) == 0
  {
  }

  /** An integer of at most 24 significant bits is served exactly. */
  lemma {:induction false} IntToF32Exact(i: nat, q: nat, t: nat)
    requires i == q * Pow(2, t) && q < Pow(2, 24) && i <= INT_LIMIT
    ensures Val(23, IntToF32(i)) == i * Pow(2, ONE32)
  {
    hide Val, RoundMag, Pow, IntToF32, Held64, Dist;
    ShortIsHeld(i, q, t);
    Served(i);
    var v := Val(23, IntToF32(i));
    IntRepresentable(i, q, t);
    SamePlace(v * Pow(2, F32_SHIFT), i * Pow(2, ONE64));
    SamePlace(v, i * Pow(2, ONE32));
    IntDistScaled(i, v);
    Cancel(Dist(v, i * Pow(2, ONE32)), 0, Pow(2, F32_SHIFT));
  }

  lemma {:induction false} ShortIsHeld(i: nat, q: nat, t: nat)
    requires i == q * Pow(2, t) && q < Pow(2, 24) && i <= INT_LIMIT
    ensures Held64(i) == i
  {
    hide Val, RoundMag, Pow, Held64;
    Held(i);
    IntSmall(i);
    var n, w := i * Pow(2, ONE64), Pow(2, ONE64);
    assert IntToF64(i) == RoundMag(52, 0, n);
    hide IntToF64;
    PowMonotone(2, 24, 53);
    PowAdd(2, t, ONE64);
    MulAssoc(q, Pow(2, t), w);
    ShortIsExact(n, q, t + ONE64);
    Cancel(Held64(i), i, w);
    Cancel(i, Held64(i), w);
  }

  lemma {:induction false} IntToF32ExactSmall(i: nat)
    requires i <= 0x100_0000
    ensures Val(23, IntToF32(i)) == i * Pow(2, ONE32)
  {
    PowLiterals();
    if i == 0x100_0000 { IntToF32Exact(i, 1, 24); } else { IntToF32Exact(i, i, 0); }
  }

  /** In the range 0..2^32 the served integer is off by at most 128. */
  lemma {:induction false} IntToF32Bound(i: nat)
    requires i <= 0x1_0000_0000
    ensures Dist(Val(23, IntToF32(i)), i * Pow(2, ONE32)) <= 128 * Pow(2, ONE32)
  {
    hide Pow, Val, IntToF32, Misled, Held64;
    PowLiterals();
    var v := Val(23, IntToF32(i));
    if i == 0 || i == 0x1_0000_0000 {
      IntToF32Exact(i, if i == 0 then 0 else 1, 32);
      SamePlace(v, i * Pow(2, ONE32));
    } else {
      if Log2(i) > 31 { PowMonotone(2, 32, Log2(i)); }
      IntToF32Error(i, 0);
      hide Dist;
      IntDistScaled(i, v);
      PowMonotone(2, Log2(i) + ONE64 - 23, 8 + ONE32 + F32_SHIFT);
      PowAdd(2, 8 + ONE32, F32_SHIFT);
      PowAdd(2, 8, ONE32);
      MulAssoc(2, Dist(v, i * Pow(2, ONE32)), Pow(2, F32_SHIFT));
      Cancel(2 * Dist(v, i * Pow(2, ONE32)), Pow(2, 8 + ONE32), Pow(2, F32_SHIFT));
    }
  }

  /** The served number grows with the integer, over the whole range. */
  lemma {:induction false} IntToF32Monotone(i: nat, j: nat)
    requires i <= j <= INT_LIMIT
    ensures IntToF32(i) <= IntToF32(j)
  {
    var w := Pow(2, ONE64);
    IntSmall(i);
    IntSmall(j);
    MulLe(i, j, w);
    RoundMonotone(52, 0, i * w, j * w);
    assert IntToF64(i) == RoundMag(52, 0, i * w) && IntToF64(j) == RoundMag(52, 0, j * w);
    hide RoundMag, IntToF64;
    NarrowMonotone(IntToF64(i), IntToF64(j));
  }
}
