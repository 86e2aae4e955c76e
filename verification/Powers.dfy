/** Integer powers and base-2 logarithms. */
module Powers {

  function Pow(b: nat, e: nat): (r: nat)
    ensures b > 0 ==> r > 0
  {
    if e == 0 then 1 else b * Pow(b, e - 1)
  }

  lemma {:induction false} PowAdd(b: nat, x: nat, y: nat)
    ensures Pow(b, x + y) == Pow(b, x) * Pow(b, y)
    decreases x
  {
    if x > 0 {
      PowAdd(b, x - 1, y);
      assert x + y - 1 == x - 1 + y;
      calc {
        Pow(b, x + y);
        b * (Pow(b, x - 1) * Pow(b, y));
        { MulAssoc(b, Pow(b, x - 1), Pow(b, y)); }
        b * Pow(b, x - 1) * Pow(b, y);
      }
    }
  }

  lemma {:induction false} MulAssoc(x: int, y: int, z: int)
    ensures x * (y * z) == x * y * z
  {
  }

  lemma {:induction false} MulLe(x: int, y: int, z: int)
    requires x <= y && 0 <= z
    ensures x * z <= y * z
  {
  }

  lemma {:induction false} MulLt(x: int, y: int, z: int)
    requires x < y && 0 < z
    ensures x * z < y * z
  {
  }

  lemma {:induction false} DivModUnique(n: int, d: int, q: int, r: int)
    requires d > 0 && 0 <= r < d && n == q * d + r
    ensures n / d == q && n % d == r
  {
    if n / d < q { MulLe(n / d + 1, q, d); } else if n / d > q { MulLe(q + 1, n / d, d); }
  }

  lemma {:induction false} PowMonotone(b: nat, x: nat, y: nat)
    requires b > 0 && x <= y
    ensures Pow(b, x) <= Pow(b, y)
    decreases y - x
  {
    if x < y {
      PowMonotone(b, x, y - 1);
      MulLe(1, b, Pow(b, y - 1));
    }
  }

  /** Position of the leading one bit. */
  function Log2(n: nat): (k: nat)
    requires n > 0
    ensures Pow(2, k) <= n < Pow(2, k + 1)
  {
    Log2From(n, 0)
  }

  function Log2From(n: nat, i: nat): (k: nat)
    requires Pow(2, i) <= n
    ensures Pow(2, k) <= n < Pow(2, k + 1)
    decreases n - Pow(2, i)
  {
    if n < Pow(2, i + 1) then i else Log2From(n, i + 1)
  }

  lemma {:induction false} Log2Unique(n: nat, k: nat)
    requires n > 0 && Pow(2, k) <= n < Pow(2, k + 1)
    ensures Log2(n) == k
  {
    if Log2(n) < k {
      PowMonotone(2, Log2(n) + 1, k);
    } else if Log2(n) > k {
      PowMonotone(2, k + 1, Log2(n));
    }
  }

  /** The powers of two that the byte and float formats use. */
  lemma {:induction false} PowLiterals()
    ensures Pow(2, 8) == 0x100 && Pow(2, 16) == 0x1_0000 && Pow(2, 32) == 0x1_0000_0000
    ensures Pow(2, 64) == 0x1_0000_0000_0000_0000
    ensures Pow(2, 23) == 0x80_0000 && Pow(2, 24) == 0x100_0000
    ensures Pow(2, 52) == 0x10_0000_0000_0000 && Pow(2, 53) == 0x20_0000_0000_0000
  {
    assert Pow(2, 4) == 0x10;
    PowAdd(2, 4, 4);
    PowAdd(2, 8, 8);
    PowAdd(2, 16, 16);
    PowAdd(2, 32, 32);
    PowAdd(2, 16, 4);
    assert Pow(2, 3) == 8;
    PowAdd(2, 20, 3);
    PowAdd(2, 20, 4);
    PowAdd(2, 32, 20);
    assert Pow(2, 53) == 2 * Pow(2, 52);
  }
}
