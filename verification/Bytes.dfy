/** Byte strings and fixed-width integers inside them. */
module Bytes {
  import opened Powers

  type Byte = x: int | 0 <= x < 0x100
  type Bytes = seq<Byte>

  function Little(x: nat, n: nat): (s: Bytes)
    ensures |s| == n
  {
    if n == 0 then [] else [x % 0x100] + Little(x / 0x100, n - 1)
  }

  function FromLittle(s: Bytes): nat {
    if s == [] then 0 else s[0] + 0x100 * FromLittle(s[1..])
  }

  lemma {:induction false} LittleRoundTrip(x: nat, n: nat)
    requires x < Pow(0x100, n)
    ensures FromLittle(Little(x, n)) == x
  {
    if n > 0 {
      LittleRoundTrip(x / 0x100, n - 1);
      assert Little(x, n)[1..] == Little(x / 0x100, n - 1);
    }
  }

  lemma {:induction false} DivTwice(x: nat, w: nat)
    requires w > 0
    ensures x / 0x100 / w == x / (0x100 * w)
  {
    var q, r := x / 0x100 / w, x / 0x100 % w;
    assert x / 0x100 == q * w + r;
    assert q * w * 0x100 == q * (0x100 * w);
    DivModUnique(x, 0x100 * w, q, r * 0x100 + x % 0x100);
  }

  /** Byte k has weight 256^k: the least significant byte comes first. */
  lemma {:induction false} LittleDigit(x: nat, n: nat, k: nat)
    requires k < n
    ensures Little(x, n)[k] == x / Pow(0x100, k) % 0x100
  {
    if k > 0 {
      LittleDigit(x / 0x100, n - 1, k - 1);
      DivTwice(x, Pow(0x100, k - 1));
    }
  }

  function Big(x: nat, n: nat): (s: Bytes)
    ensures |s| == n
  {
    if n == 0 then [] else Big(x / 0x100, n - 1) + [x % 0x100]
  }

  function FromBig(s: Bytes): nat {
    if s == [] then 0 else FromBig(s[..|s| - 1]) * 0x100 + s[|s| - 1]
  }

  lemma {:induction false} BigRoundTrip(x: nat, n: nat)
    requires x < Pow(0x100, n)
    ensures FromBig(Big(x, n)) == x
  {
    if n > 0 {
      BigRoundTrip(x / 0x100, n - 1);
      assert Big(x, n)[..n - 1] == Big(x / 0x100, n - 1);
    }
  }

  /** The most significant byte comes first. */
  lemma {:induction false} BigIsReversedLittle(x: nat, n: nat, k: nat)
    requires k < n
    ensures Big(x, n)[n - 1 - k] == Little(x, n)[k]
  {
    if k > 0 { BigIsReversedLittle(x / 0x100, n - 1, k - 1); }
  }

  lemma {:induction false} FromBigBound(s: Bytes)
    ensures FromBig(s) < Pow(0x100, |s|)
  {
    if s != [] {
      FromBigBound(s[..|s| - 1]);
    }
  }

  lemma {:induction false} FromLittleBound(s: Bytes)
    ensures FromLittle(s) < Pow(0x100, |s|)
  {
    if s != [] {
      FromLittleBound(s[1..]);
    }
  }

  lemma {:induction false} ByteWidths()
    ensures Pow(0x100, 1) == 0x100 && Pow(0x100, 2) == 0x1_0000 && Pow(0x100, 4) == 0x1_0000_0000
    ensures Pow(0x100, 8) == 0x1_0000_0000_0000_0000
  {
    assert Pow(0x100, 4) == 0x100 * Pow(0x100, 3);
    PowAdd(0x100, 4, 4);
  }

  /** Two's complement in a word of `size` values. */
  function ToWord(i: int, size: nat): nat
    requires 0 <= 2 * i + size && 2 * i < size
  {
    if i < 0 then i + size else i
  }

  /** The word of i is the residue of i. */
  lemma {:induction false} WordIsResidue(i: int, size: nat)
    requires 0 <= 2 * i + size && 2 * i < size
    ensures size > 0 && ToWord(i, size) == i % size
  {
  }

  function FromWord(w: nat, size: nat): int
    requires w < size
  {
    if 2 * w >= size then w - size else w
  }

  /** Text `t` written over `s` from position `at`. */
  function Splice<T>(s: seq<T>, at: nat, t: seq<T>): (r: seq<T>)
    requires at + |t| <= |s|
    ensures |r| == |s|
  {
    s[..at] + t + s[at + |t|..]
  }
}
