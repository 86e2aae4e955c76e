/** UTF-8, section 3 of RFC 3629: how the Redis store turns key text into bytes. */
module Utf8 {
  import opened Wrappers
  import opened Bytes

  function EncodeChar(c: char): (s: Bytes)
    ensures 1 <= |s| <= 4
  {
    var x := c as int;
    if x < 0x80 then [x]
    else if x < 0x800 then [0xC0 + x / 0x40, 0x80 + x % 0x40]
    else if x < 0x1_0000 then [0xE0 + x / 0x1000, 0x80 + x / 0x40 % 0x40, 0x80 + x % 0x40]
    else [0xF0 + x / 0x4_0000, 0x80 + x / 0x1000 % 0x40, 0x80 + x / 0x40 % 0x40, 0x80 + x % 0x40]
  }

  function Encode(t: string): Bytes {
    if t == "" then [] else EncodeChar(t[0]) + Encode(t[1..])
  }

  /** Length of the sequence that a lead byte announces; 0 for a byte that cannot lead. */
  function SequenceLength(lead: Byte): nat {
    if lead < 0x80 then 1
    else if 0xC0 <= lead < 0xE0 then 2
    else if 0xE0 <= lead < 0xF0 then 3
    else if 0xF0 <= lead < 0xF8 then 4
    else 0
  }

  predicate ScalarValue(x: int) {
    0 <= x < 0xD800 || 0xE000 <= x < 0x11_0000
  }

  predicate Continuation(b: Byte) {
    0x80 <= b < 0xC0
  }

  /** The scalar value in the payload bits of a sequence. */
  function CodePoint(s: Bytes): int
    requires 1 <= |s| <= 4
  {
    if |s| == 1 then s[0]
    else if |s| == 2 then (s[0] as int - 0xC0) * 0x40 + (s[1] as int - 0x80)
    else if |s| == 3 then (s[0] as int - 0xE0) * 0x1000 + (s[1] as int - 0x80) * 0x40 + (s[2] as int - 0x80)
    else
      (s[0] as int - 0xF0) * 0x4_0000 + (s[1] as int - 0x80) * 0x1000
      + (s[2] as int - 0x80) * 0x40 + (s[3] as int - 0x80)
  }

  /** The first scalar value that needs a sequence of n bytes. */
  function FirstOf(n: nat): int {
    if n <= 1 then 0 else if n == 2 then 0x80 else if n == 3 then 0x800 else 0x1_0000
  }

  /** A lead byte, its continuation bytes, and a scalar value that no shorter sequence holds. */
  predicate Sequence(s: Bytes) {
    && 1 <= |s| <= 4 && SequenceLength(s[0]) == |s|
    && (forall i :: 1 <= i < |s| ==> Continuation(s[i]))
    && ScalarValue(CodePoint(s)) && CodePoint(s) >= FirstOf(|s|)
  }

  /** The text of a byte string; None where a byte cannot lead, a sequence is cut off, or its form is not the
      shortest. */
  function Decode(s: Bytes): Option<string> {
    if s == [] then Some("")
    else
      var n := SequenceLength(s[0]);
      if n == 0 || |s| < n || !Sequence(s[..n]) then None
      else
        match Decode(s[n..])
        case None => None
        case Some(t) => Some([CodePoint(s[..n]) as char] + t)
  }

  lemma {:induction false} SixBitDigits(x: nat)
    ensures x == x / 0x40 * 0x40 + x % 0x40
    ensures x / 0x40 / 0x40 == x / 0x1000 && x / 0x1000 / 0x40 == x / 0x4_0000
  {
  }

  lemma {:induction false} CharRoundTrip(c: char)
    ensures Sequence(EncodeChar(c)) && CodePoint(EncodeChar(c)) == c as int
  {
    var x := c as int;
    SixBitDigits(x);
    SixBitDigits(x / 0x40);
    SixBitDigits(x / 0x1000);
  }

  /** The six-bit digits of a number in base 64. */
  lemma {:induction false} Digits(x: nat, a: nat, b: nat)
    requires x == a * 0x40 + b && b < 0x40
    ensures x / 0x40 == a && x % 0x40 == b
  {
  }

  lemma {:induction false} PairExact(s: Bytes)
    requires Sequence(s) && |s| == 2
    ensures EncodeChar(CodePoint(s) as char) == s
  {
    assert Continuation(s[1]);
    Digits(CodePoint(s), s[0] - 0xC0, s[1] - 0x80);
  }

  lemma {:induction false} TripleExact(s: Bytes)
    requires Sequence(s) && |s| == 3
    ensures EncodeChar(CodePoint(s) as char) == s
  {
    assert Continuation(s[1]) && Continuation(s[2]);
    var x := CodePoint(s);
    var high: nat := (s[0] as int - 0xE0) * 0x40 + (s[1] as int - 0x80);
    Digits(x, high, s[2] - 0x80);
    Digits(high, s[0] - 0xE0, s[1] - 0x80);
    SixBitDigits(x);
    hide Sequence;
  }

  lemma {:induction false} QuadrupleExact(s: Bytes)
    requires Sequence(s) && |s| == 4
    ensures EncodeChar(CodePoint(s) as char) == s
  {
    assert Continuation(s[1]) && Continuation(s[2]) && Continuation(s[3]);
    var x := CodePoint(s);
    var top: nat := (s[0] as int - 0xF0) * 0x40 + (s[1] as int - 0x80);
    var high: nat := top * 0x40 + (s[2] as int - 0x80);
    Digits(x, high, s[3] - 0x80);
    Digits(high, top, s[2] - 0x80);
    Digits(top, s[0] - 0xF0, s[1] - 0x80);
    SixBitDigits(x);
    SixBitDigits(high);
    hide Sequence;
  }

  /** A value has one sequence. */
  lemma {:induction false} CharExact(s: Bytes)
    requires Sequence(s)
    ensures EncodeChar(CodePoint(s) as char) == s
  {
    if |s| == 2 { PairExact(s); } else if |s| == 3 { TripleExact(s); } else if |s| == 4 { QuadrupleExact(s); }
  }

  lemma {:induction false} RoundTrip(t: string)
    ensures Decode(Encode(t)) == Some(t)
  {
    if t != "" {
      var e, s := EncodeChar(t[0]), Encode(t);
      RoundTrip(t[1..]);
      CharRoundTrip(t[0]);
      assert s[..|e|] == e && s[|e|..] == Encode(t[1..]);
      assert [t[0]] + t[1..] == t;
    }
  }

  /** A byte string is the encoding of a text exactly when it decodes to it: the encoding is the shortest form, and
      there is no other. */
  lemma {:induction false} DecodeExact(s: Bytes, t: string)
    ensures Decode(s) == Some(t) <==> s == Encode(t)
  {
    RoundTrip(t);
    if Decode(s) == Some(t) { DecodedIsEncoded(s); }
  }

  lemma {:induction false} DecodedIsEncoded(s: Bytes)
    ensures Decode(s).Some? ==> Encode(Decode(s).value) == s
    decreases |s|
  {
    if s != [] && Decode(s).Some? {
      hide Decode, Sequence, CodePoint, EncodeChar, SequenceLength;
      var n := SequenceLength(s[0]);
      DecodedParts(s, n);
      DecodedIsEncoded(s[n..]);
      CharExact(s[..n]);
      assert s == s[..n] + s[n..];
    }
  }

  lemma {:induction false} DecodedParts(s: Bytes, n: nat)
    requires s != [] && Decode(s).Some? && n == SequenceLength(s[0])
    ensures 1 <= n <= |s| && Sequence(s[..n]) && Decode(s[n..]).Some?
    ensures var t := Decode(s).value; t != "" && t[0] == CodePoint(s[..n]) as char && t[1..] == Decode(s[n..]).value
  {
    hide Sequence, CodePoint;
  }

  /** Code points below 128 are their own bytes. */
  lemma {:induction false} EncodeAscii(t: string)
    requires forall i :: 0 <= i < |t| ==> t[i] as int < 0x80
    ensures |Encode(t)| == |t| && forall i :: 0 <= i < |t| ==> Encode(t)[i] == t[i] as int
  {
    if t != "" {
      EncodeAscii(t[1..]);
    }
  }

  lemma {:induction false} EncodeConcat(t: string, u: string)
    ensures Encode(t + u) == Encode(t) + Encode(u)
  {
    if t == "" {
      assert t + u == u;
    } else {
      EncodeConcat(t[1..], u);
      EncodeCons(t + u, t[1..] + u);
      Associate(EncodeChar(t[0]), Encode(t[1..]), Encode(u));
    }
  }

  lemma {:induction false} EncodeCons(t: string, tail: string)
    requires t != "" && t[1..] == tail
    ensures Encode(t) == EncodeChar(t[0]) + Encode(tail)
  {
  }

  lemma {:induction false} Associate(x: Bytes, y: Bytes, z: Bytes)
    ensures x + (y + z) == x + y + z
  {
  }
}
