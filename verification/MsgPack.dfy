/** MessagePack for numbers and arrays: the positional row blob of the Redis store. */
module MsgPack {
  import opened Wrappers
  import opened Powers
  import opened Bytes
  import opened Floats
  import opened Schema

  const TWO32: nat := 0x1_0000_0000
  const TWO64: nat := 0x1_0000_0000_0000_0000

  predicate Encodable(v: Value) {
    match v
    case Int(i) => -0x8000_0000_0000_0000 <= i < TWO64
    case Float(_) => true
    case Arr(items) => |items| < TWO32 && forall x <- items :: Encodable(x)
  }

  /** The narrowest member of the int format family. */
  function EncodeInt(i: int): Bytes
    requires -0x8000_0000_0000_0000 <= i < TWO64
  {
    if i >= 0 then
      if i < 0x80 then [i]
      else if i < 0x100 then [0xCC] + Big(i, 1)
      else if i < 0x1_0000 then [0xCD] + Big(i, 2)
      else if i < TWO32 then [0xCE] + Big(i, 4)
      else [0xCF] + Big(i, 8)
    else
      if i >= -0x20 then [i + 0x100]
      else if i >= -0x80 then [0xD0] + Big(ToWord(i, 0x100), 1)
      else if i >= -0x8000 then [0xD1] + Big(ToWord(i, 0x1_0000), 2)
      else if i >= -0x8000_0000 then [0xD2] + Big(ToWord(i, TWO32), 4)
      else [0xD3] + Big(ToWord(i, TWO64), 8)
  }

  function ArrayHeader(n: nat): Bytes
    requires n < TWO32
  {
    if n < 0x10 then [0x90 + n] else if n < 0x1_0000 then [0xDC] + Big(n, 2) else [0xDD] + Big(n, 4)
  }

  function Encode(v: Value): Bytes
    requires Encodable(v)
    decreases v, 0
  {
    match v
    case Int(i) => EncodeInt(i)
    case Float(f) => [0xCB] + Big(f, 8)
    case Arr(items) => ArrayHeader(|items|) + EncodeAll(items)
  }

  function EncodeAll(items: seq<Value>): Bytes
    requires forall x <- items :: Encodable(x)
    decreases items, 0
  {
    if items == [] then [] else Encode(items[0]) + EncodeAll(items[1..])
  }

  /** The n bytes after the tag, and what follows them. */
  function Payload(b: Bytes, n: nat): (r: Option<(nat, Bytes)>)
    requires b != []
    ensures r.Some? ==> r.value.0 < Pow(0x100, n) && |r.value.1| == |b| - 1 - n
  {
    if |b| < 1 + n then None
    else FromBigBound(b[1..1 + n]); Some((FromBig(b[1..1 + n]), b[1 + n..]))
  }

  function DecodeUnsigned(b: Bytes, n: nat): (r: Option<(Value, Bytes)>)
    requires b != []
    ensures r.Some? ==> |r.value.1| < |b|
  {
    match Payload(b, n)
    case None => None
    case Some((x, rest)) => Some((Int(x), rest))
  }

  function DecodeSigned(b: Bytes, n: nat): (r: Option<(Value, Bytes)>)
    requires b != []
    ensures r.Some? ==> |r.value.1| < |b|
  {
    match Payload(b, n)
    case None => None
    case Some((x, rest)) => Some((Int(FromWord(x, Pow(0x100, n))), rest))
  }

  function DecodeFloat(b: Bytes): (r: Option<(Value, Bytes)>)
    requires b != [] && b[0] in {0xCA, 0xCB}
    ensures r.Some? ==> |r.value.1| < |b|
  {
    ByteWidths();
    if b[0] == 0xCA then
      match Payload(b, 4)
      case None => None
      case Some((x, rest)) => Some((Float(Widen(x)), rest))
    else
      match Payload(b, 8)
      case None => None
      case Some((x, rest)) => Some((Float(x), rest))
  }

  /** The number of elements, when b starts with an array header. */
  function DecodeHeader(b: Bytes): (r: Option<(nat, Bytes)>)
    ensures r.Some? ==> |r.value.1| < |b|
  {
    if b == [] then None
    else if 0x90 <= b[0] < 0xA0 then Some((b[0] - 0x90, b[1..]))
    else if b[0] == 0xDC then Payload(b, 2)
    else if b[0] == 0xDD then Payload(b, 4)
    else None
  }

  /** One value from the front of b; None for truncated input and for formats outside numbers and arrays. */
  function Decode(b: Bytes): (r: Option<(Value, Bytes)>)
    ensures r.Some? ==> |r.value.1| < |b|
    decreases |b|, 0
  {
    if b == [] then None
    else if b[0] < 0x80 then Some((Int(b[0]), b[1..]))
    else if b[0] >= 0xE0 then Some((Int(b[0] as int - 0x100), b[1..]))
    else if b[0] == 0xCC then DecodeUnsigned(b, 1)
    else if b[0] == 0xCD then DecodeUnsigned(b, 2)
    else if b[0] == 0xCE then DecodeUnsigned(b, 4)
    else if b[0] == 0xCF then DecodeUnsigned(b, 8)
    else if b[0] == 0xD0 then DecodeSigned(b, 1)
    else if b[0] == 0xD1 then DecodeSigned(b, 2)
    else if b[0] == 0xD2 then DecodeSigned(b, 4)
    else if b[0] == 0xD3 then DecodeSigned(b, 8)
    else if b[0] in {0xCA, 0xCB} then DecodeFloat(b)
    else
      match DecodeHeader(b)
      case None => None
      case Some((n, rest)) =>
        match DecodeAll(n, rest)
        case None => None
        case Some((items, rest')) => Some((Arr(items), rest'))
  }

  function DecodeAll(n: nat, b: Bytes): (r: Option<(seq<Value>, Bytes)>)
    ensures r.Some? ==> |r.value.0| == n && |r.value.1| <= |b|
    decreases |b|, n + 1
  {
    if n == 0 then Some(([], b))
    else
      match Decode(b)
      case None => None
      case Some((v, rest)) =>
        match DecodeAll(n - 1, rest)
        case None => None
        case Some((vs, rest')) => Some(([v] + vs, rest'))
  }

  /** msgpack.unpackb: the whole input must be one value. */
  function Unpackb(b: Bytes): Option<Value> {
    match Decode(b)
    case None => None
    case Some((v, rest)) => if rest == [] then Some(v) else None
  }

  // ---------- Round trip ----------

  lemma {:induction false} PayloadOf(tag: Byte, x: nat, n: nat, rest: Bytes)
    requires x < Pow(0x100, n)
    ensures Payload([tag] + Big(x, n) + rest, n) == Some((x, rest))
  {
    var b := [tag] + Big(x, n) + rest;
    assert b[1..1 + n] == Big(x, n);
    assert b[1 + n..] == rest;
    BigRoundTrip(x, n);
  }

  lemma {:induction false} NaturalRoundTrip(i: nat, rest: Bytes)
    requires i < TWO64
    ensures Decode(EncodeInt(i) + rest) == Some((Int(i), rest))
  {
    ByteWidths();
    hide Pow, Big;
    if i < 0x80 { assert (EncodeInt(i) + rest)[1..] == rest; }
    else if i < 0x100 { PayloadOf(0xCC, i, 1, rest); }
    else if i < 0x1_0000 { PayloadOf(0xCD, i, 2, rest); }
    else if i < TWO32 { PayloadOf(0xCE, i, 4, rest); }
    else { PayloadOf(0xCF, i, 8, rest); }
  }

  lemma {:induction false} NegativeRoundTrip(i: int, rest: Bytes)
    requires -0x8000_0000_0000_0000 <= i < 0
    ensures Decode(EncodeInt(i) + rest) == Some((Int(i), rest))
  {
    ByteWidths();
    hide Pow, Big;
    if i >= -0x20 { assert (EncodeInt(i) + rest)[1..] == rest; }
    else if i >= -0x80 { PayloadOf(0xD0, ToWord(i, 0x100), 1, rest); }
    else if i >= -0x8000 { PayloadOf(0xD1, ToWord(i, 0x1_0000), 2, rest); }
    else if i >= -0x8000_0000 { PayloadOf(0xD2, ToWord(i, TWO32), 4, rest); }
    else { PayloadOf(0xD3, ToWord(i, TWO64), 8, rest); }
  }

  lemma {:induction false} HeaderRoundTrip(n: nat, rest: Bytes)
    requires n < TWO32
    ensures DecodeHeader(ArrayHeader(n) + rest) == Some((n, rest))
    ensures (ArrayHeader(n) + rest)[0] in {0xDC, 0xDD} || 0x90 <= (ArrayHeader(n) + rest)[0] < 0xA0
  {
    ByteWidths();
    var b := ArrayHeader(n) + rest;
    if n < 0x10 { assert b[1..] == rest; }
    else if n < 0x1_0000 { PayloadOf(0xDC, n, 2, rest); }
    else { PayloadOf(0xDD, n, 4, rest); }
  }

  lemma {:induction false} FloatRoundTrip(f: F64, rest: Bytes)
    ensures Decode([0xCB] + Big(f, 8) + rest) == Some((Float(f), rest))
  {
    ByteWidths();
    PayloadOf(0xCB, f, 8, rest);
  }

  lemma {:induction false} DecodeArray(items: seq<Value>, body: Bytes, rest: Bytes)
    requires |items| < TWO32 && DecodeAll(|items|, body) == Some((items, rest))
    ensures Decode(ArrayHeader(|items|) + body) == Some((Arr(items), rest))
  {
    HeaderRoundTrip(|items|, body);
  }

  /** Decoding the front of a stream gives back the value and exactly what follows it. */
  lemma {:induction false} RoundTrip(v: Value, rest: Bytes)
    requires Encodable(v)
    ensures Decode(Encode(v) + rest) == Some((v, rest))
    decreases v, 0
  {
    match v
    case Int(i) => if i >= 0 { NaturalRoundTrip(i, rest); } else { NegativeRoundTrip(i, rest); }
    case Float(f) => FloatRoundTrip(f, rest);
    case Arr(items) =>
      AllRoundTrip(items, rest);
      DecodeArray(items, EncodeAll(items) + rest, rest);
      assert Encode(v) + rest == ArrayHeader(|items|) + (EncodeAll(items) + rest);
  }

  lemma {:induction false} EncodeCons(items: seq<Value>, rest: Bytes)
    requires items != [] && forall x <- items :: Encodable(x)
    ensures EncodeAll(items) + rest == Encode(items[0]) + (EncodeAll(items[1..]) + rest)
  {
    hide Encode, Encodable;
  }

  lemma {:induction false} DecodeCons(n: nat, b: Bytes, v: Value, vs: seq<Value>, r: Bytes, rest: Bytes)
    requires n > 0 && Decode(b) == Some((v, r)) && DecodeAll(n - 1, r) == Some((vs, rest))
    ensures DecodeAll(n, b) == Some(([v] + vs, rest))
  {
    hide Decode;
  }

  lemma {:induction false} AllRoundTrip(items: seq<Value>, rest: Bytes)
    requires forall x <- items :: Encodable(x)
    ensures DecodeAll(|items|, EncodeAll(items) + rest) == Some((items, rest))
    decreases items, 0
  {
    if items == [] {
      assert EncodeAll(items) + rest == rest;
    } else {
      hide Encode, Decode, EncodeAll, DecodeAll, Encodable;
      RoundTrip(items[0], EncodeAll(items[1..]) + rest);
      AllRoundTrip(items[1..], rest);
      EncodeCons(items, rest);
      DecodeCons(|items|, EncodeAll(items) + rest, items[0], items[1..], EncodeAll(items[1..]) + rest, rest);
      assert [items[0]] + items[1..] == items;
    }
  }

  lemma {:induction false} UnpackbRoundTrip(v: Value)
    requires Encodable(v)
    ensures Unpackb(Encode(v)) == Some(v)
  {
    RoundTrip(v, []);
    assert Encode(v) + [] == Encode(v);
  }

  /** No encoding is a prefix of another: a stream splits in one way only. */
  lemma {:induction false} PrefixFree(v: Value, w: Value, x: Bytes, y: Bytes)
    requires Encodable(v) && Encodable(w) && Encode(v) + x == Encode(w) + y
    ensures v == w && x == y
  {
    RoundTrip(v, x);
    RoundTrip(w, y);
  }

  lemma {:induction false} PayloadExtends(b: Bytes, x: Bytes, n: nat)
    requires b != []
    ensures Payload(b, n).Some? ==> Payload(b + x, n) == Some((Payload(b, n).value.0, Payload(b, n).value.1 + x))
  {
    if |b| >= 1 + n {
      assert (b + x)[1..1 + n] == b[1..1 + n];
      assert (b + x)[1 + n..] == b[1 + n..] + x;
    }
  }

  lemma {:induction false} ScalarExtends(b: Bytes, x: Bytes, n: nat)
    requires b != [] && n in {1, 2, 4, 8}
    ensures DecodeUnsigned(b, n).Some? ==>
      DecodeUnsigned(b + x, n) == Some((DecodeUnsigned(b, n).value.0, DecodeUnsigned(b, n).value.1 + x))
    ensures DecodeSigned(b, n).Some? ==>
      DecodeSigned(b + x, n) == Some((DecodeSigned(b, n).value.0, DecodeSigned(b, n).value.1 + x))
  {
    PayloadExtends(b, x, n);
    hide Payload, FromWord, Pow;
  }

  lemma {:induction false} FloatExtends(b: Bytes, x: Bytes)
    requires b != [] && b[0] in {0xCA, 0xCB}
    ensures DecodeFloat(b).Some? ==> DecodeFloat(b + x) == Some((DecodeFloat(b).value.0, DecodeFloat(b).value.1 + x))
  {
    PayloadExtends(b, x, 4);
    PayloadExtends(b, x, 8);
    ByteWidths();
    hide Payload, Widen, Pow;
  }

  lemma {:induction false} HeaderExtends(b: Bytes, x: Bytes)
    ensures DecodeHeader(b).Some? ==>
      DecodeHeader(b + x) == Some((DecodeHeader(b).value.0, DecodeHeader(b).value.1 + x))
  {
    if b != [] {
      PayloadExtends(b, x, 2);
      PayloadExtends(b, x, 4);
      assert (b + x)[1..] == b[1..] + x;
      hide Payload;
    }
  }

  /** What is decoded from the front of an input is decoded from the front of every continuation of it. */
  lemma {:induction false} DecodeExtends(b: Bytes, x: Bytes)
    ensures Decode(b).Some? ==> Decode(b + x) == Some((Decode(b).value.0, Decode(b).value.1 + x))
    decreases |b|, 0
  {
    if b != [] {
      if b[0] < 0x80 || b[0] >= 0xE0 {
        FixedExtends(b, x);
      } else if 0xCA <= b[0] <= 0xD3 {
        TaggedExtends(b, x);
      } else {
        HeaderExtends(b, x);
        hide DecodeHeader;
        if DecodeHeader(b).Some? { AllExtends(DecodeHeader(b).value.0, DecodeHeader(b).value.1, x); }
        hide DecodeAll;
      }
    }
  }

  lemma {:induction false} FixedExtends(b: Bytes, x: Bytes)
    requires b != [] && (b[0] < 0x80 || b[0] >= 0xE0)
    ensures Decode(b).Some? ==> Decode(b + x) == Some((Decode(b).value.0, Decode(b).value.1 + x))
  {
    assert (b + x)[1..] == b[1..] + x && (b + x)[0] == b[0];
    hide DecodeUnsigned, DecodeSigned, DecodeFloat, DecodeHeader, DecodeAll;
  }

  lemma {:induction false} TaggedExtends(b: Bytes, x: Bytes)
    requires b != [] && 0xCA <= b[0] <= 0xD3
    ensures Decode(b).Some? ==> Decode(b + x) == Some((Decode(b).value.0, Decode(b).value.1 + x))
  {
    hide DecodeUnsigned, DecodeSigned, DecodeFloat, DecodeHeader, DecodeAll;
    assert (b + x)[0] == b[0];
    if b[0] in {0xCA, 0xCB} { FloatExtends(b, x); }
    else if b[0] in {0xCC, 0xD0} { ScalarExtends(b, x, 1); }
    else if b[0] in {0xCD, 0xD1} { ScalarExtends(b, x, 2); }
    else if b[0] in {0xCE, 0xD2} { ScalarExtends(b, x, 4); }
    else { ScalarExtends(b, x, 8); }
  }

  lemma {:induction false} AllExtends(n: nat, b: Bytes, x: Bytes)
    ensures DecodeAll(n, b).Some? ==>
      DecodeAll(n, b + x) == Some((DecodeAll(n, b).value.0, DecodeAll(n, b).value.1 + x))
    decreases |b|, n + 1
  {
    if n > 0 && DecodeAll(n, b).Some? {
      DecodeExtends(b, x);
      hide Decode;
      AllExtends(n - 1, Decode(b).value.1, x);
    }
  }

  /** An encoding with bytes missing at its end or left over behind it is not a blob. */
  lemma {:induction false} WholeBlobsOnly(v: Value, b: Bytes)
    requires Encodable(v) && (b <= Encode(v) || Encode(v) <= b)
    ensures Unpackb(b).Some? <==> b == Encode(v)
  {
    var e := Encode(v);
    RoundTrip(v, []);
    assert e + [] == e;
    if e <= b {
      RoundTrip(v, b[|e|..]);
      assert e + b[|e|..] == b;
    } else {
      assert b + e[|b|..] == e;
      DecodeExtends(b, e[|b|..]);
    }
  }

  /** No input that decodes to i is shorter than the encoding of i. */
  lemma {:induction false} MinimalWidth(i: int, b: Bytes)
    requires -0x8000_0000_0000_0000 <= i < TWO64
    requires Unpackb(b) == Some(Int(i))
    ensures |EncodeInt(i)| <= |b|
  {
    ByteWidths();
  }

  // ---------- The row blob ----------

  lemma {:induction false} ShapedEncodable(row: Row)
    requires Shaped(row)
    ensures Encodable(Arr(Ordered(row)))
  {
    var a, b, c, d := ShapedFields(row);
    assert Encodable(a) && Encodable(b) && Encodable(c) && Encodable(d);
  }

  function Blob(row: Row): Bytes
    requires Shaped(row)
  {
    ShapedEncodable(row);
    Encode(Arr(Ordered(row)))
  }

  /** The vector in a blob: decoded values scattered over the schema's fields, None when they do not match it. */
  function BlobVector(blob: Bytes): Option<Vector> {
    match Unpackb(blob)
    case Some(Arr(vs)) => if AllFit(vs, FIELDS) then Some(Walk(vs, FIELDS, |FIELDS|)) else None
    case _ => None
  }

  /** The blob of a row restores all four fields, hence the promised vector. */
  lemma {:induction false} BlobRoundTrip(row: Row)
    requires Shaped(row)
    ensures Unpackb(Blob(row)) == Some(Arr(Ordered(row)))
    ensures BlobVector(Blob(row)) == Some(RowVector(row))
  {
    ShapedEncodable(row);
    UnpackbRoundTrip(Arr(Ordered(row)));
  }

  lemma {:induction false} EncodeFour(a: Value, b: Value, c: Value, d: Value)
    requires Encodable(a) && Encodable(b) && Encodable(c) && Encodable(d)
    ensures EncodeAll([a, b, c, d]) == Encode(a) + (Encode(b) + (Encode(c) + Encode(d)))
  {
    assert [d][1..] == [] && [c, d][1..] == [d] && [b, c, d][1..] == [c, d] && [a, b, c, d][1..] == [b, c, d];
    assert EncodeAll([d]) == Encode(d);
    assert EncodeAll([c, d]) == Encode(c) + EncodeAll([d]);
    assert EncodeAll([b, c, d]) == Encode(b) + EncodeAll([c, d]);
  }

  /** The int and float format families: the first byte, the length and the payload of a number's encoding. */
  predicate NumberFormat(v: Value, s: Bytes)
    requires Scalar(v)
  {
    match v
    case Float(f) => |s| == 9 && s[0] == 0xCB && FromBig(s[1..]) == f
    case Int(i) =>
      if 0 <= i < 0x80 then s == [i]
      else if -0x20 <= i < 0 then s == [0x100 + i]
      else if 0x80 <= i < 0x100 then |s| == 2 && s[0] == 0xCC && FromBig(s[1..]) == i
      else if 0x100 <= i < 0x1_0000 then |s| == 3 && s[0] == 0xCD && FromBig(s[1..]) == i
      else if 0x1_0000 <= i < 0x1_0000_0000 then |s| == 5 && s[0] == 0xCE && FromBig(s[1..]) == i
      else if 0x1_0000_0000 <= i then |s| == 9 && s[0] == 0xCF && FromBig(s[1..]) == i
      else if -0x80 <= i then |s| == 2 && s[0] == 0xD0 && FromBig(s[1..]) == i + 0x100
      else if -0x8000 <= i then |s| == 3 && s[0] == 0xD1 && FromBig(s[1..]) == i + 0x1_0000
      else if -0x8000_0000 <= i then |s| == 5 && s[0] == 0xD2 && FromBig(s[1..]) == i + 0x1_0000_0000
      else |s| == 9 && s[0] == 0xD3 && FromBig(s[1..]) == i + 0x1_0000_0000_0000_0000
    case Arr(_) => false
  }

  lemma {:induction false} TaggedPayload(tag: Byte, x: nat, n: nat)
    requires x < Pow(0x100, n)
    ensures var s := [tag] + Big(x, n); |s| == 1 + n && s[0] == tag && FromBig(s[1..]) == x
  {
    assert ([tag] + Big(x, n))[1..] == Big(x, n);
    BigRoundTrip(x, n);
  }

  /** Numbers are encoded in the format that the specification gives for their range. */
  lemma {:induction false} EncodedNumber(v: Value)
    requires Scalar(v)
    ensures Encodable(v) && NumberFormat(v, Encode(v))
  {
    ByteWidths();
    hide Big, FromBig, Pow;
    match v
    case Float(f) => TaggedPayload(0xCB, f, 8);
    case Int(i) => if i >= 0 { EncodedNatural(i); } else { EncodedNegative(i); }
    case Arr(_) =>
  }

  lemma {:induction false} EncodedNatural(i: nat)
    requires i < TWO64
    ensures NumberFormat(Int(i), EncodeInt(i))
  {
    ByteWidths();
    hide Big, FromBig, Pow;
    if 0x80 <= i < 0x100 { TaggedPayload(0xCC, i, 1); }
    else if 0x100 <= i < 0x1_0000 { TaggedPayload(0xCD, i, 2); }
    else if 0x1_0000 <= i < TWO32 { TaggedPayload(0xCE, i, 4); }
    else if TWO32 <= i { TaggedPayload(0xCF, i, 8); }
  }

  lemma {:induction false} EncodedNegative(i: int)
    requires -0x8000_0000_0000_0000 <= i < 0
    ensures NumberFormat(Int(i), EncodeInt(i))
  {
    ByteWidths();
    hide Big, FromBig, Pow;
    if -0x80 <= i < -0x20 { TaggedPayload(0xD0, i + 0x100, 1); }
    else if -0x8000 <= i < -0x80 { TaggedPayload(0xD1, i + 0x1_0000, 2); }
    else if -0x8000_0000 <= i < -0x8000 { TaggedPayload(0xD2, i + TWO32, 4); }
    else if i < -0x8000_0000 { TaggedPayload(0xD3, i + TWO64, 8); }
  }

  /** No input that opens an array of n elements is shorter than the header of n. */
  lemma {:induction false} MinimalHeader(n: nat, b: Bytes, rest: Bytes)
    requires n < TWO32 && DecodeHeader(b) == Some((n, rest))
    ensures |ArrayHeader(n) + rest| <= |b|
  {
    ByteWidths();
    hide Big, FromBig, Pow;
  }

  /** The array family: one byte below 16 elements, then two and four bytes of count. */
  lemma {:induction false} HeaderBytes(n: nat)
    requires n < TWO32
    ensures n < 0x10 ==> ArrayHeader(n) == [0x90 + n]
    ensures 0x10 <= n < 0x1_0000 ==>
      |ArrayHeader(n)| == 3 && ArrayHeader(n)[0] == 0xDC && FromBig(ArrayHeader(n)[1..]) == n
    ensures 0x1_0000 <= n ==> |ArrayHeader(n)| == 5 && ArrayHeader(n)[0] == 0xDD && FromBig(ArrayHeader(n)[1..]) == n
  {
    ByteWidths();
    hide Big, FromBig, Pow;
    if 0x10 <= n < 0x1_0000 { TaggedPayload(0xDC, n, 2); } else if 0x1_0000 <= n { TaggedPayload(0xDD, n, 4); }
  }

  /** Layout of the blob: the byte of a 4-element fixarray, then the fields in declaration order; feat_c is an array 16
      of 16 numbers, and every number has the format of its family. */
  lemma {:induction false} BlobLayout(row: Row)
    requires Shaped(row)
    ensures var vs := Ordered(row);
      && vs[2].Arr? && |vs[2].items| == 16
      && Encodable(vs[0]) && Encodable(vs[1]) && Encodable(vs[2]) && Encodable(vs[3])
      && Blob(row) == [0x94] + (Encode(vs[0]) + (Encode(vs[1])
        + (([0xDC, 0x00, 0x10] + EncodeAll(vs[2].items)) + Encode(vs[3]))))
      && Scalar(vs[0]) && Scalar(vs[1]) && Scalar(vs[3])
      && NumberFormat(vs[0], Encode(vs[0])) && NumberFormat(vs[1], Encode(vs[1])) && NumberFormat(vs[3], Encode(vs[3]))
      && forall x <- vs[2].items :: Scalar(x) && Encodable(x) && NumberFormat(x, Encode(x))
  {
    var a, b, c, d := ShapedFields(row);
    ShapedEncodable(row);
    EncodedNumber(a);
    EncodedNumber(b);
    EncodedNumber(d);
    forall x | x in c.items ensures Encodable(x) && NumberFormat(x, Encode(x)) { EncodedNumber(x); }
    HeaderBytes(4);
    hide Encodable, NumberFormat, ArrayHeader, EncodeInt;
    EncodeFour(a, b, c, d);
    EncodeSixteen(c.items);
  }

  lemma {:induction false} EncodeSixteen(items: seq<Value>)
    requires |items| == 16 && forall x <- items :: Encodable(x)
    ensures Encode(Arr(items)) == [0xDC, 0x00, 0x10] + EncodeAll(items)
  {
    assert Big(0, 1) == [0] && Big(16, 2) == [0x00, 0x10];
  }
}
