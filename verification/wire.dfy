/**
 * The Protocol Buffers primitives the generated codecs are built from
 * ("Base 128 Varints" and "Message Structure" in the Protocol Buffers
 * encoding guide): unsigned varints, length-delimited byte strings,
 * one-byte booleans, field keys and skipping of unknown fields.
 *
 * Decoding is positional, like the generated JavaScript: every reader
 * takes the whole buffer and an offset and returns the value together
 * with the offset just after it.
 */
module Wire {
  import opened Wrappers

  type Byte = x: int | 0 <= x < 256
  type Bytes = seq<Byte>

  /** The exceptions a decoder can raise. */
  datatype DecodeError =
    | RangeError          // a varint ran past the end of the buffer
    | InvalidMessage      // offset/end outside the buffer, or a required field missing
    | UnknownWireType(wireType: nat)

  /** Wire types used by the schemas of this system. */
  const VARINT: nat := 0
  const LENGTH_DELIMITED: nat := 2

  /** `s` occurs in `buf` starting at offset `pos`. */
  predicate At(buf: Bytes, pos: nat, s: Bytes)
    ensures At(buf, pos, s) ==> pos + |s| <= |buf|
    decreases |s|
  {
    if |s| == 0 then pos <= |buf| else pos < |buf| && buf[pos] == s[0] && At(buf, pos + 1, s[1..])
  }

  lemma {:induction false} AtConcat(buf: Bytes, pos: nat, s: Bytes, t: Bytes)
    requires At(buf, pos, s + t)
    ensures At(buf, pos, s) && At(buf, pos + |s|, t)
    decreases |s|
  {
    if |s| == 0 {
      assert s + t == t;
    } else {
      assert (s + t)[0] == s[0] && (s + t)[1..] == s[1..] + t;
      AtConcat(buf, pos + 1, s[1..], t);
    }
  }

  /** The bytes of `buf` where `s` occurs are `s`. */
  lemma {:induction false} AtSlice(buf: Bytes, pos: nat, s: Bytes)
    requires At(buf, pos, s)
    ensures buf[pos..pos + |s|] == s
    decreases |s|
  {
    if |s| > 0 {
      AtSlice(buf, pos + 1, s[1..]);
      assert buf[pos..pos + |s|] == [buf[pos]] + buf[pos + 1..pos + |s|];
      assert s == [s[0]] + s[1..];
    }
  }

  /** Every suffix of `buf` occurs where it starts; in particular `buf` itself occurs at 0. */
  lemma {:induction false} AtSuffix(buf: Bytes, pos: nat)
    requires pos <= |buf|
    ensures At(buf, pos, buf[pos..])
    decreases |buf| - pos
  {
    if pos < |buf| {
      AtSuffix(buf, pos + 1);
      assert buf[pos..][1..] == buf[pos + 1..];
    }
  }

  // ---------------------------------------------------------------- varints

  function Pow128(k: nat): (r: nat)
    ensures r >= 1
  {
    if k == 0 then 1 else 128 * Pow128(k - 1)
  }

  /** Number of bytes of the varint encoding of `n`. */
  function VarintLength(n: nat): (r: nat)
    ensures 1 <= r
  {
    if n < 128 then 1 else 1 + VarintLength(n / 128)
  }

  /** The varint length of `n` is the least `r >= 1` with `n < 128^r`. */
  lemma {:induction false} VarintLengthIsLeast(n: nat)
    ensures n < Pow128(VarintLength(n))
    ensures VarintLength(n) == 1 || Pow128(VarintLength(n) - 1) <= n
  {
    if n >= 128 {
      VarintLengthIsLeast(n / 128);
      var k := VarintLength(n / 128);
      assert Pow128(k + 1) == 128 * Pow128(k);
      assert n < 128 * (n / 128 + 1);
      assert k == 1 ==> Pow128(k) == 128;
      assert k != 1 ==> Pow128(k) == 128 * Pow128(k - 1) <= 128 * (n / 128) <= n;
    }
  }

  /** Little-endian groups of seven bits, the high bit set on every byte but the last. */
  function EncodeVarint(n: nat): (r: Bytes)
    ensures |r| == VarintLength(n)
  {
    if n < 128 then [n] else [128 + n % 128] + EncodeVarint(n / 128)
  }

  /** Every byte of a varint but the last has its high bit set; the last does not. */
  lemma {:induction false} EncodeVarintShape(n: nat)
    ensures EncodeVarint(n)[|EncodeVarint(n)| - 1] < 128
    ensures forall i :: 0 <= i < |EncodeVarint(n)| - 1 ==> EncodeVarint(n)[i] >= 128
  {
    if n >= 128 {
      EncodeVarintShape(n / 128);
    }
  }

  /** Reads a varint at `pos`; raises `RangeError` if it runs past the buffer. */
  function DecodeVarint(buf: Bytes, pos: nat): (r: Result<(nat, nat), DecodeError>)
    ensures r.Success? ==> pos < r.value.1 <= |buf|
    ensures r.Failure? ==> r.error == RangeError
    decreases |buf| - pos
  {
    if pos >= |buf| then Failure(RangeError)
    else if buf[pos] < 128 then Success((buf[pos], pos + 1))
    else
      match DecodeVarint(buf, pos + 1)
      case Failure(e) => Failure(e)
      case Success(p) => Success(((buf[pos] - 128) + 128 * p.0, p.1))
  }

  lemma {:induction false} DecodeEncodeVarint(buf: Bytes, pos: nat, n: nat)
    requires At(buf, pos, EncodeVarint(n))
    ensures DecodeVarint(buf, pos) == Success((n, pos + VarintLength(n)))
    decreases n
  {
    var e := EncodeVarint(n);
    assert buf[pos] == e[0];
    if n >= 128 {
      AtConcat(buf, pos, [128 + n % 128], EncodeVarint(n / 128));
      DecodeEncodeVarint(buf, pos + 1, n / 128);
    }
  }

  // ------------------------------------------------- length-delimited bytes

  /** A byte string: its length as a varint, then its bytes. */
  function EncodeBytes(b: Bytes): (r: Bytes)
    ensures |r| == VarintLength(|b|) + |b|
  {
    EncodeVarint(|b|) + b
  }

  /**
   * Reads a length-delimited byte string. Like `Buffer.slice`, a length that
   * runs past the buffer yields the bytes that are there, but the returned
   * offset still advances by the declared length.
   */
  function DecodeBytes(buf: Bytes, pos: nat): (r: Result<(Bytes, nat), DecodeError>)
    ensures r.Success? ==> pos < r.value.1
    ensures r.Success? ==> |r.value.0| <= r.value.1 - pos
  {
    match DecodeVarint(buf, pos)
    case Failure(e) => Failure(e)
    case Success(p) =>
      var start := p.1;
      var stop := if start + p.0 <= |buf| then start + p.0 else |buf|;
      Success((buf[start..stop], start + p.0))
  }

  lemma DecodeEncodeBytes(buf: Bytes, pos: nat, b: Bytes)
    requires At(buf, pos, EncodeBytes(b))
    ensures DecodeBytes(buf, pos) == Success((b, pos + |EncodeBytes(b)|))
  {
    AtConcat(buf, pos, EncodeVarint(|b|), b);
    DecodeEncodeVarint(buf, pos, |b|);
    AtSlice(buf, pos + VarintLength(|b|), b);
  }

  // --------------------------------------------------------------- booleans

  /** A boolean is one byte, 1 or 0. */
  function EncodeBool(v: bool): (r: Bytes)
    ensures |r| == 1
  {
    if v then [1] else [0]
  }

  /** Reads the byte at `pos` as `> 0`; a read past the buffer yields false. Always consumes one byte. */
  function DecodeBool(buf: Bytes, pos: nat): (r: (bool, nat))
    ensures r.1 == pos + 1
    ensures r.0 <==> pos < |buf| && buf[pos] > 0
  {
    (pos < |buf| && buf[pos] > 0, pos + 1)
  }

  lemma DecodeEncodeBool(buf: Bytes, pos: nat, v: bool)
    requires At(buf, pos, EncodeBool(v))
    ensures DecodeBool(buf, pos) == (v, pos + 1)
  {
    assert buf[pos] == EncodeBool(v)[0];
  }

  // ------------------------------------------------------------- field keys

  /** JavaScript's `ToInt32`: the value modulo 2^32, read as two's complement. */
  function ToInt32(n: nat): int {
    if n < 0x8000_0000 then n
    else
      var m := n % 0x1_0000_0000;
      if m >= 0x8000_0000 then m - 0x1_0000_0000 else m
  }

  /** `ToInt32` lands in the signed 32-bit range, keeps the value modulo 2^32 and fixes small values. */
  lemma ToInt32Range(n: nat)
    ensures -0x8000_0000 <= ToInt32(n) < 0x8000_0000
    ensures ToInt32(n) % 0x1_0000_0000 == n % 0x1_0000_0000
    ensures n < 0x8000_0000 ==> ToInt32(n) == n
  {
  }

  /** `prefix >> 3`: the field number of a key, as the 32-bit signed shift computes it. */
  function FieldNumber(prefix: nat): int {
    ToInt32(prefix) / 8
  }

  /** `prefix & 7`: the wire type of a key. */
  function WireType(prefix: nat): nat {
    prefix % 8
  }

  /** The key byte `field << 3 | wireType` written before a field. */
  function KeyByte(field: nat, wireType: nat): Byte
    requires 1 <= field < 16 && wireType < 8
  {
    field * 8 + wireType
  }

  /** A key below 2^31 has field number `prefix / 8`. */
  lemma SmallFieldNumber(prefix: nat)
    requires prefix < 0x8000_0000
    ensures FieldNumber(prefix) == prefix / 8
  {
    ToInt32Range(prefix);
  }

  lemma KeyByteFields(field: nat, wireType: nat)
    requires 1 <= field < 16 && wireType < 8
    ensures FieldNumber(KeyByte(field, wireType)) == field
    ensures WireType(KeyByte(field, wireType)) == wireType
    ensures EncodeVarint(KeyByte(field, wireType)) == [KeyByte(field, wireType)]
  {
    SmallFieldNumber(KeyByte(field, wireType));
  }

  /** Reads a key byte `h` (< 128) written at `pos`. */
  lemma DecodeKeyByte(buf: Bytes, pos: nat, h: Byte)
    requires h < 128 && At(buf, pos, [h])
    ensures DecodeVarint(buf, pos) == Success((h, pos + 1))
  {
    assert buf[pos] == [h][0];
  }

  /**
   * Skips the value of an unknown field of wire type `wireType` that starts at
   * `pos` and returns the offset after it; the offset is not checked against
   * the buffer, so it may lie beyond it. Groups and unknown wire types raise.
   */
  function Skip(wireType: nat, buf: Bytes, pos: nat): (r: Result<nat, DecodeError>)
    ensures r.Success? ==> pos < r.value
    ensures wireType !in {0, 1, 2, 5} ==> r == Failure(UnknownWireType(wireType))
  {
    if wireType == 0 then
      match DecodeVarint(buf, pos)
      case Failure(e) => Failure(e)
      case Success(p) => Success(p.1)
    else if wireType == 1 then Success(pos + 8)
    else if wireType == 2 then
      match DecodeVarint(buf, pos)
      case Failure(e) => Failure(e)
      case Success(p) => Success(p.1 + p.0)
    else if wireType == 5 then Success(pos + 4)
    else Failure(UnknownWireType(wireType))
  }

  /** Skipping a varint field moves past exactly its encoding. */
  lemma SkipVarint(buf: Bytes, pos: nat, n: nat)
    requires At(buf, pos, EncodeVarint(n))
    ensures Skip(VARINT, buf, pos) == Success(pos + VarintLength(n))
  {
    DecodeEncodeVarint(buf, pos, n);
  }

  // ---------------------------------------------------------- decode range

  /** A missing or zero `offset` (`if (!offset) offset = 0`) starts at 0. */
  function RangeStart(offset: Option<nat>): nat {
    offset.GetOr(0)
  }

  /** A missing or zero `end` (`if (!end) end = buf.length`) is the buffer's length. */
  function RangeStop(buf: Bytes, end: Option<nat>): nat {
    if end.GetOr(0) == 0 then |buf| else end.value
  }

  // ------------------------------------------------------------ field lists

  /** A field list on the wire: the encodings of its fields, one after another. */
  function Concat<F>(enc: F -> Bytes, fs: seq<F>): Bytes
    decreases |fs|
  {
    if |fs| == 0 then [] else enc(fs[0]) + Concat(enc, fs[1..])
  }

  /** The effect of reading a field list: each field's effect, in wire order. */
  function Fold<A, F>(apply: (A, F) -> A, acc: A, fs: seq<F>): A
    decreases |fs|
  {
    if |fs| == 0 then acc else Fold(apply, apply(acc, fs[0]), fs[1..])
  }

  lemma {:induction false} ConcatAppend<F>(enc: F -> Bytes, a: seq<F>, b: seq<F>)
    ensures Concat(enc, a + b) == Concat(enc, a) + Concat(enc, b)
    decreases |a|
  {
    if |a| > 0 {
      assert (a + b)[1..] == a[1..] + b;
      ConcatAppend(enc, a[1..], b);
    } else {
      assert a + b == b;
    }
  }

  lemma {:induction false} FoldAppend<A, F>(apply: (A, F) -> A, acc: A, a: seq<F>, b: seq<F>)
    ensures Fold(apply, acc, a + b) == Fold(apply, Fold(apply, acc, a), b)
    decreases |a|
  {
    if |a| > 0 {
      assert (a + b)[1..] == a[1..] + b;
      FoldAppend(apply, apply(acc, a[0]), a[1..], b);
    } else {
      assert a + b == b;
    }
  }

  /** The encoding of five field lists in a row. */
  lemma ConcatFive<F>(enc: F -> Bytes, a: seq<F>, b: seq<F>, c: seq<F>, d: seq<F>, e: seq<F>)
    ensures Concat(enc, a + (b + (c + (d + e))))
      == Concat(enc, a) + (Concat(enc, b) + (Concat(enc, c) + (Concat(enc, d) + Concat(enc, e))))
  {
    ConcatAppend(enc, d, e);
    ConcatAppend(enc, c, d + e);
    ConcatAppend(enc, b, c + (d + e));
    ConcatAppend(enc, a, b + (c + (d + e)));
  }

  /** Reading five field lists in a row. */
  lemma FoldFive<A, F>(apply: (A, F) -> A, acc: A, a: seq<F>, b: seq<F>, c: seq<F>, d: seq<F>, e: seq<F>)
    ensures Fold(apply, acc, a + (b + (c + (d + e))))
      == Fold(apply, Fold(apply, Fold(apply, Fold(apply, Fold(apply, acc, a), b), c), d), e)
  {
    var a1 := Fold(apply, acc, a);
    var a2 := Fold(apply, a1, b);
    var a3 := Fold(apply, a2, c);
    FoldAppend(apply, acc, a, b + (c + (d + e)));
    FoldAppend(apply, a1, b, c + (d + e));
    FoldAppend(apply, a2, c, d + e);
    FoldAppend(apply, a3, d, e);
  }

  lemma ConcatAtMostOne<F>(enc: F -> Bytes, o: seq<F>)
    requires |o| <= 1
    ensures Concat(enc, o) == if |o| == 0 then [] else enc(o[0])
  {
    if |o| == 1 {
      assert o[1..] == [];
    }
  }

  lemma FoldAtMostOne<A, F>(apply: (A, F) -> A, acc: A, o: seq<F>)
    requires |o| <= 1
    ensures Fold(apply, acc, o) == if |o| == 0 then acc else apply(acc, o[0])
  {
    if |o| == 1 {
      assert o[1..] == [];
    }
  }

  lemma Singleton<A, F>(enc: F -> Bytes, apply: (A, F) -> A, f: F)
    ensures Concat(enc, [f]) == enc(f)
    ensures forall acc :: Fold(apply, acc, [f]) == apply(acc, f)
  {
    assert [f][1..] == [];
  }

  // ----------------------------------------------------------- keyed fields

  // An optional field of a message: nothing when it is not `defined`,
  // otherwise its key byte and its value.

  function BytesField(key: Byte, v: Option<Bytes>): Bytes {
    match v
    case None => []
    case Some(b) => [key] + EncodeBytes(b)
  }

  function VarintField(key: Byte, v: Option<nat>): Bytes {
    match v
    case None => []
    case Some(n) => [key] + EncodeVarint(n)
  }

  function BytesFieldLength(v: Option<Bytes>): nat {
    match v
    case None => 0
    case Some(b) => 1 + VarintLength(|b|) + |b|
  }

  function VarintFieldLength(v: Option<nat>): nat {
    match v
    case None => 0
    case Some(n) => 1 + VarintLength(n)
  }

  function BoolField(key: Byte, v: Option<bool>): Bytes {
    match v
    case None => []
    case Some(b) => [key] + EncodeBool(b)
  }

  function BoolFieldLength(v: Option<bool>): nat {
    if v.Some? then 2 else 0
  }

  /** A length-delimited field at `pos`: its key byte reads back, then its bytes. */
  lemma KeyedBytesRead(buf: Bytes, pos: nat, key: Byte, b: Bytes)
    requires key < 128 && At(buf, pos, [key] + EncodeBytes(b))
    ensures DecodeVarint(buf, pos) == Success((key, pos + 1))
    ensures DecodeBytes(buf, pos + 1) == Success((b, pos + 1 + |EncodeBytes(b)|))
  {
    AtConcat(buf, pos, [key], EncodeBytes(b));
    DecodeKeyByte(buf, pos, key);
    DecodeEncodeBytes(buf, pos + 1, b);
  }

  /** A varint field at `pos`: its key byte reads back, then its number. */
  lemma KeyedVarintRead(buf: Bytes, pos: nat, key: Byte, n: nat)
    requires key < 128 && At(buf, pos, [key] + EncodeVarint(n))
    ensures DecodeVarint(buf, pos) == Success((key, pos + 1))
    ensures DecodeVarint(buf, pos + 1) == Success((n, pos + 1 + VarintLength(n)))
  {
    AtConcat(buf, pos, [key], EncodeVarint(n));
    DecodeKeyByte(buf, pos, key);
    DecodeEncodeVarint(buf, pos + 1, n);
  }

  /** A boolean field at `pos`: its key byte reads back, then its value byte. */
  lemma KeyedBoolRead(buf: Bytes, pos: nat, key: Byte, v: bool)
    requires key < 128 && At(buf, pos, [key] + EncodeBool(v))
    ensures DecodeVarint(buf, pos) == Success((key, pos + 1))
    ensures DecodeBool(buf, pos + 1) == (v, pos + 2)
  {
    AtConcat(buf, pos, [key], EncodeBool(v));
    DecodeKeyByte(buf, pos, key);
    DecodeEncodeBool(buf, pos + 1, v);
  }

  /** An embedded message at `pos`: its key and its length read back. */
  lemma NestedHeaderRead(buf: Bytes, pos: nat, key: Byte, b: Bytes)
    requires key < 128 && At(buf, pos, [key] + EncodeBytes(b))
    ensures DecodeVarint(buf, pos) == Success((key, pos + 1))
    ensures DecodeVarint(buf, pos + 1) == Success((|b|, pos + 1 + VarintLength(|b|)))
  {
    AtConcat(buf, pos, [key], EncodeBytes(b));
    DecodeKeyByte(buf, pos, key);
    AtConcat(buf, pos + 1, EncodeVarint(|b|), b);
    DecodeEncodeVarint(buf, pos + 1, |b|);
  }

  /** An embedded message at `pos`: its body follows the key and the length. */
  lemma NestedBodyAt(buf: Bytes, pos: nat, key: Byte, b: Bytes)
    requires At(buf, pos, [key] + EncodeBytes(b))
    ensures At(buf, pos + 1 + VarintLength(|b|), b)
  {
    AtConcat(buf, pos, [key], EncodeBytes(b));
    AtConcat(buf, pos + 1, EncodeVarint(|b|), b);
  }
}
