/**
 * The relay envelope `Broadcast` of the generated codec: field 1 `origin`
 * (bytes), 2 `seq` (varint), 3 `ttl` (varint), 4 `data` (bytes), 5 `nonce`
 * (bytes). Broadcast, targeted and fallback relay requests all carry it.
 */
module RelayCodec {
  import opened Wrappers
  import opened Wire

  /** The object handed to `encode`; `None` is a field that is not `defined` (null, undefined or NaN). */
  datatype Message = Message(
    origin: Option<Bytes>,
    sequence: Option<nat>,
    ttl: Option<nat>,
    data: Option<Bytes>,
    nonce: Option<Bytes>)

  /** The object `decode` returns: numbers default to 0, byte strings to null. */
  datatype Envelope = Envelope(
    origin: Option<Bytes>,
    sequence: nat,
    ttl: nat,
    data: Option<Bytes>,
    nonce: Option<Bytes>)

  const ORIGIN_KEY: Byte := 10
  const SEQ_KEY: Byte := 16
  const TTL_KEY: Byte := 24
  const DATA_KEY: Byte := 34
  const NONCE_KEY: Byte := 42

  /** The key bytes are `field << 3 | wireType` for fields 1..5. */
  lemma KeysAreFieldKeys()
    ensures ORIGIN_KEY == KeyByte(1, LENGTH_DELIMITED) && SEQ_KEY == KeyByte(2, VARINT)
    ensures TTL_KEY == KeyByte(3, VARINT) && DATA_KEY == KeyByte(4, LENGTH_DELIMITED)
    ensures NONCE_KEY == KeyByte(5, LENGTH_DELIMITED)
  {
  }

  /** What `decode` starts from before reading any field. */
  const EmptyEnvelope := Envelope(None, 0, 0, None, None)

  /** The envelope `decode(encode(m))` should give: every defined field, defaults elsewhere. */
  function Decoded(m: Message): Envelope {
    Envelope(m.origin, m.sequence.GetOr(0), m.ttl.GetOr(0), m.data, m.nonce)
  }

  // ---------------------------------------------------------------- encoding

  /** `encodingLength`: one key byte plus the value's length, for every defined field. */
  function EncodingLength(m: Message): nat {
    BytesFieldLength(m.origin) + VarintFieldLength(m.sequence) + VarintFieldLength(m.ttl)
    + BytesFieldLength(m.data) + BytesFieldLength(m.nonce)
  }

  /** `encode`: the defined fields in field order origin, seq, ttl, data, nonce. */
  function Encode(m: Message): Bytes {
    BytesField(ORIGIN_KEY, m.origin) + (VarintField(SEQ_KEY, m.sequence) + (VarintField(TTL_KEY, m.ttl)
    + (BytesField(DATA_KEY, m.data) + BytesField(NONCE_KEY, m.nonce))))
  }

  /** `encodingLength` is the number of bytes `encode` writes, and only an empty message encodes to nothing. */
  lemma EncodingLengthExact(m: Message)
    ensures |Encode(m)| == EncodingLength(m)
    ensures m.origin.Some? ==> Encode(m)[0] == ORIGIN_KEY
    ensures m == Message(None, None, None, None, None) <==> Encode(m) == []
  {
  }

  // ---------------------------------------------------------------- decoding

  /** Reads one field at `pos` into `acc`: known fields overwrite, unknown ones are skipped. */
  function DecodeField(buf: Bytes, pos: nat, acc: Envelope): (r: Result<(Envelope, nat), DecodeError>)
    ensures r.Success? ==> pos < r.value.1
  {
    match DecodeVarint(buf, pos)
    case Failure(e) => Failure(e)
    case Success(key) => ReadValue(buf, key.0, key.1, acc)
  }

  /** Reads the value of the field whose key `prefix` ended just before `p` (the `switch (tag)`). */
  function ReadValue(buf: Bytes, prefix: nat, p: nat, acc: Envelope): (r: Result<(Envelope, nat), DecodeError>)
    ensures r.Success? ==> p < r.value.1
  {
    var field := FieldNumber(prefix);
    if field == 1 then
      match DecodeBytes(buf, p)
      case Failure(e) => Failure(e)
      case Success(v) => Success((acc.(origin := Some(v.0)), v.1))
    else if field == 2 then
      match DecodeVarint(buf, p)
      case Failure(e) => Failure(e)
      case Success(v) => Success((acc.(sequence := v.0), v.1))
    else if field == 3 then
      match DecodeVarint(buf, p)
      case Failure(e) => Failure(e)
      case Success(v) => Success((acc.(ttl := v.0), v.1))
    else if field == 4 then
      match DecodeBytes(buf, p)
      case Failure(e) => Failure(e)
      case Success(v) => Success((acc.(data := Some(v.0)), v.1))
    else if field == 5 then
      match DecodeBytes(buf, p)
      case Failure(e) => Failure(e)
      case Success(v) => Success((acc.(nonce := Some(v.0)), v.1))
    else
      match Skip(WireType(prefix), buf, p)
      case Failure(e) => Failure(e)
      case Success(next) => Success((acc, next))
  }

  /** The decode loop: read fields until the offset reaches `end`. */
  function DecodeFields(buf: Bytes, pos: nat, end: nat, acc: Envelope): (r: Result<(Envelope, nat), DecodeError>)
    ensures r.Success? ==> pos <= r.value.1
    ensures r.Success? && pos < end ==> end <= r.value.1
    decreases end - pos
  {
    if end <= pos then Success((acc, pos))
    else
      match DecodeField(buf, pos, acc)
      case Failure(e) => Failure(e)
      case Success(step) => DecodeFields(buf, step.1, end, step.0)
  }

  /**
   * `decode(buf, offset, end)`: a missing or zero `offset` means 0, a missing
   * or zero `end` means the buffer length; either beyond the buffer raises.
   * Returns the envelope and `decode.bytes`.
   */
  function DecodeRange(buf: Bytes, offset: Option<nat>, end: Option<nat>): (r: Result<(Envelope, nat), DecodeError>)
    ensures (offset.GetOr(0) > |buf| || end.GetOr(0) > |buf|) ==> r == Failure(InvalidMessage)
  {
    var start := RangeStart(offset);
    var stop := RangeStop(buf, end);
    if !(stop <= |buf| && start <= |buf|) then Failure(InvalidMessage)
    else
      match DecodeFields(buf, start, stop, EmptyEnvelope)
      case Failure(e) => Failure(e)
      case Success(p) => Success((p.0, p.1 - start))
  }

  /** `Broadcast.decode(buf)` as the relay handlers call it. */
  function Decode(buf: Bytes): Result<Envelope, DecodeError> {
    match DecodeRange(buf, None, None)
    case Failure(e) => Failure(e)
    case Success(p) => Success(p.0)
  }

  // -------------------------------------------------------------- properties

  /** One decode step at `pos` continues the loop from the offset the step returns. */
  lemma DecodeFieldsStep(buf: Bytes, pos: nat, end: nat, acc: Envelope, acc': Envelope, next: nat)
    requires pos < end && DecodeField(buf, pos, acc) == Success((acc', next))
    ensures DecodeFields(buf, pos, end, acc) == DecodeFields(buf, next, end, acc')
  {
  }

  /** One field as it occurs on the wire; the unit the decode loop reads. */
  datatype Field = OriginF(b: Bytes) | SeqF(n: nat) | TtlF(n: nat) | DataF(b: Bytes) | NonceF(b: Bytes)

  function EncodeOne(f: Field): Bytes {
    match f
    case OriginF(b) => BytesField(ORIGIN_KEY, Some(b))
    case SeqF(n) => VarintField(SEQ_KEY, Some(n))
    case TtlF(n) => VarintField(TTL_KEY, Some(n))
    case DataF(b) => BytesField(DATA_KEY, Some(b))
    case NonceF(b) => BytesField(NONCE_KEY, Some(b))
  }

  function EncodeAll(fs: seq<Field>): Bytes {
    Concat(EncodeOne, fs)
  }

  /** The effect of reading one field: it overwrites its slot of the envelope. */
  function Apply(acc: Envelope, f: Field): Envelope {
    match f
    case OriginF(b) => acc.(origin := Some(b))
    case SeqF(n) => acc.(sequence := n)
    case TtlF(n) => acc.(ttl := n)
    case DataF(b) => acc.(data := Some(b))
    case NonceF(b) => acc.(nonce := Some(b))
  }

  function ApplyAll(acc: Envelope, fs: seq<Field>): Envelope {
    Fold(Apply, acc, fs)
  }

  /** The defined fields of `m`, in the order `encode` writes them. */
  function FieldsOf(m: Message): seq<Field> {
    (if m.origin.Some? then [OriginF(m.origin.value)] else [])
    + ((if m.sequence.Some? then [SeqF(m.sequence.value)] else [])
    + ((if m.ttl.Some? then [TtlF(m.ttl.value)] else [])
    + ((if m.data.Some? then [DataF(m.data.value)] else [])
    + (if m.nonce.Some? then [NonceF(m.nonce.value)] else []))))
  }

  lemma EncodeAllConcat(a: seq<Field>, b: seq<Field>)
    ensures EncodeAll(a + b) == EncodeAll(a) + EncodeAll(b)
  {
    ConcatAppend(EncodeOne, a, b);
  }

  lemma ApplyAllConcat(acc: Envelope, a: seq<Field>, b: seq<Field>)
    ensures ApplyAll(acc, a + b) == ApplyAll(ApplyAll(acc, a), b)
  {
    FoldAppend(Apply, acc, a, b);
  }

  lemma EncodeAllSingle(f: Field)
    ensures EncodeAll([f]) == EncodeOne(f)
    ensures forall acc :: ApplyAll(acc, [f]) == Apply(acc, f)
  {
    Singleton(EncodeOne, Apply, f);
  }

  /** `encode` writes exactly the field list of `m`. */
  lemma EncodeIsFieldList(m: Message)
    ensures Encode(m) == EncodeAll(FieldsOf(m))
  {
    var o1 := if m.origin.Some? then [OriginF(m.origin.value)] else [];
    var o2 := if m.sequence.Some? then [SeqF(m.sequence.value)] else [];
    var o3 := if m.ttl.Some? then [TtlF(m.ttl.value)] else [];
    var o4 := if m.data.Some? then [DataF(m.data.value)] else [];
    var o5 := if m.nonce.Some? then [NonceF(m.nonce.value)] else [];
    ConcatAtMostOne(EncodeOne, o1);
    ConcatAtMostOne(EncodeOne, o2);
    ConcatAtMostOne(EncodeOne, o3);
    ConcatAtMostOne(EncodeOne, o4);
    ConcatAtMostOne(EncodeOne, o5);
    assert EncodeAll(o1) == BytesField(ORIGIN_KEY, m.origin);
    assert EncodeAll(o2) == VarintField(SEQ_KEY, m.sequence);
    assert EncodeAll(o3) == VarintField(TTL_KEY, m.ttl);
    assert EncodeAll(o4) == BytesField(DATA_KEY, m.data);
    assert EncodeAll(o5) == BytesField(NONCE_KEY, m.nonce);
    ConcatFive(EncodeOne, o1, o2, o3, o4, o5);
  }

  /** Reading the field list of `m` over `acc` sets the defined fields of `m`. */
  lemma ApplyFieldsOf(acc: Envelope, m: Message)
    ensures ApplyAll(acc, FieldsOf(m)) == Envelope(
      if m.origin.Some? then m.origin else acc.origin,
      m.sequence.GetOr(acc.sequence), m.ttl.GetOr(acc.ttl),
      if m.data.Some? then m.data else acc.data,
      if m.nonce.Some? then m.nonce else acc.nonce)
  {
    var o1 := if m.origin.Some? then [OriginF(m.origin.value)] else [];
    var o2 := if m.sequence.Some? then [SeqF(m.sequence.value)] else [];
    var o3 := if m.ttl.Some? then [TtlF(m.ttl.value)] else [];
    var o4 := if m.data.Some? then [DataF(m.data.value)] else [];
    var o5 := if m.nonce.Some? then [NonceF(m.nonce.value)] else [];
    FoldFive(Apply, acc, o1, o2, o3, o4, o5);
    var a1 := Fold(Apply, acc, o1);
    var a2 := Fold(Apply, a1, o2);
    var a3 := Fold(Apply, a2, o3);
    var a4 := Fold(Apply, a3, o4);
    FoldAtMostOne(Apply, acc, o1);
    FoldAtMostOne(Apply, a1, o2);
    FoldAtMostOne(Apply, a2, o3);
    FoldAtMostOne(Apply, a3, o4);
    FoldAtMostOne(Apply, a4, o5);
  }

  function KeyOf(f: Field): Byte {
    match f
    case OriginF(_) => ORIGIN_KEY
    case SeqF(_) => SEQ_KEY
    case TtlF(_) => TTL_KEY
    case DataF(_) => DATA_KEY
    case NonceF(_) => NONCE_KEY
  }

  /** The value of `f` reads back at `p`, ending at `next`. */
  predicate ValueReads(buf: Bytes, p: nat, f: Field, next: nat) {
    match f
    case OriginF(b) => DecodeBytes(buf, p) == Success((b, next))
    case SeqF(n) => DecodeVarint(buf, p) == Success((n, next))
    case TtlF(n) => DecodeVarint(buf, p) == Success((n, next))
    case DataF(b) => DecodeBytes(buf, p) == Success((b, next))
    case NonceF(b) => DecodeBytes(buf, p) == Success((b, next))
  }

  /** The bytes of an encoded field read back as its key and its value. */
  lemma EncodedFieldReads(buf: Bytes, pos: nat, f: Field)
    requires At(buf, pos, EncodeOne(f))
    ensures DecodeVarint(buf, pos) == Success((KeyOf(f), pos + 1))
    ensures ValueReads(buf, pos + 1, f, pos + |EncodeOne(f)|)
  {
    match f
    case OriginF(b) => KeyedBytesRead(buf, pos, ORIGIN_KEY, b);
    case SeqF(n) => KeyedVarintRead(buf, pos, SEQ_KEY, n);
    case TtlF(n) => KeyedVarintRead(buf, pos, TTL_KEY, n);
    case DataF(b) => KeyedBytesRead(buf, pos, DATA_KEY, b);
    case NonceF(b) => KeyedBytesRead(buf, pos, NONCE_KEY, b);
  }

  /** A field whose key and value read back is applied to the envelope. */
  lemma ReadField(buf: Bytes, pos: nat, acc: Envelope, f: Field, next: nat)
    requires DecodeVarint(buf, pos) == Success((KeyOf(f), pos + 1))
    requires ValueReads(buf, pos + 1, f, next)
    ensures DecodeField(buf, pos, acc) == Success((Apply(acc, f), next))
  {
    SmallFieldNumber(KeyOf(f));
  }

  /** One decode step reads back one encoded field. */
  lemma DecodeOne(buf: Bytes, pos: nat, acc: Envelope, f: Field)
    requires At(buf, pos, EncodeOne(f))
    ensures DecodeField(buf, pos, acc) == Success((Apply(acc, f), pos + |EncodeOne(f)|))
  {
    EncodedFieldReads(buf, pos, f);
    ReadField(buf, pos, acc, f, pos + |EncodeOne(f)|);
  }

  /** The decode loop reads back any encoded field list, one field at a time. */
  lemma {:induction false} DecodeAll(buf: Bytes, pos: nat, end: nat, acc: Envelope, fs: seq<Field>)
    requires At(buf, pos, EncodeAll(fs)) && end == pos + |EncodeAll(fs)|
    ensures DecodeFields(buf, pos, end, acc) == Success((ApplyAll(acc, fs), end))
    decreases |fs|
  {
    if |fs| > 0 {
      AtConcat(buf, pos, EncodeOne(fs[0]), EncodeAll(fs[1..]));
      DecodeOne(buf, pos, acc, fs[0]);
      var next := pos + |EncodeOne(fs[0])|;
      DecodeFieldsStep(buf, pos, end, acc, Apply(acc, fs[0]), next);
      DecodeAll(buf, next, end, Apply(acc, fs[0]), fs[1..]);
    }
  }

  /** `Decode` keeps the envelope the decode loop over the whole buffer builds. */
  lemma DecodeOfFields(buf: Bytes, env: Envelope, next: nat)
    requires DecodeFields(buf, 0, |buf|, EmptyEnvelope) == Success((env, next))
    ensures Decode(buf) == Success(env)
  {
  }

  lemma DecodeWhole(buf: Bytes, fs: seq<Field>)
    requires buf == EncodeAll(fs)
    ensures Decode(buf) == Success(ApplyAll(EmptyEnvelope, fs))
  {
    AtSuffix(buf, 0);
    assert buf[0..] == buf;
    DecodeAll(buf, 0, |buf|, EmptyEnvelope, fs);
  }

  /** `decode(encode(m))` reproduces the defined fields of `m` and the defaults for the rest. */
  lemma DecodeEncode(m: Message)
    ensures Decode(Encode(m)) == Success(Decoded(m))
  {
    EncodeIsFieldList(m);
    DecodeWhole(Encode(m), FieldsOf(m));
    ApplyFieldsOf(EmptyEnvelope, m);
  }

  /** A field repeated on the wire keeps the value of its last occurrence. */
  lemma LastOccurrenceWins(m1: Message, m2: Message)
    ensures Decode(Encode(m1) + Encode(m2)) == Success(Envelope(
      if m2.origin.Some? then m2.origin else m1.origin,
      m2.sequence.GetOr(m1.sequence.GetOr(0)), m2.ttl.GetOr(m1.ttl.GetOr(0)),
      if m2.data.Some? then m2.data else m1.data,
      if m2.nonce.Some? then m2.nonce else m1.nonce))
  {
    EncodeIsFieldList(m1);
    EncodeIsFieldList(m2);
    EncodeAllConcat(FieldsOf(m1), FieldsOf(m2));
    DecodeWhole(Encode(m1) + Encode(m2), FieldsOf(m1) + FieldsOf(m2));
    ApplyAllConcat(EmptyEnvelope, FieldsOf(m1), FieldsOf(m2));
    ApplyFieldsOf(EmptyEnvelope, m1);
    ApplyFieldsOf(Decoded(m1), m2);
  }

  /** A key whose field number is not 1..5 leaves the envelope alone and skips the value. */
  lemma DecodeFieldSkip(buf: Bytes, pos: nat, acc: Envelope, prefix: nat, p: nat, wireType: nat, next: nat)
    requires DecodeVarint(buf, pos) == Success((prefix, p))
    requires FieldNumber(prefix) !in {1, 2, 3, 4, 5} && WireType(prefix) == wireType
    requires Skip(wireType, buf, p) == Success(next)
    ensures DecodeField(buf, pos, acc) == Success((acc, next))
  {
  }

  /** A field whose number is unknown (6 to 15) leaves the envelope alone and skips its value. */
  lemma SkipUnknownField(buf: Bytes, pos: nat, acc: Envelope, field: nat, wireType: nat, next: nat)
    requires 6 <= field < 16 && wireType < 8
    requires At(buf, pos, [KeyByte(field, wireType)]) && Skip(wireType, buf, pos + 1) == Success(next)
    ensures DecodeField(buf, pos, acc) == Success((acc, next))
  {
    var h := KeyByte(field, wireType);
    KeyByteFields(field, wireType);
    DecodeKeyByte(buf, pos, h);
    DecodeFieldSkip(buf, pos, acc, h, pos + 1, wireType, next);
  }

  /** An unknown varint field in front of an encoding is skipped. */
  lemma UnknownFieldSkipped(field: nat, n: nat, m: Message)
    requires 6 <= field < 16
    ensures Decode([KeyByte(field, VARINT)] + EncodeVarint(n) + Encode(m)) == Success(Decoded(m))
  {
    var head := [KeyByte(field, VARINT)] + EncodeVarint(n);
    var buf := head + Encode(m);
    AtSuffix(buf, 0);
    assert buf[0..] == buf;
    AtConcat(buf, 0, head, Encode(m));
    AtConcat(buf, 0, [KeyByte(field, VARINT)], EncodeVarint(n));
    SkipVarint(buf, 1, n);
    SkipUnknownField(buf, 0, EmptyEnvelope, field, VARINT, 1 + VarintLength(n));
    assert |head| == 1 + VarintLength(n);
    EncodeIsFieldList(m);
    DecodeAll(buf, |head|, |buf|, EmptyEnvelope, FieldsOf(m));
    DecodeFieldsStep(buf, 0, |buf|, EmptyEnvelope, EmptyEnvelope, |head|);
    ApplyFieldsOf(EmptyEnvelope, m);
    DecodeOfFields(buf, Decoded(m), |buf|);
  }
}
