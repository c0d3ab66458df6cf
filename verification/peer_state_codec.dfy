/**
 * The generated protocol-buffers codec of `PeerState`: an optional boolean,
 * three repeated byte strings and an optional byte string.
 */
module PeerStateCodec {
  import opened Wrappers
  import opened Wire

  /** The three repeated byte-string fields. */
  datatype List = LookingUp | Announcing | Connected

  /**
   * The object handed to `encode`. A list element that is `None` is not
   * `defined` and is skipped; a list that is not `defined` encodes like an
   * empty one, so both are the empty sequence here.
   */
  datatype PeerStateMsg = PeerStateMsg(
    ephemeral: Option<bool>,
    lookingup: seq<Option<Bytes>>,
    announcing: seq<Option<Bytes>>,
    connected: seq<Option<Bytes>>,
    userData: Option<Bytes>)

  /** The object `decode` returns. */
  datatype PeerState = PeerState(
    ephemeral: bool,
    lookingup: seq<Bytes>,
    announcing: seq<Bytes>,
    connected: seq<Bytes>,
    userData: Option<Bytes>)

  const EPHEMERAL_KEY: Byte := 8
  const USER_DATA_KEY: Byte := 42

  function ListKey(l: List): Byte {
    match l
    case LookingUp => 18
    case Announcing => 26
    case Connected => 34
  }

  lemma KeysAreFieldKeys()
    ensures EPHEMERAL_KEY == KeyByte(1, VARINT) && ListKey(LookingUp) == KeyByte(2, LENGTH_DELIMITED)
    ensures ListKey(Announcing) == KeyByte(3, LENGTH_DELIMITED) && ListKey(Connected) == KeyByte(4, LENGTH_DELIMITED)
    ensures USER_DATA_KEY == KeyByte(5, LENGTH_DELIMITED)
  {
  }

  function ListOf(s: PeerStateMsg, l: List): seq<Option<Bytes>> {
    match l
    case LookingUp => s.lookingup
    case Announcing => s.announcing
    case Connected => s.connected
  }

  /** `s` with `ys` pushed onto the end of its list `l`. */
  function Extend(s: PeerState, l: List, ys: seq<Bytes>): PeerState {
    match l
    case LookingUp => s.(lookingup := s.lookingup + ys)
    case Announcing => s.(announcing := s.announcing + ys)
    case Connected => s.(connected := s.connected + ys)
  }

  /** The `defined` elements of a list, in order. */
  function Present(xs: seq<Option<Bytes>>): seq<Bytes>
    decreases |xs|
  {
    if |xs| == 0 then [] else (if xs[0].Some? then [xs[0].value] else []) + Present(xs[1..])
  }

  /** What `decode` starts from: not ephemeral, empty lists, no user data. */
  const EmptyPeerState := PeerState(false, [], [], [], None)

  /** The object `decode(encode(s))` should give. */
  function Decoded(s: PeerStateMsg): PeerState {
    PeerState(s.ephemeral.GetOr(false), Present(s.lookingup), Present(s.announcing),
      Present(s.connected), s.userData)
  }

  // ---------------------------------------------------------------- encoding

  /** A repeated field: one key byte and byte string per `defined` element, in list order. */
  function Repeated(key: Byte, xs: seq<Option<Bytes>>): Bytes
    decreases |xs|
  {
    if |xs| == 0 then [] else BytesField(key, xs[0]) + Repeated(key, xs[1..])
  }

  function RepeatedLength(xs: seq<Option<Bytes>>): nat
    decreases |xs|
  {
    if |xs| == 0 then 0 else BytesFieldLength(xs[0]) + RepeatedLength(xs[1..])
  }

  /** `encodingLength`. */
  function EncodingLength(s: PeerStateMsg): nat {
    BoolFieldLength(s.ephemeral) + RepeatedLength(s.lookingup) + RepeatedLength(s.announcing)
    + RepeatedLength(s.connected) + BytesFieldLength(s.userData)
  }

  /** `encode`: ephemeral, then the three lists, then the user data. */
  function Encode(s: PeerStateMsg): Bytes {
    BoolField(EPHEMERAL_KEY, s.ephemeral) + (Repeated(ListKey(LookingUp), s.lookingup)
    + (Repeated(ListKey(Announcing), s.announcing) + (Repeated(ListKey(Connected), s.connected)
    + BytesField(USER_DATA_KEY, s.userData))))
  }

  // ---------------------------------------------------------------- decoding

  /** The `switch (tag)` of `decode`: lists grow by one element, the others are overwritten. */
  function ReadValue(buf: Bytes, prefix: nat, p: nat, acc: PeerState): (r: Result<(PeerState, nat), DecodeError>)
    ensures r.Success? ==> p < r.value.1
  {
    var field := FieldNumber(prefix);
    if field == 1 then
      var v := DecodeBool(buf, p);
      Success((acc.(ephemeral := v.0), v.1))
    else if 2 <= field <= 4 then
      var l := if field == 2 then LookingUp else if field == 3 then Announcing else Connected;
      match DecodeBytes(buf, p)
      case Failure(e) => Failure(e)
      case Success(v) => Success((Extend(acc, l, [v.0]), v.1))
    else if field == 5 then
      match DecodeBytes(buf, p)
      case Failure(e) => Failure(e)
      case Success(v) => Success((acc.(userData := Some(v.0)), v.1))
    else
      match Skip(WireType(prefix), buf, p)
      case Failure(e) => Failure(e)
      case Success(next) => Success((acc, next))
  }

  function DecodeField(buf: Bytes, pos: nat, acc: PeerState): (r: Result<(PeerState, nat), DecodeError>)
    ensures r.Success? ==> pos < r.value.1
  {
    match DecodeVarint(buf, pos)
    case Failure(e) => Failure(e)
    case Success(key) => ReadValue(buf, key.0, key.1, acc)
  }

  function DecodeFields(buf: Bytes, pos: nat, end: nat, acc: PeerState): (r: Result<(PeerState, nat), DecodeError>)
    ensures r.Success? ==> pos <= r.value.1
    decreases end - pos
  {
    if end <= pos then Success((acc, pos))
    else
      match DecodeField(buf, pos, acc)
      case Failure(e) => Failure(e)
      case Success(step) => DecodeFields(buf, step.1, end, step.0)
  }

  /** `decode(buf, offset, end)`: the state and `decode.bytes`. */
  function DecodeRange(buf: Bytes, offset: Option<nat>, end: Option<nat>): (r: Result<(PeerState, nat), DecodeError>)
    ensures (offset.GetOr(0) > |buf| || end.GetOr(0) > |buf|) ==> r == Failure(InvalidMessage)
  {
    var start := RangeStart(offset);
    var stop := RangeStop(buf, end);
    if !(stop <= |buf| && start <= |buf|) then Failure(InvalidMessage)
    else
      match DecodeFields(buf, start, stop, EmptyPeerState)
      case Failure(e) => Failure(e)
      case Success(p) => Success((p.0, p.1 - start))
  }

  function Decode(buf: Bytes): Result<PeerState, DecodeError> {
    match DecodeRange(buf, None, None)
    case Failure(e) => Failure(e)
    case Success(p) => Success(p.0)
  }

  // -------------------------------------------------------------- properties

  /** One field as it occurs on the wire. */
  datatype Field = EphemeralF(v: bool) | ListF(list: List, b: Bytes) | UserDataF(b: Bytes)

  function EncodeOne(f: Field): Bytes {
    match f
    case EphemeralF(v) => BoolField(EPHEMERAL_KEY, Some(v))
    case ListF(l, b) => BytesField(ListKey(l), Some(b))
    case UserDataF(b) => BytesField(USER_DATA_KEY, Some(b))
  }

  function Apply(acc: PeerState, f: Field): PeerState {
    match f
    case EphemeralF(v) => acc.(ephemeral := v)
    case ListF(l, b) => Extend(acc, l, [b])
    case UserDataF(b) => acc.(userData := Some(b))
  }

  /** The fields a list contributes: one per `defined` element. */
  function ListFields(l: List, xs: seq<Option<Bytes>>): seq<Field>
    decreases |xs|
  {
    if |xs| == 0 then [] else (if xs[0].Some? then [ListF(l, xs[0].value)] else []) + ListFields(l, xs[1..])
  }

  /** The fields of `s`, in the order `encode` writes them. */
  function FieldsOf(s: PeerStateMsg): seq<Field> {
    (if s.ephemeral.Some? then [EphemeralF(s.ephemeral.value)] else [])
    + (ListFields(LookingUp, s.lookingup) + (ListFields(Announcing, s.announcing)
    + (ListFields(Connected, s.connected)
    + (if s.userData.Some? then [UserDataF(s.userData.value)] else []))))
  }

  lemma {:induction false} RepeatedIsFieldList(l: List, xs: seq<Option<Bytes>>)
    ensures Repeated(ListKey(l), xs) == Concat(EncodeOne, ListFields(l, xs))
    decreases |xs|
  {
    if |xs| > 0 {
      var head := if xs[0].Some? then [ListF(l, xs[0].value)] else [];
      RepeatedIsFieldList(l, xs[1..]);
      ConcatAppend(EncodeOne, head, ListFields(l, xs[1..]));
      ConcatAtMostOne(EncodeOne, head);
    }
  }

  lemma {:induction false} ApplyListFields(acc: PeerState, l: List, xs: seq<Option<Bytes>>)
    ensures Fold(Apply, acc, ListFields(l, xs)) == Extend(acc, l, Present(xs))
    decreases |xs|
  {
    if |xs| > 0 {
      var head := if xs[0].Some? then [ListF(l, xs[0].value)] else [];
      var acc' := Fold(Apply, acc, head);
      FoldAppend(Apply, acc, head, ListFields(l, xs[1..]));
      ApplyListFields(acc', l, xs[1..]);
      if xs[0].Some? {
        Singleton(EncodeOne, Apply, ListF(l, xs[0].value));
        assert [xs[0].value] + Present(xs[1..]) == Present(xs);
        match l
        case LookingUp => assert acc.lookingup + [xs[0].value] + Present(xs[1..]) == acc.lookingup + Present(xs);
        case Announcing => assert acc.announcing + [xs[0].value] + Present(xs[1..]) == acc.announcing + Present(xs);
        case Connected => assert acc.connected + [xs[0].value] + Present(xs[1..]) == acc.connected + Present(xs);
      } else {
        assert Present(xs) == Present(xs[1..]);
      }
    } else {
      match l
      case LookingUp => assert acc.lookingup + [] == acc.lookingup;
      case Announcing => assert acc.announcing + [] == acc.announcing;
      case Connected => assert acc.connected + [] == acc.connected;
    }
  }

  /** `encode` writes exactly the field list of `s`. */
  lemma EncodeIsFieldList(s: PeerStateMsg)
    ensures Encode(s) == Concat(EncodeOne, FieldsOf(s))
  {
    var o1 := if s.ephemeral.Some? then [EphemeralF(s.ephemeral.value)] else [];
    var o2 := ListFields(LookingUp, s.lookingup);
    var o3 := ListFields(Announcing, s.announcing);
    var o4 := ListFields(Connected, s.connected);
    var o5 := if s.userData.Some? then [UserDataF(s.userData.value)] else [];
    ConcatAtMostOne(EncodeOne, o1);
    ConcatAtMostOne(EncodeOne, o5);
    assert Concat(EncodeOne, o1) == BoolField(EPHEMERAL_KEY, s.ephemeral);
    assert Concat(EncodeOne, o5) == BytesField(USER_DATA_KEY, s.userData);
    RepeatedIsFieldList(LookingUp, s.lookingup);
    RepeatedIsFieldList(Announcing, s.announcing);
    RepeatedIsFieldList(Connected, s.connected);
    ConcatFive(EncodeOne, o1, o2, o3, o4, o5);
  }

  /** Reading the field list of `s` over `acc` overwrites the scalars and appends to the lists. */
  lemma ApplyFieldsOf(acc: PeerState, s: PeerStateMsg)
    ensures Fold(Apply, acc, FieldsOf(s)) == PeerState(
      s.ephemeral.GetOr(acc.ephemeral),
      acc.lookingup + Present(s.lookingup),
      acc.announcing + Present(s.announcing),
      acc.connected + Present(s.connected),
      if s.userData.Some? then s.userData else acc.userData)
  {
    var o1 := if s.ephemeral.Some? then [EphemeralF(s.ephemeral.value)] else [];
    var o2 := ListFields(LookingUp, s.lookingup);
    var o3 := ListFields(Announcing, s.announcing);
    var o4 := ListFields(Connected, s.connected);
    var o5 := if s.userData.Some? then [UserDataF(s.userData.value)] else [];
    FoldFive(Apply, acc, o1, o2, o3, o4, o5);
    FoldAtMostOne(Apply, acc, o1);
    var a1 := Fold(Apply, acc, o1);
    assert a1 == acc.(ephemeral := s.ephemeral.GetOr(acc.ephemeral));
    ApplyListFields(a1, LookingUp, s.lookingup);
    var a2 := Extend(a1, LookingUp, Present(s.lookingup));
    ApplyListFields(a2, Announcing, s.announcing);
    var a3 := Extend(a2, Announcing, Present(s.announcing));
    ApplyListFields(a3, Connected, s.connected);
    var a4 := Extend(a3, Connected, Present(s.connected));
    FoldAtMostOne(Apply, a4, o5);
  }

  /** Reading the field list of `s` from the defaults gives `Decoded(s)`. */
  lemma ApplyFieldsOfEmpty(s: PeerStateMsg)
    ensures Fold(Apply, EmptyPeerState, FieldsOf(s)) == Decoded(s)
  {
    ApplyFieldsOf(EmptyPeerState, s);
    assert [] + Present(s.lookingup) == Present(s.lookingup);
    assert [] + Present(s.announcing) == Present(s.announcing);
    assert [] + Present(s.connected) == Present(s.connected);
  }

  lemma DecodeFieldsStep(buf: Bytes, pos: nat, end: nat, acc: PeerState, acc': PeerState, next: nat)
    requires pos < end && DecodeField(buf, pos, acc) == Success((acc', next))
    ensures DecodeFields(buf, pos, end, acc) == DecodeFields(buf, next, end, acc')
  {
  }

  function KeyOf(f: Field): Byte {
    match f
    case EphemeralF(_) => EPHEMERAL_KEY
    case ListF(l, _) => ListKey(l)
    case UserDataF(_) => USER_DATA_KEY
  }

  /** The value of `f` reads back at `p`, ending at `next`. */
  predicate ValueReads(buf: Bytes, p: nat, f: Field, next: nat) {
    match f
    case EphemeralF(v) => DecodeBool(buf, p) == (v, next)
    case ListF(_, b) => DecodeBytes(buf, p) == Success((b, next))
    case UserDataF(b) => DecodeBytes(buf, p) == Success((b, next))
  }

  /** The bytes of an encoded field read back as its key and its value. */
  lemma EncodedFieldReads(buf: Bytes, pos: nat, f: Field)
    requires At(buf, pos, EncodeOne(f))
    ensures DecodeVarint(buf, pos) == Success((KeyOf(f), pos + 1))
    ensures ValueReads(buf, pos + 1, f, pos + |EncodeOne(f)|)
  {
    match f
    case EphemeralF(v) => KeyedBoolRead(buf, pos, EPHEMERAL_KEY, v);
    case ListF(l, b) => KeyedBytesRead(buf, pos, ListKey(l), b);
    case UserDataF(b) => KeyedBytesRead(buf, pos, USER_DATA_KEY, b);
  }

  /** A field whose key and value read back is applied to the state. */
  lemma ReadField(buf: Bytes, pos: nat, acc: PeerState, f: Field, next: nat)
    requires DecodeVarint(buf, pos) == Success((KeyOf(f), pos + 1))
    requires ValueReads(buf, pos + 1, f, next)
    ensures DecodeField(buf, pos, acc) == Success((Apply(acc, f), next))
  {
    SmallFieldNumber(KeyOf(f));
  }

  /** One decode step reads back one encoded field. */
  lemma DecodeOne(buf: Bytes, pos: nat, acc: PeerState, f: Field)
    requires At(buf, pos, EncodeOne(f))
    ensures DecodeField(buf, pos, acc) == Success((Apply(acc, f), pos + |EncodeOne(f)|))
  {
    EncodedFieldReads(buf, pos, f);
    ReadField(buf, pos, acc, f, pos + |EncodeOne(f)|);
  }

  /** The decode loop reads back any encoded field list, one field at a time. */
  lemma {:induction false} DecodeAll(buf: Bytes, pos: nat, end: nat, acc: PeerState, fs: seq<Field>)
    requires At(buf, pos, Concat(EncodeOne, fs)) && end == pos + |Concat(EncodeOne, fs)|
    ensures DecodeFields(buf, pos, end, acc) == Success((Fold(Apply, acc, fs), end))
    decreases |fs|
  {
    if |fs| > 0 {
      AtConcat(buf, pos, EncodeOne(fs[0]), Concat(EncodeOne, fs[1..]));
      DecodeOne(buf, pos, acc, fs[0]);
      var next := pos + |EncodeOne(fs[0])|;
      DecodeFieldsStep(buf, pos, end, acc, Apply(acc, fs[0]), next);
      DecodeAll(buf, next, end, Apply(acc, fs[0]), fs[1..]);
    }
  }

  /** `decode(buf, offset, end)` keeps what the decode loop over that range builds. */
  lemma DecodeRangeOfFields(buf: Bytes, start: nat, stop: nat, st: PeerState)
    requires 0 < stop <= |buf| && start <= stop
    requires DecodeFields(buf, start, stop, EmptyPeerState) == Success((st, stop))
    ensures DecodeRange(buf, Some(start), Some(stop)) == Success((st, stop - start))
  {
  }

  /** `decode(buf)` keeps what the decode loop over the whole buffer builds. */
  lemma DecodeOfFields(buf: Bytes, st: PeerState, next: nat)
    requires DecodeFields(buf, 0, |buf|, EmptyPeerState) == Success((st, next))
    ensures Decode(buf) == Success(st)
  {
  }

  /**
   * An encoded state embedded at `start` of a larger buffer, as a packet
   * carries it, decodes to `Decoded(s)` and reports its own length as
   * `decode.bytes`.
   */
  lemma DecodeEmbedded(buf: Bytes, start: nat, s: PeerStateMsg)
    requires 0 < start && At(buf, start, Encode(s))
    ensures DecodeRange(buf, Some(start), Some(start + |Encode(s)|)) == Success((Decoded(s), |Encode(s)|))
  {
    var stop := start + |Encode(s)|;
    EncodeIsFieldList(s);
    DecodeAll(buf, start, stop, EmptyPeerState, FieldsOf(s));
    ApplyFieldsOfEmpty(s);
    DecodeRangeOfFields(buf, start, stop, Decoded(s));
  }

  /** `decode(encode(s))` gives the defined fields of `s` and the defaults for the rest. */
  lemma DecodeEncode(s: PeerStateMsg)
    ensures Decode(Encode(s)) == Success(Decoded(s))
  {
    var buf := Encode(s);
    AtSuffix(buf, 0);
    assert buf[0..] == buf;
    EncodeIsFieldList(s);
    DecodeAll(buf, 0, |buf|, EmptyPeerState, FieldsOf(s));
    ApplyFieldsOfEmpty(s);
    DecodeOfFields(buf, Decoded(s), |buf|);
  }

  /**
   * Repeated fields decode in wire order: two encodings back to back give
   * the lists of the first followed by those of the second, while the
   * scalar fields keep their last value.
   */
  lemma RepeatedInWireOrder(a: PeerStateMsg, b: PeerStateMsg)
    ensures Decode(Encode(a) + Encode(b)) == Success(PeerState(
      b.ephemeral.GetOr(a.ephemeral.GetOr(false)),
      Present(a.lookingup) + Present(b.lookingup),
      Present(a.announcing) + Present(b.announcing),
      Present(a.connected) + Present(b.connected),
      if b.userData.Some? then b.userData else a.userData))
  {
    var buf := Encode(a) + Encode(b);
    AtSuffix(buf, 0);
    assert buf[0..] == buf;
    EncodeIsFieldList(a);
    EncodeIsFieldList(b);
    ConcatAppend(EncodeOne, FieldsOf(a), FieldsOf(b));
    DecodeAll(buf, 0, |buf|, EmptyPeerState, FieldsOf(a) + FieldsOf(b));
    FoldAppend(Apply, EmptyPeerState, FieldsOf(a), FieldsOf(b));
    ApplyFieldsOfEmpty(a);
    ApplyFieldsOf(Decoded(a), b);
    DecodeOfFields(buf, Fold(Apply, Decoded(a), FieldsOf(b)), |buf|);
  }

  /** `encodingLength` is the number of bytes `encode` writes. */
  lemma EncodingLengthExact(s: PeerStateMsg)
    ensures |Encode(s)| == EncodingLength(s)
  {
    RepeatedLengthExact(ListKey(LookingUp), s.lookingup);
    RepeatedLengthExact(ListKey(Announcing), s.announcing);
    RepeatedLengthExact(ListKey(Connected), s.connected);
  }

  lemma {:induction false} RepeatedLengthExact(key: Byte, xs: seq<Option<Bytes>>)
    ensures |Repeated(key, xs)| == RepeatedLength(xs)
    decreases |xs|
  {
    if |xs| > 0 {
      RepeatedLengthExact(key, xs[1..]);
    }
  }
}
