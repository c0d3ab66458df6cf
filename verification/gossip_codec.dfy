/**
 * The generated protocol-buffers codecs of `Map_string_PeerState` (one entry
 * of a packet's `bootstrap` map) and `GossipPacket`. Both have a required
 * field: `encode` and `encodingLength` throw without it, and `decode` throws
 * when the field never occurs on the wire.
 */
module GossipCodec {
  import opened Wrappers
  import opened Wire
  import PS = PeerStateCodec

  /** Why `encode` or `encodingLength` throws. */
  datatype EncodeError = TypeRequired | KeyRequired

  /** An optional embedded `PeerState`: its key byte, its length as a varint, then its encoding. */
  function StateField(key: Byte, v: Option<PS.PeerStateMsg>): Bytes {
    match v
    case None => []
    case Some(s) => [key] + EncodeBytes(PS.Encode(s))
  }

  function StateFieldLength(v: Option<PS.PeerStateMsg>): nat {
    match v
    case None => 0
    case Some(s) => 1 + VarintLength(PS.EncodingLength(s)) + PS.EncodingLength(s)
  }

  /** What decoding an embedded state gives back. */
  function DecodedState(v: Option<PS.PeerStateMsg>): Option<PS.PeerState> {
    match v
    case None => None
    case Some(s) => Some(PS.Decoded(s))
  }

  lemma StateFieldLengthExact(v: Option<PS.PeerStateMsg>)
    ensures |StateField(VALUE_KEY, v)| == StateFieldLength(v)
    ensures |StateField(STATE_KEY, v)| == StateFieldLength(v)
  {
    if v.Some? {
      PS.EncodingLengthExact(v.value);
    }
  }

  /**
   * An embedded `PeerState` at `p`: its length as a varint, then `decode`
   * over the following bytes; the value ends where `decode.bytes` says.
   */
  function ReadEmbeddedState(buf: Bytes, p: nat): (r: Result<(PS.PeerState, nat), DecodeError>)
    ensures r.Success? ==> p < r.value.1
  {
    match DecodeVarint(buf, p)
    case Failure(e) => Failure(e)
    case Success(len) =>
      match PS.DecodeRange(buf, Some(len.1), Some(len.1 + len.0))
      case Failure(e) => Failure(e)
      case Success(st) => Success((st.0, len.1 + st.1))
  }

  // ================================================= Map_string_PeerState

  const KEY_KEY: Byte := 10
  const VALUE_KEY: Byte := 18

  /**
   * The object handed to `Map_string_PeerState.encode`. The key is a string,
   * kept as its UTF-8 bytes; keys are taken to be valid UTF-8 and not
   * `__proto__`, the cases in which the decoded string names its own object
   * property.
   */
  datatype EntryMsg = EntryMsg(key: Option<Bytes>, value: Option<PS.PeerStateMsg>)

  /** The object `Map_string_PeerState.decode` returns. */
  datatype Entry = Entry(key: Bytes, value: Option<PS.PeerState>)

  /** The encoding of an entry whose key is defined. */
  function EntryBody(key: Bytes, value: Option<PS.PeerStateMsg>): Bytes {
    BytesField(KEY_KEY, Some(key)) + StateField(VALUE_KEY, value)
  }

  /** `Map_string_PeerState.encode`: throws "key is required" without a key. */
  function EncodeEntry(e: EntryMsg): Result<Bytes, EncodeError> {
    if e.key.None? then Failure(KeyRequired) else Success(EntryBody(e.key.value, e.value))
  }

  /** `Map_string_PeerState.encodingLength`: throws like `encode`. */
  function EntryLength(e: EntryMsg): Result<nat, EncodeError> {
    if e.key.None? then Failure(KeyRequired)
    else Success(BytesFieldLength(e.key) + StateFieldLength(e.value))
  }

  /** The loop state of `decode`: the entry so far and whether the key was seen (`found0`). */
  datatype EntryAcc = EntryAcc(entry: Entry, found: bool)

  const EmptyEntry := EntryAcc(Entry([], None), false)

  function ReadEntryValue(buf: Bytes, prefix: nat, p: nat, acc: EntryAcc): (r: Result<(EntryAcc, nat), DecodeError>)
    ensures r.Success? ==> p < r.value.1
  {
    var field := FieldNumber(prefix);
    if field == 1 then
      match DecodeBytes(buf, p)
      case Failure(e) => Failure(e)
      case Success(v) => Success((EntryAcc(acc.entry.(key := v.0), true), v.1))
    else if field == 2 then
      match ReadEmbeddedState(buf, p)
      case Failure(e) => Failure(e)
      case Success(st) => Success((acc.(entry := acc.entry.(value := Some(st.0))), st.1))
    else
      match Skip(WireType(prefix), buf, p)
      case Failure(e) => Failure(e)
      case Success(next) => Success((acc, next))
  }

  function DecodeEntryField(buf: Bytes, pos: nat, acc: EntryAcc): (r: Result<(EntryAcc, nat), DecodeError>)
    ensures r.Success? ==> pos < r.value.1
  {
    match DecodeVarint(buf, pos)
    case Failure(e) => Failure(e)
    case Success(key) => ReadEntryValue(buf, key.0, key.1, acc)
  }

  function DecodeEntryFields(buf: Bytes, pos: nat, end: nat, acc: EntryAcc): (r: Result<(EntryAcc, nat), DecodeError>)
    ensures r.Success? ==> pos <= r.value.1
    decreases end - pos
  {
    if end <= pos then Success((acc, pos))
    else
      match DecodeEntryField(buf, pos, acc)
      case Failure(e) => Failure(e)
      case Success(step) => DecodeEntryFields(buf, step.1, end, step.0)
  }

  /** `Map_string_PeerState.decode(buf, offset, end)`: the entry and `decode.bytes`. */
  function DecodeEntryRange(buf: Bytes, offset: Option<nat>, end: Option<nat>): (r: Result<(Entry, nat), DecodeError>)
    ensures (offset.GetOr(0) > |buf| || end.GetOr(0) > |buf|) ==> r == Failure(InvalidMessage)
  {
    var start := RangeStart(offset);
    var stop := RangeStop(buf, end);
    if !(stop <= |buf| && start <= |buf|) then Failure(InvalidMessage)
    else
      match DecodeEntryFields(buf, start, stop, EmptyEntry)
      case Failure(e) => Failure(e)
      case Success(p) =>
        if !p.0.found then Failure(InvalidMessage) else Success((p.0.entry, p.1 - start))
  }

  function DecodeEntry(buf: Bytes): Result<Entry, DecodeError> {
    match DecodeEntryRange(buf, None, None)
    case Failure(e) => Failure(e)
    case Success(p) => Success(p.0)
  }

  /** An embedded entry at `p`, read like an embedded state. */
  function ReadEmbeddedEntry(buf: Bytes, p: nat): (r: Result<(Entry, nat), DecodeError>)
    ensures r.Success? ==> p < r.value.1
  {
    match DecodeVarint(buf, p)
    case Failure(e) => Failure(e)
    case Success(len) =>
      match DecodeEntryRange(buf, Some(len.1), Some(len.1 + len.0))
      case Failure(e) => Failure(e)
      case Success(en) => Success((en.0, len.1 + en.1))
  }

  // ========================================================= GossipPacket

  const TYPE_KEY: Byte := 8
  const PUBLIC_KEY_KEY: Byte := 18
  const STATE_KEY: Byte := 26
  const BOOTSTRAP_KEY: Byte := 34
  const USER_DATA_KEY: Byte := 42

  lemma KeysAreFieldKeys()
    ensures KEY_KEY == KeyByte(1, LENGTH_DELIMITED) && VALUE_KEY == KeyByte(2, LENGTH_DELIMITED)
    ensures TYPE_KEY == KeyByte(1, VARINT) && PUBLIC_KEY_KEY == KeyByte(2, LENGTH_DELIMITED)
    ensures STATE_KEY == KeyByte(3, LENGTH_DELIMITED) && BOOTSTRAP_KEY == KeyByte(4, LENGTH_DELIMITED)
    ensures USER_DATA_KEY == KeyByte(5, LENGTH_DELIMITED)
  {
  }

  /**
   * The object handed to `GossipPacket.encode`. `bootstrap` lists the
   * entries of the object in the order `Object.keys` yields them; an object
   * that is not `defined` encodes like an empty one.
   */
  datatype PacketMsg = PacketMsg(
    packetType: Option<nat>,
    publicKey: Option<Bytes>,
    state: Option<PS.PeerStateMsg>,
    bootstrap: seq<(Bytes, Option<PS.PeerStateMsg>)>,
    userData: Option<Bytes>)

  /** The object `GossipPacket.decode` returns. */
  datatype Packet = Packet(
    packetType: nat,
    publicKey: Option<Bytes>,
    state: Option<PS.PeerState>,
    bootstrap: map<Bytes, Option<PS.PeerState>>,
    userData: Option<Bytes>)

  /** The bootstrap entries, each as an embedded `Map_string_PeerState`. */
  function Entries(es: seq<(Bytes, Option<PS.PeerStateMsg>)>): Bytes
    decreases |es|
  {
    if |es| == 0 then [] else [BOOTSTRAP_KEY] + EncodeBytes(EntryBody(es[0].0, es[0].1)) + Entries(es[1..])
  }

  function EntriesLength(es: seq<(Bytes, Option<PS.PeerStateMsg>)>): nat
    decreases |es|
  {
    if |es| == 0 then 0
    else
      var len := BytesFieldLength(Some(es[0].0)) + StateFieldLength(es[0].1);
      1 + VarintLength(len) + len + EntriesLength(es[1..])
  }

  /** Everything `encode` writes after the type field. */
  function PacketBody(g: PacketMsg): Bytes {
    BytesField(PUBLIC_KEY_KEY, g.publicKey) + (StateField(STATE_KEY, g.state)
    + (Entries(g.bootstrap) + BytesField(USER_DATA_KEY, g.userData)))
  }

  /** `GossipPacket.encode`: throws "type is required" without a type. */
  function EncodePacket(g: PacketMsg): Result<Bytes, EncodeError> {
    if g.packetType.None? then Failure(TypeRequired)
    else Success(VarintField(TYPE_KEY, g.packetType) + PacketBody(g))
  }

  /** `GossipPacket.encodingLength`: throws like `encode`. */
  function PacketLength(g: PacketMsg): Result<nat, EncodeError> {
    if g.packetType.None? then Failure(TypeRequired)
    else Success(VarintFieldLength(g.packetType) + BytesFieldLength(g.publicKey)
      + StateFieldLength(g.state) + EntriesLength(g.bootstrap) + BytesFieldLength(g.userData))
  }

  /** The loop state of `decode`: the packet so far and whether the type was seen (`found0`). */
  datatype PacketAcc = PacketAcc(packet: Packet, found: bool)

  /** `decode` starts from type 1, no key, no state, an empty map and no user data. */
  const EmptyPacket := PacketAcc(Packet(1, None, None, map[], None), false)

  function ReadPacketValue(buf: Bytes, prefix: nat, p: nat, acc: PacketAcc): (r: Result<(PacketAcc, nat), DecodeError>)
    ensures r.Success? ==> p < r.value.1
  {
    var field := FieldNumber(prefix);
    if field == 1 then
      match DecodeVarint(buf, p)
      case Failure(e) => Failure(e)
      case Success(v) => Success((PacketAcc(acc.packet.(packetType := v.0), true), v.1))
    else if field == 2 then
      match DecodeBytes(buf, p)
      case Failure(e) => Failure(e)
      case Success(v) => Success((acc.(packet := acc.packet.(publicKey := Some(v.0))), v.1))
    else if field == 3 then
      match ReadEmbeddedState(buf, p)
      case Failure(e) => Failure(e)
      case Success(st) => Success((acc.(packet := acc.packet.(state := Some(st.0))), st.1))
    else if field == 4 then
      match ReadEmbeddedEntry(buf, p)
      case Failure(e) => Failure(e)
      case Success(en) =>
        var bootstrap := acc.packet.bootstrap[en.0.key := en.0.value];
        Success((acc.(packet := acc.packet.(bootstrap := bootstrap)), en.1))
    else if field == 5 then
      match DecodeBytes(buf, p)
      case Failure(e) => Failure(e)
      case Success(v) => Success((acc.(packet := acc.packet.(userData := Some(v.0))), v.1))
    else
      match Skip(WireType(prefix), buf, p)
      case Failure(e) => Failure(e)
      case Success(next) => Success((acc, next))
  }

  function DecodePacketField(buf: Bytes, pos: nat, acc: PacketAcc): (r: Result<(PacketAcc, nat), DecodeError>)
    ensures r.Success? ==> pos < r.value.1
  {
    match DecodeVarint(buf, pos)
    case Failure(e) => Failure(e)
    case Success(key) => ReadPacketValue(buf, key.0, key.1, acc)
  }

  function DecodePacketFields(buf: Bytes, pos: nat, end: nat, acc: PacketAcc): (r: Result<(PacketAcc, nat), DecodeError>)
    ensures r.Success? ==> pos <= r.value.1
    decreases end - pos
  {
    if end <= pos then Success((acc, pos))
    else
      match DecodePacketField(buf, pos, acc)
      case Failure(e) => Failure(e)
      case Success(step) => DecodePacketFields(buf, step.1, end, step.0)
  }

  /** `GossipPacket.decode(buf, offset, end)`: the packet and `decode.bytes`. */
  function DecodePacketRange(buf: Bytes, offset: Option<nat>, end: Option<nat>): (r: Result<(Packet, nat), DecodeError>)
    ensures (offset.GetOr(0) > |buf| || end.GetOr(0) > |buf|) ==> r == Failure(InvalidMessage)
  {
    var start := RangeStart(offset);
    var stop := RangeStop(buf, end);
    if !(stop <= |buf| && start <= |buf|) then Failure(InvalidMessage)
    else
      match DecodePacketFields(buf, start, stop, EmptyPacket)
      case Failure(e) => Failure(e)
      case Success(p) =>
        if !p.0.found then Failure(InvalidMessage) else Success((p.0.packet, p.1 - start))
  }

  function DecodePacket(buf: Bytes): Result<Packet, DecodeError> {
    match DecodePacketRange(buf, None, None)
    case Failure(e) => Failure(e)
    case Success(p) => Success(p.0)
  }

  // ======================================================= the bootstrap map

  /** Assigning the entries in order, as `obj.bootstrap[tmp.key] = tmp.value` does: a later key wins. */
  function Assign(m: map<Bytes, Option<PS.PeerState>>, es: seq<(Bytes, Option<PS.PeerStateMsg>)>): map<Bytes, Option<PS.PeerState>>
    decreases |es|
  {
    if |es| == 0 then m else Assign(m[es[0].0 := DecodedState(es[0].1)], es[1..])
  }

  /** The packet `decode(encode(g))` should give. */
  function Decoded(g: PacketMsg): Packet
    requires g.packetType.Some?
  {
    Packet(g.packetType.value, g.publicKey, DecodedState(g.state), Assign(map[], g.bootstrap), g.userData)
  }

  function Keys(es: seq<(Bytes, Option<PS.PeerStateMsg>)>): set<Bytes> {
    set i | 0 <= i < |es| :: es[i].0
  }

  predicate DistinctKeys(es: seq<(Bytes, Option<PS.PeerStateMsg>)>) {
    forall i, j :: 0 <= i < j < |es| ==> es[i].0 != es[j].0
  }

  /**
   * With the distinct keys of an object, the decoded map holds exactly the
   * keys of the entries, each with its own decoded value.
   */
  lemma {:induction false} AssignDistinct(m: map<Bytes, Option<PS.PeerState>>, es: seq<(Bytes, Option<PS.PeerStateMsg>)>)
    requires DistinctKeys(es)
    ensures Assign(m, es).Keys == m.Keys + Keys(es)
    ensures forall i :: 0 <= i < |es| ==> Assign(m, es)[es[i].0] == DecodedState(es[i].1)
    ensures forall k :: k in m && k !in Keys(es) ==> Assign(m, es)[k] == m[k]
    decreases |es|
  {
    if |es| > 0 {
      var m' := m[es[0].0 := DecodedState(es[0].1)];
      assert DistinctKeys(es[1..]) by {
        forall i, j | 0 <= i < j < |es[1..]| ensures es[1..][i].0 != es[1..][j].0 {
          assert es[1..][i] == es[i + 1] && es[1..][j] == es[j + 1];
        }
      }
      AssignDistinct(m', es[1..]);
      assert Keys(es) == {es[0].0} + Keys(es[1..]) by {
        forall k | k in Keys(es) ensures k in {es[0].0} + Keys(es[1..]) {
          var i :| 0 <= i < |es| && es[i].0 == k;
          if i > 0 { assert es[1..][i - 1] == es[i]; }
        }
        forall k | k in Keys(es[1..]) ensures k in Keys(es) {
          var i :| 0 <= i < |es[1..]| && es[1..][i].0 == k;
          assert es[i + 1] == es[1..][i];
        }
      }
      assert es[0].0 !in Keys(es[1..]) by {
        forall i | 0 <= i < |es[1..]| ensures es[1..][i].0 != es[0].0 {
          assert es[1..][i] == es[i + 1];
        }
      }
      forall i | 0 <= i < |es| ensures Assign(m, es)[es[i].0] == DecodedState(es[i].1) {
        if i > 0 {
          assert es[1..][i - 1] == es[i];
        }
      }
    }
  }

  // ================================================== entry codec properties

  /** One field of an entry as it occurs on the wire. */
  datatype EntryField = KeyF(b: Bytes) | ValueF(s: PS.PeerStateMsg)

  function EncodeEntryField(f: EntryField): Bytes {
    match f
    case KeyF(b) => BytesField(KEY_KEY, Some(b))
    case ValueF(s) => StateField(VALUE_KEY, Some(s))
  }

  function ApplyEntryField(acc: EntryAcc, f: EntryField): EntryAcc {
    match f
    case KeyF(b) => EntryAcc(acc.entry.(key := b), true)
    case ValueF(s) => acc.(entry := acc.entry.(value := Some(PS.Decoded(s))))
  }

  function ValueFields(v: Option<PS.PeerStateMsg>): seq<EntryField> {
    if v.Some? then [ValueF(v.value)] else []
  }

  function EntryKeyOf(f: EntryField): Byte {
    if f.KeyF? then KEY_KEY else VALUE_KEY
  }

  /** The value of `f` reads back at `p`, ending at `next`. */
  predicate EntryValueReads(buf: Bytes, p: nat, f: EntryField, next: nat) {
    match f
    case KeyF(b) => DecodeBytes(buf, p) == Success((b, next))
    case ValueF(s) => ReadEmbeddedState(buf, p) == Success((PS.Decoded(s), next))
  }

  /** The body of an embedded state at `pos` decodes to the decoded state. */
  lemma EmbeddedStateBody(buf: Bytes, pos: nat, key: Byte, s: PS.PeerStateMsg)
    requires At(buf, pos, [key] + EncodeBytes(PS.Encode(s)))
    ensures var e := PS.Encode(s); var q := pos + 1 + VarintLength(|e|);
      PS.DecodeRange(buf, Some(q), Some(q + |e|)) == Success((PS.Decoded(s), |e|))
  {
    NestedBodyAt(buf, pos, key, PS.Encode(s));
    PS.DecodeEmbedded(buf, pos + 1 + VarintLength(|PS.Encode(s)|), s);
  }

  /** The reader of an embedded state: a length, then `decode` over exactly that many bytes. */
  lemma ReadEmbeddedStateOf(buf: Bytes, p: nat, e: Bytes, st: PS.PeerState)
    requires DecodeVarint(buf, p) == Success((|e|, p + VarintLength(|e|)))
    requires PS.DecodeRange(buf, Some(p + VarintLength(|e|)), Some(p + VarintLength(|e|) + |e|)) == Success((st, |e|))
    ensures ReadEmbeddedState(buf, p) == Success((st, p + |EncodeBytes(e)|))
  {
  }

  /** An embedded state at `pos` reads back as its key and then the decoded state. */
  lemma EmbeddedStateReads(buf: Bytes, pos: nat, key: Byte, s: PS.PeerStateMsg)
    requires key < 128 && At(buf, pos, [key] + EncodeBytes(PS.Encode(s)))
    ensures DecodeVarint(buf, pos) == Success((key, pos + 1))
    ensures ReadEmbeddedState(buf, pos + 1) == Success((PS.Decoded(s), pos + 1 + |EncodeBytes(PS.Encode(s))|))
  {
    NestedHeaderRead(buf, pos, key, PS.Encode(s));
    EmbeddedStateBody(buf, pos, key, s);
    ReadEmbeddedStateOf(buf, pos + 1, PS.Encode(s), PS.Decoded(s));
  }

  lemma EntryValueFieldReads(buf: Bytes, pos: nat, s: PS.PeerStateMsg)
    requires At(buf, pos, EncodeEntryField(ValueF(s)))
    ensures DecodeVarint(buf, pos) == Success((VALUE_KEY, pos + 1))
    ensures EntryValueReads(buf, pos + 1, ValueF(s), pos + |EncodeEntryField(ValueF(s))|)
  {
    assert EncodeEntryField(ValueF(s)) == [VALUE_KEY] + EncodeBytes(PS.Encode(s));
    EmbeddedStateReads(buf, pos, VALUE_KEY, s);
  }

  lemma EncodedEntryFieldReads(buf: Bytes, pos: nat, f: EntryField)
    requires At(buf, pos, EncodeEntryField(f))
    ensures DecodeVarint(buf, pos) == Success((EntryKeyOf(f), pos + 1))
    ensures EntryValueReads(buf, pos + 1, f, pos + |EncodeEntryField(f)|)
  {
    if f.KeyF? {
      KeyedBytesRead(buf, pos, KEY_KEY, f.b);
    } else {
      EntryValueFieldReads(buf, pos, f.s);
    }
  }

  lemma ReadEntryField(buf: Bytes, pos: nat, acc: EntryAcc, f: EntryField, next: nat)
    requires DecodeVarint(buf, pos) == Success((EntryKeyOf(f), pos + 1))
    requires EntryValueReads(buf, pos + 1, f, next)
    ensures DecodeEntryField(buf, pos, acc) == Success((ApplyEntryField(acc, f), next))
  {
    if f.KeyF? {
      SmallFieldNumber(KEY_KEY);
    } else {
      SmallFieldNumber(VALUE_KEY);
    }
  }

  /** One decode step reads back one encoded field. */
  lemma DecodeOneEntryField(buf: Bytes, pos: nat, acc: EntryAcc, f: EntryField)
    requires At(buf, pos, EncodeEntryField(f))
    ensures DecodeEntryField(buf, pos, acc) == Success((ApplyEntryField(acc, f), pos + |EncodeEntryField(f)|))
  {
    EncodedEntryFieldReads(buf, pos, f);
    ReadEntryField(buf, pos, acc, f, pos + |EncodeEntryField(f)|);
  }

  lemma DecodeEntryFieldsStep(buf: Bytes, pos: nat, end: nat, acc: EntryAcc, acc': EntryAcc, next: nat)
    requires pos < end && DecodeEntryField(buf, pos, acc) == Success((acc', next))
    ensures DecodeEntryFields(buf, pos, end, acc) == DecodeEntryFields(buf, next, end, acc')
  {
  }

  lemma {:induction false} DecodeEntryAll(buf: Bytes, pos: nat, end: nat, acc: EntryAcc, fs: seq<EntryField>)
    requires At(buf, pos, Concat(EncodeEntryField, fs)) && end == pos + |Concat(EncodeEntryField, fs)|
    ensures DecodeEntryFields(buf, pos, end, acc) == Success((Fold(ApplyEntryField, acc, fs), end))
    decreases |fs|
  {
    if |fs| > 0 {
      AtConcat(buf, pos, EncodeEntryField(fs[0]), Concat(EncodeEntryField, fs[1..]));
      var next := pos + |EncodeEntryField(fs[0])|;
      DecodeOneEntryField(buf, pos, acc, fs[0]);
      DecodeEntryFieldsStep(buf, pos, end, acc, ApplyEntryField(acc, fs[0]), next);
      DecodeEntryAll(buf, next, end, ApplyEntryField(acc, fs[0]), fs[1..]);
    }
  }

  /** An entry body is the key field followed by the optional value field. */
  lemma EntryBodyIsFieldList(key: Bytes, value: Option<PS.PeerStateMsg>)
    ensures EntryBody(key, value) == Concat(EncodeEntryField, [KeyF(key)] + ValueFields(value))
    ensures Fold(ApplyEntryField, EmptyEntry, [KeyF(key)] + ValueFields(value))
      == EntryAcc(Entry(key, DecodedState(value)), true)
  {
    ConcatAppend(EncodeEntryField, [KeyF(key)], ValueFields(value));
    ConcatAtMostOne(EncodeEntryField, [KeyF(key)]);
    ConcatAtMostOne(EncodeEntryField, ValueFields(value));
    FoldAppend(ApplyEntryField, EmptyEntry, [KeyF(key)], ValueFields(value));
    FoldAtMostOne(ApplyEntryField, EmptyEntry, [KeyF(key)]);
    FoldAtMostOne(ApplyEntryField, ApplyEntryField(EmptyEntry, KeyF(key)), ValueFields(value));
  }

  /** `decode` over a range keeps what the loop builds, once the key has been seen. */
  lemma DecodeEntryRangeOfFields(buf: Bytes, start: nat, stop: nat, acc: EntryAcc)
    requires 0 < stop <= |buf| && start <= stop && acc.found
    requires DecodeEntryFields(buf, start, stop, EmptyEntry) == Success((acc, stop))
    ensures DecodeEntryRange(buf, Some(start), Some(stop)) == Success((acc.entry, stop - start))
  {
  }

  /** `decode(buf)` keeps what the loop over the whole buffer builds, and throws if the key never came. */
  lemma DecodeEntryOfFields(buf: Bytes, acc: EntryAcc, next: nat)
    requires DecodeEntryFields(buf, 0, |buf|, EmptyEntry) == Success((acc, next))
    ensures DecodeEntry(buf) == if acc.found then Success(acc.entry) else Failure(InvalidMessage)
  {
  }

  /** An encoded entry embedded at `start`, as a packet carries it, decodes to itself. */
  lemma DecodeEmbeddedEntry(buf: Bytes, start: nat, key: Bytes, value: Option<PS.PeerStateMsg>)
    requires 0 < start && At(buf, start, EntryBody(key, value))
    ensures DecodeEntryRange(buf, Some(start), Some(start + |EntryBody(key, value)|))
      == Success((Entry(key, DecodedState(value)), |EntryBody(key, value)|))
  {
    var stop := start + |EntryBody(key, value)|;
    EntryBodyIsFieldList(key, value);
    DecodeEntryAll(buf, start, stop, EmptyEntry, [KeyF(key)] + ValueFields(value));
    DecodeEntryRangeOfFields(buf, start, stop, EntryAcc(Entry(key, DecodedState(value)), true));
  }

  /** `decode(encode(e))` gives back the key and the decoded value. */
  lemma DecodeEncodeEntry(e: EntryMsg)
    requires e.key.Some?
    ensures EncodeEntry(e).Success?
    ensures DecodeEntry(EncodeEntry(e).value) == Success(Entry(e.key.value, DecodedState(e.value)))
  {
    var buf := EntryBody(e.key.value, e.value);
    AtSuffix(buf, 0);
    assert buf[0..] == buf;
    EntryBodyIsFieldList(e.key.value, e.value);
    DecodeEntryAll(buf, 0, |buf|, EmptyEntry, [KeyF(e.key.value)] + ValueFields(e.value));
    DecodeEntryOfFields(buf, EntryAcc(Entry(e.key.value, DecodedState(e.value)), true), |buf|);
  }

  /** The key is required on the wire too: an entry without its key field does not decode. */
  lemma EntryWithoutKeyRejected(value: Option<PS.PeerStateMsg>)
    ensures DecodeEntry(StateField(VALUE_KEY, value)) == Failure(InvalidMessage)
  {
    var buf := StateField(VALUE_KEY, value);
    AtSuffix(buf, 0);
    assert buf[0..] == buf;
    ConcatAtMostOne(EncodeEntryField, ValueFields(value));
    FoldAtMostOne(ApplyEntryField, EmptyEntry, ValueFields(value));
    DecodeEntryAll(buf, 0, |buf|, EmptyEntry, ValueFields(value));
    DecodeEntryOfFields(buf, Fold(ApplyEntryField, EmptyEntry, ValueFields(value)), |buf|);
  }

  /** `encode` and `encodingLength` throw in the same case, and otherwise agree on the length. */
  lemma EntryLengthExact(e: EntryMsg)
    ensures EncodeEntry(e).Failure? <==> e.key.None?
    ensures EntryLength(e).Failure? <==> e.key.None?
    ensures e.key.Some? ==> EntryLength(e).value == |EncodeEntry(e).value|
  {
    StateFieldLengthExact(e.value);
  }

  // ================================================= packet codec properties

  /** One field of a packet as it occurs on the wire; each bootstrap entry is one `EntryF`. */
  datatype PacketField =
    | TypeF(n: nat)
    | PublicKeyF(b: Bytes)
    | StateF(s: PS.PeerStateMsg)
    | EntryF(key: Bytes, value: Option<PS.PeerStateMsg>)
    | UserDataF(b: Bytes)

  function EncodePacketField(f: PacketField): Bytes {
    match f
    case TypeF(n) => VarintField(TYPE_KEY, Some(n))
    case PublicKeyF(b) => BytesField(PUBLIC_KEY_KEY, Some(b))
    case StateF(s) => StateField(STATE_KEY, Some(s))
    case EntryF(k, v) => [BOOTSTRAP_KEY] + EncodeBytes(EntryBody(k, v))
    case UserDataF(b) => BytesField(USER_DATA_KEY, Some(b))
  }

  function ApplyPacketField(acc: PacketAcc, f: PacketField): PacketAcc {
    match f
    case TypeF(n) => PacketAcc(acc.packet.(packetType := n), true)
    case PublicKeyF(b) => acc.(packet := acc.packet.(publicKey := Some(b)))
    case StateF(s) => acc.(packet := acc.packet.(state := Some(PS.Decoded(s))))
    case EntryF(k, v) => acc.(packet := acc.packet.(bootstrap := acc.packet.bootstrap[k := DecodedState(v)]))
    case UserDataF(b) => acc.(packet := acc.packet.(userData := Some(b)))
  }

  function EntryFields(es: seq<(Bytes, Option<PS.PeerStateMsg>)>): seq<PacketField>
    decreases |es|
  {
    if |es| == 0 then [] else [EntryF(es[0].0, es[0].1)] + EntryFields(es[1..])
  }

  function TypeFields(g: PacketMsg): seq<PacketField> {
    if g.packetType.Some? then [TypeF(g.packetType.value)] else []
  }

  /** The fields `encode` writes after the type, in its order. */
  function BodyFields(g: PacketMsg): seq<PacketField> {
    (if g.publicKey.Some? then [PublicKeyF(g.publicKey.value)] else [])
    + ((if g.state.Some? then [StateF(g.state.value)] else [])
    + (EntryFields(g.bootstrap)
    + (if g.userData.Some? then [UserDataF(g.userData.value)] else [])))
  }

  lemma {:induction false} EntriesIsFieldList(es: seq<(Bytes, Option<PS.PeerStateMsg>)>)
    ensures Entries(es) == Concat(EncodePacketField, EntryFields(es))
    decreases |es|
  {
    if |es| > 0 {
      EntriesIsFieldList(es[1..]);
      ConcatAppend(EncodePacketField, [EntryF(es[0].0, es[0].1)], EntryFields(es[1..]));
      ConcatAtMostOne(EncodePacketField, [EntryF(es[0].0, es[0].1)]);
    }
  }

  /** Reading the entry fields assigns the entries in order and leaves the rest of the packet alone. */
  lemma {:induction false} ApplyEntryFields(acc: PacketAcc, es: seq<(Bytes, Option<PS.PeerStateMsg>)>)
    ensures Fold(ApplyPacketField, acc, EntryFields(es))
      == acc.(packet := acc.packet.(bootstrap := Assign(acc.packet.bootstrap, es)))
    decreases |es|
  {
    if |es| > 0 {
      var head := [EntryF(es[0].0, es[0].1)];
      var acc' := ApplyPacketField(acc, head[0]);
      FoldAppend(ApplyPacketField, acc, head, EntryFields(es[1..]));
      FoldAtMostOne(ApplyPacketField, acc, head);
      ApplyEntryFields(acc', es[1..]);
    }
  }

  /** Everything after the type field is the body field list. */
  lemma BodyIsFieldList(g: PacketMsg)
    ensures PacketBody(g) == Concat(EncodePacketField, BodyFields(g))
  {
    var o2 := if g.publicKey.Some? then [PublicKeyF(g.publicKey.value)] else [];
    var o3 := if g.state.Some? then [StateF(g.state.value)] else [];
    var o4 := EntryFields(g.bootstrap);
    var o5 := if g.userData.Some? then [UserDataF(g.userData.value)] else [];
    ConcatAtMostOne(EncodePacketField, o2);
    ConcatAtMostOne(EncodePacketField, o3);
    ConcatAtMostOne(EncodePacketField, o5);
    EntriesIsFieldList(g.bootstrap);
    assert Concat(EncodePacketField, o2) == BytesField(PUBLIC_KEY_KEY, g.publicKey);
    assert Concat(EncodePacketField, o3) == StateField(STATE_KEY, g.state);
    assert Concat(EncodePacketField, o5) == BytesField(USER_DATA_KEY, g.userData);
    ConcatAppend(EncodePacketField, o4, o5);
    ConcatAppend(EncodePacketField, o3, o4 + o5);
    ConcatAppend(EncodePacketField, o2, o3 + (o4 + o5));
  }

  /** The encoding of a packet is its type field followed by the body fields. */
  lemma PacketIsFieldList(g: PacketMsg)
    ensures VarintField(TYPE_KEY, g.packetType) + PacketBody(g)
      == Concat(EncodePacketField, TypeFields(g) + BodyFields(g))
  {
    BodyIsFieldList(g);
    ConcatAtMostOne(EncodePacketField, TypeFields(g));
    assert Concat(EncodePacketField, TypeFields(g)) == VarintField(TYPE_KEY, g.packetType);
    ConcatAppend(EncodePacketField, TypeFields(g), BodyFields(g));
  }

  /** Reading the body fields over `acc` sets the defined fields and assigns the entries. */
  lemma ApplyBodyFields(acc: PacketAcc, g: PacketMsg)
    ensures Fold(ApplyPacketField, acc, BodyFields(g)) == PacketAcc(Packet(
      acc.packet.packetType,
      if g.publicKey.Some? then g.publicKey else acc.packet.publicKey,
      if g.state.Some? then DecodedState(g.state) else acc.packet.state,
      Assign(acc.packet.bootstrap, g.bootstrap),
      if g.userData.Some? then g.userData else acc.packet.userData), acc.found)
  {
    var o2 := if g.publicKey.Some? then [PublicKeyF(g.publicKey.value)] else [];
    var o3 := if g.state.Some? then [StateF(g.state.value)] else [];
    var o4 := EntryFields(g.bootstrap);
    var o5 := if g.userData.Some? then [UserDataF(g.userData.value)] else [];
    assert [] + BodyFields(g) == BodyFields(g);
    FoldFive(ApplyPacketField, acc, [], o2, o3, o4, o5);
    var a2 := Fold(ApplyPacketField, acc, o2);
    var a3 := Fold(ApplyPacketField, a2, o3);
    FoldAtMostOne(ApplyPacketField, acc, o2);
    FoldAtMostOne(ApplyPacketField, a2, o3);
    ApplyEntryFields(a3, g.bootstrap);
    FoldAtMostOne(ApplyPacketField, Fold(ApplyPacketField, a3, o4), o5);
  }

  function PacketKeyOf(f: PacketField): Byte {
    match f
    case TypeF(_) => TYPE_KEY
    case PublicKeyF(_) => PUBLIC_KEY_KEY
    case StateF(_) => STATE_KEY
    case EntryF(_, _) => BOOTSTRAP_KEY
    case UserDataF(_) => USER_DATA_KEY
  }

  /** The value of `f` reads back at `p`, ending at `next`. */
  predicate PacketValueReads(buf: Bytes, p: nat, f: PacketField, next: nat) {
    match f
    case TypeF(n) => DecodeVarint(buf, p) == Success((n, next))
    case PublicKeyF(b) => DecodeBytes(buf, p) == Success((b, next))
    case StateF(s) => ReadEmbeddedState(buf, p) == Success((PS.Decoded(s), next))
    case EntryF(k, v) => ReadEmbeddedEntry(buf, p) == Success((Entry(k, DecodedState(v)), next))
    case UserDataF(b) => DecodeBytes(buf, p) == Success((b, next))
  }

  /** The body of an embedded entry at `pos` decodes to the entry. */
  lemma EmbeddedEntryBody(buf: Bytes, pos: nat, k: Bytes, v: Option<PS.PeerStateMsg>)
    requires At(buf, pos, [BOOTSTRAP_KEY] + EncodeBytes(EntryBody(k, v)))
    ensures var e := EntryBody(k, v); var q := pos + 1 + VarintLength(|e|);
      DecodeEntryRange(buf, Some(q), Some(q + |e|)) == Success((Entry(k, DecodedState(v)), |e|))
  {
    NestedBodyAt(buf, pos, BOOTSTRAP_KEY, EntryBody(k, v));
    DecodeEmbeddedEntry(buf, pos + 1 + VarintLength(|EntryBody(k, v)|), k, v);
  }

  /** The reader of an embedded entry: a length, then `decode` over exactly that many bytes. */
  lemma ReadEmbeddedEntryOf(buf: Bytes, p: nat, e: Bytes, en: Entry)
    requires DecodeVarint(buf, p) == Success((|e|, p + VarintLength(|e|)))
    requires DecodeEntryRange(buf, Some(p + VarintLength(|e|)), Some(p + VarintLength(|e|) + |e|)) == Success((en, |e|))
    ensures ReadEmbeddedEntry(buf, p) == Success((en, p + |EncodeBytes(e)|))
  {
  }

  /** An embedded entry at `pos` reads back as its key and then the entry. */
  lemma EmbeddedEntryReads(buf: Bytes, pos: nat, k: Bytes, v: Option<PS.PeerStateMsg>)
    requires At(buf, pos, [BOOTSTRAP_KEY] + EncodeBytes(EntryBody(k, v)))
    ensures DecodeVarint(buf, pos) == Success((BOOTSTRAP_KEY, pos + 1))
    ensures ReadEmbeddedEntry(buf, pos + 1) == Success((Entry(k, DecodedState(v)), pos + 1 + |EncodeBytes(EntryBody(k, v))|))
  {
    NestedHeaderRead(buf, pos, BOOTSTRAP_KEY, EntryBody(k, v));
    EmbeddedEntryBody(buf, pos, k, v);
    ReadEmbeddedEntryOf(buf, pos + 1, EntryBody(k, v), Entry(k, DecodedState(v)));
  }

  lemma PacketStateFieldReads(buf: Bytes, pos: nat, s: PS.PeerStateMsg)
    requires At(buf, pos, EncodePacketField(StateF(s)))
    ensures DecodeVarint(buf, pos) == Success((STATE_KEY, pos + 1))
    ensures PacketValueReads(buf, pos + 1, StateF(s), pos + |EncodePacketField(StateF(s))|)
  {
    assert EncodePacketField(StateF(s)) == [STATE_KEY] + EncodeBytes(PS.Encode(s));
    EmbeddedStateReads(buf, pos, STATE_KEY, s);
  }

  lemma PacketEntryFieldReads(buf: Bytes, pos: nat, k: Bytes, v: Option<PS.PeerStateMsg>)
    requires At(buf, pos, EncodePacketField(EntryF(k, v)))
    ensures DecodeVarint(buf, pos) == Success((BOOTSTRAP_KEY, pos + 1))
    ensures PacketValueReads(buf, pos + 1, EntryF(k, v), pos + |EncodePacketField(EntryF(k, v))|)
  {
    assert EncodePacketField(EntryF(k, v)) == [BOOTSTRAP_KEY] + EncodeBytes(EntryBody(k, v));
    EmbeddedEntryReads(buf, pos, k, v);
  }

  lemma EncodedPacketFieldReads(buf: Bytes, pos: nat, f: PacketField)
    requires At(buf, pos, EncodePacketField(f))
    ensures DecodeVarint(buf, pos) == Success((PacketKeyOf(f), pos + 1))
    ensures PacketValueReads(buf, pos + 1, f, pos + |EncodePacketField(f)|)
  {
    match f
    case TypeF(n) => KeyedVarintRead(buf, pos, TYPE_KEY, n);
    case PublicKeyF(b) => KeyedBytesRead(buf, pos, PUBLIC_KEY_KEY, b);
    case StateF(s) => PacketStateFieldReads(buf, pos, s);
    case EntryF(k, v) => PacketEntryFieldReads(buf, pos, k, v);
    case UserDataF(b) => KeyedBytesRead(buf, pos, USER_DATA_KEY, b);
  }

  lemma ReadPacketField(buf: Bytes, pos: nat, acc: PacketAcc, f: PacketField, next: nat)
    requires DecodeVarint(buf, pos) == Success((PacketKeyOf(f), pos + 1))
    requires PacketValueReads(buf, pos + 1, f, next)
    ensures DecodePacketField(buf, pos, acc) == Success((ApplyPacketField(acc, f), next))
  {
    match f
    case TypeF(_) => SmallFieldNumber(TYPE_KEY);
    case PublicKeyF(_) => SmallFieldNumber(PUBLIC_KEY_KEY);
    case StateF(_) => SmallFieldNumber(STATE_KEY);
    case EntryF(_, _) => SmallFieldNumber(BOOTSTRAP_KEY);
    case UserDataF(_) => SmallFieldNumber(USER_DATA_KEY);
  }

  /** One decode step reads back one encoded field. */
  lemma DecodeOnePacketField(buf: Bytes, pos: nat, acc: PacketAcc, f: PacketField)
    requires At(buf, pos, EncodePacketField(f))
    ensures DecodePacketField(buf, pos, acc) == Success((ApplyPacketField(acc, f), pos + |EncodePacketField(f)|))
  {
    EncodedPacketFieldReads(buf, pos, f);
    ReadPacketField(buf, pos, acc, f, pos + |EncodePacketField(f)|);
  }

  lemma DecodePacketFieldsStep(buf: Bytes, pos: nat, end: nat, acc: PacketAcc, acc': PacketAcc, next: nat)
    requires pos < end && DecodePacketField(buf, pos, acc) == Success((acc', next))
    ensures DecodePacketFields(buf, pos, end, acc) == DecodePacketFields(buf, next, end, acc')
  {
  }

  lemma {:induction false} DecodePacketAll(buf: Bytes, pos: nat, end: nat, acc: PacketAcc, fs: seq<PacketField>)
    requires At(buf, pos, Concat(EncodePacketField, fs)) && end == pos + |Concat(EncodePacketField, fs)|
    ensures DecodePacketFields(buf, pos, end, acc) == Success((Fold(ApplyPacketField, acc, fs), end))
    decreases |fs|
  {
    if |fs| > 0 {
      AtConcat(buf, pos, EncodePacketField(fs[0]), Concat(EncodePacketField, fs[1..]));
      var next := pos + |EncodePacketField(fs[0])|;
      DecodeOnePacketField(buf, pos, acc, fs[0]);
      DecodePacketFieldsStep(buf, pos, end, acc, ApplyPacketField(acc, fs[0]), next);
      DecodePacketAll(buf, next, end, ApplyPacketField(acc, fs[0]), fs[1..]);
    }
  }

  /** `decode(buf)` keeps what the loop over the whole buffer builds, and throws if the type never came. */
  lemma DecodePacketOfFields(buf: Bytes, acc: PacketAcc, next: nat)
    requires DecodePacketFields(buf, 0, |buf|, EmptyPacket) == Success((acc, next))
    ensures DecodePacket(buf) == if acc.found then Success(acc.packet) else Failure(InvalidMessage)
  {
  }

  /**
   * `decode(encode(g))` gives back the type, the key, the decoded state and
   * the user data of `g`, and the bootstrap map its entries assign in order.
   */
  lemma DecodeEncodePacket(g: PacketMsg)
    requires g.packetType.Some?
    ensures EncodePacket(g).Success?
    ensures DecodePacket(EncodePacket(g).value) == Success(Decoded(g))
  {
    var buf := EncodePacket(g).value;
    var fs := TypeFields(g) + BodyFields(g);
    AtSuffix(buf, 0);
    assert buf[0..] == buf;
    PacketIsFieldList(g);
    DecodePacketAll(buf, 0, |buf|, EmptyPacket, fs);
    FoldAppend(ApplyPacketField, EmptyPacket, TypeFields(g), BodyFields(g));
    FoldAtMostOne(ApplyPacketField, EmptyPacket, TypeFields(g));
    ApplyBodyFields(ApplyPacketField(EmptyPacket, TypeF(g.packetType.value)), g);
    DecodePacketOfFields(buf, Fold(ApplyPacketField, EmptyPacket, fs), |buf|);
  }

  /** The type is required on the wire too: a packet without its type field does not decode. */
  lemma PacketWithoutTypeRejected(g: PacketMsg)
    ensures DecodePacket(PacketBody(g)) == Failure(InvalidMessage)
  {
    var buf := PacketBody(g);
    AtSuffix(buf, 0);
    assert buf[0..] == buf;
    BodyIsFieldList(g);
    DecodePacketAll(buf, 0, |buf|, EmptyPacket, BodyFields(g));
    ApplyBodyFields(EmptyPacket, g);
    DecodePacketOfFields(buf, Fold(ApplyPacketField, EmptyPacket, BodyFields(g)), |buf|);
  }

  /**
   * With distinct keys the decoded map is the object's own: its keys and,
   * for each, the decoded value.
   */
  lemma DecodedBootstrap(g: PacketMsg)
    requires g.packetType.Some? && DistinctKeys(g.bootstrap)
    ensures Decoded(g).bootstrap.Keys == Keys(g.bootstrap)
    ensures forall i :: 0 <= i < |g.bootstrap| ==> Decoded(g).bootstrap[g.bootstrap[i].0] == DecodedState(g.bootstrap[i].1)
  {
    AssignDistinct(map[], g.bootstrap);
  }

  lemma {:induction false} EntriesLengthExact(es: seq<(Bytes, Option<PS.PeerStateMsg>)>)
    ensures |Entries(es)| == EntriesLength(es)
    decreases |es|
  {
    if |es| > 0 {
      EntryLengthExact(EntryMsg(Some(es[0].0), es[0].1));
      EntriesLengthExact(es[1..]);
    }
  }

  /** `encode` and `encodingLength` throw in the same case, and otherwise agree on the length. */
  lemma PacketLengthExact(g: PacketMsg)
    ensures EncodePacket(g).Failure? <==> g.packetType.None?
    ensures PacketLength(g).Failure? <==> g.packetType.None?
    ensures g.packetType.Some? ==> PacketLength(g).value == |EncodePacket(g).value|
  {
    EntriesLengthExact(g.bootstrap);
    StateFieldLengthExact(g.state);
  }
}
