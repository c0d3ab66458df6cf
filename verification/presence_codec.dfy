/**
 * The presence packet layer: the records of the presence schema and the
 * translation between a tagged presence packet and the outer
 * `{type, payload}` record that actually travels.
 *
 * The schema's own encoders and decoders (`Packet`, `Persistence`,
 * `Bootstrap`, `Subscription`) are generated code outside this model;
 * they appear as the fields of a `Codecs` value, a decoder answering
 * `None` where the generated one throws.
 */
module PresenceCodec {
  import opened Wrappers
  import opened Wire

  /** Packet type numbers (`PacketType` of the presence schema). */
  const PERSISTENT: int := 1
  const BOOTSTRAP_REQUEST: int := 2
  const BOOTSTRAP_RESPONSE: int := 3
  const CONNECTED: int := 4
  const DISCONNECTED: int := 5
  const TOPIC_JOIN: int := 6
  const TOPIC_LEAVE: int := 7
  const USER_DATA: int := 8
  const BROADCAST: int := 9
  const MESSAGE: int := 10

  predicate KnownType(t: int) {
    PERSISTENT <= t <= MESSAGE
  }

  /** A topic as a peer advertises it: its name and which roles it plays. */
  datatype Topic = Topic(name: string, server: bool, client: bool)

  /** A topic key together with its advertisement. */
  datatype Subscription = Subscription(buffer: Bytes, topic: Topic)

  /** One node of a bootstrap snapshot, keyed by topic in `topics`. */
  datatype BootstrapPeer = BootstrapPeer(connected: seq<Bytes>, topics: map<Bytes, Topic>, userData: Bytes)

  /** A bootstrap snapshot: the responder's view of every node it knows. */
  type Snapshot = map<Bytes, BootstrapPeer>

  /** The outer record on the wire. */
  datatype Packet = Packet(kind: int, payload: Option<Bytes>)

  /** A presence packet: the type and whichever payload field it carries. */
  datatype PresencePacket = PresencePacket(
    kind: int,
    ephemeral: Option<bool>,
    bootstrap: Option<Snapshot>,
    peer: Option<Bytes>,
    topic: Option<Subscription>,
    data: Option<Bytes>,
    message: Option<Bytes>)

  /** A packet of type `kind` with no payload field set. */
  function Bare(kind: int): (p: PresencePacket)
    ensures p.kind == kind
    ensures p.ephemeral.None? && p.bootstrap.None? && p.peer.None?
    ensures p.topic.None? && p.data.None? && p.message.None?
  {
    PresencePacket(kind, None, None, None, None, None, None)
  }

  /** The generated schema codecs. */
  datatype Codecs = Codecs(
    encodePacket: Packet -> Bytes,
    decodePacket: Bytes -> Option<Packet>,
    encodePersistence: bool -> Bytes,
    decodePersistence: Bytes -> Option<bool>,
    encodeBootstrap: Snapshot -> Bytes,
    decodeBootstrap: Bytes -> Option<Snapshot>,
    encodeSubscription: Subscription -> Bytes,
    decodeSubscription: Bytes -> Option<Subscription>)

  /** Each schema codec gives back what it encoded. */
  ghost predicate RoundTrips(c: Codecs) {
    (forall p :: c.decodePacket(c.encodePacket(p)) == Some(p))
    && (forall b :: c.decodePersistence(c.encodePersistence(b)) == Some(b))
    && (forall s :: c.decodeBootstrap(c.encodeBootstrap(s)) == Some(s))
    && (forall s :: c.decodeSubscription(c.encodeSubscription(s)) == Some(s))
  }

  /** Decoding a nested record from a payload that may be missing. */
  function Nested<T>(decode: Bytes -> Option<T>, payload: Option<Bytes>): (r: Option<T>)
    ensures payload.None? ==> r.None?
    ensures payload.Some? ==> r == decode(payload.value)
  {
    if payload.None? then None else decode(payload.value)
  }

  /** Decode a presence packet; `None` where the source returns null. */
  function Decode(c: Codecs, bytes: Bytes): (r: Option<PresencePacket>)
    ensures c.decodePacket(bytes).None? ==> r.None?
    ensures r.Some? ==>
      c.decodePacket(bytes).Some? && KnownType(r.value.kind) && r.value.kind == c.decodePacket(bytes).value.kind
    ensures c.decodePacket(bytes).Some? && !KnownType(c.decodePacket(bytes).value.kind) ==> r.None?
    ensures c.decodePacket(bytes).Some? ==>
      var m := c.decodePacket(bytes).value;
      (m.kind == PERSISTENT ==> r.Some? == Nested(c.decodePersistence, m.payload).Some?)
      && (m.kind == BOOTSTRAP_RESPONSE ==> r.Some? == Nested(c.decodeBootstrap, m.payload).Some?)
      && (m.kind in {TOPIC_JOIN, TOPIC_LEAVE} ==> r.Some? == Nested(c.decodeSubscription, m.payload).Some?)
      && (m.kind == BOOTSTRAP_REQUEST ==> r == Some(Bare(m.kind)))
      && (m.kind in {CONNECTED, DISCONNECTED} ==> r == Some(Bare(m.kind).(peer := m.payload)))
      && (m.kind == USER_DATA ==> r == Some(Bare(m.kind).(data := m.payload)))
      && (m.kind in {BROADCAST, MESSAGE} ==> r == Some(Bare(m.kind).(message := m.payload)))
  {
    match c.decodePacket(bytes)
    case None => None
    case Some(m) =>
      var base := Bare(m.kind);
      if m.kind == PERSISTENT then
        match Nested(c.decodePersistence, m.payload)
        case None => None
        case Some(e) => Some(base.(ephemeral := Some(e)))
      else if m.kind == BOOTSTRAP_REQUEST then Some(base)
      else if m.kind == BOOTSTRAP_RESPONSE then
        match Nested(c.decodeBootstrap, m.payload)
        case None => None
        case Some(s) => Some(base.(bootstrap := Some(s)))
      else if m.kind == CONNECTED || m.kind == DISCONNECTED then Some(base.(peer := m.payload))
      else if m.kind == TOPIC_JOIN || m.kind == TOPIC_LEAVE then
        match Nested(c.decodeSubscription, m.payload)
        case None => None
        case Some(s) => Some(base.(topic := Some(s)))
      else if m.kind == USER_DATA then Some(base.(data := m.payload))
      else if m.kind == BROADCAST || m.kind == MESSAGE then Some(base.(message := m.payload))
      else None
  }

  /**
   * The payload `Encode` puts on the wire: the first field that is set,
   * in the order ephemeral, bootstrap, peer, topic, data, message.
   */
  function Payload(c: Codecs, p: PresencePacket): (r: Option<Bytes>)
    ensures r.None? <==> p == Bare(p.kind)
  {
    if p.ephemeral.Some? then Some(c.encodePersistence(p.ephemeral.value))
    else if p.bootstrap.Some? then Some(c.encodeBootstrap(p.bootstrap.value))
    else if p.peer.Some? then p.peer
    else if p.topic.Some? then Some(c.encodeSubscription(p.topic.value))
    else if p.data.Some? then p.data
    else p.message
  }

  function Encode(c: Codecs, p: PresencePacket): (r: Bytes)
    ensures RoundTrips(c) ==> c.decodePacket(r) == Some(Packet(p.kind, Payload(c, p)))
  {
    c.encodePacket(Packet(p.kind, Payload(c, p)))
  }

  /**
   * The packets `Decode` can produce: a known type carrying only the
   * field that type uses, with the nested record present where the type
   * has one.
   */
  predicate WellFormed(p: PresencePacket) {
    var b := Bare(p.kind);
    if p.kind == PERSISTENT then p.ephemeral.Some? && p == b.(ephemeral := p.ephemeral)
    else if p.kind == BOOTSTRAP_REQUEST then p == b
    else if p.kind == BOOTSTRAP_RESPONSE then p.bootstrap.Some? && p == b.(bootstrap := p.bootstrap)
    else if p.kind == CONNECTED || p.kind == DISCONNECTED then p == b.(peer := p.peer)
    else if p.kind == TOPIC_JOIN || p.kind == TOPIC_LEAVE then p.topic.Some? && p == b.(topic := p.topic)
    else if p.kind == USER_DATA then p == b.(data := p.data)
    else if p.kind == BROADCAST || p.kind == MESSAGE then p == b.(message := p.message)
    else false
  }

  /** Everything `Decode` returns is well formed. */
  lemma DecodeWellFormed(c: Codecs, bytes: Bytes)
    requires Decode(c, bytes).Some?
    ensures WellFormed(Decode(c, bytes).value)
  {
  }

  /** With round-tripping schema codecs, a well-formed packet survives the wire. */
  lemma DecodeEncode(c: Codecs, p: PresencePacket)
    requires RoundTrips(c) && WellFormed(p)
    ensures Decode(c, Encode(c, p)) == Some(p)
  {
    assert c.decodePacket(Encode(c, p)) == Some(Packet(p.kind, Payload(c, p)));
    if p.kind == PERSISTENT {
      var e := p.ephemeral.value;
      assert c.decodePersistence(c.encodePersistence(e)) == Some(e) by {
        if e { } else { }
      }
    } else if p.kind == BOOTSTRAP_RESPONSE {
      assert c.decodeBootstrap(c.encodeBootstrap(p.bootstrap.value)) == Some(p.bootstrap.value);
    } else if p.kind == TOPIC_JOIN || p.kind == TOPIC_LEAVE {
      assert c.decodeSubscription(c.encodeSubscription(p.topic.value)) == Some(p.topic.value);
    }
  }

  /**
   * Only the first set field is sent: a packet that sets `ephemeral`
   * (even to false) next to `peer` reaches the other side with its peer
   * field replaced by the encoded persistence record.
   */
  lemma EphemeralShadowsPeer(c: Codecs, peer: Bytes, ephemeral: bool)
    requires RoundTrips(c)
    ensures Decode(c, Encode(c, Bare(CONNECTED).(ephemeral := Some(ephemeral), peer := Some(peer))))
         == Some(Bare(CONNECTED).(peer := Some(c.encodePersistence(ephemeral))))
  {
    var p := Bare(CONNECTED).(ephemeral := Some(ephemeral), peer := Some(peer));
    assert c.decodePacket(Encode(c, p)) == Some(Packet(CONNECTED, Some(c.encodePersistence(ephemeral))));
  }
}
