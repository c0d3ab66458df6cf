/**
 * The relay node `VoidDHT`: command dispatch, the three inbound relay
 * handlers as pure steps over the node's duplicate filter, the outbound
 * requests with their sequence and TTL defaults, and the folding of the
 * replies to a fan-out. The signature and box primitives are oracles.
 */
module Relay {
  import opened Wrappers
  import opened Wire
  import RelayCodec
  import Dedup

  // ---------------------------------------------------------------- constants

  /** `COMMANDS`: the DHT's own commands 0..9 and the three relay commands. */
  const PEER_HANDSHAKE: nat := 0
  const PEER_HOLEPUNCH: nat := 1
  const FIND_PEER: nat := 2
  const LOOKUP: nat := 3
  const ANNOUNCE: nat := 4
  const UNANNOUNCE: nat := 5
  const MUTABLE_PUT: nat := 6
  const MUTABLE_GET: nat := 7
  const IMMUTABLE_PUT: nat := 8
  const IMMUTABLE_GET: nat := 9
  const BROADCAST: nat := 128
  const MESSAGE: nat := 129
  const MESSAGE_FALLBACK: nat := 130

  /** `ERROR`: the codes a relay request can be answered with. */
  const OK: nat := 0
  const UNKNOWN_COMMAND: nat := 1
  const INVALID_TOKEN: nat := 2
  const INVALID_PACKET: nat := 128
  const VERIFICATION_FAILED: nat := 129
  const DECRYPTION_FAILED: nat := 130
  const MISSING_TARGET: nat := 131
  const MESSAGE_FROM_SELF: nat := 132
  const DUPLICATE_MESSAGE: nat := 133
  const WRONG_TARGET: nat := 134

  /** The hop budget a message starts with, and the reference `hops` is counted from. */
  const TTL: nat := 255

  /** Length of a detached signature (`crypto_sign_BYTES`) and of a box tag (`crypto_box_MACBYTES`). */
  const SIGN_BYTES: nat := 64
  const MAC_BYTES: nat := 16

  /** The all-zero 32-byte target every broadcast request carries. */
  const ZERO_TARGET: Bytes := [0, 0, 0, 0, 0, 0, 0, 0, 0, 0, 0, 0, 0, 0, 0, 0, 0, 0, 0, 0, 0, 0, 0, 0, 0, 0, 0, 0, 0, 0, 0, 0]

  // ---------------------------------------------------------------- state

  /**
   * The cryptographic primitives, all keyed with the local key pair:
   * `verify(origin, signed)` is `crypto_sign_open`, `open(boxed, nonce, origin)`
   * is `crypto_box_open_easy` with both keys converted, `sign(message)` is
   * `crypto_sign` (signature followed by the message) and
   * `seal(target, message, nonce)` is `crypto_box_easy`.
   */
  datatype Crypto = Crypto(
    verify: (Bytes, Bytes) -> bool,
    open: (Bytes, Bytes, Bytes) -> Option<Bytes>,
    sign: Bytes -> Bytes,
    seal: (Bytes, Bytes, Bytes) -> Bytes)

  /** The relay part of a node: its public key, duplicate filter, last assigned sequence number and configured TTL. */
  datatype Node = Node(key: Bytes, seen: Dedup.Lru, lastSeq: nat, ttl: nat)

  /** The constructor: `ttl` defaults to 255 and the filter's capacity `lruSize` to 255; `_seq` starts at 0. */
  function NewNode(key: Bytes, ttl: Option<nat>, lruSize: Option<nat>): (n: Node)
    ensures n.key == key && n.lastSeq == 0 && Dedup.Valid(n.seen)
    ensures n.ttl == (if ttl.Some? then ttl.value else 255)
    ensures n.seen.capacity == (if lruSize.Some? then lruSize.value else 255)
    ensures forall k :: !Dedup.Has(n.seen, k)
  {
    Node(key, Dedup.Empty(lruSize.GetOr(Dedup.DEFAULT_CAPACITY)), 0, ttl.GetOr(TTL))
  }

  /** How a handler ends: a plain reply, an error reply, a reply left to a listener, or an exception and no reply at all. */
  datatype Reply = Replied | Errored(code: nat) | Deferred | Raised

  /** What a handler emits to the application. */
  datatype Event =
    | BroadcastEvent(message: Bytes, origin: Bytes, sequence: nat, hops: int)
    | MessageEvent(message: Bytes, origin: Bytes, sequence: nat, hops: int)
    | FallbackEvent(message: Bytes, origin: Bytes, sequence: nat)

  /** A request the node sends: command, target and the envelope to encode as its value. */
  datatype Outbound = Outbound(command: nat, target: Bytes, envelope: RelayCodec.Message)

  /** The request value on the wire. */
  function Value(o: Outbound): Bytes {
    RelayCodec.Encode(o.envelope)
  }

  /** One handler step: the reply, the new duplicate filter, the event emitted and the request relayed onwards. */
  datatype Outcome = Outcome(reply: Reply, seen: Dedup.Lru, emit: Option<Event>, forward: Option<Outbound>)

  // ---------------------------------------------------------------- dispatch

  /** Who `onrequest` hands a request to. */
  datatype Route =
    | Handshake | Holepunch
    | OnBroadcast | OnSend | OnSendFallback
    | PersistentHandler(command: nat)
    | EmitRequest

  /** `onrequest`: relay and router commands first, the persistent commands only when the node is persistent, anything else is emitted. */
  function Dispatch(command: nat, persistent: bool): (r: Route)
    ensures r == Handshake <==> command == PEER_HANDSHAKE
    ensures r == Holepunch <==> command == PEER_HOLEPUNCH
    ensures r == OnBroadcast <==> command == BROADCAST
    ensures r == OnSend <==> command == MESSAGE
    ensures r == OnSendFallback <==> command == MESSAGE_FALLBACK
    ensures r.PersistentHandler? <==> persistent && FIND_PEER <= command <= IMMUTABLE_GET
    ensures r.PersistentHandler? ==> r.command == command
    ensures r == EmitRequest <==> !(command <= IMMUTABLE_GET || BROADCAST <= command <= MESSAGE_FALLBACK) || (!persistent && FIND_PEER <= command <= IMMUTABLE_GET)
  {
    if command == PEER_HANDSHAKE then Handshake
    else if command == PEER_HOLEPUNCH then Holepunch
    else if command == BROADCAST then OnBroadcast
    else if command == MESSAGE then OnSend
    else if command == MESSAGE_FALLBACK then OnSendFallback
    else if !persistent then EmitRequest
    else if FIND_PEER <= command <= IMMUTABLE_GET then PersistentHandler(command)
    else EmitRequest
  }

  // ---------------------------------------------------------------- handlers

  /**
   * The key a message is recorded under in the duplicate filter: the
   * corrected `Dedup.PairKey`, not the separator-less `Dedup.WrittenKey`
   * that `src/dht.ts` records.
   */
  function MessageKey(env: RelayCodec.Envelope): Dedup.Key
    requires env.origin.Some?
  {
    Dedup.PairKey(env.origin.value, env.sequence)
  }

  /** The message is from another node and not yet in the duplicate filter. */
  predicate Fresh(n: Node, env: RelayCodec.Envelope) {
    env.origin.Some? && env.origin.value != n.key && !Dedup.Has(n.seen, MessageKey(env))
  }

  /** The data carries a signature by the origin that checks. */
  predicate Signed(c: Crypto, env: RelayCodec.Envelope) {
    env.origin.Some? && env.data.Some? && |env.data.value| >= SIGN_BYTES && c.verify(env.origin.value, env.data.value)
  }

  /** The relay request `_broadcast` sends for a signed message. */
  function BroadcastRequest(origin: Bytes, sequence: nat, ttl: nat, data: Bytes): Outbound {
    Outbound(BROADCAST, ZERO_TARGET, RelayCodec.Message(Some(origin), Some(sequence), Some(ttl), Some(data), None))
  }

  /** The relay request `_send` sends for a boxed message. */
  function SendRequest(target: Bytes, origin: Bytes, nonce: Option<Bytes>, sequence: nat, ttl: nat, data: Option<Bytes>): Outbound {
    Outbound(MESSAGE, target, RelayCodec.Message(Some(origin), Some(sequence), Some(ttl), data, nonce))
  }

  /**
   * `onbroadcast`, given what `Broadcast.decode` made of the request value.
   * A missing origin or data, or data shorter than a signature, makes the
   * handler throw; the message is recorded before its signature is checked.
   */
  function HandleBroadcast(c: Crypto, n: Node, decoded: Result<RelayCodec.Envelope, DecodeError>): (r: Outcome)
    ensures decoded.Failure? ==> r == Outcome(Errored(INVALID_PACKET), n.seen, None, None)
    ensures decoded.Success? && !Fresh(n, decoded.value) ==> r.seen == n.seen && r.emit.None? && r.forward.None?
    ensures decoded.Success? && !Fresh(n, decoded.value) && decoded.value.origin.Some? ==> r.reply == Replied
    ensures decoded.Success? && Fresh(n, decoded.value) ==> r.seen == Dedup.Add(n.seen, MessageKey(decoded.value))
    ensures r.emit.Some? <==> decoded.Success? && Fresh(n, decoded.value) && Signed(c, decoded.value)
    ensures r.reply == Errored(VERIFICATION_FAILED) <==>
      decoded.Success? && Fresh(n, decoded.value) && !Signed(c, decoded.value)
      && decoded.value.data.Some? && |decoded.value.data.value| >= SIGN_BYTES
    ensures r.emit.Some? ==> var env := decoded.value;
      r.reply == Replied && r.emit.value == BroadcastEvent(env.data.value[SIGN_BYTES..], env.origin.value, env.sequence, TTL as int - env.ttl)
    ensures r.forward.Some? <==> r.emit.Some? && decoded.value.ttl > 0
    ensures r.forward.Some? ==> var env := decoded.value;
      r.forward.value == BroadcastRequest(env.origin.value, env.sequence, env.ttl - 1, env.data.value)
  {
    match decoded
    case Failure(_) => Outcome(Errored(INVALID_PACKET), n.seen, None, None)
    case Success(env) =>
      if env.origin.None? then Outcome(Raised, n.seen, None, None)
      else if env.origin.value == n.key then Outcome(Replied, n.seen, None, None)
      else if Dedup.Has(n.seen, MessageKey(env)) then Outcome(Replied, n.seen, None, None)
      else
        var seen := Dedup.Add(n.seen, MessageKey(env));
        if env.data.None? || |env.data.value| < SIGN_BYTES then Outcome(Raised, seen, None, None)
        else if !c.verify(env.origin.value, env.data.value) then Outcome(Errored(VERIFICATION_FAILED), seen, None, None)
        else
          var event := BroadcastEvent(env.data.value[SIGN_BYTES..], env.origin.value, env.sequence, TTL as int - env.ttl);
          if env.ttl == 0 then Outcome(Replied, seen, Some(event), None)
          else Outcome(Replied, seen, Some(event), Some(BroadcastRequest(env.origin.value, env.sequence, env.ttl - 1, env.data.value)))
  }

  /** Opening a boxed message addressed to this node; `None` when the handler throws before or while opening. */
  function OpenFor(c: Crypto, env: RelayCodec.Envelope): Option<Option<Bytes>>
    requires env.origin.Some?
  {
    if env.data.None? || |env.data.value| < MAC_BYTES || env.nonce.None? then None
    else Some(c.open(env.data.value, env.nonce.value, env.origin.value))
  }

  /**
   * `onsend`: a request without a target is refused before anything else; a
   * message for this node is opened and emitted, any other one is relayed
   * towards its target while its TTL lasts.
   */
  function HandleSend(c: Crypto, n: Node, decoded: Result<RelayCodec.Envelope, DecodeError>, target: Option<Bytes>): (r: Outcome)
    ensures decoded.Failure? ==> r == Outcome(Errored(INVALID_PACKET), n.seen, None, None)
    ensures decoded.Success? && target.None? ==> r == Outcome(Errored(MISSING_TARGET), n.seen, None, None)
    ensures decoded.Success? && target.Some? && !Fresh(n, decoded.value) ==> r.seen == n.seen && r.emit.None? && r.forward.None?
    ensures decoded.Success? && target.Some? && !Fresh(n, decoded.value) && decoded.value.origin.Some? ==> r.reply == Replied
    ensures decoded.Success? && target.Some? && Fresh(n, decoded.value) ==> r.seen == Dedup.Add(n.seen, MessageKey(decoded.value))
    ensures target == Some(n.key) ==> r.forward.None?
    ensures r.emit.Some? ==> target == Some(n.key) && r.reply == Replied && var env := decoded.value;
      Fresh(n, env) && env.nonce.Some? && env.data.Some? && |env.data.value| >= MAC_BYTES &&
      c.open(env.data.value, env.nonce.value, env.origin.value) == Some(r.emit.value.message) &&
      r.emit.value == MessageEvent(r.emit.value.message, env.origin.value, env.sequence, TTL as int - env.ttl)
    ensures r.reply == Errored(DECRYPTION_FAILED) <==> decoded.Success? && target == Some(n.key) && var env := decoded.value;
      Fresh(n, env) && env.nonce.Some? && env.data.Some? && |env.data.value| >= MAC_BYTES &&
      c.open(env.data.value, env.nonce.value, env.origin.value).None?
    ensures r.forward.Some? <==> decoded.Success? && target.Some? && target.value != n.key && Fresh(n, decoded.value) && decoded.value.ttl > 0
    ensures r.forward.Some? ==> var env := decoded.value;
      r.reply == Replied && r.forward.value == SendRequest(target.value, env.origin.value, env.nonce, env.sequence, env.ttl - 1, env.data)
  {
    match decoded
    case Failure(_) => Outcome(Errored(INVALID_PACKET), n.seen, None, None)
    case Success(env) =>
      if target.None? then Outcome(Errored(MISSING_TARGET), n.seen, None, None)
      else if env.origin.None? then Outcome(Raised, n.seen, None, None)
      else if env.origin.value == n.key then Outcome(Replied, n.seen, None, None)
      else if Dedup.Has(n.seen, MessageKey(env)) then Outcome(Replied, n.seen, None, None)
      else
        var seen := Dedup.Add(n.seen, MessageKey(env));
        if target.value == n.key then
          match OpenFor(c, env)
          case None => Outcome(Raised, seen, None, None)
          case Some(None) => Outcome(Errored(DECRYPTION_FAILED), seen, None, None)
          case Some(Some(m)) =>
            Outcome(Replied, seen, Some(MessageEvent(m, env.origin.value, env.sequence, TTL as int - env.ttl)), None)
        else if env.ttl == 0 then Outcome(Replied, seen, None, None)
        else Outcome(Replied, seen, None, Some(SendRequest(target.value, env.origin.value, env.nonce, env.sequence, env.ttl - 1, env.data)))
  }

  /**
   * `onsendFallback`: every refusal is an explicit error code, a message for
   * this node is handed to a listener that replies itself, and nothing is
   * ever relayed.
   */
  function HandleSendFallback(c: Crypto, n: Node, decoded: Result<RelayCodec.Envelope, DecodeError>, target: Option<Bytes>): (r: Outcome)
    ensures r.forward.None? && r.reply != Replied
    ensures decoded.Failure? ==> r == Outcome(Errored(INVALID_PACKET), n.seen, None, None)
    ensures decoded.Success? && target.None? ==> r == Outcome(Errored(MISSING_TARGET), n.seen, None, None)
    ensures decoded.Success? && target.Some? && decoded.value.origin.Some? ==>
      (r.reply == Errored(MESSAGE_FROM_SELF) <==> decoded.value.origin.value == n.key)
    ensures decoded.Success? && target.Some? && decoded.value.origin.Some? && decoded.value.origin.value != n.key ==>
      (r.reply == Errored(DUPLICATE_MESSAGE) <==> Dedup.Has(n.seen, MessageKey(decoded.value)))
    ensures decoded.Success? && target.Some? && !Fresh(n, decoded.value) ==> r.seen == n.seen && r.emit.None?
    ensures decoded.Success? && target.Some? && Fresh(n, decoded.value) ==> r.seen == Dedup.Add(n.seen, MessageKey(decoded.value))
    ensures r.reply == Errored(WRONG_TARGET) <==> decoded.Success? && target.Some? && target.value != n.key && Fresh(n, decoded.value)
    ensures r.reply == Deferred <==> r.emit.Some?
    ensures r.emit.Some? ==> target == Some(n.key) && var env := decoded.value;
      Fresh(n, env) && env.nonce.Some? && env.data.Some? && |env.data.value| >= MAC_BYTES &&
      c.open(env.data.value, env.nonce.value, env.origin.value) == Some(r.emit.value.message) &&
      r.emit.value == FallbackEvent(r.emit.value.message, env.origin.value, env.sequence)
  {
    match decoded
    case Failure(_) => Outcome(Errored(INVALID_PACKET), n.seen, None, None)
    case Success(env) =>
      if target.None? then Outcome(Errored(MISSING_TARGET), n.seen, None, None)
      else if env.origin.None? then Outcome(Raised, n.seen, None, None)
      else if env.origin.value == n.key then Outcome(Errored(MESSAGE_FROM_SELF), n.seen, None, None)
      else if Dedup.Has(n.seen, MessageKey(env)) then Outcome(Errored(DUPLICATE_MESSAGE), n.seen, None, None)
      else
        var seen := Dedup.Add(n.seen, MessageKey(env));
        if target.value == n.key then
          match OpenFor(c, env)
          case None => Outcome(Raised, seen, None, None)
          case Some(None) => Outcome(Errored(DECRYPTION_FAILED), seen, None, None)
          case Some(Some(m)) => Outcome(Deferred, seen, Some(FallbackEvent(m, env.origin.value, env.sequence)), None)
        else Outcome(Errored(WRONG_TARGET), seen, None, None)
  }

  // ---------------------------------------------------------------- outbound

  /** `seq ?? ++_seq`: the sequence number used and the counter afterwards. */
  function NextSeq(n: Node, sequence: Option<nat>): (r: (nat, Node))
    ensures sequence.None? ==> r.0 == r.1.lastSeq == n.lastSeq + 1
    ensures sequence.Some? ==> r.0 == sequence.value && r.1.lastSeq == n.lastSeq
    ensures r.1 == n.(lastSeq := r.1.lastSeq)
  {
    if sequence.Some? then (sequence.value, n) else (n.lastSeq + 1, n.(lastSeq := n.lastSeq + 1))
  }

  /** `broadcast`: sign the message and send it with this node as origin; TTL defaults to the configured one. */
  function Broadcast(c: Crypto, n: Node, message: Bytes, ttl: Option<nat>, sequence: Option<nat>): (r: (Node, Outbound))
  {
    var s := NextSeq(n, sequence);
    (s.1, BroadcastRequest(n.key, s.0, ttl.GetOr(n.ttl), c.sign(message)))
  }

  /** `send`: box the message for `target` under the given nonce, or the `random` bytes when none is given. */
  function Send(c: Crypto, n: Node, target: Bytes, message: Bytes, nonce: Option<Bytes>, ttl: Option<nat>, sequence: Option<nat>, random: Bytes): (r: (Node, Outbound))
  {
    var s := NextSeq(n, sequence);
    var iv := nonce.GetOr(random);
    (s.1, SendRequest(target, n.key, Some(iv), s.0, ttl.GetOr(n.ttl), Some(c.seal(target, message, iv))))
  }

  /** `sendFallback`: as `send`, but over command 130 and with TTL 0 unless given. */
  function SendFallback(c: Crypto, n: Node, target: Bytes, message: Bytes, nonce: Option<Bytes>, ttl: Option<nat>, sequence: Option<nat>, random: Bytes): (r: (Node, Outbound))
  {
    var s := NextSeq(n, sequence);
    var iv := nonce.GetOr(random);
    (s.1, Outbound(MESSAGE_FALLBACK, target,
      RelayCodec.Message(Some(n.key), Some(s.0), Some(ttl.GetOr(0)), Some(c.seal(target, message, iv)), Some(iv))))
  }

  /** What became of one request of a fan-out: an answer with its error code, or a rejected request. */
  datatype Answer = Answered(error: nat) | Failed

  /**
   * `_broadcast` / `_send` result: all requests must settle (one rejection
   * makes the whole fan-out report false), and then some answer must be OK.
   */
  method AnyAccepted(answers: seq<Answer>) returns (accepted: bool)
    ensures accepted <==> (forall i :: 0 <= i < |answers| ==> answers[i].Answered?)
                          && exists i :: 0 <= i < |answers| && answers[i] == Answered(OK)
  {
    var i := 0;
    while i < |answers|
      invariant 0 <= i <= |answers|
      invariant forall j :: 0 <= j < i ==> answers[j].Answered?
    {
      if answers[i].Failed? {
        return false;
      }
      i := i + 1;
    }
    accepted := false;
    i := 0;
    while i < |answers|
      invariant 0 <= i <= |answers|
      invariant accepted <==> exists j :: 0 <= j < i && answers[j] == Answered(OK)
    {
      if answers[i].error == OK {
        accepted := true;
      }
      i := i + 1;
    }
  }
}
