/**
 * Properties that relate several relay steps: a recorded message is never
 * handled twice, a relayed broadcast is accepted one hop further with the
 * same content, a node's own messages reach their receivers, and locally
 * assigned sequence numbers strictly increase.
 */
module RelayProperties {
  import opened Wrappers
  import opened Wire
  import RelayCodec
  import Dedup
  import opened Relay

  /** The node after a handler step: only the duplicate filter changes. */
  function After(n: Node, o: Outcome): Node {
    n.(seen := o.seen)
  }

  /**
   * A broadcast is recorded before its signature is checked: once a copy has
   * been handled past the duplicate check, whether it verified or not, every
   * later copy is answered OK, with no event and no relay, and the filter
   * stays as it is.
   */
  lemma BroadcastHandledOnce(c: Crypto, c': Crypto, n: Node, env: RelayCodec.Envelope)
    requires Dedup.Valid(n.seen) && n.seen.capacity > 0 && Fresh(n, env)
    ensures var first := HandleBroadcast(c, n, Success(env));
      HandleBroadcast(c', After(n, first), Success(env)) == Outcome(Replied, first.seen, None, None)
  {
    Dedup.AddValid(n.seen, MessageKey(env));
  }

  /** In particular a copy that failed verification is never verified again nor emitted. */
  lemma FailedVerificationNotRetried(c: Crypto, n: Node, env: RelayCodec.Envelope)
    requires Dedup.Valid(n.seen) && n.seen.capacity > 0
    requires HandleBroadcast(c, n, Success(env)).reply == Errored(VERIFICATION_FAILED)
    ensures var again := HandleBroadcast(c, After(n, HandleBroadcast(c, n, Success(env))), Success(env));
      again.reply == Replied && again.emit.None? && again.forward.None?
  {
    BroadcastHandledOnce(c, c, n, env);
  }

  /** The same for targeted messages: a second copy is answered OK and neither emitted nor relayed. */
  lemma MessageHandledOnce(c: Crypto, c': Crypto, n: Node, env: RelayCodec.Envelope, target: Bytes)
    requires Dedup.Valid(n.seen) && n.seen.capacity > 0 && Fresh(n, env)
    ensures var first := HandleSend(c, n, Success(env), Some(target));
      HandleSend(c', After(n, first), Success(env), Some(target)) == Outcome(Replied, first.seen, None, None)
  {
    Dedup.AddValid(n.seen, MessageKey(env));
  }

  /** A second copy of a fallback message is refused as a duplicate. */
  lemma FallbackHandledOnce(c: Crypto, c': Crypto, n: Node, env: RelayCodec.Envelope, target: Bytes)
    requires Dedup.Valid(n.seen) && n.seen.capacity > 0 && Fresh(n, env)
    ensures var first := HandleSendFallback(c, n, Success(env), Some(target));
      HandleSendFallback(c', After(n, first), Success(env), Some(target)) == Outcome(Errored(DUPLICATE_MESSAGE), first.seen, None, None)
  {
    Dedup.AddValid(n.seen, MessageKey(env));
  }

  /** A request value decodes to the envelope the sender encoded. */
  lemma ValueDecodes(o: Outbound)
    ensures RelayCodec.Decode(Value(o)) == Success(RelayCodec.Decoded(o.envelope))
  {
    RelayCodec.DecodeEncode(o.envelope);
  }

  /**
   * A broadcast relayed by one node is accepted by the next node that has not
   * seen it: the same message from the same origin with the same sequence
   * number is emitted one hop further, and relayed again while TTL remains.
   */
  lemma RelayedBroadcastAccepted(c: Crypto, n: Node, env: RelayCodec.Envelope, c': Crypto, m: Node)
    requires HandleBroadcast(c, n, Success(env)).forward.Some?
    requires c'.verify == c.verify
    requires m.key != env.origin.value && !Dedup.Has(m.seen, MessageKey(env))
    ensures var first := HandleBroadcast(c, n, Success(env));
      var next := HandleBroadcast(c', m, RelayCodec.Decode(Value(first.forward.value)));
      next.reply == Replied && next.emit.Some? &&
      next.emit.value == first.emit.value.(hops := first.emit.value.hops + 1) &&
      (next.forward.Some? <==> env.ttl > 1)
  {
    var first := HandleBroadcast(c, n, Success(env));
    var o := first.forward.value;
    ValueDecodes(o);
    var env' := RelayCodec.Decoded(o.envelope);
    assert env' == RelayCodec.Envelope(env.origin, env.sequence, env.ttl - 1, env.data, None);
    assert MessageKey(env') == MessageKey(env);
    assert Signed(c, env) && Signed(c', env');
  }

  /** The signature primitives work: signing prepends a signature that checks under the signer's key. */
  predicate SignsFor(c: Crypto, verify: (Bytes, Bytes) -> bool, key: Bytes, message: Bytes) {
    |c.sign(message)| == SIGN_BYTES + |message| && c.sign(message)[SIGN_BYTES..] == message && verify(key, c.sign(message))
  }

  /**
   * A node's own broadcast, received by a neighbour that has not seen it, is
   * emitted there with the original message, the sender as origin, the
   * sequence number used and `hops` counted from the TTL the sender chose.
   */
  lemma OwnBroadcastDelivered(c: Crypto, n: Node, message: Bytes, ttl: Option<nat>, sequence: Option<nat>, c': Crypto, m: Node)
    requires SignsFor(c, c'.verify, n.key, message)
    requires var o := Broadcast(c, n, message, ttl, sequence).1;
      m.key != n.key && !Dedup.Has(m.seen, Dedup.PairKey(n.key, o.envelope.sequence.value))
    ensures var s := Broadcast(c, n, message, ttl, sequence);
      var used := if sequence.Some? then sequence.value else n.lastSeq + 1;
      var hops := TTL as int - (if ttl.Some? then ttl.value else n.ttl);
      HandleBroadcast(c', m, RelayCodec.Decode(Value(s.1))).emit == Some(BroadcastEvent(message, n.key, used, hops))
  {
    var o := Broadcast(c, n, message, ttl, sequence).1;
    ValueDecodes(o);
    var env := RelayCodec.Decoded(o.envelope);
    assert Fresh(m, env) && Signed(c', env);
  }

  /** Boxing for `target` is undone by the receiver's `open` for the sender's key. */
  predicate BoxesFor(c: Crypto, open: (Bytes, Bytes, Bytes) -> Option<Bytes>, sender: Bytes, target: Bytes, message: Bytes, nonce: Bytes) {
    |c.seal(target, message, nonce)| >= MAC_BYTES && open(c.seal(target, message, nonce), nonce, sender) == Some(message)
  }

  /**
   * A node's own message, received by its target before anyone else handled
   * it there, is answered OK and emitted with the original message; it is
   * not relayed further.
   */
  lemma OwnMessageDelivered(c: Crypto, n: Node, target: Bytes, message: Bytes, nonce: Option<Bytes>, ttl: Option<nat>, sequence: Option<nat>, random: Bytes, c': Crypto, m: Node)
    requires m.key == target && target != n.key
    requires BoxesFor(c, c'.open, n.key, target, message, nonce.GetOr(random))
    requires var o := Send(c, n, target, message, nonce, ttl, sequence, random).1;
      !Dedup.Has(m.seen, Dedup.PairKey(n.key, o.envelope.sequence.value))
    ensures var o := Send(c, n, target, message, nonce, ttl, sequence, random).1;
      var r := HandleSend(c', m, RelayCodec.Decode(Value(o)), Some(o.target));
      var used := if sequence.Some? then sequence.value else n.lastSeq + 1;
      var hops := TTL as int - (if ttl.Some? then ttl.value else n.ttl);
      r.reply == Replied && r.forward.None? && r.emit == Some(MessageEvent(message, n.key, used, hops))
  {
    var o := Send(c, n, target, message, nonce, ttl, sequence, random).1;
    ValueDecodes(o);
    var env := RelayCodec.Decoded(o.envelope);
    assert Fresh(m, env);
  }

  /** A fallback message received by its target is handed to the listener with the original message. */
  lemma OwnFallbackDelivered(c: Crypto, n: Node, target: Bytes, message: Bytes, nonce: Option<Bytes>, ttl: Option<nat>, sequence: Option<nat>, random: Bytes, c': Crypto, m: Node)
    requires m.key == target && target != n.key
    requires BoxesFor(c, c'.open, n.key, target, message, nonce.GetOr(random))
    requires var o := SendFallback(c, n, target, message, nonce, ttl, sequence, random).1;
      !Dedup.Has(m.seen, Dedup.PairKey(n.key, o.envelope.sequence.value))
    ensures var o := SendFallback(c, n, target, message, nonce, ttl, sequence, random).1;
      var r := HandleSendFallback(c', m, RelayCodec.Decode(Value(o)), Some(o.target));
      var used := if sequence.Some? then sequence.value else n.lastSeq + 1;
      r.reply == Deferred && r.emit == Some(FallbackEvent(message, n.key, used))
  {
    var o := SendFallback(c, n, target, message, nonce, ttl, sequence, random).1;
    ValueDecodes(o);
    var env := RelayCodec.Decoded(o.envelope);
    assert Fresh(m, env);
  }

  // ---------------------------------------------------------------- sequence numbers

  /** One call of the outbound API. */
  datatype Call =
    | BroadcastCall(message: Bytes, ttl: Option<nat>, sequence: Option<nat>)
    | SendCall(target: Bytes, message: Bytes, nonce: Option<Bytes>, ttl: Option<nat>, sequence: Option<nat>, random: Bytes)
    | FallbackCall(target: Bytes, message: Bytes, nonce: Option<Bytes>, ttl: Option<nat>, sequence: Option<nat>, random: Bytes)

  function Issue(c: Crypto, n: Node, call: Call): (Node, Outbound) {
    match call
    case BroadcastCall(message, ttl, sequence) => Broadcast(c, n, message, ttl, sequence)
    case SendCall(target, message, nonce, ttl, sequence, random) => Send(c, n, target, message, nonce, ttl, sequence, random)
    case FallbackCall(target, message, nonce, ttl, sequence, random) => SendFallback(c, n, target, message, nonce, ttl, sequence, random)
  }

  /** Each outbound call without an explicit sequence number takes the next one, and only those calls advance the counter. */
  lemma IssueSequence(c: Crypto, n: Node, call: Call)
    ensures var r := Issue(c, n, call);
      r.1.envelope.sequence.Some? &&
      (call.sequence.None? ==> r.1.envelope.sequence.value == r.0.lastSeq == n.lastSeq + 1) &&
      (call.sequence.Some? ==> r.1.envelope.sequence == call.sequence && r.0.lastSeq == n.lastSeq) &&
      r.0 == n.(lastSeq := r.0.lastSeq)
  {
  }

  /** The sequence numbers the node itself assigned over a run of calls, in call order. */
  function Assigned(c: Crypto, n: Node, calls: seq<Call>): seq<nat>
    decreases |calls|
  {
    if calls == [] then []
    else
      var r := Issue(c, n, calls[0]);
      IssueSequence(c, n, calls[0]);
      (if calls[0].sequence.None? then [r.1.envelope.sequence.value] else []) + Assigned(c, r.0, calls[1..])
  }

  /** The counter after a run of calls. */
  function Final(c: Crypto, n: Node, calls: seq<Call>): Node
    decreases |calls|
  {
    if calls == [] then n else Final(c, Issue(c, n, calls[0]).0, calls[1..])
  }

  /** Locally assigned sequence numbers strictly increase, all lie above the counter's start and the counter ends at the last one. */
  lemma {:induction false} AssignedIncrease(c: Crypto, n: Node, calls: seq<Call>)
    ensures var a := Assigned(c, n, calls);
      (forall i, j :: 0 <= i < j < |a| ==> a[i] < a[j]) &&
      (forall i :: 0 <= i < |a| ==> n.lastSeq < a[i] <= Final(c, n, calls).lastSeq) &&
      Final(c, n, calls).lastSeq == n.lastSeq + |a|
    decreases |calls|
  {
    if calls != [] {
      var r := Issue(c, n, calls[0]);
      IssueSequence(c, n, calls[0]);
      AssignedIncrease(c, r.0, calls[1..]);
      var rest := Assigned(c, r.0, calls[1..]);
      if calls[0].sequence.None? {
        var a := [r.1.envelope.sequence.value] + rest;
        assert a == Assigned(c, n, calls);
        forall i, j | 0 <= i < j < |a| ensures a[i] < a[j] {
          if i == 0 {
            assert a[j] == rest[j - 1];
          } else {
            assert a[i] == rest[i - 1] && a[j] == rest[j - 1];
          }
        }
        forall i | 0 <= i < |a| ensures n.lastSeq < a[i] <= Final(c, n, calls).lastSeq {
          if i > 0 {
            assert a[i] == rest[i - 1];
          }
        }
      } else {
        assert rest == Assigned(c, n, calls);
      }
    }
  }
}
