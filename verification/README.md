# void-network core in Dafny

A model of the two layers of void-network and the proofs of what they
promise.

* **The relay** (`VoidDHT`, `src/dht.ts`). It sits on top of a Kademlia
  DHT node and adds three commands:
  * `BROADCAST`: a signed message flooded to every node;
  * `MESSAGE`: a boxed message routed towards its target;
  * `MESSAGE_FALLBACK`: a boxed message handed to a listener when it
    arrives.

  Each node records the `origin`/`seq` pair of every message in a
  bounded LRU set and refuses to handle a message twice. The model covers:
  * the command dispatch and the three handlers;
  * the outbound calls with their sequence-number and TTL defaults;
  * the fan-out result;
  * the duplicate filter;
  * the generated `Broadcast` codec of `src/messages.js`.
* **Presence** (`src/presence.ts`). It is gossip on top of the relay.
  Every node keeps:
  * a graph of the peers it knows and the edges they report;
  * the topics they announce and look up;
  * the `online` set of peers reachable from itself;
  * a `bootstrapped` flag.

  The model covers:
  * the graph operations (`getPeerState`, `setPeerState`,
    `_addConnection`, `_dropConnection`, `_recalculate`);
  * the topic bookkeeping (`_maybeJoinTopic`, `_maybeLeaveTopic`);
  * the state effects of incoming gossip (`onbroadcast`) and of local
    `onjoin`/`onleave`;
  * bootstrap snapshots (`_bootstrapper`, `_bootstrap`);
  * the `{type, payload}` packet translation of `src/messages.ts`;
  * the generated `PeerState`, `Map_string_PeerState` and `GossipPacket`
    codecs;
  * the topic registry of `src/topics.ts`.

## Layout

| file | module | models |
|---|---|---|
| `wrappers.dfy` | `Wrappers` | `Option` and `Result` |
| `wire.dfy` | `Wire` | Protocol Buffers varints, byte strings, booleans, keys, `skip` |
| `relay_codec.dfy` | `RelayCodec` | the `Broadcast` message |
| `peer_state_codec.dfy` | `PeerStateCodec` | the `PeerState` message |
| `gossip_codec.dfy` | `GossipCodec` | `Map_string_PeerState` and `GossipPacket` |
| `dedup.dfy` | `Dedup` | the LRU duplicate filter and its message key |
| `relay.dfy` | `Relay` | `VoidDHT` |
| `relay_properties.dfy` | `RelayProperties` | properties across several relay steps |
| `topics.dfy` | `TopicRegistry` | `Topics` |
| `reach.dfy` | `Reach` | reachability: a fixpoint closure and walks |
| `presence_codec.dfy` | `PresenceCodec` | the presence schema records and `decode`/`encode` |
| `presence.dfy` | `Presence` | the graph, topics and gossip handling |
| `bootstrap.dfy` | `Bootstrap` | snapshots and merging them |
| `presence_properties.dfy` | `PresenceProperties` | gossip from encoder to receiving node |

### Conventions

* Functions are pure and states are immutable datatypes.
* An exception of the source is a `Failure` result or a distinguished
  outcome. Examples: `Raised` for a relay handler that throws without
  answering, and `Aborted` for a merge that stops half-way.
* Primitives outside this repository are parameters of the operations:
  * the libsodium signature and box functions (`Relay.Crypto`);
  * the JSON user-data codec (`Presence.UserCodec`);
  * the generated presence schema codecs (`PresenceCodec.Codecs`);
  * random bytes;
  * iteration orders.

## Model

| member | source | states |
|---|---|---|
| Relay.NewNode | src/dht.ts:60-73 | The TTL and the filter capacity default to 255; the sequence counter starts at 0; the filter starts valid and empty. |
| Relay.Dispatch | src/dht.ts:81-143 | Command 0 goes to the router's handshake handler and command 1 to its holepunch handler. Commands 128/129/130 go to their relay handlers. Each of these holds if and only if the command is that one. Commands 2-9 reach the persistent handler exactly when the node is persistent. Every command above 9 other than 128-130, and 2-9 on a non-persistent node, is emitted as a request. |
| Relay.HandleBroadcast | src/dht.ts:145-181 | An undecodable value answers INVALID_PACKET. A message from self, or one already recorded, is answered OK with no event and no relay. A fresh message is recorded before verification. VERIFICATION_FAILED is answered if and only if the signature fails. An event with the unsigned message and `hops = 255 - ttl` happens if and only if the message is fresh and verified. A copy with ttl-1 is relayed if and only if it was emitted and ttl > 0. |
| Relay.HandleSend | src/dht.ts:226-294 | Decode failure answers INVALID_PACKET; a missing target answers MISSING_TARGET with the filter unchanged. Duplicates are answered OK and dropped. A message for self is emitted only if `open` succeeds. DECRYPTION_FAILED is answered if and only if it fails. A message for another node is relayed if and only if it is fresh and ttl > 0, with ttl-1 and the nonce and data kept. A message for self is never relayed. |
| Relay.HandleSendFallback | src/dht.ts:368-435 | Nothing is ever relayed and never a plain OK. MESSAGE_FROM_SELF is answered if and only if the origin is self; DUPLICATE_MESSAGE if and only if the message is recorded; WRONG_TARGET if and only if it is fresh and for another node. It is deferred to a listener if and only if an event is emitted, which requires a successful `open` at the target. |
| Relay.NextSeq | src/dht.ts:187 | An explicit sequence number is used and leaves the counter alone; otherwise the counter is incremented and its new value is used; nothing else in the node changes. |
| Relay.AnyAccepted | src/dht.ts:200-224 | The fan-out reports true if and only if every request settled with an answer and at least one answer carried error code OK. |
| RelayProperties.BroadcastHandledOnce | src/dht.ts:158-163 | Once a fresh broadcast has been handled, a second copy is answered OK with no event, no relay and an unchanged filter, whatever the second node's crypto says. |
| RelayProperties.FailedVerificationNotRetried | src/dht.ts:158-171 | A copy that failed verification is recorded, so a later copy is neither verified, emitted nor relayed. |
| RelayProperties.MessageHandledOnce | src/dht.ts:243-248 | A second copy of a targeted message is answered OK and neither emitted nor relayed. |
| RelayProperties.FallbackHandledOnce | src/dht.ts:389-394 | A second copy of a fallback message is refused with DUPLICATE_MESSAGE. |
| RelayProperties.ValueDecodes | src/dht.ts:205-212 | The request value a node sends decodes, at the receiver, to the envelope it encoded. |
| RelayProperties.RelayedBroadcastAccepted | src/dht.ts:172-180 | A relayed broadcast is accepted by the next unseen node: the same message, origin and sequence number are emitted with hops one higher, and relayed again if and only if the original TTL exceeded 1. |
| RelayProperties.OwnBroadcastDelivered | src/dht.ts:183-198 | A node's own broadcast is emitted at an unseen neighbour with the original message, the sender as origin, the sequence number used, and hops counted from the TTL chosen or the configured TTL. |
| RelayProperties.OwnMessageDelivered | src/dht.ts:296-328 | A node's own `send` is answered OK at its target, emitted with the original message, origin, sequence number and hops, and not relayed further. |
| RelayProperties.OwnFallbackDelivered | src/dht.ts:437-472 | A node's own `sendFallback` is deferred at its target to a listener with the original message, origin and sequence number. |
| RelayProperties.IssueSequence | src/dht.ts:187 | Each of `broadcast`, `send` and `sendFallback` carries a sequence number. Without an explicit one it takes the counter plus one and advances the counter. With one it uses it and leaves the counter. |
| RelayProperties.AssignedIncrease | src/dht.ts:187 | Over any run of outbound calls, the locally assigned sequence numbers strictly increase and lie above the starting counter. The counter ends at the start plus the number assigned. |
| Dedup.Empty | src/dht.ts:70 | A new filter is valid, has the requested capacity and holds no key. |
| Dedup.AddValid | src/dht.ts:163 | `add` keeps the filter duplicate-free and within capacity. The new key is present (capacity > 0). Only old keys and the new key are present. Every key but the oldest survives. Nothing is lost when the key was present or the set not full. |
| Dedup.RecentKeyRetained | src/dht.ts:158-163 | A key just recorded is still present after any `capacity - 1` further additions. |
| Dedup.KeyRetained | src/dht.ts:158-163 | A key of age `a` survives any run of fewer than `capacity - a` additions. |
| Dedup.Hex | src/dht.ts:158 | The hex rendering has two characters per byte, all lower-case hex digits. |
| Dedup.Decimal | src/dht.ts:158 | The decimal rendering is a non-empty digit string, one digit long exactly for values below 10. |
| Dedup.HexInjective | src/dht.ts:158 | Different origins have different hex renderings. |
| Dedup.DecimalInjective | src/dht.ts:158 | Different sequence numbers have different decimal renderings. |
| Dedup.WrittenKeyCollides | src/dht.ts:158 | The key as written confuses origin ab12/seq 3 with origin ab/seq 123, so recording one makes the filter report the other. |
| Dedup.PairKeyInjective | src/dht.ts:158 | With a separator, keys are equal if and only if origin and sequence number are. |
| Wire.VarintLengthIsLeast | src/messages.js:136-137 | The varint length of `n` is the least `r >= 1` with `n < 128^r`. |
| Wire.EncodeVarintShape | src/messages.js:136-137 | Every varint byte but the last has the high bit set; the last does not. |
| Wire.DecodeVarint | src/messages.js:136-137 | A successful read ends past its start and within the buffer; the only failure is a range error. |
| Wire.DecodeEncodeVarint | src/messages.js:136-150 | A varint written at any offset reads back as its value, ending just after its encoding. |
| Wire.DecodeEncodeBytes | src/messages.js:141-142 | A length-delimited byte string at any offset reads back, ending after its encoding. |
| Wire.DecodeBool | src/messages.js:270-271 | A boolean read consumes one byte and is true if and only if that byte exists and is non-zero. |
| Wire.DecodeEncodeBool | src/messages.js:270-271 | An encoded boolean reads back as itself. |
| Wire.Skip | src/messages.js:160-161 | Skipping moves forward; wire types other than 0, 1, 2 and 5 raise. |
| Wire.SkipVarint | src/messages.js:160-161 | Skipping a varint field moves past exactly its encoding. |
| Wire.ToInt32Range | src/messages.js:138 | `ToInt32` lands in the signed 32-bit range, agrees modulo 2^32 and fixes values below 2^31. |
| Wire.SmallFieldNumber | src/messages.js:138 | For keys below 2^31, `prefix >> 3` is `prefix / 8`. |
| Wire.KeyByteFields | src/messages.js:90-114 | A key byte `field << 3 \| type` reads back the field number and wire type, and is its own one-byte varint. |
| RelayCodec.KeysAreFieldKeys | src/messages.js:90-114 | The five key bytes are fields 1-5 with wire types bytes, varint, varint, bytes, bytes. |
| RelayCodec.EncodingLengthExact | src/messages.js:61-117 | `encodingLength` equals the bytes `encode` writes, and only the empty message encodes to nothing. |
| RelayCodec.DecodeRange | src/messages.js:119-122 | An offset or end beyond the buffer raises "Decoded message is not valid". |
| RelayCodec.DecodeFields | src/messages.js:131-163 | The decode loop never moves backwards and, when it runs, ends at or past `end`. |
| RelayCodec.DecodeAll | src/messages.js:131-163 | The decode loop reads back any encoded field list, applying each field in wire order. |
| RelayCodec.DecodeEncode | src/messages.js:86-164 | `decode(encode(m))` gives every defined field of `m` and the defaults (null, 0) for the rest. |
| RelayCodec.LastOccurrenceWins | src/messages.js:139-159 | Two encodings back to back decode to the second message's defined fields, the first's elsewhere. |
| RelayCodec.DecodeFieldSkip | src/messages.js:160-161 | A field number outside 1-5 leaves the envelope alone and continues after the skipped value. |
| RelayCodec.SkipUnknownField | src/messages.js:160-161 | An unknown field 6-15 written at any offset is skipped without effect. |
| RelayCodec.UnknownFieldSkipped | src/messages.js:160-161 | An unknown varint field in front of an encoding does not change what it decodes to. |
| PeerStateCodec.KeysAreFieldKeys | src/messages.js:210-243 | The key bytes are field 1 varint and fields 2-5 length-delimited. |
| PeerStateCodec.EncodingLengthExact | src/messages.js:172-246 | `encodingLength` equals the bytes `encode` writes. |
| PeerStateCodec.RepeatedLengthExact | src/messages.js:178-198 | A repeated field's length counts one key and one byte string per defined element. |
| PeerStateCodec.DecodeRange | src/messages.js:248-251 | An offset or end beyond the buffer raises. |
| PeerStateCodec.ApplyFieldsOf | src/messages.js:268-288 | Reading a state's fields overwrites `ephemeral` and user data, and appends the defined list elements to the three lists. |
| PeerStateCodec.DecodeEncode | src/messages.js:206-293 | `decode(encode(s))` gives the defined fields, the defined list elements in order, and defaults elsewhere. |
| PeerStateCodec.DecodeEmbedded | src/messages.js:248-264 | A state embedded at any positive offset decodes to itself and reports its own length as `decode.bytes`. |
| PeerStateCodec.RepeatedInWireOrder | src/messages.js:268-288 | Two encodings back to back give the first's lists followed by the second's, while the scalars take the last value. |
| GossipCodec.KeysAreFieldKeys | src/messages.js:339-371 | The entry and packet key bytes are the schema's field numbers and wire types. |
| GossipCodec.EntryLengthExact | src/messages.js:438-468 | Entry `encode` and `encodingLength` throw exactly when the key is missing, and otherwise agree on the length. |
| GossipCodec.DecodeEntryRange | src/messages.js:470-473 | An offset or end beyond the buffer raises. |
| GossipCodec.DecodeEncodeEntry | src/messages.js:451-505 | An entry with a key encodes, and decodes back to its key and decoded state. |
| GossipCodec.EntryWithoutKeyRejected | src/messages.js:479-484 | An entry whose bytes lack the key field fails with "Decoded message is not valid". |
| GossipCodec.DecodeEmbeddedEntry | src/messages.js:415-420 | An entry embedded at any positive offset decodes to itself with its own length. |
| GossipCodec.AssignDistinct | src/messages.js:415-420 | With distinct keys, the bootstrap map holds exactly the old keys and the entry keys, each entry its own value; other keys are kept. |
| GossipCodec.StateFieldLengthExact | src/messages.js:310-314 | An embedded state field's length is as `encodingLength` computes it. |
| GossipCodec.EmbeddedStateReads | src/messages.js:409-414 | An embedded state reads back as its key and then the decoded state, ending after it. |
| GossipCodec.DecodePacketRange | src/messages.js:377-380 | An offset or end beyond the buffer raises. |
| GossipCodec.DecodeEncodePacket | src/messages.js:334-430 | A packet with a type encodes and decodes to its type, key, decoded state, user data, and the entries assigned in order. |
| GossipCodec.PacketWithoutTypeRejected | src/messages.js:389-395 | Bytes without the required type field fail to decode. |
| GossipCodec.DecodedBootstrap | src/messages.js:415-420 | With distinct keys, the decoded map has exactly the entry keys, each with its decoded value. |
| GossipCodec.PacketLengthExact | src/messages.js:301-375 | Packet `encode` and `encodingLength` throw exactly without a type, and otherwise agree on the length. |
| GossipCodec.EntriesLengthExact | src/messages.js:315-326 | The bootstrap entries' length is as `encodingLength` adds it up. |
| TopicRegistry.NewKeys | src/topics.ts:19-22 | A registry built from a list stores exactly the listed keys, each with count 1 however often it is listed, so it starts valid. |
| TopicRegistry.NewNames | src/topics.ts:19-22 | A listed key keeps the name of its last pair. |
| TopicRegistry.Clear | src/topics.ts:62-65 | Clearing leaves no key stored and every count at zero. |
| TopicRegistry.Named | src/topics.ts:24-26 | The named keys are exactly the stored keys with a truthy name. |
| TopicRegistry.SetCounts | src/topics.ts:83-89 | `set` raises its key's count by one, stores it, and leaves other keys' counts and names alone. |
| TopicRegistry.SetNames | src/topics.ts:83-89 | A truthy stored name is kept; an untruthy one gives way to a truthy value; a new key takes the value. |
| TopicRegistry.DeleteEffect | src/topics.ts:67-73 | In a valid registry, at count 1 the key leaves both maps and true is returned. At any other count it only decrements and returns whether the key is stored. Other keys are unaffected. |
| TopicRegistry.DeleteUnknownKey | src/topics.ts:67-89 | Deleting a never-set key drives its count to -1, and a later `set` leaves it stored with count 0. |
| TopicRegistry.OperationsValid | src/topics.ts:62-89 | `set` and `delete` keep every stored key counted positively. |
| TopicRegistry.SetAllCount | src/topics.ts:83-89 | `n` sets of a key add `n` to its count. |
| TopicRegistry.DeleteTimesCount | src/topics.ts:67-73 | `n` deletes of a key whose count exceeds `n` subtract `n`. |
| TopicRegistry.SetsThenDeletes | src/topics.ts:67-89 | As many deletes as sets of a new key remove it again. |
| TopicRegistry.DeleteLast | src/topics.ts:67-73 | The delete that takes the count to zero removes the key. |
| TopicRegistry.Candidates | src/topics.ts:28-30 | The candidates are the stored entries in enumeration order, filtered to truthy names when `named`. |
| TopicRegistry.CandidatesComplete | src/topics.ts:28-30 | Every qualifying stored key of the enumeration is a candidate. |
| TopicRegistry.CandidatesDistinct | src/topics.ts:28-30 | A repetition-free enumeration gives candidates without a repeated key. |
| TopicRegistry.Sort | src/topics.ts:31 | Sorting by count is a permutation of the candidates. |
| TopicRegistry.SortRanked | src/topics.ts:31 | The sorted list is in non-increasing count order. |
| TopicRegistry.SortDistinct | src/topics.ts:31 | Sorting keeps keys distinct. |
| TopicRegistry.SortStable | src/topics.ts:31 | The sort is stable, as `Array.prototype.sort` is: the entries of any one count come out in their input order. |
| TopicRegistry.SliceEnd | src/topics.ts:32 | `slice(0, limit)` keeps `min(limit, n)` entries for non-negative limits and counts negative ones from the end. |
| TopicRegistry.RankedCandidates | src/topics.ts:28-32 | The ranked candidates are exactly the candidates, sorted, without repeats. |
| TopicRegistry.PrefixIsTop | src/topics.ts:32 | No entry cut off by the slice outranks an entry that was kept. |
| TopicRegistry.TrendingRanked | src/topics.ts:28-36 | `trending` returns the sliced count of stored entries: ranked, distinct, truthy-named when `named` (default true), and at most `limit` (default 20). |
| TopicRegistry.TrendingTop | src/topics.ts:28-36 | Every qualifying stored entry is a candidate, and none left out outranks one returned. |
| TopicRegistry.TrendingStable | src/topics.ts:28-36 | Ties are cut in enumeration order: for each count, the entries returned are the earliest candidates of that count, in enumeration order. |
| Reach.Closure | src/presence.ts:195-202 | The closure contains the start set, stays within the nodes, and is closed under the edges. |
| Reach.ClosureSound | src/presence.ts:195-202 | Every node of the closure is reached by a walk from the start set. |
| Reach.ClosureComplete | src/presence.ts:195-202 | Every node reached by a walk from the start set is in the closure. |
| Reach.ClosureConnected | src/presence.ts:210-216 | After pruning to the closure of the local node, every remaining node still has a walk from it. |
| Reach.ClosureMonotone | src/presence.ts:195-202 | More edges never shrink the closure. |
| Reach.Restrict | src/presence.ts:210-216 | Pruning keeps exactly the edges whose two endpoints remain. |
| PresenceCodec.Decode | src/messages.ts:20-74 | Undecodable bytes and unknown types give null. Each known type carries only its own payload field, and a nested record that fails to decode gives null. |
| PresenceCodec.Payload | src/messages.ts:76-94 | There is no payload exactly when the packet sets no field. |
| PresenceCodec.Encode | src/messages.ts:76-94 | With round-tripping schema codecs, the outer record decodes to the type and the first set field's payload. |
| PresenceCodec.DecodeWellFormed | src/messages.ts:27-73 | Every decoded packet is well formed: a known type with only its own field. |
| PresenceCodec.DecodeEncode | src/messages.ts:20-94 | A well-formed packet survives `encode` then `decode` unchanged. |
| PresenceCodec.EphemeralShadowsPeer | src/messages.ts:78-83 | A packet that sets `ephemeral` next to `peer` arrives with `peer` replaced by the encoded persistence record. |
| Presence.GetPeerState | src/presence.ts:45-75 | A known peer is returned unchanged. An unknown one is added with the default state (ephemeral, no topics, the given connection) and nothing else changes. |
| Presence.AddEach | src/presence.ts:83 | Appending keeps the old list as a prefix, and the result holds the union, without repeats if the list had none. |
| Presence.AddEachIdempotent | src/presence.ts:83 | Adding the same elements twice adds nothing more. |
| Presence.SetPeerState | src/presence.ts:76-100 | Only the given peer changes, created if unknown. `ephemeral` and `connection` take a given value and are otherwise kept; an explicit null connection clears it. `connected` gains the given peers. The announced and looked-up topics become exactly the given ones, or none when absent. User data fields are merged, the given ones winning. |
| Presence.SetPeerStateIdempotent | src/presence.ts:76-100 | Applying the same partial state twice equals applying it once. |
| Presence.Recalculate | src/presence.ts:194-220 | Only reachable nodes are kept, with their states, and only edges between them. `online` gains the reachable nodes and loses the dropped ones. |
| Presence.RecalculateReach | src/presence.ts:194-220 | A node is kept if and only if a walk leads to it from the local node. Each kept node still has one. `online` equals the node set afterwards. |
| Presence.RecalculateValid | src/presence.ts:194-220 | Recalculating keeps the graph invariant. |
| Presence.AddConnection | src/presence.ts:307-316 | A self-loop only creates the node. Otherwise both nodes exist and both orientations of the edge are added. With `recalculate` (the default) the result is `Recalculate` of that graph. |
| Presence.AddExistingConnection | src/presence.ts:307-316 | Adding an existing edge changes nothing beyond the optional recalculation. |
| Presence.AddConnectionValid | src/presence.ts:307-316 | Adding a connection keeps the graph invariant. |
| Presence.DropConnection | src/presence.ts:318-328 | A missing edge leaves everything unchanged, with no recalculation. An existing edge gives `Recalculate` of the graph without both of its orientations. |
| Presence.DropConnectionRemoves | src/presence.ts:318-328 | An existing edge is removed in both orientations, and no edge is added. Every other edge survives unless recalculation pruned one of its ends. |
| Presence.DropConnectionValid | src/presence.ts:318-328 | Dropping keeps the graph invariant. |
| Presence.NameOrNull | src/presence.ts:291 | The empty name becomes null; any other name is kept. |
| Presence.OrEmpty | src/presence.ts:623 | Sending a stored name and storing it again gives back the name, or null when it was untruthy. |
| Presence.JoinTopic | src/presence.ts:286-293 | A topic is learnt; a missing name is upgraded to a truthy one, and a present name never replaced. |
| Presence.LeaveTopic | src/presence.ts:295-305 | A topic is forgotten exactly when no node of the graph announces or looks it up. |
| Presence.OnJoin | src/presence.ts:608-630 | The local node gains the topic in the chosen roles (default both) under its name. Other topics keep their roles and names, and the local node's other fields are unchanged. Every other node, the edges, `self`, `online` and topics are unchanged. The gossip is a TOPIC_JOIN carrying `Topic(name, server, client)`. |
| Presence.OnLeave | src/presence.ts:632-647 | The local node drops both roles for the topic and keeps its other topics and fields. Every other node, the edges, `self`, `online` and topics are unchanged. The gossip is a TOPIC_LEAVE. |
| Presence.Gossiped | src/presence.ts:504-540 | Gossip about the sender changes only the field its type concerns, and never `connected` or the connection. PERSISTENT sets the flag, true when absent. TOPIC_JOIN adds the topic to the roles it names, under name-or-null, and keeps every other topic and name. TOPIC_LEAVE removes the topic from both roles and keeps the rest. USER_DATA replaces the user data with the decoded value. A missing topic, missing data or undecodable data changes nothing. |
| Presence.OnBroadcast | src/presence.ts:498-547 | Undecodable gossip and type 0 change nothing; any other gossip creates the sender's node. PERSISTENT sets the sender's flag (true when absent). TOPIC_JOIN records the sender in the roles it gives under its name and learns the topic. TOPIC_LEAVE clears both roles. Types other than CONNECTED/DISCONNECTED leave the edges and `online` alone. They also leave every other node unchanged, and set the sender's state to its `Gossiped` update. For them, the topics are `JoinTopic` of the old topics for TOPIC_JOIN, `LeaveTopic` over the updated graph for TOPIC_LEAVE, and unchanged otherwise. USER_DATA gives the sender the decoded user data. The bootstrapped flag is never cleared. |
| Presence.ConnectedFromReachable | src/presence.ts:508-510 | A CONNECTED report from a reachable sender adds the reported edge and puts the reported peer online. |
| Presence.DisconnectedDropsEdge | src/presence.ts:511-513 | After a DISCONNECTED report no edge joins the sender and the peer it names. |
| Presence.OnBroadcastValid | src/presence.ts:498-547 | Applying gossip keeps the graph invariant. |
| Presence.New | src/presence.ts:126-152 | A new node knows only itself: it is online, ephemeral, with the given user data, no edges, no topics, and not bootstrapped. |
| PresenceProperties.JoinGossiped | src/presence.ts:608-630 | A join reaches another node intact: it records the peer in the chosen roles under its name (empty as null) and learns the topic, with edges and `online` untouched. |
| PresenceProperties.LeaveGossiped | src/presence.ts:632-647 | A leave reaches another node and clears both of the peer's roles for the topic. |
| PresenceProperties.PersistenceGossiped | src/presence.ts:505-507 | A persistence announcement sets the sender's flag at the receiver. |
| PresenceProperties.UserDataGossiped | src/presence.ts:537-539 | When the user-data codec round-trips, a user-data announcement built as `onpeeradd` builds it gives the sender exactly the announced data at the receiver. The sender's other fields, every other node, the edges, `online` and the topics stay as they were. |
| PresenceProperties.GarbageIgnored | src/presence.ts:499-502 | Undecodable gossip changes nothing, not even the sender's node. |
| Bootstrap.Advertised | src/presence.ts:225-245 | A node's summary lists its announced and looked-up topics: `server` if and only if announced, `client` if and only if looked up, under the announced name when both exist. |
| Bootstrap.Bootstrapper | src/presence.ts:222-253 | The snapshot has an entry per known node, with its topics, its encoded user data and its `connected` field as written. |
| Bootstrap.MergeTopics | src/presence.ts:262-269 | Merging a summary adds each role it lists under its name (empty as null), keeping the other roles and fields. |
| Bootstrap.JoinAll | src/presence.ts:270 | Every topic of a summary is joined locally; other known topics are kept. |
| Bootstrap.LinkAll | src/presence.ts:272-274 | Each listed peer is linked to the entry's node in both orientations, unless a self-loop aborts. Nothing is removed, and `online` is not recalculated. |
| Bootstrap.LinkAllValid | src/presence.ts:272-274 | Linking keeps the graph invariant. |
| Bootstrap.MergeEntry | src/presence.ts:261-279 | An entry merges if and only if it does not list itself and its user data decodes. Its node then holds the merged topics and data and is linked to every listed peer; no other peer changes. |
| Bootstrap.MergeEntryValid | src/presence.ts:261-279 | Merging one entry keeps the graph invariant. |
| Bootstrap.MergeAll | src/presence.ts:259-280 | Merging a snapshot only grows the graph and never changes the local node's own state. |
| Bootstrap.MergeAllValid | src/presence.ts:259-280 | Merging a snapshot keeps the graph invariant. |
| Bootstrap.Bootstrap | src/presence.ts:255-284 | Nothing happens without a snapshot or after a bootstrap. The flag is set if and only if the whole merge completes, followed by one recalculation. An abort leaves the flag unset. |
| Bootstrap.BootstrapValid | src/presence.ts:255-284 | Bootstrapping keeps the graph invariant. |
| Bootstrap.BootstrapSkipsSelf | src/presence.ts:260 | The local node's own state is never taken from a snapshot. |
| Bootstrap.AdvertisedMerge | src/presence.ts:225-269 | A summary merged into a blank peer reproduces its looked-up and announced topics, names preferring the announced one and empty as null. |
| Bootstrap.NewNoneConnected | src/presence.ts:144-145 | A new node's `connected` fields are empty. |
| Bootstrap.RecalculateNoneConnected | src/presence.ts:194-220 | Recalculating never fills a `connected` field. |
| Bootstrap.AddConnectionNoneConnected | src/presence.ts:307-316 | Adding an edge never fills a `connected` field. |
| Bootstrap.DropConnectionNoneConnected | src/presence.ts:318-328 | Dropping an edge never fills a `connected` field. |
| Bootstrap.OnBroadcastNoneConnected | src/presence.ts:498-547 | Incoming gossip never fills a `connected` field. |
| Bootstrap.TopicChangesNoneConnected | src/presence.ts:608-647 | Joining or leaving topics never fills a `connected` field. |
| Bootstrap.LinkAllNoneConnected | src/presence.ts:272-274 | Linking never fills a `connected` field. |
| Bootstrap.MergeEntryNoneConnected | src/presence.ts:261-279 | Merging an entry never fills a `connected` field. |
| Bootstrap.MergeAllNoneConnected | src/presence.ts:259-280 | Merging a snapshot never fills a `connected` field. |
| Bootstrap.BootstrapNoneConnected | src/presence.ts:255-284 | Bootstrapping never fills a `connected` field. |
| Bootstrap.MergeAllDone | src/presence.ts:259-280 | A merge completes when no entry lists its own node and all user data decodes. |
| Bootstrap.MergeAllLinks | src/presence.ts:272-274 | A completed merge holds the edges of every merged entry. |
| Bootstrap.NoEdgesMerged | src/presence.ts:272-274 | Summaries with empty `connected` lists add no edges. |
| Bootstrap.WrittenBootstrapAddsNoEdges | src/presence.ts:247 | As written, a snapshot from a node whose `connected` fields are empty adds no edges. Every peer then online was already reachable before. |
| Bootstrap.Neighbours | src/presence.ts:247 | The neighbours of a node are exactly the nodes it is linked to. |
| Bootstrap.NeighbourSnapshot | src/presence.ts:222-253 | The intended snapshot: an entry per known node listing exactly its graph neighbours. |
| Bootstrap.NeighbourBootstrapReaches | src/presence.ts:255-284 | With the intended snapshot, every peer the responder sees connected to the bootstrapping node ends up online there. |

## Left out

- Event emission, debug logging and the `EventEmitter` plumbing are not modelled. The handlers return their event and relayed request as values instead.
- `Relay.Broadcast`, `Relay.Send`, `Relay.SendFallback`: these are stated through `RelayProperties.IssueSequence`, `OwnBroadcastDelivered`, `OwnMessageDelivered` and `OwnFallbackDelivered` rather than their own contracts.
- `Relay.HandleBroadcast`, `Relay.HandleSend`, `Relay.HandleSendFallback`: these record the corrected key `Dedup.PairKey` (hex origin, `:`, decimal sequence number), not the key without a separator that src/dht.ts:158, 243 and 389 record (`Dedup.WrittenKey`). They therefore differ from the source exactly when two messages collide under the written key. Example: the filter holds origin `ab12` with seq 3, and origin `ab` with seq 123 arrives. The source treats the second message as a duplicate: broadcast and send answer OK with no event and no relay, and the fallback answers DUPLICATE_MESSAGE. The model handles it as fresh. See the first finding.
- The request transport, `findNode`/`closestNodes` and the peer handshake and holepunch handlers belong to the underlying DHT; `Relay.AnyAccepted` takes the settled answers as its input.
- libsodium (`crypto_sign`, `crypto_sign_open`, `crypto_box_easy`, `crypto_box_open_easy`, the ed25519-to-curve25519 conversion) is an oracle parameter, and `randombytes` becomes the `random` argument.
- protocol-buffers-encodings and collections/lru-set are not part of this model. The behaviour they are used for is modelled directly: varints, byte strings, booleans, skip, and an LRU set that evicts the oldest key.
- Varints are unbounded naturals: the JavaScript number limit of 2^53 and the ten-byte varint limit are not modelled, and `seq`/`ttl` are `nat`.
- Node ids are byte strings. The hex strings presence uses as graph keys are modelled by the bytes they render.
- `Bootstrap.MergeEntry`, `Bootstrap.MergeAll`, `Bootstrap.Bootstrap`: these assume every snapshot key is the canonical lower-case hex rendering of a node id. The source does not check this. src/presence.ts:261 creates the node under `b4a.from(id, "hex")`, which is lossy, while lines 275-279 set `userData` under the raw key. A key that is not canonical makes that call throw, so the merge aborts and `bootstrapped` stays false. An upper-case rendering of the local id also gets past the `id === this.id` skip at line 260. The model merges such keys like any other.
- `GossipCodec.DecodedBootstrap`, `GossipCodec.AssignDistinct`, `GossipCodec.DecodeEncodePacket`: these assume the bootstrap map keys are valid UTF-8 and are not `__proto__`. The model keeps a key as its raw bytes. src/messages.js:491 decodes it as a UTF-8 string, replacing invalid sequences, and line 419 assigns it as an object property. So in the source, two different invalid keys that decode to the same string collapse into one entry, and `__proto__` never becomes an own key. The model keeps such keys apart.
- `TopicRegistry.New`, `TopicRegistry.Set`, `TopicRegistry.Delete`, `TopicRegistry.Trending`: these carry no contracts of their own. They are specified by `NewKeys`/`NewNames`, `SetCounts`/`SetNames`, `DeleteEffect`/`DeleteUnknownKey` and `TrendingRanked`/`TrendingTop`/`TrendingStable`.
- The JSON user-data codec is an oracle, `Presence.UserCodec`, with opaque values.
- The generated presence schema codecs of `src/messages.ts` are parameters (`PresenceCodec.Codecs`); their schema comes from `src/schema.d.ts`. The legacy `PacketType` enum of `src/messages.js` is not used.
- Iteration orders of records and `FastMap` are parameters (`order`); the lemmas hold for every enumeration.
- Graphology is reduced to a node map and a set of ordered edge pairs. Its shortest-path search in `_recalculate` is modelled as reachability (`Reach.Closure`).
- The `_connections` map, sockets, timers, and the `socket.destroy` loop of `onleave` are I/O and are not modelled.
- `onmessage`, `onfallback` and the presence `broadcast`/`send` only forward or dispatch between I/O events and are not modelled.
- `onpeeradd`, `onpeerdrop` and `onstate` are left out as handlers, because socket events drive them. Their state changes are modelled operations. `onpeeradd` creates the peer with its connection (`Presence.GetPeerState`) and links it to the local node with recalculation (`Presence.AddConnection`), src/presence.ts:419-421. `onpeerdrop` deletes the peer from the local `connected`, nulls the peer's connection and calls `Presence.DropConnection`, src/presence.ts:484-489. `onstate` sets the local `ephemeral` flag, src/presence.ts:598-599.
- `Topics.addMapChangeListener`, the iterators and `forEach` are not modelled; `size` and `count` are the functions `TopicRegistry.Size` and `TopicRegistry.Count`.
- `hops` is computed from the constant TTL of 255, as the code does, not from the node's configured TTL.

## Findings

| source | as written | input that shows it | evidently intended | confidence | as-written member | corrected member |
|---|---|---|---|---|---|---|
| src/dht.ts:158 (also 243, 389) | the duplicate-filter key is the hex origin immediately followed by the decimal sequence number | origin `ab12` with seq 3 and origin `ab` with seq 123 both give `"ab123"`, so the second message is dropped as a duplicate | a key that identifies origin and sequence number | not executed | Dedup.WrittenKeyCollides | Dedup.PairKeyInjective |
| src/presence.ts:247 | `_bootstrapper` copies each node's `connected` field, which nothing in the core ever fills | responder C knows edges A–B, B–C, C–D; D bootstraps from C, receives no edges and never puts A or B online | the snapshot carries each node's graph neighbours | not executed | Bootstrap.WrittenBootstrapAddsNoEdges | Bootstrap.NeighbourBootstrapReaches |
