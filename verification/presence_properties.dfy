/**
 * Properties that follow presence gossip from the node that produces it,
 * over the wire, to the node that applies it.
 */
module PresenceProperties {
  import opened Wrappers
  import opened Wire
  import TopicRegistry
  import opened PresenceCodec
  import opened Presence

  /**
   * A topic join reaches another node intact: that node records the
   * joining peer in the roles it chose, under its name (empty names as
   * null), and learns the topic.
   */
  lemma JoinGossiped(c: Codecs, uc: UserCodec, a: Presence, b: Presence, topic: Bytes, name: Name,
                     client: Option<bool>, server: Option<bool>)
    requires RoundTrips(c) && a.self in a.graph.nodes
    ensures var pkt := OnJoin(a, topic, name, client, server).1;
      var r := OnBroadcast(b, uc, Decode(c, Encode(c, pkt)), a.self);
      && a.self in r.graph.nodes
      && (client.GetOr(true) ==>
            topic in r.graph.nodes[a.self].lookingup
            && r.graph.nodes[a.self].lookingup[topic] == (if TopicRegistry.Truthy(name) then name else None))
      && (server.GetOr(true) ==>
            topic in r.graph.nodes[a.self].announcing
            && r.graph.nodes[a.self].announcing[topic] == (if TopicRegistry.Truthy(name) then name else None))
      && topic in r.topics
      && r.graph.edges == b.graph.edges && r.online == b.online
  {
    var pkt := OnJoin(a, topic, name, client, server).1;
    DecodeEncode(c, pkt);
    var sub := pkt.topic.value;
    assert sub.buffer == topic && sub.topic.client == client.GetOr(true) && sub.topic.server == server.GetOr(true);
    assert NameOrNull(sub.topic.name) == (if TopicRegistry.Truthy(name) then name else None);
  }

  /** A topic leave reaches another node intact and clears both of the peer's roles. */
  lemma LeaveGossiped(c: Codecs, uc: UserCodec, a: Presence, b: Presence, topic: Bytes)
    requires RoundTrips(c) && a.self in a.graph.nodes
    ensures var pkt := OnLeave(a, topic).1;
      var r := OnBroadcast(b, uc, Decode(c, Encode(c, pkt)), a.self);
      && a.self in r.graph.nodes
      && topic !in r.graph.nodes[a.self].lookingup && topic !in r.graph.nodes[a.self].announcing
      && r.graph.edges == b.graph.edges && r.online == b.online
  {
    var pkt := OnLeave(a, topic).1;
    DecodeEncode(c, pkt);
  }

  /** A persistence announcement sets the sender's flag on the receiving side. */
  lemma PersistenceGossiped(c: Codecs, uc: UserCodec, b: Presence, sender: Bytes, ephemeral: bool)
    requires RoundTrips(c)
    ensures var r := OnBroadcast(b, uc, Decode(c, Encode(c, Bare(PERSISTENT).(ephemeral := Some(ephemeral)))), sender);
      sender in r.graph.nodes && r.graph.nodes[sender].ephemeral == ephemeral
  {
    DecodeEncode(c, Bare(PERSISTENT).(ephemeral := Some(ephemeral)));
  }

  /**
   * A user-data announcement, as `onpeeradd` sends it, replaces the
   * sender's user data on the receiving side when the user-data codec
   * round-trips. Nothing else about the sender, no other node, no edge and
   * no topic changes.
   */
  lemma UserDataGossiped(c: Codecs, uc: UserCodec, b: Presence, sender: Bytes, data: UserData)
    requires RoundTrips(c) && uc.decode(uc.encode(data)) == Some(data)
    ensures var r := OnBroadcast(b, uc, Decode(c, Encode(c, Bare(USER_DATA).(data := Some(uc.encode(data))))), sender);
      var before := GetPeerState(b.graph, sender, None).1;
      && sender in r.graph.nodes
      && r.graph.nodes[sender] == before.(userData := data)
      && (forall k :: k in b.graph.nodes && k != sender ==> k in r.graph.nodes && r.graph.nodes[k] == b.graph.nodes[k])
      && r.graph.edges == b.graph.edges && r.online == b.online && r.topics == b.topics
  {
    DecodeEncode(c, Bare(USER_DATA).(data := Some(uc.encode(data))));
  }

  /** Undecodable gossip changes nothing at all, not even the sender's node. */
  lemma GarbageIgnored(c: Codecs, uc: UserCodec, b: Presence, sender: Bytes, bytes: Bytes)
    requires c.decodePacket(bytes).None?
    ensures OnBroadcast(b, uc, Decode(c, bytes), sender) == b
  {
  }
}
