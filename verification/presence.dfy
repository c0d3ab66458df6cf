/**
 * The presence graph a node keeps of the overlay: one node per known
 * peer, carrying that peer's `State`, and an undirected edge for every
 * direct connection someone has reported. The local node prunes every
 * peer it can no longer reach and keeps the `online` set in step.
 *
 * JavaScript mutates the state objects in place; here every operation
 * returns the new `Presence`. An operation that throws part-way keeps the
 * effects made before the throw and drops the rest.
 */
module Presence {
  import opened Wrappers
  import opened Wire
  import Reach
  import TopicRegistry
  import opened PresenceCodec

  type Name = TopicRegistry.Name

  /** A live connection to a peer; its socket and peer info are not modelled. */
  datatype Connection = Connection(publicKey: Bytes, client: bool, server: bool)

  /** Application data attached to a peer; field values are opaque. */
  type UserData = map<string, Bytes>

  /**
   * What the local node knows about one peer. `connected` is an
   * insertion-ordered set, like the `FastSet` it models.
   */
  datatype State = State(
    ephemeral: bool,
    connected: seq<Bytes>,
    announcing: map<Bytes, Name>,
    lookingup: map<Bytes, Name>,
    userData: UserData,
    connection: Option<Connection>)

  datatype Graph = Graph(nodes: map<Bytes, State>, edges: Reach.Edges)

  /** The local node's view: its own key, the graph and the derived sets. */
  datatype Presence = Presence(
    self: Bytes,
    graph: Graph,
    online: set<Bytes>,
    bootstrapped: bool,
    topics: map<Bytes, Name>)

  /** The user-data codec; `decode` answers `None` where it throws. */
  datatype UserCodec = UserCodec(encode: UserData -> Bytes, decode: Bytes -> Option<UserData>)

  /** An undirected graph without self-loops; parallel edges cannot be written down. */
  predicate Simple(g: Graph) {
    Reach.Within(g.nodes.Keys, g.edges)
    && forall e :: e in g.edges ==> e.0 != e.1 && (e.1, e.0) in g.edges
  }

  /** The invariant every operation keeps. */
  predicate Valid(p: Presence) {
    Simple(p.graph) && p.self in p.graph.nodes && p.self in p.online && p.online <= p.graph.nodes.Keys
  }

  /** `a` and `b` are joined by an edge. */
  predicate Linked(g: Graph, a: Bytes, b: Bytes) {
    (a, b) in g.edges
  }

  function WithState(g: Graph, key: Bytes, st: State): (r: Graph)
    ensures r.edges == g.edges && r.nodes == g.nodes[key := st]
  {
    g.(nodes := g.nodes[key := st])
  }

  /** Look a peer up, creating its node with the default state when unknown. */
  function GetPeerState(g: Graph, key: Bytes, connection: Option<Connection>): (r: (Graph, State))
    ensures key in r.0.nodes && r.0.nodes[key] == r.1 && r.0.edges == g.edges
    ensures r.0.nodes.Keys == g.nodes.Keys + {key}
    ensures forall k :: k in g.nodes ==> r.0.nodes[k] == g.nodes[k]
    ensures key in g.nodes ==> r.0 == g && r.1 == g.nodes[key]
    ensures key !in g.nodes ==>
      r.1.ephemeral && r.1.connected == [] && r.1.announcing == map[] && r.1.lookingup == map[]
      && r.1.userData == map[] && r.1.connection == connection
  {
    if key in g.nodes then (g, g.nodes[key])
    else
      var st := State(true, [], map[], map[], map[], connection);
      (WithState(g, key, st), st)
  }

  /** The graph after looking `key` up. */
  function Touch(g: Graph, key: Bytes): Graph {
    GetPeerState(g, key, None).0
  }

  predicate Distinct(s: seq<Bytes>) {
    forall i, j :: 0 <= i < j < |s| ==> s[i] != s[j]
  }

  /** `FastSet.addEach`: append each new element, in order, skipping those present. */
  function AddEach(s: seq<Bytes>, xs: seq<Bytes>): (r: seq<Bytes>)
    ensures forall x :: x in r <==> x in s || x in xs
    ensures |s| <= |r| && r[..|s|] == s
    ensures Distinct(s) ==> Distinct(r)
    decreases |xs|
  {
    if xs == [] then s
    else
      var next := if xs[0] in s then s else s + [xs[0]];
      assert next[..|s|] == s;
      AddEach(next, xs[1..])
  }

  lemma {:induction false} AddEachPresent(s: seq<Bytes>, xs: seq<Bytes>)
    requires forall x :: x in xs ==> x in s
    ensures AddEach(s, xs) == s
    decreases |xs|
  {
    if xs != [] {
      assert xs[0] in s;
      assert forall x :: x in xs[1..] ==> x in xs;
      AddEachPresent(s, xs[1..]);
    }
  }

  /** Adding the same elements twice adds nothing the second time. */
  lemma AddEachIdempotent(s: seq<Bytes>, xs: seq<Bytes>)
    ensures AddEach(AddEach(s, xs), xs) == AddEach(s, xs)
  {
    AddEachPresent(AddEach(s, xs), xs);
  }

  /**
   * A partial state for `SetPeerState`. `connection` distinguishes an
   * absent field (`None`) from an explicit null (`Some(None)`).
   */
  datatype Patch = Patch(
    ephemeral: Option<bool>,
    connected: Option<seq<Bytes>>,
    announcing: Option<map<Bytes, Name>>,
    lookingup: Option<map<Bytes, Name>>,
    userData: Option<UserData>,
    connection: Option<Option<Connection>>)

  const NoPatch := Patch(None, None, None, None, None, None)

  function Patched(prev: State, q: Patch): State {
    State(
      q.ephemeral.GetOr(prev.ephemeral),
      if q.connected.Some? then AddEach(prev.connected, q.connected.value) else prev.connected,
      q.announcing.GetOr(map[]),
      q.lookingup.GetOr(map[]),
      prev.userData + q.userData.GetOr(map[]),
      q.connection.GetOr(prev.connection))
  }

  /** Merge a partial state into a peer's state (creating the peer if needed). */
  function SetPeerState(g: Graph, key: Bytes, patch: Option<Patch>): (r: Graph)
    ensures r.edges == g.edges && r.nodes.Keys == g.nodes.Keys + {key}
    ensures forall k :: k in g.nodes && k != key ==> r.nodes[k] == g.nodes[k]
    ensures
      var prev := GetPeerState(g, key, None).1;
      var q := patch.GetOr(NoPatch);
      var st := r.nodes[key];
      && st.ephemeral == (if q.ephemeral.Some? then q.ephemeral.value else prev.ephemeral)
      && (forall x :: x in st.connected <==> x in prev.connected || (q.connected.Some? && x in q.connected.value))
      && (forall t :: t in st.announcing <==> q.announcing.Some? && t in q.announcing.value)
      && (forall t :: t in st.announcing ==> st.announcing[t] == q.announcing.value[t])
      && (forall t :: t in st.lookingup <==> q.lookingup.Some? && t in q.lookingup.value)
      && (forall t :: t in st.lookingup ==> st.lookingup[t] == q.lookingup.value[t])
      && (forall f :: f in st.userData <==> f in prev.userData || (q.userData.Some? && f in q.userData.value))
      && (forall f :: q.userData.Some? && f in q.userData.value ==> st.userData[f] == q.userData.value[f])
      && (forall f :: f in prev.userData && (q.userData.None? || f !in q.userData.value) ==> st.userData[f] == prev.userData[f])
      && st.connection == (if q.connection.Some? then q.connection.value else prev.connection)
  {
    var (g1, prev) := GetPeerState(g, key, None);
    WithState(g1, key, Patched(prev, patch.GetOr(NoPatch)))
  }

  /** Applying the same partial state twice is the same as applying it once. */
  lemma SetPeerStateIdempotent(g: Graph, key: Bytes, patch: Option<Patch>)
    ensures SetPeerState(SetPeerState(g, key, patch), key, patch) == SetPeerState(g, key, patch)
  {
    var once := SetPeerState(g, key, patch);
    var q := patch.GetOr(NoPatch);
    var prev := GetPeerState(g, key, None).1;
    if q.connected.Some? {
      AddEachIdempotent(prev.connected, q.connected.value);
    }
    var st := once.nodes[key];
    assert Patched(st, q) == st;
  }

  /** The peers reachable from the local node, as `_recalculate` finds them. */
  function Reachable(p: Presence): (r: set<Bytes>)
    ensures r <= p.graph.nodes.Keys
  {
    Reach.Closure(p.graph.nodes.Keys, p.graph.edges, {p.self} * p.graph.nodes.Keys)
  }

  /** Drop every node the local node cannot reach and bring `online` up to date. */
  function Recalculate(p: Presence): (r: Presence)
    ensures r.self == p.self && r.bootstrapped == p.bootstrapped && r.topics == p.topics
    ensures r.graph.nodes.Keys == Reachable(p)
    ensures forall k :: k in r.graph.nodes ==> r.graph.nodes[k] == p.graph.nodes[k]
    ensures r.graph.edges == Reach.Restrict(p.graph.edges, Reachable(p))
    ensures forall k :: k in r.online <==> k in Reachable(p) || (k in p.online && k !in p.graph.nodes)
  {
    var reach := Reachable(p);
    var offline := p.graph.nodes.Keys - reach;
    p.(graph := Graph(map k | k in p.graph.nodes && k in reach :: p.graph.nodes[k],
                      Reach.Restrict(p.graph.edges, reach)),
       online := (p.online + reach) - offline)
  }

  /**
   * What `_recalculate` promises: the kept nodes are exactly those with a
   * path from the local node, each still has one in the pruned graph, and
   * `online` ends up equal to the node set.
   */
  lemma RecalculateReach(p: Presence, x: Bytes)
    requires Valid(p)
    ensures x in Recalculate(p).graph.nodes <==> x in p.graph.nodes && Reach.Reaches(p.graph.edges, p.self, x)
    ensures x in Recalculate(p).graph.nodes ==> Reach.Reaches(Recalculate(p).graph.edges, p.self, x)
    ensures x in p.graph.nodes && !Reach.Reaches(p.graph.edges, p.self, x) ==> x !in Recalculate(p).online
    ensures x in p.graph.nodes && Reach.Reaches(p.graph.edges, p.self, x) ==> x in Recalculate(p).online
    ensures p.self in Recalculate(p).graph.nodes && Recalculate(p).online == Recalculate(p).graph.nodes.Keys
  {
    var nodes, edges := p.graph.nodes.Keys, p.graph.edges;
    assert {p.self} * nodes == {p.self};
    var reach := Reachable(p);
    if x in reach {
      Reach.ClosureSound(nodes, edges, {p.self}, x);
      Reach.ClosureConnected(nodes, edges, p.self, x);
    }
    if x in nodes && Reach.Reaches(edges, p.self, x) {
      Reach.ClosureComplete(nodes, edges, {p.self}, p.self, x);
    }
  }

  /** Recalculating preserves the invariant. */
  lemma RecalculateValid(p: Presence)
    requires Valid(p)
    ensures Valid(Recalculate(p))
  {
    RecalculateReach(p, p.self);
  }

  /** Record a connection between `a` and `b`; a self-loop creates the node and throws. */
  function AddConnection(p: Presence, a: Bytes, b: Bytes, recalculate: bool): (r: Presence)
    ensures !recalculate || a == b ==>
      r.self == p.self && r.online == p.online && r.bootstrapped == p.bootstrapped && r.topics == p.topics
      && a in r.graph.nodes && b in r.graph.nodes
      && r.graph.nodes.Keys == p.graph.nodes.Keys + {a, b}
      && (forall k :: k in p.graph.nodes ==> r.graph.nodes[k] == p.graph.nodes[k])
      && r.graph.edges == p.graph.edges + (if a == b then {} else {(a, b), (b, a)})
    ensures recalculate && a != b ==> r == Recalculate(AddConnection(p, a, b, false))
  {
    var g := Touch(Touch(p.graph, a), b);
    if a == b then p.(graph := g)
    else
      var q := p.(graph := g.(edges := g.edges + {(a, b), (b, a)}));
      if recalculate then Recalculate(q) else q
  }

  /** Adding an edge that is already there changes nothing but the recalculation. */
  lemma AddExistingConnection(p: Presence, a: Bytes, b: Bytes)
    requires a in p.graph.nodes && b in p.graph.nodes && Linked(p.graph, a, b) && Simple(p.graph)
    ensures AddConnection(p, a, b, false) == p
    ensures AddConnection(p, a, b, true) == Recalculate(p)
  {
    assert (b, a) in p.graph.edges;
    assert p.graph.edges + {(a, b), (b, a)} == p.graph.edges;
  }

  /** Remove the edge between `a` and `b`; a missing edge is ignored and nothing is recalculated. */
  function DropConnection(p: Presence, a: Bytes, b: Bytes): (r: Presence)
    ensures !(a in p.graph.nodes && b in p.graph.nodes && Linked(p.graph, a, b)) ==> r == p
    ensures a in p.graph.nodes && b in p.graph.nodes && Linked(p.graph, a, b) ==>
      r == Recalculate(p.(graph := p.graph.(edges := p.graph.edges - {(a, b), (b, a)})))
  {
    if a in p.graph.nodes && b in p.graph.nodes && Linked(p.graph, a, b) then
      Recalculate(p.(graph := p.graph.(edges := p.graph.edges - {(a, b), (b, a)})))
    else p
  }

  /**
   * After dropping, neither orientation of the edge is left, no edge is
   * added, and every other edge survives unless recalculation pruned one of
   * its ends.
   */
  lemma DropConnectionRemoves(p: Presence, a: Bytes, b: Bytes)
    ensures var r := DropConnection(p, a, b);
      && (a in p.graph.nodes && b in p.graph.nodes && Linked(p.graph, a, b) ==> !Linked(r.graph, a, b) && !Linked(r.graph, b, a))
      && r.graph.edges <= p.graph.edges
      && (forall e :: e in p.graph.edges && e != (a, b) && e != (b, a) && e.0 in r.graph.nodes && e.1 in r.graph.nodes ==> e in r.graph.edges)
  {
  }

  lemma AddConnectionValid(p: Presence, a: Bytes, b: Bytes, recalculate: bool)
    requires Valid(p)
    ensures Valid(AddConnection(p, a, b, recalculate))
  {
    var g := Touch(Touch(p.graph, a), b);
    if a != b {
      var q := p.(graph := g.(edges := g.edges + {(a, b), (b, a)}));
      assert Valid(q);
      if recalculate {
        RecalculateValid(q);
      }
    }
  }

  lemma DropConnectionValid(p: Presence, a: Bytes, b: Bytes)
    requires Valid(p)
    ensures Valid(DropConnection(p, a, b))
  {
    if a in p.graph.nodes && b in p.graph.nodes && Linked(p.graph, a, b) {
      var q := p.(graph := p.graph.(edges := p.graph.edges - {(a, b), (b, a)}));
      assert Valid(q);
      RecalculateValid(q);
    }
  }

  /** `name || null`: the empty name is stored as null. */
  function NameOrNull(name: string): (r: Name)
    ensures TopicRegistry.Truthy(r) <==> name != ""
    ensures r.Some? ==> r.value == name
  {
    if name == "" then None else Some(name)
  }

  /** A stored name as the wire carries it: null becomes `""`. */
  function OrEmpty(n: Name): (r: string)
    ensures NameOrNull(r) == (if TopicRegistry.Truthy(n) then n else None)
  {
    n.GetOr("")
  }

  /** `_maybeJoinTopic`: learn a topic, upgrading a missing name but never replacing one. */
  function JoinTopic(topics: map<Bytes, Name>, sub: Option<Subscription>): (r: map<Bytes, Name>)
    ensures sub.None? ==> r == topics
    ensures sub.Some? ==>
      var b, name := sub.value.buffer, sub.value.topic.name;
      && r.Keys == topics.Keys + {b}
      && (forall k :: k in topics && k != b ==> r[k] == topics[k])
      && (b in topics && TopicRegistry.Truthy(topics[b]) ==> r == topics)
      && (TopicRegistry.Truthy(r[b]) <==> (b in topics && TopicRegistry.Truthy(topics[b])) || name != "")
      && (name != "" && !(b in topics && TopicRegistry.Truthy(topics[b])) ==> r[b] == Some(name))
      && (name == "" && b in topics ==> r == topics)
  {
    if sub.None? then topics
    else
      var b, name := sub.value.buffer, sub.value.topic.name;
      if name != "" && !(b in topics && TopicRegistry.Truthy(topics[b])) then topics[b := Some(name)]
      else if b !in topics then topics[b := NameOrNull(name)]
      else topics
  }

  /** Some node of the graph announces or looks up `topic`. */
  predicate InUse(g: Graph, topic: Bytes) {
    exists k :: k in g.nodes && (topic in g.nodes[k].announcing || topic in g.nodes[k].lookingup)
  }

  /** `_maybeLeaveTopic`: forget a topic once no node of the graph uses it. */
  function LeaveTopic(g: Graph, topics: map<Bytes, Name>, sub: Option<Subscription>): (r: map<Bytes, Name>)
    ensures sub.None? ==> r == topics
    ensures sub.Some? ==>
      var b := sub.value.buffer;
      && r.Keys == (if InUse(g, b) then topics.Keys else topics.Keys - {b})
      && (forall k :: k in r ==> r[k] == topics[k])
  {
    if sub.None? then topics
    else if InUse(g, sub.value.buffer) then topics
    else topics - {sub.value.buffer}
  }

  /** Join a topic locally; both roles default to on. Returns the gossip to broadcast. */
  function OnJoin(p: Presence, topic: Bytes, name: Name, client: Option<bool>, server: Option<bool>): (r: (Presence, PresencePacket))
    requires p.self in p.graph.nodes
    ensures p.self in r.0.graph.nodes
    ensures var st := r.0.graph.nodes[p.self];
      && (topic in st.lookingup <==> client.GetOr(true))
      && (topic in st.announcing <==> server.GetOr(true))
      && (client.GetOr(true) ==> st.lookingup[topic] == name)
      && (server.GetOr(true) ==> st.announcing[topic] == name)
      && (forall t :: t != topic ==> (t in st.lookingup <==> t in p.graph.nodes[p.self].lookingup))
      && (forall t :: t != topic ==> (t in st.announcing <==> t in p.graph.nodes[p.self].announcing))
      && (forall t :: t != topic && t in st.lookingup ==> st.lookingup[t] == p.graph.nodes[p.self].lookingup[t])
      && (forall t :: t != topic && t in st.announcing ==> st.announcing[t] == p.graph.nodes[p.self].announcing[t])
      && st == p.graph.nodes[p.self].(lookingup := st.lookingup, announcing := st.announcing)
    ensures r.0.graph.nodes.Keys == p.graph.nodes.Keys && r.0.graph.edges == p.graph.edges
    ensures forall k :: k in p.graph.nodes && k != p.self ==> r.0.graph.nodes[k] == p.graph.nodes[k]
    ensures r.0.self == p.self && r.0.online == p.online && r.0.topics == p.topics && r.0.bootstrapped == p.bootstrapped
    ensures r.1 == Bare(TOPIC_JOIN).(topic := Some(Subscription(topic, Topic(OrEmpty(name), server.GetOr(true), client.GetOr(true)))))
  {
    var c, s := client.GetOr(true), server.GetOr(true);
    var st := p.graph.nodes[p.self];
    var st1 := st.(lookingup := if c then st.lookingup[topic := name] else st.lookingup - {topic},
                   announcing := if s then st.announcing[topic := name] else st.announcing - {topic});
    (p.(graph := WithState(p.graph, p.self, st1)),
     Bare(TOPIC_JOIN).(topic := Some(Subscription(topic, Topic(OrEmpty(name), s, c)))))
  }

  /** Leave a topic locally. Returns the gossip to broadcast. */
  function OnLeave(p: Presence, topic: Bytes): (r: (Presence, PresencePacket))
    requires p.self in p.graph.nodes
    ensures p.self in r.0.graph.nodes
    ensures var st := r.0.graph.nodes[p.self];
      && topic !in st.lookingup && topic !in st.announcing
      && st.lookingup == p.graph.nodes[p.self].lookingup - {topic}
      && st.announcing == p.graph.nodes[p.self].announcing - {topic}
      && st == p.graph.nodes[p.self].(lookingup := st.lookingup, announcing := st.announcing)
    ensures r.0.graph.nodes.Keys == p.graph.nodes.Keys && r.0.graph.edges == p.graph.edges
    ensures forall k :: k in p.graph.nodes && k != p.self ==> r.0.graph.nodes[k] == p.graph.nodes[k]
    ensures r.0.self == p.self && r.0.online == p.online && r.0.topics == p.topics && r.0.bootstrapped == p.bootstrapped
    ensures r.1 == Bare(TOPIC_LEAVE).(topic := Some(Subscription(topic, Topic("", false, false))))
  {
    var st := p.graph.nodes[p.self];
    (p.(graph := WithState(p.graph, p.self, st.(lookingup := st.lookingup - {topic}, announcing := st.announcing - {topic}))),
     Bare(TOPIC_LEAVE).(topic := Some(Subscription(topic, Topic("", false, false)))))
  }

  /**
   * The sender's own state after gossip about itself: its persistence
   * flag (true when absent), a topic it joined or left, or its user data.
   * Nothing else about the sender changes.
   */
  function Gossiped(st: State, uc: UserCodec, m: PresencePacket): (r: State)
    ensures r.connected == st.connected && r.connection == st.connection
    ensures m.kind != PERSISTENT ==> r.ephemeral == st.ephemeral
    ensures m.kind != USER_DATA ==> r.userData == st.userData
    ensures m.kind != TOPIC_JOIN && m.kind != TOPIC_LEAVE ==> r.lookingup == st.lookingup && r.announcing == st.announcing
    ensures m.kind == PERSISTENT ==> r.ephemeral == m.ephemeral.GetOr(true)
    ensures m.kind == USER_DATA && m.data.Some? && uc.decode(m.data.value).Some? ==> r.userData == uc.decode(m.data.value).value
    ensures m.kind == USER_DATA && !(m.data.Some? && uc.decode(m.data.value).Some?) ==> r == st
    ensures (m.kind == TOPIC_JOIN || m.kind == TOPIC_LEAVE) && m.topic.None? ==> r == st
    ensures m.kind == TOPIC_JOIN && m.topic.Some? ==>
      var sub := m.topic.value;
      && (forall t :: t in r.lookingup <==> t in st.lookingup || (sub.topic.client && t == sub.buffer))
      && (forall t :: t in r.announcing <==> t in st.announcing || (sub.topic.server && t == sub.buffer))
      && (forall t :: t in r.lookingup && t != sub.buffer ==> r.lookingup[t] == st.lookingup[t])
      && (forall t :: t in r.announcing && t != sub.buffer ==> r.announcing[t] == st.announcing[t])
      && (sub.topic.client ==> r.lookingup[sub.buffer] == NameOrNull(sub.topic.name))
      && (sub.topic.server ==> r.announcing[sub.buffer] == NameOrNull(sub.topic.name))
    ensures m.kind == TOPIC_LEAVE && m.topic.Some? ==>
      var b := m.topic.value.buffer;
      && (forall t :: t in r.lookingup <==> t in st.lookingup && t != b)
      && (forall t :: t in r.announcing <==> t in st.announcing && t != b)
      && (forall t :: t in r.lookingup ==> r.lookingup[t] == st.lookingup[t])
      && (forall t :: t in r.announcing ==> r.announcing[t] == st.announcing[t])
  {
    if m.kind == PERSISTENT then st.(ephemeral := m.ephemeral.GetOr(true))
    else if m.kind == TOPIC_JOIN && m.topic.Some? then
      var sub := m.topic.value;
      var n := NameOrNull(sub.topic.name);
      st.(lookingup := if sub.topic.client then st.lookingup[sub.buffer := n] else st.lookingup,
          announcing := if sub.topic.server then st.announcing[sub.buffer := n] else st.announcing)
    else if m.kind == TOPIC_LEAVE && m.topic.Some? then
      var b := m.topic.value.buffer;
      st.(lookingup := st.lookingup - {b}, announcing := st.announcing - {b})
    else if m.kind == USER_DATA && m.data.Some? && uc.decode(m.data.value).Some? then
      st.(userData := uc.decode(m.data.value).value)
    else st
  }

  /** Apply gossip `message` (already decoded; `None` when undecodable) sent by `sender`. */
  function OnBroadcast(p: Presence, uc: UserCodec, message: Option<PresencePacket>, sender: Bytes): (r: Presence)
    ensures message.None? || message.value.kind == 0 ==> r == p
    ensures r.self == p.self
    ensures p.bootstrapped ==> r.bootstrapped
    ensures message.Some? && message.value.kind != 0 && !(message.value.kind in {CONNECTED, DISCONNECTED}) ==>
      var m := message.value;
      && sender in r.graph.nodes
      && r.graph.nodes[sender] == Gossiped(GetPeerState(p.graph, sender, None).1, uc, m)
      && r.graph.nodes.Keys == p.graph.nodes.Keys + {sender}
      && (forall k :: k in p.graph.nodes && k != sender ==> r.graph.nodes[k] == p.graph.nodes[k])
      && r.topics == (if m.kind == TOPIC_JOIN then JoinTopic(p.topics, m.topic)
                      else if m.kind == TOPIC_LEAVE then LeaveTopic(r.graph, p.topics, m.topic)
                      else p.topics)
    ensures message.Some? && message.value.kind == USER_DATA && message.value.data.Some? && uc.decode(message.value.data.value).Some? ==>
      sender in r.graph.nodes && r.graph.nodes[sender].userData == uc.decode(message.value.data.value).value
    ensures message.Some? && message.value.kind == PERSISTENT ==>
      sender in r.graph.nodes && r.graph.nodes[sender].ephemeral == message.value.ephemeral.GetOr(true)
    ensures message.Some? && message.value.kind == TOPIC_LEAVE && message.value.topic.Some? ==>
      var b := message.value.topic.value.buffer;
      sender in r.graph.nodes && b !in r.graph.nodes[sender].lookingup && b !in r.graph.nodes[sender].announcing
    ensures message.Some? && message.value.kind == TOPIC_JOIN && message.value.topic.Some? ==>
      var sub := message.value.topic.value;
      && sender in r.graph.nodes
      && (sub.topic.client ==>
            sub.buffer in r.graph.nodes[sender].lookingup
            && r.graph.nodes[sender].lookingup[sub.buffer] == NameOrNull(sub.topic.name))
      && (sub.topic.server ==>
            sub.buffer in r.graph.nodes[sender].announcing
            && r.graph.nodes[sender].announcing[sub.buffer] == NameOrNull(sub.topic.name))
      && sub.buffer in r.topics
    ensures message.Some? && message.value.kind != 0 && !(message.value.kind in {CONNECTED, DISCONNECTED}) ==>
      r.graph.edges == p.graph.edges && r.online == p.online && r.graph.nodes.Keys == p.graph.nodes.Keys + {sender}
  {
    if message.None? || message.value.kind == 0 then p
    else
      var m := message.value;
      var q := p.(graph := Touch(p.graph, sender));
      var st := q.graph.nodes[sender];
      if m.kind == CONNECTED then
        if m.peer.None? then q else AddConnection(q, sender, m.peer.value, true)
      else if m.kind == DISCONNECTED then
        if m.peer.None? then q else DropConnection(q, sender, m.peer.value)
      else
        var g := WithState(q.graph, sender, Gossiped(st, uc, m));
        q.(graph := g,
           topics := if m.kind == TOPIC_JOIN then JoinTopic(q.topics, m.topic)
                     else if m.kind == TOPIC_LEAVE then LeaveTopic(g, q.topics, m.topic)
                     else q.topics)
  }

  /**
   * A `CONNECTED` report from a peer the local node reaches puts the
   * reported edge into the graph and the reported peer online.
   */
  lemma ConnectedFromReachable(p: Presence, uc: UserCodec, sender: Bytes, peer: Bytes)
    requires Valid(p) && sender in p.graph.nodes && Reach.Reaches(p.graph.edges, p.self, sender) && sender != peer
    ensures var r := OnBroadcast(p, uc, Some(Bare(CONNECTED).(peer := Some(peer))), sender);
      Linked(r.graph, sender, peer) && Linked(r.graph, peer, sender) && peer in r.online && peer in r.graph.nodes
  {
    var q := p.(graph := Touch(p.graph, sender));
    var g := Touch(Touch(q.graph, sender), peer);
    var q2 := q.(graph := g.(edges := g.edges + {(sender, peer), (peer, sender)}));
    assert Valid(q2);
    Reach.ReachesMonotone(p.graph.edges, q2.graph.edges, p.self, sender);
    var w :| Reach.Walk(q2.graph.edges, w) && w[0] == p.self && w[|w| - 1] == sender;
    Reach.WalkPrepend(q2.graph.edges, peer, [sender]);
    assert Reach.Walk(q2.graph.edges, w + [peer]);
    var w2 := w + [peer];
    assert w2[0] == p.self && w2[|w2| - 1] == peer;
    RecalculateReach(q2, sender);
    RecalculateReach(q2, peer);
  }

  /** A `DISCONNECTED` report leaves no edge between its sender and the peer it names. */
  lemma DisconnectedDropsEdge(p: Presence, uc: UserCodec, sender: Bytes, peer: Bytes)
    requires Valid(p)
    ensures var r := OnBroadcast(p, uc, Some(Bare(DISCONNECTED).(peer := Some(peer))), sender);
      !Linked(r.graph, sender, peer) && !Linked(r.graph, peer, sender)
  {
  }

  lemma OnBroadcastValid(p: Presence, uc: UserCodec, message: Option<PresencePacket>, sender: Bytes)
    requires Valid(p)
    ensures Valid(OnBroadcast(p, uc, message, sender))
  {
    if message.Some? && message.value.kind != 0 {
      var m := message.value;
      var q := p.(graph := Touch(p.graph, sender));
      assert Valid(q);
      if m.kind == CONNECTED && m.peer.Some? {
        AddConnectionValid(q, sender, m.peer.value, true);
      } else if m.kind == DISCONNECTED && m.peer.Some? {
        DropConnectionValid(q, sender, m.peer.value);
      }
    }
  }

  /** The state of a freshly started node: only itself, online, not yet bootstrapped. */
  function New(publicKey: Bytes, userData: UserData): (r: Presence)
    ensures Valid(r) && !r.bootstrapped && r.online == {publicKey} && r.topics == map[]
    ensures r.graph.nodes.Keys == {publicKey} && r.graph.edges == {}
    ensures r.graph.nodes[publicKey].userData == userData && r.graph.nodes[publicKey].ephemeral
  {
    var g := Touch(Graph(map[], {}), publicKey);
    Presence(publicKey, WithState(g, publicKey, g.nodes[publicKey].(userData := userData)), {publicKey}, false, map[])
  }
}
