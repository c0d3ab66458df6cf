/**
 * The bootstrap exchange: a responder summarises every node of its
 * presence graph (`Bootstrapper`), and a node that has not bootstrapped
 * yet merges such a summary into its own graph (`Bootstrap`).
 *
 * The summary is a record keyed by node; the order in which the merging
 * side walks it is the record's own iteration order, a parameter here.
 * Inside one entry the topics are merged in one step: each topic occurs
 * once in the entry and its three updates touch only that topic, so the
 * iteration order over them does not matter.
 */
module Bootstrap {
  import opened Wrappers
  import opened Wire
  import Reach
  import TopicRegistry
  import opened PresenceCodec
  import opened Presence

  /**
   * The per-topic summary of one node: `server` iff it announces the
   * topic, `client` iff it looks it up. The announced name wins when
   * both are present; a null name is sent as `""`.
   */
  function Advertised(st: State): (r: map<Bytes, Topic>)
    ensures r.Keys == st.announcing.Keys + st.lookingup.Keys
    ensures forall t :: t in r ==> (r[t].server <==> t in st.announcing) && (r[t].client <==> t in st.lookingup)
    ensures forall t :: t in r ==>
      r[t].name == OrEmpty(if t in st.announcing then st.announcing[t] else st.lookingup[t])
  {
    map t | t in st.announcing.Keys + st.lookingup.Keys ::
      if t in st.announcing then Topic(OrEmpty(st.announcing[t]), true, t in st.lookingup)
      else Topic(OrEmpty(st.lookingup[t]), false, true)
  }

  function Summary(st: State, uc: UserCodec, connected: seq<Bytes>): BootstrapPeer {
    BootstrapPeer(connected, Advertised(st), uc.encode(st.userData))
  }

  /** `_bootstrapper` as written: each node's `connected` field is copied. */
  function Bootstrapper(p: Presence, uc: UserCodec): (r: Snapshot)
    ensures r.Keys == p.graph.nodes.Keys
    ensures forall k :: k in r ==>
      var st := p.graph.nodes[k];
      r[k].connected == st.connected && r[k].topics == Advertised(st) && r[k].userData == uc.encode(st.userData)
  {
    map k | k in p.graph.nodes :: Summary(p.graph.nodes[k], uc, p.graph.nodes[k].connected)
  }

  /** One peer's state after merging the topics of its summary; `""` becomes null. */
  function MergeTopics(st: State, topics: map<Bytes, Topic>): (r: State)
    ensures r.ephemeral == st.ephemeral && r.connected == st.connected
    ensures r.userData == st.userData && r.connection == st.connection
    ensures forall t :: t in r.lookingup <==> t in st.lookingup || (t in topics && topics[t].client)
    ensures forall t :: t in r.announcing <==> t in st.announcing || (t in topics && topics[t].server)
    ensures forall t :: t in topics && topics[t].client ==> r.lookingup[t] == NameOrNull(topics[t].name)
    ensures forall t :: t in topics && topics[t].server ==> r.announcing[t] == NameOrNull(topics[t].name)
    ensures forall t :: t in st.lookingup && !(t in topics && topics[t].client) ==> r.lookingup[t] == st.lookingup[t]
    ensures forall t :: t in st.announcing && !(t in topics && topics[t].server) ==> r.announcing[t] == st.announcing[t]
  {
    st.(lookingup := st.lookingup + map t | t in topics && topics[t].client :: NameOrNull(topics[t].name),
        announcing := st.announcing + map t | t in topics && topics[t].server :: NameOrNull(topics[t].name))
  }

  /** The local topic map after `_maybeJoinTopic` for every topic of a summary. */
  function JoinAll(known: map<Bytes, Name>, topics: map<Bytes, Topic>): (r: map<Bytes, Name>)
    ensures r.Keys == known.Keys + topics.Keys
    ensures forall t :: t in topics ==> r[t] == JoinTopic(known, Some(Subscription(t, topics[t])))[t]
    ensures forall t :: t in known && t !in topics ==> r[t] == known[t]
  {
    map t | t in known.Keys + topics.Keys ::
      if t in topics then JoinTopic(known, Some(Subscription(t, topics[t])))[t] else known[t]
  }

  /** A merge that ran to the end, or one a throw cut short. */
  datatype Run = Done(p: Presence) | Aborted(p: Presence)

  /** `_addConnection(id, other, false)` for each listed peer; a self-loop throws. */
  function LinkAll(p: Presence, id: Bytes, others: seq<Bytes>): (r: Run)
    ensures r.p.self == p.self && r.p.online == p.online && r.p.bootstrapped == p.bootstrapped
    ensures r.p.topics == p.topics
    ensures p.graph.nodes.Keys <= r.p.graph.nodes.Keys
    ensures forall k :: k in p.graph.nodes ==> r.p.graph.nodes[k] == p.graph.nodes[k]
    ensures p.graph.edges <= r.p.graph.edges
    ensures r.Aborted? <==> id in others
    ensures r.Done? ==> forall o :: o in others ==> Linked(r.p.graph, id, o) && Linked(r.p.graph, o, id)
    ensures others == [] ==> r == Done(p)
    decreases |others|
  {
    if others == [] then Done(p)
    else
      var q := AddConnection(p, id, others[0], false);
      if others[0] == id then Aborted(q) else LinkAll(q, id, others[1..])
  }

  lemma {:induction false} LinkAllValid(p: Presence, id: Bytes, others: seq<Bytes>)
    requires Valid(p)
    ensures Valid(LinkAll(p, id, others).p)
    ensures id in LinkAll(p, id, others).p.graph.nodes || others == []
    decreases |others|
  {
    if others != [] {
      AddConnectionValid(p, id, others[0], false);
      if others[0] != id {
        LinkAllValid(AddConnection(p, id, others[0], false), id, others[1..]);
      }
    }
  }

  /** Merge the summary of peer `id` into `p`. */
  function MergeEntry(p: Presence, uc: UserCodec, id: Bytes, entry: BootstrapPeer): (r: Run)
    ensures r.p.self == p.self && r.p.online == p.online && r.p.bootstrapped == p.bootstrapped
    ensures p.graph.nodes.Keys <= r.p.graph.nodes.Keys && p.graph.edges <= r.p.graph.edges
    ensures forall k :: k in p.graph.nodes && k != id ==> r.p.graph.nodes[k] == p.graph.nodes[k]
    ensures r.Done? <==> id !in entry.connected && uc.decode(entry.userData).Some?
    ensures r.Done? ==> forall o :: o in entry.connected ==> Linked(r.p.graph, id, o) && Linked(r.p.graph, o, id)
    ensures r.Done? ==>
      id in r.p.graph.nodes && r.p.topics == JoinAll(p.topics, entry.topics)
      && r.p.graph.nodes[id] == MergeTopics(GetPeerState(p.graph, id, None).1, entry.topics).(userData := uc.decode(entry.userData).value)
    ensures entry.connected == [] && r.Done? ==> r.p.graph.edges == p.graph.edges
  {
    var g := Touch(p.graph, id);
    var q := p.(graph := WithState(g, id, MergeTopics(g.nodes[id], entry.topics)), topics := JoinAll(p.topics, entry.topics));
    match LinkAll(q, id, entry.connected)
    case Aborted(q2) => Aborted(q2)
    case Done(q2) =>
      match uc.decode(entry.userData)
      case None => Aborted(q2)
      case Some(u) => Done(q2.(graph := WithState(q2.graph, id, q2.graph.nodes[id].(userData := u))))
  }

  lemma MergeEntryValid(p: Presence, uc: UserCodec, id: Bytes, entry: BootstrapPeer)
    requires Valid(p)
    ensures Valid(MergeEntry(p, uc, id, entry).p)
  {
    var g := Touch(p.graph, id);
    var q := p.(graph := WithState(g, id, MergeTopics(g.nodes[id], entry.topics)), topics := JoinAll(p.topics, entry.topics));
    assert Valid(q);
    LinkAllValid(q, id, entry.connected);
  }

  /** Every listed key names an entry of the snapshot. */
  predicate Lists(order: seq<Bytes>, snap: Snapshot) {
    forall i :: 0 <= i < |order| ==> order[i] in snap
  }

  /** Merge the entries in `order`, skipping the local node's own entry. */
  function MergeAll(p: Presence, uc: UserCodec, snap: Snapshot, order: seq<Bytes>): (r: Run)
    requires Lists(order, snap)
    ensures r.p.self == p.self && r.p.online == p.online && r.p.bootstrapped == p.bootstrapped
    ensures p.graph.nodes.Keys <= r.p.graph.nodes.Keys && p.graph.edges <= r.p.graph.edges
    ensures p.self in p.graph.nodes ==> r.p.graph.nodes[p.self] == p.graph.nodes[p.self]
    decreases |order|
  {
    if order == [] then Done(p)
    else if order[0] == p.self then MergeAll(p, uc, snap, order[1..])
    else
      match MergeEntry(p, uc, order[0], snap[order[0]])
      case Aborted(q) => Aborted(q)
      case Done(q) => MergeAll(q, uc, snap, order[1..])
  }

  lemma {:induction false} MergeAllValid(p: Presence, uc: UserCodec, snap: Snapshot, order: seq<Bytes>)
    requires Valid(p) && Lists(order, snap)
    ensures Valid(MergeAll(p, uc, snap, order).p)
    decreases |order|
  {
    if order != [] {
      if order[0] == p.self {
        MergeAllValid(p, uc, snap, order[1..]);
      } else {
        MergeEntryValid(p, uc, order[0], snap[order[0]]);
        var r := MergeEntry(p, uc, order[0], snap[order[0]]);
        if r.Done? {
          MergeAllValid(r.p, uc, snap, order[1..]);
        }
      }
    }
  }

  /**
   * `_bootstrap`: merge a snapshot once. Nothing happens without a
   * snapshot or after a bootstrap; otherwise every entry is merged with
   * no recalculation in between, then the flag is set and the graph
   * recalculated once. A throw part-way leaves the flag unset.
   */
  function Bootstrap(p: Presence, uc: UserCodec, snap: Option<Snapshot>, order: seq<Bytes>): (r: Presence)
    requires snap.Some? ==> Lists(order, snap.value)
    ensures snap.None? || p.bootstrapped ==> r == p
    ensures r.self == p.self
    ensures r.bootstrapped <==> p.bootstrapped || (snap.Some? && MergeAll(p, uc, snap.value, order).Done?)
    ensures snap.Some? && !p.bootstrapped && MergeAll(p, uc, snap.value, order).Done? ==>
      r == Recalculate(MergeAll(p, uc, snap.value, order).p.(bootstrapped := true))
    ensures snap.Some? && !p.bootstrapped && MergeAll(p, uc, snap.value, order).Aborted? ==>
      r == MergeAll(p, uc, snap.value, order).p && r.online == p.online
  {
    if snap.None? || p.bootstrapped then p
    else
      match MergeAll(p, uc, snap.value, order)
      case Aborted(q) => q
      case Done(q) => Recalculate(q.(bootstrapped := true))
  }

  lemma BootstrapValid(p: Presence, uc: UserCodec, snap: Option<Snapshot>, order: seq<Bytes>)
    requires Valid(p) && (snap.Some? ==> Lists(order, snap.value))
    ensures Valid(Bootstrap(p, uc, snap, order))
  {
    if snap.Some? && !p.bootstrapped {
      MergeAllValid(p, uc, snap.value, order);
      var q := MergeAll(p, uc, snap.value, order).p;
      RecalculateValid(q.(bootstrapped := true));
    }
  }

  /** The local node's own state is never taken from a snapshot, even one that lists it. */
  lemma BootstrapSkipsSelf(p: Presence, uc: UserCodec, snap: Option<Snapshot>, order: seq<Bytes>)
    requires Valid(p) && (snap.Some? ==> Lists(order, snap.value))
    ensures var r := Bootstrap(p, uc, snap, order);
      p.self in r.graph.nodes && r.graph.nodes[p.self] == p.graph.nodes[p.self]
  {
    BootstrapValid(p, uc, snap, order);
  }

  /**
   * A node's topics survive the summary and the merge as roles: a fresh
   * peer ends up looking up and announcing exactly the topics the
   * original did, under the announced name when it had both, and with
   * empty names turned into null.
   */
  lemma AdvertisedMerge(st: State, blank: State)
    requires blank.lookingup == map[] && blank.announcing == map[]
    ensures var r := MergeTopics(blank, Advertised(st));
      && r.lookingup.Keys == st.lookingup.Keys && r.announcing.Keys == st.announcing.Keys
      && (forall t :: t in st.announcing ==> r.announcing[t] == NameOrNull(OrEmpty(st.announcing[t])))
      && (forall t :: t in st.lookingup && t in st.announcing ==> r.lookingup[t] == NameOrNull(OrEmpty(st.announcing[t])))
      && (forall t :: t in st.lookingup && t !in st.announcing ==> r.lookingup[t] == NameOrNull(OrEmpty(st.lookingup[t])))
  {
  }

  /** No peer's `connected` field holds anything. */
  ghost predicate NoneConnected(p: Presence) {
    forall k :: k in p.graph.nodes ==> p.graph.nodes[k].connected == []
  }

  /*
   * Nothing in the modelled operations ever adds to a peer's `connected`
   * field: creation leaves it empty and every update copies it.
   */

  lemma NewNoneConnected(key: Bytes, userData: UserData)
    ensures NoneConnected(New(key, userData))
  {
  }

  lemma RecalculateNoneConnected(p: Presence)
    requires NoneConnected(p)
    ensures NoneConnected(Recalculate(p))
  {
  }

  lemma AddConnectionNoneConnected(p: Presence, a: Bytes, b: Bytes, recalculate: bool)
    requires NoneConnected(p)
    ensures NoneConnected(AddConnection(p, a, b, recalculate))
  {
    var g := Touch(Touch(p.graph, a), b);
    if a != b && recalculate {
      RecalculateNoneConnected(p.(graph := g.(edges := g.edges + {(a, b), (b, a)})));
    }
  }

  lemma DropConnectionNoneConnected(p: Presence, a: Bytes, b: Bytes)
    requires NoneConnected(p)
    ensures NoneConnected(DropConnection(p, a, b))
  {
    if a in p.graph.nodes && b in p.graph.nodes && Linked(p.graph, a, b) {
      RecalculateNoneConnected(p.(graph := p.graph.(edges := p.graph.edges - {(a, b), (b, a)})));
    }
  }

  lemma OnBroadcastNoneConnected(p: Presence, uc: UserCodec, message: Option<PresencePacket>, sender: Bytes)
    requires NoneConnected(p)
    ensures NoneConnected(OnBroadcast(p, uc, message, sender))
  {
    if message.Some? && message.value.kind != 0 {
      var m := message.value;
      var q := p.(graph := Touch(p.graph, sender));
      assert NoneConnected(q);
      if m.kind == CONNECTED {
        if m.peer.Some? {
          AddConnectionNoneConnected(q, sender, m.peer.value, true);
        }
      } else if m.kind == DISCONNECTED {
        if m.peer.Some? {
          DropConnectionNoneConnected(q, sender, m.peer.value);
        }
      }
    }
  }

  lemma TopicChangesNoneConnected(p: Presence, topic: Bytes, name: Name, client: Option<bool>, server: Option<bool>)
    requires NoneConnected(p) && p.self in p.graph.nodes
    ensures NoneConnected(OnJoin(p, topic, name, client, server).0) && NoneConnected(OnLeave(p, topic).0)
  {
  }

  lemma {:induction false} LinkAllNoneConnected(p: Presence, id: Bytes, others: seq<Bytes>)
    requires NoneConnected(p)
    ensures NoneConnected(LinkAll(p, id, others).p)
    decreases |others|
  {
    if others != [] {
      AddConnectionNoneConnected(p, id, others[0], false);
      if others[0] != id {
        LinkAllNoneConnected(AddConnection(p, id, others[0], false), id, others[1..]);
      }
    }
  }

  lemma MergeEntryNoneConnected(p: Presence, uc: UserCodec, id: Bytes, entry: BootstrapPeer)
    requires NoneConnected(p)
    ensures NoneConnected(MergeEntry(p, uc, id, entry).p)
  {
    var g := Touch(p.graph, id);
    var q := p.(graph := WithState(g, id, MergeTopics(g.nodes[id], entry.topics)), topics := JoinAll(p.topics, entry.topics));
    assert NoneConnected(q);
    LinkAllNoneConnected(q, id, entry.connected);
  }

  lemma {:induction false} MergeAllNoneConnected(p: Presence, uc: UserCodec, snap: Snapshot, order: seq<Bytes>)
    requires NoneConnected(p) && Lists(order, snap)
    ensures NoneConnected(MergeAll(p, uc, snap, order).p)
    decreases |order|
  {
    if order != [] {
      if order[0] == p.self {
        MergeAllNoneConnected(p, uc, snap, order[1..]);
      } else {
        MergeEntryNoneConnected(p, uc, order[0], snap[order[0]]);
        var r := MergeEntry(p, uc, order[0], snap[order[0]]);
        if r.Done? {
          MergeAllNoneConnected(r.p, uc, snap, order[1..]);
        }
      }
    }
  }

  lemma BootstrapNoneConnected(p: Presence, uc: UserCodec, snap: Option<Snapshot>, order: seq<Bytes>)
    requires NoneConnected(p) && (snap.Some? ==> Lists(order, snap.value))
    ensures NoneConnected(Bootstrap(p, uc, snap, order))
  {
    if snap.Some? && !p.bootstrapped {
      MergeAllNoneConnected(p, uc, snap.value, order);
      RecalculateNoneConnected(MergeAll(p, uc, snap.value, order).p.(bootstrapped := true));
    }
  }

  ghost predicate UserRoundTrips(uc: UserCodec) {
    forall u :: uc.decode(uc.encode(u)) == Some(u)
  }

  /** A merge runs to the end when no entry lists its own node and all user data decodes. */
  lemma {:induction false} MergeAllDone(p: Presence, uc: UserCodec, snap: Snapshot, order: seq<Bytes>)
    requires Lists(order, snap)
    requires forall k :: k in snap ==> k !in snap[k].connected && uc.decode(snap[k].userData).Some?
    ensures MergeAll(p, uc, snap, order).Done?
    decreases |order|
  {
    if order != [] {
      if order[0] == p.self {
        MergeAllDone(p, uc, snap, order[1..]);
      } else {
        MergeAllDone(MergeEntry(p, uc, order[0], snap[order[0]]).p, uc, snap, order[1..]);
      }
    }
  }

  /** A completed merge holds the edges of every merged entry. */
  lemma {:induction false} MergeAllLinks(p: Presence, uc: UserCodec, snap: Snapshot, order: seq<Bytes>, i: nat, o: Bytes)
    requires Lists(order, snap) && MergeAll(p, uc, snap, order).Done?
    requires i < |order| && order[i] != p.self && o in snap[order[i]].connected
    ensures var m := MergeAll(p, uc, snap, order).p;
      Linked(m.graph, order[i], o) && Linked(m.graph, o, order[i])
    decreases |order|
  {
    var id := order[0];
    if id == p.self {
      assert order[i] == order[1..][i - 1];
      MergeAllLinks(p, uc, snap, order[1..], i - 1, o);
    } else {
      var e := MergeEntry(p, uc, id, snap[id]);
      if i > 0 {
        assert order[i] == order[1..][i - 1];
        MergeAllLinks(e.p, uc, snap, order[1..], i - 1, o);
      }
    }
  }

  /**
   * As written, a summary carries no edges, so merging it adds none: every
   * peer the merging node then has online was already reachable through
   * the edges it knew before.
   */
  lemma WrittenBootstrapAddsNoEdges(p: Presence, r: Presence, uc: UserCodec, order: seq<Bytes>)
    requires Valid(p) && NoneConnected(r) && !p.bootstrapped && UserRoundTrips(uc)
    requires Lists(order, Bootstrapper(r, uc))
    ensures var b := Bootstrap(p, uc, Some(Bootstrapper(r, uc)), order);
      b.bootstrapped && forall x :: x in b.online ==> Reach.Reaches(p.graph.edges, p.self, x)
  {
    var snap := Bootstrapper(r, uc);
    MergeAllDone(p, uc, snap, order);
    NoEdgesMerged(p, uc, snap, order);
    MergeAllValid(p, uc, snap, order);
    var q := MergeAll(p, uc, snap, order).p.(bootstrapped := true);
    forall x | x in Recalculate(q).online
      ensures Reach.Reaches(p.graph.edges, p.self, x)
    {
      RecalculateReach(q, x);
    }
  }

  /** Summaries with empty `connected` fields leave the edge set as it was. */
  lemma {:induction false} NoEdgesMerged(p: Presence, uc: UserCodec, snap: Snapshot, order: seq<Bytes>)
    requires Lists(order, snap)
    requires forall k :: k in snap ==> snap[k].connected == []
    ensures MergeAll(p, uc, snap, order).p.graph.edges == p.graph.edges
    decreases |order|
  {
    if order != [] {
      if order[0] == p.self {
        NoEdgesMerged(p, uc, snap, order[1..]);
      } else {
        var r := MergeEntry(p, uc, order[0], snap[order[0]]);
        if r.Done? {
          NoEdgesMerged(r.p, uc, snap, order[1..]);
        } else {
          var id := order[0];
          var g := Touch(p.graph, id);
          var q := p.(graph := WithState(g, id, MergeTopics(g.nodes[id], snap[id].topics)), topics := JoinAll(p.topics, snap[id].topics));
          assert LinkAll(q, id, snap[id].connected) == Done(q);
        }
      }
    }
  }

  /** The neighbours of `id` in the graph. */
  function Neighbours(g: Graph, id: Bytes): (r: set<Bytes>)
    ensures forall o :: o in r <==> Linked(g, id, o)
  {
    set e | e in g.edges && e.0 == id :: e.1
  }

  /** Some listing of a finite set. */
  ghost function ListOf(s: set<Bytes>): (r: seq<Bytes>)
    ensures forall x :: x in r <==> x in s
    decreases |s|
  {
    if s == {} then [] else var x :| x in s; [x] + ListOf(s - {x})
  }

  /** The summary as intended: each node's edges are taken from the graph. */
  ghost function NeighbourSnapshot(p: Presence, uc: UserCodec): (r: Snapshot)
    ensures r.Keys == p.graph.nodes.Keys
    ensures forall k :: k in r ==>
      var st := p.graph.nodes[k];
      (forall o :: o in r[k].connected <==> Linked(p.graph, k, o))
      && r[k].topics == Advertised(st) && r[k].userData == uc.encode(st.userData)
  {
    map k | k in p.graph.nodes :: Summary(p.graph.nodes[k], uc, ListOf(Neighbours(p.graph, k)))
  }

  /**
   * With the intended summaries, a node that bootstraps from a responder
   * whose graph already contains it gets online every peer the responder
   * sees connected to it, including peers it never met itself.
   */
  lemma NeighbourBootstrapReaches(p: Presence, r: Presence, uc: UserCodec, order: seq<Bytes>, x: Bytes)
    requires Valid(p) && Simple(r.graph) && UserRoundTrips(uc) && !p.bootstrapped
    requires Lists(order, NeighbourSnapshot(r, uc))
    requires forall k :: k in r.graph.nodes ==> k in order
    requires Reach.Reaches(r.graph.edges, p.self, x)
    ensures var b := Bootstrap(p, uc, Some(NeighbourSnapshot(r, uc)), order);
      b.bootstrapped && x in b.online
  {
    var snap := NeighbourSnapshot(r, uc);
    MergeAllDone(p, uc, snap, order);
    var m := MergeAll(p, uc, snap, order);
    MergeAllValid(p, uc, snap, order);
    forall e | e in r.graph.edges
      ensures e in m.p.graph.edges
    {
      assert (e.1, e.0) in r.graph.edges;
      if e.0 != p.self {
        var i :| 0 <= i < |order| && order[i] == e.0;
        MergeAllLinks(p, uc, snap, order, i, e.1);
      } else {
        var i :| 0 <= i < |order| && order[i] == e.1;
        MergeAllLinks(p, uc, snap, order, i, e.0);
      }
    }
    var q := m.p.(bootstrapped := true);
    Reach.ReachesMonotone(r.graph.edges, q.graph.edges, p.self, x);
    var w :| Reach.Walk(q.graph.edges, w) && w[0] == p.self && w[|w| - 1] == x;
    if |w| > 1 {
      assert (w[|w| - 2], x) in q.graph.edges;
    }
    RecalculateReach(q, x);
  }
}
