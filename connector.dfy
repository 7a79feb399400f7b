/**
 * The connection logic of `Connector` and the replacement logic of `BhNode`,
 * acting on the arena of `NodeGraphs`: connecting a node to a slot, choosing
 * the last default node snapshot, creating default nodes, copying a
 * connector, and `replace` / `remove`.
 */
module Connectors {
  import opened Wrappers
  import opened Ids
  import opened NodeModel
  import opened Undo
  import opened NodeGraphs

  /**
   * The node factory (`BhNodeFactory.create`) as far as the model needs it: a
   * node made from the template of an id carries that id and the template's
   * breakpoint setting.
   */
  datatype NodeFactory = NodeFactory(bpSettingOf: BhNodeId -> BreakpointSetting)

  /**
   * The copy constructor of `BhNode`: the template's fields and the default
   * flag are kept, while the parent connector, the workspace and the last
   * replaced node are cleared and the flags start out false.  The copies of the
   * connectors below the node are made by the node subclasses, which are not
   * part of this model, so the copy is a single record.
   */
  function CopyOf(org: Node): (r: Node)
    ensures r.id == org.id && r.bpSetting == org.bpSetting && r.isDefault == org.isDefault
    ensures r.parent.None? && r.ws.None? && r.lastReplaced.None?
    ensures !r.isSelected && !r.isBreakpointSet && !r.isCorrupted && r.connectors == []
  {
    Node(org.id, org.bpSetting, None, None, org.isDefault, false, false, false, None, [])
  }

  /** The record of a node the factory makes from the template of `id`. */
  function Created(f: NodeFactory, id: BhNodeId): Node {
    CopyOf(Node(id, f.bpSettingOf(id), None, None, false, false, false, false, None, []))
  }

  /** A copied or created node is in the DELETED state until it is connected or put on a workspace. */
  lemma CopyIsDeleted(g: Graph, n: NodeRef, org: Node)
    requires n < |g.nodes| && g.nodes[n] == CopyOf(org)
    ensures IsDeleted(g, n) && !IsRoot(g, n) && !IsChild(g, n)
  {
  }

  /** Apart from the links and the workspace fields, every node record is as it was. */
  predicate NodeDataKept(g: Graph, h: Graph) {
    && |g.nodes| == |h.nodes|
    && forall n | 0 <= n < |g.nodes| ::
         h.nodes[n] == g.nodes[n].(parent := h.nodes[n].parent, ws := h.nodes[n].ws, isSelected := h.nodes[n].isSelected)
  }

  lemma NodeDataKeptTrans(f: Graph, g: Graph, h: Graph)
    requires NodeDataKept(f, g) && NodeDataKept(g, h)
    ensures NodeDataKept(f, h)
  {
  }

  lemma WsFieldsOnlyKeepsData(g: Graph, h: Graph)
    requires WsFieldsOnly(g, h)
    ensures NodeDataKept(g, h)
  {
  }

  // ---------------------------------------------------------------------------
  // New nodes

  /** Puts a new record, with no links and no workspace, into the arena. */
  method AppendNode(g: NodeGraph, rec: Node) returns (n: NodeRef)
    requires g.Valid() && rec.parent.None? && rec.ws.None? && rec.lastReplaced.None? && rec.connectors == []
    modifies g
    ensures g.Valid() && n == |old(g.nodes)| && g.nodes == old(g.nodes) + [rec]
    ensures g.cnctrs == old(g.cnctrs) && g.wss == old(g.wss)
    ensures old(Linked(g.G())) ==> Linked(g.G())
    ensures old(WsConsistent(g.G())) ==> WsConsistent(g.G())
  {
    n := |g.nodes|;
    g.nodes := g.nodes + [rec];
    AppendKeeps(old(g.G()), g.G(), rec);
  }

  lemma AppendKeeps(g0: Graph, g1: Graph, rec: Node)
    requires Valid(g0) && rec.parent.None? && rec.ws.None? && rec.lastReplaced.None? && rec.connectors == []
    requires g1 == g0.(nodes := g0.nodes + [rec])
    ensures Valid(g1)
    ensures Linked(g0) ==> Linked(g1)
    ensures WsConsistent(g0) ==> WsConsistent(g1)
  {
    forall i | 0 <= i < |g1.nodes| ensures NodeOk(g1.nodes[i], |g1.nodes|, |g1.cnctrs|, |g1.wss|) {
      if i < |g0.nodes| {
        assert NodeOk(g0.nodes[i], |g0.nodes|, |g0.cnctrs|, |g0.wss|);
      }
    }
    forall i | 0 <= i < |g1.wss| ensures WsOk(g1.wss[i], |g1.nodes|) {
      assert WsOk(g0.wss[i], |g0.nodes|);
    }
    forall i | 0 <= i < |g1.cnctrs| ensures CnctrOk(g1.cnctrs[i], |g1.nodes|) {
      assert CnctrOk(g0.cnctrs[i], |g0.nodes|);
    }
  }

  /** `BhNodeFactory.create`: a new node made from the template of `id`. */
  method CreateNode(g: NodeGraph, f: NodeFactory, id: BhNodeId) returns (n: NodeRef)
    requires g.Valid()
    modifies g
    ensures g.Valid() && n == |old(g.nodes)| && g.nodes == old(g.nodes) + [Created(f, id)]
    ensures g.cnctrs == old(g.cnctrs) && g.wss == old(g.wss)
    ensures old(Linked(g.G())) ==> Linked(g.G())
    ensures old(WsConsistent(g.G())) ==> WsConsistent(g.G())
  {
    n := AppendNode(g, Created(f, id));
  }

  /** `BhNode.copy` of a node, as far as its own record goes. */
  method CopyNode(g: NodeGraph, org: NodeRef) returns (n: NodeRef)
    requires g.Valid() && org < |g.nodes|
    modifies g
    ensures g.Valid() && n == |old(g.nodes)| && g.nodes == old(g.nodes) + [CopyOf(old(g.nodes[org]))]
    ensures g.cnctrs == old(g.cnctrs) && g.wss == old(g.wss)
    ensures old(Linked(g.G())) ==> Linked(g.G())
    ensures old(WsConsistent(g.G())) ==> WsConsistent(g.G())
  {
    n := AppendNode(g, CopyOf(g.nodes[org]));
  }

  /** `BhNode.setDefault` on a node that nothing refers to yet. */
  method SetDefault(g: NodeGraph, n: NodeRef, val: bool)
    requires g.Valid() && n < |g.nodes|
    modifies g
    ensures g.Valid() && g.nodes == old(g.nodes)[n := old(g.nodes[n]).(isDefault := val)]
    ensures g.cnctrs == old(g.cnctrs) && g.wss == old(g.wss)
    ensures old(Linked(g.G())) ==> Linked(g.G())
    ensures old(WsConsistent(g.G())) ==> WsConsistent(g.G())
  {
    g.nodes := g.nodes[n := g.nodes[n].(isDefault := val)];
    assert NodeOk(g.nodes[n], |g.nodes|, |g.cnctrs|, |g.wss|) by {
      assert NodeOk(old(g.nodes[n]), |g.nodes|, |g.cnctrs|, |g.wss|);
    }
  }

  /**
   * `Connector.createDefaultNode`: without the restore option a node is made
   * from the default node id; with it, a default node still connected is
   * copied, else the last default node snapshot is copied, else a node is made
   * from the connector's own default id.  Whatever the path, the new node is a
   * default node and carries the id `getDefaultNodeId` reports.
   */
  method CreateDefaultNode(g: NodeGraph, f: NodeFactory, c: CnctrRef) returns (n: NodeRef)
    requires g.Valid() && c < |g.cnctrs|
    modifies g
    ensures g.Valid() && n == |old(g.nodes)| && |g.nodes| == n + 1 && g.nodes[..n] == old(g.nodes)
    ensures g.nodes[n].isDefault && g.nodes[n].id == old(GetDefaultNodeId(g.G(), c))
    ensures g.nodes[n].parent.None? && g.nodes[n].ws.None? && g.nodes[n].connectors == []
    ensures g.cnctrs == old(g.cnctrs) && g.wss == old(g.wss)
    ensures old(Linked(g.G())) ==> Linked(g.G())
    ensures old(WsConsistent(g.G())) ==> WsConsistent(g.G())
  {
    var cn := g.cnctrs[c];
    if !cn.restoreLastDefault {
      n := CreateNode(g, f, GetDefaultNodeId(g.G(), c));
    } else if cn.connected.Some? && g.nodes[cn.connected.value].isDefault {
      n := CopyNode(g, cn.connected.value);
    } else if cn.snapshot.Some? {
      n := CopyNode(g, cn.snapshot.value);
    } else {
      n := CreateNode(g, f, cn.defaultNodeId);
    }
    SetDefault(g, n, true);
  }

  // ---------------------------------------------------------------------------
  // Connecting

  /**
   * The links once `node` is connected to `c`: the node held until now loses
   * its parent connector, `c` holds `node`, and `node`'s parent is `c`.
   */
  function Relinked(g: Graph, c: CnctrRef, node: NodeRef): (r: Graph)
    requires Valid(g) && c < |g.cnctrs| && node < |g.nodes|
    ensures r.wss == g.wss && |r.nodes| == |g.nodes|
    ensures forall x | 0 <= x < |g.nodes| :: r.nodes[x] == g.nodes[x].(parent := r.nodes[x].parent)
    ensures r.cnctrs == g.cnctrs[c := g.cnctrs[c].(connected := Some(node))]
    ensures r.nodes[node].parent == Some(c)
    ensures g.cnctrs[c].connected.Some? && g.cnctrs[c].connected.value != node ==>
              r.nodes[g.cnctrs[c].connected.value].parent.None?
    ensures forall x | 0 <= x < |g.nodes| && x != node && Some(x) != g.cnctrs[c].connected ::
              r.nodes[x] == g.nodes[x]
  {
    var prior := g.cnctrs[c].connected;
    var ns := if prior.Some? then g.nodes[prior.value := g.nodes[prior.value].(parent := None)] else g.nodes;
    Graph(ns[node := ns[node].(parent := Some(c))], g.cnctrs[c := g.cnctrs[c].(connected := Some(node))], g.wss)
  }

  /**
   * Relinking keeps every reference valid, and keeps parent and child links in
   * agreement as long as `node` was hanging nowhere else.
   */
  lemma RelinkedKeeps(g: Graph, c: CnctrRef, node: NodeRef)
    requires Valid(g) && c < |g.cnctrs| && node < |g.nodes|
    ensures Valid(Relinked(g, c, node))
    ensures Linked(g) && (g.nodes[node].parent.None? || g.nodes[node].parent == Some(c)) ==>
              Linked(Relinked(g, c, node))
  {
    var r := Relinked(g, c, node);
    forall i | 0 <= i < |r.nodes| ensures NodeOk(r.nodes[i], |r.nodes|, |r.cnctrs|, |r.wss|) {
      assert NodeOk(g.nodes[i], |g.nodes|, |g.cnctrs|, |g.wss|);
    }
    forall i | 0 <= i < |r.cnctrs| ensures CnctrOk(r.cnctrs[i], |r.nodes|) {
      assert CnctrOk(g.cnctrs[i], |g.nodes|);
    }
    forall i | 0 <= i < |r.wss| ensures WsOk(r.wss[i], |r.nodes|) {
      assert WsOk(g.wss[i], |g.nodes|);
    }
    if Linked(g) && (g.nodes[node].parent.None? || g.nodes[node].parent == Some(c)) {
      var prior := g.cnctrs[c].connected;
      forall d | 0 <= d < |r.cnctrs| && r.cnctrs[d].connected.Some?
        ensures r.nodes[r.cnctrs[d].connected.value].parent == Some(d)
      {
        if d != c {
          var x := g.cnctrs[d].connected.value;
          assert g.nodes[x].parent == Some(d);
          assert x != node && Some(x) != prior;
        }
      }
      forall n | 0 <= n < |r.nodes| && r.nodes[n].parent.Some?
        ensures r.cnctrs[r.nodes[n].parent.value].connected == Some(n)
      {
        if n != node && Some(n) != prior {
          assert g.nodes[n].parent == r.nodes[n].parent;
          assert g.cnctrs[g.nodes[n].parent.value].connected == Some(n);
        }
      }
      forall n, k | 0 <= n < |r.nodes| && 0 <= k < |r.nodes[n].connectors|
        ensures r.cnctrs[r.nodes[n].connectors[k]].owner == n
      {
        assert r.nodes[n].connectors == g.nodes[n].connectors;
      }
    }
  }

  /** Links only agree or disagree through the shape of the graph. */
  lemma LinkedSameShape(g: Graph, h: Graph)
    requires Valid(g) && Valid(h) && SameShape(g, h) && Linked(g)
    ensures Linked(h)
  {
  }

  /** The connector and parent updates at the start of `connectImpl`. */
  method Relink(g: NodeGraph, c: CnctrRef, node: NodeRef)
    requires g.Valid() && c < |g.cnctrs| && node < |g.nodes|
    modifies g
    ensures g.G() == Relinked(old(g.G()), c, node) && g.Valid()
  {
    ghost var g0 := g.G();
    var prior := g.cnctrs[c].connected;
    if prior.Some? {
      g.nodes := g.nodes[prior.value := g.nodes[prior.value].(parent := None)];
    }
    g.cnctrs := g.cnctrs[c := g.cnctrs[c].(connected := Some(node))];
    g.nodes := g.nodes[node := g.nodes[node].(parent := Some(c))];
    RelinkedKeeps(g0, c, node);
  }

  /**
   * Runs `Workspace.onNodeConnected` of every workspace registered on `node`,
   * i.e. every workspace that lists it.
   */
  method NotifyConnected(g: NodeGraph, disconnected: Option<NodeRef>, node: NodeRef)
    requires g.Valid() && RefOk(disconnected, |g.nodes|) && node < |g.nodes|
    modifies g
    ensures g.Valid() && g.nodes == old(g.nodes) && g.cnctrs == old(g.cnctrs)
    ensures g.wss == ConnectionNotified(old(g.G()), disconnected, node)
  {
    g.wss := ConnectionNotified(g.G(), disconnected, node);
    forall i | 0 <= i < |g.wss| ensures WsOk(g.wss[i], |g.nodes|) {
      assert WsOk(old(g.wss[i]), |g.nodes|);
    }
  }

  /** `node` may be linked below `c` without breaking the links: it hangs nowhere else. */
  predicate Linkable(g: Graph, c: CnctrRef, node: NodeRef)
    requires Valid(g) && node < |g.nodes|
  {
    Linked(g) && (g.nodes[node].parent.None? || g.nodes[node].parent == Some(c))
  }

  /** Every node of the tree of `root` is listed by workspace `w`. */
  predicate TreeListed(g: Graph, root: NodeRef, w: WsRef)
    requires Valid(g) && root < |g.nodes| && w < |g.wss|
  {
    forall x | x in Subtree(g, root) :: x in g.wss[w].nodeList
  }

  /**
   * When the node replaced at `c` in `g0` was on a workspace other than that of
   * `node`, the tree of `node` is listed by that workspace in `h`.
   */
  predicate TreeTakenIn(g0: Graph, c: CnctrRef, node: NodeRef, h: Graph)
    requires Valid(g0) && c < |g0.cnctrs| && node < |g0.nodes|
    requires Valid(h) && node < |h.nodes| && |h.wss| == |g0.wss|
  {
    var prior := g0.cnctrs[c].connected;
    prior.Some? && g0.nodes[prior.value].ws.Some? && g0.nodes[node].ws != g0.nodes[prior.value].ws ==>
      TreeListed(h, node, g0.nodes[prior.value].ws.value)
  }

  /**
   * The state after the first half of `connectImpl`: the links change as
   * `Relinked` says, the node records keep their data, and the workspace of
   * the replaced node has taken in the tree of `node`.
   */
  predicate RelinkedAndListed(g0: Graph, c: CnctrRef, node: NodeRef, h: Graph)
    requires Valid(g0) && c < |g0.cnctrs| && node < |g0.nodes|
  {
    && Valid(h) && NodeDataKept(g0, h) && |h.wss| == |g0.wss|
    && h.cnctrs == g0.cnctrs[c := g0.cnctrs[c].(connected := Some(node))]
    && SameShape(Relinked(g0, c, node), h)
    && TreeTakenIn(g0, c, node, h)
    && (Linkable(g0, c, node) ==> Linked(h))
  }

  /**
   * The state after `connectImpl` apart from the root lists: as
   * `RelinkedAndListed`, with the snapshot of `c` set as well.
   */
  predicate Reconnected(g0: Graph, c: CnctrRef, node: NodeRef, snapshot: Option<NodeRef>, h: Graph)
    requires Valid(g0) && c < |g0.cnctrs| && node < |g0.nodes|
  {
    && Valid(h) && NodeDataKept(g0, h) && |h.wss| == |g0.wss|
    && h.cnctrs == g0.cnctrs[c := g0.cnctrs[c].(connected := Some(node), snapshot := snapshot)]
    && SameShape(Relinked(g0, c, node), h)
    && TreeTakenIn(g0, c, node, h)
    && (Linkable(g0, c, node) ==> Linked(h))
  }

  /** The state after `connectImpl`: `Reconnected`, with the root lists updated by the connection event. */
  predicate ConnectedState(g0: Graph, c: CnctrRef, node: NodeRef, snapshot: Option<NodeRef>, h: Graph)
    requires Valid(g0) && c < |g0.cnctrs| && node < |g0.nodes|
  {
    Reconnected(g0, c, node, snapshot, h) && RootsFollowConnection(h, g0.cnctrs[c].connected, node)
  }

  /**
   * The first half of `connectImpl`: the links change as `Relinked` says, and
   * the workspace of the replaced node, if it has one, takes in the tree of
   * `node` (`Workspace.addNodeTree`).
   */
  method RelinkAndList(g: NodeGraph, c: CnctrRef, node: NodeRef, ope: UserOperation)
    requires g.Valid() && c < |g.cnctrs| && node < |g.nodes|
    modifies g, ope
    ensures g.Valid() && RelinkedAndListed(old(g.G()), c, node, g.G())
    ensures Extends(ope.subOps, old(ope.subOps))
    ensures NoNewPlaces(old(g.G()), g.G(), Subtree(Relinked(old(g.G()), c, node), node))
    ensures PlacesKept(old(g.G()), g.G(), Subtree(Relinked(old(g.G()), c, node), node))
    ensures TakesPlaceOf(old(g.G()), c, node) ==> g.nodes[node].ws == old(g.nodes[g.cnctrs[c].connected.value].ws)
  {
    ghost var g0 := g.G();
    var prior := g.cnctrs[c].connected;
    Relink(g, c, node);
    ghost var g1 := g.G();
    RelinkedKeeps(g0, c, node);
    assert NoNewPlaces(g0, g1, Subtree(g1, node));
    assert PlacesKept(g0, g1, Subtree(g1, node));
    if prior.Some? && g.nodes[prior.value].ws.Some? {
      g.AddNodeTree(g.nodes[prior.value].ws.value, node, ope);
      NoNewPlacesTrans(g0, g1, g.G(), Subtree(g1, node));
      PlacesKeptTrans(g0, g1, g.G(), Subtree(g1, node));
    }
    RelinkedListedFrom(g0, g1, g.G(), c, node);
  }

  /** The facts behind `RelinkAndList`, from the two graph updates it makes. */
  lemma RelinkedListedFrom(g0: Graph, g1: Graph, g2: Graph, c: CnctrRef, node: NodeRef)
    requires Valid(g0) && c < |g0.cnctrs| && node < |g0.nodes|
    requires g1 == Relinked(g0, c, node) && Valid(g1) && Valid(g2) && WsFieldsOnly(g1, g2) && |g2.wss| == |g1.wss|
    requires var prior := g0.cnctrs[c].connected;
      prior.Some? && g1.nodes[prior.value].ws.Some? && g1.nodes[node].ws != g1.nodes[prior.value].ws ==>
        forall x | x in Subtree(g1, node) :: x in g2.wss[g1.nodes[prior.value].ws.value].nodeList
    ensures RelinkedAndListed(g0, c, node, g2)
  {
    WsFieldsOnlyKeepsData(g1, g2);
    NodeDataKeptTrans(g0, g1, g2);
    WsFieldsOnlyShape(g1, g2);
    SubtreeSameShape(g1, g2, node);
    if Linkable(g0, c, node) {
      RelinkedKeeps(g0, c, node);
      LinkedSameShape(g1, g2);
    }
  }

  /**
   * `Connector.connectImpl`: `node` takes the place of the connected node, the
   * replaced node's workspace takes in the tree of `node`, the snapshot is
   * set, the call that reverses all of this is logged, and the workspaces that
   * list `node` update their root lists.
   */
  method ConnectImpl(g: NodeGraph, c: CnctrRef, node: NodeRef, snapshot: Option<NodeRef>, ope: UserOperation)
    requires g.Valid() && c < |g.cnctrs| && node < |g.nodes| && RefOk(snapshot, |g.nodes|)
    modifies g, ope
    ensures g.Valid() && ConnectedState(old(g.G()), c, node, snapshot, g.G())
    ensures Extends(ope.subOps, old(ope.subOps)) && |ope.subOps| > |old(ope.subOps)|
    ensures ope.subOps[|ope.subOps| - 1] ==
      Anonymous(InverseAction.ConnectImpl(c, old(g.cnctrs[c].connected), old(g.cnctrs[c].snapshot)))
    ensures NoNewPlaces(old(g.G()), g.G(), Subtree(Relinked(old(g.G()), c, node), node) + HeldBy(old(g.G()), c))
    ensures PlacesKept(old(g.G()), g.G(), Subtree(Relinked(old(g.G()), c, node), node) + HeldBy(old(g.G()), c))
    ensures TakesPlaceOf(old(g.G()), c, node) ==> g.nodes[node].ws == old(g.nodes[g.cnctrs[c].connected.value].ws)
  {
    ghost var g0 := g.G();
    var prior := g.cnctrs[c].connected;
    var oldSnapshot := g.cnctrs[c].snapshot;
    RelinkAndList(g, c, node, ope);
    ghost var g2 := g.G();
    ghost var log2 := ope.subOps;
    g.cnctrs := g.cnctrs[c := g.cnctrs[c].(snapshot := snapshot)];
    assert CnctrOk(g.cnctrs[c], |g.nodes|) by {
      assert CnctrOk(g2.cnctrs[c], |g.nodes|);
    }
    ope.PushCmd(InverseAction.ConnectImpl(c, prior, oldSnapshot));
    ExtendsTrans(ope.subOps, log2, old(ope.subOps));
    ghost var g3 := g.G();
    NotifyConnected(g, prior, node);
    ConnectedFrom(g0, g2, g3, g.G(), c, node, snapshot);
    NotifiedFrames(g0, g2, g3, g.G(), c, node);
  }

  /**
   * `c` holds a node on a workspace, and `node` is on that workspace or not
   * listed by it: connecting `node` to `c` puts it on that workspace.
   */
  predicate TakesPlaceOf(g: Graph, c: CnctrRef, node: NodeRef)
    requires Valid(g) && c < |g.cnctrs| && node < |g.nodes|
  {
    var prior := g.cnctrs[c].connected;
    && prior.Some? && g.nodes[prior.value].ws.Some?
    && (g.nodes[node].ws == g.nodes[prior.value].ws || node !in g.wss[g.nodes[prior.value].ws.value].nodeList)
  }

  /** The node `c` holds, as a list of at most one node. */
  function HeldBy(g: Graph, c: CnctrRef): (r: seq<NodeRef>)
    requires c < |g.cnctrs|
    ensures forall x :: x in r <==> g.cnctrs[c].connected == Some(x)
  {
    if g.cnctrs[c].connected.Some? then [g.cnctrs[c].connected.value] else []
  }

  /**
   * Past the tree of `node`, `connectImpl` places only the node it
   * disconnects: the connection event may put that one on a root list.
   */
  lemma NotifiedFrames(g0: Graph, g2: Graph, g3: Graph, g4: Graph, c: CnctrRef, node: NodeRef)
    requires Valid(g0) && c < |g0.cnctrs| && node < |g0.nodes|
    requires NoNewPlaces(g0, g2, Subtree(Relinked(g0, c, node), node)) && Valid(g3)
    requires PlacesKept(g0, g2, Subtree(Relinked(g0, c, node), node))
    requires g3.nodes == g2.nodes && g3.wss == g2.wss
    requires g4 == g3.(wss := ConnectionNotified(g3, g0.cnctrs[c].connected, node))
    ensures NoNewPlaces(g0, g4, Subtree(Relinked(g0, c, node), node) + HeldBy(g0, c))
    ensures PlacesKept(g0, g4, Subtree(Relinked(g0, c, node), node) + HeldBy(g0, c))
  {
    var except := Subtree(Relinked(g0, c, node), node) + HeldBy(g0, c);
    NoNewPlacesWiden(g0, g2, Subtree(Relinked(g0, c, node), node), except);
    PlacesKeptWiden(g0, g2, Subtree(Relinked(g0, c, node), node), except);
    assert PlacesKept(g3, g4, except);
    PlacesKeptTrans(g0, g3, g4, except);
    forall j, y | 0 <= j < |g3.wss| && 0 <= y < |g3.nodes| && y !in except && y in g4.wss[j].rootNodes
      ensures y in g3.wss[j].rootNodes
    {
      assert Subtree(Relinked(g0, c, node), node)[0] == node;
    }
    assert NoNewPlaces(g3, g4, except);
    NoNewPlacesTrans(g0, g3, g4, except);
  }

  /**
   * The root lists after a connection event: a workspace listing the connected
   * node does not hold it as a root, and holds the disconnected node as a root
   * when that node is now a root of this workspace.
   */
  predicate RootsFollowConnection(g: Graph, disconnected: Option<NodeRef>, connected: NodeRef)
    requires Valid(g) && RefOk(disconnected, |g.nodes|)
  {
    forall i | 0 <= i < |g.wss| && connected in g.wss[i].nodeList ::
      && connected !in g.wss[i].rootNodes
      && (disconnected.Some? && disconnected.value != connected &&
          IsRoot(g, disconnected.value) && g.nodes[disconnected.value].ws == Some(i) ==>
            disconnected.value in g.wss[i].rootNodes)
  }

  /** `onNodeConnected`, run by every workspace listing the connected node, leaves the root lists as described. */
  lemma NotifiedRootsFollow(g: Graph, disconnected: Option<NodeRef>, connected: NodeRef)
    requires Valid(g) && RefOk(disconnected, |g.nodes|)
    requires Valid(g.(wss := ConnectionNotified(g, disconnected, connected)))
    ensures RootsFollowConnection(g.(wss := ConnectionNotified(g, disconnected, connected)), disconnected, connected)
  {
    var h := g.(wss := ConnectionNotified(g, disconnected, connected));
    forall i | 0 <= i < |h.wss| && connected in h.wss[i].nodeList
      ensures connected !in h.wss[i].rootNodes
      ensures disconnected.Some? && disconnected.value != connected &&
              IsRoot(h, disconnected.value) && h.nodes[disconnected.value].ws == Some(i) ==>
                disconnected.value in h.wss[i].rootNodes
    {
      assert h.wss[i] == NodeConnected(g, i, disconnected, connected);
      assert IsRoot(h, connected) == IsRoot(g, connected);
      if disconnected.Some? {
        assert IsRoot(h, disconnected.value) == IsRoot(g, disconnected.value);
      }
    }
  }

  /** The facts behind `ConnectImpl`, from the state after `RelinkAndList` and the two updates that follow. */
  lemma ConnectedFrom(g0: Graph, g2: Graph, g3: Graph, g4: Graph, c: CnctrRef, node: NodeRef, snap: Option<NodeRef>)
    requires Valid(g0) && c < |g0.cnctrs| && node < |g0.nodes|
    requires RelinkedAndListed(g0, c, node, g2)
    requires g3 == g2.(cnctrs := g2.cnctrs[c := g2.cnctrs[c].(snapshot := snap)]) && Valid(g3)
    requires g4 == g3.(wss := ConnectionNotified(g3, g0.cnctrs[c].connected, node)) && Valid(g4)
    ensures ConnectedState(g0, c, node, snap, g4)
  {
    SnapshotSetKeeps(g0, g2, g3, c, node, snap);
    NotifiedKeeps(g0, g3, g4, c, node, snap);
    NotifiedRootsFollow(g3, g0.cnctrs[c].connected, node);
  }

  /** Setting the snapshot changes nothing else. */
  lemma SnapshotSetKeeps(g0: Graph, g2: Graph, g3: Graph, c: CnctrRef, node: NodeRef, snap: Option<NodeRef>)
    requires Valid(g0) && c < |g0.cnctrs| && node < |g0.nodes|
    requires RelinkedAndListed(g0, c, node, g2)
    requires g3 == g2.(cnctrs := g2.cnctrs[c := g2.cnctrs[c].(snapshot := snap)]) && Valid(g3)
    ensures Reconnected(g0, c, node, snap, g3)
  {
    assert SameShape(g2, g3);
    SameShapeTrans(Relinked(g0, c, node), g2, g3);
    TreeTakenInKept(g0, c, node, g2, g3);
    if Linkable(g0, c, node) {
      LinkedSameShape(g2, g3);
    }
  }

  /** The connection event changes only root lists. */
  lemma NotifiedKeeps(g0: Graph, g3: Graph, g4: Graph, c: CnctrRef, node: NodeRef, snap: Option<NodeRef>)
    requires Valid(g0) && c < |g0.cnctrs| && node < |g0.nodes|
    requires Reconnected(g0, c, node, snap, g3)
    requires g4 == g3.(wss := ConnectionNotified(g3, g0.cnctrs[c].connected, node)) && Valid(g4)
    ensures Reconnected(g0, c, node, snap, g4)
  {
    assert SameShape(g3, g4);
    SameShapeTrans(Relinked(g0, c, node), g3, g4);
    TreeTakenInKept(g0, c, node, g3, g4);
    if Linkable(g0, c, node) {
      LinkedSameShape(g3, g4);
    }
  }

  /** The tree listing survives changes that keep the links and the node lists. */
  lemma TreeTakenInKept(g0: Graph, c: CnctrRef, node: NodeRef, g2: Graph, g4: Graph)
    requires Valid(g0) && c < |g0.cnctrs| && node < |g0.nodes|
    requires Valid(g2) && node < |g2.nodes| && |g2.wss| == |g0.wss| && TreeTakenIn(g0, c, node, g2)
    requires Valid(g4) && SameShape(g2, g4) && |g4.wss| == |g2.wss|
    requires forall i | 0 <= i < |g2.wss| :: g4.wss[i].nodeList == g2.wss[i].nodeList
    ensures TreeTakenIn(g0, c, node, g4)
  {
    SubtreeSameShape(g2, g4, node);
  }

  // ---------------------------------------------------------------------------
  // connect

  /**
   * The arena once `computeNextDefaultNodeSnapshot` has run: when a default
   * node gives way to a non-default one, a copy of the default node is added.
   */
  function WithSnapshotCopy(g: Graph, c: CnctrRef, node: NodeRef): (r: Graph)
    requires Valid(g) && c < |g.cnctrs| && node < |g.nodes|
    ensures Valid(r) && r.cnctrs == g.cnctrs && r.wss == g.wss
    ensures var rule := NextSnapshotRule(g, c, node);
      r.nodes == g.nodes + (if rule.CopyOfOld? then [CopyOf(g.nodes[rule.prior])] else [])
    ensures Linked(g) ==> Linked(r)
    ensures WsConsistent(g) ==> WsConsistent(r)
  {
    match NextSnapshotRule(g, c, node)
    case CopyOfOld(p) =>
      AppendKeeps(g, g.(nodes := g.nodes + [CopyOf(g.nodes[p])]), CopyOf(g.nodes[p]));
      g.(nodes := g.nodes + [CopyOf(g.nodes[p])])
    case _ => g
  }

  /** The snapshot `connect` hands to `connectImpl`, as a node of `WithSnapshotCopy`. */
  function SnapshotAfter(g: Graph, c: CnctrRef, node: NodeRef): (r: Option<NodeRef>)
    requires Valid(g) && c < |g.cnctrs| && node < |g.nodes|
    ensures g.nodes[node].isDefault ==> r.None?
    ensures !g.nodes[node].isDefault && g.cnctrs[c].connected.Some? && g.nodes[g.cnctrs[c].connected.value].isDefault ==>
              r == Some(|g.nodes|)
    ensures !g.nodes[node].isDefault && !(g.cnctrs[c].connected.Some? && g.nodes[g.cnctrs[c].connected.value].isDefault) ==>
              r == g.cnctrs[c].snapshot
  {
    match NextSnapshotRule(g, c, node)
    case ClearSnapshot => None
    case CopyOfOld(_) => Some(|g.nodes|)
    case KeepSnapshot => g.cnctrs[c].snapshot
  }

  /**
   * `Connector.computeNextDefaultNodeSnapshot`: no snapshot when the new node
   * is a default node, a fresh copy of the default node that gives way to a
   * non-default one, and otherwise the current snapshot.
   */
  method NextSnapshot(g: NodeGraph, c: CnctrRef, node: NodeRef) returns (snapshot: Option<NodeRef>)
    requires g.Valid() && c < |g.cnctrs| && node < |g.nodes|
    modifies g
    ensures g.G() == WithSnapshotCopy(old(g.G()), c, node) && g.Valid()
    ensures snapshot == SnapshotAfter(old(g.G()), c, node) && RefOk(snapshot, |g.nodes|)
  {
    match NextSnapshotRule(g.G(), c, node) {
      case ClearSnapshot =>
        snapshot := None;
      case CopyOfOld(p) =>
        var copy := CopyNode(g, p);
        snapshot := Some(copy);
      case KeepSnapshot =>
        snapshot := g.cnctrs[c].snapshot;
    }
  }

  /**
   * `Connector.connect`: computes the next default node snapshot, then runs
   * `connectImpl`.  The copy made for the snapshot has its derivatives removed
   * in the source; derivatives are not part of this model.
   */
  method Connect(g: NodeGraph, c: CnctrRef, node: NodeRef, ope: UserOperation)
    requires g.Valid() && c < |g.cnctrs| && node < |g.nodes|
    modifies g, ope
    ensures g.Valid()
    ensures ConnectedState(WithSnapshotCopy(old(g.G()), c, node), c, node, SnapshotAfter(old(g.G()), c, node), g.G())
    ensures Extends(ope.subOps, old(ope.subOps)) && |ope.subOps| > |old(ope.subOps)|
    ensures ope.subOps[|ope.subOps| - 1] ==
      Anonymous(InverseAction.ConnectImpl(c, old(g.cnctrs[c].connected), old(g.cnctrs[c].snapshot)))
    ensures old(g.nodes[node].connectors) == [] ==> NoNewPlaces(old(g.G()), g.G(), [node] + HeldBy(old(g.G()), c))
    ensures old(g.nodes[node].connectors) == [] ==> PlacesKept(old(g.G()), g.G(), [node] + HeldBy(old(g.G()), c))
    ensures TakesPlaceOf(old(g.G()), c, node) ==> g.nodes[node].ws == old(g.nodes[g.cnctrs[c].connected.value].ws)
  {
    ghost var g0 := g.G();
    var snapshot := NextSnapshot(g, c, node);
    ghost var g1 := g.G();
    ConnectImpl(g, c, node, snapshot, ope);
    ConnectKeepsPlaces(g0, g1, g.G(), c, node);
  }

  /** What `connectImpl` keeps, restated for the graph before the snapshot copy. */
  lemma ConnectKeepsPlaces(g0: Graph, g1: Graph, h: Graph, c: CnctrRef, node: NodeRef)
    requires Valid(g0) && c < |g0.cnctrs| && node < |g0.nodes| && g1 == WithSnapshotCopy(g0, c, node)
    requires node < |h.nodes|
    requires NoNewPlaces(g1, h, Subtree(Relinked(g1, c, node), node) + HeldBy(g1, c))
    requires PlacesKept(g1, h, Subtree(Relinked(g1, c, node), node) + HeldBy(g1, c))
    requires TakesPlaceOf(g1, c, node) ==> h.nodes[node].ws == g1.nodes[g1.cnctrs[c].connected.value].ws
    ensures g0.nodes[node].connectors == [] ==> NoNewPlaces(g0, h, [node] + HeldBy(g0, c))
    ensures g0.nodes[node].connectors == [] ==> PlacesKept(g0, h, [node] + HeldBy(g0, c))
    ensures TakesPlaceOf(g0, c, node) ==> h.nodes[node].ws == g0.nodes[g0.cnctrs[c].connected.value].ws
  {
    if g0.nodes[node].connectors == [] {
      LeafConnectNoNewPlaces(g0, g1, h, c, node);
    }
    SnapshotCopyKeepsWs(g0, g1, h, c, node);
  }

  /** The snapshot copy changes neither which node `c` holds nor any workspace of an old node. */
  lemma SnapshotCopyKeepsWs(g0: Graph, g1: Graph, h: Graph, c: CnctrRef, node: NodeRef)
    requires Valid(g0) && c < |g0.cnctrs| && node < |g0.nodes| && g1 == WithSnapshotCopy(g0, c, node)
    requires node < |h.nodes|
    requires TakesPlaceOf(g1, c, node) ==> h.nodes[node].ws == g1.nodes[g1.cnctrs[c].connected.value].ws
    ensures TakesPlaceOf(g0, c, node) ==> h.nodes[node].ws == g0.nodes[g0.cnctrs[c].connected.value].ws
  {
    if TakesPlaceOf(g0, c, node) {
      assert g1.nodes[..|g0.nodes|] == g0.nodes;
      assert TakesPlaceOf(g1, c, node);
    }
  }

  /** Connecting a node with no connectors places nothing but it and the node it displaces. */
  lemma LeafConnectNoNewPlaces(g0: Graph, g1: Graph, h: Graph, c: CnctrRef, node: NodeRef)
    requires Valid(g0) && c < |g0.cnctrs| && node < |g0.nodes| && g0.nodes[node].connectors == []
    requires g1 == WithSnapshotCopy(g0, c, node)
    requires NoNewPlaces(g1, h, Subtree(Relinked(g1, c, node), node) + HeldBy(g1, c))
    requires PlacesKept(g1, h, Subtree(Relinked(g1, c, node), node) + HeldBy(g1, c))
    ensures NoNewPlaces(g0, h, [node] + HeldBy(g0, c))
    ensures PlacesKept(g0, h, [node] + HeldBy(g0, c))
  {
    SubtreeOfLeaf(Relinked(g1, c, node), node);
    assert NoNewPlaces(g0, g1, [node] + HeldBy(g0, c));
    NoNewPlacesTrans(g0, g1, h, [node] + HeldBy(g0, c));
    assert PlacesKept(g0, g1, [node] + HeldBy(g0, c));
    PlacesKeptTrans(g0, g1, h, [node] + HeldBy(g0, c));
  }

  /**
   * After `connectImpl`, `c` holds `node`, `node` hangs below `c`, the node
   * held until now hangs nowhere, and every other node keeps its parent.
   */
  lemma ConnectedLinks(g0: Graph, c: CnctrRef, node: NodeRef, snap: Option<NodeRef>, h: Graph)
    requires Valid(g0) && c < |g0.cnctrs| && node < |g0.nodes| && ConnectedState(g0, c, node, snap, h)
    ensures |h.nodes| == |g0.nodes| && |h.cnctrs| == |g0.cnctrs|
    ensures h.cnctrs[c].connected == Some(node) && h.cnctrs[c].snapshot == snap
    ensures h.nodes[node].parent == Some(c)
    ensures g0.cnctrs[c].connected.Some? && g0.cnctrs[c].connected.value != node ==>
              h.nodes[g0.cnctrs[c].connected.value].parent.None?
    ensures forall x | 0 <= x < |g0.nodes| && x != node && Some(x) != g0.cnctrs[c].connected ::
              h.nodes[x].parent == g0.nodes[x].parent
    ensures forall x | 0 <= x < |g0.nodes| :: h.nodes[x].id == g0.nodes[x].id && h.nodes[x].isDefault == g0.nodes[x].isDefault
  {
    var r := Relinked(g0, c, node);
    assert h.nodes[node].parent == r.nodes[node].parent;
    forall x | 0 <= x < |g0.nodes| && x != node && Some(x) != g0.cnctrs[c].connected
      ensures h.nodes[x].parent == g0.nodes[x].parent
    {
      assert h.nodes[x].parent == r.nodes[x].parent;
    }
    if g0.cnctrs[c].connected.Some? && g0.cnctrs[c].connected.value != node {
      assert h.nodes[g0.cnctrs[c].connected.value].parent == r.nodes[g0.cnctrs[c].connected.value].parent;
    }
  }

  /**
   * The command `connectImpl` logs, run right after it, puts the links and the
   * connector back: connecting the old node with the old snapshot restores
   * every connector and every parent link, as long as the links agreed and
   * `node` hung nowhere before.
   */
  lemma ConnectUndoRestores(g0: Graph, c: CnctrRef, node: NodeRef, snap: Option<NodeRef>, h: Graph, h2: Graph)
    requires Valid(g0) && c < |g0.cnctrs| && node < |g0.nodes| && ConnectedState(g0, c, node, snap, h)
    requires Linked(g0) && g0.nodes[node].parent.None? && g0.cnctrs[c].connected.Some?
    requires ConnectedState(h, c, g0.cnctrs[c].connected.value, g0.cnctrs[c].snapshot, h2)
    ensures h2.cnctrs == g0.cnctrs
    ensures SameShape(g0, h2) && NodeDataKept(g0, h2)
  {
    var prior := g0.cnctrs[c].connected.value;
    ConnectedLinks(g0, c, node, snap, h);
    ConnectedLinks(h, c, prior, g0.cnctrs[c].snapshot, h2);
    assert g0.nodes[prior].parent == Some(c);
    assert prior != node;
    forall x | 0 <= x < |g0.nodes| ensures h2.nodes[x].parent == g0.nodes[x].parent {
      if x == node {
      } else if x == prior {
      } else {
        assert h.nodes[x].parent == g0.nodes[x].parent;
      }
    }
    NodeDataKeptTrans(g0, h, h2);
  }

  // ---------------------------------------------------------------------------
  // copy

  /** Puts a new connector, holding no node yet, into the arena. */
  method AppendConnector(g: NodeGraph, rec: Connector) returns (nc: CnctrRef)
    requires g.Valid() && rec.owner < |g.nodes| && rec.connected.None? && RefOk(rec.snapshot, |g.nodes|)
    modifies g
    ensures g.Valid() && nc == |old(g.cnctrs)| && g.cnctrs == old(g.cnctrs) + [rec]
    ensures g.nodes == old(g.nodes) && g.wss == old(g.wss)
    ensures old(Linked(g.G())) ==> Linked(g.G())
  {
    nc := |g.cnctrs|;
    g.cnctrs := g.cnctrs + [rec];
    AppendConnectorKeeps(old(g.G()), g.G(), rec);
  }

  lemma AppendConnectorKeeps(g0: Graph, g1: Graph, rec: Connector)
    requires Valid(g0) && rec.owner < |g0.nodes| && rec.connected.None? && RefOk(rec.snapshot, |g0.nodes|)
    requires g1 == g0.(cnctrs := g0.cnctrs + [rec])
    ensures Valid(g1)
    ensures Linked(g0) ==> Linked(g1)
  {
    forall i | 0 <= i < |g1.nodes| ensures NodeOk(g1.nodes[i], |g1.nodes|, |g1.cnctrs|, |g1.wss|) {
      assert NodeOk(g0.nodes[i], |g0.nodes|, |g0.cnctrs|, |g0.wss|);
    }
    forall i | 0 <= i < |g1.cnctrs| ensures CnctrOk(g1.cnctrs[i], |g1.nodes|) {
      if i < |g0.cnctrs| {
        assert CnctrOk(g0.cnctrs[i], |g0.nodes|);
      }
    }
    forall i | 0 <= i < |g1.wss| ensures WsOk(g1.wss[i], |g1.nodes|) {
      assert WsOk(g0.wss[i], |g0.nodes|);
    }
  }

  /**
   * `Connector.copy`: the child copy made by the caller is connected to a new
   * connector with the parameters of `c`, or, when there is none, a new
   * default node of `c` is.  The new connector starts with a copy of the last
   * default node snapshot of `c`.  The connection is logged to a scratch
   * operation, so `ope`-style undo is not involved.  The owner's connector
   * list is filled in by the connector section, which is not part of this
   * model.
   */
  method CopyConnector(g: NodeGraph, f: NodeFactory, c: CnctrRef, owner: NodeRef, childCopy: Option<NodeRef>)
    returns (nc: CnctrRef)
    requires g.Valid() && c < |g.cnctrs| && owner < |g.nodes| && RefOk(childCopy, |g.nodes|)
    modifies g
    ensures g.Valid() && nc == |old(g.cnctrs)| && |g.cnctrs| == nc + 1 && g.cnctrs[..nc] == old(g.cnctrs)
    ensures var cn := g.cnctrs[nc]; var org := old(g.cnctrs[c]);
      && cn.owner == owner && cn.fixed == org.fixed && cn.defaultNodeId == org.defaultNodeId
      && cn.restoreLastDefault == org.restoreLastDefault
    ensures g.cnctrs[nc].connected == Some(if childCopy.Some? then childCopy.value else |old(g.nodes)|)
    ensures childCopy.None? ==>
      |g.nodes| > |old(g.nodes)| && g.nodes[|old(g.nodes)|].isDefault && g.nodes[|old(g.nodes)|].id == old(GetDefaultNodeId(g.G(), c))
    ensures var child := g.cnctrs[nc].connected.value;
      child < |g.nodes| && g.nodes[child].parent == Some(nc)
    ensures var child := g.cnctrs[nc].connected.value;
      && (g.nodes[child].isDefault ==> g.cnctrs[nc].snapshot.None?)
      && (!g.nodes[child].isDefault ==>
            (g.cnctrs[nc].snapshot.Some? <==> old(g.cnctrs[c].snapshot).Some?))
      && (!g.nodes[child].isDefault && g.cnctrs[nc].snapshot.Some? ==>
            g.cnctrs[nc].snapshot.value < |g.nodes| &&
            g.nodes[g.cnctrs[nc].snapshot.value].id == old(g.nodes[g.cnctrs[c].snapshot.value].id))
    ensures old(Linked(g.G())) && (childCopy.Some? ==> old(g.nodes[childCopy.value].parent).None?) ==> Linked(g.G())
  {
    var newNode;
    nc, newNode := NewConnectorFor(g, f, c, owner, childCopy);
    ghost var g1 := g.G();
    var scratch := new UserOperation();
    Connect(g, nc, newNode, scratch);
    CopiedConnectorLinks(g1, nc, newNode, g.G());
  }

  /**
   * The part of `Connector.copy` before the connection: the node to connect,
   * and the new connector made by the copy constructor, which holds a copy
   * of the last default node snapshot of `c`.
   */
  method NewConnectorFor(g: NodeGraph, f: NodeFactory, c: CnctrRef, owner: NodeRef, childCopy: Option<NodeRef>)
    returns (nc: CnctrRef, newNode: NodeRef)
    requires g.Valid() && c < |g.cnctrs| && owner < |g.nodes| && RefOk(childCopy, |g.nodes|)
    modifies g
    ensures g.Valid() && nc == |old(g.cnctrs)| && newNode < |g.nodes| && |g.cnctrs| == nc + 1
    ensures g.cnctrs == old(g.cnctrs) + [old(g.cnctrs[c]).(owner := owner, connected := None, snapshot := g.cnctrs[nc].snapshot)]
    ensures |g.nodes| >= |old(g.nodes)| && g.nodes[..|old(g.nodes)|] == old(g.nodes) && g.wss == old(g.wss)
    ensures newNode == if childCopy.Some? then childCopy.value else |old(g.nodes)|
    ensures childCopy.None? ==>
      g.nodes[newNode].isDefault && g.nodes[newNode].id == old(GetDefaultNodeId(g.G(), c)) && g.nodes[newNode].parent.None?
    ensures g.cnctrs[nc].snapshot.Some? <==> old(g.cnctrs[c].snapshot).Some?
    ensures g.cnctrs[nc].snapshot.Some? ==>
      g.nodes[g.cnctrs[nc].snapshot.value].id == old(g.nodes[g.cnctrs[c].snapshot.value].id)
    ensures old(Linked(g.G())) ==> Linked(g.G())
  {
    if childCopy.Some? {
      newNode := childCopy.value;
    } else {
      newNode := CreateDefaultNode(g, f, c);
    }
    var org := g.cnctrs[c];
    var snapshot: Option<NodeRef> := None;
    if org.snapshot.Some? {
      var copy := CopyNode(g, org.snapshot.value);
      snapshot := Some(copy);
    }
    nc := AppendConnector(g, org.(owner := owner, connected := None, snapshot := snapshot));
  }

  /** What `connect` does to a connector that holds no node yet. */
  lemma CopiedConnectorLinks(g1: Graph, nc: CnctrRef, node: NodeRef, h: Graph)
    requires Valid(g1) && nc < |g1.cnctrs| && node < |g1.nodes| && g1.cnctrs[nc].connected.None?
    requires ConnectedState(WithSnapshotCopy(g1, nc, node), nc, node, SnapshotAfter(g1, nc, node), h)
    ensures WithSnapshotCopy(g1, nc, node) == g1
    ensures |h.nodes| == |g1.nodes| && |h.cnctrs| == |g1.cnctrs|
    ensures h.cnctrs == g1.cnctrs[nc := g1.cnctrs[nc].(connected := Some(node), snapshot := SnapshotAfter(g1, nc, node))]
    ensures h.nodes[node].parent == Some(nc)
    ensures h.nodes[node].isDefault == g1.nodes[node].isDefault
    ensures g1.nodes[node].isDefault ==> SnapshotAfter(g1, nc, node).None?
    ensures !g1.nodes[node].isDefault ==> SnapshotAfter(g1, nc, node) == g1.cnctrs[nc].snapshot
    ensures forall x | 0 <= x < |g1.nodes| :: h.nodes[x].id == g1.nodes[x].id && h.nodes[x].isDefault == g1.nodes[x].isDefault
    ensures Linked(g1) && g1.nodes[node].parent.None? ==> Linked(h)
  {
    ConnectedLinks(g1, nc, node, SnapshotAfter(g1, nc, node), h);
  }
}
