/**
 * The node tree of a block program as values: nodes (`BhNode`), their slots
 * (`Connector`) and the workspaces (`Workspace`) that hold them, each record
 * referring to the others by identity.  This module holds the records, the
 * well-formedness conditions, and the queries that read the tree without
 * changing it; `NodeGraphs` holds the operations that change it.
 */
module NodeModel {
  import opened Wrappers
  import opened Ids
  import opened SequencedSets

  /** `BreakpointSetting` of a node template. */
  datatype BreakpointSetting = Set | Ignore | SpecifyParent

  /** `BhNode.State`. */
  datatype State = Root | Child | Deleted

  /**
   * The fields of a `BhNode`.  `connectors` lists the slots of a connective
   * node in the order the tree walk visits them; a text node has none.
   */
  datatype Node = Node(
    id: BhNodeId,
    bpSetting: BreakpointSetting,
    parent: Option<CnctrRef>,
    ws: Option<WsRef>,
    isDefault: bool,
    isSelected: bool,
    isBreakpointSet: bool,
    isCorrupted: bool,
    lastReplaced: Option<NodeRef>,
    connectors: seq<CnctrRef>)

  /**
   * The fields of a `Connector` and its creation parameters: `owner` is the node
   * whose slot it is, `snapshot` the last default node snapshot.
   */
  datatype Connector = Connector(
    owner: NodeRef,
    connected: Option<NodeRef>,
    snapshot: Option<NodeRef>,
    fixed: bool,
    defaultNodeId: BhNodeId,
    restoreLastDefault: bool)

  /** The fields of a `Workspace`; the three lists are insertion-ordered sets. */
  datatype Workspace = Workspace(
    name: string,
    rootNodes: seq<NodeRef>,
    nodeList: seq<NodeRef>,
    selectedList: seq<NodeRef>)

  /** All nodes, connectors and workspaces, indexed by their references. */
  datatype Graph = Graph(nodes: seq<Node>, cnctrs: seq<Connector>, wss: seq<Workspace>)

  predicate RefOk(r: Option<nat>, bound: nat) {
    r.Some? ==> r.value < bound
  }

  predicate NodeOk(n: Node, numNodes: nat, numCnctrs: nat, numWss: nat) {
    && RefOk(n.parent, numCnctrs)
    && RefOk(n.ws, numWss)
    && RefOk(n.lastReplaced, numNodes)
    && (forall k | 0 <= k < |n.connectors| :: n.connectors[k] < numCnctrs)
  }

  predicate CnctrOk(c: Connector, numNodes: nat) {
    c.owner < numNodes && RefOk(c.connected, numNodes) && RefOk(c.snapshot, numNodes)
  }

  predicate WsOk(w: Workspace, numNodes: nat) {
    && (forall x | x in w.rootNodes :: x < numNodes)
    && (forall x | x in w.nodeList :: x < numNodes)
    && (forall x | x in w.selectedList :: x < numNodes)
  }

  /** Every reference held anywhere in the graph names an existing object. */
  predicate Valid(g: Graph) {
    && (forall i | 0 <= i < |g.nodes| :: NodeOk(g.nodes[i], |g.nodes|, |g.cnctrs|, |g.wss|))
    && (forall i | 0 <= i < |g.cnctrs| :: CnctrOk(g.cnctrs[i], |g.nodes|))
    && (forall i | 0 <= i < |g.wss| :: WsOk(g.wss[i], |g.nodes|))
  }

  /**
   * Parent and child links agree: a connector's node has that connector as its
   * parent, a node's parent connector holds it, and a node's connectors are
   * owned by it.
   */
  predicate Linked(g: Graph)
    requires Valid(g)
  {
    && (forall c | 0 <= c < |g.cnctrs| && g.cnctrs[c].connected.Some? ::
          g.nodes[g.cnctrs[c].connected.value].parent == Some(c))
    && (forall n | 0 <= n < |g.nodes| && g.nodes[n].parent.Some? ::
          g.cnctrs[g.nodes[n].parent.value].connected == Some(n))
    && (forall n, k | 0 <= n < |g.nodes| && 0 <= k < |g.nodes[n].connectors| ::
          g.cnctrs[g.nodes[n].connectors[k]].owner == n)
  }

  /**
   * The workspace bookkeeping agrees with the nodes: the three lists hold no
   * repetitions, a node is listed by a workspace exactly when its workspace
   * field names it, and a node in a selection list is listed there and selected.
   */
  predicate WsConsistent(g: Graph) {
    ListsDistinct(g) && ListedCarryWs(g) && WsListed(g) && SelectionListed(g)
  }

  predicate ListsDistinct(g: Graph) {
    forall w | 0 <= w < |g.wss| ::
      Distinct(g.wss[w].rootNodes) && Distinct(g.wss[w].nodeList) && Distinct(g.wss[w].selectedList)
  }

  /** A node listed by a workspace names it as its workspace. */
  predicate ListedCarryWs(g: Graph) {
    forall w, x {:trigger x in g.wss[w].nodeList} | 0 <= w < |g.wss| && x in g.wss[w].nodeList :: x < |g.nodes| && g.nodes[x].ws == Some(w)
  }

  /** A node with a workspace is listed there. */
  predicate WsListed(g: Graph) {
    forall x | 0 <= x < |g.nodes| && g.nodes[x].ws.Some? ::
      g.nodes[x].ws.value < |g.wss| && x in g.wss[g.nodes[x].ws.value].nodeList
  }

  /** A node in a selection list is listed by that workspace and selected. */
  predicate SelectionListed(g: Graph) {
    forall w, x {:trigger x in g.wss[w].selectedList} | 0 <= w < |g.wss| && x in g.wss[w].selectedList ::
      x in g.wss[w].nodeList && x < |g.nodes| && g.nodes[x].isSelected
  }

  lemma ListedCarryWsAt(g: Graph, w: WsRef, x: NodeRef)
    requires ListedCarryWs(g) && w < |g.wss| && x in g.wss[w].nodeList
    ensures x < |g.nodes| && g.nodes[x].ws == Some(w)
  {
  }

  lemma WsListedAt(g: Graph, x: NodeRef)
    requires WsListed(g) && x < |g.nodes| && g.nodes[x].ws.Some?
    ensures g.nodes[x].ws.value < |g.wss| && x in g.wss[g.nodes[x].ws.value].nodeList
  {
  }

  lemma SelectionListedAt(g: Graph, w: WsRef, x: NodeRef)
    requires SelectionListed(g) && w < |g.wss| && x in g.wss[w].selectedList
    ensures x in g.wss[w].nodeList && x < |g.nodes| && g.nodes[x].isSelected
  {
  }

  // ---------------------------------------------------------------------------
  // Node state

  /** `BhNode.getState`. */
  function GetState(g: Graph, n: NodeRef): (s: State)
    requires n < |g.nodes|
    ensures s == Deleted <==> g.nodes[n].ws.None?
    ensures s == Root <==> g.nodes[n].ws.Some? && g.nodes[n].parent.None?
    ensures s == Child <==> g.nodes[n].ws.Some? && g.nodes[n].parent.Some?
  {
    if g.nodes[n].ws.None? then Deleted
    else if g.nodes[n].parent.None? then Root
    else Child
  }

  predicate IsChild(g: Graph, n: NodeRef)
    requires n < |g.nodes|
  {
    GetState(g, n) == Child
  }

  predicate IsRoot(g: Graph, n: NodeRef)
    requires n < |g.nodes|
  {
    GetState(g, n) == Root
  }

  predicate IsDeleted(g: Graph, n: NodeRef)
    requires n < |g.nodes|
  {
    GetState(g, n) == Deleted
  }

  /** `BhNode.findParentNode`: the owner of the parent connector. */
  function ParentNode(g: Graph, n: NodeRef): (r: Option<NodeRef>)
    requires Valid(g) && n < |g.nodes|
    ensures r.Some? <==> g.nodes[n].parent.Some?
    ensures r.Some? ==> r.value < |g.nodes|
  {
    match g.nodes[n].parent
    case None => None
    case Some(c) => Some(g.cnctrs[c].owner)
  }

  // ---------------------------------------------------------------------------
  // Walks up the tree.  The Java code recurses until it meets a node without a
  // parent; here every walk carries a step bound, and the graph's node count
  // bounds every walk of an acyclic graph.

  /** The node without a parent that `findRootNode` reaches from `n` in at most `fuel` steps. */
  function RootWithin(g: Graph, n: NodeRef, fuel: nat): (r: Option<NodeRef>)
    requires Valid(g) && n < |g.nodes|
    ensures r.Some? ==> r.value < |g.nodes| && g.nodes[r.value].parent.None?
    ensures r.Some? ==> DescendantWithin(g, n, r.value, fuel)
    ensures g.nodes[n].parent.None? ==> r == Some(n)
    decreases fuel
  {
    match ParentNode(g, n)
    case None => Some(n)
    case Some(p) => if fuel == 0 then None else RootWithin(g, p, fuel - 1)
  }

  /** Every upward walk ends at a node without a parent: the graph is a forest. */
  predicate Acyclic(g: Graph)
    requires Valid(g)
  {
    forall n | 0 <= n < |g.nodes| :: RootWithin(g, n, |g.nodes|).Some?
  }

  /** `BhNode.findRootNode`. */
  function FindRootNode(g: Graph, n: NodeRef): (r: NodeRef)
    requires Valid(g) && Acyclic(g) && n < |g.nodes|
    ensures r < |g.nodes| && g.nodes[r].parent.None?
    ensures r == n <==> g.nodes[n].parent.None?
    ensures IsDescendantOf(g, n, r)
  {
    RootWithin(g, n, |g.nodes|).value
  }

  /** `isDescendantOf`, following at most `fuel` parent links. */
  predicate DescendantWithin(g: Graph, n: NodeRef, ancestor: NodeRef, fuel: nat)
    requires Valid(g) && n < |g.nodes|
    decreases fuel
  {
    n == ancestor
    || (fuel > 0 && ParentNode(g, n).Some? && DescendantWithin(g, ParentNode(g, n).value, ancestor, fuel - 1))
  }

  /** `BhNode.isDescendantOf`: `ancestor` is `n` or an ancestor of `n`. */
  predicate IsDescendantOf(g: Graph, n: NodeRef, ancestor: NodeRef)
    requires Valid(g) && n < |g.nodes|
    ensures n == ancestor ==> IsDescendantOf(g, n, ancestor)
    ensures g.nodes[n].parent.None? ==> (IsDescendantOf(g, n, ancestor) <==> n == ancestor)
    ensures IsDescendantOf(g, n, ancestor) ==> ancestor < |g.nodes|
  {
    DescendantInRange(g, n, ancestor, |g.nodes|);
    DescendantWithin(g, n, ancestor, |g.nodes|)
  }

  /** Every node a parent walk reaches is a node of the graph. */
  lemma {:induction false} DescendantInRange(g: Graph, n: NodeRef, ancestor: NodeRef, fuel: nat)
    requires Valid(g) && n < |g.nodes|
    ensures DescendantWithin(g, n, ancestor, fuel) ==> ancestor < |g.nodes|
    decreases fuel
  {
    if n != ancestor && fuel > 0 && ParentNode(g, n).Some? {
      DescendantInRange(g, ParentNode(g, n).value, ancestor, fuel - 1);
    }
  }

  /** A node is its own descendant, and a child is a descendant of its parent's ancestors. */
  lemma DescendantOfSelfAndParent(g: Graph, n: NodeRef, ancestor: NodeRef)
    requires Valid(g) && Acyclic(g) && n < |g.nodes|
    ensures IsDescendantOf(g, n, n)
    ensures ParentNode(g, n).Some? && IsDescendantOf(g, ParentNode(g, n).value, ancestor) ==>
              IsDescendantOf(g, n, ancestor)
  {
    if ParentNode(g, n).Some? && IsDescendantOf(g, ParentNode(g, n).value, ancestor) {
      DescendantMonotone(g, ParentNode(g, n).value, ancestor, |g.nodes|, |g.nodes| + 1);
      DescendantShortens(g, n, ancestor);
    }
  }

  /** A longer walk finds every ancestor a shorter one finds. */
  lemma {:induction false} DescendantMonotone(g: Graph, n: NodeRef, ancestor: NodeRef, k: nat, k': nat)
    requires Valid(g) && n < |g.nodes| && k <= k'
    requires DescendantWithin(g, n, ancestor, k)
    ensures DescendantWithin(g, n, ancestor, k')
    decreases k
  {
    if n != ancestor {
      DescendantMonotone(g, ParentNode(g, n).value, ancestor, k - 1, k' - 1);
    }
  }

  /**
   * In an acyclic graph a walk of `|nodes| + 1` steps finds nothing that a
   * walk of `|nodes|` steps misses.
   */
  lemma DescendantShortens(g: Graph, n: NodeRef, ancestor: NodeRef)
    requires Valid(g) && Acyclic(g) && n < |g.nodes|
    requires DescendantWithin(g, n, ancestor, |g.nodes| + 1)
    ensures DescendantWithin(g, n, ancestor, |g.nodes|)
  {
    DescendantWithinRoot(g, n, ancestor, |g.nodes| + 1, |g.nodes|);
  }

  /** Once the root is within reach, extra steps find no further ancestor. */
  lemma {:induction false} DescendantWithinRoot(g: Graph, n: NodeRef, ancestor: NodeRef, k: nat, reach: nat)
    requires Valid(g) && n < |g.nodes|
    requires RootWithin(g, n, reach).Some? && reach <= k
    requires DescendantWithin(g, n, ancestor, k)
    ensures DescendantWithin(g, n, ancestor, reach)
    decreases k
  {
    if n != ancestor {
      DescendantWithinRoot(g, ParentNode(g, n).value, ancestor, k - 1, reach - 1);
    }
  }

  /** `findBreakpointGroupLeader`, following at most `fuel` parent links. */
  function LeaderWithin(g: Graph, n: NodeRef, fuel: nat): (r: Option<NodeRef>)
    requires Valid(g) && n < |g.nodes|
    ensures r.Some? ==> r.value < |g.nodes| && g.nodes[r.value].bpSetting == Set
    ensures r.Some? ==> DescendantWithin(g, n, r.value, fuel)
    decreases fuel
  {
    match g.nodes[n].bpSetting
    case Set => Some(n)
    case Ignore => None
    case SpecifyParent =>
      match ParentNode(g, n)
      case None => None
      case Some(p) => if fuel == 0 then None else LeaderWithin(g, p, fuel - 1)
  }

  /** `BhNode.findBreakpointGroupLeader`. */
  function FindBreakpointGroupLeader(g: Graph, n: NodeRef): (r: Option<NodeRef>)
    requires Valid(g) && n < |g.nodes|
    ensures r.Some? ==> r.value < |g.nodes| && g.nodes[r.value].bpSetting == Set
    ensures r.Some? ==> IsDescendantOf(g, n, r.value)
  {
    LeaderWithin(g, n, |g.nodes|)
  }

  /** Once the root is within reach, a longer walk finds the same leader. */
  lemma {:induction false} LeaderFuel(g: Graph, n: NodeRef, k: nat, k': nat)
    requires Valid(g) && n < |g.nodes|
    requires RootWithin(g, n, k).Some? && k <= k'
    ensures LeaderWithin(g, n, k) == LeaderWithin(g, n, k')
    decreases k
  {
    if g.nodes[n].bpSetting == SpecifyParent && ParentNode(g, n).Some? {
      LeaderFuel(g, ParentNode(g, n).value, k - 1, k' - 1);
    }
  }

  /**
   * The leader of a node is the node itself when its setting is SET, nothing
   * when it is IGNORE, and its parent's leader (nothing at a root) when it is
   * SPECIFY_PARENT.
   */
  lemma BreakpointGroupLeaderCases(g: Graph, n: NodeRef)
    requires Valid(g) && Acyclic(g) && n < |g.nodes|
    ensures g.nodes[n].bpSetting == Set ==> FindBreakpointGroupLeader(g, n) == Some(n)
    ensures g.nodes[n].bpSetting == Ignore ==> FindBreakpointGroupLeader(g, n) == None
    ensures g.nodes[n].bpSetting == SpecifyParent ==>
      FindBreakpointGroupLeader(g, n) ==
        (match ParentNode(g, n)
         case None => None
         case Some(p) => FindBreakpointGroupLeader(g, p))
  {
    if g.nodes[n].bpSetting == SpecifyParent && ParentNode(g, n).Some? {
      var p := ParentNode(g, n).value;
      assert RootWithin(g, n, |g.nodes|).Some?;
      LeaderFuel(g, p, |g.nodes| - 1, |g.nodes|);
    }
  }

  // ---------------------------------------------------------------------------
  // Walk down the tree

  /**
   * The nodes the tree walk (`CallbackInvoker.invoke`) visits from `n`, in
   * pre-order, descending at most `fuel` levels.
   */
  function SubtreeWithin(g: Graph, n: NodeRef, fuel: nat): (r: seq<NodeRef>)
    requires Valid(g) && n < |g.nodes|
    ensures |r| > 0 && r[0] == n
    ensures forall x | x in r :: x < |g.nodes|
    decreases fuel, 0, 0
  {
    if fuel == 0 then [n] else [n] + ChildrenWithin(g, g.nodes[n].connectors, fuel - 1)
  }

  /** The walks below the nodes held by the connectors `cs`, concatenated. */
  function ChildrenWithin(g: Graph, cs: seq<CnctrRef>, fuel: nat): (r: seq<NodeRef>)
    requires Valid(g) && forall k | 0 <= k < |cs| :: cs[k] < |g.cnctrs|
    ensures forall x | x in r :: x < |g.nodes|
    decreases fuel, 1, |cs|
  {
    if cs == [] then []
    else
      var first := match g.cnctrs[cs[0]].connected
        case None => []
        case Some(child) => SubtreeWithin(g, child, fuel);
      first + ChildrenWithin(g, cs[1..], fuel)
  }

  /** The nodes of the tree rooted at `n`, `n` first. */
  function Subtree(g: Graph, n: NodeRef): (r: seq<NodeRef>)
    requires Valid(g) && n < |g.nodes|
    ensures |r| > 0 && r[0] == n
    ensures forall x | x in r :: x < |g.nodes|
  {
    SubtreeWithin(g, n, |g.nodes|)
  }

  /** The parent and child links of two graphs agree. */
  predicate SameShape(g: Graph, h: Graph) {
    && |g.nodes| == |h.nodes|
    && |g.cnctrs| == |h.cnctrs|
    && (forall n | 0 <= n < |g.nodes| ::
          g.nodes[n].parent == h.nodes[n].parent && g.nodes[n].connectors == h.nodes[n].connectors)
    && (forall c | 0 <= c < |g.cnctrs| ::
          g.cnctrs[c].owner == h.cnctrs[c].owner && g.cnctrs[c].connected == h.cnctrs[c].connected)
  }

  lemma SameShapeTrans(f: Graph, g: Graph, h: Graph)
    requires SameShape(f, g) && SameShape(g, h)
    ensures SameShape(f, h)
  {
  }

  /** The tree walk reads only the links. */
  lemma {:induction false} SubtreeWithinSameShape(g: Graph, h: Graph, n: NodeRef, fuel: nat)
    requires Valid(g) && Valid(h) && SameShape(g, h) && n < |g.nodes|
    ensures SubtreeWithin(g, n, fuel) == SubtreeWithin(h, n, fuel)
    decreases fuel, 0, 0
  {
    if fuel > 0 {
      ChildrenWithinSameShape(g, h, g.nodes[n].connectors, fuel - 1);
    }
  }

  lemma {:induction false} ChildrenWithinSameShape(g: Graph, h: Graph, cs: seq<CnctrRef>, fuel: nat)
    requires Valid(g) && Valid(h) && SameShape(g, h) && forall k | 0 <= k < |cs| :: cs[k] < |g.cnctrs|
    ensures ChildrenWithin(g, cs, fuel) == ChildrenWithin(h, cs, fuel)
    decreases fuel, 1, |cs|
  {
    if cs != [] {
      if g.cnctrs[cs[0]].connected.Some? {
        SubtreeWithinSameShape(g, h, g.cnctrs[cs[0]].connected.value, fuel);
      }
      ChildrenWithinSameShape(g, h, cs[1..], fuel);
    }
  }

  /** A node with no connectors is its whole tree. */
  lemma SubtreeOfLeaf(g: Graph, n: NodeRef)
    requires Valid(g) && n < |g.nodes| && g.nodes[n].connectors == []
    ensures Subtree(g, n) == [n]
  {
    if |g.nodes| > 0 {
      assert ChildrenWithin(g, g.nodes[n].connectors, |g.nodes| - 1) == [];
    }
  }

  /** Below its root, every node of a tree hangs below a connector. */
  lemma SubtreeHangs(g: Graph, n: NodeRef)
    requires Valid(g) && Linked(g) && n < |g.nodes|
    ensures forall x | x in Subtree(g, n) && x != n :: g.nodes[x].parent.Some?
  {
    SubtreeWithinHangs(g, n, |g.nodes|);
  }

  lemma {:induction false} SubtreeWithinHangs(g: Graph, n: NodeRef, fuel: nat)
    requires Valid(g) && Linked(g) && n < |g.nodes|
    ensures forall x | x in SubtreeWithin(g, n, fuel) && x != n :: g.nodes[x].parent.Some?
    decreases fuel, 0, 0
  {
    if fuel > 0 {
      ChildrenWithinHang(g, g.nodes[n].connectors, fuel - 1);
    }
  }

  lemma {:induction false} ChildrenWithinHang(g: Graph, cs: seq<CnctrRef>, fuel: nat)
    requires Valid(g) && Linked(g) && forall k | 0 <= k < |cs| :: cs[k] < |g.cnctrs|
    ensures forall x | x in ChildrenWithin(g, cs, fuel) :: g.nodes[x].parent.Some?
    decreases fuel, 1, |cs|
  {
    if cs != [] {
      if g.cnctrs[cs[0]].connected.Some? {
        SubtreeWithinHangs(g, g.cnctrs[cs[0]].connected.value, fuel);
      }
      ChildrenWithinHang(g, cs[1..], fuel);
    }
  }

  lemma SubtreeSameShape(g: Graph, h: Graph, n: NodeRef)
    requires Valid(g) && Valid(h) && SameShape(g, h) && n < |g.nodes|
    ensures Subtree(g, n) == Subtree(h, n)
  {
    SubtreeWithinSameShape(g, h, n, |g.nodes|);
  }

  /** Parent links are the same, so the upward walks agree. */
  lemma {:induction false} DescendantWithinSameShape(g: Graph, h: Graph, n: NodeRef, ancestor: NodeRef, fuel: nat)
    requires Valid(g) && Valid(h) && SameShape(g, h) && n < |g.nodes|
    ensures DescendantWithin(g, n, ancestor, fuel) == DescendantWithin(h, n, ancestor, fuel)
    decreases fuel
  {
    if fuel > 0 && ParentNode(g, n).Some? {
      DescendantWithinSameShape(g, h, ParentNode(g, n).value, ancestor, fuel - 1);
    }
  }

  // ---------------------------------------------------------------------------
  // Connector queries

  /**
   * `Connector.getDefaultNodeId`: the id of the connected node when it is a
   * default node, else the id of the last default node snapshot, else the
   * connector's own default id.
   */
  function GetDefaultNodeId(g: Graph, c: CnctrRef): (r: BhNodeId)
    requires Valid(g) && c < |g.cnctrs|
    ensures var cn := g.cnctrs[c];
      if cn.connected.Some? && g.nodes[cn.connected.value].isDefault then r == g.nodes[cn.connected.value].id
      else if cn.snapshot.Some? then r == g.nodes[cn.snapshot.value].id
      else r == cn.defaultNodeId
  {
    var cn := g.cnctrs[c];
    if cn.connected.Some? && g.nodes[cn.connected.value].isDefault then g.nodes[cn.connected.value].id
    else if cn.snapshot.Some? then g.nodes[cn.snapshot.value].id
    else cn.defaultNodeId
  }

  /** What `computeNextDefaultNodeSnapshot` does with the snapshot. */
  datatype SnapshotRule =
    | ClearSnapshot          // the new node is a default node
    | CopyOfOld(prior: NodeRef)  // a default node gives way to a non-default one
    | KeepSnapshot           // any other case

  /** `Connector.computeNextDefaultNodeSnapshot`, deciding which of the three outcomes applies. */
  function NextSnapshotRule(g: Graph, c: CnctrRef, newNode: NodeRef): (r: SnapshotRule)
    requires Valid(g) && c < |g.cnctrs| && newNode < |g.nodes|
    ensures r == ClearSnapshot <==> g.nodes[newNode].isDefault
    ensures r.CopyOfOld? <==>
      !g.nodes[newNode].isDefault && g.cnctrs[c].connected.Some? && g.nodes[g.cnctrs[c].connected.value].isDefault
    ensures r.CopyOfOld? ==> Some(r.prior) == g.cnctrs[c].connected
  {
    var prior := g.cnctrs[c].connected;
    if g.nodes[newNode].isDefault then ClearSnapshot
    else if prior.Some? && g.nodes[prior.value].isDefault then CopyOfOld(prior.value)
    else KeepSnapshot
  }

  /**
   * `Connector.canConnect`: a fixed connector accepts nothing; otherwise the
   * template's connectability event handler decides.
   */
  function CanConnect(g: Graph, c: CnctrRef, handlerAccepts: bool): (r: bool)
    requires c < |g.cnctrs|
    ensures g.cnctrs[c].fixed ==> !r
    ensures !g.cnctrs[c].fixed ==> r == handlerAccepts
  {
    !g.cnctrs[c].fixed && handlerAccepts
  }

  // ---------------------------------------------------------------------------
  // Workspace callbacks

  /** `Workspace.onNodeSelectionStateChanged`: the selection list follows the event. */
  function SelectionChanged(w: Workspace, n: NodeRef, selected: bool): (r: Workspace)
    ensures r.rootNodes == w.rootNodes && r.nodeList == w.nodeList && r.name == w.name
    ensures Elems(r.selectedList) == if selected then Elems(w.selectedList) + {n} else Elems(w.selectedList) - {n}
    ensures Distinct(w.selectedList) ==> Distinct(r.selectedList)
  {
    w.(selectedList := if selected then Add(w.selectedList, n) else Remove(w.selectedList, n))
  }

  /**
   * A selection event reaches every workspace that registered its callback on
   * the node, which is every workspace whose node list holds it.
   */
  function SelectionNotified(wss: seq<Workspace>, n: NodeRef, selected: bool): (r: seq<Workspace>)
    ensures |r| == |wss|
    ensures forall i | 0 <= i < |wss| :: n !in wss[i].nodeList ==> r[i] == wss[i]
    ensures forall i | 0 <= i < |wss| :: n in wss[i].nodeList ==> r[i] == SelectionChanged(wss[i], n, selected)
  {
    seq(|wss|, i requires 0 <= i < |wss| =>
      if n in wss[i].nodeList then SelectionChanged(wss[i], n, selected) else wss[i])
  }

  /**
   * `Workspace.onNodeConnected` for workspace `w`: a node that was disconnected
   * and is now a root of this workspace joins the root list, and the connected
   * node leaves it.
   */
  function NodeConnected(g: Graph, w: WsRef, disconnected: Option<NodeRef>, connected: NodeRef): (r: Workspace)
    requires Valid(g) && w < |g.wss| && RefOk(disconnected, |g.nodes|)
    ensures r.nodeList == g.wss[w].nodeList && r.selectedList == g.wss[w].selectedList && r.name == g.wss[w].name
    ensures connected !in r.rootNodes
    ensures forall x | x != connected :: x in r.rootNodes <==>
              x in g.wss[w].rootNodes || (Some(x) == disconnected && IsRoot(g, x) && g.nodes[x].ws == Some(w))
    ensures Distinct(g.wss[w].rootNodes) ==> Distinct(r.rootNodes)
  {
    var ws := g.wss[w];
    var roots :=
      if disconnected.Some? && IsRoot(g, disconnected.value) && g.nodes[disconnected.value].ws == Some(w)
      then Add(ws.rootNodes, disconnected.value)
      else ws.rootNodes;
    var r := Remove(roots, connected);
    assert forall x :: x in r <==> x in Elems(r);
    assert forall x :: x in roots <==> x in Elems(roots);
    assert forall x :: x in ws.rootNodes <==> x in Elems(ws.rootNodes);
    ws.(rootNodes := r)
  }

  /** A connection event reaches every workspace whose node list holds the connected node. */
  function ConnectionNotified(g: Graph, disconnected: Option<NodeRef>, connected: NodeRef): (r: seq<Workspace>)
    requires Valid(g) && RefOk(disconnected, |g.nodes|)
    ensures |r| == |g.wss|
    ensures forall i | 0 <= i < |g.wss| :: connected !in g.wss[i].nodeList ==> r[i] == g.wss[i]
    ensures forall i | 0 <= i < |g.wss| :: connected in g.wss[i].nodeList ==>
              r[i] == NodeConnected(g, i, disconnected, connected)
  {
    seq(|g.wss|, i requires 0 <= i < |g.wss| =>
      if connected in g.wss[i].nodeList then NodeConnected(g, i, disconnected, connected) else g.wss[i])
  }
}
