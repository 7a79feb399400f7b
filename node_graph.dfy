/**
 * The operations that change the node tree: the setters of `BhNode`, the
 * connection logic of `Connector` and the node bookkeeping of `Workspace`.
 * All three kinds of object live in one arena, `NodeGraph`, so that an
 * operation touching a node, its parent connector and its workspace has one
 * frame.  Every operation records its inverse in the `UserOperation` it is
 * given, as the Java code does.
 */
module NodeGraphs {
  import opened Wrappers
  import opened Ids
  import opened SequencedSets
  import opened NodeModel
  import opened Undo

  /** All nodes of a tree lie in the workspace of its root. */
  predicate TreeInOneWs(g: Graph, root: NodeRef)
    requires Valid(g) && root < |g.nodes|
  {
    forall x | x in Subtree(g, root) :: g.nodes[x].ws == g.nodes[root].ws
  }

  /** The log only grows at its tail. */
  predicate Extends(log: seq<SubOperation>, prefix: seq<SubOperation>) {
    |prefix| <= |log| && log[..|prefix|] == prefix
  }

  /**
   * Two graphs differ at most in what the workspace bookkeeping writes: the
   * workspace records, and each node's workspace and selection flag.
   */
  predicate WsFieldsOnly(g: Graph, h: Graph) {
    && |g.nodes| == |h.nodes| && g.cnctrs == h.cnctrs
    && forall n | 0 <= n < |g.nodes| :: h.nodes[n] == g.nodes[n].(ws := h.nodes[n].ws, isSelected := h.nodes[n].isSelected)
  }

  /**
   * No node of `g` outside `except` gains a place: its workspace is kept or
   * cleared, and a root list of `h` holds it only if the same list of `g` did.
   * Nodes created since `g` are not constrained.
   */
  predicate NoNewPlaces(g: Graph, h: Graph, except: seq<NodeRef>) {
    && |h.nodes| >= |g.nodes| && |h.wss| == |g.wss|
    && (forall x | 0 <= x < |g.nodes| && x !in except :: h.nodes[x].ws == g.nodes[x].ws || h.nodes[x].ws.None?)
    && (forall j, y | 0 <= j < |g.wss| && 0 <= y < |g.nodes| && y !in except && y in h.wss[j].rootNodes ::
          y in g.wss[j].rootNodes)
  }

  lemma NoNewPlacesTrans(f: Graph, g: Graph, h: Graph, except: seq<NodeRef>)
    requires NoNewPlaces(f, g, except) && NoNewPlaces(g, h, except)
    ensures NoNewPlaces(f, h, except)
  {
  }

  /** Exempting more nodes, or nodes created since `g`, keeps the frame. */
  lemma NoNewPlacesWiden(g: Graph, h: Graph, except: seq<NodeRef>, more: seq<NodeRef>)
    requires NoNewPlaces(g, h, except)
    requires forall x | x in except && x < |g.nodes| :: x in more
    ensures NoNewPlaces(g, h, more)
  {
  }

  /**
   * Every node of `g` outside `except` keeps its workspace and is listed by
   * the same workspaces.  Nodes created since `g` are not constrained.
   */
  predicate PlacesKept(g: Graph, h: Graph, except: seq<NodeRef>) {
    && |h.nodes| >= |g.nodes| && |h.wss| == |g.wss|
    && (forall x | 0 <= x < |g.nodes| && x !in except :: h.nodes[x].ws == g.nodes[x].ws)
    && (forall j, x | 0 <= j < |g.wss| && 0 <= x < |g.nodes| && x !in except ::
          x in h.wss[j].nodeList <==> x in g.wss[j].nodeList)
  }

  lemma PlacesKeptTrans(f: Graph, g: Graph, h: Graph, except: seq<NodeRef>)
    requires PlacesKept(f, g, except) && PlacesKept(g, h, except)
    ensures PlacesKept(f, h, except)
  {
  }

  lemma PlacesKeptWiden(g: Graph, h: Graph, except: seq<NodeRef>, more: seq<NodeRef>)
    requires PlacesKept(g, h, except)
    requires forall x | x in except && x < |g.nodes| :: x in more
    ensures PlacesKept(g, h, more)
  {
  }

  lemma WsFieldsOnlyTrans(f: Graph, g: Graph, h: Graph)
    requires WsFieldsOnly(f, g) && WsFieldsOnly(g, h)
    ensures WsFieldsOnly(f, h)
  {
  }

  lemma WsFieldsOnlyShape(g: Graph, h: Graph)
    requires WsFieldsOnly(g, h)
    ensures SameShape(g, h)
  {
  }

  lemma TakeOneMore(xs: seq<NodeRef>, i: nat)
    requires i < |xs|
    ensures xs[..i + 1] == xs[..i] + [xs[i]]
  {
  }

  lemma ExtendsTrans(a: seq<SubOperation>, b: seq<SubOperation>, c: seq<SubOperation>)
    requires Extends(a, b) && Extends(b, c)
    ensures Extends(a, c)
  {
    assert a[..|c|] == a[..|b|][..|c|];
  }

  class NodeGraph {
    var nodes: seq<Node>
    var cnctrs: seq<Connector>
    var wss: seq<Workspace>

    function G(): Graph
      reads this
    {
      Graph(nodes, cnctrs, wss)
    }

    predicate Valid()
      reads this
    {
      NodeModel.Valid(G())
    }

    constructor()
      ensures nodes == [] && cnctrs == [] && wss == []
      ensures Valid()
    {
      nodes, cnctrs, wss := [], [], [];
    }

    /** `new Workspace(name)`: a workspace with no nodes, a missing name read as "". */
    method NewWorkspace(name: Option<string>) returns (w: WsRef)
      requires Valid()
      modifies this
      ensures Valid()
      ensures old(WsConsistent(G())) ==> WsConsistent(G())
      ensures nodes == old(nodes) && cnctrs == old(cnctrs)
      ensures w == |old(wss)| && |wss| == w + 1 && wss[..w] == old(wss)
      ensures wss[w].rootNodes == [] && wss[w].nodeList == [] && wss[w].selectedList == []
      ensures name.None? ==> wss[w].name == ""
      ensures name.Some? ==> wss[w].name == name.value
    {
      w := |wss|;
      wss := wss + [Workspace(if name.Some? then name.value else "", [], [], [])];
      assert wss[..w] == old(wss);
      if WsConsistent(old(G())) {
        NewWorkspaceKeepsConsistent(old(G()), G());
      }
    }

    // -------------------------------------------------------------------------
    // BhNode setters

    /** `BhNode.setWorkspace`: logs the old workspace only when it changes. */
    method SetWorkspace(n: NodeRef, w: Option<WsRef>, ope: UserOperation)
      requires Valid() && n < |nodes| && RefOk(w, |wss|)
      modifies this, ope
      ensures Valid()
      ensures nodes == old(nodes)[n := old(nodes[n]).(ws := w)]
      ensures cnctrs == old(cnctrs) && wss == old(wss)
      ensures ope.subOps == old(ope.subOps) +
        if old(nodes[n].ws) == w then [] else [Anonymous(InverseAction.SetWorkspace(n, old(nodes[n].ws)))]
    {
      if nodes[n].ws == w {
        return;
      }
      var oldWs := nodes[n].ws;
      nodes := nodes[n := nodes[n].(ws := w)];
      ope.PushCmd(InverseAction.SetWorkspace(n, oldWs));
    }

    /** `BhNode.setLastReplaced`: logs the previous value every time. */
    method SetLastReplaced(n: NodeRef, lastReplaced: Option<NodeRef>, ope: UserOperation)
      requires Valid() && n < |nodes| && RefOk(lastReplaced, |nodes|)
      modifies this, ope
      ensures Valid()
      ensures nodes == old(nodes)[n := old(nodes[n]).(lastReplaced := lastReplaced)]
      ensures cnctrs == old(cnctrs) && wss == old(wss)
      ensures ope.subOps == old(ope.subOps) + [Anonymous(InverseAction.SetLastReplaced(n, old(nodes[n].lastReplaced)))]
    {
      var prev := nodes[n].lastReplaced;
      nodes := nodes[n := nodes[n].(lastReplaced := lastReplaced)];
      ope.PushCmd(InverseAction.SetLastReplaced(n, prev));
    }

    /**
     * Runs `Workspace.onNodeSelectionStateChanged` of every workspace that
     * registered it on `n`, i.e. that lists `n`.
     */
    method NotifySelection(n: NodeRef, selected: bool)
      requires Valid() && n < |nodes|
      modifies this
      ensures Valid()
      ensures nodes == old(nodes) && cnctrs == old(cnctrs)
      ensures wss == SelectionNotified(old(wss), n, selected)
    {
      var i := 0;
      while i < |wss|
        invariant 0 <= i <= |wss| == |old(wss)|
        invariant nodes == old(nodes) && cnctrs == old(cnctrs)
        invariant forall j | 0 <= j < |wss| ::
          wss[j] == if j < i then SelectionNotified(old(wss), n, selected)[j] else old(wss)[j]
        invariant Valid()
      {
        if n in wss[i].nodeList {
          wss := wss[i := SelectionChanged(wss[i], n, selected)];
        }
        i := i + 1;
      }
    }

    /**
     * `BhNode.select`: only an unselected node changes; it logs `deselect` and
     * the workspaces listing it add it to their selection lists.
     */
    method Select(n: NodeRef, ope: UserOperation)
      requires Valid() && n < |nodes|
      modifies this, ope
      ensures Valid()
      ensures nodes == old(nodes)[n := old(nodes[n]).(isSelected := true)]
      ensures cnctrs == old(cnctrs)
      ensures wss == if old(nodes[n].isSelected) then old(wss) else SelectionNotified(old(wss), n, true)
      ensures ope.subOps == old(ope.subOps) + if old(nodes[n].isSelected) then [] else [Anonymous(InverseAction.Deselect(n))]
      ensures old(WsConsistent(G())) ==> WsConsistent(G())
    {
      if !nodes[n].isSelected {
        nodes := nodes[n := nodes[n].(isSelected := true)];
        ope.PushCmd(InverseAction.Deselect(n));
        NotifySelection(n, true);
        SelectKeepsConsistent(old(G()), G(), n);
      }
    }

    /**
     * `BhNode.deselect`: only a selected node changes; it logs `select` and the
     * workspaces listing it drop it from their selection lists.
     */
    method Deselect(n: NodeRef, ope: UserOperation)
      requires Valid() && n < |nodes|
      modifies this, ope
      ensures Valid()
      ensures nodes == old(nodes)[n := old(nodes[n]).(isSelected := false)]
      ensures cnctrs == old(cnctrs)
      ensures wss == if old(nodes[n].isSelected) then SelectionNotified(old(wss), n, false) else old(wss)
      ensures ope.subOps == old(ope.subOps) + if old(nodes[n].isSelected) then [Anonymous(InverseAction.Select(n))] else []
      ensures old(WsConsistent(G())) ==> WsConsistent(G())
    {
      if nodes[n].isSelected {
        nodes := nodes[n := nodes[n].(isSelected := false)];
        ope.PushCmd(InverseAction.Select(n));
        NotifySelection(n, false);
        DeselectKeepsConsistent(old(G()), G(), n);
      }
    }

    /** `BhNode.setBreakpoint`: a change of value is applied and its inverse logged. */
    method SetBreakpoint(n: NodeRef, val: bool, ope: UserOperation)
      requires Valid() && n < |nodes|
      modifies this, ope
      ensures Valid()
      ensures nodes == old(nodes)[n := old(nodes[n]).(isBreakpointSet := val)]
      ensures cnctrs == old(cnctrs) && wss == old(wss)
      ensures ope.subOps == old(ope.subOps) +
        if old(nodes[n].isBreakpointSet) == val then [] else [Anonymous(InverseAction.SetBreakpoint(n, !val))]
    {
      if val != nodes[n].isBreakpointSet {
        nodes := nodes[n := nodes[n].(isBreakpointSet := val)];
        ope.PushCmd(InverseAction.SetBreakpoint(n, !val));
      }
    }

    /** `BhNode.setCorrupted`: a change of value is applied and its inverse logged. */
    method SetCorrupted(n: NodeRef, val: bool, ope: UserOperation)
      requires Valid() && n < |nodes|
      modifies this, ope
      ensures Valid()
      ensures nodes == old(nodes)[n := old(nodes[n]).(isCorrupted := val)]
      ensures cnctrs == old(cnctrs) && wss == old(wss)
      ensures ope.subOps == old(ope.subOps) +
        if old(nodes[n].isCorrupted) == val then [] else [Anonymous(InverseAction.SetCorrupted(n, !val))]
    {
      if val != nodes[n].isCorrupted {
        nodes := nodes[n := nodes[n].(isCorrupted := val)];
        ope.PushCmd(InverseAction.SetCorrupted(n, !val));
      }
    }

    // -------------------------------------------------------------------------
    // Workspace node bookkeeping

    /** `Workspace.setName`: a missing name is stored as "", and the old name is logged. */
    method SetName(w: WsRef, name: Option<string>, ope: UserOperation)
      requires Valid() && w < |wss|
      modifies this, ope
      ensures Valid() && (old(WsConsistent(G())) ==> WsConsistent(G()))
      ensures nodes == old(nodes) && cnctrs == old(cnctrs)
      ensures wss == old(wss)[w := old(wss[w]).(name := if name.Some? then name.value else "")]
      ensures ope.subOps == old(ope.subOps) + [Anonymous(InverseAction.SetName(w, Some(old(wss[w].name))))]
    {
      var oldName := wss[w].name;
      wss := wss[w := wss[w].(name := if name.Some? then name.value else "")];
      ope.PushCmd(InverseAction.SetName(w, Some(oldName)));
    }

    /** `Workspace.addNode`: a node already listed is left alone; otherwise it is listed and its workspace set. */
    method AddNode(w: WsRef, n: NodeRef, ope: UserOperation)
      requires Valid() && w < |wss| && n < |nodes|
      modifies this, ope
      ensures Valid() && cnctrs == old(cnctrs)
      ensures n in old(wss[w].nodeList) ==> nodes == old(nodes) && wss == old(wss) && ope.subOps == old(ope.subOps)
      ensures n !in old(wss[w].nodeList) ==>
        && nodes == old(nodes)[n := old(nodes[n]).(ws := Some(w))]
        && wss == old(wss)[w := old(wss[w]).(nodeList := Add(old(wss[w].nodeList), n))]
      ensures Extends(ope.subOps, old(ope.subOps))
    {
      if n in wss[w].nodeList {
        return;
      }
      wss := wss[w := wss[w].(nodeList := Add(wss[w].nodeList, n))];
      SetWorkspace(n, Some(w), ope);
    }

    /**
     * `Workspace.removeNode`: a node not listed is left alone; otherwise it is
     * deselected if selected, its workspace cleared and it is unlisted.
     */
    method RemoveNode(w: WsRef, n: NodeRef, ope: UserOperation)
      requires Valid() && w < |wss| && n < |nodes|
      modifies this, ope
      ensures Valid() && cnctrs == old(cnctrs)
      ensures n !in old(wss[w].nodeList) ==> nodes == old(nodes) && wss == old(wss) && ope.subOps == old(ope.subOps)
      ensures n in old(wss[w].nodeList) ==>
        && nodes == old(nodes)[n := old(nodes[n]).(ws := None, isSelected := false)]
        && var notified := if old(nodes[n].isSelected) then SelectionNotified(old(wss), n, false) else old(wss);
           wss == notified[w := notified[w].(nodeList := Remove(old(wss[w].nodeList), n))]
      ensures Extends(ope.subOps, old(ope.subOps))
    {
      if n !in wss[w].nodeList {
        return;
      }
      if nodes[n].isSelected {
        Deselect(n, ope);
      }
      ghost var log1 := ope.subOps;
      SetWorkspace(n, None, ope);
      wss := wss[w := wss[w].(nodeList := Remove(wss[w].nodeList, n))];
    }

    /** The walk of `addNodeTree` that calls `addNode` on each node of `xs` in turn. */
    method AddNodes(w: WsRef, xs: seq<NodeRef>, ope: UserOperation)
      requires Valid() && w < |wss| && forall x | x in xs :: x < |nodes|
      modifies this, ope
      ensures Valid() && cnctrs == old(cnctrs)
      ensures nodes == WithWorkspace(old(nodes), w, xs, old(wss[w].nodeList))
      ensures wss == old(wss)[w := old(wss[w]).(nodeList := AddAll(old(wss[w].nodeList), xs))]
      ensures Extends(ope.subOps, old(ope.subOps))
    {
      var i := 0;
      while i < |xs|
        invariant 0 <= i <= |xs|
        invariant Valid() && cnctrs == old(cnctrs)
        invariant nodes == WithWorkspace(old(nodes), w, xs[..i], old(wss[w].nodeList))
        invariant wss == old(wss)[w := old(wss[w]).(nodeList := AddAll(old(wss[w].nodeList), xs[..i]))]
        invariant Extends(ope.subOps, old(ope.subOps))
      {
        ghost var log0 := ope.subOps;
        ghost var nodes1 := nodes;
        ghost var wss1 := wss;
        assert xs[i] in xs;
        AddNode(w, xs[i], ope);
        AddNodeStepNodes(old(nodes), w, old(wss[w].nodeList), xs[..i], xs[i], nodes1, nodes);
        AddNodeStepWss(old(wss), w, xs[..i], xs[i], wss1, wss);
        TakeOneMore(xs, i);
        ExtendsTrans(ope.subOps, log0, old(ope.subOps));
        i := i + 1;
      }
      assert xs[..|xs|] == xs;
    }

    /** The walk of `removeNodeTree` that calls `removeNode` on each node of `xs` in turn. */
    method RemoveNodes(w: WsRef, xs: seq<NodeRef>, ope: UserOperation)
      requires Valid() && w < |wss| && forall x | x in xs :: x < |nodes|
      modifies this, ope
      ensures Valid() && cnctrs == old(cnctrs)
      ensures nodes == Unlisted(old(nodes), xs, old(wss[w].nodeList))
      ensures wss == AfterRemovals(old(wss), w, xs, old(nodes))
      ensures Extends(ope.subOps, old(ope.subOps))
    {
      var i := 0;
      AfterNoRemovals(wss, w, nodes);
      while i < |xs|
        invariant 0 <= i <= |xs|
        invariant Valid() && cnctrs == old(cnctrs)
        invariant nodes == Unlisted(old(nodes), xs[..i], old(wss[w].nodeList))
        invariant wss == AfterRemovals(old(wss), w, xs[..i], old(nodes))
        invariant Extends(ope.subOps, old(ope.subOps))
      {
        ghost var log0 := ope.subOps;
        ghost var nodes1 := nodes;
        ghost var wss1 := wss;
        assert xs[i] in xs;
        RemoveNode(w, xs[i], ope);
        RemoveNodeStepNodes(old(nodes), old(wss[w].nodeList), xs[..i], xs[i], nodes1, nodes);
        RemoveNodeStepWss(old(wss), w, xs[..i], xs[i], old(nodes), nodes1[xs[i]].isSelected, wss1, wss);
        TakeOneMore(xs, i);
        ExtendsTrans(ope.subOps, log0, old(ope.subOps));
        i := i + 1;
      }
      assert xs[..|xs|] == xs;
    }

    /**
     * `Workspace.removeNodeTree`: when `root` is in this workspace, it leaves the
     * root list, every node of its tree that the workspace lists is deselected,
     * gets no workspace and is unlisted, and `addNodeTree` is logged.
     */
    method RemoveNodeTree(w: WsRef, root: NodeRef, ope: UserOperation)
      requires Valid() && w < |wss| && root < |nodes|
      modifies this, ope
      ensures Valid() && WsFieldsOnly(old(G()), G())
      ensures Extends(ope.subOps, old(ope.subOps))
      ensures old(nodes[root].ws) != Some(w) ==>
        nodes == old(nodes) && wss == old(wss) && ope.subOps == old(ope.subOps)
      ensures old(nodes[root].ws) == Some(w) ==>
        && nodes == Unlisted(old(nodes), Subtree(old(G()), root), old(wss[w].nodeList))
        && wss == AfterRemovals(old(wss)[w := old(wss[w]).(rootNodes := Remove(old(wss[w].rootNodes), root))],
                                w, Subtree(old(G()), root), old(nodes))
        && |ope.subOps| > |old(ope.subOps)| && ope.subOps[|ope.subOps| - 1] == Anonymous(InverseAction.AddNodeTree(w, root))
      ensures old(WsConsistent(G())) ==> WsConsistent(G())
      ensures old(nodes[root].ws == Some(w) && WsConsistent(G()) && TreeInOneWs(G(), root)) ==>
        forall x | x in Subtree(old(G()), root) :: nodes[x].ws.None?
      ensures NoNewPlaces(old(G()), G(), [])
      ensures PlacesKept(old(G()), G(), Subtree(old(G()), root))
    {
      if nodes[root].ws != Some(w) {
        return;
      }
      ghost var g0 := G();
      if root in wss[w].rootNodes {
        wss := wss[w := wss[w].(rootNodes := Remove(wss[w].rootNodes, root))];
      }
      ghost var g1 := G();
      RootListEditKeeps(g0, g1, w, root);
      var tree := Subtree(G(), root);
      RemoveNodes(w, tree, ope);
      ghost var g2 := G();
      UnlistedFieldsOnly(g1, g2, tree, g1.wss[w].nodeList);
      WsFieldsOnlyTrans(g0, g1, g2);
      ghost var log1 := ope.subOps;
      ope.PushCmd(InverseAction.AddNodeTree(w, root));
      ExtendsTrans(ope.subOps, log1, old(ope.subOps));
      if WsConsistent(g0) {
        RemoveNodesKeepsConsistent(g1, g2, w, tree);
        if TreeInOneWs(g0, root) {
          TreeUnlisted(g0, w, root);
        }
      }
      RemovalNoNewPlaces(g0, G(), w, tree);
    }

    /** The first step of `addNodeTree`: the tree of `root` leaves the workspace it is in, unless that is `w`. */
    method LeaveCurrentWs(w: WsRef, root: NodeRef, ope: UserOperation)
      requires Valid() && w < |wss| && root < |nodes| && nodes[root].ws != Some(w)
      modifies this, ope
      ensures Valid() && WsFieldsOnly(old(G()), G()) && |wss| == |old(wss)|
      ensures Extends(ope.subOps, old(ope.subOps))
      ensures wss[w].rootNodes == old(wss[w].rootNodes) && wss[w].nodeList == old(wss[w].nodeList)
      ensures old(WsConsistent(G()) && TreeInOneWs(G(), root)) ==>
        WsConsistent(G()) && forall x | x in Subtree(old(G()), root) :: nodes[x].ws.None?
      ensures NoNewPlaces(old(G()), G(), [])
      ensures PlacesKept(old(G()), G(), Subtree(old(G()), root))
    {
      var cur := nodes[root].ws;
      if cur.Some? {
        RemoveNodeTree(cur.value, root, ope);
      } else if WsConsistent(G()) && TreeInOneWs(G(), root) {
        assert forall x | x in Subtree(G(), root) :: nodes[x].ws.None?;
      }
    }

    /** The walk of `addNodeTree`: every node of the tree of `root` is listed by `w`. */
    method ListTree(w: WsRef, root: NodeRef, ope: UserOperation)
      requires Valid() && w < |wss| && root < |nodes|
      modifies this, ope
      ensures Valid() && WsFieldsOnly(old(G()), G()) && |wss| == |old(wss)|
      ensures Extends(ope.subOps, old(ope.subOps))
      ensures wss[w].rootNodes == old(wss[w].rootNodes)
      ensures forall x | x in Subtree(old(G()), root) :: x in wss[w].nodeList
      ensures old(WsConsistent(G())) && (forall x | x in Subtree(old(G()), root) :: old(nodes[x].ws).None?) ==>
        WsConsistent(G()) && forall x | x in Subtree(old(G()), root) :: nodes[x].ws == Some(w)
      ensures NoNewPlaces(old(G()), G(), Subtree(old(G()), root))
      ensures PlacesKept(old(G()), G(), Subtree(old(G()), root))
      ensures old(root !in wss[w].nodeList) ==> nodes[root].ws == Some(w)
    {
      ghost var g0 := G();
      var tree := Subtree(G(), root);
      AddNodes(w, tree, ope);
      ghost var g1 := G();
      ListedNoNewPlaces(g0, g1, w, tree);
      WithWorkspaceFieldsOnly(g0, g1, w, tree, g0.wss[w].nodeList);
      AddAllMembers(g0.wss[w].nodeList, tree);
      if WsConsistent(g0) && forall x | x in tree :: g0.nodes[x].ws.None? {
        AddNodesKeepsConsistent(g0, g1, w, tree);
      }
    }

    /** The walks of `addNodeTree`: the tree of `root` leaves its workspace and is listed by `w`. */
    method MoveTree(w: WsRef, root: NodeRef, ope: UserOperation)
      requires Valid() && w < |wss| && root < |nodes| && nodes[root].ws != Some(w)
      modifies this, ope
      ensures Valid() && WsFieldsOnly(old(G()), G()) && |wss| == |old(wss)|
      ensures Extends(ope.subOps, old(ope.subOps))
      ensures wss[w].rootNodes == old(wss[w].rootNodes)
      ensures forall x | x in Subtree(old(G()), root) :: x in wss[w].nodeList
      ensures old(WsConsistent(G()) && TreeInOneWs(G(), root)) ==>
        && WsConsistent(G())
        && (forall x | x in Subtree(old(G()), root) :: nodes[x].ws == Some(w))
      ensures NoNewPlaces(old(G()), G(), Subtree(old(G()), root))
      ensures PlacesKept(old(G()), G(), Subtree(old(G()), root))
      ensures old(root !in wss[w].nodeList) ==> nodes[root].ws == Some(w)
    {
      ghost var g0 := G();
      LeaveCurrentWs(w, root, ope);
      ghost var g1 := G();
      ghost var log1 := ope.subOps;
      WsFieldsOnlyShape(g0, g1);
      SubtreeSameShape(g0, g1, root);
      ListTree(w, root, ope);
      WsFieldsOnlyTrans(g0, g1, G());
      ExtendsTrans(ope.subOps, log1, old(ope.subOps));
      NoNewPlacesWiden(g0, g1, [], Subtree(g0, root));
      NoNewPlacesTrans(g0, g1, G(), Subtree(g0, root));
      PlacesKeptTrans(g0, g1, G(), Subtree(g0, root));
    }

    /**
     * `Workspace.addNodeTree`: unless `root` is already in this workspace, its
     * tree leaves its current workspace, every node of it is listed here, the
     * root joins the root list if it is a root, and `removeNodeTree` is logged.
     */
    method AddNodeTree(w: WsRef, root: NodeRef, ope: UserOperation)
      requires Valid() && w < |wss| && root < |nodes|
      modifies this, ope
      ensures Valid() && WsFieldsOnly(old(G()), G()) && |wss| == |old(wss)|
      ensures Extends(ope.subOps, old(ope.subOps))
      ensures old(nodes[root].ws) == Some(w) ==>
        nodes == old(nodes) && wss == old(wss) && ope.subOps == old(ope.subOps)
      ensures old(nodes[root].ws) != Some(w) ==>
        && (forall x | x in Subtree(old(G()), root) :: x in wss[w].nodeList)
        && (root in wss[w].rootNodes <==> root in old(wss[w].rootNodes) || IsRoot(G(), root))
        && |ope.subOps| > |old(ope.subOps)| && ope.subOps[|ope.subOps| - 1] == Anonymous(InverseAction.RemoveNodeTree(w, root))
      ensures old(WsConsistent(G()) && TreeInOneWs(G(), root)) ==>
        && WsConsistent(G())
        && (forall x | x in Subtree(old(G()), root) :: nodes[x].ws == Some(w))
      ensures NoNewPlaces(old(G()), G(), Subtree(old(G()), root))
      ensures PlacesKept(old(G()), G(), Subtree(old(G()), root))
      ensures old(nodes[root].ws == Some(w) || root !in wss[w].nodeList) ==> nodes[root].ws == Some(w)
    {
      if nodes[root].ws == Some(w) {
        return;
      }
      MoveTree(w, root, ope);
      ghost var g2 := G();
      ghost var log2 := ope.subOps;
      if root !in wss[w].rootNodes && IsRoot(G(), root) {
        wss := wss[w := wss[w].(rootNodes := Add(wss[w].rootNodes, root))];
        RootListEditKeeps(g2, G(), w, root);
        assert NoNewPlaces(g2, G(), Subtree(old(G()), root));
        NoNewPlacesTrans(old(G()), g2, G(), Subtree(old(G()), root));
        assert PlacesKept(g2, G(), Subtree(old(G()), root));
        PlacesKeptTrans(old(G()), g2, G(), Subtree(old(G()), root));
      }
      WsFieldsOnlyTrans(old(G()), g2, G());
      ope.PushCmd(InverseAction.RemoveNodeTree(w, root));
      ExtendsTrans(ope.subOps, log2, old(ope.subOps));
    }
  }

  // ---------------------------------------------------------------------------
  // What the walks over a workspace do to the node and workspace records

  /** The node records once `addNode` has run in `w` for each of `xs`: a node that `w` did not list gets workspace `w`. */
  function WithWorkspace(nodes0: seq<Node>, w: WsRef, xs: seq<NodeRef>, listed: seq<NodeRef>): (r: seq<Node>)
    ensures |r| == |nodes0|
  {
    seq(|nodes0|, x requires 0 <= x < |nodes0| =>
      if x in xs && x !in listed then nodes0[x].(ws := Some(w)) else nodes0[x])
  }

  /** The node records once `removeNode` has run for each of `xs`: a node that was listed loses its workspace and selection. */
  function Unlisted(nodes0: seq<Node>, xs: seq<NodeRef>, listed: seq<NodeRef>): (r: seq<Node>)
    ensures |r| == |nodes0|
  {
    seq(|nodes0|, x requires 0 <= x < |nodes0| =>
      if x in xs && x in listed then nodes0[x].(ws := None, isSelected := false) else nodes0[x])
  }

  /**
   * The nodes of `xs` whose removal from a workspace (`removedFrom`) drops them
   * from the selection list of a workspace that lists `listedBy`: those that
   * were listed, selected, and listed by that workspace too.
   */
  function Deselected(xs: seq<NodeRef>, removedFrom: seq<NodeRef>, nodes0: seq<Node>, listedBy: seq<NodeRef>): (r: seq<NodeRef>)
    ensures forall y :: y in r <==>
      y in xs && y in removedFrom && y < |nodes0| && nodes0[y].isSelected && y in listedBy
    decreases |xs|
  {
    if xs == [] then []
    else
      var x := xs[|xs| - 1];
      assert xs == xs[..|xs| - 1] + [x];
      Deselected(xs[..|xs| - 1], removedFrom, nodes0, listedBy) +
      if x in removedFrom && x < |nodes0| && nodes0[x].isSelected && x in listedBy then [x] else []
  }

  /**
   * The workspace records once `removeNode` has run in `w` for each of `xs`:
   * `w`'s node list loses `xs`, and each selection list loses the deselected
   * nodes that its workspace listed; names and root lists are kept.
   */
  function AfterRemovals(wss0: seq<Workspace>, w: WsRef, xs: seq<NodeRef>, nodes0: seq<Node>): (r: seq<Workspace>)
    requires w < |wss0|
    ensures |r| == |wss0|
  {
    seq(|wss0|, j requires 0 <= j < |wss0| =>
      wss0[j].(nodeList := if j == w then RemoveAll(wss0[w].nodeList, xs) else wss0[j].nodeList,
               selectedList := RemoveAll(wss0[j].selectedList,
                                         Deselected(xs, wss0[w].nodeList, nodes0, wss0[j].nodeList))))
  }

  /** `removeNodeTree` only clears workspace fields and shortens root lists. */
  lemma RemovalNoNewPlaces(g0: Graph, h: Graph, w: WsRef, xs: seq<NodeRef>)
    requires w < |g0.wss| && |h.nodes| == |g0.nodes| && |xs| > 0
    requires h.nodes == Unlisted(g0.nodes, xs, g0.wss[w].nodeList)
    requires h.wss == AfterRemovals(g0.wss[w := g0.wss[w].(rootNodes := Remove(g0.wss[w].rootNodes, xs[0]))],
                                    w, xs, g0.nodes)
    ensures NoNewPlaces(g0, h, []) && PlacesKept(g0, h, xs)
  {
    RemoveAllMembers(g0.wss[w].nodeList, xs);
    forall j, y | 0 <= j < |g0.wss| && 0 <= y < |g0.nodes| && y in h.wss[j].rootNodes
      ensures y in g0.wss[j].rootNodes
    {
      if j == w {
        assert h.wss[j].rootNodes == Remove(g0.wss[w].rootNodes, xs[0]);
      } else {
        assert h.wss[j].rootNodes == g0.wss[j].rootNodes;
      }
    }
  }

  /** The walk of `addNodeTree` gives a workspace only to the nodes it walks, and leaves the root lists alone. */
  lemma ListedNoNewPlaces(g0: Graph, h: Graph, w: WsRef, xs: seq<NodeRef>)
    requires w < |g0.wss|
    requires h.nodes == WithWorkspace(g0.nodes, w, xs, g0.wss[w].nodeList)
    requires h.wss == g0.wss[w := g0.wss[w].(nodeList := AddAll(g0.wss[w].nodeList, xs))]
    ensures NoNewPlaces(g0, h, xs) && PlacesKept(g0, h, xs)
  {
    AddAllMembers(g0.wss[w].nodeList, xs);
    forall j, y | 0 <= j < |g0.wss| && 0 <= y < |g0.nodes| && y !in xs && y in h.wss[j].rootNodes
      ensures y in g0.wss[j].rootNodes
    {
      assert h.wss[j].rootNodes == g0.wss[j].rootNodes;
    }
  }

  lemma AddAllMembers(s: seq<NodeRef>, xs: seq<NodeRef>)
    ensures forall y :: y in AddAll(s, xs) <==> y in s || y in xs
  {
    assert forall y :: y in AddAll(s, xs) <==> y in Elems(AddAll(s, xs));
  }

  lemma RemoveAllMembers(s: seq<NodeRef>, xs: seq<NodeRef>)
    ensures forall y :: y in RemoveAll(s, xs) <==> y in s && y !in xs
  {
  }

  /** One more `addNode` step, on the node records. */
  lemma AddNodeStepNodes(nodes0: seq<Node>, w: WsRef, listed: seq<NodeRef>, xs: seq<NodeRef>, x: NodeRef,
                         mid: seq<Node>, after: seq<Node>)
    requires x < |nodes0| && mid == WithWorkspace(nodes0, w, xs, listed)
    requires x in AddAll(listed, xs) ==> after == mid
    requires x !in AddAll(listed, xs) ==> after == mid[x := mid[x].(ws := Some(w))]
    ensures after == WithWorkspace(nodes0, w, xs + [x], listed)
  {
    AddAllMembers(listed, xs);
    var r := WithWorkspace(nodes0, w, xs + [x], listed);
    assert forall y | 0 <= y < |r| :: r[y] == after[y];
  }

  /** One more `addNode` step, on the workspace records. */
  lemma AddNodeStepWss(wss0: seq<Workspace>, w: WsRef, xs: seq<NodeRef>, x: NodeRef,
                       mid: seq<Workspace>, after: seq<Workspace>)
    requires w < |wss0| && mid == wss0[w := wss0[w].(nodeList := AddAll(wss0[w].nodeList, xs))]
    requires x in mid[w].nodeList ==> after == mid
    requires x !in mid[w].nodeList ==> after == mid[w := mid[w].(nodeList := Add(mid[w].nodeList, x))]
    ensures after == wss0[w := wss0[w].(nodeList := AddAll(wss0[w].nodeList, xs + [x]))]
  {
    AddAllSnoc(wss0[w].nodeList, xs, x);
  }

  /** One more `removeNode` step, on the node records. */
  lemma UnlistedStep(nodes0: seq<Node>, xs: seq<NodeRef>, listed: seq<NodeRef>, x: NodeRef)
    requires x < |nodes0|
    ensures var mid := Unlisted(nodes0, xs, listed);
      Unlisted(nodes0, xs + [x], listed) ==
        if x in RemoveAll(listed, xs) then mid[x := mid[x].(ws := None, isSelected := false)] else mid
  {
    var mid := Unlisted(nodes0, xs, listed);
    var r := Unlisted(nodes0, xs + [x], listed);
    var e := if x in RemoveAll(listed, xs) then mid[x := mid[x].(ws := None, isSelected := false)] else mid;
    assert forall y | 0 <= y < |r| :: r[y] == e[y];
  }

  lemma AfterNoRemovals(wss0: seq<Workspace>, w: WsRef, nodes0: seq<Node>)
    requires w < |wss0|
    ensures AfterRemovals(wss0, w, [], nodes0) == wss0
  {
    var r := AfterRemovals(wss0, w, [], nodes0);
    assert forall j | 0 <= j < |r| :: r[j] == wss0[j];
  }

  lemma RemoveNodeStepNodes(nodes0: seq<Node>, listed: seq<NodeRef>, xs: seq<NodeRef>, x: NodeRef,
                            mid: seq<Node>, after: seq<Node>)
    requires x < |nodes0| && mid == Unlisted(nodes0, xs, listed)
    requires x !in RemoveAll(listed, xs) ==> after == mid
    requires x in RemoveAll(listed, xs) ==> after == mid[x := mid[x].(ws := None, isSelected := false)]
    ensures after == Unlisted(nodes0, xs + [x], listed)
  {
    UnlistedStep(nodes0, xs, listed, x);
  }

  lemma RemoveNodeStepWss(wss0: seq<Workspace>, w: WsRef, xs: seq<NodeRef>, x: NodeRef, nodes0: seq<Node>,
                          selected: bool, mid: seq<Workspace>, after: seq<Workspace>)
    requires w < |wss0| && x < |nodes0| && mid == AfterRemovals(wss0, w, xs, nodes0)
    requires selected == Unlisted(nodes0, xs, wss0[w].nodeList)[x].isSelected
    requires x !in mid[w].nodeList ==> after == mid
    requires x in mid[w].nodeList ==>
      var notified := if selected then SelectionNotified(mid, x, false) else mid;
      after == notified[w := notified[w].(nodeList := Remove(mid[w].nodeList, x))]
    ensures after == AfterRemovals(wss0, w, xs + [x], nodes0)
  {
    var r := AfterRemovals(wss0, w, xs + [x], nodes0);
    var acted := x in mid[w].nodeList;
    forall j | 0 <= j < |r| ensures r[j] == after[j] {
      var drop := acted && selected && x in mid[j].nodeList;
      assert after[j] == mid[j].(nodeList := if j == w && acted then Remove(mid[w].nodeList, x) else mid[j].nodeList,
                                 selectedList := if drop then Remove(mid[j].selectedList, x) else mid[j].selectedList);
      AfterRemovalsStepAt(wss0, w, xs, x, nodes0, j, drop);
    }
  }

  /** Deselection is decided one node at a time. */
  lemma DeselectedSnoc(xs: seq<NodeRef>, removedFrom: seq<NodeRef>, nodes0: seq<Node>, listedBy: seq<NodeRef>, x: NodeRef)
    ensures Deselected(xs + [x], removedFrom, nodes0, listedBy) ==
      Deselected(xs, removedFrom, nodes0, listedBy) +
      if x in removedFrom && x < |nodes0| && nodes0[x].isSelected && x in listedBy then [x] else []
  {
    assert (xs + [x])[..|xs|] == xs;
  }

  /** One selection list under one more `removeNode` step. */
  lemma SelectionStep(sel: seq<NodeRef>, xs: seq<NodeRef>, removedFrom: seq<NodeRef>, nodes0: seq<Node>,
                      listedBy: seq<NodeRef>, x: NodeRef, drop: bool)
    requires x < |nodes0|
    requires drop ==> x in removedFrom && nodes0[x].isSelected && x in listedBy
    requires x in removedFrom && x !in xs && nodes0[x].isSelected && x in listedBy ==> drop
    ensures RemoveAll(sel, Deselected(xs + [x], removedFrom, nodes0, listedBy)) ==
      var s := RemoveAll(sel, Deselected(xs, removedFrom, nodes0, listedBy));
      if drop then Remove(s, x) else s
  {
    var d := Deselected(xs, removedFrom, nodes0, listedBy);
    DeselectedSnoc(xs, removedFrom, nodes0, listedBy, x);
    if x in removedFrom && nodes0[x].isSelected && x in listedBy {
      RemoveAllSnoc(sel, d, x);
      if !drop {
        assert x in d;
      }
    } else {
      assert d + [] == d;
    }
  }

  /**
   * One more `removeNode` step on one workspace record: `removeNode` in `w`,
   * when `w` still lists `x`, unlists it from `w` and, if it was selected,
   * drops it from the selection list of each workspace listing it.
   */
  lemma AfterRemovalsStepAt(wss0: seq<Workspace>, w: WsRef, xs: seq<NodeRef>, x: NodeRef, nodes0: seq<Node>,
                            j: WsRef, drop: bool)
    requires w < |wss0| && x < |nodes0| && j < |wss0|
    requires var mid := AfterRemovals(wss0, w, xs, nodes0);
      drop == (x in mid[w].nodeList && Unlisted(nodes0, xs, wss0[w].nodeList)[x].isSelected && x in mid[j].nodeList)
    ensures var mid := AfterRemovals(wss0, w, xs, nodes0);
      AfterRemovals(wss0, w, xs + [x], nodes0)[j] ==
        mid[j].(nodeList := if j == w && x in mid[w].nodeList then Remove(mid[w].nodeList, x) else mid[j].nodeList,
                selectedList := if drop then Remove(mid[j].selectedList, x) else mid[j].selectedList)
  {
    var L0 := wss0[w].nodeList;
    var mid := AfterRemovals(wss0, w, xs, nodes0);
    RemoveAllMembers(L0, xs);
    RemoveAllSnoc(L0, xs, x);
    var acted := x in RemoveAll(L0, xs);
    assert mid[w].nodeList == RemoveAll(L0, xs);
    assert x in mid[j].nodeList <==> (if j == w then acted else x in wss0[j].nodeList);
    SelectionStep(wss0[j].selectedList, xs, L0, nodes0, wss0[j].nodeList, x, drop);
  }

  /** Taking `root` out of `w`'s root list changes nothing the walks look at. */
  lemma RootListEditKeeps(g0: Graph, g1: Graph, w: WsRef, root: NodeRef)
    requires Valid(g0) && Valid(g1) && w < |g0.wss| && root < |g0.nodes|
    requires || g1 == g0.(wss := g0.wss[w := g0.wss[w].(rootNodes := Remove(g0.wss[w].rootNodes, root))])
             || g1 == g0.(wss := g0.wss[w := g0.wss[w].(rootNodes := Add(g0.wss[w].rootNodes, root))])
    ensures WsFieldsOnly(g0, g1) && SameShape(g0, g1) && Subtree(g1, root) == Subtree(g0, root)
    ensures WsConsistent(g0) ==> WsConsistent(g1)
  {
    SubtreeSameShape(g0, g1, root);
    if WsConsistent(g0) {
      RootListEditKeepsConsistent(g0, g1, w, root);
    }
  }

  lemma RootListEditKeepsConsistent(g0: Graph, g1: Graph, w: WsRef, root: NodeRef)
    requires WsConsistent(g0) && w < |g0.wss|
    requires || g1 == g0.(wss := g0.wss[w := g0.wss[w].(rootNodes := Remove(g0.wss[w].rootNodes, root))])
             || g1 == g0.(wss := g0.wss[w := g0.wss[w].(rootNodes := Add(g0.wss[w].rootNodes, root))])
    ensures WsConsistent(g1)
  {
    forall j | 0 <= j < |g1.wss| ensures g1.wss[j].nodeList == g0.wss[j].nodeList && g1.wss[j].selectedList == g0.wss[j].selectedList {
    }
  }

  lemma UnlistedFieldsOnly(g0: Graph, g1: Graph, xs: seq<NodeRef>, listed: seq<NodeRef>)
    requires g1.nodes == Unlisted(g0.nodes, xs, listed) && g1.cnctrs == g0.cnctrs
    ensures WsFieldsOnly(g0, g1)
  {
  }

  lemma WithWorkspaceFieldsOnly(g0: Graph, g1: Graph, w: WsRef, xs: seq<NodeRef>, listed: seq<NodeRef>)
    requires g1.nodes == WithWorkspace(g0.nodes, w, xs, listed) && g1.cnctrs == g0.cnctrs
    ensures WsFieldsOnly(g0, g1)
  {
  }

  /** Once a tree lying in `w` is unlisted from `w`, none of its nodes has a workspace. */
  lemma TreeUnlisted(g0: Graph, w: WsRef, root: NodeRef)
    requires Valid(g0) && WsConsistent(g0) && root < |g0.nodes| && w < |g0.wss|
    requires TreeInOneWs(g0, root) && g0.nodes[root].ws == Some(w)
    ensures forall x | x in Subtree(g0, root) ::
      Unlisted(g0.nodes, Subtree(g0, root), g0.wss[w].nodeList)[x].ws.None?
  {
    var tree := Subtree(g0, root);
    forall x | x in tree ensures x in g0.wss[w].nodeList {
      assert g0.nodes[x].ws == Some(w);
      WsListedAt(g0, x);
    }
  }

  // ---------------------------------------------------------------------------
  // Each step keeps the workspace bookkeeping consistent

  lemma SelectKeepsConsistent(g0: Graph, g1: Graph, n: NodeRef)
    requires n < |g0.nodes|
    requires g1.nodes == g0.nodes[n := g0.nodes[n].(isSelected := true)]
    requires g1.wss == SelectionNotified(g0.wss, n, true)
    ensures WsConsistent(g0) ==> WsConsistent(g1)
  {
    if WsConsistent(g0) {
      forall j, x | 0 <= j < |g1.wss| && x in g1.wss[j].selectedList
        ensures x in g1.wss[j].nodeList && x < |g1.nodes| && g1.nodes[x].isSelected
      {
        if n in g0.wss[j].nodeList {
          assert g1.wss[j].selectedList == Add(g0.wss[j].selectedList, n);
        } else {
          assert g1.wss[j] == g0.wss[j];
        }
        if x in g0.wss[j].selectedList {
          SelectionListedAt(g0, j, x);
        }
      }
    }
  }

  lemma DeselectKeepsConsistent(g0: Graph, g1: Graph, n: NodeRef)
    requires n < |g0.nodes|
    requires g1.nodes == g0.nodes[n := g0.nodes[n].(isSelected := false)]
    requires g1.wss == SelectionNotified(g0.wss, n, false)
    ensures WsConsistent(g0) ==> WsConsistent(g1)
  {
    if WsConsistent(g0) {
      forall j, x | 0 <= j < |g1.wss| && x in g1.wss[j].selectedList
        ensures x in g1.wss[j].nodeList && x < |g1.nodes| && g1.nodes[x].isSelected
      {
        if n in g0.wss[j].nodeList {
          assert g1.wss[j].selectedList == Remove(g0.wss[j].selectedList, n);
        } else {
          assert g1.wss[j] == g0.wss[j];
        }
        assert x in g0.wss[j].selectedList;
        SelectionListedAt(g0, j, x);
      }
    }
  }

  /** A new empty workspace keeps the bookkeeping consistent. */
  lemma NewWorkspaceKeepsConsistent(g0: Graph, g1: Graph)
    requires WsConsistent(g0) && g1.nodes == g0.nodes && |g1.wss| == |g0.wss| + 1 && g1.wss[..|g0.wss|] == g0.wss
    requires g1.wss[|g0.wss|].rootNodes == [] && g1.wss[|g0.wss|].nodeList == [] && g1.wss[|g0.wss|].selectedList == []
    ensures WsConsistent(g1)
  {
    forall j | 0 <= j < |g0.wss| ensures g1.wss[j] == g0.wss[j] {
      assert g1.wss[j] == g1.wss[..|g0.wss|][j];
    }
    forall x | 0 <= x < |g1.nodes| && g1.nodes[x].ws.Some?
      ensures g1.nodes[x].ws.value < |g1.wss| && x in g1.wss[g1.nodes[x].ws.value].nodeList
    {
      WsListedAt(g0, x);
    }
  }

  /** Listing nodes that had no workspace keeps the bookkeeping consistent. */
  lemma AddNodesKeepsConsistent(g0: Graph, g1: Graph, w: WsRef, xs: seq<NodeRef>)
    requires WsConsistent(g0) && w < |g0.wss|
    requires g1.nodes == WithWorkspace(g0.nodes, w, xs, g0.wss[w].nodeList)
    requires g1.wss == g0.wss[w := g0.wss[w].(nodeList := AddAll(g0.wss[w].nodeList, xs))]
    requires forall x | x in xs :: x < |g0.nodes| && g0.nodes[x].ws.None?
    ensures WsConsistent(g1)
    ensures forall x | x in xs :: g1.nodes[x].ws == Some(w)
  {
    AddingKeepsListedCarryWs(g0, g1, w, xs);
    AddingKeepsWsListed(g0, g1, w, xs);
    AddingKeepsSelectionListed(g0, g1, w, xs);
    forall x | x in xs ensures g1.nodes[x].ws == Some(w) {
      AddingGivesWs(g0, g1, w, xs, x);
    }
  }

  /** A node of the batch that had no workspace was not listed, and now names `w`. */
  lemma AddingGivesWs(g0: Graph, g1: Graph, w: WsRef, xs: seq<NodeRef>, x: NodeRef)
    requires ListedCarryWs(g0) && w < |g0.wss|
    requires g1.nodes == WithWorkspace(g0.nodes, w, xs, g0.wss[w].nodeList)
    requires forall x | x in xs :: x < |g0.nodes| && g0.nodes[x].ws.None?
    requires x in xs
    ensures x < |g1.nodes| && g1.nodes[x].ws == Some(w)
  {
    if x in g0.wss[w].nodeList {
      ListedCarryWsAt(g0, w, x);
    }
  }

  lemma AddingKeepsListedCarryWs(g0: Graph, g1: Graph, w: WsRef, xs: seq<NodeRef>)
    requires ListedCarryWs(g0) && w < |g0.wss|
    requires g1.nodes == WithWorkspace(g0.nodes, w, xs, g0.wss[w].nodeList)
    requires g1.wss == g0.wss[w := g0.wss[w].(nodeList := AddAll(g0.wss[w].nodeList, xs))]
    requires forall x | x in xs :: x < |g0.nodes| && g0.nodes[x].ws.None?
    ensures ListedCarryWs(g1)
  {
    forall j, x | 0 <= j < |g1.wss| && x in g1.wss[j].nodeList
      ensures x < |g1.nodes| && g1.nodes[x].ws == Some(j)
    {
      AddingKeepsListedCarryWsAt(g0, g1, w, xs, j, x);
    }
  }

  lemma AddingKeepsWsListed(g0: Graph, g1: Graph, w: WsRef, xs: seq<NodeRef>)
    requires WsListed(g0) && w < |g0.wss|
    requires g1.nodes == WithWorkspace(g0.nodes, w, xs, g0.wss[w].nodeList)
    requires g1.wss == g0.wss[w := g0.wss[w].(nodeList := AddAll(g0.wss[w].nodeList, xs))]
    ensures WsListed(g1)
  {
    forall x | 0 <= x < |g1.nodes| && g1.nodes[x].ws.Some?
      ensures g1.nodes[x].ws.value < |g1.wss| && x in g1.wss[g1.nodes[x].ws.value].nodeList
    {
      AddingKeepsWsListedAt(g0, g1, w, xs, x);
    }
  }

  lemma AddingKeepsSelectionListed(g0: Graph, g1: Graph, w: WsRef, xs: seq<NodeRef>)
    requires SelectionListed(g0) && ListsDistinct(g0) && w < |g0.wss|
    requires g1.nodes == WithWorkspace(g0.nodes, w, xs, g0.wss[w].nodeList)
    requires g1.wss == g0.wss[w := g0.wss[w].(nodeList := AddAll(g0.wss[w].nodeList, xs))]
    ensures SelectionListed(g1) && ListsDistinct(g1)
  {
    AddAllMembers(g0.wss[w].nodeList, xs);
    forall j, x | 0 <= j < |g1.wss| && x in g1.wss[j].selectedList
      ensures x in g1.wss[j].nodeList && x < |g1.nodes| && g1.nodes[x].isSelected
    {
      assert g1.wss[j].selectedList == g0.wss[j].selectedList;
      SelectionListedAt(g0, j, x);
      assert g1.nodes[x].isSelected == g0.nodes[x].isSelected;
    }
  }

  lemma AddingKeepsListedCarryWsAt(g0: Graph, g1: Graph, w: WsRef, xs: seq<NodeRef>, j: WsRef, x: NodeRef)
    requires ListedCarryWs(g0) && w < |g0.wss|
    requires g1.nodes == WithWorkspace(g0.nodes, w, xs, g0.wss[w].nodeList)
    requires g1.wss == g0.wss[w := g0.wss[w].(nodeList := AddAll(g0.wss[w].nodeList, xs))]
    requires forall x | x in xs :: x < |g0.nodes| && g0.nodes[x].ws.None?
    requires j < |g1.wss| && x in g1.wss[j].nodeList
    ensures x < |g1.nodes| && g1.nodes[x].ws == Some(j)
  {
    var L0 := g0.wss[w].nodeList;
    AddAllMembers(L0, xs);
    if j == w {
      if x in L0 {
        ListedCarryWsAt(g0, w, x);
        assert g1.nodes[x] == g0.nodes[x];
      } else {
        assert x in xs;
      }
    } else {
      assert x in g0.wss[j].nodeList;
      ListedCarryWsAt(g0, j, x);
      assert x !in xs;
      assert g1.nodes[x] == g0.nodes[x];
    }
  }

  lemma AddingKeepsWsListedAt(g0: Graph, g1: Graph, w: WsRef, xs: seq<NodeRef>, x: NodeRef)
    requires WsListed(g0) && w < |g0.wss|
    requires g1.nodes == WithWorkspace(g0.nodes, w, xs, g0.wss[w].nodeList)
    requires g1.wss == g0.wss[w := g0.wss[w].(nodeList := AddAll(g0.wss[w].nodeList, xs))]
    requires x < |g1.nodes| && g1.nodes[x].ws.Some?
    ensures g1.nodes[x].ws.value < |g1.wss| && x in g1.wss[g1.nodes[x].ws.value].nodeList
  {
    var L0 := g0.wss[w].nodeList;
    AddAllMembers(L0, xs);
    if x in xs && x !in L0 {
      assert g1.nodes[x].ws == Some(w);
    } else {
      assert g1.nodes[x] == g0.nodes[x];
      WsListedAt(g0, x);
    }
  }

  /** Unlisting nodes keeps the bookkeeping consistent. */
  lemma RemoveNodesKeepsConsistent(g0: Graph, g1: Graph, w: WsRef, xs: seq<NodeRef>)
    requires WsConsistent(g0) && w < |g0.wss|
    requires g1.nodes == Unlisted(g0.nodes, xs, g0.wss[w].nodeList)
    requires g1.wss == AfterRemovals(g0.wss, w, xs, g0.nodes)
    ensures WsConsistent(g1)
  {
    RemovalKeepsListedCarryWs(g0, g1, w, xs);
    RemovalKeepsWsListed(g0, g1, w, xs);
    RemovalKeepsSelectionListed(g0, g1, w, xs);
  }

  lemma RemovalKeepsListedCarryWs(g0: Graph, g1: Graph, w: WsRef, xs: seq<NodeRef>)
    requires ListedCarryWs(g0) && w < |g0.wss|
    requires g1.nodes == Unlisted(g0.nodes, xs, g0.wss[w].nodeList)
    requires g1.wss == AfterRemovals(g0.wss, w, xs, g0.nodes)
    ensures ListedCarryWs(g1)
  {
    var L0 := g0.wss[w].nodeList;
    forall j, x | 0 <= j < |g1.wss| && x in g1.wss[j].nodeList
      ensures g1.nodes[x].ws == Some(j)
    {
      assert g1.wss[j].nodeList == if j == w then RemoveAll(L0, xs) else g0.wss[j].nodeList;
      StillListedKeepsWs(g0, w, xs, j, x);
      assert g1.nodes[x] == g0.nodes[x];
    }
  }

  /** A node still listed after the removals was not removed, and names the same workspace. */
  lemma StillListedKeepsWs(g0: Graph, w: WsRef, xs: seq<NodeRef>, j: WsRef, x: NodeRef)
    requires ListedCarryWs(g0) && w < |g0.wss| && j < |g0.wss|
    requires x in (if j == w then RemoveAll(g0.wss[w].nodeList, xs) else g0.wss[j].nodeList)
    ensures x < |g0.nodes| && g0.nodes[x].ws == Some(j) && !(x in xs && x in g0.wss[w].nodeList)
  {
    RemoveAllMembers(g0.wss[w].nodeList, xs);
    ListedCarryWsAt(g0, j, x);
    if j != w && x in g0.wss[w].nodeList {
      ListedCarryWsAt(g0, w, x);
    }
  }

  lemma RemovalKeepsWsListed(g0: Graph, g1: Graph, w: WsRef, xs: seq<NodeRef>)
    requires WsListed(g0) && w < |g0.wss|
    requires g1.nodes == Unlisted(g0.nodes, xs, g0.wss[w].nodeList)
    requires g1.wss == AfterRemovals(g0.wss, w, xs, g0.nodes)
    ensures WsListed(g1)
  {
    var L0 := g0.wss[w].nodeList;
    RemoveAllMembers(L0, xs);
    forall x | 0 <= x < |g1.nodes| && g1.nodes[x].ws.Some?
      ensures x in g1.wss[g1.nodes[x].ws.value].nodeList
    {
      assert !(x in xs && x in L0);
      assert g1.nodes[x] == g0.nodes[x];
      WsListedAt(g0, x);
      var j := g0.nodes[x].ws.value;
      assert g1.wss[j].nodeList == if j == w then RemoveAll(L0, xs) else g0.wss[j].nodeList;
    }
  }

  lemma RemovalKeepsSelectionListed(g0: Graph, g1: Graph, w: WsRef, xs: seq<NodeRef>)
    requires ListedCarryWs(g0) && SelectionListed(g0) && w < |g0.wss|
    requires g1.nodes == Unlisted(g0.nodes, xs, g0.wss[w].nodeList)
    requires g1.wss == AfterRemovals(g0.wss, w, xs, g0.nodes)
    ensures SelectionListed(g1)
  {
    var L0 := g0.wss[w].nodeList;
    forall j, x | 0 <= j < |g1.wss| && x in g1.wss[j].selectedList
      ensures x in g1.wss[j].nodeList && g1.nodes[x].isSelected
    {
      assert g1.wss[j].selectedList ==
        RemoveAll(g0.wss[j].selectedList, Deselected(xs, L0, g0.nodes, g0.wss[j].nodeList));
      StillSelectedKept(g0, w, xs, j, x);
      assert g1.wss[j].nodeList == if j == w then RemoveAll(L0, xs) else g0.wss[j].nodeList;
      assert g1.nodes[x] == g0.nodes[x];
    }
  }

  /** A node still selected after the removals is still listed, and was not removed. */
  lemma StillSelectedKept(g0: Graph, w: WsRef, xs: seq<NodeRef>, j: WsRef, x: NodeRef)
    requires ListedCarryWs(g0) && SelectionListed(g0) && w < |g0.wss| && j < |g0.wss|
    requires x in RemoveAll(g0.wss[j].selectedList, Deselected(xs, g0.wss[w].nodeList, g0.nodes, g0.wss[j].nodeList))
    ensures x < |g0.nodes| && g0.nodes[x].isSelected && !(x in xs && x in g0.wss[w].nodeList)
    ensures x in (if j == w then RemoveAll(g0.wss[w].nodeList, xs) else g0.wss[j].nodeList)
  {
    var L0 := g0.wss[w].nodeList;
    var d := Deselected(xs, L0, g0.nodes, g0.wss[j].nodeList);
    RemoveAllMembers(g0.wss[j].selectedList, d);
    assert x in g0.wss[j].selectedList && x !in d;
    SelectionListedAt(g0, j, x);
    ListedCarryWsAt(g0, j, x);
    if x in L0 {
      ListedCarryWsAt(g0, w, x);
    }
    RemoveAllMembers(L0, xs);
  }
}
