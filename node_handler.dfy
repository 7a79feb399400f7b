/**
 * The node edits of the service-level `BhNodeHandler`: deleting nodes,
 * removing or replacing a child, moving a node onto a workspace, and
 * exchanging two nodes.  The handler sorts a node into four states: a node
 * with no workspace is deleted, a node with a parent connector is a child, and
 * a root is either held by its workspace's root list or dangling.
 *
 * Every call into the view (`MsgService`), the syntax error checker, the text
 * prompter and the derivative machinery is left out; `WorkspaceRegisterer`
 * is read as `Workspace.addNodeTree` and `Workspace.removeNodeTree` on the
 * node's workspace.
 */
module NodeHandler {
  import opened Wrappers
  import opened Ids
  import SequencedSets
  import opened NodeModel
  import opened Undo
  import opened NodeGraphs
  import opened Connectors
  import opened Replacement

  datatype HandlerState = Deleted | RootDangling | RootDirectlyUnderWs | Child

  /** The state the handler dispatches on. */
  function StateOf(g: Graph, n: NodeRef): (s: HandlerState)
    requires Valid(g) && n < |g.nodes|
    ensures s == HandlerState.Deleted <==> IsDeleted(g, n)
    ensures s == HandlerState.Child <==> IsChild(g, n)
    ensures s == RootDirectlyUnderWs <==> IsRoot(g, n) && n in g.wss[g.nodes[n].ws.value].rootNodes
    ensures s == RootDangling <==> IsRoot(g, n) && n !in g.wss[g.nodes[n].ws.value].rootNodes
  {
    match GetState(g, n)
    case Deleted => HandlerState.Deleted
    case Child => HandlerState.Child
    case Root => if n in g.wss[g.nodes[n].ws.value].rootNodes then RootDirectlyUnderWs else RootDangling
  }

  /** `n` is on `w`: it names `w` as its workspace, or `w` lists it. */
  predicate Registered(g: Graph, n: NodeRef, w: WsRef)
    requires n < |g.nodes| && w < |g.wss|
  {
    g.nodes[n].ws == Some(w) || n in g.wss[w].nodeList
  }

  /**
   * The state after the child `n` was removed: its parent connector holds a
   * new default node made from the connector's default node id, `n` hangs
   * nowhere and records that node as its last replacement, the links agree,
   * every other old node keeps its parent, and every old node keeps its id,
   * default flag and connectors.
   */
  predicate ChildRemoved(g0: Graph, n: NodeRef, h: Graph)
    requires Valid(g0) && n < |g0.nodes| && g0.nodes[n].parent.Some?
  {
    var c := g0.nodes[n].parent.value;
    var k := |g0.nodes|;
    && Valid(h) && Linked(h) && |h.nodes| > k && |h.cnctrs| == |g0.cnctrs| && |h.wss| == |g0.wss|
    && h.cnctrs[c].connected == Some(k) && h.nodes[k].parent == Some(c)
    && h.nodes[k].isDefault && h.nodes[k].id == GetDefaultNodeId(g0, c)
    && h.nodes[n].parent.None? && h.nodes[n].lastReplaced == Some(k)
    && (forall x | 0 <= x < k && x != n :: h.nodes[x].parent == g0.nodes[x].parent)
    && (forall x | 0 <= x < k ::
          h.nodes[x].id == g0.nodes[x].id && h.nodes[x].isDefault == g0.nodes[x].isDefault
          && h.nodes[x].connectors == g0.nodes[x].connectors)
  }

  /** Workspace bookkeeping after a removal leaves the removal's outcome in place. */
  lemma ChildRemovedKept(g0: Graph, n: NodeRef, h1: Graph, h2: Graph)
    requires Valid(g0) && n < |g0.nodes| && g0.nodes[n].parent.Some?
    requires ChildRemoved(g0, n, h1) && Valid(h2) && WsFieldsOnly(h1, h2) && |h2.wss| == |h1.wss|
    ensures ChildRemoved(g0, n, h2)
  {
    WsFieldsOnlyShape(h1, h2);
    LinkedSameShape(h1, h2);
  }

  /**
   * `removeChild`: `n` gives its place to a new default node, which is then
   * put on the workspace `n` was on.  The source reads element 0 of the list
   * `remove` returns without a check, so `n` must hang below a connector.
   * The list `remove` returns here holds that one pair, so the loop over the
   * rest of it (`completeNewNodeReplacement`) has nothing to do.
   */
  method RemoveChild(g: NodeGraph, f: NodeFactory, n: NodeRef, ope: UserOperation) returns (swapped: seq<Swapped>)
    requires g.Valid() && Linked(g.G()) && n < |g.nodes| && g.nodes[n].parent.Some?
    modifies g, ope
    ensures swapped == [Swapped(n, |old(g.nodes)|)]
    ensures ChildRemoved(old(g.G()), n, g.G())
    ensures old(g.nodes[n].ws).Some? ==> Registered(g.G(), |old(g.nodes)|, old(g.nodes[n].ws).value)
    ensures Extends(ope.subOps, old(ope.subOps)) && |ope.subOps| > |old(ope.subOps)|
    ensures NoNewPlaces(old(g.G()), g.G(), [n]) && PlacesKept(old(g.G()), g.G(), [n])
    ensures old(g.nodes[n].ws).Some? ==> g.nodes[|old(g.nodes)|].ws == old(g.nodes[n].ws)
  {
    ghost var g0 := g.G();
    var ws := g.nodes[n].ws;
    swapped := Remove(g, f, n, ope);
    ghost var g1 := g.G();
    ghost var log1 := ope.subOps;
    assert ChildRemoved(g0, n, g1);
    var newNode := swapped[0].newNode;
    if ws.Some? {
      g.AddNodeTree(ws.value, newNode, ope);
      ChildRemovedKept(g0, n, g1, g.G());
      ExtendsTrans(ope.subOps, log1, old(ope.subOps));
      LeafListedNoNewPlaces(g0, g1, g.G(), n);
    }
  }

  /** Listing the new default node, a leaf, places no old node. */
  lemma LeafListedNoNewPlaces(g0: Graph, g1: Graph, h: Graph, n: NodeRef)
    requires Valid(g0) && Valid(g1) && n < |g0.nodes| && |g1.nodes| > |g0.nodes|
    requires g1.nodes[|g0.nodes|].connectors == []
    requires NoNewPlaces(g0, g1, [n]) && NoNewPlaces(g1, h, Subtree(g1, |g0.nodes|))
    requires PlacesKept(g0, g1, [n]) && PlacesKept(g1, h, Subtree(g1, |g0.nodes|))
    ensures NoNewPlaces(g0, h, [n]) && PlacesKept(g0, h, [n])
  {
    SubtreeOfLeaf(g1, |g0.nodes|);
    NoNewPlacesWiden(g1, h, [|g0.nodes|], [n, |g0.nodes|]);
    NoNewPlacesWiden(g0, g1, [n], [n, |g0.nodes|]);
    NoNewPlacesTrans(g0, g1, h, [n, |g0.nodes|]);
    NoNewPlacesWiden(g0, h, [n, |g0.nodes|], [n]);
    PlacesKeptWiden(g1, h, [|g0.nodes|], [n, |g0.nodes|]);
    PlacesKeptWiden(g0, g1, [n], [n, |g0.nodes|]);
    PlacesKeptTrans(g0, g1, h, [n, |g0.nodes|]);
    PlacesKeptWiden(g0, h, [n, |g0.nodes|], [n]);
  }

  /**
   * `removeDependingOnState`: a child is removed from its connector; for a
   * root or a deleted node only the view changes, so the model changes nothing.
   */
  method RemoveDependingOnState(g: NodeGraph, f: NodeFactory, n: NodeRef, ope: UserOperation)
    returns (swapped: seq<Swapped>)
    requires g.Valid() && Linked(g.G()) && n < |g.nodes|
    modifies g, ope
    ensures g.Valid() && Linked(g.G()) && |g.wss| == |old(g.wss)| && |g.nodes| >= |old(g.nodes)|
    ensures Extends(ope.subOps, old(ope.subOps))
    ensures old(IsChild(g.G(), n)) ==>
      && swapped == [Swapped(n, |old(g.nodes)|)] && ChildRemoved(old(g.G()), n, g.G())
      && Registered(g.G(), |old(g.nodes)|, old(g.nodes[n].ws).value)
    ensures !old(IsChild(g.G(), n)) ==> swapped == [] && g.G() == old(g.G()) && ope.subOps == old(ope.subOps)
    ensures NoNewPlaces(old(g.G()), g.G(), [n]) && PlacesKept(old(g.G()), g.G(), [n])
    ensures old(IsChild(g.G(), n)) ==> g.nodes[|old(g.nodes)|].ws == old(g.nodes[n].ws)
  {
    match StateOf(g.G(), n)
    case Child =>
      swapped := RemoveChild(g, f, n, ope);
    case RootDangling =>
      swapped := [];
    case RootDirectlyUnderWs =>
      swapped := [];
    case Deleted =>
      swapped := [];
  }

  /**
   * `deleteNode`: a deleted node is left alone.  Otherwise the node is removed
   * as its state demands and its tree leaves its workspace
   * (`WorkspaceRegisterer.deregister`).  The deselection before, the paste
   * cancellation after and the deletion of derivatives are not part of this
   * model.
   */
  method DeleteNode(g: NodeGraph, f: NodeFactory, n: NodeRef, ope: UserOperation) returns (swapped: seq<Swapped>)
    requires g.Valid() && Linked(g.G()) && n < |g.nodes|
    modifies g, ope
    ensures g.Valid() && Linked(g.G()) && |g.nodes| >= |old(g.nodes)| && |g.wss| == |old(g.wss)|
    ensures |g.cnctrs| == |old(g.cnctrs)| && Extends(ope.subOps, old(ope.subOps))
    ensures old(IsDeleted(g.G(), n)) ==> swapped == [] && g.G() == old(g.G()) && ope.subOps == old(ope.subOps)
    ensures old(IsChild(g.G(), n)) ==> swapped == [Swapped(n, |old(g.nodes)|)] && ChildRemoved(old(g.G()), n, g.G())
    ensures old(IsRoot(g.G(), n)) ==> swapped == [] && WsFieldsOnly(old(g.G()), g.G())
    ensures Gone(g.G(), n)
    ensures old(IsRoot(g.G(), n) && WsConsistent(g.G()) && TreeInOneWs(g.G(), n)) ==>
      && WsConsistent(g.G())
      && (forall x | x in Subtree(old(g.G()), n) :: g.nodes[x].ws.None?)
      && n !in g.wss[old(g.nodes[n].ws).value].rootNodes
    ensures forall x | 0 <= x < |old(g.nodes)| && old(Gone(g.G(), x)) :: Gone(g.G(), x)
    ensures forall x | 0 <= x < |old(g.nodes)| && x != n :: g.nodes[x].parent == old(g.nodes[x].parent)
  {
    if IsDeleted(g.G(), n) {
      return [];
    }
    ghost var g0 := g.G();
    swapped := RemoveDependingOnState(g, f, n, ope);
    ghost var g1 := g.G();
    ghost var log1 := ope.subOps;
    var ws := g.nodes[n].ws;
    if ws.Some? {
      g.RemoveNodeTree(ws.value, n, ope);
      ExtendsTrans(ope.subOps, log1, old(ope.subOps));
      WsFieldsOnlyShape(g1, g.G());
      LinkedSameShape(g1, g.G());
      if IsChild(g0, n) {
        ChildRemovedKept(g0, n, g1, g.G());
      }
      RemoveAllRootGone(g1, ws.value, n, g.G());
      NoNewPlacesWiden(g1, g.G(), [], [n]);
      NoNewPlacesTrans(g0, g1, g.G(), [n]);
    }
    GoneKept(g0, g.G(), n);
  }

  /**
   * A change that places no old node other than `n` and keeps the parent of
   * every other old node leaves every gone node other than `n` gone.
   */
  lemma GoneKept(g0: Graph, h: Graph, n: NodeRef)
    requires Valid(g0) && Valid(h) && n < |g0.nodes| && NoNewPlaces(g0, h, [n])
    requires forall x | 0 <= x < |g0.nodes| && x != n :: h.nodes[x].parent == g0.nodes[x].parent
    ensures forall x | 0 <= x < |g0.nodes| && x != n && Gone(g0, x) :: Gone(h, x)
  {
    forall x | 0 <= x < |g0.nodes| && x != n && Gone(g0, x)
      ensures Gone(h, x)
    {
      assert x !in [n];
      if h.nodes[x].ws.Some? {
        var w := h.nodes[x].ws.value;
        assert g0.nodes[x].ws == Some(w);
      }
    }
  }

  /**
   * What `deleteNode` leaves behind: the node is deleted, or it is a root its
   * workspace's root list no longer holds.
   */
  predicate Gone(g: Graph, n: NodeRef)
    requires Valid(g) && n < |g.nodes|
  {
    StateOf(g, n) == HandlerState.Deleted || StateOf(g, n) == RootDangling
  }

  /** Once `removeNodeTree` ran on a tree's root, the root list no longer holds it. */
  lemma RemoveAllRootGone(g0: Graph, w: WsRef, n: NodeRef, h: Graph)
    requires Valid(g0) && w < |g0.wss| && n < |g0.nodes|
    requires h.wss == AfterRemovals(g0.wss[w := g0.wss[w].(rootNodes := SequencedSets.Remove(g0.wss[w].rootNodes, n))],
                                    w, Subtree(g0, n), g0.nodes)
    ensures n !in h.wss[w].rootNodes
  {
  }

  /**
   * `deleteNodes`: deletes the nodes one after another and collects the
   * pairs each deletion reports.  Each pair names one of the nodes and a node
   * created by this call, and a node that was deleted already adds none.
   */
  method DeleteNodes(g: NodeGraph, f: NodeFactory, xs: seq<NodeRef>, ope: UserOperation) returns (swapped: seq<Swapped>)
    requires g.Valid() && Linked(g.G()) && forall i | 0 <= i < |xs| :: xs[i] < |g.nodes|
    modifies g, ope
    ensures g.Valid() && Linked(g.G()) && |g.nodes| >= |old(g.nodes)| && |g.wss| == |old(g.wss)|
    ensures Extends(ope.subOps, old(ope.subOps))
    ensures |swapped| <= |xs|
    ensures forall s | s in swapped :: s.oldNode in xs && |old(g.nodes)| <= s.newNode < |g.nodes|
    ensures (forall i | 0 <= i < |xs| :: old(IsDeleted(g.G(), xs[i]))) ==> swapped == [] && g.G() == old(g.G())
    ensures forall i | 0 <= i < |xs| :: Gone(g.G(), xs[i])
    ensures forall x | 0 <= x < |old(g.nodes)| && old(Gone(g.G(), x)) :: Gone(g.G(), x)
  {
    swapped := [];
    var i := 0;
    while i < |xs|
      invariant 0 <= i <= |xs|
      invariant g.Valid() && Linked(g.G()) && |g.nodes| >= |old(g.nodes)| && |g.wss| == |old(g.wss)|
      invariant Extends(ope.subOps, old(ope.subOps))
      invariant |swapped| <= i
      invariant forall s | s in swapped :: s.oldNode in xs[..i] && |old(g.nodes)| <= s.newNode < |g.nodes|
      invariant (forall j | 0 <= j < |xs| :: old(IsDeleted(g.G(), xs[j]))) ==> swapped == [] && g.G() == old(g.G())
      invariant forall j | 0 <= j < i :: Gone(g.G(), xs[j])
      invariant forall x | 0 <= x < |old(g.nodes)| && old(Gone(g.G(), x)) :: Gone(g.G(), x)
    {
      ghost var log0 := ope.subOps;
      ghost var g0 := g.G();
      var r := DeleteNode(g, f, xs[i], ope);
      ExtendsTrans(ope.subOps, log0, old(ope.subOps));
      if IsChild(g0, xs[i]) {
        assert r == [Swapped(xs[i], |g0.nodes|)];
      }
      GoneStep(old(g.G()), g0, g.G(), xs, i);
      swapped := swapped + r;
      i := i + 1;
    }
  }

  /** One more deletion keeps every earlier deleted node, and every node gone at the start, gone. */
  lemma GoneStep(g00: Graph, g0: Graph, h: Graph, xs: seq<NodeRef>, i: nat)
    requires Valid(g00) && Valid(g0) && Valid(h) && |g00.nodes| <= |g0.nodes| <= |h.nodes| && i < |xs|
    requires forall j | 0 <= j < |xs| :: xs[j] < |g00.nodes|
    requires forall j | 0 <= j < i :: Gone(g0, xs[j])
    requires forall x | 0 <= x < |g00.nodes| && Gone(g00, x) :: Gone(g0, x)
    requires forall x | 0 <= x < |g0.nodes| && Gone(g0, x) :: Gone(h, x)
    requires Gone(h, xs[i])
    ensures forall j | 0 <= j < i + 1 :: Gone(h, xs[j])
    ensures forall x | 0 <= x < |g00.nodes| && Gone(g00, x) :: Gone(h, x)
  {
  }

  /**
   * The list `replaceChild` returns, as written: the pairs that removing
   * `newChild` from its old place produced come first, then the pairs of the
   * replacement itself.
   */
  function SwapListAsWritten(removal: seq<Swapped>, replacement: seq<Swapped>): (r: seq<Swapped>)
    ensures multiset(r) == multiset(removal) + multiset(replacement)
    ensures |removal| > 0 ==> r[0] == removal[0]
  {
    removal + replacement
  }

  /**
   * When `newChild` was a child itself, element 0 of the list as written
   * pairs `newChild` with its substitute, not `oldChild` with `newChild`.
   */
  lemma SwapListAsWrittenMisplacesHead(oldChild: NodeRef, newChild: NodeRef, substitute: NodeRef)
    requires oldChild != newChild
    ensures SwapListAsWritten([Swapped(newChild, substitute)], [Swapped(oldChild, newChild)])[0]
              != Swapped(oldChild, newChild)
  {
  }

  /**
   * The list `replaceChild` promises: the same pairs, the pair of the
   * replacement first.
   */
  function SwapList(removal: seq<Swapped>, replacement: seq<Swapped>): (r: seq<Swapped>)
    ensures multiset(r) == multiset(removal) + multiset(replacement)
    ensures |replacement| > 0 ==> r[0] == replacement[0]
  {
    replacement + removal
  }

  /**
   * The state after the first half of `replaceChild`: `newChild` was removed
   * as its state demands and put on a workspace.  A child `newChild` left a
   * new default node at its old connector; `oldChild` and every other old
   * node keep their parents.
   */
  predicate Prepared(g0: Graph, oldChild: NodeRef, newChild: NodeRef, h: Graph)
    requires Valid(g0) && newChild < |g0.nodes|
  {
    && Valid(h) && |h.nodes| >= |g0.nodes| && |h.cnctrs| == |g0.cnctrs| && |h.wss| == |g0.wss|
    && (forall x | 0 <= x < |g0.nodes| && x != newChild :: h.nodes[x].parent == g0.nodes[x].parent)
    && (IsChild(g0, newChild) ==>
          var c2 := g0.nodes[newChild].parent.value;
          && |h.nodes| > |g0.nodes| && h.cnctrs[c2].connected == Some(|g0.nodes|)
          && h.nodes[|g0.nodes|].parent == Some(c2) && h.nodes[newChild].parent.None?)
    && (!IsChild(g0, newChild) ==> h.nodes[newChild].parent == g0.nodes[newChild].parent)
    && (Linked(g0) ==> Linked(h))
  }

  /** The first half of `replaceChild`. */
  method PrepareReplacement(g: NodeGraph, f: NodeFactory, oldChild: NodeRef, newChild: NodeRef, ope: UserOperation)
    returns (removal: seq<Swapped>)
    requires g.Valid() && Linked(g.G()) && oldChild < |g.nodes| && newChild < |g.nodes|
    modifies g, ope
    ensures Prepared(old(g.G()), oldChild, newChild, g.G()) && g.Valid()
    ensures Extends(ope.subOps, old(ope.subOps))
    ensures old(IsChild(g.G(), newChild)) ==> removal == [Swapped(newChild, |old(g.nodes)|)]
    ensures !old(IsChild(g.G(), newChild)) ==> removal == []
    ensures old(g.nodes[newChild].parent.None? && g.nodes[newChild].connectors == []) ==>
      PlacesKept(old(g.G()), g.G(), [newChild]) && g.nodes[newChild].connectors == []
  {
    ghost var g0 := g.G();
    removal := RemoveDependingOnState(g, f, newChild, ope);
    ghost var g1 := g.G();
    ghost var log1 := ope.subOps;
    var ws := g.nodes[oldChild].ws;
    if ws.Some? {
      g.AddNodeTree(ws.value, newChild, ope);
      WsFieldsOnlyShape(g1, g.G());
      LinkedSameShape(g1, g.G());
      ExtendsTrans(ope.subOps, log1, old(ope.subOps));
      if g0.nodes[newChild].parent.None? && g0.nodes[newChild].connectors == [] {
        SubtreeOfLeaf(g1, newChild);
      }
    }
  }

  /**
   * The state after `replaceChild` replaced the child `oldChild`: its
   * connector holds `newChild`, `oldChild` hangs nowhere and records
   * `newChild` as its last replacement, a child `newChild` left a new default
   * node at its old connector, and every other old node keeps its parent.
   */
  predicate ChildReplaced(g0: Graph, oldChild: NodeRef, newChild: NodeRef, h: Graph)
    requires Valid(g0) && oldChild < |g0.nodes| && newChild < |g0.nodes| && IsChild(g0, oldChild)
  {
    var c := g0.nodes[oldChild].parent.value;
    && Valid(h) && |h.nodes| >= |g0.nodes| && |h.cnctrs| == |g0.cnctrs| && |h.wss| == |g0.wss|
    && h.cnctrs[c].connected == Some(newChild) && h.nodes[newChild].parent == Some(c)
    && h.nodes[oldChild].parent.None? && h.nodes[oldChild].lastReplaced == Some(newChild)
    && (IsChild(g0, newChild) ==>
          |h.nodes| > |g0.nodes| && h.cnctrs[g0.nodes[newChild].parent.value].connected == Some(|g0.nodes|))
    && (forall x | 0 <= x < |g0.nodes| && x != oldChild && x != newChild :: h.nodes[x].parent == g0.nodes[x].parent)
    && (Linked(g0) && (g0.nodes[newChild].parent.None? || IsChild(g0, newChild)) ==> Linked(h))
  }

  /**
   * `replaceChild`: a node that is not a child is left alone and the result is
   * empty.  Otherwise `newChild` is first removed as its state demands, is put
   * on the workspace of `oldChild`, and takes the place of `oldChild`.  The
   * result puts the pair of `oldChild` and `newChild` first, as the source
   * promises; the source itself puts the pairs of the removal first.
   */
  method ReplaceChild(g: NodeGraph, f: NodeFactory, oldChild: NodeRef, newChild: NodeRef, ope: UserOperation)
    returns (swapped: seq<Swapped>)
    requires g.Valid() && Linked(g.G()) && oldChild < |g.nodes| && newChild < |g.nodes|
    requires IsChild(g.G(), oldChild) ==> oldChild != newChild
    modifies g, ope
    ensures g.Valid() && Extends(ope.subOps, old(ope.subOps))
    ensures !old(IsChild(g.G(), oldChild)) ==> swapped == [] && g.G() == old(g.G()) && ope.subOps == old(ope.subOps)
    ensures old(IsChild(g.G(), oldChild)) ==> ChildReplaced(old(g.G()), oldChild, newChild, g.G())
    ensures old(IsChild(g.G(), oldChild) && IsChild(g.G(), newChild)) ==>
      swapped == [Swapped(oldChild, newChild), Swapped(newChild, |old(g.nodes)|)]
    ensures old(IsChild(g.G(), oldChild) && !IsChild(g.G(), newChild)) ==> swapped == [Swapped(oldChild, newChild)]
    ensures old(IsChild(g.G(), oldChild) && g.nodes[newChild].parent.None? && g.nodes[newChild].connectors == []) ==>
      PlacesKept(old(g.G()), g.G(), [newChild, oldChild])
  {
    if !IsChild(g.G(), oldChild) {
      return [];
    }
    ghost var g0 := g.G();
    var removal := PrepareReplacement(g, f, oldChild, newChild, ope);
    ghost var log1 := ope.subOps;
    swapped := FinishReplacement(g, f, g0, oldChild, newChild, removal, ope);
    ExtendsTrans(ope.subOps, log1, old(ope.subOps));
  }

  /** The second half of `replaceChild`: `replace`, and the list of pairs of both halves. */
  method FinishReplacement(g: NodeGraph, f: NodeFactory, ghost g0: Graph, oldChild: NodeRef, newChild: NodeRef,
                           removal: seq<Swapped>, ope: UserOperation)
    returns (swapped: seq<Swapped>)
    requires Valid(g0) && Linked(g0) && oldChild < |g0.nodes| && newChild < |g0.nodes|
    requires IsChild(g0, oldChild) && oldChild != newChild
    requires g.Valid() && Prepared(g0, oldChild, newChild, g.G())
    requires IsChild(g0, newChild) ==> removal == [Swapped(newChild, |g0.nodes|)]
    requires !IsChild(g0, newChild) ==> removal == []
    requires g0.nodes[newChild].parent.None? && g0.nodes[newChild].connectors == [] ==>
      PlacesKept(g0, g.G(), [newChild]) && g.nodes[newChild].connectors == []
    modifies g, ope
    ensures g.Valid() && Extends(ope.subOps, old(ope.subOps))
    ensures ChildReplaced(g0, oldChild, newChild, g.G())
    ensures IsChild(g0, newChild) ==> swapped == [Swapped(oldChild, newChild), Swapped(newChild, |g0.nodes|)]
    ensures !IsChild(g0, newChild) ==> swapped == [Swapped(oldChild, newChild)]
    ensures g0.nodes[newChild].parent.None? && g0.nodes[newChild].connectors == [] ==>
      PlacesKept(g0, g.G(), [newChild, oldChild])
  {
    ghost var g1 := g.G();
    var replacement := Replace(g, f, oldChild, newChild, ope);
    swapped := SwapList(removal, replacement);
    ChildReplacedFrom(g0, g1, g.G(), oldChild, newChild);
    if g0.nodes[newChild].parent.None? && g0.nodes[newChild].connectors == [] {
      PlacesKeptThenReplaced(g0, g1, g.G(), oldChild, newChild);
    }
  }

  /** Preparing and then replacing with a leaf root keeps every other node's places. */
  lemma PlacesKeptThenReplaced(g0: Graph, g1: Graph, h: Graph, oldChild: NodeRef, newChild: NodeRef)
    requires PlacesKept(g0, g1, [newChild]) && PlacesKept(g1, h, [newChild, oldChild])
    ensures PlacesKept(g0, h, [newChild, oldChild])
  {
    PlacesKeptWiden(g0, g1, [newChild], [newChild, oldChild]);
    PlacesKeptTrans(g0, g1, h, [newChild, oldChild]);
  }

  lemma ChildReplacedFrom(g0: Graph, g1: Graph, h: Graph, oldChild: NodeRef, newChild: NodeRef)
    requires Valid(g0) && Linked(g0) && oldChild < |g0.nodes| && newChild < |g0.nodes| && IsChild(g0, oldChild)
    requires oldChild != newChild && Prepared(g0, oldChild, newChild, g1)
    requires Valid(h) && |h.nodes| >= |g1.nodes| && |h.cnctrs| == |g1.cnctrs| && |h.wss| == |g1.wss|
    requires var c := g1.nodes[oldChild].parent.value;
      && h.cnctrs[c].connected == Some(newChild) && h.nodes[newChild].parent == Some(c)
      && h.nodes[oldChild].parent.None? && h.nodes[oldChild].lastReplaced == Some(newChild)
    requires forall x | 0 <= x < |g1.nodes| && x != oldChild && x != newChild :: h.nodes[x].parent == g1.nodes[x].parent
    requires g1.nodes[newChild].parent.None? || IsChild(g1, newChild) ==> Linked(h)
    ensures ChildReplaced(g0, oldChild, newChild, h)
  {
  }

  /**
   * `moveToWs`: the node is removed as its state demands and its tree is put
   * on `w` (`WorkspaceRegisterer.register`) through `addNodeTree`, which lists
   * the tree on `w` and puts a root in the root list of `w`, unless the node
   * is already on `w`, in which case the workspace records stay as they are.
   * A child leaves a new default node behind.  `leaving` lists the nodes for
   * which the workspace the tree leaves fires its node-removed event
   * (`Workspace.removeNodeTree`), as `LeftBehind` gives them.
   */
  method MoveToWs(g: NodeGraph, f: NodeFactory, w: WsRef, n: NodeRef, ope: UserOperation)
    returns (swapped: seq<Swapped>, leaving: seq<NodeRef>)
    requires g.Valid() && Linked(g.G()) && w < |g.wss| && n < |g.nodes|
    modifies g, ope
    ensures g.Valid() && Linked(g.G()) && |g.nodes| >= |old(g.nodes)| && |g.wss| == |old(g.wss)|
    ensures |g.cnctrs| == |old(g.cnctrs)|
    ensures Extends(ope.subOps, old(ope.subOps))
    ensures Registered(g.G(), n, w)
    ensures old(IsChild(g.G(), n)) ==> swapped == [Swapped(n, |old(g.nodes)|)] && ChildRemoved(old(g.G()), n, g.G())
    ensures !old(IsChild(g.G(), n)) ==> swapped == [] && WsFieldsOnly(old(g.G()), g.G())
    ensures old(!IsChild(g.G(), n) && WsConsistent(g.G()) && TreeInOneWs(g.G(), n)) ==>
      && WsConsistent(g.G())
      && (forall x | x in Subtree(old(g.G()), n) :: g.nodes[x].ws == Some(w))
    ensures !old(IsChild(g.G(), n)) ==>
      NoNewPlaces(old(g.G()), g.G(), Subtree(old(g.G()), n)) && PlacesKept(old(g.G()), g.G(), Subtree(old(g.G()), n))
    ensures forall x | 0 <= x < |old(g.nodes)| && old(Registered(g.G(), x, w)) :: Registered(g.G(), x, w)
    ensures !old(IsChild(g.G(), n)) ==> leaving == LeftBehind(old(g.G()), w, n)
    ensures forall x | x in leaving :: x < |g.nodes|
  {
    ghost var g0 := g.G();
    swapped := RemoveDependingOnState(g, f, n, ope);
    ghost var g1 := g.G();
    ghost var log1 := ope.subOps;
    leaving := LeftBehind(g.G(), w, n);
    g.AddNodeTree(w, n, ope);
    ExtendsTrans(ope.subOps, log1, old(ope.subOps));
    WsFieldsOnlyShape(g1, g.G());
    LinkedSameShape(g1, g.G());
    if IsChild(g0, n) {
      ChildRemovedKept(g0, n, g1, g.G());
    }
    RegisteredKept(g0, g1, g.G(), w, n);
  }

  /**
   * The nodes a move of `n`'s tree onto `w` takes off another workspace: the
   * whole tree when `n` is on a workspace other than `w`, else none.
   */
  function LeftBehind(g: Graph, w: WsRef, n: NodeRef): (r: seq<NodeRef>)
    requires Valid(g) && n < |g.nodes|
    ensures r != [] <==> g.nodes[n].ws.Some? && g.nodes[n].ws != Some(w)
    ensures r != [] ==> r[0] == n && forall x | x in r :: x < |g.nodes|
  {
    if g.nodes[n].ws.Some? && g.nodes[n].ws != Some(w) then Subtree(g, n) else []
  }

  /**
   * Removing `n` and then putting its tree on `w` leaves every old node that
   * was on `w` on it: the removal keeps the places of all but `n`, and the
   * tree either was on `w` already or is listed on it.
   */
  lemma RegisteredKept(g0: Graph, g1: Graph, h: Graph, w: WsRef, n: NodeRef)
    requires Valid(g0) && Valid(g1) && w < |g0.wss| && n < |g0.nodes|
    requires PlacesKept(g0, g1, [n]) && PlacesKept(g1, h, Subtree(g1, n))
    requires g1.nodes[n].ws == Some(w) ==> h.wss == g1.wss && h.nodes == g1.nodes
    requires g1.nodes[n].ws != Some(w) ==> forall x | x in Subtree(g1, n) :: x in h.wss[w].nodeList
    requires Registered(h, n, w)
    ensures forall x | 0 <= x < |g0.nodes| && Registered(g0, x, w) :: Registered(h, x, w)
  {
    forall x | 0 <= x < |g0.nodes| && Registered(g0, x, w)
      ensures Registered(h, x, w)
    {
      if x != n {
        assert x !in [n];
        assert Registered(g1, x, w);
        if x !in Subtree(g1, n) {
          assert Registered(h, x, w);
        }
      }
    }
  }

  // ---------------------------------------------------------------------------
  // exchangeNodes

  /** The two errors `exchangeNodes` raises. */
  datatype ExchangeError = DanglingOrDeleted | AncestorRelation

  /** What `exchangeNodes` does once the checks pass, with the node pair in the order it uses. */
  datatype ExchangePlan =
    | BothChildren(a: NodeRef, b: NodeRef)
    | ChildAndRoot(child: NodeRef, root: NodeRef, rootWs: WsRef)
    | BothRoots(a: NodeRef, b: NodeRef, wsForB: WsRef, wsForA: WsRef)

  /** A state `exchangeNodes` accepts. */
  predicate Exchangeable(s: HandlerState) {
    s == RootDirectlyUnderWs || s == HandlerState.Child
  }

  /** The checks at the head of `exchangeNodes`, in their order. */
  function ExchangeCheck(g: Graph, a: NodeRef, b: NodeRef): (r: Option<ExchangeError>)
    requires Valid(g) && a < |g.nodes| && b < |g.nodes|
    ensures r == Some(DanglingOrDeleted) <==> !Exchangeable(StateOf(g, a)) || !Exchangeable(StateOf(g, b))
    ensures r == Some(AncestorRelation) <==>
      Exchangeable(StateOf(g, a)) && Exchangeable(StateOf(g, b)) && (IsDescendantOf(g, a, b) || IsDescendantOf(g, b, a))
    ensures r.None? ==> a != b && Exchangeable(StateOf(g, a)) && Exchangeable(StateOf(g, b))
  {
    if !Exchangeable(StateOf(g, a)) || !Exchangeable(StateOf(g, b)) then Some(DanglingOrDeleted)
    else if IsDescendantOf(g, a, b) || IsDescendantOf(g, b, a) then Some(AncestorRelation)
    else None
  }

  /**
   * The plan of `exchangeNodes` as written: a root paired with a child is
   * put second, and both workspace variables are read from the second node.
   */
  function ExchangePlanAsWritten(g: Graph, a: NodeRef, b: NodeRef): (r: ExchangePlan)
    requires Valid(g) && a < |g.nodes| && b < |g.nodes| && ExchangeCheck(g, a, b).None?
  {
    var swap := StateOf(g, a) == RootDirectlyUnderWs && StateOf(g, b) == HandlerState.Child;
    var x := if swap then b else a;
    var y := if swap then a else b;
    var wsA := g.nodes[y].ws.value;
    var wsB := g.nodes[y].ws.value;
    if IsChild(g, x) then
      if IsChild(g, y) then BothChildren(x, y) else ChildAndRoot(x, y, wsB)
    else BothRoots(x, y, wsA, wsB)
  }

  /**
   * Two roots on different workspaces: as written, the second stays where it
   * is and the first joins it, so the two never trade workspaces.
   */
  lemma ExchangeAsWrittenKeepsRootsTogether(g: Graph, a: NodeRef, b: NodeRef)
    requires Valid(g) && a < |g.nodes| && b < |g.nodes| && ExchangeCheck(g, a, b).None?
    requires IsRoot(g, a) && IsRoot(g, b) && g.nodes[a].ws != g.nodes[b].ws
    ensures var p := ExchangePlanAsWritten(g, a, b);
      p.BothRoots? && p.wsForB == p.wsForA == g.nodes[b].ws.value != g.nodes[a].ws.value
  {
  }

  /**
   * The plan of `exchangeNodes` as intended: a root paired with a child is
   * put second, so the child always comes first, and each of two roots goes
   * to the workspace of the other.
   */
  function ExchangePlanOf(g: Graph, a: NodeRef, b: NodeRef): (r: ExchangePlan)
    requires Valid(g) && a < |g.nodes| && b < |g.nodes| && ExchangeCheck(g, a, b).None?
    ensures r.BothChildren? <==> IsChild(g, a) && IsChild(g, b)
    ensures r.BothChildren? ==> r.a == a && r.b == b
    ensures r.ChildAndRoot? <==> IsChild(g, a) != IsChild(g, b)
    ensures r.ChildAndRoot? ==>
      && ((r.child == a && r.root == b) || (r.child == b && r.root == a))
      && IsChild(g, r.child) && StateOf(g, r.root) == RootDirectlyUnderWs
      && g.nodes[r.root].ws == Some(r.rootWs)
    ensures r.BothRoots? ==>
      && r.a == a && r.b == b && IsRoot(g, a) && IsRoot(g, b)
      && g.nodes[a].ws == Some(r.wsForB) && g.nodes[b].ws == Some(r.wsForA)
  {
    var swap := StateOf(g, a) == RootDirectlyUnderWs && StateOf(g, b) == HandlerState.Child;
    var x := if swap then b else a;
    var y := if swap then a else b;
    var wsA := g.nodes[x].ws.value;
    var wsB := g.nodes[y].ws.value;
    if IsChild(g, x) then
      if IsChild(g, y) then BothChildren(x, y) else ChildAndRoot(x, y, wsB)
    else BothRoots(x, y, wsA, wsB)
  }

  /** The two plans differ only in the workspace that two roots send the second one to. */
  lemma ExchangePlansAgreeOnChildren(g: Graph, a: NodeRef, b: NodeRef)
    requires Valid(g) && a < |g.nodes| && b < |g.nodes| && ExchangeCheck(g, a, b).None?
    ensures IsChild(g, a) || IsChild(g, b) ==> ExchangePlanAsWritten(g, a, b) == ExchangePlanOf(g, a, b)
    ensures IsRoot(g, a) && IsRoot(g, b) ==>
      && ExchangePlanOf(g, a, b).BothRoots?
      && ExchangePlanAsWritten(g, a, b) == ExchangePlanOf(g, a, b).(wsForB := g.nodes[b].ws.value)
  {
  }

  /**
   * Two children: each is removed from its connector, each new default node
   * is replaced by the other child, and the two default nodes are deleted.
   * `b` ends at the connector `a` hung at; `a` ends at the connector `b` hung
   * at, or, where that cannot be shown, nowhere; every other old node keeps
   * its parent.
   */
  method ExchangeChildren(g: NodeGraph, f: NodeFactory, a: NodeRef, b: NodeRef, ope: UserOperation)
    requires g.Valid() && Linked(g.G()) && a < |g.nodes| && b < |g.nodes| && a != b
    requires IsChild(g.G(), a) && IsChild(g.G(), b)
    modifies g, ope
    ensures g.Valid() && Linked(g.G()) && |g.nodes| >= |old(g.nodes)| + 2
    ensures |g.cnctrs| == |old(g.cnctrs)| && |g.wss| == |old(g.wss)|
    ensures Extends(ope.subOps, old(ope.subOps))
    ensures g.cnctrs[old(g.nodes[a].parent).value].connected == Some(b) && g.nodes[b].parent == old(g.nodes[a].parent)
    ensures g.nodes[a].parent == old(g.nodes[b].parent) || g.nodes[a].parent.None?
    ensures old(g.nodes[b].connectors) == [] ==>
      g.cnctrs[old(g.nodes[b].parent).value].connected == Some(a) && g.nodes[a].parent == old(g.nodes[b].parent)
    ensures forall x | 0 <= x < |old(g.nodes)| && x != a && x != b :: g.nodes[x].parent == old(g.nodes[x].parent)
  {
    ghost var log0 := ope.subOps;
    var newA, newB := DetachBoth(g, f, a, b, ope);
    ghost var log1 := ope.subOps;
    ReattachCrosswise(g, f, a, b, newA, newB, ope);
    ghost var log2 := ope.subOps;
    var deletedA := DeleteNode(g, f, newA, ope);
    ghost var log3 := ope.subOps;
    var deletedB := DeleteNode(g, f, newB, ope);
    ExtendsTrans(log2, log1, log0);
    ExtendsTrans(log3, log2, log0);
    ExtendsTrans(ope.subOps, log3, log0);
  }

  /** The first half of exchanging two children: both are removed, each leaving a new default node. */
  method DetachBoth(g: NodeGraph, f: NodeFactory, a: NodeRef, b: NodeRef, ope: UserOperation)
    returns (newA: NodeRef, newB: NodeRef)
    requires g.Valid() && Linked(g.G()) && a < |g.nodes| && b < |g.nodes| && a != b
    requires IsChild(g.G(), a) && IsChild(g.G(), b)
    modifies g, ope
    ensures g.Valid() && Linked(g.G()) && |g.cnctrs| == |old(g.cnctrs)| && |g.wss| == |old(g.wss)|
    ensures Extends(ope.subOps, old(ope.subOps))
    ensures |old(g.nodes)| <= newA < newB < |g.nodes|
    ensures IsChild(g.G(), newA) && g.nodes[newA].parent == old(g.nodes[a].parent)
    ensures g.nodes[newB].parent == old(g.nodes[b].parent) && g.nodes[newB].ws == old(g.nodes[b].ws)
    ensures g.nodes[a].parent.None? && g.nodes[b].parent.None?
    ensures g.nodes[b].connectors == old(g.nodes[b].connectors)
    ensures forall x | 0 <= x < |old(g.nodes)| && x != a && x != b :: g.nodes[x].parent == old(g.nodes[x].parent)
  {
    newA := Detach(g, f, a, ope);
    ghost var g1 := g.G();
    ghost var log1 := ope.subOps;
    newB := Detach(g, f, b, ope);
    ExtendsTrans(ope.subOps, log1, old(ope.subOps));
    assert newA != b && newA < |g1.nodes| && a != b;
  }

  /** `removeChild` on one child of an exchange, reduced to what the exchange uses. */
  method Detach(g: NodeGraph, f: NodeFactory, n: NodeRef, ope: UserOperation) returns (newN: NodeRef)
    requires g.Valid() && Linked(g.G()) && n < |g.nodes| && IsChild(g.G(), n)
    modifies g, ope
    ensures g.Valid() && Linked(g.G()) && |g.cnctrs| == |old(g.cnctrs)| && |g.wss| == |old(g.wss)|
    ensures Extends(ope.subOps, old(ope.subOps))
    ensures newN == |old(g.nodes)| && newN < |g.nodes|
    ensures IsChild(g.G(), newN) && g.nodes[newN].parent == old(g.nodes[n].parent) && g.nodes[newN].ws == old(g.nodes[n].ws)
    ensures g.nodes[n].parent.None?
    ensures forall x | 0 <= x < |old(g.nodes)| :: g.nodes[x].connectors == old(g.nodes[x].connectors)
    ensures forall x | 0 <= x < |old(g.nodes)| && x != n ::
      g.nodes[x].parent == old(g.nodes[x].parent) && g.nodes[x].ws == old(g.nodes[x].ws)
  {
    ghost var g0 := g.G();
    var swapped := RemoveChild(g, f, n, ope);
    assert forall x | 0 <= x < |g0.nodes| && x != n :: x !in [n];
    newN := swapped[0].newNode;
    assert IsChild(g.G(), newN) by {
      if g0.nodes[n].ws.Some? {
        assert g.nodes[newN].ws == g0.nodes[n].ws;
      }
    }
  }

  /**
   * The second half of exchanging two children: the default node left by `a`
   * is replaced by `b`, then the one left by `b` by `a`.  The second step
   * happens only if that default node is still a child; it is when `b` has no
   * connectors.
   */
  method ReattachCrosswise(g: NodeGraph, f: NodeFactory, a: NodeRef, b: NodeRef, newA: NodeRef, newB: NodeRef, ope: UserOperation)
    requires g.Valid() && Linked(g.G()) && a < |g.nodes| && b < |g.nodes| && newA < |g.nodes| && newB < |g.nodes|
    requires a != b && newA != newB && a != newA && a != newB && b != newA && b != newB
    requires IsChild(g.G(), newA) && g.nodes[newB].parent.Some? && g.nodes[newB].ws.Some?
    requires g.nodes[a].parent.None? && g.nodes[b].parent.None?
    modifies g, ope
    ensures g.Valid() && Linked(g.G()) && |g.nodes| >= |old(g.nodes)|
    ensures |g.cnctrs| == |old(g.cnctrs)| && |g.wss| == |old(g.wss)|
    ensures Extends(ope.subOps, old(ope.subOps))
    ensures g.cnctrs[old(g.nodes[newA].parent).value].connected == Some(b) && g.nodes[b].parent == old(g.nodes[newA].parent)
    ensures g.nodes[newA].parent.None?
    ensures g.nodes[a].parent == old(g.nodes[newB].parent) || (g.nodes[a].parent.None? && g.nodes[newB].parent == old(g.nodes[newB].parent))
    ensures g.nodes[a].parent == old(g.nodes[newB].parent) ==> g.nodes[newB].parent.None?
    ensures old(g.nodes[b].connectors) == [] ==> g.nodes[a].parent == old(g.nodes[newB].parent)
    ensures forall x | 0 <= x < |old(g.nodes)| && x != a && x != b && x != newA && x != newB ::
      g.nodes[x].parent == old(g.nodes[x].parent)
  {
    ghost var g2 := g.G();
    Reattach(g, f, newA, b, ope);
    ghost var g3 := g.G();
    ghost var log3 := ope.subOps;
    Reattach(g, f, newB, a, ope);
    ExtendsTrans(ope.subOps, log3, old(ope.subOps));
  }

  /** `replaceChild` with a parentless new child, reduced to what the exchange uses. */
  method Reattach(g: NodeGraph, f: NodeFactory, oldChild: NodeRef, newChild: NodeRef, ope: UserOperation)
    requires g.Valid() && Linked(g.G()) && oldChild < |g.nodes| && newChild < |g.nodes| && oldChild != newChild
    requires g.nodes[newChild].parent.None?
    modifies g, ope
    ensures g.Valid() && Linked(g.G()) && |g.nodes| >= |old(g.nodes)|
    ensures |g.cnctrs| == |old(g.cnctrs)| && |g.wss| == |old(g.wss)| && Extends(ope.subOps, old(ope.subOps))
    ensures !old(IsChild(g.G(), oldChild)) ==> g.G() == old(g.G())
    ensures old(IsChild(g.G(), oldChild)) ==>
      && g.cnctrs[old(g.nodes[oldChild].parent).value].connected == Some(newChild)
      && g.nodes[newChild].parent == old(g.nodes[oldChild].parent) && g.nodes[oldChild].parent.None?
    ensures forall x | 0 <= x < |old(g.nodes)| && x != oldChild && x != newChild :: g.nodes[x].parent == old(g.nodes[x].parent)
    ensures old(g.nodes[newChild].connectors) == [] ==>
      forall x | 0 <= x < |old(g.nodes)| && x != oldChild && x != newChild :: g.nodes[x].ws == old(g.nodes[x].ws)
  {
    ghost var g0 := g.G();
    var ignored := ReplaceChild(g, f, oldChild, newChild, ope);
    if g0.nodes[newChild].connectors == [] && IsChild(g0, oldChild) {
      assert forall x | 0 <= x < |g0.nodes| && x != oldChild && x != newChild :: x !in [newChild, oldChild];
    }
  }

  /** A child and a root: the root takes the child's place, and the child goes to the root's workspace. */
  method ExchangeChildAndRoot(g: NodeGraph, f: NodeFactory, child: NodeRef, root: NodeRef, w: WsRef, ope: UserOperation)
    requires g.Valid() && Linked(g.G()) && child < |g.nodes| && root < |g.nodes| && w < |g.wss| && child != root
    requires IsChild(g.G(), child) && g.nodes[root].parent.None?
    modifies g, ope
    ensures |g.nodes| >= |old(g.nodes)| && |g.cnctrs| == |old(g.cnctrs)| && |g.wss| == |old(g.wss)|
    ensures g.Valid() && Linked(g.G()) && Extends(ope.subOps, old(ope.subOps))
    ensures g.cnctrs[old(g.nodes[child].parent).value].connected == Some(root)
    ensures g.nodes[root].parent == old(g.nodes[child].parent)
    ensures g.nodes[child].parent.None? && g.nodes[child].lastReplaced == Some(root)
    ensures Registered(g.G(), child, w)
    ensures forall x | 0 <= x < |old(g.nodes)| && x != child && x != root :: g.nodes[x].parent == old(g.nodes[x].parent)
  {
    ghost var g0 := g.G();
    var replaced := ReplaceChild(g, f, child, root, ope);
    ghost var g1 := g.G();
    ghost var log1 := ope.subOps;
    var moved, _ := MoveToWs(g, f, w, child, ope);
    ExtendsTrans(ope.subOps, log1, old(ope.subOps));
    WsFieldsOnlyShape(g1, g.G());
  }

  /**
   * Two roots: the second goes to `wsForB`, then the first goes to `wsForA`;
   * no link changes and each ends on the workspace meant for it.
   */
  method ExchangeRoots(g: NodeGraph, f: NodeFactory, a: NodeRef, b: NodeRef, wsForB: WsRef, wsForA: WsRef, ope: UserOperation)
    requires g.Valid() && Linked(g.G()) && a < |g.nodes| && b < |g.nodes| && wsForB < |g.wss| && wsForA < |g.wss|
    requires a != b && g.nodes[a].parent.None? && g.nodes[b].parent.None?
    modifies g, ope
    ensures |g.nodes| >= |old(g.nodes)| && |g.cnctrs| == |old(g.cnctrs)| && |g.wss| == |old(g.wss)|
    ensures g.Valid() && Linked(g.G()) && Extends(ope.subOps, old(ope.subOps))
    ensures WsFieldsOnly(old(g.G()), g.G())
    ensures Registered(g.G(), a, wsForA) && Registered(g.G(), b, wsForB)
  {
    var movedB, _ := MoveToWs(g, f, wsForB, b, ope);
    ghost var g1 := g.G();
    ghost var log1 := ope.subOps;
    var movedA, _ := MoveToWs(g, f, wsForA, a, ope);
    ExtendsTrans(ope.subOps, log1, old(ope.subOps));
    WsFieldsOnlyTrans(old(g.G()), g1, g.G());
    SubtreeHangs(g1, a);
    assert b !in Subtree(g1, a);
  }

  /** The references of a plan name existing objects, and a child in it hangs below a connector. */
  predicate PlanFits(g: Graph, p: ExchangePlan)
    requires Valid(g)
  {
    match p
    case BothChildren(a, b) => a < |g.nodes| && b < |g.nodes| && g.nodes[a].parent.Some? && g.nodes[b].parent.Some?
    case ChildAndRoot(child, root, w) => child < |g.nodes| && root < |g.nodes| && w < |g.wss| && g.nodes[child].parent.Some?
    case BothRoots(a, b, wsForB, wsForA) => a < |g.nodes| && b < |g.nodes| && wsForB < |g.wss| && wsForA < |g.wss|
  }

  /**
   * The outcome of an exchange as far as the model states it.  With two
   * children, the second hangs where the first hung, and the first hangs
   * where the second hung (shown when the second has no connectors) or
   * nowhere.  With a child and a root, the root hangs where the child hung
   * and the child is on the root's workspace.  In both cases every other old
   * node keeps its parent.  With two roots, no link changes and each root is
   * on the workspace meant for it.
   */
  predicate Exchanged(g0: Graph, p: ExchangePlan, h: Graph)
    requires Valid(g0) && PlanFits(g0, p)
  {
    && Valid(h) && Linked(h) && |h.nodes| >= |g0.nodes| && |h.cnctrs| == |g0.cnctrs| && |h.wss| == |g0.wss|
    && (p.BothChildren? ==>
          var ca := g0.nodes[p.a].parent.value;
          var cb := g0.nodes[p.b].parent.value;
          && h.cnctrs[ca].connected == Some(p.b) && h.nodes[p.b].parent == Some(ca)
          && (h.nodes[p.a].parent == Some(cb) || h.nodes[p.a].parent.None?)
          && (g0.nodes[p.b].connectors == [] ==> h.cnctrs[cb].connected == Some(p.a) && h.nodes[p.a].parent == Some(cb))
          && (forall x | 0 <= x < |g0.nodes| && x != p.a && x != p.b :: h.nodes[x].parent == g0.nodes[x].parent))
    && (p.ChildAndRoot? ==>
          var c := g0.nodes[p.child].parent.value;
          && h.cnctrs[c].connected == Some(p.root) && h.nodes[p.root].parent == Some(c)
          && h.nodes[p.child].parent.None? && Registered(h, p.child, p.rootWs)
          && (forall x | 0 <= x < |g0.nodes| && x != p.child && x != p.root :: h.nodes[x].parent == g0.nodes[x].parent))
    && (p.BothRoots? ==> WsFieldsOnly(g0, h) && Registered(h, p.a, p.wsForA) && Registered(h, p.b, p.wsForB))
  }

  /** Carries out a plan that passed the checks. */
  method CarryOut(g: NodeGraph, f: NodeFactory, p: ExchangePlan, ope: UserOperation)
    requires g.Valid() && Linked(g.G()) && PlanFits(g.G(), p)
    requires p.BothChildren? ==> p.a != p.b && IsChild(g.G(), p.a) && IsChild(g.G(), p.b)
    requires p.ChildAndRoot? ==> p.child != p.root && IsChild(g.G(), p.child) && g.nodes[p.root].parent.None?
    requires p.BothRoots? ==> p.a != p.b && g.nodes[p.a].parent.None? && g.nodes[p.b].parent.None?
    modifies g, ope
    ensures Exchanged(old(g.G()), p, g.G()) && g.Valid() && Extends(ope.subOps, old(ope.subOps))
  {
    match p
    case BothChildren(a, b) =>
      ExchangeChildren(g, f, a, b, ope);
    case ChildAndRoot(child, root, w) =>
      ExchangeChildAndRoot(g, f, child, root, w, ope);
    case BothRoots(a, b, wsForB, wsForA) =>
      ExchangeRoots(g, f, a, b, wsForB, wsForA, ope);
  }

  /**
   * `exchangeNodes`: a deleted or dangling node, or a pair where one node is
   * the other or its ancestor, is an error and nothing changes.  Otherwise
   * the pair is put in the order of `ExchangePlanOf` and exchanged as its case
   * demands; the result is the plan that was carried out.
   */
  method ExchangeNodes(g: NodeGraph, f: NodeFactory, a: NodeRef, b: NodeRef, ope: UserOperation)
    returns (r: Result<ExchangePlan, ExchangeError>)
    requires g.Valid() && Linked(g.G()) && a < |g.nodes| && b < |g.nodes|
    modifies g, ope
    ensures g.Valid() && Extends(ope.subOps, old(ope.subOps))
    ensures r.Err? <==> old(ExchangeCheck(g.G(), a, b)).Some?
    ensures r.Err? ==> r.error == old(ExchangeCheck(g.G(), a, b)).value && g.G() == old(g.G()) && ope.subOps == old(ope.subOps)
    ensures r.Ok? ==> r.value == old(ExchangePlanOf(g.G(), a, b)) && old(PlanFits(g.G(), r.value))
    ensures r.Ok? ==> Exchanged(old(g.G()), r.value, g.G())
  {
    var check := ExchangeCheck(g.G(), a, b);
    if check.Some? {
      return Err(check.value);
    }
    var plan := ExchangePlanOf(g.G(), a, b);
    r := Ok(plan);
    CarryOut(g, f, plan, ope);
  }

  // ---------------------------------------------------------------------------
  // The candidate filter of the legacy `deleteNodes`

  /**
   * `originals` gives, for every node, the original node it imitates, if any
   * (`getOriginalNode`); the imitation links are not part of the node records.
   */
  predicate OriginalsOk(g: Graph, originals: seq<Option<NodeRef>>) {
    |originals| == |g.nodes| && forall i | 0 <= i < |originals| :: RefOk(originals[i], |g.nodes|)
  }

  predicate AllNodes(g: Graph, xs: seq<NodeRef>) {
    forall i | 0 <= i < |xs| :: xs[i] < |g.nodes|
  }

  /** Neither `x` nor the original of `x` descends from `y`. */
  predicate ClearOf(g: Graph, originals: seq<Option<NodeRef>>, x: NodeRef, y: NodeRef)
    requires Valid(g) && OriginalsOk(g, originals) && x < |g.nodes|
  {
    && !IsDescendantOf(g, x, y)
    && (originals[x].Some? ==> !IsDescendantOf(g, originals[x].value, y))
  }

  /** A candidate is deleted unless it, or its original, descends from another candidate. */
  predicate KeptForDeletion(g: Graph, originals: seq<Option<NodeRef>>, cands: seq<NodeRef>, x: NodeRef)
    requires Valid(g) && OriginalsOk(g, originals) && x < |g.nodes|
  {
    forall j | 0 <= j < |cands| && cands[j] != x :: ClearOf(g, originals, x, cands[j])
  }

  /** The candidates among `xs` that `KeptForDeletion` keeps, in the order of `xs`. */
  function DeletionTargetsOf(g: Graph, originals: seq<Option<NodeRef>>, cands: seq<NodeRef>, xs: seq<NodeRef>)
    : (r: seq<NodeRef>)
    requires Valid(g) && OriginalsOk(g, originals) && AllNodes(g, xs)
    ensures |r| <= |xs|
    ensures forall x | x in r :: x in xs && x < |g.nodes| && KeptForDeletion(g, originals, cands, x)
    ensures forall i | 0 <= i < |xs| && KeptForDeletion(g, originals, cands, xs[i]) :: xs[i] in r
    ensures SequencedSets.Distinct(xs) ==> SequencedSets.Distinct(r)
  {
    if xs == [] then []
    else
      var init := xs[..|xs| - 1];
      var last := xs[|xs| - 1];
      var rest := DeletionTargetsOf(g, originals, cands, init);
      assert xs == init + [last];
      if KeptForDeletion(g, originals, cands, last) then
        SequencedSets.DistinctConcat(rest, [last]);
        SequencedSets.DistinctConcat(init, [last]);
        rest + [last]
      else rest
  }

  /** The inner loop of the legacy `deleteNodes`: `x` is compared with every other candidate. */
  method CanDelete(g: NodeGraph, originals: seq<Option<NodeRef>>, cands: seq<NodeRef>, x: NodeRef)
    returns (canDelete: bool)
    requires g.Valid() && OriginalsOk(g.G(), originals) && x < |g.nodes|
    ensures canDelete == KeptForDeletion(g.G(), originals, cands, x)
  {
    canDelete := true;
    var j := 0;
    while j < |cands| && canDelete
      invariant 0 <= j <= |cands|
      invariant canDelete <==> forall k | 0 <= k < j && cands[k] != x :: ClearOf(g.G(), originals, x, cands[k])
    {
      if cands[j] != x {
        if IsDescendantOf(g.G(), x, cands[j]) {
          canDelete := false;
        } else if originals[x].Some? && IsDescendantOf(g.G(), originals[x].value, cands[j]) {
          canDelete := false;
        }
      }
      j := j + 1;
    }
  }

  /**
   * The nested loops of the legacy `deleteNodes`: each candidate is compared
   * with every other one and kept only if the comparisons all pass.  Nodes are
   * compared by identity, so a candidate listed twice is kept twice.
   */
  method DeletionTargets(g: NodeGraph, originals: seq<Option<NodeRef>>, cands: seq<NodeRef>)
    returns (deleteList: seq<NodeRef>)
    requires g.Valid() && OriginalsOk(g.G(), originals) && AllNodes(g.G(), cands)
    ensures deleteList == DeletionTargetsOf(g.G(), originals, cands, cands)
  {
    deleteList := [];
    var i := 0;
    while i < |cands|
      invariant 0 <= i <= |cands|
      invariant deleteList == DeletionTargetsOf(g.G(), originals, cands, cands[..i])
    {
      var canDelete := CanDelete(g, originals, cands, cands[i]);
      assert cands[..i + 1][..i] == cands[..i];
      if canDelete {
        deleteList := deleteList + [cands[i]];
      }
      i := i + 1;
    }
    assert cands[..|cands|] == cands;
  }

  /** A list of distinct candidates gives a delete list of distinct nodes. */
  lemma DeletionTargetsDistinct(g: Graph, originals: seq<Option<NodeRef>>, cands: seq<NodeRef>)
    requires Valid(g) && OriginalsOk(g, originals) && AllNodes(g, cands) && SequencedSets.Distinct(cands)
    ensures SequencedSets.Distinct(DeletionTargetsOf(g, originals, cands, cands))
  {
  }

  /** No candidate that descends from another candidate is deleted directly. */
  lemma DeletionTargetsSkipDescendants(g: Graph, originals: seq<Option<NodeRef>>, cands: seq<NodeRef>, x: NodeRef, y: NodeRef)
    requires Valid(g) && OriginalsOk(g, originals) && AllNodes(g, cands)
    requires x in cands && y in cands && x != y && IsDescendantOf(g, x, y)
    ensures x !in DeletionTargetsOf(g, originals, cands, cands)
  {
  }
}
