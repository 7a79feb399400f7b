/**
 * `BhNode.replace` and `BhNode.remove`: a child node gives its place to
 * another node, and removing a child puts a new default node in its place.
 * The two call each other: a new node that is itself a child is first
 * removed from where it hangs.
 */
module Replacement {
  import opened Wrappers
  import opened Ids
  import opened NodeModel
  import opened Undo
  import opened NodeGraphs
  import opened Connectors

  /**
   * What `connect` leaves behind, read from the state before it: `c` holds
   * `node`, `node` hangs below `c`, the node held until now hangs nowhere, and
   * every other old node keeps its parent and its own data.
   */
  lemma ConnectOutcome(g: Graph, c: CnctrRef, node: NodeRef, h: Graph)
    requires Valid(g) && c < |g.cnctrs| && node < |g.nodes|
    requires ConnectedState(WithSnapshotCopy(g, c, node), c, node, SnapshotAfter(g, c, node), h)
    ensures |h.nodes| >= |g.nodes| && |h.cnctrs| == |g.cnctrs| && |h.wss| == |g.wss| && Valid(h)
    ensures h.cnctrs[c].connected == Some(node) && h.nodes[node].parent == Some(c)
    ensures forall d | 0 <= d < |g.cnctrs| && d != c :: h.cnctrs[d] == g.cnctrs[d]
    ensures g.cnctrs[c].connected.Some? && g.cnctrs[c].connected.value != node ==>
              h.nodes[g.cnctrs[c].connected.value].parent.None?
    ensures forall x | 0 <= x < |g.nodes| && x != node && Some(x) != g.cnctrs[c].connected ::
              h.nodes[x].parent == g.nodes[x].parent
    ensures forall x | 0 <= x < |g.nodes| ::
              && h.nodes[x].id == g.nodes[x].id && h.nodes[x].isDefault == g.nodes[x].isDefault
              && h.nodes[x].connectors == g.nodes[x].connectors
              && h.nodes[x].lastReplaced == g.nodes[x].lastReplaced
    ensures Linked(g) && (g.nodes[node].parent.None? || g.nodes[node].parent == Some(c)) ==> Linked(h)
  {
    var g1 := WithSnapshotCopy(g, c, node);
    ConnectedLinks(g1, c, node, SnapshotAfter(g, c, node), h);
    assert forall x | 0 <= x < |g.nodes| :: g1.nodes[x] == g.nodes[x];
  }

  /**
   * The state after `n` gave its place to `newNode`: the parent connector of
   * `n` holds `newNode`, `n` hangs nowhere and records `newNode` as its last
   * replacement, and every other connector and old node keeps its link.
   */
  predicate Placed(g0: Graph, n: NodeRef, newNode: NodeRef, h: Graph)
    requires Valid(g0) && n < |g0.nodes| && newNode < |g0.nodes| && g0.nodes[n].parent.Some?
  {
    var c := g0.nodes[n].parent.value;
    && Valid(h) && |h.nodes| >= |g0.nodes| && |h.cnctrs| == |g0.cnctrs| && |h.wss| == |g0.wss|
    && h.cnctrs[c].connected == Some(newNode) && h.nodes[newNode].parent == Some(c)
    && h.nodes[n].parent.None? && h.nodes[n].lastReplaced == Some(newNode)
    && (forall d | 0 <= d < |g0.cnctrs| && d != c :: h.cnctrs[d] == g0.cnctrs[d])
    && (forall x | 0 <= x < |g0.nodes| && x != n && x != newNode :: h.nodes[x].parent == g0.nodes[x].parent)
    && (forall x | 0 <= x < |g0.nodes| ::
          h.nodes[x].id == g0.nodes[x].id && h.nodes[x].isDefault == g0.nodes[x].isDefault
          && h.nodes[x].connectors == g0.nodes[x].connectors)
    && (Linked(g0) && g0.nodes[newNode].parent.None? ==> Linked(h))
  }

  /**
   * The tail of `replace`: `n` records `newNode` as the node that replaced it,
   * and the parent connector of `n` takes `newNode`.  The replacement of
   * derivatives that follows in the source is not part of this model.
   */
  method PutInPlace(g: NodeGraph, n: NodeRef, newNode: NodeRef, ope: UserOperation)
    requires g.Valid() && Linked(g.G()) && n < |g.nodes| && newNode < |g.nodes| && n != newNode
    requires g.nodes[n].parent.Some?
    modifies g, ope
    ensures g.Valid() && Placed(old(g.G()), n, newNode, g.G())
    ensures Extends(ope.subOps, old(ope.subOps)) && |ope.subOps| > |old(ope.subOps)|
    ensures old(g.nodes[newNode].connectors) == [] ==>
      NoNewPlaces(old(g.G()), g.G(), [newNode, n]) && PlacesKept(old(g.G()), g.G(), [newNode, n])
    ensures old(TakesPlaceOf(g.G(), g.nodes[n].parent.value, newNode)) ==> g.nodes[newNode].ws == old(g.nodes[n].ws)
  {
    ghost var g0 := g.G();
    g.SetLastReplaced(n, Some(newNode), ope);
    ghost var g1 := g.G();
    ghost var log1 := ope.subOps;
    LastReplacedKeepsLinks(g0, g1);
    var c := g.nodes[n].parent.value;
    Connect(g, c, newNode, ope);
    PlacedFrom(g0, g1, n, newNode, g.G());
    if g0.nodes[newNode].connectors == [] {
      PlacedNoNewPlaces(g0, g1, g.G(), n, newNode);
    }
    ExtendsTrans(ope.subOps, log1, old(ope.subOps));
  }

  lemma PlacedFrom(g0: Graph, g1: Graph, n: NodeRef, newNode: NodeRef, h: Graph)
    requires Valid(g0) && Linked(g0) && n < |g0.nodes| && newNode < |g0.nodes| && n != newNode && g0.nodes[n].parent.Some?
    requires Valid(g1) && Linked(g1) && g1.cnctrs == g0.cnctrs && g1.wss == g0.wss
    requires g1.nodes == g0.nodes[n := g0.nodes[n].(lastReplaced := Some(newNode))]
    requires var c := g0.nodes[n].parent.value;
      ConnectedState(WithSnapshotCopy(g1, c, newNode), c, newNode, SnapshotAfter(g1, c, newNode), h)
    ensures Placed(g0, n, newNode, h)
  {
    var c := g0.nodes[n].parent.value;
    ConnectOutcome(g1, c, newNode, h);
    assert g1.cnctrs[c].connected == Some(n);
  }

  /** Putting a node with no connectors in place of `n` places nothing but the two. */
  lemma PlacedNoNewPlaces(g0: Graph, g1: Graph, h: Graph, n: NodeRef, newNode: NodeRef)
    requires Valid(g0) && Linked(g0) && n < |g0.nodes| && newNode < |g0.nodes| && g0.nodes[n].parent.Some?
    requires g1.cnctrs == g0.cnctrs && g1.wss == g0.wss
    requires g1.nodes == g0.nodes[n := g0.nodes[n].(lastReplaced := Some(newNode))]
    requires NoNewPlaces(g1, h, [newNode] + HeldBy(g1, g0.nodes[n].parent.value))
    requires PlacesKept(g1, h, [newNode] + HeldBy(g1, g0.nodes[n].parent.value))
    ensures NoNewPlaces(g0, h, [newNode, n]) && PlacesKept(g0, h, [newNode, n])
  {
    assert HeldBy(g1, g0.nodes[n].parent.value) == [n];
    assert [newNode] + HeldBy(g1, g0.nodes[n].parent.value) == [newNode, n];
  }

  /** Recording the last replaced node touches no link. */
  lemma LastReplacedKeepsLinks(g0: Graph, g1: Graph)
    requires Valid(g0) && Valid(g1) && Linked(g0) && g1.cnctrs == g0.cnctrs && |g1.nodes| == |g0.nodes|
    requires forall x | 0 <= x < |g0.nodes| :: g1.nodes[x] == g0.nodes[x].(lastReplaced := g1.nodes[x].lastReplaced)
    ensures Linked(g1) && SameShape(g0, g1)
  {
    LinkedSameShape(g0, g1);
  }

  /**
   * `BhNode.replace`: a node that hangs nowhere is left alone and the result
   * is empty.  Otherwise `newNode` is first removed from where it hangs if
   * it is a child, `n` records it as its last replacement, and the parent
   * connector of `n` takes it; the result pairs `n` with `newNode`.
   */
  method Replace(g: NodeGraph, f: NodeFactory, n: NodeRef, newNode: NodeRef, ope: UserOperation)
    returns (swapped: seq<Swapped>)
    requires g.Valid() && Linked(g.G()) && n < |g.nodes| && newNode < |g.nodes|
    requires g.nodes[n].parent.Some? ==> n != newNode
    modifies g, ope
    decreases if IsChild(g.G(), newNode) then 2 else 0
    ensures g.Valid() && |g.nodes| >= |old(g.nodes)| && |g.cnctrs| == |old(g.cnctrs)| && |g.wss| == |old(g.wss)|
    ensures old(g.nodes[n].parent).None? ==> swapped == [] && g.G() == old(g.G()) && ope.subOps == old(ope.subOps)
    ensures old(g.nodes[n].parent).Some? ==>
      && swapped == [Swapped(n, newNode)]
      && g.cnctrs[old(g.nodes[n].parent).value].connected == Some(newNode)
      && g.nodes[newNode].parent == old(g.nodes[n].parent)
      && g.nodes[n].parent.None? && g.nodes[n].lastReplaced == Some(newNode)
      && Extends(ope.subOps, old(ope.subOps)) && |ope.subOps| > |old(ope.subOps)|
    ensures old(g.nodes[n].parent).Some? && old(IsChild(g.G(), newNode)) ==>
      var c2 := old(g.nodes[newNode].parent).value;
      && |g.nodes| > |old(g.nodes)| && g.cnctrs[c2].connected == Some(|old(g.nodes)|)
      && g.nodes[|old(g.nodes)|].isDefault && g.nodes[|old(g.nodes)|].id == old(GetDefaultNodeId(g.G(), c2))
    ensures forall x | 0 <= x < |old(g.nodes)| && x != n && x != newNode :: g.nodes[x].parent == old(g.nodes[x].parent)
    ensures forall x | 0 <= x < |old(g.nodes)| ::
      g.nodes[x].id == old(g.nodes[x].id) && g.nodes[x].isDefault == old(g.nodes[x].isDefault)
      && g.nodes[x].connectors == old(g.nodes[x].connectors)
    ensures old(g.nodes[newNode].parent.None? || IsChild(g.G(), newNode)) ==> Linked(g.G())
    ensures old(!IsChild(g.G(), newNode) && g.nodes[newNode].connectors == []) ==>
      NoNewPlaces(old(g.G()), g.G(), [newNode, n]) && PlacesKept(old(g.G()), g.G(), [newNode, n])
    ensures old(!IsChild(g.G(), newNode) && g.nodes[n].parent.Some? && TakesPlaceOf(g.G(), g.nodes[n].parent.value, newNode)) ==>
      g.nodes[newNode].ws == old(g.nodes[n].ws)
  {
    if g.nodes[n].parent.None? {
      return [];
    }
    swapped := [Swapped(n, newNode)];
    if IsChild(g.G(), newNode) {
      var tmp := Remove(g, f, newNode, ope);
      swapped := swapped + tmp[1..];
    }
    ghost var log1 := ope.subOps;
    PutInPlace(g, n, newNode, ope);
    ExtendsTrans(ope.subOps, log1, old(ope.subOps));
  }

  /**
   * `BhNode.remove`: a node that hangs nowhere is left alone and the result
   * is empty.  Otherwise a node is made from the default node id of its
   * parent connector, flagged as a default node, and replaces it.
   */
  method Remove(g: NodeGraph, f: NodeFactory, n: NodeRef, ope: UserOperation) returns (swapped: seq<Swapped>)
    requires g.Valid() && Linked(g.G()) && n < |g.nodes|
    modifies g, ope
    decreases 1
    ensures g.Valid() && Linked(g.G()) && |g.nodes| >= |old(g.nodes)| && |g.cnctrs| == |old(g.cnctrs)|
    ensures |g.wss| == |old(g.wss)|
    ensures old(g.nodes[n].parent).None? ==> swapped == [] && g.G() == old(g.G()) && ope.subOps == old(ope.subOps)
    ensures old(g.nodes[n].parent).Some? ==>
      && |g.nodes| > |old(g.nodes)| && swapped == [Swapped(n, |old(g.nodes)|)]
      && g.nodes[|old(g.nodes)|].isDefault && g.nodes[|old(g.nodes)|].id == old(GetDefaultNodeId(g.G(), g.nodes[n].parent.value))
      && g.cnctrs[old(g.nodes[n].parent).value].connected == Some(|old(g.nodes)|)
      && g.nodes[|old(g.nodes)|].parent == old(g.nodes[n].parent)
      && g.nodes[n].parent.None? && g.nodes[n].lastReplaced == Some(|old(g.nodes)|)
      && g.nodes[|old(g.nodes)|].connectors == []
      && Extends(ope.subOps, old(ope.subOps)) && |ope.subOps| > |old(ope.subOps)|
    ensures NoNewPlaces(old(g.G()), g.G(), [n]) && PlacesKept(old(g.G()), g.G(), [n])
    ensures old(g.nodes[n].parent.Some? && g.nodes[n].ws.Some?) ==> g.nodes[|old(g.nodes)|].ws == old(g.nodes[n].ws)
    ensures forall x | 0 <= x < |old(g.nodes)| && x != n :: g.nodes[x].parent == old(g.nodes[x].parent)
    ensures forall x | 0 <= x < |old(g.nodes)| ::
      g.nodes[x].id == old(g.nodes[x].id) && g.nodes[x].isDefault == old(g.nodes[x].isDefault)
      && g.nodes[x].connectors == old(g.nodes[x].connectors)
  {
    if g.nodes[n].parent.None? {
      return [];
    }
    ghost var g0 := g.G();
    var c := g.nodes[n].parent.value;
    var substitute := CreateNode(g, f, GetDefaultNodeId(g.G(), c));
    SetDefault(g, substitute, true);
    ghost var g1 := g.G();
    swapped := Replace(g, f, n, substitute, ope);
    assert NoNewPlaces(g0, g1, [substitute, n]);
    NoNewPlacesTrans(g0, g1, g.G(), [substitute, n]);
    NoNewPlacesWiden(g0, g.G(), [substitute, n], [n]);
    assert PlacesKept(g0, g1, [substitute, n]);
    PlacesKeptTrans(g0, g1, g.G(), [substitute, n]);
    PlacesKeptWiden(g0, g.G(), [substitute, n], [n]);
    if g0.nodes[n].ws.Some? {
      assert WsOk(g0.wss[g0.nodes[n].ws.value], |g0.nodes|);
      assert TakesPlaceOf(g1, c, substitute);
    }
  }
}
