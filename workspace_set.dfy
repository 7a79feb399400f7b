/**
 * The copy and cut candidate lists of a `WorkspaceSet`, the counter that
 * shifts successive pastes, the test that decides which candidates can be
 * pasted, and the cut-and-paste step that moves the cut candidates onto a
 * workspace.
 *
 * The event handlers a list change notifies, the view, the copying of nodes
 * (scripts decide what a copy holds) and the paste positions are left out; the
 * cut scripts' verdict is a parameter.
 */
module WorkspaceSets {
  import opened Ids
  import opened SequencedSets
  import opened NodeModel
  import opened Undo
  import opened NodeGraphs
  import opened Connectors
  import opened NodeHandler

  /** The first value of the paste offset counter. */
  const FirstOffset: int := -2

  /** The largest value of the paste offset counter; the next paste starts over. */
  const LastOffset: int := 3

  /** The update of `pastePosOffsetCount` after a paste. */
  function NextOffset(c: int): (r: int)
    ensures FirstOffset <= r <= LastOffset || (c < FirstOffset - 1 && r == c + 1)
    ensures c < LastOffset ==> r == c + 1
    ensures c >= LastOffset ==> r == FirstOffset
  {
    if c > 2 then -2 else c + 1
  }

  /** The counter after `k` pastes that each advance it once, from `c`. */
  function OffsetAfter(c: int, k: nat): int
    decreases k
  {
    if k == 0 then c else NextOffset(OffsetAfter(c, k - 1))
  }

  /**
   * From its first value the counter runs through -2, -1, 0, 1, 2, 3 and
   * starts over: after `k` steps it is `-2 + k % 6`.
   */
  lemma {:induction false} OffsetCycles(k: nat)
    ensures OffsetAfter(FirstOffset, k) == FirstOffset + k % 6
  {
    if k > 0 {
      OffsetCycles(k - 1);
    }
  }

  /** `BhNode.isRootOnWs`: a root that its workspace's root list holds. */
  predicate IsRootOnWs(g: Graph, n: NodeRef)
    requires Valid(g) && n < |g.nodes|
  {
    StateOf(g, n) == RootDirectlyUnderWs
  }

  /**
   * `canCopyOrCut`: `n` is a root on a workspace, or a child whose root is.
   * The root is found by a walk bounded by the node count.
   */
  predicate CanCopyOrCut(g: Graph, n: NodeRef)
    requires Valid(g) && n < |g.nodes|
    ensures CanCopyOrCut(g, n) ==> !IsDeleted(g, n)
    ensures g.nodes[n].parent.None? ==> (CanCopyOrCut(g, n) <==> IsRootOnWs(g, n))
  {
    || (IsChild(g, n) && RootWithin(g, n, |g.nodes|).Some? && IsRootOnWs(g, RootWithin(g, n, |g.nodes|).value))
    || IsRootOnWs(g, n)
  }

  /**
   * On a forest, a node can be copied or cut exactly when it is on a workspace
   * and the root of its tree is a root on a workspace.
   */
  lemma CanCopyOrCutIffRootOnWs(g: Graph, n: NodeRef)
    requires Valid(g) && Acyclic(g) && n < |g.nodes|
    ensures CanCopyOrCut(g, n) <==> !IsDeleted(g, n) && IsRootOnWs(g, FindRootNode(g, n))
  {
    if g.nodes[n].parent.None? {
      assert FindRootNode(g, n) == n;
    }
  }

  /** The cut candidates that are pasted: those that can be cut and that the cut scripts accept. */
  function PasteTargets(g: Graph, cut: seq<NodeRef>, accepts: set<NodeRef>): (r: seq<NodeRef>)
    requires Valid(g)
    ensures forall x :: x in r <==>
      x in cut && x < |g.nodes| && CanCopyOrCut(g, x) && x in accepts
    ensures |r| <= |cut|
  {
    if cut == [] then []
    else
      var rest := PasteTargets(g, cut[1..], accepts);
      var x := cut[0];
      if x < |g.nodes| && CanCopyOrCut(g, x) && x in accepts then [x] + rest else rest
  }

  /** The removals `clearCopyList` records, oldest candidate first. */
  function CopyRemovals(nodes: seq<NodeRef>): (r: seq<SubOperation>)
    ensures |r| == |nodes|
    ensures forall i :: 0 <= i < |nodes| ==> r[i] == RemoveNodeFromCopyList(nodes[i])
  {
    if nodes == [] then [] else [RemoveNodeFromCopyList(nodes[0])] + CopyRemovals(nodes[1..])
  }

  /** The removals `clearCutList` records, oldest candidate first. */
  function CutRemovals(nodes: seq<NodeRef>): (r: seq<SubOperation>)
    ensures |r| == |nodes|
    ensures forall i :: 0 <= i < |nodes| ==> r[i] == RemoveNodeFromCutList(nodes[i])
  {
    if nodes == [] then [] else [RemoveNodeFromCutList(nodes[0])] + CutRemovals(nodes[1..])
  }

  /** Removing the head of a list without repetitions leaves its tail. */
  lemma RemoveHead(s: seq<NodeRef>)
    requires Distinct(s) && s != []
    ensures Remove(s, s[0]) == s[1..]
  {
    assert s[0] !in s[1..];
  }

  /**
   * Undoing an addition that changed the copy list gives back the list as it
   * was before the addition; the removal is recorded twice, once by the list
   * holder and once by the command.
   */
  lemma UndoCopyAddRestores(lists: Lists, x: NodeRef, replay: InverseAction -> seq<SubOperation>)
    requires x !in lists.copy
    ensures InvertOne(AddNodeToCopyList(x), lists.(copy := Add(lists.copy, x)), replay) ==
      (lists, [RemoveNodeFromCopyList(x), RemoveNodeFromCopyList(x)])
  {
    var added := Add(lists.copy, x);
    assert added == lists.copy + [x];
    RemoveConcat(lists.copy, [x], x);
    assert Remove(added, x) == lists.copy;
    assert lists.(copy := lists.copy) == lists;
  }

  /**
   * Undoing a removal that changed the cut list gives back the same elements
   * (the node returns at the end of the list); the addition is recorded twice,
   * once by the list holder and once by the command.
   */
  lemma UndoCutRemoveRestoresElems(lists: Lists, x: NodeRef, replay: InverseAction -> seq<SubOperation>)
    requires x in lists.cut
    ensures var r := InvertOne(RemoveNodeFromCutList(x), lists.(cut := Remove(lists.cut, x)), replay);
            Elems(r.0.cut) == Elems(lists.cut) && r.0.copy == lists.copy &&
            r.1 == [AddNodeToCutList(x), AddNodeToCutList(x)]
  {
  }

  /** `WorkspaceSet`: the candidate lists and the paste offset counter. */
  class WorkspaceSet {
    var readyToCopy: seq<NodeRef>
    var readyToCut: seq<NodeRef>
    var pastePosOffsetCount: int

    /** The candidate lists are sets, and the counter stays in its cycle. */
    predicate Valid()
      reads this
    {
      Distinct(readyToCopy) && Distinct(readyToCut) && FirstOffset <= pastePosOffsetCount <= LastOffset
    }

    function Candidates(): Lists
      reads this
    {
      Lists(readyToCopy, readyToCut)
    }

    constructor()
      ensures Valid()
      ensures readyToCopy == [] && readyToCut == [] && pastePosOffsetCount == FirstOffset
    {
      readyToCopy := [];
      readyToCut := [];
      pastePosOffsetCount := -2;
    }

    /** `addNodeToCopyList`: adds an absent node and records the addition; a present node changes nothing. */
    method AddNodeToCopyList(toAdd: NodeRef, ope: UserOperation)
      requires Valid()
      modifies this, ope
      ensures Valid()
      ensures readyToCopy == Add(old(readyToCopy), toAdd)
      ensures readyToCut == old(readyToCut) && pastePosOffsetCount == old(pastePosOffsetCount)
      ensures ope.subOps == old(ope.subOps) +
        if toAdd in old(readyToCopy) then [] else [SubOperation.AddNodeToCopyList(toAdd)]
    {
      if toAdd !in readyToCopy {
        readyToCopy := readyToCopy + [toAdd];
        ope.PushCmdOfAddNodeToCopyList(toAdd);
      }
    }

    /** `removeNodeFromCopyList`: removes a present node and records the removal. */
    method RemoveNodeFromCopyList(toRemove: NodeRef, ope: UserOperation)
      requires Valid()
      modifies this, ope
      ensures Valid()
      ensures readyToCopy == Remove(old(readyToCopy), toRemove)
      ensures readyToCut == old(readyToCut) && pastePosOffsetCount == old(pastePosOffsetCount)
      ensures ope.subOps == old(ope.subOps) +
        if toRemove in old(readyToCopy) then [SubOperation.RemoveNodeFromCopyList(toRemove)] else []
    {
      if toRemove in readyToCopy {
        readyToCopy := Remove(readyToCopy, toRemove);
        ope.PushCmdOfRemoveNodeFromCopyList(toRemove);
      }
    }

    /** `clearCopyList`: removes the candidates from the head until none is left. */
    method ClearCopyList(ope: UserOperation)
      requires Valid()
      modifies this, ope
      ensures Valid()
      ensures readyToCopy == []
      ensures readyToCut == old(readyToCut) && pastePosOffsetCount == old(pastePosOffsetCount)
      ensures ope.subOps == old(ope.subOps) + CopyRemovals(old(readyToCopy))
    {
      ghost var all := readyToCopy;
      ghost var k := 0;
      while |readyToCopy| != 0
        invariant Valid()
        invariant 0 <= k <= |all| && readyToCopy == all[k..]
        invariant readyToCut == old(readyToCut) && pastePosOffsetCount == old(pastePosOffsetCount)
        invariant ope.subOps == old(ope.subOps) + CopyRemovals(all[..k])
        decreases |readyToCopy|
      {
        RemoveHead(readyToCopy);
        assert all[..k + 1] == all[..k] + [all[k]];
        CopyRemovalsSnoc(all[..k], all[k]);
        RemoveNodeFromCopyList(readyToCopy[0], ope);
        k := k + 1;
      }
      assert all[..k] == all;
    }

    /** `addNodeToCutList`: adds an absent node and records the addition. */
    method AddNodeToCutList(toAdd: NodeRef, ope: UserOperation)
      requires Valid()
      modifies this, ope
      ensures Valid()
      ensures readyToCut == Add(old(readyToCut), toAdd)
      ensures readyToCopy == old(readyToCopy) && pastePosOffsetCount == old(pastePosOffsetCount)
      ensures ope.subOps == old(ope.subOps) +
        if toAdd in old(readyToCut) then [] else [SubOperation.AddNodeToCutList(toAdd)]
    {
      if toAdd !in readyToCut {
        readyToCut := readyToCut + [toAdd];
        ope.PushCmdOfAddNodeToCutList(toAdd);
      }
    }

    /** `removeNodeFromCutList`: removes a present node and records the removal. */
    method RemoveNodeFromCutList(toRemove: NodeRef, ope: UserOperation)
      requires Valid()
      modifies this, ope
      ensures Valid()
      ensures readyToCut == Remove(old(readyToCut), toRemove)
      ensures readyToCopy == old(readyToCopy) && pastePosOffsetCount == old(pastePosOffsetCount)
      ensures ope.subOps == old(ope.subOps) +
        if toRemove in old(readyToCut) then [SubOperation.RemoveNodeFromCutList(toRemove)] else []
    {
      if toRemove in readyToCut {
        readyToCut := Remove(readyToCut, toRemove);
        ope.PushCmdOfRemoveNodeFromCutList(toRemove);
      }
    }

    /** `clearCutList`: removes the candidates from the head until none is left. */
    method ClearCutList(ope: UserOperation)
      requires Valid()
      modifies this, ope
      ensures Valid()
      ensures readyToCut == []
      ensures readyToCopy == old(readyToCopy) && pastePosOffsetCount == old(pastePosOffsetCount)
      ensures ope.subOps == old(ope.subOps) + CutRemovals(old(readyToCut))
    {
      ghost var all := readyToCut;
      ghost var k := 0;
      while |readyToCut| != 0
        invariant Valid()
        invariant 0 <= k <= |all| && readyToCut == all[k..]
        invariant readyToCopy == old(readyToCopy) && pastePosOffsetCount == old(pastePosOffsetCount)
        invariant ope.subOps == old(ope.subOps) + CutRemovals(all[..k])
        decreases |readyToCut|
      {
        RemoveHead(readyToCut);
        assert all[..k + 1] == all[..k] + [all[k]];
        CutRemovalsSnoc(all[..k], all[k]);
        RemoveNodeFromCutList(readyToCut[0], ope);
        k := k + 1;
      }
      assert all[..k] == all;
    }

    /**
     * `invokeOnNodeRemovedFromWs`: a node that leaves its workspace leaves both
     * candidate lists, and each removal that happens is recorded.
     */
    method OnNodeRemovedFromWs(node: NodeRef, ope: UserOperation)
      requires Valid()
      modifies this, ope
      ensures Valid()
      ensures node !in readyToCopy && node !in readyToCut
      ensures Elems(readyToCopy) == Elems(old(readyToCopy)) - {node}
      ensures Elems(readyToCut) == Elems(old(readyToCut)) - {node}
      ensures readyToCopy == Remove(old(readyToCopy), node) && readyToCut == Remove(old(readyToCut), node)
      ensures pastePosOffsetCount == old(pastePosOffsetCount)
      ensures ope.subOps == old(ope.subOps)
        + (if node in old(readyToCopy) then [SubOperation.RemoveNodeFromCopyList(node)] else [])
        + (if node in old(readyToCut) then [SubOperation.RemoveNodeFromCutList(node)] else [])
    {
      if node in readyToCopy {
        RemoveNodeFromCopyList(node, ope);
      }
      if node in readyToCut {
        RemoveNodeFromCutList(node, ope);
      }
    }

    /**
     * The node-removed events of one move: each node the move took off a
     * workspace leaves both candidate lists.
     */
    method ForgetAll(nodes: seq<NodeRef>, ope: UserOperation)
      requires Valid()
      modifies this, ope
      ensures Valid()
      ensures readyToCopy == RemoveAll(old(readyToCopy), nodes) && readyToCut == RemoveAll(old(readyToCut), nodes)
      ensures pastePosOffsetCount == old(pastePosOffsetCount)
      ensures Extends(ope.subOps, old(ope.subOps))
    {
      var i := 0;
      while i < |nodes|
        invariant 0 <= i <= |nodes| && Valid()
        invariant readyToCopy == RemoveAll(old(readyToCopy), nodes[..i])
        invariant readyToCut == RemoveAll(old(readyToCut), nodes[..i])
        invariant pastePosOffsetCount == old(pastePosOffsetCount)
        invariant Extends(ope.subOps, old(ope.subOps))
      {
        ghost var log0 := ope.subOps;
        OnNodeRemovedFromWs(nodes[i], ope);
        assert Extends(ope.subOps, log0);
        ExtendsTrans(ope.subOps, log0, old(ope.subOps));
        assert nodes[..i + 1] == nodes[..i] + [nodes[i]];
        RemoveAllSnoc(old(readyToCopy), nodes[..i], nodes[i]);
        RemoveAllSnoc(old(readyToCut), nodes[..i], nodes[i]);
        i := i + 1;
      }
      assert nodes[..i] == nodes;
    }

    /**
     * The paste loop of `cutAndPaste`: each node in turn is moved onto `w`,
     * and the nodes each move takes off another workspace leave the
     * candidate lists (`invokeOnNodeRemovedFromWs`); `removed` lists them.
     */
    method PasteAll(g: NodeGraph, f: NodeFactory, w: WsRef, xs: seq<NodeRef>, ope: UserOperation)
      returns (ghost removed: seq<NodeRef>)
      requires Valid() && g.Valid() && Linked(g.G()) && w < |g.wss|
      requires forall j | 0 <= j < |xs| :: xs[j] < |g.nodes|
      modifies this, g, ope
      ensures Valid() && g.Valid() && Linked(g.G())
      ensures |g.wss| == |old(g.wss)| && |g.nodes| >= |old(g.nodes)|
      ensures Extends(ope.subOps, old(ope.subOps))
      ensures forall j | 0 <= j < |xs| :: Registered(g.G(), xs[j], w)
      ensures forall x | 0 <= x < |old(g.nodes)| && old(Registered(g.G(), x, w)) :: Registered(g.G(), x, w)
      ensures readyToCopy == RemoveAll(old(readyToCopy), removed) && readyToCut == RemoveAll(old(readyToCut), removed)
      ensures pastePosOffsetCount == old(pastePosOffsetCount)
      ensures forall x | x in removed :: x < |g.nodes|
    {
      ghost var g0 := g.G();
      removed := [];
      var i := 0;
      while i < |xs|
        invariant 0 <= i <= |xs| && Valid()
        invariant g.Valid() && Linked(g.G())
        invariant |g.wss| == |g0.wss| && |g.nodes| >= |g0.nodes|
        invariant Extends(ope.subOps, old(ope.subOps))
        invariant forall j | 0 <= j < i :: Registered(g.G(), xs[j], w)
        invariant forall x | 0 <= x < |g0.nodes| && Registered(g0, x, w) :: Registered(g.G(), x, w)
        invariant readyToCopy == RemoveAll(old(readyToCopy), removed) && readyToCut == RemoveAll(old(readyToCut), removed)
        invariant pastePosOffsetCount == old(pastePosOffsetCount)
        invariant forall x | x in removed :: x < |g.nodes|
      {
        ghost var log0 := ope.subOps;
        ghost var g1 := g.G();
        var _, leaving := MoveToWs(g, f, w, xs[i], ope);
        RegisteredStep(g0, g1, g.G(), w, xs, i);
        ghost var log1 := ope.subOps;
        ForgetAll(leaving, ope);
        ExtendsTrans(log1, log0, old(ope.subOps));
        ExtendsTrans(ope.subOps, log1, old(ope.subOps));
        RemoveAllThen(old(readyToCopy), removed, leaving);
        RemoveAllThen(old(readyToCut), removed, leaving);
        removed := removed + leaving;
        i := i + 1;
      }
    }

    /**
     * `cutAndPaste`: with no cut candidates nothing happens.  Otherwise every
     * candidate that can be cut and that the cut scripts accept (`accepts`) is
     * moved onto `w`; the nodes a move takes off another workspace leave both
     * candidate lists, `removed` lists them.  Then the counter advances and
     * what is left of the cut list is emptied with one recorded removal.
     * Every pasted node, and every node that was on `w` before, ends on `w`.
     */
    method CutAndPaste(g: NodeGraph, f: NodeFactory, w: WsRef, accepts: set<NodeRef>, ope: UserOperation)
      returns (ghost removed: seq<NodeRef>)
      requires Valid() && g.Valid() && Linked(g.G()) && w < |g.wss|
      modifies this, g, ope
      ensures Valid() && g.Valid() && Linked(g.G())
      ensures |g.wss| == |old(g.wss)| && |g.nodes| >= |old(g.nodes)|
      ensures readyToCopy == RemoveAll(old(readyToCopy), removed) && readyToCut == []
      ensures old(readyToCut) == [] ==>
        && removed == [] && pastePosOffsetCount == old(pastePosOffsetCount)
        && g.G() == old(g.G()) && ope.subOps == old(ope.subOps)
      ensures old(readyToCut) != [] ==>
        && pastePosOffsetCount == NextOffset(old(pastePosOffsetCount))
        && Extends(ope.subOps, old(ope.subOps)) && |ope.subOps| > |old(ope.subOps)|
        && ope.subOps[|ope.subOps| - 1] == RemoveFromList(CutList, RemoveAll(old(readyToCut), removed))
      ensures old(readyToCut) != [] ==>
        forall x | x in PasteTargets(old(g.G()), old(readyToCut), accepts) :: x < |g.nodes| && Registered(g.G(), x, w)
      ensures forall x | 0 <= x < |old(g.nodes)| && old(Registered(g.G(), x, w)) :: Registered(g.G(), x, w)
      ensures forall x | x in removed :: x < |g.nodes|
    {
      if readyToCut == [] {
        return [];
      }
      var nodesToPaste := PasteTargets(g.G(), readyToCut, accepts);
      assert forall j | 0 <= j < |nodesToPaste| :: nodesToPaste[j] in nodesToPaste;
      removed := PasteAll(g, f, w, nodesToPaste, ope);
      pastePosOffsetCount := NextOffset(pastePosOffsetCount);
      ghost var log1 := ope.subOps;
      ope.PushCmdOfRemoveFromList(CutList, readyToCut);
      ExtendsTrans(ope.subOps, log1, old(ope.subOps));
      readyToCut := [];
    }
  }

  /** One step of the paste loop keeps every node that was on `w` on it and adds the next one. */
  lemma RegisteredStep(g0: Graph, g1: Graph, h: Graph, w: WsRef, xs: seq<NodeRef>, i: nat)
    requires i < |xs| && (forall j | 0 <= j < |xs| :: xs[j] < |g0.nodes|)
    requires |g0.nodes| <= |g1.nodes| <= |h.nodes| && w < |g0.wss| == |g1.wss| == |h.wss|
    requires forall j | 0 <= j < i :: Registered(g1, xs[j], w)
    requires forall x | 0 <= x < |g0.nodes| && Registered(g0, x, w) :: Registered(g1, x, w)
    requires forall x | 0 <= x < |g1.nodes| && Registered(g1, x, w) :: Registered(h, x, w)
    requires Registered(h, xs[i], w)
    ensures forall j | 0 <= j < i + 1 :: Registered(h, xs[j], w)
    ensures forall x | 0 <= x < |g0.nodes| && Registered(g0, x, w) :: Registered(h, x, w)
  {
  }

  lemma CopyRemovalsSnoc(nodes: seq<NodeRef>, x: NodeRef)
    ensures CopyRemovals(nodes + [x]) == CopyRemovals(nodes) + [RemoveNodeFromCopyList(x)]
  {
    if nodes != [] {
      assert (nodes + [x])[1..] == nodes[1..] + [x];
    }
  }

  lemma CutRemovalsSnoc(nodes: seq<NodeRef>, x: NodeRef)
    ensures CutRemovals(nodes + [x]) == CutRemovals(nodes) + [RemoveNodeFromCutList(x)]
  {
    if nodes != [] {
      assert (nodes + [x])[1..] == nodes[1..] + [x];
    }
  }
}
