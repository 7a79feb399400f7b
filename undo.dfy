/**
 * The undo log of one user operation (`UserOperation`): a deque of
 * sub-operations, each of which knows how to perform its own inverse and to
 * record, in a fresh log, the sub-operation that inverts the inverse.
 *
 * The Java commands hold closures and object references; here every command is
 * a value naming the objects it acts on, and `Replay` interprets it.
 */
module Undo {
  import opened Wrappers
  import opened Ids
  import opened SequencedSets

  /** The collections a list command can name: the copy and cut candidate lists. */
  datatype ListRef = CopyList | CutList

  /**
   * The inverse operations that the node, connector and workspace code records
   * through `pushCmd` as anonymous commands.  Replaying one calls the named
   * operation on the named object.
   */
  datatype InverseAction =
    | ConnectImpl(cnctr: CnctrRef, toConnect: Option<NodeRef>, snapshot: Option<NodeRef>)
    | SetWorkspace(node: NodeRef, newWs: Option<WsRef>)
    | SetLastReplaced(node: NodeRef, lastReplaced: Option<NodeRef>)
    | Select(node: NodeRef)
    | Deselect(node: NodeRef)
    | SetBreakpoint(node: NodeRef, val: bool)
    | SetCorrupted(node: NodeRef, val: bool)
    | AddNodeTree(ws: WsRef, root: NodeRef)
    | RemoveNodeTree(ws: WsRef, root: NodeRef)
    | SetName(ws: WsRef, name: Option<string>)

  /** `UserOperation.SubOperation`: the commands of the log that the model covers. */
  datatype SubOperation =
    | Anonymous(action: InverseAction)
    | AddToList(list: ListRef, elems: seq<NodeRef>)
    | RemoveFromList(list: ListRef, elems: seq<NodeRef>)
    | AddNodeToCopyList(node: NodeRef)
    | RemoveNodeFromCopyList(node: NodeRef)
    | AddNodeToCutList(node: NodeRef)
    | RemoveNodeFromCutList(node: NodeRef)

  /** `UserOperation`: the sub-operation deque, oldest first. */
  class UserOperation {
    var subOps: seq<SubOperation>

    constructor()
      ensures subOps == []
    {
      subOps := [];
    }

    /** `pushCmd`: records an anonymous inverse at the tail. */
    method PushCmd(action: InverseAction)
      modifies this
      ensures subOps == old(subOps) + [Anonymous(action)]
    {
      subOps := subOps + [Anonymous(action)];
    }

    /** `pushCmdOfAddToList`: the command keeps its own copy of the added elements. */
    method PushCmdOfAddToList(list: ListRef, addedElems: seq<NodeRef>)
      modifies this
      ensures subOps == old(subOps) + [AddToList(list, addedElems)]
    {
      subOps := subOps + [AddToList(list, addedElems)];
    }

    /** `pushCmdOfRemoveFromList`. */
    method PushCmdOfRemoveFromList(list: ListRef, removedElems: seq<NodeRef>)
      modifies this
      ensures subOps == old(subOps) + [RemoveFromList(list, removedElems)]
    {
      subOps := subOps + [RemoveFromList(list, removedElems)];
    }

    /** `pushCmdOfAddNodeToCopyList`. */
    method PushCmdOfAddNodeToCopyList(added: NodeRef)
      modifies this
      ensures subOps == old(subOps) + [AddNodeToCopyList(added)]
    {
      subOps := subOps + [AddNodeToCopyList(added)];
    }

    /** `pushCmdOfRemoveNodeFromCopyList`. */
    method PushCmdOfRemoveNodeFromCopyList(removed: NodeRef)
      modifies this
      ensures subOps == old(subOps) + [RemoveNodeFromCopyList(removed)]
    {
      subOps := subOps + [RemoveNodeFromCopyList(removed)];
    }

    /** `pushCmdOfAddNodeToCutList`. */
    method PushCmdOfAddNodeToCutList(added: NodeRef)
      modifies this
      ensures subOps == old(subOps) + [AddNodeToCutList(added)]
    {
      subOps := subOps + [AddNodeToCutList(added)];
    }

    /** `pushCmdOfRemoveNodeFromCutList`. */
    method PushCmdOfRemoveNodeFromCutList(removed: NodeRef)
      modifies this
      ensures subOps == old(subOps) + [RemoveNodeFromCutList(removed)]
    {
      subOps := subOps + [RemoveNodeFromCutList(removed)];
    }

    /**
     * `doInverseOperation`: takes the sub-operations off the tail one by one,
     * undoes each on the candidate lists and collects what it records in a new
     * log, which is returned; this log ends up empty.
     */
    method DoInverseOperation(lists: Lists, replay: InverseAction -> seq<SubOperation>)
        returns (inverse: UserOperation, newLists: Lists)
      modifies this
      ensures fresh(inverse)
      ensures subOps == []
      ensures (newLists, inverse.subOps) == InvertAll(old(subOps), lists, replay)
    {
      inverse := new UserOperation();
      newLists := lists;
      assert inverse.subOps + InvertAll(subOps, newLists, replay).1 == InvertAll(subOps, newLists, replay).1;
      while subOps != []
        invariant inverse != this
        invariant fresh(inverse)
        invariant InvertAll(old(subOps), lists, replay) ==
          (InvertAll(subOps, newLists, replay).0, inverse.subOps + InvertAll(subOps, newLists, replay).1)
        decreases |subOps|
      {
        ghost var before := InvertAll(subOps, newLists, replay);
        var last := subOps[|subOps| - 1];
        subOps := subOps[..|subOps| - 1];
        var (lists1, recorded) := InvertOne(last, newLists, replay);
        assert before == (InvertAll(subOps, lists1, replay).0, recorded + InvertAll(subOps, lists1, replay).1);
        newLists := lists1;
        assert inverse.subOps + before.1 == (inverse.subOps + recorded) + InvertAll(subOps, newLists, replay).1;
        inverse.subOps := inverse.subOps + recorded;
      }
      assert inverse.subOps + InvertAll(subOps, newLists, replay).1 == inverse.subOps;
    }
  }

  /** A command of the list family, which `InvertListCmd` interprets. */
  predicate IsListCmd(op: SubOperation) {
    op.AddToList? || op.RemoveFromList?
  }

  /**
   * `AddToListCmd.doInverseOperation` and `RemoveFromListCmd.doInverseOperation`
   * on the contents of the named list: the new contents and the command recorded
   * in the inverse log.
   */
  function InvertListCmd(op: SubOperation, contents: seq<NodeRef>): (r: (seq<NodeRef>, SubOperation))
    requires IsListCmd(op)
    ensures op.AddToList? ==>
      Elems(r.0) == Elems(contents) - Elems(op.elems) && r.1 == RemoveFromList(op.list, op.elems)
    ensures op.RemoveFromList? ==>
      Elems(r.0) == Elems(contents) + Elems(op.elems) && r.1 == AddToList(op.list, op.elems)
    ensures Distinct(contents) ==> Distinct(r.0)
  {
    match op
    case AddToList(list, elems) => (RemoveAll(contents, elems), RemoveFromList(list, elems))
    case RemoveFromList(list, elems) => (AddAll(contents, elems), AddToList(list, elems))
  }

  /**
   * Undoing an addition and redoing it gives back the same elements (the
   * re-added ones move to the end of the list) and the original command.
   */
  lemma RedoOfUndoneAddRestores(list: ListRef, contents: seq<NodeRef>, elems: seq<NodeRef>)
    requires Elems(elems) <= Elems(contents)
    ensures var (undone, redoCmd) := InvertListCmd(AddToList(list, elems), contents);
            var (redone, cmd) := InvertListCmd(redoCmd, undone);
            Elems(redone) == Elems(contents) && cmd == AddToList(list, elems)
  {
    AddAllRestoresRemoved(contents, elems);
  }

  /**
   * Undoing a removal of elements that the list no longer holds and redoing it
   * gives back exactly the same list and the original command.
   */
  lemma RedoOfUndoneRemoveRestores(list: ListRef, contents: seq<NodeRef>, elems: seq<NodeRef>)
    requires Elems(contents) !! Elems(elems)
    ensures var (undone, redoCmd) := InvertListCmd(RemoveFromList(list, elems), contents);
            var (redone, cmd) := InvertListCmd(redoCmd, undone);
            redone == contents && cmd == RemoveFromList(list, elems)
  {
    RemoveAllUndoesAddAll(contents, elems);
  }

  /** The copy and cut candidate lists, the collections the list commands act on. */
  datatype Lists = Lists(copy: seq<NodeRef>, cut: seq<NodeRef>)

  function ListOf(lists: Lists, list: ListRef): seq<NodeRef> {
    match list
    case CopyList => lists.copy
    case CutList => lists.cut
  }

  function WithList(lists: Lists, list: ListRef, contents: seq<NodeRef>): Lists {
    match list
    case CopyList => lists.(copy := contents)
    case CutList => lists.(cut := contents)
  }

  /**
   * The command that each non-anonymous command records in the inverse log
   * when it is undone: additions and removals trade places, the elements stay.
   */
  function Inverted(op: SubOperation): (r: SubOperation)
    requires !op.Anonymous?
    ensures !r.Anonymous?
    ensures op.AddToList? || op.RemoveFromList? ==> IsListCmd(r) && r.list == op.list && r.elems == op.elems
  {
    match op
    case AddToList(list, elems) => RemoveFromList(list, elems)
    case RemoveFromList(list, elems) => AddToList(list, elems)
    case AddNodeToCopyList(n) => RemoveNodeFromCopyList(n)
    case RemoveNodeFromCopyList(n) => AddNodeToCopyList(n)
    case AddNodeToCutList(n) => RemoveNodeFromCutList(n)
    case RemoveNodeFromCutList(n) => AddNodeToCutList(n)
  }

  /** A command on one node of the copy or cut list. */
  predicate IsNodeCmd(op: SubOperation) {
    !op.Anonymous? && !IsListCmd(op)
  }

  /**
   * `SubOperation.doInverseOperation` of one command: the new candidate lists
   * and what is recorded in the inverse log.  An anonymous command runs its
   * stored inverse, whose effect lies outside the lists; `replay` says what that
   * inverse records.  A node command goes through the holder's
   * `addNodeToList` / `removeNodeFromList`, which records the inverted command
   * itself when the list changes, and then records the inverted command again.
   */
  function InvertOne(op: SubOperation, lists: Lists, replay: InverseAction -> seq<SubOperation>): (r: (Lists, seq<SubOperation>))
    ensures op.Anonymous? ==> r == (lists, replay(op.action))
    ensures IsNodeCmd(op) ==>
      r.1 == (if r.0 != lists then [Inverted(op), Inverted(op)] else [Inverted(op)])
    ensures op.AddNodeToCopyList? ==> r.0 == lists.(copy := Remove(lists.copy, op.node))
    ensures op.RemoveNodeFromCopyList? ==> r.0 == lists.(copy := Add(lists.copy, op.node))
    ensures op.AddNodeToCutList? ==> r.0 == lists.(cut := Remove(lists.cut, op.node))
    ensures op.RemoveNodeFromCutList? ==> r.0 == lists.(cut := Add(lists.cut, op.node))
    ensures IsListCmd(op) ==> r == (WithList(lists, op.list, InvertListCmd(op, ListOf(lists, op.list)).0),
                                    [InvertListCmd(op, ListOf(lists, op.list)).1])
  {
    match op
    case Anonymous(a) => (lists, replay(a))
    case AddToList(list, _) =>
      var (contents, cmd) := InvertListCmd(op, ListOf(lists, list));
      (WithList(lists, list, contents), [cmd])
    case RemoveFromList(list, _) =>
      var (contents, cmd) := InvertListCmd(op, ListOf(lists, list));
      (WithList(lists, list, contents), [cmd])
    case AddNodeToCopyList(n) =>
      (lists.(copy := Remove(lists.copy, n)),
       (if n in lists.copy then [RemoveNodeFromCopyList(n)] else []) + [RemoveNodeFromCopyList(n)])
    case RemoveNodeFromCopyList(n) =>
      (lists.(copy := Add(lists.copy, n)),
       (if n !in lists.copy then [AddNodeToCopyList(n)] else []) + [AddNodeToCopyList(n)])
    case AddNodeToCutList(n) =>
      (lists.(cut := Remove(lists.cut, n)),
       (if n in lists.cut then [RemoveNodeFromCutList(n)] else []) + [RemoveNodeFromCutList(n)])
    case RemoveNodeFromCutList(n) =>
      (lists.(cut := Add(lists.cut, n)),
       (if n !in lists.cut then [AddNodeToCutList(n)] else []) + [AddNodeToCutList(n)])
  }

  /**
   * `UserOperation.doInverseOperation` as a function of the log: the commands
   * are undone from the newest to the oldest, and the inverse log collects what
   * each of them records, in that order.
   */
  function InvertAll(ops: seq<SubOperation>, lists: Lists, replay: InverseAction -> seq<SubOperation>): (r: (Lists, seq<SubOperation>))
    decreases |ops|
  {
    if ops == [] then (lists, [])
    else
      var (lists1, recorded) := InvertOne(ops[|ops| - 1], lists, replay);
      var (lists2, rest) := InvertAll(ops[..|ops| - 1], lists1, replay);
      (lists2, recorded + rest)
  }

  /** A log made only of commands that record their own inverse. */
  predicate NoAnonymous(ops: seq<SubOperation>) {
    forall i :: 0 <= i < |ops| ==> !ops[i].Anonymous?
  }

  /** The inverses of the commands of `ops`, newest first. */
  function InvertedReversed(ops: seq<SubOperation>): (r: seq<SubOperation>)
    requires NoAnonymous(ops)
    ensures |r| == |ops|
    ensures forall i :: 0 <= i < |ops| ==> r[i] == Inverted(ops[|ops| - 1 - i])
  {
    if ops == [] then [] else [Inverted(ops[|ops| - 1])] + InvertedReversed(ops[..|ops| - 1])
  }

  /** A log made only of `AddToListCmd` and `RemoveFromListCmd` entries. */
  predicate ListCmdsOnly(ops: seq<SubOperation>) {
    forall i :: 0 <= i < |ops| ==> IsListCmd(ops[i])
  }

  /**
   * `log` holds, for each command of `ops` from the newest to the oldest, its
   * inverse, where the inverse of a node command may come twice (the holder's
   * entry, then the command's own).
   */
  ghost predicate InversesWithHolderEntries(log: seq<SubOperation>, ops: seq<SubOperation>)
    requires NoAnonymous(ops)
    decreases |ops|
  {
    if ops == [] then log == []
    else
      var inv := Inverted(ops[|ops| - 1]);
      var rest := ops[..|ops| - 1];
      (|log| >= 1 && log[0] == inv && InversesWithHolderEntries(log[1..], rest)) ||
      (IsNodeCmd(ops[|ops| - 1]) && |log| >= 2 && log[0] == inv && log[1] == inv &&
       InversesWithHolderEntries(log[2..], rest))
  }

  /**
   * Undoing a log without anonymous commands records, for each command from the
   * newest to the oldest, its inverse, doubled for a node command that changes
   * its list; a log of list commands gives exactly the original log reversed
   * with every addition and removal exchanged.
   */
  lemma {:induction false} InvertAllRecordsInverses(ops: seq<SubOperation>, lists: Lists, replay: InverseAction -> seq<SubOperation>)
    requires NoAnonymous(ops)
    ensures InversesWithHolderEntries(InvertAll(ops, lists, replay).1, ops)
    ensures ListCmdsOnly(ops) ==> InvertAll(ops, lists, replay).1 == InvertedReversed(ops)
  {
    if ops != [] {
      var last := ops[|ops| - 1];
      var (lists1, recorded) := InvertOne(last, lists, replay);
      var rest := ops[..|ops| - 1];
      InvertAllRecordsInverses(rest, lists1, replay);
      var log := InvertAll(ops, lists, replay).1;
      assert log == recorded + InvertAll(rest, lists1, replay).1;
      if |recorded| == 1 {
        assert log[1..] == InvertAll(rest, lists1, replay).1;
      } else {
        assert log[2..] == InvertAll(rest, lists1, replay).1;
      }
    }
  }

  /**
   * Undoing the inverse log again (a redo) of a log of list commands records
   * the original log: the undo log of the redo equals the log that was undone
   * in the first place.
   */
  lemma {:induction false} RedoRecordsOriginalLog(ops: seq<SubOperation>, lists: Lists, lists2: Lists, replay: InverseAction -> seq<SubOperation>)
    requires ListCmdsOnly(ops)
    ensures var inv := InvertAll(ops, lists, replay).1;
            ListCmdsOnly(inv) && InvertAll(inv, lists2, replay).1 == ops
  {
    InvertAllRecordsInverses(ops, lists, replay);
    InvertedReversedTwice(ops);
    InvertAllRecordsInverses(InvertedReversed(ops), lists2, replay);
  }

  /** Inverting a log of list commands twice gives it back. */
  lemma InvertedReversedTwice(ops: seq<SubOperation>)
    requires ListCmdsOnly(ops)
    ensures ListCmdsOnly(InvertedReversed(ops))
    ensures InvertedReversed(InvertedReversed(ops)) == ops
  {
    var inv := InvertedReversed(ops);
    forall i | 0 <= i < |inv|
      ensures IsListCmd(inv[i])
    {
      assert inv[i] == Inverted(ops[|ops| - 1 - i]);
    }
    var back := InvertedReversed(inv);
    forall i | 0 <= i < |ops|
      ensures back[i] == ops[i]
    {
      assert back[i] == Inverted(inv[|ops| - 1 - i]);
      assert inv[|ops| - 1 - i] == Inverted(ops[i]);
    }
  }

  /** Undoing a log of one command is undoing that command. */
  lemma InvertAllOfOne(op: SubOperation, lists: Lists, replay: InverseAction -> seq<SubOperation>)
    ensures InvertAll([op], lists, replay) == InvertOne(op, lists, replay)
  {
    assert [op][..0] == [];
    assert InvertOne(op, lists, replay).1 + [] == InvertOne(op, lists, replay).1;
  }

  /**
   * A node command does not round-trip its log: undoing the addition of `x` to
   * the copy list records the removal twice, and redoing that records the
   * addition three times, while the copy list comes back as it was.
   */
  lemma RedoOfNodeCmdGrowsLog(x: NodeRef, replay: InverseAction -> seq<SubOperation>)
    ensures var lists := Lists([x], []);
            var undo := InvertAll([AddNodeToCopyList(x)], lists, replay);
            var redo := InvertAll(undo.1, undo.0, replay);
            undo.1 == [RemoveNodeFromCopyList(x), RemoveNodeFromCopyList(x)] &&
            redo.1 == [AddNodeToCopyList(x), AddNodeToCopyList(x), AddNodeToCopyList(x)] &&
            redo.0 == lists
  {
    var lists := Lists([x], []);
    var empty := Lists([], []);
    var inv := [RemoveNodeFromCopyList(x), RemoveNodeFromCopyList(x)];
    assert Remove([x], x) == [];
    InvertAllOfOne(AddNodeToCopyList(x), lists, replay);
    assert InvertAll([AddNodeToCopyList(x)], lists, replay) == (empty, inv);
    InvertAllOfOne(RemoveNodeFromCopyList(x), lists, replay);
    assert inv[..|inv| - 1] == [RemoveNodeFromCopyList(x)];
    var first := InvertOne(RemoveNodeFromCopyList(x), empty, replay);
    assert first == (lists, [AddNodeToCopyList(x), AddNodeToCopyList(x)]);
    assert InvertAll(inv[..|inv| - 1], lists, replay) == (lists, [AddNodeToCopyList(x)]);
  }
}
