/**
 * The helpers the node event scripts share (`CommonEvent.js`): two lookup
 * tables that turn an any-type node into the static-type node for one data
 * type, and three node edits the scripts carry out through the node handler.
 *
 * The scripts find nodes with `findSymbolInDescendants` and `findOuterNode`
 * and test them with `canBeReplacedWith`; those walks are not part of this
 * model, so each edit takes what they found (or `None` where they found
 * nothing) as parameters.
 */
module CommonEvents {
  import opened Wrappers
  import opened Ids
  import opened NodeModel
  import opened Undo
  import opened NodeGraphs
  import opened Connectors
  import opened NodeHandler

  // ---------------------------------------------------------------------------
  // Names

  /** The data types of the language. */
  datatype DataType = Num | Str | Bool | Color | Sound

  /** The three kinds of symbol that decide the type: an expression slot, a list slot, a class. */
  datatype SymbolKind = ExpSctn | ListSctn | Class

  /** A symbol that decides the type of an any-type node. */
  datatype TypeSymbol = TypeSymbol(t: DataType, k: SymbolKind)

  /** The statements and expressions that have an any-type form. */
  datatype AnyTypeOp =
    | Assign | ArrayPush | ArrayGet | ArrayGetLast | ArrayPop
    | ArrayInsert | ArrayRemove | ArraySet | ArrayAppend | ArrayClear

  /** The name of the any-type node. */
  function AnyName(op: AnyTypeOp): string {
    match op
    case Assign => "AnyAssignStat"
    case ArrayPush => "AnyArrayPushStat"
    case ArrayGet => "AnyArrayGetExp"
    case ArrayGetLast => "AnyArrayGetLastExp"
    case ArrayPop => "AnyArrayPopStat"
    case ArrayInsert => "AnyArrayInsertStat"
    case ArrayRemove => "AnyArrayRemoveStat"
    case ArraySet => "AnyArraySetStat"
    case ArrayAppend => "AnyArrayAppendStat"
    case ArrayClear => "AnyArrayClearStat"
  }

  /** The name of the symbol of kind `k` for type `t`. */
  function SymbolName(t: DataType, k: SymbolKind): string {
    match (t, k)
    case (Num, ExpSctn) => "NumberExpSctn"
    case (Str, ExpSctn) => "StringExpSctn"
    case (Bool, ExpSctn) => "BooleanExpSctn"
    case (Color, ExpSctn) => "ColorExpSctn"
    case (Sound, ExpSctn) => "SoundExpSctn"
    case (Num, ListSctn) => "NumberListSctn"
    case (Str, ListSctn) => "StringListSctn"
    case (Bool, ListSctn) => "BooleanListSctn"
    case (Color, ListSctn) => "ColorListSctn"
    case (Sound, ListSctn) => "SoundListSctn"
    case (Num, Class) => "NumClass"
    case (Str, Class) => "StrClass"
    case (Bool, Class) => "BoolClass"
    case (Color, Class) => "ColorClass"
    case (Sound, Class) => "SoundClass"
  }

  /**
   * The any-type node a name could denote, told apart by length and one
   * letter; `NamedOp` then checks the whole name.
   */
  function OpCandidate(s: string): AnyTypeOp {
    if |s| == 13 then Assign
    else if |s| == 14 then ArrayGet
    else if |s| == 15 then (if s[8] == 'P' then ArrayPop else ArraySet)
    else if |s| == 16 then ArrayPush
    else if |s| == 17 then ArrayClear
    else if |s| == 18 then
      (if s[8] == 'G' then ArrayGetLast else if s[8] == 'I' then ArrayInsert
       else if s[8] == 'R' then ArrayRemove else ArrayAppend)
    else Assign
  }

  /** The any-type node named `s`, if any. */
  function NamedOp(s: string): (r: Option<AnyTypeOp>)
    ensures r.Some? ==> AnyName(r.value) == s
  {
    var op := OpCandidate(s);
    if AnyName(op) == s then Some(op) else None
  }

  /** The type of a symbol name, told apart by its first letters. */
  function TypeCandidate(s: string): DataType {
    if |s| == 0 then Num
    else if s[0] == 'B' then Bool
    else if s[0] == 'C' then Color
    else if s[0] == 'S' then (if |s| > 1 && s[1] == 't' then Str else Sound)
    else Num
  }

  /** The kind of a symbol name of type `t`, told apart by its length. */
  function KindCandidate(t: DataType, s: string): SymbolKind {
    if |s| == |SymbolName(t, ExpSctn)| then ExpSctn
    else if |s| == |SymbolName(t, ListSctn)| then ListSctn
    else Class
  }

  /** The type-deciding symbol named `s`, if any. */
  function NamedSymbol(s: string): (r: Option<TypeSymbol>)
    ensures r.Some? ==> SymbolName(r.value.t, r.value.k) == s
  {
    var t := TypeCandidate(s);
    var k := KindCandidate(t, s);
    if SymbolName(t, k) == s then Some(TypeSymbol(t, k)) else None
  }

  /** Every any-type node name is read back as its node. */
  lemma NamedOpOfName(op: AnyTypeOp)
    ensures NamedOp(AnyName(op)) == Some(op)
  {
    match op
    case Assign =>
    case ArrayPush =>
    case ArrayGet =>
    case ArrayGetLast =>
    case ArrayPop =>
    case ArrayInsert =>
    case ArrayRemove =>
    case ArraySet =>
    case ArrayAppend =>
    case ArrayClear =>
  }

  /** Every symbol name is read back as its symbol. */
  lemma NamedSymbolOfName(t: DataType, k: SymbolKind)
    ensures NamedSymbol(SymbolName(t, k)) == Some(TypeSymbol(t, k))
  {
    match (t, k)
    case (Num, _) =>
    case (Str, _) =>
    case (Bool, _) =>
    case (Color, _) =>
    case (Sound, _) =>
  }

  // ---------------------------------------------------------------------------
  // The any-type tables

  /** `anyTypeToPathOfChildToBeMoved`: the any-type nodes that move a child when typed, and its path. */
  function ChildToBeMovedPaths(op: AnyTypeOp): Option<seq<seq<string>>> {
    match op
    case ArrayGet => Some([["*", "Arg1", "*"]])
    case ArrayInsert => Some([["*", "Arg1", "*"]])
    case ArrayRemove => Some([["*", "Arg1", "*"]])
    case ArraySet => Some([["*", "Arg1", "*"]])
    case _ => None
  }

  /**
   * `anyTypeToStaticTypeNode`: for an any-type node and the symbol that
   * decides its type, the static-type node id, if the table lists the pair.
   */
  function StaticTypeEntry(op: AnyTypeOp, sym: TypeSymbol): Option<string> {
    match op
    case Assign => (
      match sym
      case TypeSymbol(Num, ExpSctn) => Some("idNumAssignStat")
      case TypeSymbol(Str, ExpSctn) => Some("idStrAssignStat")
      case TypeSymbol(Bool, ExpSctn) => Some("idBoolAssignStat")
      case TypeSymbol(Color, ExpSctn) => Some("idColorAssignStat")
      case TypeSymbol(Sound, ExpSctn) => Some("idSoundAssignStat")
      case _ => None)
    case ArrayPush => (
      match sym
      case TypeSymbol(Num, ExpSctn) => Some("idNumArrayPushStat")
      case TypeSymbol(Str, ExpSctn) => Some("idStrArrayPushStat")
      case TypeSymbol(Bool, ExpSctn) => Some("idBoolArrayPushStat")
      case TypeSymbol(Color, ExpSctn) => Some("idColorArrayPushStat")
      case TypeSymbol(Sound, ExpSctn) => Some("idSoundArrayPushStat")
      case TypeSymbol(Num, ListSctn) => Some("idNumArrayPushStat")
      case TypeSymbol(Str, ListSctn) => Some("idStrArrayPushStat")
      case TypeSymbol(Bool, ListSctn) => Some("idBoolArrayPushStat")
      case TypeSymbol(Color, ListSctn) => Some("idColorArrayPushStat")
      case TypeSymbol(Sound, ListSctn) => Some("idSoundArrayPushStat")
      case _ => None)
    case ArrayGet => (
      match sym
      case TypeSymbol(Num, ListSctn) => Some("idNumArrayGetExp")
      case TypeSymbol(Str, ListSctn) => Some("idStrArrayGetExp")
      case TypeSymbol(Bool, ListSctn) => Some("idBoolArrayGetExp")
      case TypeSymbol(Color, ListSctn) => Some("idColorArrayGetExp")
      case TypeSymbol(Sound, ListSctn) => Some("idSoundArrayGetExp")
      case TypeSymbol(Num, Class) => Some("idNumArrayGetExp")
      case TypeSymbol(Str, Class) => Some("idStrArrayGetExp")
      case TypeSymbol(Bool, Class) => Some("idBoolArrayGetExp")
      case TypeSymbol(Color, Class) => Some("idColorArrayGetExp")
      case TypeSymbol(Sound, Class) => Some("idSoundArrayGetExp")
      case _ => None)
    case ArrayGetLast => (
      match sym
      case TypeSymbol(Num, ListSctn) => Some("idNumArrayGetLastExp")
      case TypeSymbol(Str, ListSctn) => Some("idStrArrayGetLastExp")
      case TypeSymbol(Bool, ListSctn) => Some("idBoolArrayGetLastExp")
      case TypeSymbol(Color, ListSctn) => Some("idColorArrayGetLastExp")
      case TypeSymbol(Sound, ListSctn) => Some("idSoundArrayGetLastExp")
      case TypeSymbol(Num, Class) => Some("idNumArrayGetLastExp")
      case TypeSymbol(Str, Class) => Some("idStrArrayGetLastExp")
      case TypeSymbol(Bool, Class) => Some("idBoolArrayGetLastExp")
      case TypeSymbol(Color, Class) => Some("idColorArrayGetLastExp")
      case TypeSymbol(Sound, Class) => Some("idSoundArrayGetLastExp")
      case _ => None)
    case ArrayPop => (
      match sym
      case TypeSymbol(Num, ListSctn) => Some("idNumArrayPopStat")
      case TypeSymbol(Str, ListSctn) => Some("idStrArrayPopStat")
      case TypeSymbol(Bool, ListSctn) => Some("idBoolArrayPopStat")
      case TypeSymbol(Color, ListSctn) => Some("idColorArrayPopStat")
      case TypeSymbol(Sound, ListSctn) => Some("idSoundArrayPopStat")
      case _ => None)
    case ArrayInsert => (
      match sym
      case TypeSymbol(Num, ListSctn) => Some("idNumArrayInsertStat")
      case TypeSymbol(Str, ListSctn) => Some("idStrArrayInsertStat")
      case TypeSymbol(Bool, ListSctn) => Some("idBoolArrayInsertStat")
      case TypeSymbol(Color, ListSctn) => Some("idColorArrayInsertStat")
      case TypeSymbol(Sound, ListSctn) => Some("idSoundArrayInsertStat")
      case TypeSymbol(Num, ExpSctn) => Some("idNumArrayInsertStat")
      case TypeSymbol(Str, ExpSctn) => Some("idStrArrayInsertStat")
      case TypeSymbol(Bool, ExpSctn) => Some("idBoolArrayInsertStat")
      case TypeSymbol(Color, ExpSctn) => Some("idColorArrayInsertStat")
      case TypeSymbol(Sound, ExpSctn) => Some("idSoundArrayInsertStat")
      case _ => None)
    case ArrayRemove => (
      match sym
      case TypeSymbol(Num, ListSctn) => Some("idNumArrayRemoveStat")
      case TypeSymbol(Str, ListSctn) => Some("idStrArrayRemoveStat")
      case TypeSymbol(Bool, ListSctn) => Some("idBoolArrayRemoveStat")
      case TypeSymbol(Color, ListSctn) => Some("idColorArrayRemoveStat")
      case TypeSymbol(Sound, ListSctn) => Some("idSoundArrayRemoveStat")
      case _ => None)
    case ArraySet => (
      match sym
      case TypeSymbol(Num, ListSctn) => Some("idNumArraySetStat")
      case TypeSymbol(Str, ListSctn) => Some("idStrArraySetStat")
      case TypeSymbol(Bool, ListSctn) => Some("idBoolArraySetStat")
      case TypeSymbol(Color, ListSctn) => Some("idColorArraySetStat")
      case TypeSymbol(Sound, ListSctn) => Some("idSoundArraySetStat")
      case TypeSymbol(Num, ExpSctn) => Some("idNumArraySetStat")
      case TypeSymbol(Str, ExpSctn) => Some("idStrArraySetStat")
      case TypeSymbol(Bool, ExpSctn) => Some("idBoolArraySetStat")
      case TypeSymbol(Color, ExpSctn) => Some("idColorArraySetStat")
      case TypeSymbol(Sound, ExpSctn) => Some("idSoundArraySetStat")
      case _ => None)
    case ArrayAppend => (
      match sym
      case TypeSymbol(Num, ListSctn) => Some("idNumArrayAppendStat")
      case TypeSymbol(Str, ListSctn) => Some("idStrArrayAppendStat")
      case TypeSymbol(Bool, ListSctn) => Some("idBoolArrayAppendStat")
      case TypeSymbol(Color, ListSctn) => Some("idColorArrayAppendStat")
      case TypeSymbol(Sound, ListSctn) => Some("idSoundArrayAppendStat")
      case _ => None)
    case ArrayClear => (
      match sym
      case TypeSymbol(Num, ListSctn) => Some("idNumArrayClearStat")
      case TypeSymbol(Str, ListSctn) => Some("idStrArrayClearStat")
      case TypeSymbol(Bool, ListSctn) => Some("idBoolArrayClearStat")
      case TypeSymbol(Color, ListSctn) => Some("idColorArrayClearStat")
      case TypeSymbol(Sound, ListSctn) => Some("idSoundArrayClearStat")
      case _ => None)
  }

  /** `getPathOfAnyTypeChildToBeMoved`: the paths listed for the node name, or nothing. */
  function PathOfAnyTypeChildToBeMoved(nodeName: string): (r: Option<seq<seq<string>>>)
    ensures r.Some? <==> exists op :: nodeName == AnyName(op) && op in {ArrayGet, ArrayInsert, ArrayRemove, ArraySet}
    ensures r.Some? ==> r.value == [["*", "Arg1", "*"]]
  {
    match NamedOp(nodeName)
    case None => None
    case Some(op) =>
      NamedOpOfName(op);
      ChildToBeMovedPaths(op)
  }

  /**
   * `getStaticTypeNodeID`: the static-type node id for the pair, or nothing
   * when the node name or the symbol name is not in the table.
   */
  function StaticTypeNodeId(anyTypeNodeName: string, typeDecisiveSymbolName: string): (r: Option<string>)
    ensures r.Some? <==>
      && NamedOp(anyTypeNodeName).Some? && NamedSymbol(typeDecisiveSymbolName).Some?
      && Accepts(NamedOp(anyTypeNodeName).value, NamedSymbol(typeDecisiveSymbolName).value.k)
    ensures r.Some? ==> TypeOfId(r.value) == Some(NamedSymbol(typeDecisiveSymbolName).value.t)
  {
    match (NamedOp(anyTypeNodeName), NamedSymbol(typeDecisiveSymbolName))
    case (Some(op), Some(sym)) =>
      StaticTypeEntries(op, sym.t, sym.k);
      if Accepts(op, sym.k) then
        StaticTypeIdNamesType(op, sym.t, sym.k);
        StaticTypeEntry(op, sym)
      else StaticTypeEntry(op, sym)
    case _ => None
  }

  /**
   * The symbol kinds each any-type node takes its type from: a value slot for
   * an assignment, a list slot for every list operation, a value slot too for
   * push, insert and set, and a class for the two getters.
   */
  predicate Accepts(op: AnyTypeOp, k: SymbolKind) {
    match op
    case Assign => k == ExpSctn
    case ArrayPush | ArrayInsert | ArraySet => k == ExpSctn || k == ListSctn
    case ArrayGet | ArrayGetLast => k == ListSctn || k == Class
    case ArrayPop | ArrayRemove | ArrayAppend | ArrayClear => k == ListSctn
  }

  /** Which pairs have an entry: exactly those whose symbol kind the node takes its type from. */
  lemma StaticTypeEntries(op: AnyTypeOp, t: DataType, k: SymbolKind)
    ensures StaticTypeEntry(op, TypeSymbol(t, k)).Some? <==> Accepts(op, k)
  {
  }

  /** Looked up by name, a pair of names gives the entry of the node and the symbol they name. */
  lemma StaticTypeNodeIdOfNames(op: AnyTypeOp, t: DataType, k: SymbolKind)
    ensures StaticTypeNodeId(AnyName(op), SymbolName(t, k)) == StaticTypeEntry(op, TypeSymbol(t, k))
    ensures StaticTypeNodeId(AnyName(op), SymbolName(t, k)).Some? <==> Accepts(op, k)
  {
    NamedOpOfName(op);
    NamedSymbolOfName(t, k);
    StaticTypeEntries(op, t, k);
  }

  /**
   * `getStaticTypeNodeID` gives nothing unless the two names are an any-type
   * node and a symbol of a kind that node takes its type from.
   */
  lemma StaticTypeNodeIdOnlyForKnownNames(anyTypeNodeName: string, typeDecisiveSymbolName: string)
    ensures StaticTypeNodeId(anyTypeNodeName, typeDecisiveSymbolName).Some? ==>
      exists op, t, k ::
        && anyTypeNodeName == AnyName(op) && typeDecisiveSymbolName == SymbolName(t, k) && Accepts(op, k)
  {
    if StaticTypeNodeId(anyTypeNodeName, typeDecisiveSymbolName).Some? {
      var op := NamedOp(anyTypeNodeName).value;
      var sym := NamedSymbol(typeDecisiveSymbolName).value;
      StaticTypeEntries(op, sym.t, sym.k);
    }
  }

  /**
   * The id depends on the data type alone, not on which kind of symbol
   * told it: a push fed by a number expression and one fed by a number
   * list become the same static-type node.
   */
  lemma StaticTypeIgnoresSymbolKind(op: AnyTypeOp, t: DataType, k1: SymbolKind, k2: SymbolKind)
    requires Accepts(op, k1) && Accepts(op, k2)
    ensures StaticTypeEntry(op, TypeSymbol(t, k1)) == StaticTypeEntry(op, TypeSymbol(t, k2))
  {
  }

  /** Reads the data type back from a static-type node id (`idNum…`, `idStr…`, …). */
  function TypeOfId(id: string): Option<DataType> {
    if |id| < 4 || id[0] != 'i' || id[1] != 'd' then None
    else if id[2] == 'N' then Some(Num)
    else if id[2] == 'B' then Some(Bool)
    else if id[2] == 'C' then Some(Color)
    else if id[2] == 'S' && id[3] == 't' then Some(Str)
    else if id[2] == 'S' then Some(Sound)
    else None
  }

  /**
   * Every id in the table carries the data type it was chosen for, so
   * different data types never share a static-type node.
   */
  lemma StaticTypeIdNamesType(op: AnyTypeOp, t: DataType, k: SymbolKind)
    requires Accepts(op, k)
    ensures StaticTypeEntry(op, TypeSymbol(t, k)).Some?
    ensures TypeOfId(StaticTypeEntry(op, TypeSymbol(t, k)).value) == Some(t)
  {
    if op in {Assign, ArrayPush, ArrayGet} {
      IdNamesTypeAssignPushGet(op, t, k);
    } else if op in {ArrayGetLast, ArrayPop, ArrayInsert} {
      IdNamesTypeGetLastPopInsert(op, t, k);
    } else {
      IdNamesTypeRemoveSetAppendClear(op, t, k);
    }
  }

  lemma IdNamesTypeAssignPushGet(op: AnyTypeOp, t: DataType, k: SymbolKind)
    requires op in {Assign, ArrayPush, ArrayGet} && Accepts(op, k)
    ensures StaticTypeEntry(op, TypeSymbol(t, k)).Some?
    ensures TypeOfId(StaticTypeEntry(op, TypeSymbol(t, k)).value) == Some(t)
  {
  }

  lemma IdNamesTypeGetLastPopInsert(op: AnyTypeOp, t: DataType, k: SymbolKind)
    requires op in {ArrayGetLast, ArrayPop, ArrayInsert} && Accepts(op, k)
    ensures StaticTypeEntry(op, TypeSymbol(t, k)).Some?
    ensures TypeOfId(StaticTypeEntry(op, TypeSymbol(t, k)).value) == Some(t)
  {
  }

  lemma IdNamesTypeRemoveSetAppendClear(op: AnyTypeOp, t: DataType, k: SymbolKind)
    requires op in {ArrayRemove, ArraySet, ArrayAppend, ArrayClear} && Accepts(op, k)
    ensures StaticTypeEntry(op, TypeSymbol(t, k)).Some?
    ensures TypeOfId(StaticTypeEntry(op, TypeSymbol(t, k)).value) == Some(t)
  {
  }

  /** Different data types give different static-type nodes. */
  lemma StaticTypeSeparatesTypes(op: AnyTypeOp, t1: DataType, t2: DataType, k: SymbolKind)
    requires Accepts(op, k) && t1 != t2
    ensures StaticTypeEntry(op, TypeSymbol(t1, k)) != StaticTypeEntry(op, TypeSymbol(t2, k))
  {
    StaticTypeIdNamesType(op, t1, k);
    StaticTypeIdNamesType(op, t2, k);
  }

  /** The first entry of the table, looked up by name. */
  lemma AssignOfNumberExpression()
    ensures StaticTypeNodeId("AnyAssignStat", "NumberExpSctn") == Some("idNumAssignStat")
  {
    StaticTypeNodeIdOfNames(Assign, Num, ExpSctn);
  }

  /**
   * Every node that has a child to move (get, insert, remove and set) also
   * has a static-type node for each list type, so the list it works on can
   * always be what fixes its type.
   */
  lemma MovedChildHasListSlots(nodeName: string)
    ensures PathOfAnyTypeChildToBeMoved(nodeName).Some? ==>
      forall t :: StaticTypeNodeId(nodeName, SymbolName(t, ListSctn)).Some?
  {
    if PathOfAnyTypeChildToBeMoved(nodeName).Some? {
      var op :| nodeName == AnyName(op) && op in {ArrayGet, ArrayInsert, ArrayRemove, ArraySet};
      forall t: DataType
        ensures StaticTypeNodeId(nodeName, SymbolName(t, ListSctn)).Some?
      {
        StaticTypeNodeIdOfNames(op, t, ListSctn);
      }
    }
  }

  // ---------------------------------------------------------------------------
  // Node edits

  /** A replacement survives the workspace bookkeeping that follows it. */
  lemma ChildReplacedKept(g0: Graph, o: NodeRef, n: NodeRef, h1: Graph, h2: Graph)
    requires Valid(g0) && o < |g0.nodes| && n < |g0.nodes| && IsChild(g0, o)
    requires ChildReplaced(g0, o, n, h1) && Valid(h2) && WsFieldsOnly(h1, h2) && |h2.wss| == |h1.wss|
    ensures ChildReplaced(g0, o, n, h2)
  {
    WsFieldsOnlyShape(h1, h2);
    if Linked(h1) {
      LinkedSameShape(h1, h2);
    }
  }

  /**
   * The state after the child `o` was replaced by `n` and then deleted: the
   * replacement holds, the links agree and `o` is gone from its workspace.
   */
  predicate ReplacedThenDeleted(g0: Graph, o: NodeRef, n: NodeRef, h: Graph)
    requires Valid(g0) && o < |g0.nodes| && n < |g0.nodes| && IsChild(g0, o)
  {
    ChildReplaced(g0, o, n, h) && Linked(h) && Gone(h, o)
  }

  /**
   * The state after deleting `o`, which was not a child so nothing replaced
   * it: only workspace bookkeeping changed, and `o` is gone from its workspace.
   */
  predicate DeletedAlone(g0: Graph, o: NodeRef, h: Graph)
    requires Valid(g0) && o < |g0.nodes|
  {
    && Valid(h) && Linked(h) && WsFieldsOnly(g0, h) && |h.wss| == |g0.wss|
    && Gone(h, o)
  }

  /**
   * `replaceChild(oldNode, newNode)` followed by `deleteNode(oldNode)`, the
   * pair of calls each edit below ends with.  A node that is not a child is
   * not replaced but is still deleted.  The model asks that `newNode` is not
   * a node that hangs below a deleted tree.
   */
  method ReplaceThenDelete(g: NodeGraph, f: NodeFactory, oldNode: NodeRef, newNode: NodeRef, ope: UserOperation)
    requires g.Valid() && Linked(g.G()) && oldNode < |g.nodes| && newNode < |g.nodes|
    requires IsChild(g.G(), oldNode) ==>
      oldNode != newNode && (g.nodes[newNode].parent.None? || IsChild(g.G(), newNode))
    modifies g, ope
    ensures g.Valid() && Extends(ope.subOps, old(ope.subOps))
    ensures old(IsChild(g.G(), oldNode)) ==> ReplacedThenDeleted(old(g.G()), oldNode, newNode, g.G())
    ensures !old(IsChild(g.G(), oldNode)) ==> DeletedAlone(old(g.G()), oldNode, g.G())
  {
    ghost var g0 := g.G();
    var _ := ReplaceChild(g, f, oldNode, newNode, ope);
    ghost var g1 := g.G();
    ghost var log1 := ope.subOps;
    var _ := DeleteNode(g, f, oldNode, ope);
    ExtendsTrans(ope.subOps, log1, old(ope.subOps));
    if IsChild(g0, oldNode) {
      ChildReplacedKept(g0, oldNode, newNode, g1, g.G());
    }
  }

  /**
   * `moveDescendant`: the node at the path below `from` takes the place of
   * the node at the same path below `to`, which is then deleted.
   * `childToBeMoved` and `oldNode` are what the two path lookups found.  A
   * missing `oldNode`, or a missing `childToBeMoved` while `oldNode` is a
   * child, makes the handler fail before it changes anything; the result is
   * then `false`.
   */
  method MoveDescendant(g: NodeGraph, f: NodeFactory, childToBeMoved: Option<NodeRef>, oldNode: Option<NodeRef>,
                        ope: UserOperation)
    returns (ok: bool)
    requires g.Valid() && Linked(g.G())
    requires RefOk(childToBeMoved, |g.nodes|) && RefOk(oldNode, |g.nodes|)
    requires oldNode.Some? && childToBeMoved.Some? && IsChild(g.G(), oldNode.value) ==>
      && oldNode.value != childToBeMoved.value
      && (g.nodes[childToBeMoved.value].parent.None? || IsChild(g.G(), childToBeMoved.value))
    modifies g, ope
    ensures g.Valid() && Extends(ope.subOps, old(ope.subOps))
    ensures !ok <==> oldNode.None? || (old(IsChild(g.G(), oldNode.value)) && childToBeMoved.None?)
    ensures !ok ==> g.G() == old(g.G()) && ope.subOps == old(ope.subOps)
    ensures ok && old(IsChild(g.G(), oldNode.value)) ==>
      ReplacedThenDeleted(old(g.G()), oldNode.value, childToBeMoved.value, g.G())
    ensures ok && !old(IsChild(g.G(), oldNode.value)) ==> DeletedAlone(old(g.G()), oldNode.value, g.G())
  {
    if oldNode.None? {
      return false;
    }
    var o := oldNode.value;
    if IsChild(g.G(), o) && childToBeMoved.None? {
      return false;
    }
    // Unused when `o` is not a child: `replaceChild` then returns at once.
    var n := if childToBeMoved.Some? then childToBeMoved.value else o;
    ReplaceThenDelete(g, f, o, n, ope);
    ok := true;
  }

  /**
   * `appendRemovedNode`: when the outer end of the new node (found by
   * `findOuterNode(-1)`) is a `void` node that `oldNode` may replace and the
   * old node was not removed by hand, `oldNode` takes the outer end's place
   * and the outer end is deleted.  Otherwise nothing happens.
   */
  method AppendRemovedNode(g: NodeGraph, f: NodeFactory, outerEnd: NodeRef, outerEndIsVoid: bool,
                           canReplace: bool, manuallyRemoved: bool, oldNode: NodeRef, ope: UserOperation)
    returns (appended: bool)
    requires g.Valid() && Linked(g.G()) && outerEnd < |g.nodes| && oldNode < |g.nodes|
    requires outerEndIsVoid && canReplace && !manuallyRemoved && IsChild(g.G(), outerEnd) ==>
      outerEnd != oldNode && (g.nodes[oldNode].parent.None? || IsChild(g.G(), oldNode))
    modifies g, ope
    ensures g.Valid() && Extends(ope.subOps, old(ope.subOps))
    ensures appended <==> outerEndIsVoid && canReplace && !manuallyRemoved
    ensures !appended ==> g.G() == old(g.G()) && ope.subOps == old(ope.subOps)
    ensures appended && old(IsChild(g.G(), outerEnd)) ==> ReplacedThenDeleted(old(g.G()), outerEnd, oldNode, g.G())
    ensures appended && !old(IsChild(g.G(), outerEnd)) ==> DeletedAlone(old(g.G()), outerEnd, g.G())
  {
    appended := outerEndIsVoid && canReplace && !manuallyRemoved;
    if appended {
      ReplaceThenDelete(g, f, outerEnd, oldNode, ope);
    }
  }

  /** Why `replaceStatWithNewStat` stopped. */
  datatype StatExchangeError =
    | NextStatNotFound
    | FirstExchangeFailed(e: ExchangeError)
    | SecondExchangeFailed(e: ExchangeError)

  /**
   * `replaceStatWithNewStat`: the statements that follow `oldStat` and
   * `newStat` (what `findSymbolInDescendants('*', 'NextStat', '*')` found)
   * are exchanged, then the two statements themselves.  A missing next
   * statement, or a failed first exchange, stops it before anything changed;
   * a failed second exchange leaves the first one done.  `mid` is the state
   * between the two exchanges.
   */
  method ReplaceStatWithNewStat(g: NodeGraph, f: NodeFactory, oldStat: NodeRef, newStat: NodeRef,
                                nextOfOld: Option<NodeRef>, nextOfNew: Option<NodeRef>, ope: UserOperation)
    returns (r: Result<(ExchangePlan, ExchangePlan), StatExchangeError>, ghost mid: Graph)
    requires g.Valid() && Linked(g.G()) && oldStat < |g.nodes| && newStat < |g.nodes|
    requires RefOk(nextOfOld, |g.nodes|) && RefOk(nextOfNew, |g.nodes|)
    modifies g, ope
    ensures g.Valid() && Extends(ope.subOps, old(ope.subOps))
    ensures r == Err(NextStatNotFound) <==> nextOfOld.None? || nextOfNew.None?
    ensures r.Err? && r.error.FirstExchangeFailed? <==>
      nextOfOld.Some? && nextOfNew.Some? && old(ExchangeCheck(g.G(), nextOfOld.value, nextOfNew.value)).Some?
    ensures r.Err? && !r.error.SecondExchangeFailed? ==> g.G() == old(g.G()) && ope.subOps == old(ope.subOps)
    ensures r.Err? && r.error.FirstExchangeFailed? ==>
      r.error.e == old(ExchangeCheck(g.G(), nextOfOld.value, nextOfNew.value)).value
    ensures r.Ok? || (r.Err? && r.error.SecondExchangeFailed?) ==>
      && nextOfOld.Some? && nextOfNew.Some?
      && old(ExchangeCheck(g.G(), nextOfOld.value, nextOfNew.value)).None?
      && var p1 := old(ExchangePlanOf(g.G(), nextOfOld.value, nextOfNew.value));
      && old(PlanFits(g.G(), p1)) && Exchanged(old(g.G()), p1, mid)
      && oldStat < |mid.nodes| && newStat < |mid.nodes|
      && (r.Ok? <==> ExchangeCheck(mid, oldStat, newStat).None?)
    ensures r.Err? && r.error.SecondExchangeFailed? ==>
      g.G() == mid && r.error.e == ExchangeCheck(mid, oldStat, newStat).value
    ensures r.Ok? ==>
      && r.value.0 == old(ExchangePlanOf(g.G(), nextOfOld.value, nextOfNew.value))
      && ExchangeCheck(mid, oldStat, newStat).None?
      && r.value.1 == ExchangePlanOf(mid, oldStat, newStat)
      && PlanFits(mid, r.value.1) && Exchanged(mid, r.value.1, g.G())
  {
    mid := g.G();
    if nextOfOld.None? || nextOfNew.None? {
      return Err(NextStatNotFound), mid;
    }
    var first := ExchangeNodes(g, f, nextOfOld.value, nextOfNew.value, ope);
    if first.Err? {
      return Err(FirstExchangeFailed(first.error)), mid;
    }
    mid := g.G();
    ghost var log1 := ope.subOps;
    var second := ExchangeNodes(g, f, oldStat, newStat, ope);
    ExtendsTrans(ope.subOps, log1, old(ope.subOps));
    if second.Err? {
      return Err(SecondExchangeFailed(second.error)), mid;
    }
    r := Ok((first.value, second.value));
  }
}
