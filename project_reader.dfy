/**
 * Restoring a saved project (`JsonProjectReader`): the save data version
 * check, the per-node checks made while the node trees are rebuilt from their
 * images (unknown template ids, incompatible node versions, corruption flags,
 * duplicated or missing instance ids), the warnings they collect, and the
 * merge of extra warnings into a finished result.
 *
 * JSON parsing, the views, `Workspace` creation and placement, text and
 * breakpoint restoration, derivative assignment and the warning message text
 * are not part of this model.  The node templates the factory knows are a
 * parameter, and a created node is identified by a fresh number.
 */
module ProjectReader {
  import opened Wrappers
  import opened Ids

  /** A version: a prefix naming the format, and major and minor numbers. */
  datatype Version = Version(prefix: string, major: int, minor: int)

  /** `InstanceId`: the id a node image carries, or the reserved `NONE`. */
  datatype InstanceId = NoneId | Id(value: string)

  type ConnectorId = string

  /** `ImportWarning`. */
  datatype ImportWarning =
    | UnknownBhNodeId
    | IncompatibleBhNodeVersion
    | ConnectorNotFound
    | DerivativeNotFound
    | CorruptedNode

  /** The exceptions that abort a load. */
  datatype LoadError =
    | IncompatibleSaveFormat(version: Option<Version>)
    | DuplicatedInstanceId(id: InstanceId)
    | InvalidInstanceId

  /** `BhNodeImage` and `ConnectorImage`: a saved node and its saved slots. */
  datatype NodeImage = NodeImage(
    nodeId: BhNodeId,
    instanceId: InstanceId,
    version: Version,
    isCorrupted: bool,
    children: seq<ConnectorImage>)

  datatype ConnectorImage = ConnectorImage(connectorId: ConnectorId, connectedNode: NodeImage)

  /** `WorkspaceImage` and `ProjectImage`, as far as the checks read them. */
  datatype WorkspaceImage = WorkspaceImage(name: string, rootNodes: seq<NodeImage>)

  datatype ProjectImage = ProjectImage(saveDataVersion: Option<Version>, workspaces: seq<WorkspaceImage>)

  /**
   * What the node factory knows of the templates: which ids it can create,
   * the version of a created node, whether the node has slots, and the ids of
   * the slots `findConnector` can find under it.
   */
  datatype Templates = Templates(
    known: set<BhNodeId>,
    versionOf: BhNodeId -> Version,
    connective: set<BhNodeId>,
    connectorsOf: BhNodeId -> set<ConnectorId>)

  /**
   * `checkSaveDataVersion`: the save data must carry a version with the
   * supported prefix and major number and a minor number no newer than the
   * supported one.
   */
  function CheckSaveDataVersion(version: Option<Version>, supported: Version): (r: Result<(), LoadError>)
    ensures r.Ok? <==>
      version.Some? && version.value.prefix == supported.prefix && version.value.major == supported.major
      && version.value.minor <= supported.minor
    ensures r.Err? ==> r.error == IncompatibleSaveFormat(version)
  {
    if version.None? || version.value.prefix != supported.prefix || version.value.major != supported.major
       || version.value.minor > supported.minor
    then Err(IncompatibleSaveFormat(version))
    else Ok(())
  }

  /**
   * The supported version itself is accepted, and an accepted version stays
   * accepted when its minor number goes down.
   */
  lemma SaveDataVersionOrder(v: Version, w: Version, supported: Version)
    ensures CheckSaveDataVersion(Some(supported), supported).Ok?
    ensures (CheckSaveDataVersion(Some(v), supported).Ok? && w.prefix == v.prefix && w.major == v.major
             && w.minor <= v.minor) ==> CheckSaveDataVersion(Some(w), supported).Ok?
  {
  }

  /**
   * The compatibility test of `checkNodeVersionCompatibility`: same prefix and
   * major number, and the image's minor number no newer than the node's.
   */
  function NodeVersionCompatible(imageVer: Version, nodeVer: Version): (r: bool)
    ensures r <==> imageVer.prefix == nodeVer.prefix && imageVer.major == nodeVer.major && imageVer.minor <= nodeVer.minor
  {
    !(imageVer.prefix != nodeVer.prefix || imageVer.major != nodeVer.major || imageVer.minor > nodeVer.minor)
  }

  /** A node's own version is compatible with itself, and compatibility is transitive. */
  lemma NodeVersionCompatibleOrder(a: Version, b: Version, c: Version)
    ensures NodeVersionCompatible(a, a)
    ensures NodeVersionCompatible(a, b) && NodeVersionCompatible(b, c) ==> NodeVersionCompatible(a, c)
  {
  }

  /**
   * `checkNodeImageInstanceId`: an id another image of the save data already
   * used, or the reserved `NONE`, aborts the load.
   */
  function CheckInstanceId(used: set<InstanceId>, id: InstanceId): (r: Result<(), LoadError>)
    ensures r.Ok? <==> id !in used && id != NoneId
    ensures r.Err? && id in used ==> r.error == DuplicatedInstanceId(id)
    ensures r.Err? && id !in used ==> r.error == InvalidInstanceId
  {
    if id in used then Err(DuplicatedInstanceId(id))
    else if id == NoneId then Err(InvalidInstanceId)
    else Ok(())
  }

  /** `JsonProjectReader.Result`, without the views and the file path. */
  datatype ImportResult = ImportResult(
    workspaces: seq<seq<NodeRef>>,
    instanceIdToNode: map<InstanceId, NodeRef>,
    warnings: set<ImportWarning>,
    cnctrNotFound: seq<(NodeRef, ConnectorId)>,
    unknownNodeIds: seq<BhNodeId>,
    incompatibleNodes: seq<(NodeRef, Version, Version)>,
    warningMsg: string)

  function SetOf(ws: seq<ImportWarning>): set<ImportWarning> {
    set w | w in ws
  }

  /**
   * The `Result(result, additionalWarningMsg, additionalWarnings...)`
   * constructor: the warnings are the union of the old and the additional
   * ones, the message is the old message followed by the additional one, and
   * everything else is kept.
   */
  function WithWarnings(result: ImportResult, additionalMsg: string, additional: seq<ImportWarning>): (r: ImportResult)
    ensures r.warnings == result.warnings + SetOf(additional)
    ensures r.warningMsg == result.warningMsg + additionalMsg
    ensures r.workspaces == result.workspaces && r.instanceIdToNode == result.instanceIdToNode
    ensures r.cnctrNotFound == result.cnctrNotFound && r.unknownNodeIds == result.unknownNodeIds
    ensures r.incompatibleNodes == result.incompatibleNodes
  {
    result.(warnings := result.warnings + SetOf(additional), warningMsg := result.warningMsg + additionalMsg)
  }

  /** Merging twice is merging once with the messages and warnings joined in order. */
  lemma WithWarningsTwice(result: ImportResult, m1: string, w1: seq<ImportWarning>, m2: string, w2: seq<ImportWarning>)
    ensures WithWarnings(WithWarnings(result, m1, w1), m2, w2) == WithWarnings(result, m1 + m2, w1 + w2)
  {
    assert SetOf(w1 + w2) == SetOf(w1) + SetOf(w2);
    assert result.warningMsg + m1 + m2 == result.warningMsg + (m1 + m2);
  }

  /** The loader: what it has restored so far and the warnings it has collected. */
  class JsonProjectReader {
    var warnings: set<ImportWarning>
    var instIdToNode: map<InstanceId, NodeRef>
    var unknownNodeIds: seq<BhNodeId>
    var incompatibleNodes: seq<(NodeRef, Version, Version)>
    var corruptedNodes: seq<NodeRef>
    var cnctrNotFound: seq<(NodeRef, ConnectorId)>
    /** The slot connections made: parent, child and slot id. */
    var connections: seq<(NodeRef, NodeRef, ConnectorId)>
    /** The identity the next created node gets. */
    var nextNode: NodeRef

    /**
     * Each list of problems is non-empty exactly when its warning was raised,
     * no restored node carries the reserved instance id, and every restored
     * node was created by this load.
     */
    predicate Valid()
      reads this
    {
      && (UnknownBhNodeId in warnings <==> unknownNodeIds != [])
      && (IncompatibleBhNodeVersion in warnings <==> incompatibleNodes != [])
      && (CorruptedNode in warnings <==> corruptedNodes != [])
      && (ConnectorNotFound in warnings <==> cnctrNotFound != [])
      && DerivativeNotFound !in warnings
      && NoneId !in instIdToNode
      && (forall id | id in instIdToNode :: instIdToNode[id] < nextNode)
    }

    /** Grows only: nothing recorded is lost and restored ids keep their nodes. */
    twostate predicate Grown()
      reads this
    {
      && old(warnings) <= warnings
      && old(nextNode) <= nextNode
      && (forall id | id in old(instIdToNode) :: id in instIdToNode && instIdToNode[id] == old(instIdToNode)[id])
    }

    constructor()
      ensures Valid()
      ensures warnings == {} && instIdToNode == map[] && nextNode == 0
      ensures unknownNodeIds == [] && incompatibleNodes == [] && corruptedNodes == []
      ensures cnctrNotFound == [] && connections == []
    {
      warnings := {};
      instIdToNode := map[];
      unknownNodeIds := [];
      incompatibleNodes := [];
      corruptedNodes := [];
      cnctrNotFound := [];
      connections := [];
      nextNode := 0;
    }

    /** `canCreateNodeOf`: an unknown template id is recorded with its warning. */
    method CanCreateNodeOf(image: NodeImage, t: Templates) returns (canCreate: bool)
      requires Valid()
      modifies this
      ensures Valid() && Grown()
      ensures canCreate <==> image.nodeId in t.known
      ensures canCreate ==> warnings == old(warnings) && unknownNodeIds == old(unknownNodeIds)
      ensures !canCreate ==>
        warnings == old(warnings) + {UnknownBhNodeId} && unknownNodeIds == old(unknownNodeIds) + [image.nodeId]
      ensures instIdToNode == old(instIdToNode) && nextNode == old(nextNode)
      ensures incompatibleNodes == old(incompatibleNodes) && corruptedNodes == old(corruptedNodes)
      ensures cnctrNotFound == old(cnctrNotFound) && connections == old(connections)
    {
      canCreate := image.nodeId in t.known;
      if !canCreate {
        warnings := warnings + {UnknownBhNodeId};
        unknownNodeIds := unknownNodeIds + [image.nodeId];
      }
    }

    /**
     * `checkNodeVersionCompatibility`: an incompatible node is recorded with
     * the image's and the node's versions and its warning; the node is kept.
     */
    method CheckNodeVersionCompatibility(image: NodeImage, node: NodeRef, nodeVer: Version) returns (isCompatible: bool)
      requires Valid()
      modifies this
      ensures Valid() && Grown()
      ensures isCompatible == NodeVersionCompatible(image.version, nodeVer)
      ensures isCompatible ==> warnings == old(warnings) && incompatibleNodes == old(incompatibleNodes)
      ensures !isCompatible ==>
        && warnings == old(warnings) + {IncompatibleBhNodeVersion}
        && incompatibleNodes == old(incompatibleNodes) + [(node, image.version, nodeVer)]
      ensures instIdToNode == old(instIdToNode) && nextNode == old(nextNode)
      ensures unknownNodeIds == old(unknownNodeIds) && corruptedNodes == old(corruptedNodes)
      ensures cnctrNotFound == old(cnctrNotFound) && connections == old(connections)
    {
      isCompatible := NodeVersionCompatible(image.version, nodeVer);
      if !isCompatible {
        warnings := warnings + {IncompatibleBhNodeVersion};
        incompatibleNodes := incompatibleNodes + [(node, image.version, nodeVer)];
      }
    }

    /** `checkIfCorrupted`: a node whose image is flagged corrupted is recorded with its warning. */
    method CheckIfCorrupted(image: NodeImage, node: NodeRef)
      requires Valid()
      modifies this
      ensures Valid() && Grown()
      ensures corruptedNodes == old(corruptedNodes) + if image.isCorrupted then [node] else []
      ensures warnings == old(warnings) + if image.isCorrupted then {CorruptedNode} else {}
      ensures instIdToNode == old(instIdToNode) && nextNode == old(nextNode)
      ensures unknownNodeIds == old(unknownNodeIds) && incompatibleNodes == old(incompatibleNodes)
      ensures cnctrNotFound == old(cnctrNotFound) && connections == old(connections)
    {
      if image.isCorrupted {
        warnings := warnings + {CorruptedNode};
        corruptedNodes := corruptedNodes + [node];
      }
    }

    /**
     * `connectChild`: connects `child` under `parent` when the parent's
     * template has the slot, and otherwise records the missing slot.
     */
    method ConnectChild(parent: NodeRef, parentId: BhNodeId, child: NodeRef, id: ConnectorId, t: Templates)
        returns (found: bool)
      requires Valid()
      modifies this
      ensures Valid() && Grown()
      ensures found <==> id in t.connectorsOf(parentId)
      ensures found ==>
        connections == old(connections) + [(parent, child, id)]
        && warnings == old(warnings) && cnctrNotFound == old(cnctrNotFound)
      ensures !found ==>
        connections == old(connections)
        && warnings == old(warnings) + {ConnectorNotFound} && cnctrNotFound == old(cnctrNotFound) + [(parent, id)]
      ensures instIdToNode == old(instIdToNode) && nextNode == old(nextNode)
      ensures unknownNodeIds == old(unknownNodeIds) && incompatibleNodes == old(incompatibleNodes)
      ensures corruptedNodes == old(corruptedNodes)
    {
      found := id in t.connectorsOf(parentId);
      if found {
        connections := connections + [(parent, child, id)];
      } else {
        warnings := warnings + {ConnectorNotFound};
        cnctrNotFound := cnctrNotFound + [(parent, id)];
      }
    }

    /**
     * `createBhNode`: restores the node of `image` and, through
     * `buildDescendant`, its descendants.  An unknown template id gives no node
     * and skips the whole subtree; a duplicated or reserved instance id anywhere
     * in the tree aborts.  A restored node is registered under its instance id.
     */
    method CreateBhNode(image: NodeImage, t: Templates) returns (r: Result<Option<NodeRef>, LoadError>)
      requires Valid()
      modifies this
      ensures Valid() && Grown()
      ensures r.Ok? && r.value.None? <==> image.nodeId !in t.known
      ensures image.nodeId !in t.known ==>
        && warnings == old(warnings) + {UnknownBhNodeId} && unknownNodeIds == old(unknownNodeIds) + [image.nodeId]
        && instIdToNode == old(instIdToNode) && nextNode == old(nextNode)
      ensures r.Ok? && r.value.Some? ==>
        && old(nextNode) <= r.value.value < nextNode
        && image.instanceId !in old(instIdToNode)
        && image.instanceId in instIdToNode && instIdToNode[image.instanceId] == r.value.value
      ensures r.Err? ==> r.error.DuplicatedInstanceId? || r.error.InvalidInstanceId?
      decreases image
    {
      var canCreate := CanCreateNodeOf(image, t);
      if !canCreate {
        return Ok(None);
      }
      var node := nextNode;
      nextNode := nextNode + 1;
      var _ := CheckNodeVersionCompatibility(image, node, t.versionOf(image.nodeId));
      CheckIfCorrupted(image, node);
      var built := BuildDescendant(image, node, t);
      if built.Err? {
        return Err(built.error);
      }
      var checked := CheckInstanceId(instIdToNode.Keys, image.instanceId);
      if checked.Err? {
        return Err(checked.error);
      }
      instIdToNode := instIdToNode[image.instanceId := node];
      return Ok(Some(node));
    }

    /** `buildDescendant`: restores the child of every saved slot of `image` and connects it under `node`. */
    method BuildDescendant(image: NodeImage, node: NodeRef, t: Templates) returns (r: Result<(), LoadError>)
      requires Valid() && node < nextNode
      modifies this
      ensures Valid() && Grown()
      ensures r.Err? ==> r.error.DuplicatedInstanceId? || r.error.InvalidInstanceId?
      decreases image, 0
    {
      var i := 0;
      while i < |image.children|
        invariant 0 <= i <= |image.children|
        invariant Valid() && Grown() && node < nextNode
      {
        assert image.children[i] in image.children;
        var child := CreateBhNode(image.children[i].connectedNode, t);
        if child.Err? {
          return Err(child.error);
        }
        if child.value.Some? && image.nodeId in t.connective {
          var _ := ConnectChild(node, image.nodeId, child.value.value, image.children[i].connectorId, t);
        }
        i := i + 1;
      }
      return Ok(());
    }

    /**
     * `genProject`: checks the save data version, then restores the root
     * nodes of every workspace image, in order.  A refused version aborts
     * before anything is restored.
     */
    method GenProject(project: ProjectImage, supported: Version, t: Templates) returns (r: Result<seq<seq<NodeRef>>, LoadError>)
      requires Valid()
      modifies this
      ensures Valid() && Grown()
      ensures CheckSaveDataVersion(project.saveDataVersion, supported).Err? ==>
        r == Err(IncompatibleSaveFormat(project.saveDataVersion)) && instIdToNode == old(instIdToNode)
        && warnings == old(warnings) && nextNode == old(nextNode)
      ensures r.Ok? ==>
        |r.value| == |project.workspaces|
        && (forall k, n | 0 <= k < |r.value| && n in r.value[k] :: old(nextNode) <= n < nextNode)
    {
      var checked := CheckSaveDataVersion(project.saveDataVersion, supported);
      if checked.Err? {
        return Err(checked.error);
      }
      var wsList: seq<seq<NodeRef>> := [];
      var k := 0;
      while k < |project.workspaces|
        invariant 0 <= k <= |project.workspaces| && |wsList| == k
        invariant Valid() && Grown()
        invariant forall j, n | 0 <= j < k && n in wsList[j] :: old(nextNode) <= n < nextNode
      {
        var roots := GenWorkspace(project.workspaces[k], t);
        if roots.Err? {
          return Err(roots.error);
        }
        wsList := wsList + [roots.value];
        k := k + 1;
      }
      return Ok(wsList);
    }

    /** `genWorkspace`: the restored root nodes of one workspace image, in image order. */
    method GenWorkspace(wsImage: WorkspaceImage, t: Templates) returns (r: Result<seq<NodeRef>, LoadError>)
      requires Valid()
      modifies this
      ensures Valid() && Grown()
      ensures r.Ok? ==> |r.value| <= |wsImage.rootNodes| && (forall n | n in r.value :: old(nextNode) <= n < nextNode)
      ensures r.Ok? ==> forall n | n in r.value :: exists id | id in instIdToNode :: instIdToNode[id] == n
    {
      var roots: seq<NodeRef> := [];
      var i := 0;
      while i < |wsImage.rootNodes|
        invariant 0 <= i <= |wsImage.rootNodes| && |roots| <= i
        invariant Valid() && Grown()
        invariant forall n | n in roots :: old(nextNode) <= n < nextNode
        invariant forall n | n in roots :: exists id | id in instIdToNode :: instIdToNode[id] == n
      {
        var root := CreateBhNode(wsImage.rootNodes[i], t);
        if root.Err? {
          return Err(root.error);
        }
        if root.value.Some? {
          roots := roots + [root.value.value];
        }
        i := i + 1;
      }
      return Ok(roots);
    }
  }
}
