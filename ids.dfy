/**
 * Object identities of the editor's mutable entities.  Nodes, connectors and
 * workspaces live in one arena (`NodeGraphs.NodeGraph`), and a reference to one
 * of them is its index there; two references are the same object exactly when
 * they are equal, as with Java's `==` on objects.
 */
module Ids {
  /** A `BhNode`. */
  type NodeRef = nat
  /** A `Connector`: a slot of a node that holds one child. */
  type CnctrRef = nat
  /** A `Workspace`. */
  type WsRef = nat
  /** `BhNodeId`: the id of the node template a node is created from. */
  type BhNodeId = string

  /** `BhNode.Swapped`: a node and the node that took its place. */
  datatype Swapped = Swapped(oldNode: NodeRef, newNode: NodeRef)
}
