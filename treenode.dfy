/**
 * A node of a predictive tree as an object: its id, parent, road node,
 * probability, distance to the root and its list of children. The older
 * revision's `TreeNode` has the same fields and operations, except that its
 * clone keeps the original parent and it has no `RemoveChild`.
 */
module TreeNodes {
  import opened RoadGraph

  class TreeNode {
    var id: int
    var parent: TreeNode?
    var node: RoadNetworkNode?
    var probability: real
    var distanceToRoot: real
    var children: seq<TreeNode>

    /** The parameterless constructor: id 0, no parent, no road node, probability 0, no children. */
    constructor()
      ensures id == 0 && parent == null && node == null
      ensures probability == 0.0 && distanceToRoot == 0.0 && children == []
    {
      id := 0;
      parent := null;
      node := null;
      probability := 0.0;
      distanceToRoot := 0.0;
      children := [];
    }

    /** A node for road node `n`: its id and the road node, probability 0, no children. */
    constructor FromRoadNode(n: RoadNetworkNode)
      ensures id == n.id && node == n && parent == null
      ensures probability == 0.0 && distanceToRoot == 0.0 && children == []
    {
      id := n.id;
      node := n;
      parent := null;
      probability := 0.0;
      distanceToRoot := 0.0;
      children := [];
    }

    /** Some child has id `x`. */
    predicate HasChildWithId(x: int)
      reads this, children
    {
      exists i :: 0 <= i < |children| && children[i].id == x
    }

    /** `Equals`: two nodes are equal when their ids are. */
    predicate SameNode(t: TreeNode)
      reads this, t
    {
      id == t.id
    }

    /** `GetHashCode`: the hash of the id. */
    function HashCode(): int
      reads this
    {
      id
    }

    /** Equal nodes hash alike, and equality is the id comparison in both directions. */
    lemma EqualsAgreesWithHash(t: TreeNode)
      ensures SameNode(t) <==> HashCode() == t.HashCode()
      ensures SameNode(t) <==> t.SameNode(this)
    {
    }

    /** Appends `ti`, which must already name this node as its parent and must be a new id among the children. */
    method AddChild(ti: TreeNode)
      requires ti.parent != null && ti.parent.id == id
      requires !HasChildWithId(ti.id)
      modifies this
      ensures children == old(children) + [ti]
      ensures id == old(id) && parent == old(parent) && node == old(node)
      ensures probability == old(probability) && distanceToRoot == old(distanceToRoot)
    {
      children := children + [ti];
    }

    /**
     * `RemoveChild`: drops the first child equal to `ti` (same id) and
     * clears `ti`'s parent. `ti` must be parented here and present.
     */
    method RemoveChild(ti: TreeNode)
      requires ti.parent != null && ti.parent.id == id
      requires HasChildWithId(ti.id)
      modifies this, ti
      ensures ti.parent == null
      ensures exists i :: 0 <= i < |old(children)| && old(children)[i].id == ti.id
                && (forall j :: 0 <= j < i ==> old(children)[j].id != ti.id)
                && children == old(children)[..i] + old(children)[i + 1..]
      ensures id == old(id) && node == old(node)
      ensures probability == old(probability) && distanceToRoot == old(distanceToRoot)
      ensures ti != this ==> parent == old(parent)
      ensures ti != this ==> ti.id == old(ti.id) && ti.node == old(ti.node) && ti.children == old(ti.children)
      ensures ti != this ==> ti.probability == old(ti.probability) && ti.distanceToRoot == old(ti.distanceToRoot)
    {
      var i := 0;
      while children[i].id != ti.id
        invariant 0 <= i < |children|
        invariant forall j :: 0 <= j < i ==> children[j].id != ti.id
        invariant HasChildWithId(ti.id)
        decreases |children| - i
      {
        i := i + 1;
      }
      children := children[..i] + children[i + 1..];
      ti.parent := null;
    }

    /** `GetNextTreeNode`: the first child with id `nextNodeId`, or null when there is none. */
    method GetNextTreeNode(nextNodeId: int) returns (r: TreeNode?)
      ensures r == null <==> !HasChildWithId(nextNodeId)
      ensures r != null ==> exists i :: 0 <= i < |children| && children[i] == r && r.id == nextNodeId
                              && forall j :: 0 <= j < i ==> children[j].id != nextNodeId
    {
      var i := 0;
      while i < |children|
        invariant 0 <= i <= |children|
        invariant forall j :: 0 <= j < i ==> children[j].id != nextNodeId
      {
        if children[i].id == nextNodeId {
          return children[i];
        }
        i := i + 1;
      }
      return null;
    }

    /** `Clone(parent)`: a new childless node with this node's id, distance, road node and probability under `newParent`. */
    method Clone(newParent: TreeNode?) returns (c: TreeNode)
      ensures fresh(c)
      ensures c.id == id && c.distanceToRoot == distanceToRoot && c.node == node && c.probability == probability
      ensures c.parent == newParent && c.children == []
    {
      c := new TreeNode();
      c.id := id;
      c.distanceToRoot := distanceToRoot;
      c.node := node;
      c.parent := newParent;
      c.probability := probability;
    }

    /** The older revision's `Clone()`: the same copy, keeping the original parent reference. */
    method CloneKeepingParent() returns (c: TreeNode)
      ensures fresh(c)
      ensures c.id == id && c.distanceToRoot == distanceToRoot && c.node == node && c.probability == probability
      ensures c.parent == parent && c.children == []
    {
      c := Clone(parent);
    }
  }
}
