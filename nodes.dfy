/**
 * A tree node as a heap object. One class serves both kinds of node: a leaf
 * (keys, one value list per key, and `next`/`prev` links into the circular
 * chain of leaves) and an internal node (separator keys and children). Each
 * method edits the fields in place and is proved to leave them exactly as the
 * matching function of `LeafNodes` or `InternalNodes` describes.
 */
module Nodes {
  import opened Wrappers
  import opened SortedSeqs
  import LeafNodes
  import InternalNodes

  class Node {
    const leaf: bool
    var keys: seq<int>
    /** Leaves only: `values[i]` is the list stored for `keys[i]`. */
    var values: seq<seq<int>>
    /** Internal nodes only. */
    var children: seq<Node>
    /** Leaves only: neighbours in the circular chain of leaves. */
    var next: Node?
    var prev: Node?

    /** A leaf's contents as a value. */
    function LeafContents(): LeafNodes.LeafData
      reads this
    {
      LeafNodes.LeafData(keys, values)
    }

    /** An internal node's contents as a value. */
    function InternalContents(): InternalNodes.InternalData<Node>
      reads this
    {
      InternalNodes.InternalData(keys, children)
    }

    /** `LeafNode()`: an empty leaf that is its own neighbour on both sides. */
    constructor Leaf()
      ensures leaf && keys == [] && values == [] && children == []
      ensures next == this && prev == this
    {
      leaf := true;
      keys := [];
      values := [];
      children := [];
      next := this;
      prev := this;
    }

    /** `InternalNode()`: an empty internal node. */
    constructor Internal()
      ensures !leaf && keys == [] && values == [] && children == []
      ensures next == null && prev == null
    {
      leaf := false;
      keys := [];
      values := [];
      children := [];
      next := null;
      prev := null;
    }

    /** `LeafNode::getValues`. */
    method GetValues(key: int) returns (r: Option<seq<int>>)
      requires leaf && |values| == |keys|
      ensures r == LeafNodes.GetValues(LeafContents(), key)
    {
      var low := LowerBound(keys, key);
      if low < |keys| && key == keys[low] {
        r := Some(values[low]);
      } else {
        r := None;
      }
    }

    /** `LeafNode::insert(key, value)`. */
    method LeafInsert(key: int, value: int)
      requires leaf && |values| == |keys|
      modifies this`keys, this`values
      ensures LeafContents() == LeafNodes.Insert(old(LeafContents()), key, value)
    {
      var found := GetValues(key);
      if found.Some? {
        // the list returned by getValues is the one in the lower-bound slot
        var low := LowerBound(keys, key);
        values := values[low := found.value + [value]];
      } else {
        var low := LowerBound(keys, key);
        keys := keys[..low] + [key] + keys[low..];
        values := values + [[value]];
      }
    }

    /**
     * `LeafNode::split`: keeps the first half, moves the second half into a
     * fresh leaf and splices that leaf into the chain right after this one.
     */
    method LeafSplit() returns (right: Node, keyToParent: int)
      requires leaf && |values| == |keys| && |keys| >= 1 && next != null
      modifies this`keys, this`values, this`next, next`prev
      ensures fresh(right) && right.leaf && right.children == []
      ensures var s := LeafNodes.Split(old(LeafContents()));
              LeafContents() == s.left && right.LeafContents() == s.right && keyToParent == s.keyToParent
      ensures right.prev == this && right.next == old(next) && next == right
      ensures old(next).prev == right
      ensures old(next) != this ==> prev == old(prev)
    {
      var length := |keys|;
      right := new Node.Leaf();
      keyToParent := keys[length / 2];

      right.keys := keys[length / 2..];
      keys := keys[..length / 2];
      right.values := values[length / 2..];
      values := values[..length / 2];

      right.prev := this;
      right.next := this.next;
      this.next := right;
      right.next.prev := right;
    }

    /** `LeafNode::update(key, values)`, the revision that stores a copy of the list. */
    method LeafUpdate(key: int, vs: seq<int>)
      requires leaf && |values| == |keys|
      modifies this`values
      ensures LeafContents() == LeafNodes.Update(old(LeafContents()), key, vs)
    {
      var low := LowerBound(keys, key);
      if low < |keys| && key == keys[low] {
        values := values[low := vs];
      }
    }

    /** `InternalNode::insert(key, right)`. */
    method InsertChild(key: int, right: Node)
      requires !leaf && |children| == |keys| + 1
      modifies this`keys, this`children
      ensures InternalContents() == InternalNodes.InsertChild(old(InternalContents()), key, right)
    {
      var low := LowerBound(keys, key);
      LowerBoundOfInserted(keys, key);
      keys := keys[..low] + [key] + keys[low..];
      low := LowerBound(keys, key);
      children := children[..low + 1] + [right] + children[low + 1..];
    }

    /** `InternalNode::insert(key, left, right)`, used on a fresh node to build a new root. */
    method InsertRoot(key: int, left: Node, right: Node)
      requires !leaf
      modifies this`keys, this`children
      ensures InternalContents() == InternalNodes.InsertRoot(old(InternalContents()), key, left, right)
    {
      keys := keys + [key];
      children := children + [left, right];
    }

    /**
     * `InternalNode::split`: keeps the keys before the middle one and the
     * children on their side, moves the keys after it and the remaining
     * children into a fresh internal node.
     */
    method InternalSplit() returns (right: Node, keyToParent: int)
      requires !leaf && |keys| >= 1 && |children| == |keys| + 1
      modifies this`keys, this`children
      ensures fresh(right) && !right.leaf && right.values == [] && right.next == null && right.prev == null
      ensures var s := InternalNodes.Split(old(InternalContents()));
              InternalContents() == s.left && right.InternalContents() == s.right && keyToParent == s.keyToParent
    {
      var length := |keys|;
      right := new Node.Internal();
      keyToParent := keys[length / 2];

      right.keys := keys[length / 2 + 1..];
      keys := keys[..length / 2];

      right.children := children[length / 2 + 1..];
      children := children[..length / 2 + 1];
    }
  }
}
