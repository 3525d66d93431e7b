/**
 * `Bplustree`: the tree object. Its root is a heap `Node`; a ghost view
 * mirrors every reachable node (`Tied`), and the structural invariant is the
 * pure predicate `Inv` over that view, so each method proves its effect on
 * the heap by updating the view with the matching step function and calling
 * the step lemma that proves the invariant for it.
 */
module BPlusTrees {
  import opened Wrappers
  import opened SortedSeqs
  import opened Nodes
  import opened TreeShape
  import opened TreeSteps
  import opened TreeSplits
  import opened TreeClimb
  import opened TreeLookups

  /** A heap node holds exactly what its view entry records; leaves are the nodes at level 0. */
  ghost predicate Mirrors(n: Node, e: Entry)
    reads n
  {
    && n.keys == e.keys && n.values == e.values && n.children == e.children
    && n.next == e.next && n.prev == e.prev
    && (n.leaf <==> e.level == 0)
  }

  /** `top` and every node of `path` were nodes of the view `v0`. */
  ghost predicate OnPathFrom(v0: View, path: seq<Node>, top: Node) {
    top in v0 && forall i :: 0 <= i < |path| ==> path[i] in v0
  }

  /** Dropping the last node of the path makes it the new top, still a node of `v0`. */
  lemma OnPathFromPop(v0: View, path: seq<Node>, top: Node)
    requires OnPathFrom(v0, path, top) && path != []
    ensures OnPathFrom(v0, path[..|path| - 1], path[|path| - 1])
  {
  }

  class BPlusTree {
    const order: int
    var root: Node

    /** Every node of the tree, with its level and key range. */
    ghost var view: View
    /** The parent of every non-root node. */
    ghost var parent: map<Node, Node>
    /** The leaves in key order. */
    ghost var chain: seq<Node>

    /** The heap agrees with the view. */
    ghost predicate Tied()
      reads this`view, view.Keys
    {
      forall n :: n in view ==> Mirrors(n, view[n])
    }

    /**
     * The tree is well formed and every node holds fewer than `order` keys.
     * An order of 1 is excluded: a one-key leaf would split into an empty
     * left half.
     */
    ghost predicate Valid()
      reads this, view.Keys
    {
      && order != 1
      && Tied()
      && Inv(view, parent, chain, root)
      && Bounded(view, order, null)
    }

    /** `Bplustree(order)`: the root is a fresh empty leaf linked to itself. */
    constructor (order: int)
      requires order != 1
      ensures Valid() && this.order == order
      ensures root.leaf && root.keys == [] && root.next == root && root.prev == root
      ensures Keys(view) == {}
    {
      this.order := order;
      var r := new Node.Leaf();
      root := r;
      view := map[r := Entry([], [], [], r, r, 0, None, None)];
      parent := map[];
      chain := [r];
    }

    /** `getOrder`. */
    method GetOrder() returns (r: int)
      ensures r == order
    {
      r := order;
    }

    /**
     * `findSearchPath`: pushes `node` and, below an internal node, the path
     * from the child the descent rule picks (`TreeShape.PathShape` shows that
     * from the root this is a routed path down to a leaf, one node per level).
     */
    method FindSearchPath(key: int, node: Node, path: seq<Node>) returns (path': seq<Node>)
      requires Valid() && node in view
      ensures path' == path + PathFrom(view, node, key)
      ensures path'[|path'| - 1] == SearchLeaf(view, node, key)
      decreases view[node].level
    {
      path' := path + [node];
      if node.leaf {
        return;
      }
      assert NodeOK(view, parent, node);
      PathFromChild(view, parent, node, key);
      var keys := node.keys;
      var low := LowerBound(keys, key);
      var next: Node;
      if low < |keys| {
        if key == keys[low] {
          next := node.children[low + 1];
        } else {
          next := node.children[low];
        }
      } else {
        next := node.children[low];
      }
      path' := FindSearchPath(key, next, path');
      PushThen(path, node, PathFrom(view, next, key));
    }

    /** `search`: `getValues(key)` on the leaf the search path ends at; it finds a list exactly for stored keys. */
    method Search(key: int) returns (r: Option<seq<int>>)
      requires Valid()
      ensures r == Find(view, root, key)
      ensures r.Some? <==> key in Keys(view)
    {
      var path := FindSearchPath(key, root, []);
      var leaf := path[|path| - 1];
      SearchLeafOK(view, parent, chain, root, key);
      r := leaf.GetValues(key);
      FindComplete(view, parent, chain, root, key);
    }

    /** `getLeftLeaf`: following the first children from the root reaches the first leaf of the chain. */
    method GetLeftLeaf() returns (leaf: Node)
      requires Valid()
      ensures leaf == chain[0] && leaf.leaf && leaf in view && view[leaf].level == 0
    {
      var node := root;
      while !node.leaf
        invariant node in view && view[node].lo.None?
        decreases view[node].level
      {
        assert NodeOK(view, parent, node) && ChildOK(view, parent, node, 0);
        node := node.children[0];
      }
      LeftmostLeaf(view, parent, chain, root, node);
      leaf := node;
    }

    /**
     * `update`: on the leaf the search path ends at, a stored key's list is
     * replaced by `vs`; the tree's shape and keys stay the same and no other
     * key's lookup changes.
     */
    method Update(key: int, vs: seq<int>)
      requires Valid()
      modifies this`view, view.Keys
      ensures Valid() && Keys(view) == old(Keys(view))
      ensures Find(view, root, key) == (if key in old(Keys(view)) then Some(vs) else None)
      ensures forall k :: k != key ==> Find(view, root, k) == old(Find(view, root, k))
    {
      var path := FindSearchPath(key, root, []);
      var leaf := path[|path| - 1];
      ghost var v := view;
      SearchLeafOK(v, parent, chain, root, key);
      UpdateInView(leaf, key, vs);
      LeafUpdateStep(v, view, parent, chain, root, order, leaf, key, vs);
      FindAfterLeafUpdate(v, view, parent, chain, root, leaf, key, vs);
    }

    /**
     * `insert(key, value)`: the value goes into the leaf the search path ends
     * at; a leaf that reaches `order` keys splits, and so does every parent up
     * the path that reaches `order` keys on taking the promoted key; when the
     * root splits, a fresh root takes the promoted key over the two halves.
     * The tree stays well formed with every node below `order` keys, and the
     * stored keys gain exactly `key`. A stored key gets `value` appended to
     * its list and no other lookup changes. In general every key reads what
     * `FindAfterInsert` says: a key routed to a different leaf than `key`
     * reads what it did before, and a key routed to the same leaf reads that
     * leaf after `LeafNode::insert`, which for a new key appends its list at
     * the end of the leaf (see `LeafNodes.Insert`). A new key larger than
     * every stored key therefore reads back `[value]`.
     */
    method Insert(key: int, value: int)
      requires Valid()
      modifies this, view.Keys
      ensures Valid()
      ensures Keys(view) == old(Keys(view)) + {key}
      ensures key in old(Keys(view)) ==>
                && old(Find(view, root, key)).Some?
                && Find(view, root, key) == Some(old(Find(view, root, key)).value + [value])
                && forall k :: k != key ==> Find(view, root, k) == old(Find(view, root, k))
      ensures forall k :: Find(view, root, k) == FindAfterInsert(old(view), old(root), key, value, k)
      ensures (forall k :: k in old(Keys(view)) ==> k < key) ==>
                && Find(view, root, key) == Some([value])
                && forall k :: k != key ==> Find(view, root, k) == old(Find(view, root, k))
      ensures root != old(root) ==>
                && fresh(root) && !root.leaf && |root.keys| == 1
                && |root.children| == 2 && root.children[0] == old(root) && fresh(root.children[1])
    {
      ghost var v0 := view;
      var path, leaf := InsertIntoLeaf(key, value);
      ghost var v1 := view;
      if |leaf.keys| == order {
        SplitUpward(key, path, leaf);
      } else {
        Settled(view, order, leaf);
      }
      InsertLookups(v0, old(parent), old(chain), old(root), v1, view, root, key, value);
    }

    /**
     * The first half of `insert`: the search path to the leaf for `key`,
     * and `leaf->insert(key, value)` on that leaf.
     */
    method InsertIntoLeaf(key: int, value: int) returns (path: seq<Node>, leaf: Node)
      requires Valid()
      modifies this`view, view.Keys
      ensures Tied() && ClimbState(view, parent, chain, root, order, path, leaf, key)
      ensures view[leaf].level == 0 && key in view[leaf].keys && view.Keys == old(view.Keys)
      ensures Keys(view) == old(Keys(view)) + {key}
      ensures key in old(Keys(view)) ==>
                && Bounded(view, order, null)
                && old(Find(view, root, key)).Some?
                && Find(view, root, key) == Some(old(Find(view, root, key)).value + [value])
                && forall k :: k != key ==> Find(view, root, k) == old(Find(view, root, k))
      ensures leaf == SearchLeaf(old(view), root, key) && leaf in old(view)
      ensures |old(view)[leaf].values| == |old(view)[leaf].keys| && view == LeafInsertView(old(view), leaf, key, value)
      ensures forall k :: Find(view, root, k) == FindAfterInsert(old(view), root, key, value, k)
    {
      ghost var v0 := view;
      var full := FindSearchPath(key, root, []);
      leaf := full[|full| - 1];
      path := full[..|full| - 1];
      PopTop(full);
      SearchLeafOK(v0, parent, chain, root, key);
      InsertInView(leaf, key, value);
      LeafInsertClimbs(v0, view, parent, chain, root, order, path, leaf, key, value);
      LeafInsertStores(v0, view, parent, chain, root, order, leaf, key, value);
      FindAfterLeafInsertAll(v0, view, parent, chain, root, leaf, key, value);
      if key in Keys(v0) {
        FindAfterLeafInsert(v0, view, parent, chain, root, leaf, key, value);
      }
    }

    /**
     * The second half of `insert`, from a leaf that reached `order` keys:
     * split it and climb the search path, splitting every node that reaches
     * `order` keys on taking the promoted key; the root, when it splits,
     * ends the climb under a fresh root.
     */
    method SplitUpward(ghost key: int, path: seq<Node>, leaf: Node)
      requires Tied() && ClimbState(view, parent, chain, root, order, path, leaf, key)
      requires view[leaf].level == 0 && |leaf.keys| == order >= 2
      modifies this, view.Keys
      ensures Valid() && Keys(view) == old(Keys(view))
      ensures SameLookups(old(view), old(root), view, root)
      ensures root != old(root) ==>
                && fresh(root) && !root.leaf && |root.keys| == 1
                && |root.children| == 2 && root.children[0] == old(root) && fresh(root.children[1])
    {
      if path == [] {
        SplitRootLeafAndSettle(key, leaf);
      } else {
        SplitLeafAndClimb(key, path, leaf);
      }
    }

    /** The leaf is the root: it splits under a fresh root, which ends `insert`. */
    method SplitRootLeafAndSettle(ghost key: int, leaf: Node)
      requires Tied() && ClimbState(view, parent, chain, root, order, [], leaf, key)
      requires view[leaf].level == 0 && |leaf.keys| == order >= 2
      modifies this, view.Keys
      ensures Valid() && Keys(view) == old(Keys(view))
      ensures SameLookups(old(view), old(root), view, root)
      ensures fresh(root) && !root.leaf && |root.children| == 2 && root.children[0] == old(root) && fresh(root.children[1])
      ensures |old(view)[leaf].values| == |old(view)[leaf].keys| >= 1
      ensures root.keys == [LeafSplitOf(old(view)[leaf]).keyToParent]
    {
      var top, p, c := SplitRootLeaf(key, parent, chain, leaf);
      Settled(view, order, top);
      Commit(p, c);
    }

    /** The leaf is below the root: it splits into its parent, and the climb goes on from there. */
    method SplitLeafAndClimb(ghost key: int, path: seq<Node>, leaf: Node)
      requires Tied() && ClimbState(view, parent, chain, root, order, path, leaf, key) && path != []
      requires view[leaf].level == 0 && |leaf.keys| == order >= 2
      modifies this, view.Keys
      ensures Valid() && Keys(view) == old(Keys(view))
      ensures SameLookups(old(view), old(root), view, root)
      ensures root != old(root) ==>
                && fresh(root) && !root.leaf && |root.keys| == 1
                && |root.children| == 2 && root.children[0] == old(root) && fresh(root.children[1])
    {
      ghost var v0 := view;
      var rest, up, p, c := SplitLeafIntoParent(key, parent, chain, path, leaf);
      ghost var v1 := view;
      ClimbInternals(key, p, c, rest, up);
      SameLookupsTrans(v0, old(root), v1, old(root), view, root);
    }

    /**
     * The climb over internal nodes, from the node that took the promoted
     * key of a split leaf, down to the node that settles it.
     */
    method ClimbInternals(ghost key: int, ghost p: map<Node, Node>, ghost c: seq<Node>, path: seq<Node>, node: Node)
      requires Tied() && ClimbState(view, p, c, root, order, path, node, key)
      requires view[node].level > 0 && order >= 2
      modifies this, view.Keys
      ensures Valid() && Keys(view) == old(Keys(view))
      ensures SameLookups(old(view), old(root), view, root)
      ensures root != old(root) ==>
                && fresh(root) && !root.leaf && |root.keys| == 1
                && |root.children| == 2 && root.children[0] == old(root) && fresh(root.children[1])
    {
      ghost var v0 := view;
      var rest, top, p' := SplitInternals(key, p, c, path, node);
      ghost var v1 := view;
      SettleTop(key, p', c, rest, top);
      SameLookupsTrans(v0, old(root), v1, old(root), view, root);
    }

    /**
     * The loop of `insert` over internal nodes: while the node that took the
     * promoted key holds `order` keys and is not the root, it splits and the
     * next node up the path takes the new promoted key.
     */
    method SplitInternals(ghost key: int, ghost p: map<Node, Node>, ghost c: seq<Node>, path: seq<Node>, node: Node)
      returns (path': seq<Node>, top: Node, ghost p': map<Node, Node>)
      requires Tied() && ClimbState(view, p, c, root, order, path, node, key)
      requires view[node].level > 0 && order >= 2
      modifies this`view, view.Keys
      ensures Tied() && ClimbState(view, p', c, root, order, path', top, key) && view[top].level > 0
      ensures |top.keys| == order ==> path' == []
      ensures Keys(view) == old(Keys(view)) && SameLookups(old(view), root, view, root)
      ensures top in old(view)
    {
      path', top, p' := path, node, p;
      assert OnPathFrom(view, path', top) by {
        assert forall i :: 0 <= i < |path'| ==> path'[i] in view;
      }
      while |top.keys| == order && path' != []
        invariant Tied() && ClimbState(view, p', c, root, order, path', top, key) && view[top].level > 0
        invariant Keys(view) == old(Keys(view)) && SameLookups(old(view), root, view, root)
        invariant OnPathFrom(old(view), path', top)
        decreases |path'|
      {
        path', top, p' := SplitInternalIntoParent(key, p', c, path', top, old(view));
      }
    }

    /**
     * The end of the climb: the node that took the last promoted key either
     * holds fewer than `order` keys, or is the root and splits under a fresh
     * root; then the tree is valid again.
     */
    method SettleTop(ghost key: int, ghost p: map<Node, Node>, ghost c: seq<Node>, path: seq<Node>, node: Node)
      requires Tied() && ClimbState(view, p, c, root, order, path, node, key)
      requires view[node].level > 0 && order >= 2 && (|node.keys| == order ==> path == [])
      modifies this, node
      ensures Valid() && Keys(view) == old(Keys(view))
      ensures SameLookups(old(view), old(root), view, root)
      ensures root != old(root) ==>
                && fresh(root) && !root.leaf && |root.keys| == 1
                && |root.children| == 2 && root.children[0] == old(root) && fresh(root.children[1])
    {
      if |node.keys| == order {
        var top, p' := SplitRootInternal(key, p, c, node);
        Settled(view, order, top);
        Commit(p', c);
      } else {
        Settled(view, order, node);
        Commit(p, c);
      }
    }

    /** The root leaf splits and a fresh root takes the promoted key. */
    method SplitRootLeaf(ghost key: int, ghost p: map<Node, Node>, ghost c: seq<Node>, leaf: Node)
      returns (up: Node, ghost p': map<Node, Node>, ghost c': seq<Node>)
      requires Tied() && ClimbState(view, p, c, root, order, [], leaf, key)
      requires view[leaf].level == 0 && |leaf.keys| == order >= 2
      modifies this`view, this`root, view.Keys
      ensures Tied() && ClimbState(view, p', c', root, order, [], up, key) && view[up].level > 0
      ensures Keys(view) == old(Keys(view))
      ensures fresh(view.Keys - old(view.Keys))
      ensures SameLookups(old(view), old(root), view, root)
      ensures up == root && fresh(root) && !root.leaf
      ensures |old(view)[leaf].values| == |old(view)[leaf].keys| >= 1
      ensures root.keys == [LeafSplitOf(old(view)[leaf]).keyToParent]
      ensures |root.children| == 2 && root.children[0] == leaf && fresh(root.children[1])
    {
      ghost var v1 := view;
      ghost var j := LeafSplitReady(v1, p, c, root, leaf);
      var right := SplitLeafRoot(leaf);
      LeafSplitClimbsAtRoot(v1, p, c, leaf, order, leaf, right, root, key, j);
      p', c' := Adopt(p, leaf, right, root), InsertAt(c, j + 1, right);
      LeafSplitAtRootLookups(v1, p, c, leaf, view, p', c', leaf, right, root);
      up := root;
    }

    /** A leaf below the top of the path splits and the next node up takes the promoted key. */
    method SplitLeafIntoParent(ghost key: int, ghost p: map<Node, Node>, ghost c: seq<Node>, path: seq<Node>, leaf: Node)
      returns (path': seq<Node>, up: Node, ghost p': map<Node, Node>, ghost c': seq<Node>)
      requires Tied() && ClimbState(view, p, c, root, order, path, leaf, key) && path != []
      requires view[leaf].level == 0 && |leaf.keys| == order >= 2
      modifies this`view, view.Keys
      ensures Tied() && ClimbState(view, p', c', root, order, path', up, key) && view[up].level > 0
      ensures Keys(view) == old(Keys(view))
      ensures fresh(view.Keys - old(view.Keys))
      ensures |path'| < |path| && up == path[|path| - 1]
      ensures SameLookups(old(view), root, view, root)
      ensures |old(view)[leaf].values| == |old(view)[leaf].keys| >= 1
      ensures LeafSplitOf(old(view)[leaf]).keyToParent in view[up].keys
    {
      ghost var v1 := view;
      ghost var j := LeafSplitReady(v1, p, c, root, leaf);
      up := path[|path| - 1];
      path' := path[..|path| - 1];
      LeafParentReady(v1, p, c, root, order, path, leaf, key);
      var right := SplitLeafUnder(leaf, up);
      LeafSplitClimbs(v1, p, c, root, order, path, leaf, right, key, j);
      p', c' := Adopt(p, leaf, right, up), InsertAt(c, j + 1, right);
      LeafSplitUnderLookups(v1, p, c, root, view, p', c', leaf, right, up);
    }

    /** The internal root splits and a fresh root takes the promoted key. */
    method SplitRootInternal(ghost key: int, ghost p: map<Node, Node>, ghost c: seq<Node>, node: Node)
      returns (up: Node, ghost p': map<Node, Node>)
      requires Tied() && ClimbState(view, p, c, root, order, [], node, key)
      requires view[node].level > 0 && |node.keys| == order >= 2
      modifies this`view, this`root, node
      ensures Tied() && ClimbState(view, p', c, root, order, [], up, key) && view[up].level > 0
      ensures Keys(view) == old(Keys(view))
      ensures fresh(view.Keys - old(view.Keys))
      ensures SameLookups(old(view), old(root), view, root)
      ensures up == root && fresh(root) && !root.leaf
      ensures |old(view)[node].children| == |old(view)[node].keys| + 1 && |old(view)[node].keys| >= 1
      ensures root.keys == [InternalSplitOf(old(view)[node]).keyToParent]
      ensures |root.children| == 2 && root.children[0] == node && fresh(root.children[1])
    {
      ghost var v2 := view;
      InternalSplitReady(v2, p, c, node, node);
      var right := SplitInternalRoot(node);
      InternalSplitClimbsAtRoot(v2, p, c, node, order, node, right, root, key);
      p' := SplitParents(p, InternalSplitOf(v2[node]).right.children, node, right, root);
      InternalSplitAtRootLookups(v2, p, c, node, view, p', c, node, right, root);
      up := root;
    }

    /** An internal node below the top of the path splits and the next node up takes the promoted key. */
    method SplitInternalIntoParent(ghost key: int, ghost p: map<Node, Node>, ghost c: seq<Node>, path: seq<Node>, node: Node,
                                   ghost v0: View)
      returns (path': seq<Node>, up: Node, ghost p': map<Node, Node>)
      requires Tied() && ClimbState(view, p, c, root, order, path, node, key) && path != []
      requires SameLookups(v0, root, view, root) && OnPathFrom(v0, path, node)
      requires view[node].level > 0 && |node.keys| == order >= 2
      modifies this`view, node, path[|path| - 1]
      ensures Tied() && ClimbState(view, p', c, root, order, path', up, key) && view[up].level > 0
      ensures Keys(view) == old(Keys(view))
      ensures path' == path[..|path| - 1] && up == path[|path| - 1]
      ensures SameLookups(old(view), root, view, root) && SameLookups(v0, root, view, root)
      ensures OnPathFrom(v0, path', up)
      ensures |old(view)[node].children| == |old(view)[node].keys| + 1 && |old(view)[node].keys| >= 1
      ensures InternalSplitOf(old(view)[node]).keyToParent in view[up].keys
    {
      ghost var v2 := view;
      OnPathFromPop(v0, path, node);
      InternalSplitReady(v2, p, c, root, node);
      up := path[|path| - 1];
      path' := path[..|path| - 1];
      InternalParentReady(v2, p, c, root, order, path, node, key);
      var right := SplitInternalUnder(node, up);
      InternalSplitClimbs(v2, p, c, root, order, path, node, right, key);
      p' := SplitParents(p, InternalSplitOf(v2[node]).right.children, node, right, up);
      InternalSplitUnderLookups(v2, p, c, root, view, p', c, node, right, up);
      SameLookupsTrans(v0, root, v2, root, view, root);
    }

    /** Records the parent map and chain of leaves that the climb in `insert` ended with. */
    method Commit(ghost p: map<Node, Node>, ghost c: seq<Node>)
      requires order != 1 && Tied() && Inv(view, p, c, root) && Bounded(view, order, null)
      modifies this`parent, this`chain
      ensures Valid() && parent == p && chain == c
    {
      parent, chain := p, c;
    }

    /** `leaf->split(keyToParent)` and `parent->insert(keyToParent, right)`, with the view following the heap. */
    method SplitLeafUnder(leaf: Node, up: Node) returns (right: Node)
      requires Tied() && HasNext(view, leaf) && view[leaf].level == 0
      requires |view[leaf].values| == |view[leaf].keys| >= 1
      requires up in view && view[up].level > 0 && |view[up].children| == |view[up].keys| + 1
      modifies this`view, leaf`keys, leaf`values, leaf`next, leaf.next`prev, up`keys, up`children
      ensures fresh(right) && right !in old(view)
      ensures view == InsertSeparatorView(SplitLeafView(old(view), leaf, right), up, LeafSplitOf(old(view)[leaf]).keyToParent, right)
      ensures fresh(view.Keys - old(view.Keys))
      ensures Tied()
    {
      var keyToParent;
      right, keyToParent := SplitLeafInView(leaf);
      InsertChildInView(up, keyToParent, right);
    }

    /** `leaf->split(keyToParent)` on the root leaf, and a fresh root over the halves. */
    method SplitLeafRoot(leaf: Node) returns (right: Node)
      requires Tied() && HasNext(view, leaf) && view[leaf].level == 0
      requires |view[leaf].values| == |view[leaf].keys| >= 1
      modifies this`view, this`root, leaf`keys, leaf`values, leaf`next, leaf.next`prev
      ensures fresh(right) && right !in old(view) && fresh(root) && root !in old(view) && root != right
      ensures !root.leaf && root.keys == [LeafSplitOf(old(view)[leaf]).keyToParent] && root.children == [leaf, right]
      ensures view == NewRootView(SplitLeafView(old(view), leaf, right), root, LeafSplitOf(old(view)[leaf]).keyToParent, leaf, right)
      ensures fresh(view.Keys - old(view.Keys))
      ensures Tied()
    {
      var keyToParent;
      right, keyToParent := SplitLeafInView(leaf);
      NewRoot(leaf, keyToParent, right);
    }

    /** `internal->split(keyToParent)` and `parent->insert(keyToParent, right)`, with the view following the heap. */
    method SplitInternalUnder(node: Node, up: Node) returns (right: Node)
      requires Tied() && node in view && view[node].level > 0
      requires |view[node].children| == |view[node].keys| + 1 && |view[node].keys| >= 1
      requires up in view && up != node && view[up].level > 0 && |view[up].children| == |view[up].keys| + 1
      modifies this`view, node`keys, node`children, up`keys, up`children
      ensures fresh(right) && right !in old(view)
      ensures view == InsertSeparatorView(SplitInternalView(old(view), node, right), up, InternalSplitOf(old(view)[node]).keyToParent, right)
      ensures fresh(view.Keys - old(view.Keys))
      ensures Tied()
    {
      var keyToParent;
      right, keyToParent := SplitInternalInView(node);
      InsertChildInView(up, keyToParent, right);
    }

    /** `internal->split(keyToParent)` on the root, and a fresh root over the halves. */
    method SplitInternalRoot(node: Node) returns (right: Node)
      requires Tied() && node in view && view[node].level > 0
      requires |view[node].children| == |view[node].keys| + 1 && |view[node].keys| >= 1
      modifies this`view, this`root, node`keys, node`children
      ensures fresh(right) && right !in old(view) && fresh(root) && root !in old(view) && root != right
      ensures !root.leaf && root.keys == [InternalSplitOf(old(view)[node]).keyToParent] && root.children == [node, right]
      ensures view == NewRootView(SplitInternalView(old(view), node, right), root, InternalSplitOf(old(view)[node]).keyToParent, node, right)
      ensures fresh(view.Keys - old(view.Keys))
      ensures Tied()
    {
      var keyToParent;
      right, keyToParent := SplitInternalInView(node);
      NewRoot(node, keyToParent, right);
    }

    /** `leaf->update(key, vs)`, with the view following the heap. */
    method UpdateInView(leaf: Node, key: int, vs: seq<int>)
      requires Tied() && leaf in view && view[leaf].level == 0 && |view[leaf].values| == |view[leaf].keys|
      modifies this`view, leaf`values
      ensures view == LeafUpdateView(old(view), leaf, key, vs) && Tied()
    {
      leaf.LeafUpdate(key, vs);
      view := LeafUpdateView(view, leaf, key, vs);
    }

    /** `leaf->insert(key, value)`, with the view following the heap. */
    method InsertInView(leaf: Node, key: int, value: int)
      requires Tied() && leaf in view && view[leaf].level == 0 && |view[leaf].values| == |view[leaf].keys|
      modifies this`view, leaf`keys, leaf`values
      ensures view == LeafInsertView(old(view), leaf, key, value) && Tied() && view.Keys == old(view.Keys)
    {
      leaf.LeafInsert(key, value);
      view := LeafInsertView(view, leaf, key, value);
    }

    /** `leaf->split(keyToParent)`, with the view following the heap. */
    method SplitLeafInView(leaf: Node) returns (right: Node, keyToParent: int)
      requires Tied() && HasNext(view, leaf) && view[leaf].level == 0
      requires |view[leaf].values| == |view[leaf].keys| >= 1
      modifies this`view, leaf`keys, leaf`values, leaf`next, leaf.next`prev
      ensures fresh(right) && right !in old(view)
      ensures keyToParent == LeafSplitOf(old(view)[leaf]).keyToParent
      ensures view == SplitLeafView(old(view), leaf, right) && Tied()
    {
      ghost var N := leaf.next;
      right, keyToParent := leaf.LeafSplit();
      view := SplitLeafView(view, leaf, right);
      assert N in old(view);
    }

    /** `internal->split(keyToParent)`, with the view following the heap. */
    method SplitInternalInView(internal: Node) returns (right: Node, keyToParent: int)
      requires Tied() && internal in view && view[internal].level > 0
      requires |view[internal].children| == |view[internal].keys| + 1 && |view[internal].keys| >= 1
      modifies this`view, internal`keys, internal`children
      ensures fresh(right) && right !in old(view)
      ensures keyToParent == InternalSplitOf(old(view)[internal]).keyToParent
      ensures view == SplitInternalView(old(view), internal, right) && Tied()
    {
      right, keyToParent := internal.InternalSplit();
      view := SplitInternalView(view, internal, right);
    }

    /** `internal->insert(keyToParent, right)`, with the view following the heap. */
    method InsertChildInView(internal: Node, keyToParent: int, right: Node)
      requires Tied() && internal in view && view[internal].level > 0
      requires |view[internal].children| == |view[internal].keys| + 1
      modifies this`view, internal`keys, internal`children
      ensures view == InsertSeparatorView(old(view), internal, keyToParent, right) && Tied()
    {
      internal.InsertChild(keyToParent, right);
      view := InsertSeparatorView(view, internal, keyToParent, right);
    }

    /** A fresh root takes `insert(keyToParent, left, right)`, with the view following the heap. */
    method NewRoot(left: Node, keyToParent: int, right: Node)
      requires Tied() && left in view
      modifies this`view, this`root
      ensures fresh(root) && root !in old(view) && !root.leaf
      ensures root.keys == [keyToParent] && root.children == [left, right]
      ensures view == NewRootView(old(view), root, keyToParent, left, right) && Tied()
    {
      var newRoot := new Node.Internal();
      newRoot.InsertRoot(keyToParent, left, right);
      root := newRoot;
      view := NewRootView(view, newRoot, keyToParent, left, right);
    }
  }
}
