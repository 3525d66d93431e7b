/**
 * The split steps of `Bplustree::insert` change no lookup: splitting a leaf
 * moves each key's list to the half whose range now holds the key, and
 * splitting an internal node or growing a new root only reroutes the
 * descent, which still ends at the one leaf whose range holds the key.
 */
module TreeLookups {
  import opened Wrappers
  import LeafNodes
  import opened Nodes
  import opened TreeShape
  import opened TreeSteps
  import opened TreeSplits

  /** Two leaf entries with the same keys, lists and range. */
  predicate SameLeaf(a: Entry, b: Entry) {
    a.keys == b.keys && a.values == b.values && a.lo == b.lo && a.hi == b.hi
  }

  /** Every leaf of `v'` was a leaf of `v`, with the same keys, lists and range. */
  ghost predicate LeavesKept(v: View, v': View) {
    forall n :: n in v' && v'[n].level == 0 ==> n in v && v[n].level == 0 && SameLeaf(v[n], v'[n])
  }

  /** Trees that answer every lookup alike store the same keys. */
  lemma SameLookupsKeys(v: View, parent: map<Node, Node>, chain: seq<Node>, root: Node,
                        v': View, parent': map<Node, Node>, chain': seq<Node>, root': Node)
    requires Inv(v, parent, chain, root) && Inv(v', parent', chain', root')
    requires SameLookups(v, root, v', root')
    ensures Keys(v') == Keys(v)
  {
    forall k
      ensures k in Keys(v') <==> k in Keys(v)
    {
      FindComplete(v, parent, chain, root, k);
      FindComplete(v', parent', chain', root', k);
    }
  }

  /**
   * When every leaf of the new tree was a leaf of the old one, with the same
   * keys, lists and range, every key reads the same from both.
   */
  lemma LookupsKept(v: View, parent: map<Node, Node>, chain: seq<Node>, root: Node,
                    v': View, parent': map<Node, Node>, chain': seq<Node>, root': Node)
    requires Inv(v, parent, chain, root) && Inv(v', parent', chain', root')
    requires LeavesKept(v, v')
    ensures SameLookups(v, root, v', root')
  {
    forall k
      ensures Find(v', root', k) == Find(v, root, k)
    {
      SearchLeafOK(v', parent', chain', root', k);
      var N := SearchLeaf(v', root', k);
      FindByRange(v, parent, chain, root, N, k);
    }
  }

  /**
   * When leaf `L` was split into `L` (the lower half, up to the promoted key)
   * and `R` (the upper half, from it), and every other leaf kept its keys,
   * lists and range, every key reads the same from both trees.
   */
  lemma LookupsAfterLeafSplit(v: View, parent: map<Node, Node>, chain: seq<Node>, root: Node,
                              v': View, parent': map<Node, Node>, chain': seq<Node>, root': Node,
                              L: Node, R: Node)
    requires Inv(v, parent, chain, root) && Inv(v', parent', chain', root')
    requires L in v && v[L].level == 0 && |v[L].values| == |v[L].keys| >= 1
    requires LeafSplitLeaves(v, v', L, R)
    ensures SameLookups(v, root, v', root')
  {
    var s := LeafSplitOf(v[L]);
    assert NodeOK(v, parent, L);
    LeafNodes.SplitLookups(LeafNodes.LeafData(v[L].keys, v[L].values));
    assert KeyFits(v[L], s.keyToParent) by {
      assert s.keyToParent == v[L].keys[|v[L].keys| / 2];
    }
    forall k
      ensures Find(v', root', k) == Find(v, root, k)
    {
      SearchLeafOK(v', parent', chain', root', k);
      var N := SearchLeaf(v', root', k);
      if N == L || N == R {
        FindByRange(v, parent, chain, root, L, k);
      } else {
        FindByRange(v, parent, chain, root, N, k);
      }
    }
  }

  /**
   * After a leaf split, `L` and `R` hold the halves with the ranges either
   * side of the promoted key, and every other leaf is as it was.
   */
  ghost predicate LeafSplitLeaves(v: View, v': View, L: Node, R: Node)
    requires L in v && |v[L].values| == |v[L].keys| >= 1
  {
    var s := LeafSplitOf(v[L]);
    && L in v' && R in v'
    && v'[L].keys == s.left.keys && v'[L].values == s.left.values
    && v'[L].lo == v[L].lo && v'[L].hi == Some(s.keyToParent)
    && v'[R].keys == s.right.keys && v'[R].values == s.right.values
    && v'[R].lo == Some(s.keyToParent) && v'[R].hi == v[L].hi
    && forall n :: n in v' && v'[n].level == 0 && n != L && n != R ==>
         n in v && v[n].level == 0 && SameLeaf(v[n], v'[n])
  }

  /** The leaves after a leaf split with the promoted key going to the parent `P`. */
  lemma LeafSplitUnderLeaves(v: View, v': View, L: Node, R: Node, P: Node)
    requires HasNext(v, L) && v[L].level == 0 && |v[L].values| == |v[L].keys| >= 1 && R !in v
    requires P in v && v[P].level > 0
    requires var v1 := SplitLeafView(v, L, R); P in v1 && |v1[P].children| == |v1[P].keys| + 1
    requires v' == InsertSeparatorView(SplitLeafView(v, L, R), P, LeafSplitOf(v[L]).keyToParent, R)
    ensures LeafSplitLeaves(v, v', L, R)
  {
    var v1 := SplitLeafView(v, L, R);
    SplitLeafViewFacts(v, L, R);
    assert P != L && P != R && v'[L] == v1[L] && v'[R] == v1[R];
    forall n | n in v' && v'[n].level == 0 && n != L && n != R
      ensures n in v && v[n].level == 0 && SameLeaf(v[n], v'[n])
    {
      assert n != P && v'[n] == v1[n];
    }
  }

  /** The leaves after the root leaf splits under a fresh root `Q`. */
  lemma LeafSplitAtRootLeaves(v: View, v': View, L: Node, R: Node, Q: Node)
    requires HasNext(v, L) && v[L].level == 0 && |v[L].values| == |v[L].keys| >= 1
    requires R !in v && Q !in v && Q != R
    requires v' == NewRootView(SplitLeafView(v, L, R), Q, LeafSplitOf(v[L]).keyToParent, L, R)
    ensures LeafSplitLeaves(v, v', L, R)
  {
    var v1 := SplitLeafView(v, L, R);
    SplitLeafViewFacts(v, L, R);
    assert v'[L] == v1[L] && v'[R] == v1[R];
    forall n | n in v' && v'[n].level == 0 && n != L && n != R
      ensures n in v && v[n].level == 0 && SameLeaf(v[n], v'[n])
    {
      assert n != Q && v'[n] == v1[n];
    }
  }

  /** Splitting a leaf into its parent `P` keeps every lookup. */
  lemma LeafSplitUnderLookups(v: View, parent: map<Node, Node>, chain: seq<Node>, root: Node,
                              v': View, parent': map<Node, Node>, chain': seq<Node>,
                              L: Node, R: Node, P: Node)
    requires Inv(v, parent, chain, root) && Inv(v', parent', chain', root)
    requires HasNext(v, L) && v[L].level == 0 && |v[L].values| == |v[L].keys| >= 1 && R !in v
    requires P in v && v[P].level > 0
    requires var v1 := SplitLeafView(v, L, R); P in v1 && |v1[P].children| == |v1[P].keys| + 1
    requires v' == InsertSeparatorView(SplitLeafView(v, L, R), P, LeafSplitOf(v[L]).keyToParent, R)
    ensures SameLookups(v, root, v', root)
  {
    LeafSplitUnderLeaves(v, v', L, R, P);
    LookupsAfterLeafSplit(v, parent, chain, root, v', parent', chain', root, L, R);
  }

  /** Splitting the root leaf under a fresh root `Q` keeps every lookup. */
  lemma LeafSplitAtRootLookups(v: View, parent: map<Node, Node>, chain: seq<Node>, root: Node,
                               v': View, parent': map<Node, Node>, chain': seq<Node>,
                               L: Node, R: Node, Q: Node)
    requires Inv(v, parent, chain, root) && Inv(v', parent', chain', Q)
    requires HasNext(v, L) && v[L].level == 0 && |v[L].values| == |v[L].keys| >= 1
    requires R !in v && Q !in v && Q != R
    requires v' == NewRootView(SplitLeafView(v, L, R), Q, LeafSplitOf(v[L]).keyToParent, L, R)
    ensures SameLookups(v, root, v', Q)
  {
    LeafSplitAtRootLeaves(v, v', L, R, Q);
    LookupsAfterLeafSplit(v, parent, chain, root, v', parent', chain', Q, L, R);
  }

  /** Splitting an internal node into its parent `P` changes no leaf. */
  lemma InternalSplitUnderLeaves(v: View, v': View, X: Node, R: Node, P: Node)
    requires X in v && v[X].level > 0 && |v[X].children| == |v[X].keys| + 1 && |v[X].keys| >= 1 && R !in v
    requires var v1 := SplitInternalView(v, X, R); P in v1 && v1[P].level > 0 && |v1[P].children| == |v1[P].keys| + 1
    requires v' == InsertSeparatorView(SplitInternalView(v, X, R), P, InternalSplitOf(v[X]).keyToParent, R)
    ensures LeavesKept(v, v')
  {
    var v1 := SplitInternalView(v, X, R);
    forall n | n in v' && v'[n].level == 0
      ensures n in v && v[n].level == 0 && SameLeaf(v[n], v'[n])
    {
      assert n != P && n != X && n != R && v'[n] == v1[n];
    }
  }

  /** Splitting the internal root under a fresh root `Q` changes no leaf. */
  lemma InternalSplitAtRootLeaves(v: View, v': View, X: Node, R: Node, Q: Node)
    requires X in v && v[X].level > 0 && |v[X].children| == |v[X].keys| + 1 && |v[X].keys| >= 1
    requires R !in v && Q !in v && Q != R
    requires v' == NewRootView(SplitInternalView(v, X, R), Q, InternalSplitOf(v[X]).keyToParent, X, R)
    ensures LeavesKept(v, v')
  {
    var v1 := SplitInternalView(v, X, R);
    forall n | n in v' && v'[n].level == 0
      ensures n in v && v[n].level == 0 && SameLeaf(v[n], v'[n])
    {
      assert n != Q && n != X && n != R && v'[n] == v1[n];
    }
  }

  /** Splitting an internal node into its parent `P` keeps every lookup. */
  lemma InternalSplitUnderLookups(v: View, parent: map<Node, Node>, chain: seq<Node>, root: Node,
                                  v': View, parent': map<Node, Node>, chain': seq<Node>,
                                  X: Node, R: Node, P: Node)
    requires Inv(v, parent, chain, root) && Inv(v', parent', chain', root)
    requires X in v && v[X].level > 0 && |v[X].children| == |v[X].keys| + 1 && |v[X].keys| >= 1 && R !in v
    requires var v1 := SplitInternalView(v, X, R); P in v1 && v1[P].level > 0 && |v1[P].children| == |v1[P].keys| + 1
    requires v' == InsertSeparatorView(SplitInternalView(v, X, R), P, InternalSplitOf(v[X]).keyToParent, R)
    ensures SameLookups(v, root, v', root)
  {
    InternalSplitUnderLeaves(v, v', X, R, P);
    LookupsKept(v, parent, chain, root, v', parent', chain', root);
  }

  /** Splitting the internal root under a fresh root `Q` keeps every lookup. */
  lemma InternalSplitAtRootLookups(v: View, parent: map<Node, Node>, chain: seq<Node>, root: Node,
                                   v': View, parent': map<Node, Node>, chain': seq<Node>,
                                   X: Node, R: Node, Q: Node)
    requires Inv(v, parent, chain, root) && Inv(v', parent', chain', Q)
    requires X in v && v[X].level > 0 && |v[X].children| == |v[X].keys| + 1 && |v[X].keys| >= 1
    requires R !in v && Q !in v && Q != R
    requires v' == NewRootView(SplitInternalView(v, X, R), Q, InternalSplitOf(v[X]).keyToParent, X, R)
    ensures SameLookups(v, root, v', Q)
  {
    InternalSplitAtRootLeaves(v, v', X, R, Q);
    LookupsKept(v, parent, chain, root, v', parent', chain', Q);
  }
}
