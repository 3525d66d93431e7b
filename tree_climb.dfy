/**
 * The climb back up the search path in `Bplustree::insert`: after the leaf
 * takes the new value, each node that reached `order` keys splits and hands
 * its promoted key to the node above it, or to a fresh root. `ClimbState`
 * is the invariant of that climb, and there is one lemma per kind of step.
 */
module TreeClimb {
  import opened Wrappers
  import opened SortedSeqs
  import opened Nodes
  import opened TreeShape
  import opened TreeSteps
  import opened TreeSplits

  /**
   * What is left of the search path while `insert` climbs it: `path` (root
   * first) followed by `top` is a routed descent for `key` through internal
   * nodes, one level per step.
   */
  ghost predicate Climb(v: View, path: seq<Node>, top: Node, key: int) {
    && top in v
    && (forall i :: 0 <= i < |path| ==> path[i] in v && v[path[i]].level == v[top].level + |path| - i)
    && (forall i :: 0 <= i < |path| - 1 ==> Routes(v, path[i], path[i + 1], key))
    && (|path| > 0 ==> Routes(v, path[|path| - 1], top, key))
  }

  /** Popping the leaf off a routed search path leaves a climb up from that leaf. */
  lemma ClimbStart(v: View, p: seq<Node>, key: int)
    requires RoutedPath(v, p, key)
    ensures v[p[|p| - 1]].level == 0 && Climb(v, p[..|p| - 1], p[|p| - 1], key)
  {
  }

  /** Popping the next node off a climb: it routes to `top`, one level up, and the rest is a climb up to it. */
  lemma ClimbPop(v: View, path: seq<Node>, top: Node, key: int)
    requires Climb(v, path, top, key) && |path| > 0
    ensures var P := path[|path| - 1];
            && Routes(v, P, top, key) && v[P].level == v[top].level + 1
            && Climb(v, path[..|path| - 1], P, key)
  {
    var n := |path| - 1;
    if n > 0 {
      assert Routes(v, path[n - 1], path[n], key);
    }
  }

  /** Once the node at the top of the climb holds fewer than `order` keys, no node holds `order`. */
  lemma Settled(v: View, order: int, top: Node)
    requires top in v && Bounded(v, order, top) && |v[top].keys| != order
    ensures Bounded(v, order, null)
  {
  }

  /** A climb survives any change that keeps `top`'s level and every node above it. */
  lemma ClimbKept(v: View, v': View, path: seq<Node>, top: Node, key: int)
    requires Climb(v, path, top, key) && top in v' && v'[top].level == v[top].level
    requires forall n :: n in v && v[n].level > v[top].level ==> n in v' && v'[n] == v[n]
    ensures Climb(v', path, top, key)
  {
    forall i | 0 <= i < |path|
      ensures path[i] in v' && v'[path[i]] == v[path[i]]
    {
      assert v[path[i]].level > v[top].level;
    }
  }

  /** Replacing the entry of `top` alone, at the same level, keeps a climb up from it. */
  lemma ClimbKeptAtTop(v: View, v': View, path: seq<Node>, top: Node, key: int)
    requires Climb(v, path, top, key) && top in v' && v'[top].level == v[top].level && v' == v[top := v'[top]]
    ensures Climb(v', path, top, key)
  {
    ClimbKept(v, v', path, top, key);
  }

  /**
   * The tree is well formed, every node but `top` holds fewer than `order`
   * keys, and `path` followed by `top` is what is left of the search path
   * from `root`.
   */
  ghost predicate ClimbState(v: View, parent: map<Node, Node>, chain: seq<Node>, root: Node, order: int,
                             path: seq<Node>, top: Node, key: int) {
    && Inv(v, parent, chain, root) && Bounded(v, order, top)
    && Climb(v, path, top, key)
    && (if path == [] then top == root else path[0] == root)
  }

  /**
   * `leaf->insert(key, value)` on the leaf the search ends at: the climb
   * starts there, with the stored keys grown by exactly `key`; a key that was
   * already stored leaves every node below `order` keys.
   */
  lemma LeafInsertClimbs(v: View, v': View, parent: map<Node, Node>, chain: seq<Node>, root: Node, order: int,
                         path: seq<Node>, L: Node, key: int, value: int)
    requires Inv(v, parent, chain, root) && Bounded(v, order, null)
    requires L == SearchLeaf(v, root, key) && path + [L] == PathFrom(v, root, key)
    requires L in v && |v[L].values| == |v[L].keys| && v' == LeafInsertView(v, L, key, value)
    ensures ClimbState(v', parent, chain, root, order, path, L, key)
  {
    SearchClimb(v, parent, chain, root, path, L, key);
    SearchLeafOK(v, parent, chain, root, key);
    LeafInsertStep(v, v', parent, chain, root, order, L, key, value);
    ClimbKeptAtTop(v, v', path, L, key);
  }

  /** The search path, with its leaf popped off, is a climb from that leaf up to the root. */
  lemma SearchClimb(v: View, parent: map<Node, Node>, chain: seq<Node>, root: Node,
                    path: seq<Node>, L: Node, key: int)
    requires Inv(v, parent, chain, root)
    requires L == SearchLeaf(v, root, key) && path + [L] == PathFrom(v, root, key)
    ensures v[L].level == 0 && Climb(v, path, L, key)
    ensures if path == [] then L == root else path[0] == root
  {
    var p := PathFrom(v, root, key);
    assert p[..|p| - 1] == path && p[|p| - 1] == L;
    PathShape(v, parent, chain, root, root, key);
    ClimbStart(v, p, key);
  }

  /**
   * The leaf the search ends at takes `key`, the stored keys gain exactly
   * `key`, and a key that was already stored brings no node to `order` keys.
   */
  lemma LeafInsertStores(v: View, v': View, parent: map<Node, Node>, chain: seq<Node>, root: Node, order: int,
                         L: Node, key: int, value: int)
    requires Inv(v, parent, chain, root) && Bounded(v, order, null)
    requires L == SearchLeaf(v, root, key)
    requires L in v && |v[L].values| == |v[L].keys| && v' == LeafInsertView(v, L, key, value)
    ensures v'[L].level == 0 && key in v'[L].keys
    ensures Keys(v') == Keys(v) + {key}
    ensures key in Keys(v) ==> Bounded(v', order, null)
  {
    SearchLeafOK(v, parent, chain, root, key);
    LeafInsertStep(v, v', parent, chain, root, order, L, key, value);
    LeafInsertKeysHeld(v, L, key, value);
  }

  /** The leaf takes `key`. */
  lemma LeafInsertKeysHeld(v: View, L: Node, key: int, value: int)
    requires L in v && |v[L].values| == |v[L].keys|
    ensures key in LeafInsertView(v, L, key, value)[L].keys
  {
  }

  /** The full leaf at the top of a climb has a successor in the chain and can split. */
  lemma LeafSplitReady(v: View, parent: map<Node, Node>, chain: seq<Node>, root: Node, L: Node) returns (j: nat)
    requires Inv(v, parent, chain, root) && L in v && v[L].level == 0
    ensures j < |chain| && chain[j] == L
    ensures HasNext(v, L) && v[v[L].next].level == 0 && |v[L].values| == |v[L].keys|
  {
    j :| 0 <= j < |chain| && chain[j] == L;
    ChainNext(v, chain, L, j);
    assert NodeOK(v, parent, L);
  }

  /** The next node up the path from a full leaf is an internal node that can take a key. */
  lemma LeafParentReady(v: View, parent: map<Node, Node>, chain: seq<Node>, root: Node, order: int,
                        path: seq<Node>, L: Node, key: int)
    requires ClimbState(v, parent, chain, root, order, path, L, key) && path != [] && v[L].level == 0
    ensures var P := path[|path| - 1];
            P in v && P != L && v[P].level > 0 && |v[P].children| == |v[P].keys| + 1
  {
    var P := path[|path| - 1];
    ClimbPop(v, path, L, key);
    assert NodeOK(v, parent, P);
  }

  /** The next node up the path from a full internal node is another internal node that can take a key. */
  lemma InternalParentReady(v: View, parent: map<Node, Node>, chain: seq<Node>, root: Node, order: int,
                            path: seq<Node>, X: Node, key: int)
    requires ClimbState(v, parent, chain, root, order, path, X, key) && path != [] && v[X].level > 0
    ensures var P := path[|path| - 1];
            P in v && P != X && v[P].level > 0 && |v[P].children| == |v[P].keys| + 1
  {
    var P := path[|path| - 1];
    ClimbPop(v, path, X, key);
    assert NodeOK(v, parent, P);
  }

  /**
   * A full leaf below the top of the path splits and its parent, the next
   * node up the path, takes the promoted key: the climb goes on from the
   * parent, with the stored keys unchanged.
   */
  lemma LeafSplitClimbs(v: View, parent: map<Node, Node>, chain: seq<Node>, root: Node, order: int,
                        path: seq<Node>, L: Node, R: Node, key: int, j: nat)
    requires ClimbState(v, parent, chain, root, order, path, L, key) && path != []
    requires v[L].level == 0 && |v[L].keys| == order >= 2
    requires j < |chain| && chain[j] == L && R !in v && HasNext(v, L)
    ensures var P := path[|path| - 1];
            var v1 := SplitLeafView(v, L, R);
            && P in v1 && v1[P].level > 0 && |v1[P].children| == |v1[P].keys| + 1
    ensures var P := path[|path| - 1];
            var v' := InsertSeparatorView(SplitLeafView(v, L, R), P, LeafSplitOf(v[L]).keyToParent, R);
            && ClimbState(v', Adopt(parent, L, R, P), InsertAt(chain, j + 1, R), root, order, path[..|path| - 1], P, key)
            && v'[P].level > 0 && Keys(v') == Keys(v) && v'.Keys == v.Keys + {R}
  {
    var P := path[|path| - 1];
    ClimbPop(v, path, L, key);
    LeafSplitUnderParent(v, parent, chain, root, order, L, R, P, key, j);
    LeafSplitUnderParentBounds(v, order, L, R, P);
    var v' := InsertSeparatorView(SplitLeafView(v, L, R), P, LeafSplitOf(v[L]).keyToParent, R);
    ClimbKept(v, v', path[..|path| - 1], P, key);
  }

  /**
   * A full leaf that is the root splits and a fresh root `Q` takes the
   * promoted key over the two halves: the climb ends at `Q`, with the stored
   * keys unchanged and every node below `order` keys.
   */
  lemma LeafSplitClimbsAtRoot(v: View, parent: map<Node, Node>, chain: seq<Node>, root: Node, order: int,
                              L: Node, R: Node, Q: Node, key: int, j: nat)
    requires ClimbState(v, parent, chain, root, order, [], L, key)
    requires v[L].level == 0 && |v[L].keys| == order >= 2
    requires j < |chain| && chain[j] == L && R !in v && Q !in v && Q != R && HasNext(v, L)
    ensures var v' := NewRootView(SplitLeafView(v, L, R), Q, LeafSplitOf(v[L]).keyToParent, L, R);
            && ClimbState(v', Adopt(parent, L, R, Q), InsertAt(chain, j + 1, R), Q, order, [], Q, key)
            && Bounded(v', order, null)
            && v'[Q].level > 0 && Keys(v') == Keys(v) && v'.Keys == v.Keys + {R, Q}
  {
    LeafSplitAtRoot(v, parent, chain, order, L, R, Q, j);
    LeafSplitAtRootBounds(v, order, L, R, Q);
  }

  /** The full internal node at the top of a climb can split. */
  lemma InternalSplitReady(v: View, parent: map<Node, Node>, chain: seq<Node>, root: Node, X: Node)
    requires Inv(v, parent, chain, root) && X in v && v[X].level > 0
    ensures |v[X].children| == |v[X].keys| + 1
  {
    assert NodeOK(v, parent, X);
  }

  /**
   * A full internal node below the top of the path splits and its parent,
   * the next node up the path, takes the promoted key: the climb goes on
   * from the parent, with the stored keys unchanged.
   */
  lemma InternalSplitClimbs(v: View, parent: map<Node, Node>, chain: seq<Node>, root: Node, order: int,
                            path: seq<Node>, X: Node, R: Node, key: int)
    requires ClimbState(v, parent, chain, root, order, path, X, key) && path != []
    requires v[X].level > 0 && |v[X].keys| == order >= 2 && R !in v
    ensures |v[X].children| == |v[X].keys| + 1
    ensures var P := path[|path| - 1];
            var v1 := SplitInternalView(v, X, R);
            && P in v1 && v1[P].level > 0 && |v1[P].children| == |v1[P].keys| + 1
    ensures var P := path[|path| - 1];
            var s := InternalSplitOf(v[X]);
            var v' := InsertSeparatorView(SplitInternalView(v, X, R), P, s.keyToParent, R);
            && ClimbState(v', SplitParents(parent, s.right.children, X, R, P), chain, root, order, path[..|path| - 1], P, key)
            && v'[P].level > 0 && Keys(v') == Keys(v) && v'.Keys == v.Keys + {R}
  {
    var P := path[|path| - 1];
    ClimbPop(v, path, X, key);
    InternalSplitUnderParent(v, parent, chain, root, order, X, R, P, key);
    InternalSplitUnderParentBounds(v, order, X, R, P);
    var s := InternalSplitOf(v[X]);
    var v' := InsertSeparatorView(SplitInternalView(v, X, R), P, s.keyToParent, R);
    ClimbKept(v, v', path[..|path| - 1], P, key);
  }

  /**
   * A full internal node that is the root splits and a fresh root `Q` takes
   * the promoted key over the two halves: the climb ends at `Q`, with the
   * stored keys unchanged and every node below `order` keys.
   */
  lemma InternalSplitClimbsAtRoot(v: View, parent: map<Node, Node>, chain: seq<Node>, root: Node, order: int,
                                  X: Node, R: Node, Q: Node, key: int)
    requires ClimbState(v, parent, chain, root, order, [], X, key)
    requires v[X].level > 0 && |v[X].keys| == order >= 2 && R !in v && Q !in v && Q != R
    ensures |v[X].children| == |v[X].keys| + 1
    ensures var s := InternalSplitOf(v[X]);
            var v' := NewRootView(SplitInternalView(v, X, R), Q, s.keyToParent, X, R);
            && ClimbState(v', SplitParents(parent, s.right.children, X, R, Q), chain, Q, order, [], Q, key)
            && Bounded(v', order, null)
            && v'[Q].level > 0 && Keys(v') == Keys(v) && v'.Keys == v.Keys + {R, Q}
  {
    InternalSplitAtRoot(v, parent, chain, order, X, R, Q);
    InternalSplitAtRootBounds(v, order, X, R, Q);
  }
}
