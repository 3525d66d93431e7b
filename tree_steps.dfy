/**
 * One lemma per step of `Bplustree::insert` and `Bplustree::update`: each
 * describes the new snapshot of the tree as a function of the old one and
 * proves that the step keeps the shape invariant, keeps the bound on node
 * sizes (except on the node that may split next) and changes the stored key
 * set only as intended.
 */
module TreeSteps {
  import opened Wrappers
  import opened SortedSeqs
  import LeafNodes
  import InternalNodes
  import opened Nodes
  import opened TreeShape

  /** Same keys, values, children, level and range: only the chain links may differ. */
  predicate SameContents(a: Entry, b: Entry) {
    a.keys == b.keys && a.values == b.values && a.children == b.children && SameRange(a, b)
  }

  /** Same level and range. */
  predicate SameRange(a: Entry, b: Entry) {
    a.level == b.level && a.lo == b.lo && a.hi == b.hi
  }

  /** Child `c` of `n` is in both views with the same range, and `n` is still its parent. */
  ghost predicate KeptChild(v: View, v': View, parent': map<Node, Node>, n: Node, c: Node) {
    c in v && c in v' && SameRange(v[c], v'[c]) && c in parent' && parent'[c] == n
  }

  /** A node whose contents did not change stays well formed when its children kept their ranges and parent. */
  lemma NodeOKFrame(v: View, parent: map<Node, Node>, v': View, parent': map<Node, Node>, n: Node)
    requires n in v && NodeOK(v, parent, n)
    requires n in v' && SameContents(v[n], v'[n])
    requires v[n].level > 0 ==>
               forall i :: 0 <= i < |v[n].children| ==> KeptChild(v, v', parent', n, v[n].children[i])
    ensures NodeOK(v', parent', n)
  {
    if v[n].level > 0 {
      forall i | 0 <= i < |v'[n].children|
        ensures ChildOK(v', parent', n, i)
      {
        assert ChildOK(v, parent, n, i);
        assert KeptChild(v, v', parent', n, v[n].children[i]);
      }
    }
  }

  /**
   * When every node of `v` is still in `v'` with the same range and the
   * parent map is unchanged, any node whose contents did not change stays
   * well formed.
   */
  lemma NodeOKRangesKept(v: View, parent: map<Node, Node>, v': View, n: Node)
    requires n in v && NodeOK(v, parent, n)
    requires n in v' && SameContents(v[n], v'[n])
    requires forall m :: m in v ==> m in v' && SameRange(v[m], v'[m])
    ensures NodeOK(v', parent, n)
  {
    if v[n].level > 0 {
      forall i | 0 <= i < |v[n].children|
        ensures KeptChild(v, v', parent, n, v[n].children[i])
      {
        assert ChildOK(v, parent, n, i);
      }
    }
    NodeOKFrame(v, parent, v', parent, n);
  }

  /** Replacing one leaf's entry by another leaf entry changes no search path, and only that leaf's lookups. */
  lemma FindLeafFrame(v: View, L: Node, e: Entry, root: Node, k: int)
    requires L in v && v[L].level == 0 && e.level == 0 && root in v
    ensures SearchLeaf(v[L := e], root, k) == SearchLeaf(v, root, k)
    ensures Find(v[L := e], root, k) ==
              if SearchLeaf(v, root, k) != L then Find(v, root, k)
              else if |e.values| == |e.keys| then LeafNodes.GetValues(LeafNodes.LeafData(e.keys, e.values), k)
              else None
  {
    PathFromLeafFrame(v, L, e, root, k);
  }

  /** Two children of one node are different nodes, since their ranges differ. */
  lemma ChildrenDistinct(v: View, parent: map<Node, Node>, n: Node)
    requires n in v && NodeOK(v, parent, n) && v[n].level > 0
    ensures forall i, j :: 0 <= i < j < |v[n].children| ==> v[n].children[i] != v[n].children[j]
  {
    forall i, j | 0 <= i < j < |v[n].children|
      ensures v[n].children[i] != v[n].children[j]
    {
      assert ChildOK(v, parent, n, i) && ChildOK(v, parent, n, j);
      assert KeyFits(v[n], v[n].keys[j - 1]);
    }
  }

  /** The view after `LeafNode::insert` on leaf `L`. */
  ghost function LeafInsertView(v: View, L: Node, key: int, value: int): View
    requires L in v && |v[L].values| == |v[L].keys|
  {
    var r := LeafNodes.Insert(LeafNodes.LeafData(v[L].keys, v[L].values), key, value);
    v[L := v[L].(keys := r.keys, values := r.values)]
  }

  /** The view after `LeafNode::update` on leaf `L`. */
  ghost function LeafUpdateView(v: View, L: Node, key: int, vs: seq<int>): View
    requires L in v && |v[L].values| == |v[L].keys|
  {
    var r := LeafNodes.Update(LeafNodes.LeafData(v[L].keys, v[L].values), key, vs);
    v[L := v[L].(values := r.values)]
  }

  /**
   * Changing no level, no leaf's range or chain link, and adding only
   * internal nodes, keeps the chain of leaves intact.
   */
  lemma ChainKept(v: View, v': View, chain: seq<Node>)
    requires ChainOK(v, chain)
    requires forall n :: n in v ==>
               && n in v' && v'[n].level == v[n].level
               && (v[n].level == 0 ==>
                     v'[n].lo == v[n].lo && v'[n].hi == v[n].hi && v'[n].next == v[n].next && v'[n].prev == v[n].prev)
    requires forall n :: n in v' && n !in v ==> v'[n].level > 0
    ensures ChainOK(v', chain)
  {
  }

  /** Changing no leaf's keys and adding only internal nodes keeps the stored keys. */
  lemma KeysFrame(v: View, v': View)
    requires forall n :: n in v ==>
               n in v' && v'[n].level == v[n].level && (v[n].level == 0 ==> v'[n].keys == v[n].keys)
    requires forall n :: n in v' && n !in v ==> v'[n].level > 0
    ensures Keys(v') == Keys(v)
  {
    forall k | k in Keys(v')
      ensures k in Keys(v)
    {
      var n: Node :| n in v' && v'[n].level == 0 && k in v'[n].keys;
      assert n in v && v[n].level == 0 && k in v[n].keys;
    }
    forall k | k in Keys(v)
      ensures k in Keys(v')
    {
      var n: Node :| n in v && v[n].level == 0 && k in v[n].keys;
      assert n in v' && v'[n].level == 0 && k in v'[n].keys;
    }
  }

  /** Views with the same nodes, levels and keys store the same keys and meet the same bounds. */
  lemma SameKeysFrame(v: View, v': View, order: int)
    requires v'.Keys == v.Keys
    requires forall n :: n in v ==> v'[n].level == v[n].level && v'[n].keys == v[n].keys
    ensures Keys(v') == Keys(v)
    ensures Bounded(v, order, null) ==> Bounded(v', order, null)
  {
    forall k | k in Keys(v')
      ensures k in Keys(v)
    {
      var n: Node :| n in v' && v'[n].level == 0 && k in v'[n].keys;
      assert n in v && v[n].level == 0 && k in v[n].keys;
    }
    forall k | k in Keys(v)
      ensures k in Keys(v')
    {
      var n: Node :| n in v && v[n].level == 0 && k in v[n].keys;
      assert n in v' && v'[n].level == 0 && k in v'[n].keys;
    }
  }

  /**
   * `v'` is `v` with only leaf `L`'s keys and values replaced, by sorted,
   * aligned ones that stay in the leaf's range.
   */
  ghost predicate LeafReplaced(v: View, L: Node, v': View) {
    && L in v && v[L].level == 0 && L in v'
    && v' == v[L := v'[L]] && v'[L] == v[L].(keys := v'[L].keys, values := v'[L].values)
    && StrictlySorted(v'[L].keys) && |v'[L].values| == |v'[L].keys|
    && (forall k :: k in v'[L].keys ==> KeyFits(v'[L], k))
  }

  /** Replacing a leaf's contents as `LeafReplaced` allows keeps the invariant. */
  lemma ReplaceLeaf(v: View, parent: map<Node, Node>, chain: seq<Node>, root: Node, L: Node, v': View)
    requires Inv(v, parent, chain, root) && LeafReplaced(v, L, v')
    ensures Inv(v', parent, chain, root)
  {
    forall n | n in v'
      ensures NodeOK(v', parent, n)
    {
      if n != L {
        NodeOKRangesKept(v, parent, v', n);
      }
    }
    ChainKept(v, v', chain);
  }

  /** `LeafNode::insert` of a key in the leaf's range is such a replacement. */
  lemma LeafInsertReplaces(v: View, parent: map<Node, Node>, L: Node, key: int, value: int)
    requires L in v && NodeOK(v, parent, L) && v[L].level == 0 && InRange(v[L], key)
    ensures LeafReplaced(v, L, LeafInsertView(v, L, key, value))
  {
    var v' := LeafInsertView(v, L, key, value);
    assert forall k :: k in v'[L].keys ==> k in v[L].keys || k == key;
  }

  /** `LeafNode::update` is such a replacement, and it keeps every key and every bound. */
  lemma LeafUpdateReplaces(v: View, parent: map<Node, Node>, L: Node, key: int, vs: seq<int>, order: int)
    requires L in v && NodeOK(v, parent, L) && v[L].level == 0
    ensures var v' := LeafUpdateView(v, L, key, vs);
            && LeafReplaced(v, L, v') && Keys(v') == Keys(v)
            && (Bounded(v, order, null) ==> Bounded(v', order, null))
  {
    SameKeysFrame(v, LeafUpdateView(v, L, key, vs), order);
  }

  /**
   * Inserting into the leaf whose range holds `key` keeps the invariant, may
   * bring that leaf (only) to `order` keys, and adds exactly `key` to the
   * stored keys; a key already stored does not grow the leaf.
   */
  lemma LeafInsertStep(v: View, v': View, parent: map<Node, Node>, chain: seq<Node>, root: Node, order: int,
                       L: Node, key: int, value: int)
    requires Inv(v, parent, chain, root) && Bounded(v, order, null)
    requires L in v && v[L].level == 0 && InRange(v[L], key) && |v[L].values| == |v[L].keys|
    requires v' == LeafInsertView(v, L, key, value)
    ensures Inv(v', parent, chain, root) && Bounded(v', order, L)
    ensures Keys(v') == Keys(v) + {key}
    ensures key in Keys(v) ==> |v'[L].keys| == |v[L].keys|
  {
    assert NodeOK(v, parent, L);
    LeafInsertReplaces(v, parent, L, key, value);
    ReplaceLeaf(v, parent, chain, root, L, v');
    LeafInsertKeys(v, L, key, value);
    if key in Keys(v) {
      var n: Node :| n in v && v[n].level == 0 && key in v[n].keys;
      assert NodeOK(v, parent, n) && KeyFits(v[n], key);
      LeafForKeyUnique(v, parent, chain, root, n, L, key);
    }
  }

  /** Inserting into a leaf adds exactly `key` to the stored keys. */
  lemma LeafInsertKeys(v: View, L: Node, key: int, value: int)
    requires L in v && v[L].level == 0 && |v[L].values| == |v[L].keys|
    ensures Keys(LeafInsertView(v, L, key, value)) == Keys(v) + {key}
  {
    var v' := LeafInsertView(v, L, key, value);
    forall k | k in Keys(v')
      ensures k in Keys(v) + {key}
    {
      var n: Node :| n in v' && v'[n].level == 0 && k in v'[n].keys;
      if n != L || k != key {
        assert n in v && v[n].level == 0 && k in v[n].keys;
      }
    }
    forall k | k in Keys(v) + {key}
      ensures k in Keys(v')
    {
      if k == key {
        assert L in v' && v'[L].level == 0 && key in v'[L].keys;
      } else {
        var n: Node :| n in v && v[n].level == 0 && k in v[n].keys;
        assert n in v' && v'[n].level == 0 && k in v'[n].keys;
      }
    }
  }

  /** Changing only a leaf's contents does not change any search path. */
  lemma {:induction false} PathFromLeafFrame(v: View, L: Node, e: Entry, n: Node, key: int)
    requires L in v && v[L].level == 0 && e.level == 0 && n in v
    ensures PathFrom(v[L := e], n, key) == PathFrom(v, n, key)
    decreases v[n].level
  {
    var c := ChildIndex(v[n].keys, key);
    if n != L && v[n].level > 0 && c < |v[n].children| && v[n].children[c] in v
       && v[v[n].children[c]].level < v[n].level
    {
      PathFromLeafFrame(v, L, e, v[n].children[c], key);
    }
  }

  /**
   * Inserting a stored key through the search path appends `value` to that
   * key's list and leaves every other key's lookup unchanged.
   */
  lemma FindAfterLeafInsert(v: View, v': View, parent: map<Node, Node>, chain: seq<Node>, root: Node,
                            L: Node, key: int, value: int)
    requires Inv(v, parent, chain, root) && key in Keys(v)
    requires L == SearchLeaf(v, root, key) && L in v && |v[L].values| == |v[L].keys|
    requires v' == LeafInsertView(v, L, key, value)
    ensures Find(v, root, key).Some?
    ensures Find(v', root, key) == Some(Find(v, root, key).value + [value])
    ensures forall k :: k != key ==> Find(v', root, k) == Find(v, root, k)
  {
    PathShape(v, parent, chain, root, root, key);
    assert NodeOK(v, parent, L);
    FindComplete(v, parent, chain, root, key);
    SearchComplete(v, parent, chain, root, key);
    var d := LeafNodes.LeafData(v[L].keys, v[L].values);
    LeafNodes.InsertExisting(d, key, value);
    FindLeafFrame(v, L, v'[L], root, key);
    forall k | k != key
      ensures Find(v', root, k) == Find(v, root, k)
    {
      FindLeafFrame(v, L, v'[L], root, k);
    }
  }

  /**
   * What `search(k)` returns after `insert(key, value)`, read off the tree
   * before it: a key the descent takes to the same leaf as `key` reads that
   * leaf after `LeafNode::insert`; every other key reads what it read before.
   */
  ghost function FindAfterInsert(v: View, root: Node, key: int, value: int, k: int): Option<seq<int>>
    requires root in v
  {
    var L := SearchLeaf(v, root, key);
    var e := v[L];
    if SearchLeaf(v, root, k) != L then Find(v, root, k)
    else if |e.values| == |e.keys| then LeafNodes.GetValues(LeafNodes.Insert(LeafNodes.LeafData(e.keys, e.values), key, value), k)
    else None
  }

  /** After the leaf insert through the search path, every key reads what `FindAfterInsert` says. */
  lemma FindAfterLeafInsertAll(v: View, v': View, parent: map<Node, Node>, chain: seq<Node>, root: Node,
                               L: Node, key: int, value: int)
    requires Inv(v, parent, chain, root)
    requires L == SearchLeaf(v, root, key) && |v[L].values| == |v[L].keys|
    requires v' == LeafInsertView(v, L, key, value)
    ensures forall k :: Find(v', root, k) == FindAfterInsert(v, root, key, value, k)
  {
    SearchLeafOK(v, parent, chain, root, key);
    forall k
      ensures Find(v', root, k) == FindAfterInsert(v, root, key, value, k)
    {
      FindLeafFrame(v, L, v'[L], root, k);
    }
  }

  /**
   * A new key larger than every key of the leaf it is routed to reads back
   * `[value]` after `insert`, and every other key reads what it did before:
   * the list appended at the end of the leaf is then beside its key.
   */
  lemma InsertLargestFound(v: View, parent: map<Node, Node>, chain: seq<Node>, root: Node, key: int, value: int)
    requires Inv(v, parent, chain, root)
    requires forall k :: k in v[SearchLeaf(v, root, key)].keys ==> k < key
    ensures FindAfterInsert(v, root, key, value, key) == Some([value])
    ensures forall k :: k != key ==> FindAfterInsert(v, root, key, value, k) == Find(v, root, k)
  {
    var L := SearchLeaf(v, root, key);
    SearchLeafOK(v, parent, chain, root, key);
    assert NodeOK(v, parent, L);
    LeafNodes.InsertLargestAligned(LeafNodes.LeafData(v[L].keys, v[L].values), key, value);
  }

  /**
   * `insert` is the leaf insert followed by split steps that keep every
   * lookup, so afterwards every key reads what `FindAfterInsert` says; a new
   * key larger than every stored key reads back `[value]` and no other
   * lookup changes.
   */
  lemma InsertLookups(v0: View, parent: map<Node, Node>, chain: seq<Node>, r0: Node,
                      v1: View, v2: View, r2: Node, key: int, value: int)
    requires Inv(v0, parent, chain, r0)
    requires r0 in v1 && forall k :: Find(v1, r0, k) == FindAfterInsert(v0, r0, key, value, k)
    requires SameLookups(v1, r0, v2, r2)
    ensures forall k :: Find(v2, r2, k) == FindAfterInsert(v0, r0, key, value, k)
    ensures (forall k :: k in Keys(v0) ==> k < key) ==>
              && Find(v2, r2, key) == Some([value])
              && forall k :: k != key ==> Find(v2, r2, k) == Find(v0, r0, k)
  {
    forall k
      ensures Find(v2, r2, k) == FindAfterInsert(v0, r0, key, value, k)
    {
      assert Find(v2, r2, k) == Find(v1, r0, k);
    }
    if forall k :: k in Keys(v0) ==> k < key {
      var L := SearchLeaf(v0, r0, key);
      SearchLeafOK(v0, parent, chain, r0, key);
      forall k | k in v0[L].keys
        ensures k < key
      {
        assert k in Keys(v0);
      }
      InsertLargestFound(v0, parent, chain, r0, key, value);
    }
  }

  /** `update` through the search path keeps the invariant, the bounds and the stored keys. */
  lemma LeafUpdateStep(v: View, v': View, parent: map<Node, Node>, chain: seq<Node>, root: Node, order: int,
                       L: Node, key: int, vs: seq<int>)
    requires Inv(v, parent, chain, root) && Bounded(v, order, null)
    requires L == SearchLeaf(v, root, key) && L in v && |v[L].values| == |v[L].keys|
    requires v' == LeafUpdateView(v, L, key, vs)
    ensures Inv(v', parent, chain, root) && Bounded(v', order, null) && Keys(v') == Keys(v)
  {
    PathShape(v, parent, chain, root, root, key);
    assert NodeOK(v, parent, L);
    LeafUpdateReplaces(v, parent, L, key, vs, order);
    ReplaceLeaf(v, parent, chain, root, L, v');
  }

  /**
   * After `update` through the search path, `key` reads back `vs` if it was
   * stored and nothing otherwise, and every other key reads back what it did
   * before.
   */
  lemma FindAfterLeafUpdate(v: View, v': View, parent: map<Node, Node>, chain: seq<Node>, root: Node,
                             L: Node, key: int, vs: seq<int>)
    requires Inv(v, parent, chain, root)
    requires L == SearchLeaf(v, root, key) && L in v && |v[L].values| == |v[L].keys|
    requires v' == LeafUpdateView(v, L, key, vs)
    ensures Find(v', root, key) == (if key in Keys(v) then Some(vs) else None)
    ensures forall k :: k != key ==> Find(v', root, k) == Find(v, root, k)
  {
    PathShape(v, parent, chain, root, root, key);
    assert NodeOK(v, parent, L);
    SearchComplete(v, parent, chain, root, key);
    FindLeafFrame(v, L, v'[L], root, key);
    forall k | k != key
      ensures Find(v', root, k) == Find(v, root, k)
    {
      FindLeafFrame(v, L, v'[L], root, k);
    }
  }
}
