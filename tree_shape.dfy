/**
 * The shape of a B+ tree, stated over a ghost snapshot of its nodes.
 *
 * A `View` maps every node of the tree to an `Entry`: the node's fields plus
 * three ghost facts, its level (0 for leaves, one more than its children
 * otherwise) and the key range `[lo, hi)` its subtree is responsible for
 * (`None` is unbounded). `Inv` says the separators route every key to the
 * one leaf whose range holds it and that the leaves form a circular chain in
 * key order. Everything here is a function of values, so the lemmas about a
 * single step never have to reason about the heap.
 */
module TreeShape {
  import opened Wrappers
  import opened SortedSeqs
  import LeafNodes
  import opened Nodes

  /** A node's fields together with its level and the key range of its subtree. */
  datatype Entry = Entry(keys: seq<int>, values: seq<seq<int>>, children: seq<Node>,
                         next: Node?, prev: Node?, level: nat, lo: Option<int>, hi: Option<int>)

  type View = map<Node, Entry>

  predicate AtLeast(lo: Option<int>, k: int) {
    lo.None? || lo.value <= k
  }

  predicate Above(lo: Option<int>, k: int) {
    lo.None? || lo.value < k
  }

  predicate Below(k: int, hi: Option<int>) {
    hi.None? || k < hi.value
  }

  predicate Ordered(lo: Option<int>, hi: Option<int>) {
    lo.None? || hi.None? || lo.value < hi.value
  }

  /** `key` lies in the range `[lo, hi)` of the subtree. */
  predicate InRange(e: Entry, key: int) {
    AtLeast(e.lo, key) && Below(key, e.hi)
  }

  /**
   * The descent rule of `findSearchPath` at an internal node: with `i` the
   * lower bound of `key`, a key equal to `keys[i]` goes to child `i + 1`,
   * any other key to child `i` (child `|keys|` when every key is smaller).
   * The chosen child is the one whose separators enclose `key`.
   */
  function ChildIndex(keys: seq<int>, key: int): (c: nat)
    ensures c <= |keys|
    ensures c == 0 || keys[c - 1] <= key
    ensures StrictlySorted(keys) ==> c == |keys| || key < keys[c]
  {
    var i := LowerBound(keys, key);
    if i < |keys| && key == keys[i] then i + 1 else i
  }

  /** On sorted keys the enclosing child is unique, so the descent rule is the only correct one. */
  lemma ChildIndexUnique(keys: seq<int>, key: int, c: nat)
    requires StrictlySorted(keys) && c <= |keys|
    requires c == 0 || keys[c - 1] <= key
    requires c == |keys| || key < keys[c]
    ensures ChildIndex(keys, key) == c
  {
  }

  /** The lower end of child `i`'s range: the separator on its left, or the node's own `lo`. */
  function ChildLo(e: Entry, i: nat): Option<int>
    requires i <= |e.keys|
  {
    if i == 0 then e.lo else Some(e.keys[i - 1])
  }

  /** The upper end of child `i`'s range: the separator on its right, or the node's own `hi`. */
  function ChildHi(e: Entry, i: nat): Option<int>
    requires i <= |e.keys|
  {
    if i == |e.keys| then e.hi else Some(e.keys[i])
  }

  /** Child `i` of `n` is a node one level down, whose parent is `n` and whose range lies between its separators. */
  ghost predicate ChildOK(v: View, parent: map<Node, Node>, n: Node, i: nat)
    requires n in v && i < |v[n].children| && |v[n].children| == |v[n].keys| + 1
  {
    var c := v[n].children[i];
    && c in v && c in parent && parent[c] == n
    && v[c].level + 1 == v[n].level
    && v[c].lo == ChildLo(v[n], i) && v[c].hi == ChildHi(v[n], i)
  }

  /** The keys every node kept in range: a leaf's keys in `[lo, hi)`, a separator strictly inside `(lo, hi)`. */
  predicate KeyFits(e: Entry, k: int) {
    Below(k, e.hi) && (if e.level == 0 then AtLeast(e.lo, k) else Above(e.lo, k))
  }

  /** What every node satisfies. */
  ghost predicate NodeOK(v: View, parent: map<Node, Node>, n: Node)
    requires n in v
  {
    var e := v[n];
    && StrictlySorted(e.keys)
    && Ordered(e.lo, e.hi)
    && (forall k :: k in e.keys ==> KeyFits(e, k))
    && (e.level == 0 ==> |e.values| == |e.keys|)
    && (e.level > 0 ==>
          && |e.children| == |e.keys| + 1
          && forall i :: 0 <= i < |e.children| ==> ChildOK(v, parent, n, i))
  }

  /**
   * The leaves, in key order, form a circular doubly-linked chain: every
   * leaf appears once, each leaf's `next` is the following one (the last
   * wraps to the first) and `prev` mirrors `next`; each leaf's range ends
   * where the next one's begins.
   */
  ghost predicate ChainOK(v: View, chain: seq<Node>) {
    && |chain| >= 1
    && (forall i :: 0 <= i < |chain| ==> chain[i] in v && v[chain[i]].level == 0)
    && (forall n :: n in v && v[n].level == 0 ==> n in chain)
    && (forall i, j :: 0 <= i < j < |chain| ==> chain[i] != chain[j])
    && (forall i :: 0 <= i < |chain| - 1 ==>
          v[chain[i]].next == chain[i + 1] && v[chain[i + 1]].prev == chain[i])
    && v[chain[|chain| - 1]].next == chain[0] && v[chain[0]].prev == chain[|chain| - 1]
    && v[chain[0]].lo.None? && v[chain[|chain| - 1]].hi.None?
    && (forall i :: 0 <= i < |chain| - 1 ==> v[chain[i]].hi.Some? && v[chain[i]].hi == v[chain[i + 1]].lo)
  }

  /** Every node of the view is well formed. */
  ghost predicate AllNodesOK(v: View, parent: map<Node, Node>) {
    forall n :: n in v ==> NodeOK(v, parent, n)
  }

  /** The whole-tree invariant. The root covers every key and is nobody's child. */
  ghost predicate Inv(v: View, parent: map<Node, Node>, chain: seq<Node>, root: Node) {
    && root in v && root !in parent
    && (forall c :: c in parent ==> c in v)
    && v[root].lo.None? && v[root].hi.None?
    && AllNodesOK(v, parent)
    && ChainOK(v, chain)
  }

  /**
   * Every node holds fewer than `order` keys, except that `except` may hold
   * exactly `order` (the node that is about to split). An order below 2 puts
   * no bound: such a tree never splits, or splits after one key.
   */
  ghost predicate Bounded(v: View, order: int, except: Node?) {
    order >= 2 ==> forall n :: n in v ==> |v[n].keys| < order || (n == except && |v[n].keys| == order)
  }

  /** The distinct keys stored in the tree: the keys of all leaves. */
  ghost function Keys(v: View): set<int> {
    set n, k | n in v && v[n].level == 0 && k in v[n].keys :: k
  }

  /** `b` is the child that the descent rule picks at `a` for `key`. */
  ghost predicate Routes(v: View, a: Node, b: Node, key: int) {
    && a in v
    && ChildIndex(v[a].keys, key) < |v[a].children|
    && v[a].children[ChildIndex(v[a].keys, key)] == b
  }

  /**
   * `findSearchPath` from node `n`: `n` itself, then, unless `n` is a leaf,
   * the path from the child the descent rule picks.
   */
  ghost function PathFrom(v: View, n: Node, key: int): (p: seq<Node>)
    requires n in v
    ensures 1 <= |p| && p[0] == n
    ensures forall i :: 0 <= i < |p| ==> p[i] in v
    ensures forall i :: 0 < i < |p| ==> v[p[i]].level < v[n].level
    decreases v[n].level
  {
    var e := v[n];
    var c := ChildIndex(e.keys, key);
    if e.level == 0 || c >= |e.children| || e.children[c] !in v || v[e.children[c]].level >= e.level then
      [n]
    else
      [n] + PathFrom(v, e.children[c], key)
  }

  /** Below a well-formed internal node, the path goes on from the child the descent rule picks, one level down. */
  lemma PathFromChild(v: View, parent: map<Node, Node>, n: Node, key: int)
    requires n in v && NodeOK(v, parent, n) && v[n].level > 0
    ensures ChildIndex(v[n].keys, key) < |v[n].children|
    ensures var c := v[n].children[ChildIndex(v[n].keys, key)];
            && c in v && v[c].level < v[n].level
            && PathFrom(v, n, key) == [n] + PathFrom(v, c, key)
            && SearchLeaf(v, n, key) == SearchLeaf(v, c, key)
  {
    assert ChildOK(v, parent, n, ChildIndex(v[n].keys, key));
  }

  /**
   * A root-to-leaf search path: every node's range holds `key`, levels fall
   * by one per step down to a leaf, and each node is the routed child of the
   * one before it.
   */
  ghost predicate RoutedPath(v: View, p: seq<Node>, key: int) {
    && |p| >= 1
    && (forall i :: 0 <= i < |p| ==> p[i] in v && InRange(v[p[i]], key) && v[p[i]].level == |p| - 1 - i)
    && (forall i :: 0 <= i < |p| - 1 ==> Routes(v, p[i], p[i + 1], key))
  }

  /** The leaf that `findSearchPath` stops at. */
  ghost function SearchLeaf(v: View, root: Node, key: int): (L: Node)
    requires root in v
    ensures L in v && (L == root || v[L].level < v[root].level)
  {
    var p := PathFrom(v, root, key);
    p[|p| - 1]
  }

  /** The search from the root ends at an aligned leaf whose range holds `key`. */
  lemma SearchLeafOK(v: View, parent: map<Node, Node>, chain: seq<Node>, root: Node, key: int)
    requires Inv(v, parent, chain, root)
    ensures var L := SearchLeaf(v, root, key);
            L in v && v[L].level == 0 && |v[L].values| == |v[L].keys| && InRange(v[L], key)
  {
    PathShape(v, parent, chain, root, root, key);
    assert NodeOK(v, parent, SearchLeaf(v, root, key));
  }

  /** `search`: `getValues(key)` on the leaf the search path ends at. */
  ghost function Find(v: View, root: Node, key: int): (r: Option<seq<int>>)
    requires root in v
    ensures r.Some? ==> key in v[SearchLeaf(v, root, key)].keys
  {
    LeafLookup(v[SearchLeaf(v, root, key)], key)
  }

  /** `getValues(key)` on a leaf entry; nothing when the leaf does not hold one list per key. */
  function LeafLookup(e: Entry, key: int): Option<seq<int>> {
    if |e.values| == |e.keys| then LeafNodes.GetValues(LeafNodes.LeafData(e.keys, e.values), key) else None
  }

  /** Every key reads the same list, or nothing, from both trees. */
  ghost predicate SameLookups(v: View, root: Node, v': View, root': Node) {
    root in v && root' in v' && forall k :: Find(v', root', k) == Find(v, root, k)
  }

  /** Two steps that each keep every lookup together keep every lookup. */
  lemma SameLookupsTrans(v1: View, r1: Node, v2: View, r2: Node, v3: View, r3: Node)
    requires SameLookups(v1, r1, v2, r2) && SameLookups(v2, r2, v3, r3)
    ensures SameLookups(v1, r1, v3, r3)
  {
    forall k
      ensures Find(v3, r3, k) == Find(v1, r1, k)
    {
      assert Find(v3, r3, k) == Find(v2, r2, k);
    }
  }

  /**
   * `search(key)` reads the leaf whose range holds `key`: whichever leaf of
   * a well-formed tree covers `key` is the one the search path ends at.
   */
  lemma FindByRange(v: View, parent: map<Node, Node>, chain: seq<Node>, root: Node, N: Node, key: int)
    requires Inv(v, parent, chain, root)
    requires N in v && v[N].level == 0 && InRange(v[N], key)
    ensures SearchLeaf(v, root, key) == N && Find(v, root, key) == LeafLookup(v[N], key)
  {
    SearchLeafOK(v, parent, chain, root, key);
    LeafForKeyUnique(v, parent, chain, root, SearchLeaf(v, root, key), N, key);
  }

  /**
   * The descent from any node whose range holds `key` is a routed path whose
   * length is the node's level plus one: it stops at the first leaf, which is
   * at the bottom, so from the root its length is the tree's height.
   */
  lemma {:induction false} PathShape(v: View, parent: map<Node, Node>, chain: seq<Node>, root: Node,
                                      n: Node, key: int)
    requires Inv(v, parent, chain, root) && n in v && InRange(v[n], key)
    ensures var p := PathFrom(v, n, key); |p| == v[n].level + 1 && RoutedPath(v, p, key)
    decreases v[n].level
  {
    var e := v[n];
    assert NodeOK(v, parent, n);
    if e.level > 0 {
      var c := ChildIndex(e.keys, key);
      assert ChildOK(v, parent, n, c);
      var child := e.children[c];
      PathShape(v, parent, chain, root, child, key);
      var q := PathFrom(v, child, key);
      var p := PathFrom(v, n, key);
      assert p == [n] + q;
      forall i | 0 <= i < |p| - 1
        ensures Routes(v, p[i], p[i + 1], key)
      {
        if i > 0 {
          assert p[i] == q[i - 1] && p[i + 1] == q[i];
        }
      }
      forall i | 0 <= i < |p|
        ensures p[i] in v && InRange(v[p[i]], key) && v[p[i]].level == |p| - 1 - i
      {
        if i > 0 {
          assert p[i] == q[i - 1];
        }
      }
    }
  }

  /** Leaf ranges grow along the chain: each leaf's range ends before any later leaf's begins. */
  lemma {:induction false} ChainAscending(v: View, parent: map<Node, Node>, chain: seq<Node>, root: Node,
                                          i: nat, j: nat)
    requires Inv(v, parent, chain, root) && i < j < |chain|
    ensures v[chain[i]].hi.Some? && v[chain[j]].lo.Some?
    ensures v[chain[i]].hi.value <= v[chain[j]].lo.value
    decreases j - i
  {
    if j > i + 1 {
      ChainAscending(v, parent, chain, root, i, j - 1);
      assert NodeOK(v, parent, chain[j - 1]);
    }
  }

  /** Leaf ranges are disjoint: at most one leaf's range holds a given key. */
  lemma LeafForKeyUnique(v: View, parent: map<Node, Node>, chain: seq<Node>, root: Node,
                         a: Node, b: Node, key: int)
    requires Inv(v, parent, chain, root)
    requires a in v && v[a].level == 0 && InRange(v[a], key)
    requires b in v && v[b].level == 0 && InRange(v[b], key)
    ensures a == b
  {
    var i :| 0 <= i < |chain| && chain[i] == a;
    var j :| 0 <= j < |chain| && chain[j] == b;
    if i < j {
      ChainAscending(v, parent, chain, root, i, j);
    } else if j < i {
      ChainAscending(v, parent, chain, root, j, i);
    }
  }

  /** The leaf `findSearchPath` reaches holds `key` exactly when the tree holds it. */
  lemma SearchComplete(v: View, parent: map<Node, Node>, chain: seq<Node>, root: Node, key: int)
    requires Inv(v, parent, chain, root)
    ensures key in Keys(v) <==> key in v[SearchLeaf(v, root, key)].keys
  {
    PathShape(v, parent, chain, root, root, key);
    var leaf := SearchLeaf(v, root, key);
    if key in Keys(v) {
      var n: Node :| n in v && v[n].level == 0 && key in v[n].keys;
      assert NodeOK(v, parent, n) && KeyFits(v[n], key);
      LeafForKeyUnique(v, parent, chain, root, n, leaf, key);
    }
  }

  /** `search` finds a list exactly for the keys the tree holds. */
  lemma FindComplete(v: View, parent: map<Node, Node>, chain: seq<Node>, root: Node, key: int)
    requires Inv(v, parent, chain, root)
    ensures Find(v, root, key).Some? <==> key in Keys(v)
  {
    SearchComplete(v, parent, chain, root, key);
    PathShape(v, parent, chain, root, root, key);
    assert NodeOK(v, parent, SearchLeaf(v, root, key));
  }

  /** The only leaf whose range is unbounded below is the first leaf of the chain. */
  lemma LeftmostLeaf(v: View, parent: map<Node, Node>, chain: seq<Node>, root: Node, n: Node)
    requires Inv(v, parent, chain, root)
    requires n in v && v[n].level == 0 && v[n].lo.None?
    ensures n == chain[0]
  {
    assert forall j :: 0 < j < |chain| ==> v[chain[j]].lo.Some? by {
      forall j | 0 < j < |chain|
        ensures v[chain[j]].lo.Some?
      {
        assert v[chain[j - 1]].hi == v[chain[j]].lo;
      }
    }
    var i :| 0 <= i < |chain| && chain[i] == n;
  }
}
