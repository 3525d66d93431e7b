/**
 * The split steps of `Bplustree::insert`: a full leaf or internal node is
 * split, and the key it hands up goes either into its parent (the next node
 * up the search path) or into a fresh root. Each step lemma proves that the
 * resulting snapshot satisfies the invariant, that only the node that took
 * the promoted key may now hold `order` keys, and that the stored keys do
 * not change.
 */
module TreeSplits {
  import opened Wrappers
  import opened SortedSeqs
  import LeafNodes
  import InternalNodes
  import opened Nodes
  import opened TreeShape
  import opened TreeSteps

  /** The halves and promoted key of a leaf entry. */
  ghost function LeafSplitOf(e: Entry): LeafNodes.LeafSplit
    requires |e.values| == |e.keys| >= 1
  {
    LeafNodes.Split(LeafNodes.LeafData(e.keys, e.values))
  }

  /** The halves and promoted key of an internal entry. */
  ghost function InternalSplitOf(e: Entry): InternalNodes.InternalSplit<Node>
    requires |e.children| == |e.keys| + 1 && |e.keys| >= 1
  {
    InternalNodes.Split(InternalNodes.InternalData(e.keys, e.children))
  }

  /** A leaf's successor in the chain is a node of the view. */
  ghost predicate HasNext(v: View, L: Node) {
    L in v && v[L].next != null && v[L].next in v
  }

  /**
   * The view after `LeafNode::split` on `L` with fresh right leaf `R`: `L`
   * keeps the lower half and its range ends at the promoted key, `R` takes
   * the upper half and the rest of the range, and `R` sits between `L` and
   * its old successor `N` in the chain.
   */
  ghost function SplitLeafView(v: View, L: Node, R: Node): View
    requires HasNext(v, L) && |v[L].values| == |v[L].keys| >= 1
  {
    var e := v[L];
    var s := LeafSplitOf(e);
    var N := e.next;
    var v1 := v[L := e.(keys := s.left.keys, values := s.left.values, next := R, hi := Some(s.keyToParent))]
               [R := Entry(s.right.keys, s.right.values, [], N, L, 0, Some(s.keyToParent), e.hi)];
    v1[N := v1[N].(prev := R)]
  }

  /**
   * The view after `InternalNode::split` on `X` with fresh right node `R`:
   * `X` keeps the keys before the promoted one and the children beside them,
   * `R` takes the rest, and the promoted key is where their ranges meet.
   */
  ghost function SplitInternalView(v: View, X: Node, R: Node): View
    requires X in v && |v[X].children| == |v[X].keys| + 1 && |v[X].keys| >= 1
  {
    var e := v[X];
    var s := InternalSplitOf(e);
    v[X := e.(keys := s.left.keys, children := s.left.children, hi := Some(s.keyToParent))]
     [R := Entry(s.right.keys, [], s.right.children, null, null, e.level, Some(s.keyToParent), e.hi)]
  }

  /** The view after `InternalNode::insert(sep, R)` on `P`. */
  ghost function InsertSeparatorView(v: View, P: Node, sep: int, R: Node): View
    requires P in v && |v[P].children| == |v[P].keys| + 1
  {
    var d := InternalNodes.InsertChild(InternalNodes.InternalData(v[P].keys, v[P].children), sep, R);
    v[P := v[P].(keys := d.keys, children := d.children)]
  }

  /** The view after a fresh root `Q` receives `insert(sep, X, R)`. */
  ghost function NewRootView(v: View, Q: Node, sep: int, X: Node, R: Node): View
    requires X in v
  {
    v[Q := Entry([sep], [], [X, R], null, null, v[X].level + 1, None, None)]
  }

  /** The parent map after a leaf split: both halves `L` and `R` are children of `up`. */
  ghost function Adopt(parent: map<Node, Node>, L: Node, R: Node, up: Node): map<Node, Node> {
    parent[L := up][R := up]
  }

  /** The parent map after splitting `X`: the children moved to `R` now have `R` as parent, and `X`, `R` have `up`. */
  ghost function SplitParents(parent: map<Node, Node>, moved: seq<Node>, X: Node, R: Node, up: Node): map<Node, Node> {
    (parent + map c | c in moved :: R)[X := up][R := up]
  }

  /** What `SplitLeafView` changes: `L`, the new `R`, and the `prev` link of `L`'s old successor. */
  lemma SplitLeafViewFacts(v: View, L: Node, R: Node)
    requires HasNext(v, L) && |v[L].values| == |v[L].keys| >= 1 && v[L].level == 0 && R !in v
    ensures var v1 := SplitLeafView(v, L, R);
            var N := v[L].next;
            && v1.Keys == v.Keys + {R}
            && SameRange(v1[R], v[L].(lo := Some(LeafSplitOf(v[L]).keyToParent)))
            && SameRange(v1[L], v[L].(hi := Some(LeafSplitOf(v[L]).keyToParent)))
            && (forall x :: x in v && x != L && x != N ==> v1[x] == v[x])
            && (N != L ==> v1[N] == v[N].(prev := R))
            && (forall x :: x in v ==> v1[x].level == v[x].level)
  {
  }

  /**
   * A node whose contents did not change stays well formed when each of its
   * children is still there with the same range and the same parent.
   */
  lemma UntouchedNodeOK(v: View, parent: map<Node, Node>, v1: View, parent': map<Node, Node>, n: Node)
    requires n in v && NodeOK(v, parent, n) && n in v1 && SameContents(v[n], v1[n])
    requires forall c :: c in parent && parent[c] == n ==>
               c in v && c in v1 && SameRange(v[c], v1[c]) && c in parent' && parent'[c] == n
    ensures NodeOK(v1, parent', n)
  {
    if v[n].level > 0 {
      forall i | 0 <= i < |v[n].children|
        ensures KeptChild(v, v1, parent', n, v[n].children[i])
      {
        assert ChildOK(v, parent, n, i);
      }
    }
    NodeOKFrame(v, parent, v1, parent', n);
  }

  /**
   * Every node outside `skip` stays well formed when its contents did not
   * change and every child of such a node kept its range and its parent.
   */
  lemma OtherNodesOK(v: View, parent: map<Node, Node>, v1: View, parent': map<Node, Node>, skip: set<Node>)
    requires AllNodesOK(v, parent)
    requires forall n :: n in v1 && n !in skip ==> n in v && SameContents(v[n], v1[n])
    requires forall c :: c in parent && parent[c] !in skip ==>
               c in v && c in v1 && SameRange(v[c], v1[c]) && c in parent' && parent'[c] == parent[c]
    ensures forall n :: n in v1 && n !in skip ==> NodeOK(v1, parent', n)
  {
    forall n | n in v1 && n !in skip
      ensures NodeOK(v1, parent', n)
    {
      assert NodeOK(v, parent, n);
      UntouchedNodeOK(v, parent, v1, parent', n);
    }
  }

  /** Same level, range and chain links. */
  predicate SameLinks(a: Entry, b: Entry) {
    SameRange(a, b) && a.next == b.next && a.prev == b.prev
  }

  /**
   * The chain facts that hold when `R` is spliced in after leaf `L` (at
   * index `j`), whose old successor is `N`: every other leaf keeps its
   * links and range, and `L`'s range is cut where `R`'s begins.
   */
  ghost predicate Spliced(v: View, chain: seq<Node>, v1: View, L: Node, R: Node, N: Node, j: nat) {
    && ChainOK(v, chain)
    && j < |chain| && chain[j] == L
    && SplicedView(v, v1, L, R, N)
  }

  /** The view side of `Spliced`: what the split does to the links and ranges of `L`, `R` and `N`. */
  ghost predicate SplicedView(v: View, v1: View, L: Node, R: Node, N: Node) {
    && R !in v && L in v && N == v[L].next && N in v
    && R in v1 && (forall x :: x in v1 ==> x in v || x == R)
    && (forall x :: x in v && x != L && x != N ==> x in v1 && SameLinks(v[x], v1[x]))
    && (N != L ==> N in v1 && SameRange(v[N], v1[N]) && v1[N].next == v[N].next)
    && N in v1 && v1[N].prev == R
    && L in v1 && v1[L].level == 0 && v1[L].lo == v[L].lo && v1[L].next == R
    && v1[L].hi.Some? && v1[L].hi == v1[R].lo
    && (N != L ==> v1[L].prev == v[L].prev)
    && v1[R].level == 0 && v1[R].prev == L && v1[R].next == N && v1[R].hi == v[L].hi
  }

  /** `SplitLeafView` splices `R` in between `L` and its old successor. */
  lemma SplitLeafSpliced(v: View, L: Node, R: Node)
    requires HasNext(v, L) && |v[L].values| == |v[L].keys| >= 1 && v[L].level == 0 && R !in v
    ensures SplicedView(v, SplitLeafView(v, L, R), L, R, v[L].next)
  {
    SplitLeafViewFacts(v, L, R);
  }

  /** The links along the chain with `R` spliced in after `L`. */
  lemma SpliceLinks(v: View, chain: seq<Node>, v1: View, L: Node, R: Node, N: Node, j: nat)
    requires Spliced(v, chain, v1, L, R, N, j)
    ensures var c := InsertAt(chain, j + 1, R);
            && (forall i :: 0 <= i < |c| ==> c[i] in v1)
            && (forall i :: 0 <= i < |c| - 1 ==> v1[c[i]].next == c[i + 1] && v1[c[i + 1]].prev == c[i])
  {
    var c := InsertAt(chain, j + 1, R);
    assert N == (if j + 1 < |chain| then chain[j + 1] else chain[0]);
    forall i | 0 <= i < |c| - 1
      ensures v1[c[i]].next == c[i + 1] && v1[c[i + 1]].prev == c[i]
    {
      if i < j {
        assert c[i] == chain[i] && c[i + 1] == chain[i + 1] && chain[i] != L;
        assert i + 1 < j ==> chain[i + 1] != L && chain[i + 1] != N;
      } else if i == j + 1 {
        assert c[i + 1] == chain[j + 1];
      } else if i > j + 1 {
        assert c[i] == chain[i - 1] && c[i + 1] == chain[i];
        assert chain[i - 1] != L && chain[i] != L && chain[i] != N;
      }
    }
  }

  /** Neighbouring leaves still meet at a separator once `R` is spliced in after `L`. */
  lemma SpliceRanges(v: View, chain: seq<Node>, v1: View, L: Node, R: Node, N: Node, j: nat)
    requires Spliced(v, chain, v1, L, R, N, j)
    ensures var c := InsertAt(chain, j + 1, R);
            && (forall i :: 0 <= i < |c| ==> c[i] in v1)
            && (forall i :: 0 <= i < |c| - 1 ==> v1[c[i]].hi.Some? && v1[c[i]].hi == v1[c[i + 1]].lo)
  {
    var c := InsertAt(chain, j + 1, R);
    assert N == (if j + 1 < |chain| then chain[j + 1] else chain[0]);
    forall i | 0 <= i < |c| - 1
      ensures v1[c[i]].hi.Some? && v1[c[i]].hi == v1[c[i + 1]].lo
    {
      if i < j {
        assert c[i] == chain[i] && c[i + 1] == chain[i + 1] && chain[i] != L;
        assert i + 1 < j ==> chain[i + 1] != L && chain[i + 1] != N;
      } else if i == j + 1 {
        assert c[i + 1] == chain[j + 1];
      } else if i > j + 1 {
        assert c[i] == chain[i - 1] && c[i + 1] == chain[i];
        assert chain[i - 1] != L && chain[i] != L && chain[i] != N;
      }
    }
  }

  /** The wrap-around link and the ends of the chain with `R` spliced in after `L`. */
  lemma SpliceEnds(v: View, chain: seq<Node>, v1: View, L: Node, R: Node, N: Node, j: nat)
    requires Spliced(v, chain, v1, L, R, N, j)
    ensures var c := InsertAt(chain, j + 1, R);
            && c[|c| - 1] in v1 && c[0] in v1
            && v1[c[|c| - 1]].next == c[0] && v1[c[0]].prev == c[|c| - 1]
            && v1[c[0]].lo.None? && v1[c[|c| - 1]].hi.None?
  {
    var c := InsertAt(chain, j + 1, R);
    var last := |chain| - 1;
    assert N == (if j < last then chain[j + 1] else chain[0]);
    if j < last {
      assert c[|c| - 1] == chain[last] && chain[last] != L;
      assert c[0] == chain[0];
      if j > 0 {
        assert chain[0] != L && chain[0] != N;
      }
    } else {
      assert c[|c| - 1] == R;
      if j > 0 {
        assert c[0] == chain[0] && chain[0] != L;
      }
    }
  }

  /** Every node of the chain with `R` spliced in after `L` is a leaf of the new view. */
  lemma SpliceLeaves(v: View, chain: seq<Node>, v1: View, L: Node, R: Node, N: Node, j: nat)
    requires Spliced(v, chain, v1, L, R, N, j)
    ensures forall y :: y in InsertAt(chain, j + 1, R) ==> y in v1 && v1[y].level == 0
  {
    InsertAtMembers(chain, j + 1, R);
    forall y | y in chain
      ensures y in v1 && v1[y].level == 0
    {
      var k :| 0 <= k < |chain| && chain[k] == y;
    }
  }

  /** Every leaf of the new view is in the chain with `R` spliced in after `L`. */
  lemma SpliceCovers(v: View, chain: seq<Node>, v1: View, L: Node, R: Node, N: Node, j: nat)
    requires Spliced(v, chain, v1, L, R, N, j)
    ensures forall x :: x in v1 && v1[x].level == 0 ==> x in InsertAt(chain, j + 1, R)
  {
    InsertAtMembers(chain, j + 1, R);
    assert N in chain by {
      assert N == (if j + 1 < |chain| then chain[j + 1] else chain[0]);
    }
  }

  /** Every leaf appears exactly once in the chain with `R` spliced in after `L`. */
  lemma SpliceMembers(v: View, chain: seq<Node>, v1: View, L: Node, R: Node, N: Node, j: nat)
    requires Spliced(v, chain, v1, L, R, N, j)
    ensures var c := InsertAt(chain, j + 1, R);
            && (forall i :: 0 <= i < |c| ==> c[i] in v1 && v1[c[i]].level == 0)
            && (forall x :: x in v1 && v1[x].level == 0 ==> x in c)
            && (forall i, i' :: 0 <= i < i' < |c| ==> c[i] != c[i'])
  {
    SpliceLeaves(v, chain, v1, L, R, N, j);
    SpliceCovers(v, chain, v1, L, R, N, j);
    InsertAtDistinct(chain, j + 1, R);
  }

  /** A leaf of the chain links to the next leaf, or back to the first one from the last. */
  lemma ChainNext(v: View, chain: seq<Node>, L: Node, j: nat)
    requires ChainOK(v, chain) && j < |chain| && chain[j] == L
    ensures HasNext(v, L) && v[L].level == 0 && v[v[L].next].level == 0
    ensures v[L].next == (if j + 1 < |chain| then chain[j + 1] else chain[0])
  {
    if j + 1 < |chain| {
      assert v[chain[j]].next == chain[j + 1] && chain[j + 1] in v && v[chain[j + 1]].level == 0;
    } else {
      assert chain[0] in v && v[chain[0]].level == 0;
    }
  }

  /** Splitting leaf `L` (at chain index `j`) inserts `R` right after it in the chain. */
  lemma ChainAfterLeafSplit(v: View, chain: seq<Node>, L: Node, R: Node, j: nat)
    requires ChainOK(v, chain)
    requires j < |chain| && chain[j] == L && R !in v
    requires |v[L].values| == |v[L].keys| >= 1
    ensures HasNext(v, L) && v[L].level == 0 && v[v[L].next].level == 0
    ensures ChainOK(SplitLeafView(v, L, R), InsertAt(chain, j + 1, R))
  {
    assert v[L].next == (if j + 1 < |chain| then chain[j + 1] else chain[0]);
    SplitLeafSpliced(v, L, R);
    SplicedChainOK(v, chain, SplitLeafView(v, L, R), L, R, v[L].next, j);
  }

  /** Splicing `R` in after `L` (at index `j`) gives a chain of leaves again. */
  lemma SplicedChainOK(v: View, chain: seq<Node>, v1: View, L: Node, R: Node, N: Node, j: nat)
    requires Spliced(v, chain, v1, L, R, N, j)
    ensures ChainOK(v1, InsertAt(chain, j + 1, R))
  {
    SpliceLinks(v, chain, v1, L, R, N, j);
    SpliceRanges(v, chain, v1, L, R, N, j);
    SpliceEnds(v, chain, v1, L, R, N, j);
    SpliceMembers(v, chain, v1, L, R, N, j);
  }

  /** Both halves of a split leaf are well formed leaves. */
  lemma LeafHalvesOK(v: View, parent: map<Node, Node>, parent': map<Node, Node>, L: Node, R: Node)
    requires L in v && NodeOK(v, parent, L) && v[L].level == 0 && |v[L].keys| >= 2 && HasNext(v, L) && R !in v
    ensures var v1 := SplitLeafView(v, L, R);
            NodeOK(v1, parent', L) && NodeOK(v1, parent', R)
  {
    var e := v[L];
    LeafNodes.SplitOrdered(LeafNodes.LeafData(e.keys, e.values));
    assert KeyFits(e, e.keys[0]) && KeyFits(e, LeafSplitOf(e).keyToParent);
    LeftHalfOK(v, parent, parent', L, R);
    RightHalfOK(v, parent, parent', L, R);
  }

  /** The lower half of a split leaf keeps its keys below the promoted key. */
  lemma LeftHalfOK(v: View, parent: map<Node, Node>, parent': map<Node, Node>, L: Node, R: Node)
    requires L in v && NodeOK(v, parent, L) && v[L].level == 0 && |v[L].keys| >= 2 && HasNext(v, L) && R !in v
    requires var s := LeafSplitOf(v[L]);
             && StrictlySorted(s.left.keys) && (forall k :: k in s.left.keys ==> k < s.keyToParent)
             && |s.left.keys| >= 1 && KeyFits(v[L], v[L].keys[0])
    ensures NodeOK(SplitLeafView(v, L, R), parent', L)
  {
    var e := v[L];
    var s := LeafSplitOf(e);
    var v1 := SplitLeafView(v, L, R);
    assert v1[L].keys == s.left.keys;
    assert forall k :: k in s.left.keys ==> k in e.keys;
    assert s.left.keys[0] in s.left.keys;
  }

  /** The upper half of a split leaf starts at the promoted key and keeps the old upper end. */
  lemma RightHalfOK(v: View, parent: map<Node, Node>, parent': map<Node, Node>, L: Node, R: Node)
    requires L in v && NodeOK(v, parent, L) && v[L].level == 0 && |v[L].keys| >= 2 && HasNext(v, L) && R !in v
    requires var s := LeafSplitOf(v[L]);
             && StrictlySorted(s.right.keys) && (forall k :: k in s.right.keys ==> s.keyToParent <= k)
             && KeyFits(v[L], s.keyToParent)
    ensures NodeOK(SplitLeafView(v, L, R), parent', R)
  {
    var e := v[L];
    var s := LeafSplitOf(e);
    var v1 := SplitLeafView(v, L, R);
    assert v1[R].keys == s.right.keys;
    assert forall k :: k in s.right.keys ==> k in e.keys;
  }

  /**
   * After splitting leaf `L` into `L` and `R`, every node other than the one
   * that will take the promoted key (`up`) is well formed, with `L` and `R`
   * recorded as children of `up`.
   */
  lemma LeafSplitNodesOK(v: View, parent: map<Node, Node>, chain: seq<Node>, root: Node,
                         L: Node, R: Node, up: Node)
    requires Inv(v, parent, chain, root)
    requires L in v && v[L].level == 0 && |v[L].keys| >= 2 && HasNext(v, L) && R !in v && up != R
    requires L in parent ==> parent[L] == up
    ensures var v1 := SplitLeafView(v, L, R);
            forall n :: n in v1 && n != up ==> NodeOK(v1, Adopt(parent, L, R, up), n)
  {
    assert NodeOK(v, parent, L);
    LeafSplitFrame(v, parent, L, R, up);
    OtherNodesOK(v, parent, SplitLeafView(v, L, R), Adopt(parent, L, R, up), {L, R, up});
    LeafHalvesOK(v, parent, Adopt(parent, L, R, up), L, R);
  }

  /** A leaf split changes the contents of no node but the two halves, and moves no range but theirs. */
  lemma LeafSplitFrame(v: View, parent: map<Node, Node>, L: Node, R: Node, up: Node)
    requires HasNext(v, L) && v[L].level == 0 && |v[L].values| == |v[L].keys| >= 1 && R !in v
    requires (forall c :: c in parent ==> c in v) && (L in parent ==> parent[L] == up)
    ensures var v1 := SplitLeafView(v, L, R);
            var skip := {L, R, up};
            && (forall n :: n in v1 && n !in skip ==> n in v && SameContents(v[n], v1[n]))
            && (forall c :: c in parent && parent[c] !in skip ==>
                  c in v && c in v1 && SameRange(v[c], v1[c]) && c in Adopt(parent, L, R, up) && Adopt(parent, L, R, up)[c] == parent[c])
  {
    SplitLeafViewFacts(v, L, R);
  }

  /** Where `SplitParents` sends each node. */
  lemma SplitParentsFacts(parent: map<Node, Node>, moved: seq<Node>, X: Node, R: Node, up: Node)
    ensures var p := SplitParents(parent, moved, X, R, up);
            && X in p && p[X] == up && R in p && p[R] == up
            && (forall c :: c in moved && c != X && c != R ==> c in p && p[c] == R)
            && (forall c :: c in parent && c !in moved && c != X && c != R ==> c in p && p[c] == parent[c])
            && (forall c :: c in p ==> c in parent || c in moved || c == X || c == R)
  {
  }

  /** The left half of a split internal node is well formed once its children still name it as parent. */
  lemma InternalLeftOK(v: View, parent: map<Node, Node>, parent': map<Node, Node>, X: Node, R: Node)
    requires X in v && NodeOK(v, parent, X) && v[X].level > 0 && |v[X].keys| >= 1 && R !in v
    requires forall i :: 0 <= i <= |v[X].keys| / 2 ==>
               v[X].children[i] in parent' && parent'[v[X].children[i]] == X
    ensures NodeOK(SplitInternalView(v, X, R), parent', X)
  {
    var e := v[X];
    var s := InternalSplitOf(e);
    var m := |e.keys| / 2;
    InternalNodes.SplitOrdered(InternalNodes.InternalData(e.keys, e.children));
    assert KeyFits(e, s.keyToParent);
    var v1 := SplitInternalView(v, X, R);
    assert v1[X].keys == e.keys[..m] && v1[X].children == e.children[..m + 1];
    assert forall k :: k in s.left.keys ==> k in e.keys;
    forall i | 0 <= i < |v1[X].children|
      ensures ChildOK(v1, parent', X, i)
    {
      assert ChildOK(v, parent, X, i);
      assert v1[e.children[i]] == v[e.children[i]];
    }
  }

  /** The keys of the right half of a split internal node lie strictly inside its range. */
  lemma InternalRightKeys(e: Entry)
    requires StrictlySorted(e.keys) && forall k :: k in e.keys ==> KeyFits(e, k)
    requires e.level > 0 && |e.keys| >= 1 && |e.children| == |e.keys| + 1
    ensures var s := InternalSplitOf(e);
            && Ordered(Some(s.keyToParent), e.hi)
            && forall k :: k in s.right.keys ==> Above(Some(s.keyToParent), k) && Below(k, e.hi)
  {
    var s := InternalSplitOf(e);
    InternalNodes.SplitOrdered(InternalNodes.InternalData(e.keys, e.children));
    assert KeyFits(e, s.keyToParent);
    assert forall k :: k in s.right.keys ==> k in e.keys;
  }

  /** The right half of a split internal node is well formed once the moved children name it as parent. */
  lemma InternalRightOK(v: View, parent: map<Node, Node>, parent': map<Node, Node>, X: Node, R: Node)
    requires X in v && NodeOK(v, parent, X) && v[X].level > 0 && |v[X].keys| >= 1 && R !in v
    requires forall i :: |v[X].keys| / 2 < i < |v[X].children| ==>
               v[X].children[i] in parent' && parent'[v[X].children[i]] == R
    ensures NodeOK(SplitInternalView(v, X, R), parent', R)
  {
    var e := v[X];
    var m := |e.keys| / 2;
    InternalRightKeys(e);
    var v1 := SplitInternalView(v, X, R);
    var r := v1[R];
    assert r.keys == e.keys[m + 1..] && r.children == e.children[m + 1..];
    assert StrictlySorted(r.keys);
    forall i | 0 <= i < |r.children|
      ensures ChildOK(v1, parent', R, i)
    {
      assert ChildOK(v, parent, X, m + 1 + i);
      var c := e.children[m + 1 + i];
      assert r.children[i] == c && v1[c] == v[c];
      assert i > 0 ==> r.keys[i - 1] == e.keys[m + i];
      assert i < |r.keys| ==> r.keys[i] == e.keys[m + 1 + i];
    }
  }

  /** The children of `X` are distinct nodes of the view, none of them `X` or a node outside it. */
  lemma ChildrenOfX(v: View, parent: map<Node, Node>, X: Node, R: Node)
    requires X in v && NodeOK(v, parent, X) && v[X].level > 0 && R !in v
    ensures forall i :: 0 <= i < |v[X].children| ==>
              v[X].children[i] != X && v[X].children[i] != R && v[X].children[i] in parent && parent[v[X].children[i]] == X
    ensures forall i, j :: 0 <= i < j < |v[X].children| ==> v[X].children[i] != v[X].children[j]
  {
    ChildrenDistinct(v, parent, X);
    forall i | 0 <= i < |v[X].children|
      ensures v[X].children[i] != X && v[X].children[i] != R && v[X].children[i] in parent && parent[v[X].children[i]] == X
    {
      assert ChildOK(v, parent, X, i);
    }
  }

  /**
   * After an internal split that moves `children[m + 1..]` to `R`, the
   * children up to index `m` still name `X` as parent and the rest name `R`.
   */
  lemma MovedParents(children: seq<Node>, m: nat, parent: map<Node, Node>, X: Node, R: Node, up: Node)
    requires m < |children|
    requires forall i :: 0 <= i < |children| ==>
               children[i] != X && children[i] != R && children[i] in parent && parent[children[i]] == X
    requires forall i, j :: 0 <= i < j < |children| ==> children[i] != children[j]
    ensures var parent' := SplitParents(parent, children[m + 1..], X, R, up);
            && (forall i :: 0 <= i <= m ==> children[i] in parent' && parent'[children[i]] == X)
            && (forall i :: m < i < |children| ==> children[i] in parent' && parent'[children[i]] == R)
            && (forall c :: c in children[m + 1..] ==> c in parent && parent[c] == X)
  {
    var moved := children[m + 1..];
    SplitParentsFacts(parent, moved, X, R, up);
    forall i | m < i < |children|
      ensures children[i] in moved
    {
      assert children[i] == moved[i - m - 1];
    }
    forall i | 0 <= i <= m
      ensures children[i] !in moved
    {
      forall i' | 0 <= i' < |moved|
        ensures moved[i'] != children[i]
      {
        assert moved[i'] == children[m + 1 + i'];
      }
    }
    forall c | c in moved
      ensures c in parent && parent[c] == X
    {
      var i :| 0 <= i < |moved| && moved[i] == c;
      assert c == children[m + 1 + i];
    }
  }

  /** After an internal split, `X`'s children up to the promoted key name `X` and the rest name `R`. */
  lemma InternalSplitParents(v: View, parent: map<Node, Node>, X: Node, R: Node, up: Node)
    requires X in v && NodeOK(v, parent, X) && v[X].level > 0 && |v[X].keys| >= 1 && R !in v
    ensures var e := v[X];
            var parent' := SplitParents(parent, InternalSplitOf(e).right.children, X, R, up);
            && (forall i :: 0 <= i <= |e.keys| / 2 ==> e.children[i] in parent' && parent'[e.children[i]] == X)
            && (forall i :: |e.keys| / 2 < i < |e.children| ==> e.children[i] in parent' && parent'[e.children[i]] == R)
            && (forall c :: c in InternalSplitOf(e).right.children ==> c in parent && parent[c] == X)
  {
    ChildrenOfX(v, parent, X, R);
    var e := v[X];
    var m := |e.keys| / 2;
    assert InternalSplitOf(e).right.children == e.children[m + 1..];
    MovedParents(e.children, m, parent, X, R, up);
  }

  /**
   * After splitting internal node `X` into `X` and `R`, every node other than
   * the one that will take the promoted key (`up`) is well formed: the moved
   * children now have `R` as parent, and `X`, `R` have `up`.
   */
  lemma InternalSplitNodesOK(v: View, parent: map<Node, Node>, chain: seq<Node>, root: Node,
                             X: Node, R: Node, up: Node)
    requires Inv(v, parent, chain, root)
    requires X in v && v[X].level > 0 && |v[X].keys| >= 1 && R !in v && up != R
    requires X in parent ==> parent[X] == up
    ensures |v[X].children| == |v[X].keys| + 1
    ensures var v1 := SplitInternalView(v, X, R);
            var s := InternalSplitOf(v[X]);
            forall n :: n in v1 && n != up ==> NodeOK(v1, SplitParents(parent, s.right.children, X, R, up), n)
  {
    assert NodeOK(v, parent, X);
    var s := InternalSplitOf(v[X]);
    var v1 := SplitInternalView(v, X, R);
    var parent' := SplitParents(parent, s.right.children, X, R, up);
    InternalSplitParents(v, parent, X, R, up);
    InternalLeftOK(v, parent, parent', X, R);
    InternalRightOK(v, parent, parent', X, R);
    InternalSplitFrame(v, parent, X, R, up);
    OtherNodesOK(v, parent, v1, parent', {X, R, up});
  }

  /** An internal split changes the contents of no node but the two halves, and moves no range but theirs. */
  lemma InternalSplitFrame(v: View, parent: map<Node, Node>, X: Node, R: Node, up: Node)
    requires X in v && |v[X].children| == |v[X].keys| + 1 && |v[X].keys| >= 1 && R !in v
    requires (forall c :: c in parent ==> c in v) && (X in parent ==> parent[X] == up)
    requires forall c :: c in InternalSplitOf(v[X]).right.children ==> c in parent && parent[c] == X
    ensures var v1 := SplitInternalView(v, X, R);
            var parent' := SplitParents(parent, InternalSplitOf(v[X]).right.children, X, R, up);
            var skip := {X, R, up};
            && (forall n :: n in v1 && n !in skip ==> n in v && SameContents(v[n], v1[n]))
            && (forall c :: c in parent && parent[c] !in skip ==>
                  c in v && c in v1 && SameRange(v[c], v1[c]) && c in parent' && parent'[c] == parent[c])
  {
    SplitParentsFacts(parent, InternalSplitOf(v[X]).right.children, X, R, up);
  }

  /** The keys of the parent `P` of split node `X` stay sorted and in range once `sep` is added. */
  lemma ParentKeysOK(v: View, parent: map<Node, Node>, P: Node, k: nat, X: Node, sep: int)
    requires P in v && NodeOK(v, parent, P) && v[P].level > 0 && k < |v[P].children| && v[P].children[k] == X
    requires ChildOK(v, parent, P, k)
    requires Above(v[X].lo, sep) && Below(sep, v[X].hi)
    ensures LowerBound(v[P].keys, sep) == k && sep !in v[P].keys
    ensures forall R: Node :: var e' := InsertSeparatorView(v, P, sep, R)[P];
              StrictlySorted(e'.keys) && forall x :: x in e'.keys ==> KeyFits(e', x)
  {
    var e := v[P];
    LowerBoundBetween(e.keys, sep, k);
    LowerBoundFinds(e.keys, sep);
    assert k > 0 ==> KeyFits(e, e.keys[k - 1]);
    assert k < |e.keys| ==> KeyFits(e, e.keys[k]);
    forall R: Node
      ensures var e' := InsertSeparatorView(v, P, sep, R)[P];
              StrictlySorted(e'.keys) && forall x :: x in e'.keys ==> KeyFits(e', x)
    {
      var d := InternalNodes.InsertChild(InternalNodes.InternalData(e.keys, e.children), sep, R);
      forall x | x in d.keys
        ensures KeyFits(e, x)
      {
        assert x in multiset(d.keys);
        if x != sep {
          assert x in multiset(e.keys);
        }
      }
    }
  }

  /**
   * `e'` is internal entry `e` with `sep` inserted as key `k` and `R` as
   * child `k + 1`, everything after moved one place right.
   */
  ghost predicate SeparatorAt(e: Entry, e': Entry, k: nat, sep: int, R: Node) {
    && k < |e.children| == |e.keys| + 1
    && |e'.keys| == |e.keys| + 1 && |e'.children| == |e.children| + 1
    && SameRange(e, e')
    && e'.keys[k] == sep && e'.children[k] == e.children[k] && e'.children[k + 1] == R
    && (forall i :: 0 <= i < k ==> e'.keys[i] == e.keys[i] && e'.children[i] == e.children[i])
    && (forall i :: k < i < |e'.keys| ==> e'.keys[i] == e.keys[i - 1])
    && (forall i :: k + 1 < i < |e'.children| ==> e'.children[i] == e.children[i - 1])
  }

  /** `InternalNode::insert(sep, R)` on `P` places `sep` at its lower bound `k` and `R` after child `k`. */
  lemma InsertSeparatorShape(v: View, P: Node, sep: int, R: Node)
    requires P in v && |v[P].children| == |v[P].keys| + 1
    ensures SeparatorAt(v[P], InsertSeparatorView(v, P, sep, R)[P], LowerBound(v[P].keys, sep), sep, R)
  {
  }

  /**
   * Child `i` of the parent `P` is well formed after `sep` and `R` are
   * inserted beside `X` (child `k`): the children before `X` keep their
   * index, `X` and `R` share `X`'s old range at `sep`, and the children after
   * move one place right together with their separators.
   */
  lemma ParentChildOK(v: View, parent: map<Node, Node>, v1: View, v': View, parent': map<Node, Node>,
                      P: Node, k: nat, X: Node, R: Node, sep: int, i: nat)
    requires P in v && NodeOK(v, parent, P) && v[P].level > 0 && k < |v[P].children| && v[P].children[k] == X
    requires P in v' && SeparatorAt(v[P], v'[P], k, sep, R)
    requires forall c :: c in v1 && c != P ==> c in v' && v'[c] == v1[c]
    requires X in v1 && X != P && v1[X].level + 1 == v[P].level
    requires v1[X].lo == ChildLo(v[P], k) && v1[X].hi == Some(sep)
    requires R in v1 && R != P && v1[R].level + 1 == v[P].level && v1[R].lo == Some(sep) && v1[R].hi == ChildHi(v[P], k)
    requires forall i :: 0 <= i < |v[P].children| && i != k ==> KeptChild(v, v1, parent', P, v[P].children[i])
    requires X in parent' && parent'[X] == P && R in parent' && parent'[R] == P
    requires i < |v[P].children| + 1
    ensures ChildOK(v', parent', P, i)
  {
    var e := v[P];
    var e' := v'[P];
    if i < k {
      assert i > 0 ==> e'.keys[i - 1] == e.keys[i - 1];
      assert KeptChild(v, v1, parent', P, e.children[i]);
      assert ChildOK(v, parent, P, i);
      assert e.children[i] != P;
    } else if i == k {
      assert k > 0 ==> e'.keys[k - 1] == e.keys[k - 1];
    } else if i == k + 1 {
      assert i < |e'.keys| ==> e'.keys[i] == e.keys[k];
    } else {
      assert e'.keys[i - 1] == e.keys[i - 2];
      assert i < |e'.keys| ==> e'.keys[i] == e.keys[i - 1];
      assert KeptChild(v, v1, parent', P, e.children[i - 1]);
      assert ChildOK(v, parent, P, i - 1);
      assert e.children[i - 1] != P;
    }
  }

  /**
   * In `v1`, child `X` of `P` has been split into `X` and `R` at `sep`: `P`
   * is unchanged, the halves share `X`'s old range at `sep` and are recorded
   * under `P`, and the other children of `P` kept their ranges and parent.
   */
  ghost predicate SplitBeside(v: View, parent: map<Node, Node>, v1: View, parent': map<Node, Node>,
                              P: Node, X: Node, R: Node, sep: int) {
    && X in v && P in v && P in v1 && v1[P] == v[P]
    && X in v1 && X != P && SameRange(v1[X], v[X].(hi := Some(sep)))
    && R in v1 && R != P && SameRange(v1[R], v[X].(lo := Some(sep)))
    && (forall c :: c in parent && c != X && parent[c] == P ==>
          c in v && c in v1 && SameRange(v[c], v1[c]) && c in parent' && parent'[c] == P)
    && X in parent' && parent'[X] == P && R in parent' && parent'[R] == P
  }

  /**
   * The parent `P` of split node `X` (child `k` of `P`) is well formed once
   * it holds the promoted key `sep`, which lies strictly inside `X`'s range,
   * and `R` sits right after `X`.
   */
  lemma ParentAfterSplit(v: View, parent: map<Node, Node>, v1: View, parent': map<Node, Node>,
                         P: Node, k: nat, X: Node, R: Node, sep: int)
    requires P in v && NodeOK(v, parent, P) && v[P].level > 0 && k < |v[P].children| && v[P].children[k] == X
    requires ChildOK(v, parent, P, k)
    requires Above(v[X].lo, sep) && Below(sep, v[X].hi)
    requires SplitBeside(v, parent, v1, parent', P, X, R, sep)
    ensures |v1[P].children| == |v1[P].keys| + 1
    ensures NodeOK(InsertSeparatorView(v1, P, sep, R), parent', P)
  {
    var e := v[P];
    ChildrenDistinct(v, parent, P);
    ParentKeysOK(v, parent, P, k, X, sep);
    var v' := InsertSeparatorView(v1, P, sep, R);
    assert v'[P].keys == InsertSeparatorView(v, P, sep, R)[P].keys;
    InsertSeparatorShape(v1, P, sep, R);
    forall i | 0 <= i < |e.children| && i != k
      ensures KeptChild(v, v1, parent', P, e.children[i])
    {
      assert ChildOK(v, parent, P, i);
    }
    forall i | 0 <= i < |e.children| + 1
      ensures ChildOK(v', parent', P, i)
    {
      ParentChildOK(v, parent, v1, v', parent', P, k, X, R, sep, i);
    }
  }

  /**
   * Completing a split under parent `P`: when every node but `P` is well
   * formed in `v1` and `P` is well formed once it takes `sep`, every node is
   * well formed after the separator insertion.
   */
  lemma SeparatorNodesOK(v1: View, parent': map<Node, Node>, P: Node, sep: int, R: Node)
    requires P in v1 && |v1[P].children| == |v1[P].keys| + 1
    requires forall n :: n in v1 && n != P ==> NodeOK(v1, parent', n)
    requires NodeOK(InsertSeparatorView(v1, P, sep, R), parent', P)
    ensures AllNodesOK(InsertSeparatorView(v1, P, sep, R), parent')
  {
    var v' := InsertSeparatorView(v1, P, sep, R);
    forall n | n in v' && n != P
      ensures NodeOK(v', parent', n)
    {
      NodeOKRangesKept(v1, parent', v', n);
    }
  }

  /** Inserting a separator into an internal node leaves the chain of leaves as it was. */
  lemma SeparatorChainOK(v1: View, chain': seq<Node>, P: Node, sep: int, R: Node)
    requires P in v1 && v1[P].level > 0 && |v1[P].children| == |v1[P].keys| + 1
    requires ChainOK(v1, chain')
    ensures ChainOK(InsertSeparatorView(v1, P, sep, R), chain')
  {
    ChainKept(v1, InsertSeparatorView(v1, P, sep, R), chain');
  }

  /**
   * The halves `X` and `R` of the old root split their whole range at `sep`
   * and are already recorded as children of the fresh node `Q`.
   */
  ghost predicate RootHalves(v1: View, parent': map<Node, Node>, Q: Node, sep: int, X: Node, R: Node) {
    && Q !in v1 && Q !in parent' && (forall c :: c in parent' ==> c in v1)
    && X in v1 && R in v1 && v1[X].level == v1[R].level
    && v1[X].lo.None? && v1[X].hi == Some(sep) && v1[R].lo == Some(sep) && v1[R].hi.None?
    && X in parent' && parent'[X] == Q && R in parent' && parent'[R] == Q
  }

  /**
   * Completing a split at the root: a fresh root `Q` holding only `sep` over
   * the two halves `X` and `R` makes a tree that satisfies the invariant.
   */
  lemma FinishAtRoot(v1: View, parent': map<Node, Node>, chain': seq<Node>, Q: Node, sep: int, X: Node, R: Node)
    requires AllNodesOK(v1, parent')
    requires ChainOK(v1, chain')
    requires RootHalves(v1, parent', Q, sep, X, R)
    ensures Inv(NewRootView(v1, Q, sep, X, R), parent', chain', Q)
  {
    NewRootNodesOK(v1, parent', Q, sep, X, R);
    ChainKept(v1, NewRootView(v1, Q, sep, X, R), chain');
  }

  /** The fresh root holding `sep` over `X` and `R` is well formed. */
  lemma NewRootOK(v1: View, parent': map<Node, Node>, Q: Node, sep: int, X: Node, R: Node)
    requires RootHalves(v1, parent', Q, sep, X, R)
    ensures NodeOK(NewRootView(v1, Q, sep, X, R), parent', Q)
  {
    var v' := NewRootView(v1, Q, sep, X, R);
    assert ChildOK(v', parent', Q, 0) && ChildOK(v', parent', Q, 1);
  }

  /** Adding the fresh root keeps every other node well formed. */
  lemma NewRootNodesOK(v1: View, parent': map<Node, Node>, Q: Node, sep: int, X: Node, R: Node)
    requires AllNodesOK(v1, parent') && RootHalves(v1, parent', Q, sep, X, R)
    ensures AllNodesOK(NewRootView(v1, Q, sep, X, R), parent')
  {
    var v' := NewRootView(v1, Q, sep, X, R);
    forall n | n in v'
      ensures NodeOK(v', parent', n)
    {
      if n == Q {
        NewRootOK(v1, parent', Q, sep, X, R);
      } else {
        NodeOKRangesKept(v1, parent', v', n);
      }
    }
  }

  /** Splitting a leaf moves keys between `L` and `R` but keeps the stored key set. */
  lemma KeysAfterLeafSplit(v: View, L: Node, R: Node)
    requires HasNext(v, L) && |v[L].values| == |v[L].keys| >= 1 && v[L].level == 0 && R !in v
    ensures Keys(SplitLeafView(v, L, R)) == Keys(v)
  {
    var v1 := SplitLeafView(v, L, R);
    var s := LeafSplitOf(v[L]);
    var N := v[L].next;
    assert forall x :: x in v && x != L && x != N ==> v1[x] == v[x];
    assert N != L ==> v1[N] == v[N].(prev := R);
    forall k | k in Keys(v1)
      ensures k in Keys(v)
    {
      var n: Node :| n in v1 && v1[n].level == 0 && k in v1[n].keys;
      if n == L || n == R {
        assert k in s.left.keys + s.right.keys;
        assert L in v && v[L].level == 0 && k in v[L].keys;
      } else {
        assert n in v && v[n].level == 0 && k in v[n].keys;
      }
    }
    forall k | k in Keys(v)
      ensures k in Keys(v1)
    {
      var n: Node :| n in v && v[n].level == 0 && k in v[n].keys;
      if n == L {
        assert k in s.left.keys + s.right.keys;
        if k in s.left.keys {
          assert L in v1 && v1[L].level == 0 && k in v1[L].keys;
        } else {
          assert R in v1 && v1[R].level == 0 && k in v1[R].keys;
        }
      } else {
        assert n in v1 && v1[n].level == 0 && k in v1[n].keys;
      }
    }
  }

  /** The halves of a leaf that reached `order >= 2` keys both hold fewer than `order`. */
  lemma BoundedAfterLeafSplit(v: View, order: int, L: Node, R: Node)
    requires HasNext(v, L) && |v[L].values| == |v[L].keys| == order >= 2 && R !in v
    requires Bounded(v, order, L)
    ensures Bounded(SplitLeafView(v, L, R), order, null)
  {
    var v1 := SplitLeafView(v, L, R);
    var N := v[L].next;
    assert forall x :: x in v && x != L && x != N ==> v1[x] == v[x];
    assert N != L ==> v1[N].keys == v[N].keys;
  }

  /** The halves of an internal node that reached `order >= 2` keys both hold fewer than `order`. */
  lemma BoundedAfterInternalSplit(v: View, order: int, X: Node, R: Node)
    requires X in v && |v[X].children| == |v[X].keys| + 1 && |v[X].keys| == order >= 2 && R !in v
    requires Bounded(v, order, X)
    ensures Bounded(SplitInternalView(v, X, R), order, null)
  {
  }

  /** The node that takes the promoted key is the only one that may now hold `order` keys. */
  lemma BoundedAfterSeparator(v: View, order: int, P: Node, sep: int, R: Node)
    requires P in v && |v[P].children| == |v[P].keys| + 1
    requires Bounded(v, order, null)
    ensures Bounded(InsertSeparatorView(v, P, sep, R), order, P)
  {
  }

  /** A fresh root holds one key, below any order of at least 2. */
  lemma BoundedAfterNewRoot(v: View, order: int, Q: Node, sep: int, X: Node, R: Node)
    requires X in v && Bounded(v, order, null)
    ensures Bounded(NewRootView(v, Q, sep, X, R), order, null)
  {
  }

  /** After splitting leaf `L`, its parent `P` is untouched and every premise for `P` taking the promoted key holds. */
  lemma LeafSplitParentReady(v: View, parent: map<Node, Node>, P: Node, L: Node, R: Node)
    requires HasNext(v, L) && |v[L].values| == |v[L].keys| >= 2 && v[L].level == 0 && R !in v
    requires v[v[L].next].level == 0
    requires StrictlySorted(v[L].keys) && forall k :: k in v[L].keys ==> KeyFits(v[L], k)
    requires P in v && v[P].level > 0 && (forall c :: c in parent ==> c in v)
    ensures var v1 := SplitLeafView(v, L, R);
            var sep := LeafSplitOf(v[L]).keyToParent;
            var parent' := Adopt(parent, L, R, P);
            && Above(v[L].lo, sep) && Below(sep, v[L].hi)
            && SplitBeside(v, parent, v1, parent', P, L, R, sep)
  {
    SplitLeafViewFacts(v, L, R);
    var sep := LeafSplitOf(v[L]).keyToParent;
    LeafNodes.SplitOrdered(LeafNodes.LeafData(v[L].keys, v[L].values));
    assert KeyFits(v[L], v[L].keys[0]) && KeyFits(v[L], sep);
  }

  /** After splitting leaf `L`, child `k` of `P`, the parent is well formed once it takes the promoted key. */
  lemma LeafParentOK(v: View, parent: map<Node, Node>, P: Node, k: nat, L: Node, R: Node)
    requires HasNext(v, L) && |v[L].values| == |v[L].keys| >= 2 && v[L].level == 0 && R !in v
    requires v[v[L].next].level == 0
    requires StrictlySorted(v[L].keys) && forall k :: k in v[L].keys ==> KeyFits(v[L], k)
    requires P in v && NodeOK(v, parent, P) && v[P].level > 0 && (forall c :: c in parent ==> c in v)
    requires k < |v[P].children| && v[P].children[k] == L && ChildOK(v, parent, P, k)
    ensures var v1 := SplitLeafView(v, L, R);
            && P in v1 && v1[P] == v[P]
            && NodeOK(InsertSeparatorView(v1, P, LeafSplitOf(v[L]).keyToParent, R), Adopt(parent, L, R, P), P)
  {
    LeafSplitParentReady(v, parent, P, L, R);
    ParentAfterSplit(v, parent, SplitLeafView(v, L, R), Adopt(parent, L, R, P), P, k, L, R, LeafSplitOf(v[L]).keyToParent);
  }

  /** After a leaf split under `P` and the separator insertion, every node is well formed. */
  lemma LeafSplitUnderParentNodes(v: View, parent: map<Node, Node>, chain: seq<Node>, root: Node,
                                  L: Node, R: Node, P: Node, k: nat)
    requires Inv(v, parent, chain, root)
    requires L in v && v[L].level == 0 && |v[L].keys| >= 2 && R !in v
    requires HasNext(v, L) && v[v[L].next].level == 0
    requires P in v && v[P].level > 0 && k < |v[P].children| == |v[P].keys| + 1 && v[P].children[k] == L
    ensures |v[L].values| == |v[L].keys|
    ensures var v' := InsertSeparatorView(SplitLeafView(v, L, R), P, LeafSplitOf(v[L]).keyToParent, R);
            AllNodesOK(v', Adopt(parent, L, R, P))
  {
    assert NodeOK(v, parent, P) && ChildOK(v, parent, P, k);
    assert NodeOK(v, parent, L);
    SplitLeafViewFacts(v, L, R);
    LeafSplitNodesOK(v, parent, chain, root, L, R, P);
    LeafParentOK(v, parent, P, k, L, R);
    SeparatorNodesOK(SplitLeafView(v, L, R), Adopt(parent, L, R, P), P, LeafSplitOf(v[L]).keyToParent, R);
  }

  /** A leaf split under `P` leaves the root where it was: it still covers every key and is nobody's child. */
  lemma RootAfterLeafSplit(v: View, parent: map<Node, Node>, root: Node, L: Node, R: Node, P: Node)
    requires root in v && root !in parent && (forall c :: c in parent ==> c in v)
    requires v[root].lo.None? && v[root].hi.None?
    requires HasNext(v, L) && v[L].level == 0 && |v[L].values| == |v[L].keys| >= 1 && R !in v
    requires P in v && v[P].level > 0 && |v[P].children| == |v[P].keys| + 1
    requires L in parent && parent[L] == P
    ensures var v' := InsertSeparatorView(SplitLeafView(v, L, R), P, LeafSplitOf(v[L]).keyToParent, R);
            var parent' := Adopt(parent, L, R, P);
            && root in v' && root !in parent' && (forall c :: c in parent' ==> c in v')
            && v'[root].lo.None? && v'[root].hi.None?
  {
    SplitLeafViewFacts(v, L, R);
  }

  /**
   * A full leaf `L` under parent `P` (reached from `P` by the descent for
   * `key`) splits, and `P` takes the promoted key: the tree keeps the
   * invariant, with `R` in the chain right after `L` and both halves
   * recorded as children of `P`.
   */
  lemma LeafSplitUnderParent(v: View, parent: map<Node, Node>, chain: seq<Node>, root: Node, order: int,
                             L: Node, R: Node, P: Node, key: int, j: nat)
    requires Inv(v, parent, chain, root) && order >= 2
    requires L in v && v[L].level == 0 && |v[L].keys| == order
    requires j < |chain| && chain[j] == L && R !in v
    requires Routes(v, P, L, key) && v[P].level > 0
    ensures HasNext(v, L) && |v[L].values| == |v[L].keys| && v[v[L].next].level == 0
    ensures var v1 := SplitLeafView(v, L, R); P in v1 && v1[P] == v[P] && |v[P].children| == |v[P].keys| + 1
    ensures var v' := InsertSeparatorView(SplitLeafView(v, L, R), P, LeafSplitOf(v[L]).keyToParent, R);
            Inv(v', Adopt(parent, L, R, P), InsertAt(chain, j + 1, R), root)
  {
    var k := ChildIndex(v[P].keys, key);
    assert NodeOK(v, parent, P) && ChildOK(v, parent, P, k);
    assert NodeOK(v, parent, L);
    ChainAfterLeafSplit(v, chain, L, R, j);
    SplitLeafViewFacts(v, L, R);
    var sep := LeafSplitOf(v[L]).keyToParent;
    LeafSplitUnderParentNodes(v, parent, chain, root, L, R, P, k);
    SeparatorChainOK(SplitLeafView(v, L, R), InsertAt(chain, j + 1, R), P, sep, R);
    RootAfterLeafSplit(v, parent, root, L, R, P);
  }

  /**
   * The same step, for sizes and contents: the stored keys do not change,
   * only `P` may now hold `order` keys, the view gains `R`, and no internal
   * node other than `P` changes.
   */
  lemma LeafSplitUnderParentBounds(v: View, order: int, L: Node, R: Node, P: Node)
    requires HasNext(v, L) && |v[L].values| == |v[L].keys| == order >= 2 && R !in v
    requires v[L].level == 0 && v[v[L].next].level == 0 && Bounded(v, order, L)
    requires P in v && v[P].level > 0 && |v[P].children| == |v[P].keys| + 1
    ensures var v' := InsertSeparatorView(SplitLeafView(v, L, R), P, LeafSplitOf(v[L]).keyToParent, R);
            && Bounded(v', order, P) && Keys(v') == Keys(v)
            && v'.Keys == v.Keys + {R}
            && (forall n :: n in v ==> v'[n].level == v[n].level)
            && (forall n :: n in v && n != P && v[n].level > 0 ==> v'[n] == v[n])
  {
    SplitLeafViewFacts(v, L, R);
    var v1 := SplitLeafView(v, L, R);
    var sep := LeafSplitOf(v[L]).keyToParent;
    KeysAfterLeafSplit(v, L, R);
    KeysFrame(v1, InsertSeparatorView(v1, P, sep, R));
    BoundedAfterLeafSplit(v, order, L, R);
    BoundedAfterSeparator(v1, order, P, sep, R);
  }

  /**
   * A full leaf that is the root splits and a fresh root `Q` takes the
   * promoted key over the two halves: the tree keeps the invariant, with
   * `Q` as its root.
   */
  lemma LeafSplitAtRoot(v: View, parent: map<Node, Node>, chain: seq<Node>, order: int,
                        L: Node, R: Node, Q: Node, j: nat)
    requires Inv(v, parent, chain, L) && order >= 2
    requires v[L].level == 0 && |v[L].keys| == order
    requires j < |chain| && chain[j] == L && R !in v && Q !in v && Q != R
    ensures HasNext(v, L) && |v[L].values| == |v[L].keys| && v[v[L].next].level == 0
    ensures var v' := NewRootView(SplitLeafView(v, L, R), Q, LeafSplitOf(v[L]).keyToParent, L, R);
            Inv(v', Adopt(parent, L, R, Q), InsertAt(chain, j + 1, R), Q)
  {
    ChainAfterLeafSplit(v, chain, L, R, j);
    SplitLeafViewFacts(v, L, R);
    var v1 := SplitLeafView(v, L, R);
    var parent' := Adopt(parent, L, R, Q);
    var sep := LeafSplitOf(v[L]).keyToParent;
    LeafSplitNodesOK(v, parent, chain, L, L, R, Q);
    LeafRootHalves(v, parent, L, R, Q);
    FinishAtRoot(v1, parent', InsertAt(chain, j + 1, R), Q, sep, L, R);
  }

  /** Splitting the root leaf `L` gives two halves ready to go under a fresh root `Q`. */
  lemma LeafRootHalves(v: View, parent: map<Node, Node>, L: Node, R: Node, Q: Node)
    requires L in v && L !in parent && (forall c :: c in parent ==> c in v) && v[L].lo.None? && v[L].hi.None?
    requires HasNext(v, L) && v[L].level == 0 && |v[L].values| == |v[L].keys| >= 1 && R !in v && Q !in v && Q != R
    ensures RootHalves(SplitLeafView(v, L, R), Adopt(parent, L, R, Q), Q, LeafSplitOf(v[L]).keyToParent, L, R)
  {
    SplitLeafViewFacts(v, L, R);
  }

  /** The same step, for sizes and contents: the stored keys do not change and every node holds fewer than `order`. */
  lemma LeafSplitAtRootBounds(v: View, order: int, L: Node, R: Node, Q: Node)
    requires HasNext(v, L) && |v[L].values| == |v[L].keys| == order >= 2 && R !in v && Q !in v && Q != R
    requires v[L].level == 0 && Bounded(v, order, L)
    ensures var v' := NewRootView(SplitLeafView(v, L, R), Q, LeafSplitOf(v[L]).keyToParent, L, R);
            && Bounded(v', order, null) && Keys(v') == Keys(v)
            && v'.Keys == v.Keys + {R, Q}
  {
    SplitLeafViewFacts(v, L, R);
    var v1 := SplitLeafView(v, L, R);
    var sep := LeafSplitOf(v[L]).keyToParent;
    KeysAfterLeafSplit(v, L, R);
    KeysFrame(v1, NewRootView(v1, Q, sep, L, R));
    BoundedAfterLeafSplit(v, order, L, R);
    BoundedAfterNewRoot(v1, order, Q, sep, L, R);
  }

  /** After splitting internal node `X`, child `k` of `P`, the parent is well formed once it takes the promoted key. */
  lemma InternalParentOK(v: View, parent: map<Node, Node>, chain: seq<Node>, root: Node,
                         P: Node, k: nat, X: Node, R: Node)
    requires Inv(v, parent, chain, root)
    requires X in v && v[X].level > 0 && |v[X].keys| >= 1 && R !in v
    requires P in v && v[P].level > 0 && k < |v[P].children| == |v[P].keys| + 1 && v[P].children[k] == X
    ensures |v[X].children| == |v[X].keys| + 1
    ensures var s := InternalSplitOf(v[X]);
            var v1 := SplitInternalView(v, X, R);
            && P in v1 && v1[P] == v[P]
            && NodeOK(InsertSeparatorView(v1, P, s.keyToParent, R), SplitParents(parent, s.right.children, X, R, P), P)
  {
    assert NodeOK(v, parent, P) && ChildOK(v, parent, P, k);
    assert NodeOK(v, parent, X);
    var s := InternalSplitOf(v[X]);
    InternalSplitParents(v, parent, X, R, P);
    InternalSplitParentReady(v, parent, P, X, R);
    ParentAfterSplit(v, parent, SplitInternalView(v, X, R), SplitParents(parent, s.right.children, X, R, P), P, k, X, R, s.keyToParent);
  }

  /** After splitting internal node `X`, its parent `P` is untouched and every premise for `P` taking the promoted key holds. */
  lemma InternalSplitParentReady(v: View, parent: map<Node, Node>, P: Node, X: Node, R: Node)
    requires X in v && v[X].level > 0 && |v[X].children| == |v[X].keys| + 1 && |v[X].keys| >= 1 && R !in v
    requires StrictlySorted(v[X].keys) && forall k :: k in v[X].keys ==> KeyFits(v[X], k)
    requires P in v && P != X && (forall c :: c in parent ==> c in v) && X in parent && parent[X] == P
    requires forall c :: c in InternalSplitOf(v[X]).right.children ==> c in parent && parent[c] == X
    ensures var s := InternalSplitOf(v[X]);
            && Above(v[X].lo, s.keyToParent) && Below(s.keyToParent, v[X].hi)
            && SplitBeside(v, parent, SplitInternalView(v, X, R), SplitParents(parent, s.right.children, X, R, P), P, X, R, s.keyToParent)
  {
    var s := InternalSplitOf(v[X]);
    SplitParentsFacts(parent, s.right.children, X, R, P);
    assert KeyFits(v[X], s.keyToParent);
  }

  /** After an internal split under `P` and the separator insertion, every node is well formed. */
  lemma InternalSplitUnderParentNodes(v: View, parent: map<Node, Node>, chain: seq<Node>, root: Node,
                                      X: Node, R: Node, P: Node, k: nat)
    requires Inv(v, parent, chain, root)
    requires X in v && v[X].level > 0 && |v[X].keys| >= 1 && R !in v
    requires P in v && v[P].level > 0 && k < |v[P].children| == |v[P].keys| + 1 && v[P].children[k] == X
    ensures |v[X].children| == |v[X].keys| + 1
    ensures var s := InternalSplitOf(v[X]);
            var v' := InsertSeparatorView(SplitInternalView(v, X, R), P, s.keyToParent, R);
            AllNodesOK(v', SplitParents(parent, s.right.children, X, R, P))
  {
    assert NodeOK(v, parent, P) && ChildOK(v, parent, P, k);
    var s := InternalSplitOf(v[X]);
    InternalSplitNodesOK(v, parent, chain, root, X, R, P);
    InternalParentOK(v, parent, chain, root, P, k, X, R);
    SeparatorNodesOK(SplitInternalView(v, X, R), SplitParents(parent, s.right.children, X, R, P), P, s.keyToParent, R);
  }

  /**
   * A full internal node `X` under parent `P` (reached from `P` by the
   * descent for `key`) splits, and `P` takes the promoted key: the tree
   * keeps the invariant, with the moved children under `R` and both halves
   * under `P`.
   */
  lemma InternalSplitUnderParent(v: View, parent: map<Node, Node>, chain: seq<Node>, root: Node, order: int,
                                 X: Node, R: Node, P: Node, key: int)
    requires Inv(v, parent, chain, root) && order >= 2
    requires X in v && v[X].level > 0 && |v[X].keys| == order && R !in v
    requires Routes(v, P, X, key) && v[P].level > 0
    ensures |v[X].children| == |v[X].keys| + 1
    ensures var v1 := SplitInternalView(v, X, R); P in v1 && v1[P] == v[P] && |v[P].children| == |v[P].keys| + 1
    ensures var s := InternalSplitOf(v[X]);
            var v' := InsertSeparatorView(SplitInternalView(v, X, R), P, s.keyToParent, R);
            Inv(v', SplitParents(parent, s.right.children, X, R, P), chain, root)
  {
    var k := ChildIndex(v[P].keys, key);
    assert NodeOK(v, parent, P) && ChildOK(v, parent, P, k);
    assert NodeOK(v, parent, X);
    InternalSplitUnderParentNodes(v, parent, chain, root, X, R, P, k);
    InternalSplitParents(v, parent, X, R, P);
    RootAfterInternalSplit(v, parent, root, X, R, P);
    ChainAfterInternalSplit(v, chain, X, R, P);
  }

  /** An internal split under `P` leaves the root where it was: it still covers every key and is nobody's child. */
  lemma RootAfterInternalSplit(v: View, parent: map<Node, Node>, root: Node, X: Node, R: Node, P: Node)
    requires root in v && root !in parent && (forall c :: c in parent ==> c in v)
    requires v[root].lo.None? && v[root].hi.None?
    requires X in v && v[X].level > 0 && |v[X].children| == |v[X].keys| + 1 && |v[X].keys| >= 1 && R !in v
    requires P in v && v[P].level == v[X].level + 1 && |v[P].children| == |v[P].keys| + 1
    requires X in parent && parent[X] == P
    requires forall c :: c in InternalSplitOf(v[X]).right.children ==> c in parent
    ensures var v1 := SplitInternalView(v, X, R); P in v1 && v1[P] == v[P]
    ensures var s := InternalSplitOf(v[X]);
            var v' := InsertSeparatorView(SplitInternalView(v, X, R), P, s.keyToParent, R);
            var parent' := SplitParents(parent, s.right.children, X, R, P);
            && root in v' && root !in parent' && (forall c :: c in parent' ==> c in v')
            && v'[root].lo.None? && v'[root].hi.None?
  {
    SplitParentsFacts(parent, InternalSplitOf(v[X]).right.children, X, R, P);
  }

  /** An internal split under `P` leaves the chain of leaves as it was. */
  lemma ChainAfterInternalSplit(v: View, chain: seq<Node>, X: Node, R: Node, P: Node)
    requires ChainOK(v, chain)
    requires X in v && v[X].level > 0 && |v[X].children| == |v[X].keys| + 1 && |v[X].keys| >= 1 && R !in v
    requires P in v && P != X && v[P].level > 0 && |v[P].children| == |v[P].keys| + 1
    ensures ChainOK(InsertSeparatorView(SplitInternalView(v, X, R), P, InternalSplitOf(v[X]).keyToParent, R), chain)
  {
    var v1 := SplitInternalView(v, X, R);
    ChainKept(v, v1, chain);
    SeparatorChainOK(v1, chain, P, InternalSplitOf(v[X]).keyToParent, R);
  }

  /**
   * The same step, for sizes and contents: the stored keys do not change,
   * only `P` may now hold `order` keys, the view gains `R`, and no node
   * other than `X` and `P` changes.
   */
  lemma InternalSplitUnderParentBounds(v: View, order: int, X: Node, R: Node, P: Node)
    requires X in v && v[X].level > 0 && |v[X].children| == |v[X].keys| + 1 && |v[X].keys| == order >= 2
    requires R !in v && Bounded(v, order, X)
    requires P in v && P != X && v[P].level > 0 && |v[P].children| == |v[P].keys| + 1
    ensures var s := InternalSplitOf(v[X]);
            var v' := InsertSeparatorView(SplitInternalView(v, X, R), P, s.keyToParent, R);
            && Bounded(v', order, P) && Keys(v') == Keys(v)
            && v'.Keys == v.Keys + {R}
            && (forall n :: n in v ==> v'[n].level == v[n].level)
            && (forall n :: n in v && n != P && n != X ==> v'[n] == v[n])
  {
    var s := InternalSplitOf(v[X]);
    var v1 := SplitInternalView(v, X, R);
    KeysFrame(v, v1);
    KeysFrame(v1, InsertSeparatorView(v1, P, s.keyToParent, R));
    BoundedAfterInternalSplit(v, order, X, R);
    BoundedAfterSeparator(v1, order, P, s.keyToParent, R);
  }

  /**
   * A full internal node that is the root splits and a fresh root `Q` takes
   * the promoted key over the two halves: the tree keeps the invariant, with
   * `Q` as its root.
   */
  lemma InternalSplitAtRoot(v: View, parent: map<Node, Node>, chain: seq<Node>, order: int,
                            X: Node, R: Node, Q: Node)
    requires Inv(v, parent, chain, X) && order >= 2
    requires v[X].level > 0 && |v[X].keys| == order && R !in v && Q !in v && Q != R
    ensures |v[X].children| == |v[X].keys| + 1
    ensures var s := InternalSplitOf(v[X]);
            var v' := NewRootView(SplitInternalView(v, X, R), Q, s.keyToParent, X, R);
            Inv(v', SplitParents(parent, s.right.children, X, R, Q), chain, Q)
  {
    assert NodeOK(v, parent, X);
    var s := InternalSplitOf(v[X]);
    var sep := s.keyToParent;
    var moved := s.right.children;
    var v1 := SplitInternalView(v, X, R);
    var parent' := SplitParents(parent, moved, X, R, Q);
    InternalSplitNodesOK(v, parent, chain, X, X, R, Q);
    InternalSplitParents(v, parent, X, R, Q);
    SplitParentsFacts(parent, moved, X, R, Q);
    ChainKept(v, v1, chain);
    FinishAtRoot(v1, parent', chain, Q, sep, X, R);
  }

  /** The same step, for sizes and contents: the stored keys do not change and every node holds fewer than `order`. */
  lemma InternalSplitAtRootBounds(v: View, order: int, X: Node, R: Node, Q: Node)
    requires X in v && v[X].level > 0 && |v[X].children| == |v[X].keys| + 1 && |v[X].keys| == order >= 2
    requires R !in v && Q !in v && Q != R && Bounded(v, order, X)
    ensures var s := InternalSplitOf(v[X]);
            var v' := NewRootView(SplitInternalView(v, X, R), Q, s.keyToParent, X, R);
            && Bounded(v', order, null) && Keys(v') == Keys(v)
            && v'.Keys == v.Keys + {R, Q}
  {
    var s := InternalSplitOf(v[X]);
    var v1 := SplitInternalView(v, X, R);
    KeysFrame(v, v1);
    KeysFrame(v1, NewRootView(v1, Q, s.keyToParent, X, R));
    BoundedAfterInternalSplit(v, order, X, R);
    BoundedAfterNewRoot(v1, order, Q, s.keyToParent, X, R);
  }
}
