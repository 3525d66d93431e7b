/**
 * What an internal node stores and what each internal-node operation does to
 * it, as values: sorted separator keys and one more child than keys. The
 * child type is a parameter so that these facts do not depend on the heap.
 */
module InternalNodes {
  import opened SortedSeqs

  /** The key vector and the child vector of one internal node. */
  datatype InternalData<C> = InternalData(keys: seq<int>, children: seq<C>) {
    /** Every separator has a child on each side. */
    predicate Shaped() {
      |children| == |keys| + 1
    }
  }

  /** Result of splitting an internal node: the halves and the key moved up to the parent. */
  datatype InternalSplit<C> = InternalSplit(left: InternalData<C>, right: InternalData<C>, keyToParent: int)

  /**
   * `insert(key, right)`: `key` goes to its lower-bound position and `right`
   * goes immediately after the child that sits at that position, which is the
   * child that was just split.
   */
  function InsertChild<C>(d: InternalData<C>, key: int, right: C): (r: InternalData<C>)
    requires d.Shaped()
    ensures r.Shaped() && |r.keys| == |d.keys| + 1
    ensures multiset(r.keys) == multiset(d.keys) + multiset{key}
    ensures StrictlySorted(d.keys) && key !in d.keys ==> StrictlySorted(r.keys)
    ensures var p := LowerBound(d.keys, key);
            && r.keys[p] == key
            && (forall i :: 0 <= i < p ==> r.keys[i] == d.keys[i])
            && (forall i :: p < i < |r.keys| ==> r.keys[i] == d.keys[i - 1])
    ensures var p := LowerBound(d.keys, key);
            && r.children[p + 1] == right
            && (forall i :: 0 <= i <= p ==> r.children[i] == d.children[i])
            && (forall i :: p + 1 < i < |r.children| ==> r.children[i] == d.children[i - 1])
  {
    var low := LowerBound(d.keys, key);
    var keys := InsertAt(d.keys, low, key);
    LowerBoundOfInserted(d.keys, key);
    InsertAtCounts(d.keys, low, key);
    assert StrictlySorted(d.keys) && key !in d.keys ==> StrictlySorted(keys) by {
      if StrictlySorted(d.keys) && key !in d.keys {
        InsertKeepsSorted(d.keys, key);
      }
    }
    var children := InsertAt(d.children, low + 1, right);
    assert LowerBound(keys, key) == low;
    InternalData(keys, children)
  }

  /** `insert(key, left, right)`: appends one key and two children; on an empty node it builds a root. */
  function InsertRoot<C>(d: InternalData<C>, key: int, left: C, right: C): (r: InternalData<C>)
    ensures |r.keys| == |d.keys| + 1 && |r.children| == |d.children| + 2
    ensures d.keys == [] && d.children == [] ==> r.Shaped() && r.keys == [key] && r.children == [left, right]
  {
    InternalData(d.keys + [key], d.children + [left, right])
  }

  /**
   * `split`: the key at `|keys| / 2` moves up to the parent and is kept by
   * neither half; the left node keeps the `|keys| / 2 + 1` children on its
   * side of it and the right node takes the rest.
   */
  function Split<C>(d: InternalData<C>): (s: InternalSplit<C>)
    requires d.Shaped() && |d.keys| >= 1
    ensures s.left.keys + [s.keyToParent] + s.right.keys == d.keys
    ensures s.left.children + s.right.children == d.children
    ensures s.keyToParent == d.keys[|d.keys| / 2]
    ensures |s.left.keys| == |d.keys| / 2 && |s.left.children| == |d.keys| / 2 + 1
    ensures s.left.Shaped() && s.right.Shaped()
    ensures |s.left.keys| < |d.keys| && |s.right.keys| < |d.keys|
  {
    var m := |d.keys| / 2;
    var s := InternalSplit(InternalData(d.keys[..m], d.children[..m + 1]),
                           InternalData(d.keys[m + 1..], d.children[m + 1..]),
                           d.keys[m]);
    assert d.keys == d.keys[..m] + [d.keys[m]] + d.keys[m + 1..];
    s
  }

  /**
   * On sorted keys the promoted key is in neither half and separates them:
   * every left key is below it and every right key above it.
   */
  lemma SplitOrdered<C>(d: InternalData<C>)
    requires d.Shaped() && |d.keys| >= 1 && StrictlySorted(d.keys)
    ensures var s := Split(d);
            && StrictlySorted(s.left.keys) && StrictlySorted(s.right.keys)
            && (forall k :: k in s.left.keys ==> k < s.keyToParent)
            && (forall k :: k in s.right.keys ==> s.keyToParent < k)
            && s.keyToParent !in s.left.keys && s.keyToParent !in s.right.keys
  {
    var s := Split(d);
    var m := |d.keys| / 2;
    forall k | k in s.left.keys
      ensures k < s.keyToParent
    {
      var i :| 0 <= i < m && d.keys[..m][i] == k;
    }
    forall k | k in s.right.keys
      ensures s.keyToParent < k
    {
      var i :| 0 <= i < |d.keys| - m - 1 && d.keys[m + 1..][i] == k;
    }
  }
}
