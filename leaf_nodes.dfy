/**
 * What a leaf stores and what each leaf operation does to it, as values:
 * a leaf holds sorted keys and, slot for slot, one list of values per key.
 * The `Node` class applies these functions to its own fields.
 */
module LeafNodes {
  import opened Wrappers
  import opened SortedSeqs

  /** The key vector and the value-list vector of one leaf. */
  datatype LeafData = LeafData(keys: seq<int>, values: seq<seq<int>>) {
    /** One value list per key, so that slot `i` of `values` can belong to `keys[i]`. */
    predicate OneListPerKey() {
      |values| == |keys|
    }
  }

  /** Result of splitting a leaf: the halves and the key handed to the parent. */
  datatype LeafSplit = LeafSplit(left: LeafData, right: LeafData, keyToParent: int)

  /**
   * `getValues`: the list in the lower-bound slot of `key` when that slot
   * holds `key`, and nothing (a null pointer) otherwise.
   */
  function GetValues(l: LeafData, key: int): (r: Option<seq<int>>)
    requires l.OneListPerKey()
    ensures r.Some? ==> key in l.keys
    ensures StrictlySorted(l.keys) ==> (r.Some? <==> key in l.keys)
    ensures StrictlySorted(l.keys) ==>
              forall i :: 0 <= i < |l.keys| && l.keys[i] == key ==> r == Some(l.values[i])
  {
    var i := LowerBound(l.keys, key);
    if i < |l.keys| && key == l.keys[i] then Some(l.values[i]) else None
  }

  /**
   * `insert(key, value)`: a stored key gets `value` appended to its list; a new
   * key is inserted at its sorted position while its fresh one-element list is
   * appended at the END of the value lists, whatever the key's position.
   */
  function Insert(l: LeafData, key: int, value: int): (r: LeafData)
    requires l.OneListPerKey()
    ensures r.OneListPerKey()
    ensures StrictlySorted(l.keys) ==> StrictlySorted(r.keys)
    ensures forall k :: k in r.keys <==> k in l.keys || k == key
    ensures StrictlySorted(l.keys) && key in l.keys ==> r.keys == l.keys
    ensures key !in l.keys ==> |r.keys| == |l.keys| + 1 && r.values == l.values + [[value]]
  {
    match GetValues(l, key)
    case Some(vs) =>
      LeafData(l.keys, l.values[LowerBound(l.keys, key) := vs + [value]])
    case None =>
      assert StrictlySorted(l.keys) ==> StrictlySorted(InsertAt(l.keys, LowerBound(l.keys, key), key)) by {
        if StrictlySorted(l.keys) {
          LowerBoundFinds(l.keys, key);
          InsertKeepsSorted(l.keys, key);
        }
      }
      var low := LowerBound(l.keys, key);
      var keys := InsertAt(l.keys, low, key);
      assert forall k :: k in keys <==> k in l.keys || k == key by {
        assert keys == l.keys[..low] + [key] + l.keys[low..];
        assert l.keys == l.keys[..low] + l.keys[low..];
      }
      LeafData(keys, l.values + [[value]])
  }

  /** Inserting a stored key appends `value` to that key's list and leaves every other lookup alone. */
  lemma InsertExisting(l: LeafData, key: int, value: int)
    requires l.OneListPerKey() && StrictlySorted(l.keys) && key in l.keys
    ensures GetValues(Insert(l, key, value), key) == Some(GetValues(l, key).value + [value])
    ensures forall k :: k != key ==> GetValues(Insert(l, key, value), k) == GetValues(l, k)
  {
    var r := Insert(l, key, value);
    LowerBoundFinds(l.keys, key);
    var i := LowerBound(l.keys, key);
    forall k | k != key
      ensures GetValues(r, k) == GetValues(l, k)
    {
      LowerBoundFinds(l.keys, k);
    }
  }

  /**
   * Inserting a new key larger than every stored key is the one case where
   * the new list ends up beside its key: the key reads back `[value]` and
   * every other lookup is unchanged.
   */
  lemma InsertLargestAligned(l: LeafData, key: int, value: int)
    requires l.OneListPerKey() && StrictlySorted(l.keys)
    requires forall k :: k in l.keys ==> k < key
    ensures GetValues(Insert(l, key, value), key) == Some([value])
    ensures forall k :: k != key ==> GetValues(Insert(l, key, value), k) == GetValues(l, k)
  {
    var r := Insert(l, key, value);
    assert LowerBound(l.keys, key) == |l.keys| by {
      forall j | 0 <= j < |l.keys|
        ensures l.keys[j] < key
      {
        assert l.keys[j] in l.keys;
      }
      LowerBoundUnique(l.keys, key, |l.keys|);
    }
    assert r.keys == l.keys + [key];
    assert r.keys[|l.keys|] == key;
    forall k | k != key
      ensures GetValues(r, k) == GetValues(l, k)
    {
      LowerBoundFinds(l.keys, k);
      LowerBoundFinds(r.keys, k);
    }
  }

  /**
   * The general new-key case as the code behaves: when a larger key is
   * already stored, the new key reads back the list of the first larger key
   * (its old neighbour's list), not `[value]`.
   */
  lemma InsertBeforeLargerMisaligns(l: LeafData, key: int, value: int)
    requires l.OneListPerKey() && StrictlySorted(l.keys) && key !in l.keys
    requires LowerBound(l.keys, key) < |l.keys|
    ensures GetValues(Insert(l, key, value), key) == Some(l.values[LowerBound(l.keys, key)])
  {
    var r := Insert(l, key, value);
    var i := LowerBound(l.keys, key);
    assert r.keys[i] == key;
    LowerBoundFinds(r.keys, key);
  }

  /** The smallest instance: inserting 1 before the stored key 2 swaps which key reads which list. */
  lemma InsertMisalignmentExample()
    ensures var r := Insert(LeafData([2], [[20]]), 1, 10);
            GetValues(r, 1) == Some([20]) && GetValues(r, 2) == Some([10])
  {
    var r := Insert(LeafData([2], [[20]]), 1, 10);
    assert LowerBound([2], 1) == 0;
    assert r == LeafData([1, 2], [[20], [10]]);
    assert LowerBound([1, 2], 2) == 1 by { LowerBoundUnique([1, 2], 2, 1); }
  }

  /**
   * The leaf insert with the new key's list placed in the key's own slot,
   * as a leaf holding one list per key needs; a stored key is handled as
   * `Insert` handles it.
   */
  function InsertInSlot(l: LeafData, key: int, value: int): (r: LeafData)
    requires l.OneListPerKey()
    ensures r.OneListPerKey()
    ensures forall k :: k in r.keys <==> k in l.keys || k == key
  {
    match GetValues(l, key)
    case Some(vs) =>
      LeafData(l.keys, l.values[LowerBound(l.keys, key) := vs + [value]])
    case None =>
      var low := LowerBound(l.keys, key);
      var keys := InsertAt(l.keys, low, key);
      assert forall k :: k in keys <==> k in l.keys || k == key by {
        assert keys == l.keys[..low] + [key] + l.keys[low..];
        assert l.keys == l.keys[..low] + l.keys[low..];
      }
      LeafData(keys, InsertAt(l.values, low, [value]))
  }

  /**
   * With the list in the key's slot, every insert round-trips: the key reads
   * back its old list with `value` appended, or `[value]` for a new key, and
   * every other lookup is unchanged.
   */
  lemma InsertInSlotLookups(l: LeafData, key: int, value: int)
    requires l.OneListPerKey() && StrictlySorted(l.keys)
    ensures StrictlySorted(InsertInSlot(l, key, value).keys)
    ensures GetValues(InsertInSlot(l, key, value), key) ==
              Some(if key in l.keys then GetValues(l, key).value + [value] else [value])
    ensures forall k :: k != key ==> GetValues(InsertInSlot(l, key, value), k) == GetValues(l, k)
  {
    var r := InsertInSlot(l, key, value);
    if key in l.keys {
      assert r == Insert(l, key, value);
      InsertExisting(l, key, value);
    } else {
      var low := LowerBound(l.keys, key);
      InsertKeepsSorted(l.keys, key);
      assert r.keys[low] == key && r.values[low] == [value];
      forall k | k != key
        ensures GetValues(r, k) == GetValues(l, k)
      {
        if k in l.keys {
          var i :| 0 <= i < |l.keys| && l.keys[i] == k;
          LowerBoundFinds(l.keys, key);
          if i < low {
            assert r.keys[i] == k && r.values[i] == l.values[i];
          } else {
            assert r.keys[i + 1] == k && r.values[i + 1] == l.values[i];
          }
        }
      }
    }
  }

  /**
   * `split`: the left leaf keeps the first `|keys| / 2` slots, the right leaf
   * the rest, and the key for the parent is the right leaf's first key.
   */
  function Split(l: LeafData): (s: LeafSplit)
    requires l.OneListPerKey() && |l.keys| >= 1
    ensures s.left.keys + s.right.keys == l.keys
    ensures s.left.values + s.right.values == l.values
    ensures |s.left.keys| == |l.keys| / 2
    ensures s.left.OneListPerKey() && s.right.OneListPerKey()
    ensures |s.right.keys| >= 1 && s.keyToParent == s.right.keys[0] == l.keys[|l.keys| / 2]
  {
    var m := |l.keys| / 2;
    LeafSplit(LeafData(l.keys[..m], l.values[..m]), LeafData(l.keys[m..], l.values[m..]), l.keys[m])
  }

  /**
   * On sorted keys both halves are sorted, every left key is below the
   * promoted key and every right key is at or above it; a leaf of at least
   * two keys splits into two non-empty halves, each smaller than before.
   */
  lemma SplitOrdered(l: LeafData)
    requires l.OneListPerKey() && |l.keys| >= 2 && StrictlySorted(l.keys)
    ensures var s := Split(l);
            && StrictlySorted(s.left.keys) && StrictlySorted(s.right.keys)
            && (forall k :: k in s.left.keys ==> k < s.keyToParent)
            && (forall k :: k in s.right.keys ==> s.keyToParent <= k)
            && 1 <= |s.left.keys| < |l.keys| && 1 <= |s.right.keys| < |l.keys|
  {
    var s := Split(l);
    var m := |l.keys| / 2;
    forall k | k in s.left.keys
      ensures k < s.keyToParent
    {
      var i :| 0 <= i < m && l.keys[..m][i] == k;
    }
    forall k | k in s.right.keys
      ensures s.keyToParent <= k
    {
      var i :| 0 <= i < |l.keys| - m && l.keys[m..][i] == k;
    }
  }

  /**
   * A split keeps every lookup: a key below the promoted key reads the same
   * list from the left half as from the whole leaf, any other key the same
   * list from the right half.
   */
  lemma SplitLookups(l: LeafData)
    requires l.OneListPerKey() && |l.keys| >= 1 && StrictlySorted(l.keys)
    ensures var s := Split(l);
            && (forall k :: k < s.keyToParent ==> GetValues(s.left, k) == GetValues(l, k))
            && (forall k :: s.keyToParent <= k ==> GetValues(s.right, k) == GetValues(l, k))
  {
    var s := Split(l);
    forall k | k < s.keyToParent
      ensures GetValues(s.left, k) == GetValues(l, k)
    {
      SplitLookupLeft(l, k);
    }
    forall k | s.keyToParent <= k
      ensures GetValues(s.right, k) == GetValues(l, k)
    {
      SplitLookupRight(l, k);
    }
  }

  /** A key below the promoted key reads the same list from the left half as from the whole leaf. */
  lemma SplitLookupLeft(l: LeafData, k: int)
    requires l.OneListPerKey() && |l.keys| >= 1 && StrictlySorted(l.keys)
    requires k < Split(l).keyToParent
    ensures GetValues(Split(l).left, k) == GetValues(l, k)
  {
    var s := Split(l);
    var m := |l.keys| / 2;
    assert s.left.keys == l.keys[..m];
    assert StrictlySorted(s.left.keys);
    if k in l.keys {
      var i :| 0 <= i < |l.keys| && l.keys[i] == k;
      assert l.keys[i] < l.keys[m];
      assert i < m;
      assert s.left.keys[i] == k && s.left.values[i] == l.values[i];
    } else {
      assert k !in s.left.keys;
    }
  }

  /** A key at or above the promoted key reads the same list from the right half as from the whole leaf. */
  lemma SplitLookupRight(l: LeafData, k: int)
    requires l.OneListPerKey() && |l.keys| >= 1 && StrictlySorted(l.keys)
    requires Split(l).keyToParent <= k
    ensures GetValues(Split(l).right, k) == GetValues(l, k)
  {
    var s := Split(l);
    var m := |l.keys| / 2;
    assert s.right.keys == l.keys[m..];
    assert StrictlySorted(s.right.keys);
    if k in l.keys {
      var i :| 0 <= i < |l.keys| && l.keys[i] == k;
      assert l.keys[m] <= l.keys[i];
      assert m <= i;
      assert s.right.keys[i - m] == k && s.right.values[i - m] == l.values[i];
    } else {
      assert k !in s.right.keys;
    }
  }

  /**
   * `update(key, values)`: a stored key's list is replaced by `vs`; for a key
   * that is not stored the leaf is unchanged.
   */
  function Update(l: LeafData, key: int, vs: seq<int>): (r: LeafData)
    requires l.OneListPerKey()
    ensures r.OneListPerKey() && r.keys == l.keys
    ensures StrictlySorted(l.keys) ==> GetValues(r, key) == if key in l.keys then Some(vs) else None
    ensures StrictlySorted(l.keys) ==> forall k :: k != key ==> GetValues(r, k) == GetValues(l, k)
    ensures key !in l.keys ==> r == l
  {
    var i := LowerBound(l.keys, key);
    if i < |l.keys| && key == l.keys[i] then
      var r := LeafData(l.keys, l.values[i := vs]);
      assert StrictlySorted(l.keys) ==> forall k :: k != key ==> GetValues(r, k) == GetValues(l, k) by {
        if StrictlySorted(l.keys) {
          forall k | k != key
            ensures GetValues(r, k) == GetValues(l, k)
          {
            LowerBoundFinds(l.keys, k);
          }
        }
      }
      r
    else
      assert StrictlySorted(l.keys) ==> key !in l.keys by {
        if StrictlySorted(l.keys) { LowerBoundFinds(l.keys, key); }
      }
      l
  }
}
