/**
 * Sorted key sequences and the two library operations every node operation is
 * built from: `std::lower_bound` over a node's key vector and
 * `std::vector::insert` at a position.
 */
module SortedSeqs {

  /** Keys in strictly ascending order: a node never holds the same key twice. */
  predicate StrictlySorted(s: seq<int>) {
    forall i, j :: 0 <= i < j < |s| ==> s[i] < s[j]
  }

  /**
   * The position `std::lower_bound` returns: the first index whose key is not
   * smaller than `key`, or `|s|` when every key is smaller.
   */
  function LowerBound(s: seq<int>, key: int): (i: nat)
    ensures i <= |s|
    ensures forall j :: 0 <= j < i ==> s[j] < key
    ensures i < |s| ==> key <= s[i]
  {
    if s == [] || key <= s[0] then 0 else 1 + LowerBound(s[1..], key)
  }

  /** `v.insert(v.begin() + i, x)`: `x` lands at index `i`, everything from `i` on moves right by one. */
  function InsertAt<T>(s: seq<T>, i: nat, x: T): (r: seq<T>)
    requires i <= |s|
    ensures |r| == |s| + 1 && r[i] == x
    ensures forall j :: 0 <= j < i ==> r[j] == s[j]
    ensures forall j :: i < j < |r| ==> r[j] == s[j - 1]
  {
    s[..i] + [x] + s[i..]
  }

  /** Pushing `x` and then a sequence `t` onto a stack `s` pushes `[x] + t`. */
  lemma PushThen<T>(s: seq<T>, x: T, t: seq<T>)
    ensures s + [x] + t == s + ([x] + t)
  {
  }

  /** A non-empty stack is the rest of it with its top pushed back on. */
  lemma PopTop<T>(s: seq<T>)
    requires |s| > 0
    ensures s[..|s| - 1] + [s[|s| - 1]] == s
  {
  }

  /** Inserting adds exactly `x` to the elements. */
  lemma InsertAtMembers<T>(s: seq<T>, i: nat, x: T)
    requires i <= |s|
    ensures forall y :: y in InsertAt(s, i, x) <==> y in s || y == x
  {
    assert s == s[..i] + s[i..];
  }

  /** Inserting an element that is not there yet keeps the elements pairwise distinct. */
  lemma InsertAtDistinct<T>(s: seq<T>, i: nat, x: T)
    requires i <= |s| && x !in s
    requires forall a, b :: 0 <= a < b < |s| ==> s[a] != s[b]
    ensures var r := InsertAt(s, i, x);
            forall a, b :: 0 <= a < b < |r| ==> r[a] != r[b]
  {
    var r := InsertAt(s, i, x);
    forall a, b | 0 <= a < b < |r|
      ensures r[a] != r[b]
    {
      if a != i && b != i {
        var a' := if a < i then a else a - 1;
        var b' := if b < i then b else b - 1;
        assert r[a] == s[a'] && r[b] == s[b'];
      }
    }
  }

  /** On sorted keys, the lower bound is the slot of `key` exactly when `key` is stored. */
  lemma LowerBoundFinds(s: seq<int>, key: int)
    requires StrictlySorted(s)
    ensures key in s <==> LowerBound(s, key) < |s| && s[LowerBound(s, key)] == key
    ensures forall j :: LowerBound(s, key) <= j < |s| ==> key <= s[j]
  {
    var i := LowerBound(s, key);
    if key in s {
      var k :| 0 <= k < |s| && s[k] == key;
      assert i <= k;
    }
  }

  /** Any index that splits the keys into "smaller" and "not smaller" is the lower bound. */
  lemma LowerBoundUnique(s: seq<int>, key: int, i: nat)
    requires i <= |s|
    requires forall j :: 0 <= j < i ==> s[j] < key
    requires i < |s| ==> key <= s[i]
    ensures LowerBound(s, key) == i
  {
  }

  /** Inserting a key that is not stored at its lower bound keeps the keys strictly sorted. */
  /** Inserting at a position adds exactly one occurrence of the element. */
  lemma InsertAtCounts<T>(s: seq<T>, i: nat, x: T)
    requires i <= |s|
    ensures multiset(InsertAt(s, i, x)) == multiset(s) + multiset{x}
  {
    assert InsertAt(s, i, x) == s[..i] + [x] + s[i..];
    assert s == s[..i] + s[i..];
  }

  lemma InsertKeepsSorted(s: seq<int>, key: int)
    requires StrictlySorted(s) && key !in s
    ensures StrictlySorted(InsertAt(s, LowerBound(s, key), key))
  {
    LowerBoundFinds(s, key);
  }

  /** The lower bound of a key just inserted at its lower bound is that same index. */
  lemma LowerBoundOfInserted(s: seq<int>, key: int)
    ensures LowerBound(InsertAt(s, LowerBound(s, key), key), key) == LowerBound(s, key)
  {
    var i := LowerBound(s, key);
    LowerBoundUnique(InsertAt(s, i, key), key, i);
  }

  /** A key strictly between two neighbouring keys has the upper neighbour's index as lower bound. */
  lemma LowerBoundBetween(s: seq<int>, key: int, j: nat)
    requires StrictlySorted(s) && j <= |s|
    requires j == 0 || s[j - 1] < key
    requires j == |s| || key < s[j]
    ensures LowerBound(s, key) == j
  {
    LowerBoundUnique(s, key, j);
  }
}
