/** Sequence operations the resolvers share: `Array.prototype.find` /
    `findIndex` with an equality test on one key, and `splice(i, 1)`. */
module Collections {
  import opened Wrappers

  /** `i` is the first position of `keys` holding `k`. */
  ghost predicate IsFirst<K>(keys: seq<K>, k: K, i: nat) {
    i < |keys| && keys[i] == k && forall j :: 0 <= j < i ==> keys[j] != k
  }

  ghost predicate Distinct<K>(keys: seq<K>) {
    forall i, j :: 0 <= i < j < |keys| ==> keys[i] != keys[j]
  }

  /** `findIndex` by key: the first position holding `k`, `None` for -1. */
  function IndexOf<K(==)>(keys: seq<K>, k: K): (r: Option<nat>)
    ensures r.Some? ==> IsFirst(keys, k, r.value)
    ensures r.None? <==> k !in keys
    decreases |keys|
  {
    if |keys| == 0 then None
    else if keys[0] == k then Some(0)
    else match IndexOf(keys[1..], k)
      case None => None
      case Some(i) => Some(i + 1)
  }

  /** `splice(i, 1)`: the element at `i` is dropped, the others keep their order. */
  function RemoveAt<T>(xs: seq<T>, i: nat): (r: seq<T>)
    requires i < |xs|
    ensures |r| == |xs| - 1
    ensures forall j :: 0 <= j < i ==> r[j] == xs[j]
    ensures forall j :: i <= j < |r| ==> r[j] == xs[j + 1]
    ensures multiset(r) + multiset{xs[i]} == multiset(xs)
  {
    assert xs == xs[..i] + [xs[i]] + xs[i + 1..];
    xs[..i] + xs[i + 1..]
  }

  /** Removing an element keeps the remaining keys distinct and gets rid of
      the removed key. */
  lemma RemoveAtDistinct<K>(keys: seq<K>, i: nat)
    requires Distinct(keys) && i < |keys|
    ensures Distinct(RemoveAt(keys, i))
    ensures keys[i] !in RemoveAt(keys, i)
  {
  }
  /** Looking up a key appended behind keys that do not contain it finds the
      appended position. */
  lemma IndexOfLast<K>(keys: seq<K>, k: K)
    requires k !in keys
    ensures IndexOf(keys + [k], k) == Some(|keys|)
  {
  }

  /** Appending a different key does not change where a key is first found. */
  lemma IndexOfAppendOther<K>(keys: seq<K>, x: K, k: K)
    requires x != k
    ensures IndexOf(keys + [x], k) == IndexOf(keys, k)
  {
    var r := IndexOf(keys + [x], k);
    if r.Some? {
      assert (keys + [x])[r.value] == k;
      forall j | 0 <= j < r.value
        ensures keys[j] != k
      {
        assert (keys + [x])[j] == keys[j];
      }
      assert IsFirst(keys, k, r.value);
      IsFirstUnique(keys, k, r.value, IndexOf(keys, k).value);
    } else {
      assert k !in keys + [x];
    }
  }

  /** There is only one first position. */
  lemma IsFirstUnique<K>(keys: seq<K>, k: K, i: nat, j: nat)
    requires IsFirst(keys, k, i) && IsFirst(keys, k, j)
    ensures i == j
  {
  }
}
