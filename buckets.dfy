// The sorted-slice algorithm shared by the three bucket containers
// (app/cache, cache and memory): a binary search for a hash code that yields
// either its position or the position to insert it at, and the insert,
// replace and delete steps performed on the items slice.
//
// The search and delete written in the source are modelled here as written
// (SearchLoopAsWritten, DeleteAsWritten) next to the corrected versions that
// the containers use (SearchIndex / Search, DeleteOp).
module Buckets {
  import opened Wrappers
  import opened Ordering

  /** Hash codes strictly increase along the slice. */
  ghost predicate Sorted<K, V>(items: seq<V>, key: V -> K, cmp: (K, K) -> int)
  {
    forall i, j :: 0 <= i < j < |items| ==> cmp(key(items[i]), key(items[j])) < 0
  }

  /** p is where hash belongs: everything before it compares lower, everything from it on higher. */
  ghost predicate InsertionPoint<K, V>(items: seq<V>, key: V -> K, cmp: (K, K) -> int, hash: K, p: int)
  {
    && 0 <= p <= |items|
    && (forall i :: 0 <= i < p ==> cmp(key(items[i]), hash) < 0)
    && (forall i :: p <= i < |items| ==> cmp(key(items[i]), hash) > 0)
  }

  /** Number of leading items whose hash code compares below hash. */
  function Below<K, V>(items: seq<V>, hash: K, key: V -> K, cmp: (K, K) -> int): (n: nat)
    ensures n <= |items|
    ensures forall i :: 0 <= i < n ==> cmp(key(items[i]), hash) < 0
    ensures n < |items| ==> cmp(key(items[n]), hash) >= 0
  {
    if items == [] || cmp(key(items[0]), hash) >= 0 then 0
    else 1 + Below(items[1..], hash, key, cmp)
  }

  /**
   * The search result the bucket operations expect: (index, true) for a
   * stored hash; otherwise (insertion index, false), where -1 means that
   * the item goes after the last one.
   */
  function Search<K, V>(items: seq<V>, hash: K, key: V -> K, cmp: (K, K) -> int): (r: (int, bool))
    ensures -1 <= r.0 < |items|
    ensures r.1 ==> 0 <= r.0
  {
    var n := Below(items, hash, key, cmp);
    if n < |items| && cmp(key(items[n]), hash) == 0 then (n as int, true)
    else if n < |items| then (n as int, false)
    else (-1, false)
  }

  lemma SearchSpec<K(!new), V>(items: seq<V>, hash: K, key: V -> K, cmp: (K, K) -> int)
    requires TotalOrder(cmp) && Sorted(items, key, cmp)
    ensures var (idx, ok) := Search(items, hash, key, cmp);
      && (ok <==> exists i :: 0 <= i < |items| && key(items[i]) == hash)
      && (ok ==> 0 <= idx < |items| && key(items[idx]) == hash)
      && (!ok ==> -1 <= idx < |items| && InsertionPoint(items, key, cmp, hash, if idx < 0 then |items| else idx))
  {
    var n := Below(items, hash, key, cmp);
    if n < |items| && cmp(key(items[n]), hash) != 0 {
      forall i | n <= i < |items| ensures cmp(key(items[i]), hash) > 0 {
        if i > n {
          assert cmp(key(items[n]), key(items[i])) < 0;
          assert cmp(hash, key(items[n])) < 0;
        }
      }
    }
  }

  lemma LowerUpTo<K(!new), V>(items: seq<V>, hash: K, key: V -> K, cmp: (K, K) -> int, mid: int)
    requires TotalOrder(cmp) && Sorted(items, key, cmp)
    requires 0 <= mid < |items| && cmp(key(items[mid]), hash) < 0
    ensures forall i :: 0 <= i <= mid ==> cmp(key(items[i]), hash) < 0
  {
    forall i | 0 <= i < mid ensures cmp(key(items[i]), hash) < 0 {
      assert cmp(key(items[i]), key(items[mid])) < 0;
    }
  }

  lemma HigherFrom<K(!new), V>(items: seq<V>, hash: K, key: V -> K, cmp: (K, K) -> int, mid: int)
    requires TotalOrder(cmp) && Sorted(items, key, cmp)
    requires 0 <= mid < |items| && cmp(key(items[mid]), hash) > 0
    ensures forall i :: mid <= i < |items| ==> cmp(key(items[i]), hash) > 0
  {
    forall i | mid < i < |items| ensures cmp(key(items[i]), hash) > 0 {
      assert cmp(key(items[mid]), key(items[i])) < 0;
      assert cmp(hash, key(items[mid])) < 0;
    }
  }

  /**
   * The binary search of SearchBucketIndex / indexOfBucket with the loop
   * exit corrected: when the loop runs out, minIdx is the insertion index.
   */
  method SearchIndex<K(!new), V>(items: seq<V>, hash: K, key: V -> K, cmp: (K, K) -> int)
    returns (idx: int, ok: bool)
    requires TotalOrder(cmp) && Sorted(items, key, cmp)
    ensures (idx, ok) == Search(items, hash, key, cmp)
  {
    idx := -1;
    var maxIdx := |items| - 1;
    var minIdx := 0;
    var prevIdx := -1;
    ok := false;
    ghost var n := Below(items, hash, key, cmp);
    while minIdx <= maxIdx
      invariant 0 <= minIdx <= maxIdx + 1 <= |items|
      invariant prevIdx == minIdx - 1
      invariant forall i :: 0 <= i < minIdx ==> cmp(key(items[i]), hash) < 0
      invariant forall i :: maxIdx < i < |items| ==> cmp(key(items[i]), hash) > 0
    {
      var midIdx := (minIdx + maxIdx) / 2;
      var c := cmp(key(items[midIdx]), hash);
      if c == 0 {
        ok := true;
        idx := midIdx;
        assert n == midIdx;
        return;
      }
      if c < 0 {
        LowerUpTo(items, hash, key, cmp, midIdx);
        prevIdx := midIdx;
        minIdx := midIdx + 1;
        continue;
      }
      HigherFrom(items, hash, key, cmp, midIdx);
      if prevIdx + 1 == midIdx {
        idx := midIdx;
        assert n == midIdx;
        return;
      }
      maxIdx := midIdx - 1;
    }
    assert minIdx < |items| ==> cmp(key(items[minIdx]), hash) > 0;
    assert n == minIdx;
    if minIdx < |items| {
      idx := minIdx;
    }
  }

  /**
   * SearchBucketIndex as written: when the loop runs out without a break
   * the index stays -1, even if the hash belongs before some item.
   */
  function SearchLoopAsWritten<K, V>(items: seq<V>, hash: K, key: V -> K, cmp: (K, K) -> int,
                                     minIdx: int, maxIdx: int, prevIdx: int): (r: (int, bool))
    requires 0 <= minIdx && maxIdx < |items|
    ensures r.1 ==> 0 <= r.0 < |items| && cmp(key(items[r.0]), hash) == 0
    ensures -1 <= r.0 < |items|
    decreases maxIdx - minIdx
  {
    if minIdx > maxIdx then (-1, false)
    else
      var midIdx := (minIdx + maxIdx) / 2;
      var c := cmp(key(items[midIdx]), hash);
      if c == 0 then (midIdx, true)
      else if c < 0 then SearchLoopAsWritten(items, hash, key, cmp, midIdx + 1, maxIdx, midIdx)
      else if prevIdx + 1 == midIdx then (midIdx, false)
      else SearchLoopAsWritten(items, hash, key, cmp, minIdx, midIdx - 1, prevIdx)
  }

  function SearchAsWritten<K, V>(items: seq<V>, hash: K, key: V -> K, cmp: (K, K) -> int): (r: (int, bool))
    ensures r.1 ==> 0 <= r.0 < |items| && cmp(key(items[r.0]), hash) == 0
  {
    SearchLoopAsWritten(items, hash, key, cmp, 0, |items| - 1, -1)
  }

  /** The identity hash code of a bucket of plain integers. */
  function IntKey(x: int): int { x }

  /**
   * On [1,3,5,7] the hash 2 belongs at index 1, but the search as written
   * reports -1, so Store appends it and the bucket is no longer sorted.
   */
  lemma SearchAsWrittenMissesMidArray()
    ensures SearchAsWritten([1, 3, 5, 7], 2, IntKey, IntCompare) == (-1, false)
    ensures InsertionPoint([1, 3, 5, 7], IntKey, IntCompare, 2, 1)
    ensures Search([1, 3, 5, 7], 2, IntKey, IntCompare) == (1, false)
    ensures !Sorted(StoreAt([1, 3, 5, 7], -1, 2), IntKey, IntCompare)
  {
    var s := [1, 3, 5, 7];
    assert SearchLoopAsWritten(s, 2, IntKey, IntCompare, 0, 3, -1)
        == SearchLoopAsWritten(s, 2, IntKey, IntCompare, 0, 0, -1);
    assert SearchLoopAsWritten(s, 2, IntKey, IntCompare, 0, 0, -1)
        == SearchLoopAsWritten(s, 2, IntKey, IntCompare, 1, 0, 0);
    assert Below(s, 2, IntKey, IntCompare) == 1 + Below(s[1..], 2, IntKey, IntCompare);
    var t := StoreAt(s, -1, 2);
    assert t[3] == 7 && t[4] == 2;
  }

  /** slices.Insert at idx, or append when idx is -1. */
  function StoreAt<V>(items: seq<V>, idx: int, item: V): (r: seq<V>)
    requires -1 <= idx <= |items|
  {
    if idx < 0 then items + [item] else items[..idx] + [item] + items[idx..]
  }

  /** slices.Delete(items, idx, idx+1). */
  function Remove<V>(items: seq<V>, idx: int): (r: seq<V>)
    requires 0 <= idx < |items|
  {
    items[..idx] + items[idx + 1..]
  }

  /** Go's copy(dst, src): overwrite the front of dst with as much of src as fits. */
  function Copy<V>(dst: seq<V>, src: seq<V>): (r: seq<V>)
    ensures |r| == |dst|
  {
    if |src| >= |dst| then src[..|dst|] else src + dst[|src|..]
  }

  function Zeros<V>(n: nat, zero: V): (r: seq<V>)
    ensures |r| == n && forall i :: 0 <= i < n ==> r[i] == zero
  {
    seq(n, _ => zero)
  }

  /**
   * The slice Delete builds as written: a fresh slice of length n-1, the
   * prefix copied in, then the suffix copied in again from index 0.
   */
  function DeleteAsWritten<V>(items: seq<V>, idx: int, zero: V): (r: seq<V>)
    requires 0 <= idx < |items|
    ensures |r| == |items| - 1
  {
    var lastIdx := |items| - 1;
    var made := Zeros(lastIdx, zero);
    if idx == lastIdx && idx != 0 then Copy(made, items[..lastIdx])
    else if idx != lastIdx then
      Copy(if idx != 0 then Copy(made, items[..idx]) else made, items[idx + 1..])
    else made
  }

  /** Deleting the middle of [1,2,3] leaves [3, zero] instead of [1,3]. */
  lemma DeleteAsWrittenLosesPrefix()
    ensures DeleteAsWritten([1, 2, 3], 1, 0) == [3, 0]
    ensures Remove([1, 2, 3], 1) == [1, 3]
  {
    assert Copy(Zeros(2, 0), [1]) == [1, 0];
  }

  /** No two items share a hash code (implied by Sorted). */
  ghost predicate DistinctKeys<K, V>(items: seq<V>, key: V -> K)
  {
    forall i, j :: 0 <= i < j < |items| ==> key(items[i]) != key(items[j])
  }

  lemma SortedDistinct<K(!new), V>(items: seq<V>, key: V -> K, cmp: (K, K) -> int)
    requires TotalOrder(cmp) && Sorted(items, key, cmp)
    ensures DistinctKeys(items, key)
  {
    forall i, j | 0 <= i < j < |items| ensures key(items[i]) != key(items[j]) {
      assert cmp(key(items[i]), key(items[j])) < 0;
    }
  }

  /** The bucket's content: each stored hash code mapped to its item. */
  ghost function ToMap<K, V>(items: seq<V>, key: V -> K): (m: map<K, V>)
    requires DistinctKeys(items, key)
  {
    map i | 0 <= i < |items| :: key(items[i]) := items[i]
  }

  lemma ToMapAt<K, V>(items: seq<V>, key: V -> K, i: int)
    requires DistinctKeys(items, key) && 0 <= i < |items|
    ensures key(items[i]) in ToMap(items, key)
    ensures ToMap(items, key)[key(items[i])] == items[i]
  {
  }

  lemma ToMapHas<K, V>(items: seq<V>, key: V -> K, k: K) returns (i: int)
    requires DistinctKeys(items, key) && k in ToMap(items, key)
    ensures 0 <= i < |items| && key(items[i]) == k && ToMap(items, key)[k] == items[i]
  {
    i :| 0 <= i < |items| && key(items[i]) == k;
  }

  /** Inserting at the insertion point keeps the slice sorted. */
  lemma SortedStoreAt<K(!new), V>(items: seq<V>, key: V -> K, cmp: (K, K) -> int, idx: int, item: V)
    requires TotalOrder(cmp) && Sorted(items, key, cmp) && -1 <= idx <= |items|
    requires InsertionPoint(items, key, cmp, key(item), if idx < 0 then |items| else idx)
    ensures Sorted(StoreAt(items, idx, item), key, cmp)
  {
    var p := if idx < 0 then |items| else idx;
    var t := StoreAt(items, idx, item);
    assert t == items[..p] + [item] + items[p..];
    forall i, j | 0 <= i < j < |t| ensures cmp(key(t[i]), key(t[j])) < 0 {
      if j < p {
        assert t[i] == items[i] && t[j] == items[j];
      } else if j == p {
        assert t[i] == items[i] && t[j] == item;
      } else if i < p {
        assert t[i] == items[i] && t[j] == items[j - 1];
        assert cmp(key(items[i]), key(items[j - 1])) < 0;
      } else if i == p {
        assert t[i] == item && t[j] == items[j - 1];
        assert cmp(key(items[j - 1]), key(item)) > 0;
      } else {
        assert t[i] == items[i - 1] && t[j] == items[j - 1];
        assert cmp(key(items[i - 1]), key(items[j - 1])) < 0;
      }
    }
  }

  /** Inserting a new hash code anywhere adds exactly that entry to the content. */
  lemma ToMapInsert<K, V>(items: seq<V>, key: V -> K, p: int, item: V)
    requires DistinctKeys(items, key) && 0 <= p <= |items|
    requires forall i :: 0 <= i < |items| ==> key(items[i]) != key(item)
    ensures DistinctKeys(items[..p] + [item] + items[p..], key)
    ensures ToMap(items[..p] + [item] + items[p..], key) == ToMap(items, key)[key(item) := item]
  {
    var t := items[..p] + [item] + items[p..];
    assert forall i :: 0 <= i < p ==> t[i] == items[i];
    assert t[p] == item;
    assert forall i :: p < i < |t| ==> t[i] == items[i - 1];
    forall i, j | 0 <= i < j < |t| ensures key(t[i]) != key(t[j]) {
      var i' := if i < p then i else i - 1;
      var j' := if j <= p then j else j - 1;
      if i != p && j != p { assert i' < j'; }
    }
    var m := ToMap(items, key);
    var m2 := m[key(item) := item];
    var m' := ToMap(t, key);
    forall k | k in m' ensures k in m2 && m'[k] == m2[k] {
      var i := ToMapHas(t, key, k);
      if i < p {
        ToMapAt(items, key, i);
      } else if i > p {
        ToMapAt(items, key, i - 1);
      }
    }
    forall k | k in m2 ensures k in m' {
      if k == key(item) {
        ToMapAt(t, key, p);
      } else {
        var i := ToMapHas(items, key, k);
        if i < p { ToMapAt(t, key, i); } else { ToMapAt(t, key, i + 1); }
      }
    }
  }

  /** Overwriting the item that has the same hash code updates only that entry. */
  lemma ToMapReplace<K, V>(items: seq<V>, key: V -> K, idx: int, item: V)
    requires DistinctKeys(items, key) && 0 <= idx < |items|
    requires key(items[idx]) == key(item)
    ensures DistinctKeys(items[idx := item], key)
    ensures ToMap(items[idx := item], key) == ToMap(items, key)[key(item) := item]
  {
    var t := items[idx := item];
    assert forall i :: 0 <= i < |t| ==> key(t[i]) == key(items[i]);
    var m := ToMap(items, key);
    var m' := ToMap(t, key);
    forall k | k in m' ensures k in m[key(item) := item] && m'[k] == m[key(item) := item][k] {
      var i := ToMapHas(t, key, k);
      ToMapAt(items, key, i);
    }
    forall k | k in m[key(item) := item] ensures k in m' {
      if k == key(item) {
        ToMapAt(t, key, idx);
      } else {
        var i := ToMapHas(items, key, k);
        ToMapAt(t, key, i);
      }
    }
  }

  /** Removing one position drops exactly its hash code from the content. */
  lemma ToMapRemove<K, V>(items: seq<V>, key: V -> K, idx: int)
    requires DistinctKeys(items, key) && 0 <= idx < |items|
    ensures DistinctKeys(Remove(items, idx), key)
    ensures ToMap(Remove(items, idx), key) == ToMap(items, key) - {key(items[idx])}
  {
    var t := Remove(items, idx);
    assert forall i :: 0 <= i < idx ==> t[i] == items[i];
    assert forall i :: idx <= i < |t| ==> t[i] == items[i + 1];
    forall i, j | 0 <= i < j < |t| ensures key(t[i]) != key(t[j]) {
      var i' := if i < idx then i else i + 1;
      var j' := if j < idx then j else j + 1;
      assert i' < j';
    }
    var m := ToMap(items, key);
    var m' := ToMap(t, key);
    var h := key(items[idx]);
    forall k | k in m' ensures k in m && k != h && m'[k] == m[k] {
      var i := ToMapHas(t, key, k);
      var i' := if i < idx then i else i + 1;
      assert t[i] == items[i'] && i' != idx;
      ToMapAt(items, key, i');
    }
    forall k | k in m && k != h ensures k in m' {
      var i := ToMapHas(items, key, k);
      assert i != idx;
      if i < idx { ToMapAt(t, key, i); } else { ToMapAt(t, key, i - 1); }
    }
    assert m' == m - {h};
  }

  /** Overwriting in place keeps a sorted slice sorted. */
  lemma SortedReplace<K(!new), V>(items: seq<V>, key: V -> K, cmp: (K, K) -> int, idx: int, item: V)
    requires Sorted(items, key, cmp) && 0 <= idx < |items| && key(items[idx]) == key(item)
    ensures Sorted(items[idx := item], key, cmp)
  {
    var t := items[idx := item];
    assert forall i :: 0 <= i < |t| ==> key(t[i]) == key(items[i]);
  }

  /** Removing a position keeps a sorted slice sorted. */
  lemma SortedRemove<K(!new), V>(items: seq<V>, key: V -> K, cmp: (K, K) -> int, idx: int)
    requires Sorted(items, key, cmp) && 0 <= idx < |items|
    ensures Sorted(Remove(items, idx), key, cmp)
  {
    var t := Remove(items, idx);
    assert forall i :: 0 <= i < idx ==> t[i] == items[i];
    assert forall i :: idx <= i < |t| ==> t[i] == items[i + 1];
    forall i, j | 0 <= i < j < |t| ensures cmp(key(t[i]), key(t[j])) < 0 {
      var i' := if i < idx then i else i + 1;
      var j' := if j < idx then j else j + 1;
      assert cmp(key(items[i']), key(items[j'])) < 0;
    }
  }

  const DuplicateError: string := "Bucket Item already existsed"

  /** Swap: replace the item with the same hash code, else insert; the replaced item if any. */
  function SwapOp<K, V>(items: seq<V>, item: V, key: V -> K, cmp: (K, K) -> int): (r: (seq<V>, Option<V>))
  {
    var (idx, ok) := Search(items, key(item), key, cmp);
    if ok then (items[idx := item], Some(items[idx])) else (StoreAt(items, idx, item), None)
  }

  /** SearchOrStore: the stored item with true, or the argument inserted and returned with false. */
  function SearchOrStoreOp<K, V>(items: seq<V>, item: V, key: V -> K, cmp: (K, K) -> int): (r: (seq<V>, V, bool))
  {
    var (idx, ok) := Search(items, key(item), key, cmp);
    if ok then (items, items[idx], true) else (StoreAt(items, idx, item), item, false)
  }

  /** Store: the duplicate error, or the argument inserted. */
  function StoreOp<K, V>(items: seq<V>, item: V, key: V -> K, cmp: (K, K) -> int): (r: (seq<V>, Option<string>))
  {
    var (idx, ok) := Search(items, key(item), key, cmp);
    if ok then (items, Some(DuplicateError)) else (StoreAt(items, idx, item), None)
  }

  /** Delete (corrected): drop the item stored under hash, if any. */
  function DeleteOp<K, V>(items: seq<V>, hash: K, key: V -> K, cmp: (K, K) -> int): (r: seq<V>)
  {
    var lastIdx := |items| - 1;
    if lastIdx < 0 then items
    else
      var (idx, ok) := Search(items, hash, key, cmp);
      if ok then Remove(items, idx) else items
  }

  /** At: a non-negative index counts from the front, a negative one from the back. */
  function AtOp<V>(items: seq<V>, index: int): (r: Option<V>)
    ensures r.Some? <==> -|items| <= index < |items|
    ensures 0 <= index < |items| ==> r == Some(items[index])
    ensures -|items| <= index < 0 ==> r == Some(items[|items| + index])
  {
    var idx := if index < 0 then |items| + index else index;
    if 0 <= idx < |items| then Some(items[idx]) else None
  }

  lemma SwapOpSpec<K(!new), V>(items: seq<V>, item: V, key: V -> K, cmp: (K, K) -> int)
    requires TotalOrder(cmp) && Sorted(items, key, cmp)
    ensures DistinctKeys(items, key)
    ensures var (t, previous) := SwapOp(items, item, key, cmp);
      && Sorted(t, key, cmp) && DistinctKeys(t, key)
      && ToMap(t, key) == ToMap(items, key)[key(item) := item]
      && previous == (if key(item) in ToMap(items, key) then Some(ToMap(items, key)[key(item)]) else None)
  {
    SortedDistinct(items, key, cmp);
    SearchSpec(items, key(item), key, cmp);
    var (idx, ok) := Search(items, key(item), key, cmp);
    if ok {
      SortedReplace(items, key, cmp, idx, item);
      ToMapReplace(items, key, idx, item);
      ToMapAt(items, key, idx);
    } else {
      InsertSpec(items, key, cmp, idx, item);
      NotStored(items, key, key(item));
    }
  }

  lemma SearchOrStoreOpSpec<K(!new), V>(items: seq<V>, item: V, key: V -> K, cmp: (K, K) -> int)
    requires TotalOrder(cmp) && Sorted(items, key, cmp)
    ensures DistinctKeys(items, key)
    ensures var (t, ritem, ok) := SearchOrStoreOp(items, item, key, cmp);
      && Sorted(t, key, cmp) && DistinctKeys(t, key)
      && (ok <==> key(item) in ToMap(items, key))
      && (ok ==> t == items && ritem == ToMap(items, key)[key(item)])
      && (!ok ==> ritem == item && ToMap(t, key) == ToMap(items, key)[key(item) := item])
  {
    SortedDistinct(items, key, cmp);
    SearchSpec(items, key(item), key, cmp);
    var (idx, ok) := Search(items, key(item), key, cmp);
    if ok {
      ToMapAt(items, key, idx);
    } else {
      InsertSpec(items, key, cmp, idx, item);
      NotStored(items, key, key(item));
    }
  }

  lemma StoreOpSpec<K(!new), V>(items: seq<V>, item: V, key: V -> K, cmp: (K, K) -> int)
    requires TotalOrder(cmp) && Sorted(items, key, cmp)
    ensures DistinctKeys(items, key)
    ensures var (t, err) := StoreOp(items, item, key, cmp);
      && Sorted(t, key, cmp) && DistinctKeys(t, key)
      && (err.Some? <==> key(item) in ToMap(items, key))
      && (err.Some? ==> t == items && err == Some(DuplicateError))
      && (err.None? ==> |t| == |items| + 1 && ToMap(t, key) == ToMap(items, key)[key(item) := item])
  {
    SortedDistinct(items, key, cmp);
    SearchSpec(items, key(item), key, cmp);
    var (idx, ok) := Search(items, key(item), key, cmp);
    if ok {
      ToMapAt(items, key, idx);
    } else {
      InsertSpec(items, key, cmp, idx, item);
      NotStored(items, key, key(item));
    }
  }

  lemma DeleteOpSpec<K(!new), V>(items: seq<V>, hash: K, key: V -> K, cmp: (K, K) -> int)
    requires TotalOrder(cmp) && Sorted(items, key, cmp)
    ensures DistinctKeys(items, key)
    ensures var t := DeleteOp(items, hash, key, cmp);
      && Sorted(t, key, cmp) && DistinctKeys(t, key)
      && ToMap(t, key) == ToMap(items, key) - {hash}
      && |t| == if hash in ToMap(items, key) then |items| - 1 else |items|
  {
    SortedDistinct(items, key, cmp);
    SearchFindsContent(items, hash, key, cmp);
    var m := ToMap(items, key);
    var (idx, ok) := Search(items, hash, key, cmp);
    if |items| > 0 && ok {
      assert DeleteOp(items, hash, key, cmp) == Remove(items, idx);
      SearchSpec(items, hash, key, cmp);
      SortedRemove(items, key, cmp, idx);
      ToMapRemove(items, key, idx);
    } else {
      assert DeleteOp(items, hash, key, cmp) == items;
      assert hash !in m;
      assert m - {hash} == m;
    }
  }

  /** The item found for hash is the one in the content. */
  lemma SearchFindsContent<K(!new), V>(items: seq<V>, hash: K, key: V -> K, cmp: (K, K) -> int)
    requires TotalOrder(cmp) && Sorted(items, key, cmp)
    ensures DistinctKeys(items, key)
    ensures var (idx, ok) := Search(items, hash, key, cmp);
      && (ok <==> hash in ToMap(items, key))
      && (ok ==> items[idx] == ToMap(items, key)[hash])
  {
    SortedDistinct(items, key, cmp);
    SearchSpec(items, hash, key, cmp);
    var (idx, ok) := Search(items, hash, key, cmp);
    if ok {
      ToMapAt(items, key, idx);
    } else {
      NotStored(items, key, hash);
    }
  }

  lemma InsertSpec<K(!new), V>(items: seq<V>, key: V -> K, cmp: (K, K) -> int, idx: int, item: V)
    requires TotalOrder(cmp) && Sorted(items, key, cmp) && -1 <= idx <= |items|
    requires InsertionPoint(items, key, cmp, key(item), if idx < 0 then |items| else idx)
    ensures DistinctKeys(items, key)
    ensures Sorted(StoreAt(items, idx, item), key, cmp) && DistinctKeys(StoreAt(items, idx, item), key)
    ensures |StoreAt(items, idx, item)| == |items| + 1
    ensures ToMap(StoreAt(items, idx, item), key) == ToMap(items, key)[key(item) := item]
  {
    SortedDistinct(items, key, cmp);
    SortedStoreAt(items, key, cmp, idx, item);
    var p := if idx < 0 then |items| else idx;
    assert StoreAt(items, idx, item) == items[..p] + [item] + items[p..];
    forall i | 0 <= i < |items| ensures key(items[i]) != key(item) {
      assert cmp(key(items[i]), key(item)) != 0;
    }
    ToMapInsert(items, key, p, item);
  }

  lemma NotStored<K, V>(items: seq<V>, key: V -> K, hash: K)
    requires DistinctKeys(items, key)
    requires forall i :: 0 <= i < |items| ==> key(items[i]) != hash
    ensures hash !in ToMap(items, key)
  {
  }

  /** slices.BinarySearchFunc: the leftmost position whose key is not below target, and whether it equals target. */
  function BinarySearch<K, V>(items: seq<V>, target: K, key: V -> K, cmp: (K, K) -> int): (r: (int, bool))
    ensures 0 <= r.0 <= |items|
    ensures r.1 ==> r.0 < |items|
  {
    var n := Below(items, target, key, cmp);
    (n, n < |items| && cmp(key(items[n]), target) == 0)
  }

  /** BinarySearch and Search agree: the same verdict, and the same position, -1 standing for the end. */
  lemma BinarySearchAgrees<K, V>(items: seq<V>, target: K, key: V -> K, cmp: (K, K) -> int)
    ensures var (idx, ok) := Search(items, target, key, cmp);
      BinarySearch(items, target, key, cmp) == (if idx < 0 then |items| else idx, ok)
  {
  }

  /** slices.BinarySearchFunc on a sorted slice: found exactly when some item has the key, at such an item, and otherwise the insertion point. */
  lemma BinarySearchFinds<K(!new), V>(items: seq<V>, target: K, key: V -> K, cmp: (K, K) -> int)
    requires TotalOrder(cmp) && Sorted(items, key, cmp)
    ensures var (idx, ok) := BinarySearch(items, target, key, cmp);
      && (ok <==> exists i :: 0 <= i < |items| && key(items[i]) == target)
      && (ok ==> key(items[idx]) == target)
      && (!ok ==> InsertionPoint(items, key, cmp, target, idx))
  {
    SearchSpec(items, target, key, cmp);
    BinarySearchAgrees(items, target, key, cmp);
  }

  lemma BinarySearchSpec<K(!new), V>(items: seq<V>, target: K, key: V -> K, cmp: (K, K) -> int)
    requires TotalOrder(cmp) && Sorted(items, key, cmp)
    ensures DistinctKeys(items, key)
    ensures var (idx, ok) := BinarySearch(items, target, key, cmp);
      && (ok <==> target in ToMap(items, key))
      && (ok ==> key(items[idx]) == target && ToMap(items, key)[target] == items[idx])
      && (!ok ==> InsertionPoint(items, key, cmp, target, idx))
  {
    SearchFindsContent(items, target, key, cmp);
    SearchSpec(items, target, key, cmp);
    BinarySearchAgrees(items, target, key, cmp);
  }
}
