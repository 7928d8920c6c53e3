// cache Bucket: the standalone copy of the sorted bucket. It differs from
// app/cache SimpleBucket only in Items, which returns nil for an empty
// bucket. Its lock is dropped; the operations are taken as sequential.
module CacheBucket {
  import opened Wrappers
  import opened Ordering
  import opened Buckets

  class Bucket<K(!new), V> {
    var items: seq<V>
    const key: V -> K
    const cmp: (K, K) -> int

    ghost predicate Valid()
      reads this
    {
      TotalOrder(cmp) && Sorted(items, key, cmp)
    }

    /** What the bucket holds: each hash code mapped to its item. */
    ghost function Contents(): map<K, V>
      reads this
      requires Valid()
    {
      SortedDistinct(items, key, cmp);
      ToMap(items, key)
    }

    /** NewBucket. */
    constructor (key: V -> K, cmp: (K, K) -> int)
      requires TotalOrder(cmp)
      ensures Valid() && items == [] && this.key == key && this.cmp == cmp
    {
      items := [];
      this.key := key;
      this.cmp := cmp;
    }

    /** The hash codes in slice order, or nil for an empty bucket. */
    method HashCodes() returns (hashcodes: Option<seq<K>>)
      ensures hashcodes.None? <==> items == []
      ensures hashcodes.Some? ==> |hashcodes.value| == |items|
      ensures hashcodes.Some? ==> forall i :: 0 <= i < |items| ==> hashcodes.value[i] == key(items[i])
    {
      var hashs: seq<K> := [];
      if |items| > 0 {
        var i := 0;
        while i < |items|
          invariant 0 <= i <= |items|
          invariant |hashs| == i
          invariant forall j :: 0 <= j < i ==> hashs[j] == key(items[j])
        {
          hashs := hashs + [key(items[i])];
          i := i + 1;
        }
      }
      hashcodes := None;
      if |hashs| > 0 {
        hashcodes := Some(hashs);
      }
    }

    method Size() returns (size: int)
      ensures size == |items|
    {
      size := |items|;
    }

    /** A copy of the items, or nil for an empty bucket. */
    method Items() returns (r: Option<seq<V>>)
      ensures r.None? <==> items == []
      ensures r.Some? ==> r.value == items
    {
      r := None;
      if |items| > 0 {
        r := Some(items);
      }
    }

    /** Indexes below zero count from the end; None when out of range. */
    method At(index: int) returns (item: Option<V>)
      ensures item == AtOp(items, index)
    {
      var idx := index;
      if idx < 0 {
        idx := |items| + idx;
      }
      item := None;
      if idx >= 0 && idx < |items| {
        item := Some(items[idx]);
      }
    }

    method Search(hash: K) returns (item: Option<V>)
      requires Valid()
      ensures item.Some? <==> hash in Contents()
      ensures item.Some? ==> item.value == Contents()[hash]
    {
      var idx, ok := SearchIndex(items, hash, key, cmp);
      SearchFindsContent(items, hash, key, cmp);
      item := None;
      if ok {
        item := Some(items[idx]);
      }
    }

    /** Replace the item with the same hash code, else insert; the previous item when one was replaced. */
    method Swap(item: V) returns (previous: Option<V>)
      requires Valid()
      modifies this
      ensures Valid()
      ensures (items, previous) == SwapOp(old(items), item, key, cmp)
      ensures Contents() == old(Contents())[key(item) := item]
      ensures previous == if key(item) in old(Contents()) then Some(old(Contents())[key(item)]) else None
    {
      SwapOpSpec(items, item, key, cmp);
      var hash := key(item);
      var idx, ok := SearchIndex(items, hash, key, cmp);
      previous := None;
      if ok {
        previous := Some(items[idx]);
        items := items[idx := item];
      } else {
        if idx < 0 {
          items := items + [item];
        } else {
          items := items[..idx] + [item] + items[idx..];
        }
      }
    }

    /** The stored item with true, or the argument inserted and returned with false. */
    method SearchOrStore(item: V) returns (ritem: V, ok: bool)
      requires Valid()
      modifies this
      ensures Valid()
      ensures (items, ritem, ok) == SearchOrStoreOp(old(items), item, key, cmp)
      ensures ok <==> key(item) in old(Contents())
      ensures ok ==> items == old(items) && ritem == old(Contents())[key(item)]
      ensures !ok ==> ritem == item && Contents() == old(Contents())[key(item) := item]
    {
      SearchOrStoreOpSpec(items, item, key, cmp);
      var hash := key(item);
      var idx;
      idx, ok := SearchIndex(items, hash, key, cmp);
      if ok {
        ritem := items[idx];
      } else {
        if idx < 0 {
          items := items + [item];
        } else {
          items := items[..idx] + [item] + items[idx..];
        }
        ritem := item;
      }
    }

    /** Insert the item; a stored hash code is an error and changes nothing. */
    method Store(item: V) returns (err: Option<string>)
      requires Valid()
      modifies this
      ensures Valid()
      ensures (items, err) == StoreOp(old(items), item, key, cmp)
      ensures err.Some? <==> key(item) in old(Contents())
      ensures err.Some? ==> items == old(items) && err.value == DuplicateError
      ensures err.None? ==> |items| == |old(items)| + 1 && Contents() == old(Contents())[key(item) := item]
    {
      StoreOpSpec(items, item, key, cmp);
      var hash := key(item);
      var idx, ok := SearchIndex(items, hash, key, cmp);
      err := None;
      if ok {
        err := Some(DuplicateError);
      } else {
        if idx < 0 {
          items := items + [item];
        } else {
          items := items[..idx] + [item] + items[idx..];
        }
      }
    }

    /** Remove the item stored under the argument's hash code, if any (the copy into the new slice corrected). */
    method Delete(item: V)
      requires Valid()
      modifies this
      ensures Valid()
      ensures items == DeleteOp(old(items), key(item), key, cmp)
      ensures Contents() == old(Contents()) - {key(item)}
      ensures |items| == if key(item) in old(Contents()) then |old(items)| - 1 else |old(items)|
    {
      ghost var before := Contents();
      DeleteOpSpec(items, key(item), key, cmp);
      ghost var removed := DeleteOp(items, key(item), key, cmp);
      assert before == ToMap(items, key);
      var lastIdx := |items| - 1;
      var ok := lastIdx >= 0;
      var idx := -1;
      if ok {
        var hash := key(item);
        idx, ok := SearchIndex(items, hash, key, cmp);
      }
      if ok {
        assert removed == Remove(items, idx);
        items := items[..idx] + items[idx + 1..];
      }
      assert items == removed;
    }
  }

  /**
   * Delete as written, on a middle item: indexOfBucket finds 2 in [1,2,3]
   * at index 1, and the suffix copy then lands on index 0 of the new slice,
   * over the prefix, leaving [3, zero] where the corrected Delete leaves [1, 3].
   */
  lemma DeleteAsWrittenLosesMiddle()
    ensures SearchAsWritten([1, 2, 3], 2, IntKey, IntCompare) == (1, true)
    ensures DeleteAsWritten([1, 2, 3], 1, 0) == [3, 0]
    ensures DeleteOp([1, 2, 3], 2, IntKey, IntCompare) == [1, 3]
  {
    var s := [1, 2, 3];
    assert SearchLoopAsWritten(s, 2, IntKey, IntCompare, 0, 2, -1) == (1, true);
    assert Copy(Zeros(2, 0), [1]) == [1, 0];
    assert Below(s, 2, IntKey, IntCompare) == 1 + Below(s[1..], 2, IntKey, IntCompare);
    assert s[1..][0] == 2;
  }
}
