// memory Bucket: the sorted bucket used by the peer managers. Its search
// calls compare(hash, midKey), the reverse of the cache variants, so the
// slice is kept in DESCENDING order of the comparator: it is the shared
// algorithm run with Flip(cmp). Its lock is dropped.
module MemoryBucket {
  import opened Wrappers
  import opened Ordering
  import opened Buckets

  class Bucket<K(!new), V> {
    var items: seq<V>
    const key: V -> K
    const cmp: (K, K) -> int

    ghost predicate Valid()
      reads this
    {
      TotalOrder(cmp) && Sorted(items, key, Flip(cmp))
    }

    ghost function Contents(): map<K, V>
      reads this
      requires Valid()
    {
      FlipTotal(cmp);
      SortedDistinct(items, key, Flip(cmp));
      ToMap(items, key)
    }

    /** NewBucket. */
    constructor (key: V -> K, cmp: (K, K) -> int)
      requires TotalOrder(cmp)
      ensures Valid() && items == [] && this.key == key && this.cmp == cmp
    {
      items := [];
      this.key := key;
      this.cmp := cmp;
    }

    /** The hash codes in slice order, or nil for an empty bucket. */
    method GetHashCodes() returns (hashcodes: Option<seq<K>>)
      ensures hashcodes.None? <==> items == []
      ensures hashcodes.Some? ==> |hashcodes.value| == |items|
      ensures hashcodes.Some? ==> forall i :: 0 <= i < |items| ==> hashcodes.value[i] == key(items[i])
    {
      var hashs: seq<K> := [];
      if |items| > 0 {
        var i := 0;
        while i < |items|
          invariant 0 <= i <= |items|
          invariant |hashs| == i
          invariant forall j :: 0 <= j < i ==> hashs[j] == key(items[j])
        {
          hashs := hashs + [key(items[i])];
          i := i + 1;
        }
      }
      hashcodes := None;
      if |hashs| > 0 {
        hashcodes := Some(hashs);
      }
    }

    method Count() returns (count: int)
      ensures count == |items|
    {
      count := |items|;
    }

    /** A copy of the items, or nil for an empty bucket. */
    method GetAll() returns (r: Option<seq<V>>)
      ensures r.None? <==> items == []
      ensures r.Some? ==> r.value == items
    {
      r := None;
      if |items| > 0 {
        r := Some(items);
      }
    }

    /** The final element, which in descending order has the lowest hash code; the zero value (None) when empty. */
    method GetLastItem() returns (item: Option<V>)
      requires Valid()
      ensures item.None? <==> items == []
      ensures item.Some? ==> item.value == items[|items| - 1]
      ensures item.Some? ==> forall i :: 0 <= i < |items| - 1 ==> cmp(key(items[i]), key(item.value)) > 0
    {
      var idx := |items| - 1;
      item := None;
      if idx >= 0 {
        item := Some(items[idx]);
      }
    }

    /** The item stored under hash, or the zero value (None). */
    method GetItem(hash: K) returns (item: Option<V>)
      requires Valid()
      ensures item.Some? <==> hash in Contents()
      ensures item.Some? ==> item.value == Contents()[hash]
    {
      FlipTotal(cmp);
      var idx, existed := SearchIndex(items, hash, key, Flip(cmp));
      SearchFindsContent(items, hash, key, Flip(cmp));
      item := None;
      if existed {
        item := Some(items[idx]);
      }
    }

    /** Replace the item with the same hash code, else insert. */
    method SetItem(item: V)
      requires Valid()
      modifies this
      ensures Valid()
      ensures items == SwapOp(old(items), item, key, Flip(cmp)).0
      ensures Contents() == old(Contents())[key(item) := item]
    {
      FlipTotal(cmp);
      SwapOpSpec(items, item, key, Flip(cmp));
      var hash := key(item);
      var idx, existed := SearchIndex(items, hash, key, Flip(cmp));
      if existed {
        items := items[idx := item];
      } else {
        if idx < 0 {
          items := items + [item];
        } else {
          items := items[..idx] + [item] + items[idx..];
        }
      }
    }

    /** The stored item with existed = true, or the argument inserted with existed = false. */
    method GetOrAddItem(item: V) returns (ritem: V, existed: bool)
      requires Valid()
      modifies this
      ensures Valid()
      ensures (items, ritem, existed) == SearchOrStoreOp(old(items), item, key, Flip(cmp))
      ensures existed <==> key(item) in old(Contents())
      ensures existed ==> items == old(items) && ritem == old(Contents())[key(item)]
      ensures !existed ==> ritem == item && Contents() == old(Contents())[key(item) := item]
    {
      FlipTotal(cmp);
      SearchOrStoreOpSpec(items, item, key, Flip(cmp));
      var hash := key(item);
      var idx;
      idx, existed := SearchIndex(items, hash, key, Flip(cmp));
      if existed {
        ritem := items[idx];
      } else {
        if idx < 0 {
          items := items + [item];
        } else {
          items := items[..idx] + [item] + items[idx..];
        }
        ritem := item;
      }
    }

    /** Insert the item; a stored hash code is an error and changes nothing. */
    method AddItem(item: V) returns (err: Option<string>)
      requires Valid()
      modifies this
      ensures Valid()
      ensures (items, err) == StoreOp(old(items), item, key, Flip(cmp))
      ensures err.Some? <==> key(item) in old(Contents())
      ensures err.Some? ==> items == old(items) && err.value == DuplicateError
      ensures err.None? ==> |items| == |old(items)| + 1 && Contents() == old(Contents())[key(item) := item]
    {
      FlipTotal(cmp);
      StoreOpSpec(items, item, key, Flip(cmp));
      var hash := key(item);
      var idx, existed := SearchIndex(items, hash, key, Flip(cmp));
      err := None;
      if existed {
        err := Some(DuplicateError);
      } else {
        if idx < 0 {
          items := items + [item];
        } else {
          items := items[..idx] + [item] + items[idx..];
        }
      }
    }

    /** Remove the item stored under the argument's hash code, if any (the copy into the new slice corrected). */
    method RemoveItem(item: V)
      requires Valid()
      modifies this
      ensures Valid()
      ensures items == DeleteOp(old(items), key(item), key, Flip(cmp))
      ensures Contents() == old(Contents()) - {key(item)}
      ensures |items| == if key(item) in old(Contents()) then |old(items)| - 1 else |old(items)|
    {
      FlipTotal(cmp);
      ghost var before := Contents();
      DeleteOpSpec(items, key(item), key, Flip(cmp));
      ghost var removed := DeleteOp(items, key(item), key, Flip(cmp));
      assert before == ToMap(items, key);
      var lastIdx := |items| - 1;
      var existed := lastIdx >= 0;
      var idx := -1;
      if existed {
        var hash := key(item);
        idx, existed := SearchIndex(items, hash, key, Flip(cmp));
      }
      if existed {
        assert removed == Remove(items, idx);
        items := items[..idx] + items[idx + 1..];
      }
      assert items == removed;
    }
  }

  /** A slice sorted for the memory bucket runs from the highest hash code to the lowest. */
  lemma DescendingOrder<K(!new), V>(items: seq<V>, key: V -> K, cmp: (K, K) -> int, i: int, j: int)
    requires TotalOrder(cmp) && Sorted(items, key, Flip(cmp)) && 0 <= i < j < |items|
    ensures cmp(key(items[i]), key(items[j])) > 0
  {
    assert Flip(cmp)(key(items[i]), key(items[j])) < 0;
  }

  /**
   * findBucketItemIdx as written is the shared search run with Flip(cmp),
   * and it misses the same middle positions: on the descending [7,5,3,1]
   * the hash 6 belongs at index 1, but it reports -1, so AddItem appends it
   * and the bucket is no longer in descending order.
   */
  lemma FindAsWrittenMissesMidArray()
    ensures SearchAsWritten([7, 5, 3, 1], 6, IntKey, Flip(IntCompare)) == (-1, false)
    ensures Search([7, 5, 3, 1], 6, IntKey, Flip(IntCompare)) == (1, false)
    ensures !Sorted(StoreAt([7, 5, 3, 1], -1, 6), IntKey, Flip(IntCompare))
  {
    var s := [7, 5, 3, 1];
    var down := Flip(IntCompare);
    assert down(IntKey(s[1]), 6) == IntCompare(6, 5) == 1;
    assert down(IntKey(s[0]), 6) == IntCompare(6, 7) == -1;
    assert SearchLoopAsWritten(s, 6, IntKey, down, 0, 3, -1)
        == SearchLoopAsWritten(s, 6, IntKey, down, 0, 0, -1);
    assert SearchLoopAsWritten(s, 6, IntKey, down, 0, 0, -1)
        == SearchLoopAsWritten(s, 6, IntKey, down, 1, 0, 0);
    assert Below(s, 6, IntKey, down) == 1 + Below(s[1..], 6, IntKey, down);
    var t := StoreAt(s, -1, 6);
    assert t[3] == 1 && t[4] == 6;
  }

  /**
   * RemoveItem as written, on a middle item of the descending [3,2,1]:
   * findBucketItemIdx finds 2 at index 1, and the suffix copy lands on index
   * 0 of the new slice, leaving [1, zero] where the corrected RemoveItem
   * leaves [3, 1]: the item under 3 is lost and a zero value takes a slot.
   */
  lemma RemoveAsWrittenLosesMiddle()
    ensures SearchAsWritten([3, 2, 1], 2, IntKey, Flip(IntCompare)) == (1, true)
    ensures DeleteAsWritten([3, 2, 1], 1, 0) == [1, 0]
    ensures DeleteOp([3, 2, 1], 2, IntKey, Flip(IntCompare)) == [3, 1]
  {
    var s := [3, 2, 1];
    var down := Flip(IntCompare);
    assert down(IntKey(s[1]), 2) == IntCompare(2, 2) == 0;
    assert down(IntKey(s[0]), 2) == IntCompare(2, 3) == -1;
    assert SearchLoopAsWritten(s, 2, IntKey, down, 0, 2, -1) == (1, true);
    assert Copy(Zeros(2, 0), [3]) == [3, 0];
    assert Below(s, 2, IntKey, down) == 1 + Below(s[1..], 2, IntKey, down);
    assert s[1..][0] == 2;
  }

  /**
   * GetLastItem after adding hash 1 and then hash 2 under cmp.Compare. The
   * bucket's test expects the hash-2 item; findBucketItemIdx compares
   * compare(hash, mid), so 2 goes in front of 1 and the last item is the
   * hash-1 item.
   */
  method LastItemAfterTwoAdds() returns (last: Option<int>)
    ensures last == Some(1)
  {
    IntCompareTotal();
    TwoAddsDescend();
    var b := new Bucket<int, int>(IntKey, IntCompare);
    var e1 := b.AddItem(1);
    var e2 := b.AddItem(2);
    last := b.GetLastItem();
  }

  lemma TwoAddsDescend()
    ensures StoreOp([], 1, IntKey, Flip(IntCompare)).0 == [1]
    ensures StoreOp([1], 2, IntKey, Flip(IntCompare)).0 == [2, 1]
  {
    var down := Flip(IntCompare);
    assert down(IntKey(1), 2) == IntCompare(2, 1) == 1;
    assert Search([1], 2, IntKey, down) == (0, false);
  }
}
