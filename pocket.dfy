// memory Pocket: an unordered multiset of comparable items kept in a slice.
// Its lock is dropped.
module MemoryPocket {
  import opened Wrappers

  /** slices.Index: the first position holding x, or -1. */
  function IndexOf<T(==)>(s: seq<T>, x: T): (r: int)
    ensures -1 <= r < |s|
    ensures r >= 0 ==> s[r] == x && forall i :: 0 <= i < r ==> s[i] != x
    ensures r < 0 ==> x !in s
  {
    if s == [] then -1
    else if s[0] == x then 0
    else
      var r := IndexOf(s[1..], x);
      if r < 0 then -1 else r + 1
  }

  /** Remove's effect: the first occurrence overwritten by the last element, then the slice shortened. */
  function RemoveSwapLast<T(==)>(s: seq<T>, x: T): seq<T>
  {
    var idx := IndexOf(s, x);
    if idx < 0 then s
    else
      var lastIdx := |s| - 1;
      (if lastIdx != idx then s[idx := s[lastIdx]] else s)[..lastIdx]
  }

  lemma RemoveSwapLastSpec<T>(s: seq<T>, x: T)
    ensures x !in s ==> RemoveSwapLast(s, x) == s
    ensures x in s ==> |RemoveSwapLast(s, x)| == |s| - 1
    ensures multiset(RemoveSwapLast(s, x)) == multiset(s) - multiset{x}
  {
    var idx := IndexOf(s, x);
    if idx >= 0 {
      var lastIdx := |s| - 1;
      var t := if lastIdx != idx then s[idx := s[lastIdx]] else s;
      assert s == s[..lastIdx] + [s[lastIdx]];
      if lastIdx != idx {
        assert t[..lastIdx] == s[..idx] + [s[lastIdx]] + s[idx + 1..lastIdx];
        assert s == s[..idx] + [s[idx]] + s[idx + 1..lastIdx] + [s[lastIdx]];
      }
    } else {
      assert multiset(s)[x] == 0;
    }
  }

  class Pocket<T(==)> {
    var items: seq<T>

    /** NewPocket. */
    constructor ()
      ensures items == []
    {
      items := [];
    }

    /** A copy of the items, or nil when empty. */
    method GetAll() returns (r: Option<seq<T>>)
      ensures r.None? <==> items == []
      ensures r.Some? ==> r.value == items
    {
      r := None;
      if |items| > 0 {
        r := Some(items);
      }
    }

    /** Append the arguments in order. */
    method Add(added: seq<T>)
      modifies this
      ensures items == old(items) + added
    {
      items := items + added;
    }

    /** Delete the first occurrence by moving the last element into its slot. */
    method Remove(item: T)
      modifies this
      ensures items == RemoveSwapLast(old(items), item)
      ensures item !in old(items) ==> items == old(items)
      ensures item in old(items) ==> |items| == |old(items)| - 1
      ensures multiset(items) == multiset(old(items)) - multiset{item}
    {
      RemoveSwapLastSpec(items, item);
      var idx := IndexOf(items, item);
      if idx >= 0 {
        var lastIdx := |items| - 1;
        if lastIdx != idx {
          items := items[idx := items[lastIdx]];
        }
        items := items[..lastIdx];
      }
    }
  }
}
