// The merge both ExtFS remote-node listings perform: the node IDs the node
// manager reports as live are kept in a sorted slice (binary search, then
// insert); every node record the node service reports is looked up and
// removed from that slice, an unknown one failing the listing; the IDs left
// over are the live nodes the service knows nothing about.
module LiveNodes {
  import opened Wrappers
  import Errors

  /** Go's string order (byte-wise; node IDs are base64, so ASCII): lexicographic, a proper prefix first. */
  predicate Less(a: string, b: string)
  {
    if b == [] then false
    else if a == [] then true
    else if a[0] != b[0] then a[0] < b[0]
    else Less(a[1..], b[1..])
  }

  lemma {:induction false} LessIrreflexive(a: string)
    ensures !Less(a, a)
  {
    if a != [] {
      LessIrreflexive(a[1..]);
    }
  }

  lemma {:induction false} LessAsymmetric(a: string, b: string)
    requires Less(a, b)
    ensures !Less(b, a)
  {
    if a != [] && b != [] && a[0] == b[0] {
      LessAsymmetric(a[1..], b[1..]);
    }
  }

  lemma {:induction false} LessTotal(a: string, b: string)
    requires a != b
    ensures Less(a, b) || Less(b, a)
  {
    if a != [] && b != [] && a[0] == b[0] {
      assert a == [a[0]] + a[1..] && b == [b[0]] + b[1..];
      LessTotal(a[1..], b[1..]);
    }
  }

  /** a <= b <= c in Go's string order gives a <= c. */
  lemma {:induction false} NotLessTransitive(a: string, b: string, c: string)
    requires !Less(b, a) && !Less(c, b)
    ensures !Less(c, a)
  {
    if a != [] && b != [] && c != [] && a[0] == b[0] && b[0] == c[0] {
      NotLessTransitive(a[1..], b[1..], c[1..]);
    }
  }

  /** Non-decreasing in Go's string order. */
  predicate Sorted(s: seq<string>)
  {
    forall i, j :: 0 <= i < j < |s| ==> !Less(s[j], s[i])
  }

  /** The position slices.BinarySearch reports on a sorted slice: how many elements sort before x. */
  function LowerBound(s: seq<string>, x: string): (i: nat)
    ensures i <= |s|
    ensures forall k :: 0 <= k < i ==> Less(s[k], x)
    ensures i < |s| ==> !Less(s[i], x)
  {
    if s == [] || !Less(s[0], x) then 0 else 1 + LowerBound(s[1..], x)
  }

  /** On a sorted slice nothing from the searched position on sorts before x. */
  lemma LowerBoundSorted(s: seq<string>, x: string)
    requires Sorted(s)
    ensures forall k :: LowerBound(s, x) <= k < |s| ==> !Less(s[k], x)
  {
    var i := LowerBound(s, x);
    forall k | i < k < |s| ensures !Less(s[k], x) {
      NotLessTransitive(x, s[i], s[k]);
    }
  }

  /** slices.BinarySearch's second result: x sits at the reported position. */
  predicate Found(s: seq<string>, x: string)
  {
    LowerBound(s, x) < |s| && s[LowerBound(s, x)] == x
  }

  /** On a sorted slice the search finds x exactly when x is in it. */
  lemma FoundIffIn(s: seq<string>, x: string)
    requires Sorted(s)
    ensures Found(s, x) <==> x in s
  {
    var i := LowerBound(s, x);
    if x in s {
      var k :| 0 <= k < |s| && s[k] == x;
      LessIrreflexive(x);
      LowerBoundSorted(s, x);
      assert i <= k;
      if s[i] != x {
        LessTotal(s[i], x);
      }
    }
  }

  /** slices.Insert at the searched position. */
  function InsertSorted(s: seq<string>, x: string): (r: seq<string>)
    ensures multiset(r) == multiset(s) + multiset{x}
  {
    var i := LowerBound(s, x);
    assert s == s[..i] + s[i..];
    s[..i] + [x] + s[i..]
  }

  /** Inserting at the searched position keeps a sorted slice sorted. */
  lemma InsertKeepsSorted(s: seq<string>, x: string)
    requires Sorted(s)
    ensures Sorted(InsertSorted(s, x))
  {
    var i := LowerBound(s, x);
    var r := InsertSorted(s, x);
    assert r == s[..i] + [x] + s[i..];
    LowerBoundSorted(s, x);
    assert forall k :: 0 <= k < |r| ==> r[k] == if k < i then s[k] else if k == i then x else s[k - 1];
    forall a, b | 0 <= a < b < |r| ensures !Less(r[b], r[a]) {
      if a < i && b == i {
        LessAsymmetric(s[a], x);
      }
    }
  }

  /** The slice TraverseNodeID's callback builds: each live ID inserted at its searched position, in the order visited. */
  function SortLive(live: seq<string>): (ids: seq<string>)
  {
    if live == [] then [] else InsertSorted(SortLive(live[..|live| - 1]), live[|live| - 1])
  }

  /** The slice ends sorted. */
  lemma {:induction false} SortLiveSorted(live: seq<string>)
    ensures Sorted(SortLive(live))
  {
    if live != [] {
      var front := live[..|live| - 1];
      SortLiveSorted(front);
      InsertKeepsSorted(SortLive(front), live[|live| - 1]);
    }
  }

  /** The slice holds each live ID as often as it was visited. */
  lemma {:induction false} SortLivePermutes(live: seq<string>)
    ensures multiset(SortLive(live)) == multiset(live)
  {
    if live != [] {
      var front := live[..|live| - 1];
      var last := live[|live| - 1];
      SortLivePermutes(front);
      assert SortLive(live) == InsertSorted(SortLive(front), last);
      assert live == front + [last];
      assert multiset(live) == multiset(front) + multiset{last};
    }
  }

  /** Sorting keeps the number of live IDs. */
  lemma SortLiveLength(live: seq<string>)
    ensures |SortLive(live)| == |live|
  {
    SortLivePermutes(live);
    assert |multiset(SortLive(live))| == |multiset(live)|;
  }

  /** The TraverseNodeID callback loop, proved against SortLive. */
  method CollectLive(live: seq<string>) returns (ids: seq<string>)
    ensures ids == SortLive(live)
  {
    ids := [];
    var i := 0;
    while i < |live|
      invariant i <= |live|
      invariant ids == SortLive(live[..i])
    {
      assert live[..i + 1][..i] == live[..i];
      ids := InsertSorted(ids, live[i]);
      i := i + 1;
    }
    assert live[..i] == live;
  }

  /** What the node service reports about a node. */
  datatype NodeRecord = NodeRecord(nodeId: string, name: string, createdAt: int, updatedAt: int)

  /** The outcome of the merge: the records accepted, the IDs left over and the error, if any. */
  datatype Merged = Merged(known: seq<NodeRecord>, leftover: seq<string>, err: Option<string>)

  /**
   * TraverseWithNodeIDs over the reported records: each one is searched
   * for and deleted from the live IDs; the first that is not live stops the
   * traversal with ErrInternalError. Without one, the service's own
   * outcome is the error.
   */
  function Merge(ids: seq<string>, reported: seq<NodeRecord>, serviceErr: Option<string>): (m: Merged)
    decreases |reported|
  {
    if reported == [] then Merged([], ids, serviceErr)
    else
      var x := reported[0].nodeId;
      if !Found(ids, x) then Merged([], ids, Some(Errors.ErrInternalError))
      else
        var i := LowerBound(ids, x);
        var rest := Merge(ids[..i] + ids[i + 1..], reported[1..], serviceErr);
        assert reported == [reported[0]] + reported[1..];
        Merged([reported[0]] + rest.known, rest.leftover, rest.err)
  }

  /**
   * The merge accepts records in the order reported and stops at the first
   * rejected one: a merge with no error accepted them all, and its error is
   * ErrInternalError or the service's own.
   */
  lemma MergeOutcome(ids: seq<string>, reported: seq<NodeRecord>, serviceErr: Option<string>)
    ensures var m := Merge(ids, reported, serviceErr);
      |m.known| <= |reported| && m.known == reported[..|m.known|]
    ensures var m := Merge(ids, reported, serviceErr);
      m.err.None? ==> m.known == reported
    ensures var m := Merge(ids, reported, serviceErr);
      m.err.None? || m.err == serviceErr || m.err == Some(Errors.ErrInternalError)
  {
    MergeKnownPrefix(ids, reported, serviceErr);
    MergeAllKnown(ids, reported, serviceErr);
    MergeErrors(ids, reported, serviceErr);
  }

  /** The IDs left once the searched one is deleted. */
  function Without(ids: seq<string>, x: string): seq<string>
  {
    var i := LowerBound(ids, x);
    if i < |ids| then ids[..i] + ids[i + 1..] else ids
  }

  /** A record that is found: accepted ahead of what the rest of the merge gives. */
  lemma MergeAccepts(ids: seq<string>, reported: seq<NodeRecord>, serviceErr: Option<string>)
    requires reported != [] && Found(ids, reported[0].nodeId)
    ensures var rest := Merge(Without(ids, reported[0].nodeId), reported[1..], serviceErr);
      Merge(ids, reported, serviceErr) == Merged([reported[0]] + rest.known, rest.leftover, rest.err)
  {
  }

  /** The records a merge accepted are the first ones reported. */
  lemma {:induction false} MergeKnownPrefix(ids: seq<string>, reported: seq<NodeRecord>, serviceErr: Option<string>)
    ensures var m := Merge(ids, reported, serviceErr);
      |m.known| <= |reported| && m.known == reported[..|m.known|]
    decreases |reported|
  {
    if reported != [] && Found(ids, reported[0].nodeId) {
      var others := Without(ids, reported[0].nodeId);
      MergeAccepts(ids, reported, serviceErr);
      MergeKnownPrefix(others, reported[1..], serviceErr);
      PrefixCons(reported, Merge(others, reported[1..], serviceErr).known);
    }
  }

  /** A prefix of the tail, behind the head, is a prefix of the whole. */
  lemma PrefixCons<T>(s: seq<T>, rest: seq<T>)
    requires s != [] && |rest| <= |s| - 1 && rest == s[1..][..|rest|]
    ensures |[s[0]] + rest| <= |s| && [s[0]] + rest == s[..|rest| + 1]
  {
  }

  /** A merge with no error accepted every record. */
  lemma {:induction false} MergeAllKnown(ids: seq<string>, reported: seq<NodeRecord>, serviceErr: Option<string>)
    ensures var m := Merge(ids, reported, serviceErr);
      m.err.None? ==> m.known == reported
    decreases |reported|
  {
    if reported != [] && Found(ids, reported[0].nodeId) {
      MergeAccepts(ids, reported, serviceErr);
      MergeAllKnown(Without(ids, reported[0].nodeId), reported[1..], serviceErr);
      assert reported == [reported[0]] + reported[1..];
    }
  }

  /** A merge's error is ErrInternalError or the service's own. */
  lemma {:induction false} MergeErrors(ids: seq<string>, reported: seq<NodeRecord>, serviceErr: Option<string>)
    ensures var m := Merge(ids, reported, serviceErr);
      m.err.None? || m.err == serviceErr || m.err == Some(Errors.ErrInternalError)
    decreases |reported|
  {
    if reported != [] && Found(ids, reported[0].nodeId) {
      MergeAccepts(ids, reported, serviceErr);
      MergeErrors(Without(ids, reported[0].nodeId), reported[1..], serviceErr);
    }
  }

  /** The IDs of the given records. */
  function IdsOf(records: seq<NodeRecord>): (r: seq<string>)
    ensures |r| == |records| && forall k :: 0 <= k < |records| ==> r[k] == records[k].nodeId
  {
    if records == [] then [] else [records[0].nodeId] + IdsOf(records[1..])
  }

  /** Deleting the element at its searched position keeps the slice sorted and takes x out of it once. */
  lemma DeleteFound(ids: seq<string>, x: string)
    requires Sorted(ids) && Found(ids, x)
    ensures var i := LowerBound(ids, x);
      Sorted(ids[..i] + ids[i + 1..]) &&
      multiset(ids[..i] + ids[i + 1..]) == multiset(ids) - multiset{x}
  {
    var i := LowerBound(ids, x);
    var r := ids[..i] + ids[i + 1..];
    assert ids == ids[..i] + [ids[i]] + ids[i + 1..];
    forall a, b | 0 <= a < b < |r| ensures !Less(r[b], r[a]) {
      var a' := if a < i then a else a + 1;
      var b' := if b < i then b else b + 1;
      assert r[a] == ids[a'] && r[b] == ids[b'];
    }
  }

  /** The leftover IDs of a merge over a sorted slice are still sorted. */
  lemma {:induction false} MergeKeepsSorted(ids: seq<string>, reported: seq<NodeRecord>, serviceErr: Option<string>)
    requires Sorted(ids)
    ensures Sorted(Merge(ids, reported, serviceErr).leftover)
    decreases |reported|
  {
    if reported != [] && Found(ids, reported[0].nodeId) {
      var i := LowerBound(ids, reported[0].nodeId);
      DeleteFound(ids, reported[0].nodeId);
      MergeKeepsSorted(ids[..i] + ids[i + 1..], reported[1..], serviceErr);
    }
  }

  /** Taking x out of a bag and then the bag `later` is taking both out at once. */
  lemma TakeOneThenRest(all: multiset<string>, x: string, later: multiset<string>)
    requires x in all && later <= all - multiset{x}
    ensures multiset{x} + later <= all
    ensures (all - multiset{x}) - later == all - (multiset{x} + later)
  {
    forall y ensures ((all - multiset{x}) - later)[y] == (all - (multiset{x} + later))[y] {
    }
  }

  /**
   * A merge that completes accepted records of live nodes only, and the
   * leftover IDs are exactly the live ones no record named.
   */
  lemma {:induction false} MergeAccounts(ids: seq<string>, reported: seq<NodeRecord>, serviceErr: Option<string>)
    requires Sorted(ids)
    requires Merge(ids, reported, serviceErr).err.None?
    ensures multiset(IdsOf(reported)) <= multiset(ids)
    ensures multiset(Merge(ids, reported, serviceErr).leftover) == multiset(ids) - multiset(IdsOf(reported))
    decreases |reported|
  {
    if reported != [] {
      var x := reported[0].nodeId;
      var i := LowerBound(ids, x);
      assert Found(ids, x);
      var rest := ids[..i] + ids[i + 1..];
      var m := Merge(rest, reported[1..], serviceErr);
      assert Merge(ids, reported, serviceErr).leftover == m.leftover;
      DeleteFound(ids, x);
      MergeAccounts(rest, reported[1..], serviceErr);
      assert IdsOf(reported) == [x] + IdsOf(reported[1..]);
      FoundIffIn(ids, x);
      TakeOneThenRest(multiset(ids), x, multiset(IdsOf(reported[1..])));
    }
  }

  /** A record whose node is not live fails the merge. */
  lemma MergeRejectsUnknown(ids: seq<string>, reported: seq<NodeRecord>, serviceErr: Option<string>)
    requires Sorted(ids) && reported != [] && reported[0].nodeId !in ids
    ensures Merge(ids, reported, serviceErr) == Merged([], ids, Some(Errors.ErrInternalError))
  {
    FoundIffIn(ids, reported[0].nodeId);
  }

  /** The records accepted before a merge, put in front of its own. */
  function After(known: seq<NodeRecord>, m: Merged): Merged
  {
    m.(known := known + m.known)
  }

  /** Accepting the record at position i moves it in front of the merge of the rest. */
  lemma MergeStep(nodeIds: seq<string>, rest: seq<string>, reported: seq<NodeRecord>, i: nat, serviceErr: Option<string>, known: seq<NodeRecord>)
    requires i < |reported| && Found(nodeIds, reported[i].nodeId)
    requires rest == nodeIds[..LowerBound(nodeIds, reported[i].nodeId)] + nodeIds[LowerBound(nodeIds, reported[i].nodeId) + 1..]
    ensures After(known, Merge(nodeIds, reported[i..], serviceErr)) ==
      After(known + [reported[i]], Merge(rest, reported[i + 1..], serviceErr))
  {
    assert reported[i..][0] == reported[i];
    assert reported[i..][1..] == reported[i + 1..];
    var m := Merge(rest, reported[i + 1..], serviceErr);
    assert known + ([reported[i]] + m.known) == (known + [reported[i]]) + m.known;
  }

  /** A record that is not live ends the merge with the records accepted so far. */
  lemma MergeStop(nodeIds: seq<string>, reported: seq<NodeRecord>, i: nat, serviceErr: Option<string>, known: seq<NodeRecord>)
    requires i < |reported| && !Found(nodeIds, reported[i].nodeId)
    ensures After(known, Merge(nodeIds, reported[i..], serviceErr)) == Merged(known, nodeIds, Some(Errors.ErrInternalError))
  {
    assert reported[i..][0] == reported[i];
    assert known + [] == known;
  }

  /** With no record left, the merge keeps the IDs and takes the service's outcome. */
  lemma MergeEnd(nodeIds: seq<string>, reported: seq<NodeRecord>, serviceErr: Option<string>, known: seq<NodeRecord>)
    ensures After(known, Merge(nodeIds, reported[|reported|..], serviceErr)) == Merged(known, nodeIds, serviceErr)
  {
    assert reported[|reported|..] == [];
    assert known + [] == known;
  }

  lemma MergeStart(ids: seq<string>, reported: seq<NodeRecord>, serviceErr: Option<string>)
    ensures After([], Merge(ids, reported[0..], serviceErr)) == Merge(ids, reported, serviceErr)
  {
    assert reported[0..] == reported;
    assert [] + Merge(ids, reported, serviceErr).known == Merge(ids, reported, serviceErr).known;
  }

  /** The TraverseWithNodeIDs callback loop, proved against Merge. */
  method MergeLive(ids: seq<string>, reported: seq<NodeRecord>, serviceErr: Option<string>) returns (m: Merged)
    ensures m == Merge(ids, reported, serviceErr)
  {
    var nodeIds := ids;
    var known: seq<NodeRecord> := [];
    var i := 0;
    MergeStart(ids, reported, serviceErr);
    while i < |reported|
      invariant i <= |reported|
      invariant Merge(ids, reported, serviceErr) == After(known, Merge(nodeIds, reported[i..], serviceErr))
      decreases |reported| - i
    {
      var x := reported[i].nodeId;
      if !Found(nodeIds, x) {
        MergeStop(nodeIds, reported, i, serviceErr, known);
        return Merged(known, nodeIds, Some(Errors.ErrInternalError));
      }
      var idx := LowerBound(nodeIds, x);
      var rest := nodeIds[..idx] + nodeIds[idx + 1..];
      MergeStep(nodeIds, rest, reported, i, serviceErr, known);
      nodeIds, known, i := rest, known + [reported[i]], i + 1;
    }
    MergeEnd(nodeIds, reported, serviceErr, known);
    return Merged(known, nodeIds, serviceErr);
  }

  /** Two live nodes, one of them known: the known one comes first, then the other with no record. */
  lemma MergeExample()
    ensures Merge(["a", "b"], [NodeRecord("b", "second", 0, 0)], None) ==
      Merged([NodeRecord("b", "second", 0, 0)], ["a"], None)
  {
    var ids := ["a", "b"];
    assert Less("a", "b");
    assert LowerBound(ids, "b") == 1;
    assert ids[..1] + ids[2..] == ["a"];
  }
}
