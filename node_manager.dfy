// app/node: the node manager, a two-level table of live node connections.
// The outer slice holds one row per node ID, sorted by node ID; each row
// holds that node's connections sorted by resource ID. Both levels are
// searched with slices.BinarySearchFunc under bytes.Compare. The read/write
// lock is not modelled: operations are sequential.
module NodeManagement {
  import opened Wrappers
  import opened Ordering
  import opened Bytes
  import opened Buckets
  import opened Errors

  /** A live connection as the manager sees it. handle tells apart distinct connection objects that share IDs. */
  datatype Node = Node(id: bytes, nodeType: byte, resourceId: bytes, handle: nat)

  /** compareWithNodeID compares a row by its first node's ID. */
  function RowKey(row: seq<Node>): bytes {
    if row == [] then [] else row[0].id
  }

  function ResourceKey(node: Node): bytes {
    node.resourceId
  }

  /** A row is non-empty, sorted by resource ID, and every node in it has the same node ID. */
  ghost predicate RowValid(row: seq<Node>) {
    && |row| > 0
    && Sorted(row, ResourceKey, Compare)
    && forall k :: 0 <= k < |row| ==> row[k].id == row[0].id
  }

  /** The connections of one row by resource ID. */
  ghost function RowContents(row: seq<Node>): map<bytes, Node>
    requires RowValid(row)
  {
    CompareTotal();
    SortedDistinct(row, ResourceKey, Compare);
    ToMap(row, ResourceKey)
  }

  /** The IDs visited by TraverseNodeID: the first node ID of every non-empty row, in row order. */
  function FirstIDs(matrix: seq<seq<Node>>): seq<bytes> {
    if matrix == [] then []
    else
      var last := matrix[|matrix| - 1];
      FirstIDs(matrix[..|matrix| - 1]) + (if |last| > 0 then [last[0].id] else [])
  }

  lemma {:induction false} FirstIDsOfValid(matrix: seq<seq<Node>>)
    requires forall r :: 0 <= r < |matrix| ==> |matrix[r]| > 0
    ensures |FirstIDs(matrix)| == |matrix|
    ensures forall r :: 0 <= r < |matrix| ==> FirstIDs(matrix)[r] == RowKey(matrix[r])
  {
    if matrix != [] {
      FirstIDsOfValid(matrix[..|matrix| - 1]);
    }
  }

  /** Under the manager's invariant TraverseNodeID visits every stored node ID exactly once, in increasing order. */
  lemma FirstIDsAreRowKeys(matrix: seq<seq<Node>>)
    requires Sorted(matrix, RowKey, Compare)
    requires forall r :: 0 <= r < |matrix| ==> |matrix[r]| > 0
    ensures DistinctKeys(matrix, RowKey)
    ensures forall i, j :: 0 <= i < j < |FirstIDs(matrix)| ==> Compare(FirstIDs(matrix)[i], FirstIDs(matrix)[j]) < 0
    ensures forall id :: id in ToMap(matrix, RowKey) <==> id in FirstIDs(matrix)
  {
    CompareTotal();
    SortedDistinct(matrix, RowKey, Compare);
    FirstIDsOfValid(matrix);
    forall id | id in FirstIDs(matrix) ensures id in ToMap(matrix, RowKey) {
      var r :| 0 <= r < |FirstIDs(matrix)| && FirstIDs(matrix)[r] == id;
      ToMapAt(matrix, RowKey, r);
    }
    forall id | id in ToMap(matrix, RowKey) ensures id in FirstIDs(matrix) {
      var r := ToMapHas(matrix, RowKey, id);
      assert FirstIDs(matrix)[r] == id;
    }
  }

  lemma PrefixOfFirstIDs(m: seq<seq<Node>>, n: nat)
    requires n <= |m|
    ensures |FirstIDs(m[..n])| <= |FirstIDs(m)| && FirstIDs(m[..n]) == FirstIDs(m)[..|FirstIDs(m[..n])|]
    decreases |m| - n
  {
    if n < |m| {
      PrefixOfFirstIDs(m, n + 1);
      assert m[..n + 1][..n] == m[..n];
    } else {
      assert m[..n] == m;
    }
  }

  /** The visit order of TraverseNode: the row up to and including the first node the callback rejects. */
  ghost predicate TraversedPrefix(row: seq<Node>, traverse: Node -> bool, visited: seq<Node>) {
    && |visited| <= |row|
    && visited == row[..|visited|]
    && (forall k :: 0 <= k < |visited| - 1 ==> traverse(visited[k]))
    && (|visited| < |row| ==> |visited| > 0 && !traverse(visited[|visited| - 1]))
    && (row != [] ==> visited != [])
  }

  /** The range loop of TraverseNode over one row. */
  method TraverseRow(row: seq<Node>, traverse: Node -> bool) returns (visited: seq<Node>)
    ensures TraversedPrefix(row, traverse, visited)
  {
    visited := [];
    var i := 0;
    while i < |row|
      invariant 0 <= i <= |row| && visited == row[..i]
      invariant forall k :: 0 <= k < i ==> traverse(row[k])
    {
      visited := visited + [row[i]];
      if !traverse(row[i]) {
        return;
      }
      i := i + 1;
    }
  }

  ghost predicate AllRowsValid(matrix: seq<seq<Node>>) {
    forall r :: 0 <= r < |matrix| ==> RowValid(matrix[r])
  }

  lemma AllRowsInsert(matrix: seq<seq<Node>>, idx: int, row: seq<Node>)
    requires AllRowsValid(matrix) && RowValid(row) && 0 <= idx <= |matrix|
    ensures AllRowsValid(matrix[..idx] + [row] + matrix[idx..])
  {
    var t := matrix[..idx] + [row] + matrix[idx..];
    forall r | 0 <= r < |t| ensures RowValid(t[r]) {
      if r < idx {
        assert t[r] == matrix[r];
      } else if r > idx {
        assert t[r] == matrix[r - 1];
      }
    }
  }

  lemma AllRowsReplace(matrix: seq<seq<Node>>, idx: int, row: seq<Node>)
    requires AllRowsValid(matrix) && RowValid(row) && 0 <= idx < |matrix|
    ensures AllRowsValid(matrix[idx := row])
  {
  }

  lemma AllRowsRemove(matrix: seq<seq<Node>>, idx: int)
    requires AllRowsValid(matrix) && 0 <= idx < |matrix|
    ensures AllRowsValid(Remove(matrix, idx))
  {
    var t := Remove(matrix, idx);
    forall r | 0 <= r < |t| ensures RowValid(t[r]) {
      if r < idx {
        assert t[r] == matrix[r];
      } else {
        assert t[r] == matrix[r + 1];
      }
    }
  }

  /** Inserting a connection with the row's node ID at its insertion point keeps the row valid and adds it to the row's contents. */
  lemma RowInsert(row: seq<Node>, idx: int, node: Node)
    requires RowValid(row) && node.id == row[0].id && 0 <= idx <= |row|
    requires InsertionPoint(row, ResourceKey, Compare, node.resourceId, idx)
    ensures RowValid(StoreAt(row, idx, node)) && RowKey(StoreAt(row, idx, node)) == RowKey(row)
    ensures RowContents(StoreAt(row, idx, node)) == RowContents(row)[node.resourceId := node]
  {
    CompareTotal();
    InsertSpec(row, ResourceKey, Compare, idx, node);
    var t := StoreAt(row, idx, node);
    assert t == row[..idx] + [node] + row[idx..];
    forall k | 0 <= k < |t| ensures t[k].id == row[0].id {
      if k < idx {
        assert t[k] == row[k];
      } else if k > idx {
        assert t[k] == row[idx..][k - idx - 1];
      }
    }
  }

  /** Removing one connection from a row of two or more keeps the row valid and drops it from the row's contents. */
  lemma RowRemove(row: seq<Node>, idx: int)
    requires RowValid(row) && |row| > 1 && 0 <= idx < |row|
    ensures RowValid(Remove(row, idx)) && RowKey(Remove(row, idx)) == RowKey(row)
    ensures RowContents(Remove(row, idx)) == RowContents(row) - {row[idx].resourceId}
  {
    CompareTotal();
    SortedDistinct(row, ResourceKey, Compare);
    SortedRemove(row, ResourceKey, Compare, idx);
    ToMapRemove(row, ResourceKey, idx);
    SameNodeRemove(row, idx);
  }

  /** The connections left after a removal all still belong to the row's node. */
  lemma SameNodeRemove(row: seq<Node>, idx: int)
    requires |row| > 1 && 0 <= idx < |row| && forall k :: 0 <= k < |row| ==> row[k].id == row[0].id
    ensures var t := Remove(row, idx); |t| > 0 && t[0].id == row[0].id && forall k :: 0 <= k < |t| ==> t[k].id == row[0].id
  {
    var t := Remove(row, idx);
    forall k | 0 <= k < |t| ensures t[k].id == row[0].id {
      if k < idx {
        assert t[k] == row[k];
      } else {
        assert t[k] == row[k + 1];
      }
    }
  }

  /** The manager's invariant on a matrix: rows sorted by node ID, each row valid. */
  ghost predicate MatrixValid(matrix: seq<seq<Node>>) {
    Sorted(matrix, RowKey, Compare) && AllRowsValid(matrix)
  }

  lemma MatrixInsertRow(matrix: seq<seq<Node>>, idx: int, node: Node)
    requires MatrixValid(matrix) && 0 <= idx <= |matrix| && InsertionPoint(matrix, RowKey, Compare, node.id, idx)
    ensures DistinctKeys(matrix, RowKey)
    ensures MatrixValid(StoreAt(matrix, idx, [node])) && DistinctKeys(StoreAt(matrix, idx, [node]), RowKey)
    ensures ToMap(StoreAt(matrix, idx, [node]), RowKey) == ToMap(matrix, RowKey)[node.id := [node]]
  {
    CompareTotal();
    assert RowKey([node]) == node.id && RowValid([node]);
    InsertSpec(matrix, RowKey, Compare, idx, [node]);
    AllRowsInsert(matrix, idx, [node]);
  }

  lemma MatrixReplaceRow(matrix: seq<seq<Node>>, idx: int, row: seq<Node>)
    requires MatrixValid(matrix) && 0 <= idx < |matrix| && RowValid(row) && RowKey(row) == RowKey(matrix[idx])
    ensures DistinctKeys(matrix, RowKey)
    ensures MatrixValid(matrix[idx := row]) && DistinctKeys(matrix[idx := row], RowKey)
    ensures ToMap(matrix[idx := row], RowKey) == ToMap(matrix, RowKey)[RowKey(row) := row]
  {
    CompareTotal();
    SortedDistinct(matrix, RowKey, Compare);
    SortedReplace(matrix, RowKey, Compare, idx, row);
    ToMapReplace(matrix, RowKey, idx, row);
    AllRowsReplace(matrix, idx, row);
  }

  lemma MatrixRemoveRow(matrix: seq<seq<Node>>, idx: int)
    requires MatrixValid(matrix) && 0 <= idx < |matrix|
    ensures DistinctKeys(matrix, RowKey)
    ensures MatrixValid(Remove(matrix, idx)) && DistinctKeys(Remove(matrix, idx), RowKey)
    ensures ToMap(Remove(matrix, idx), RowKey) == ToMap(matrix, RowKey) - {RowKey(matrix[idx])}
  {
    CompareTotal();
    SortedDistinct(matrix, RowKey, Compare);
    SortedRemove(matrix, RowKey, Compare, idx);
    ToMapRemove(matrix, RowKey, idx);
    AllRowsRemove(matrix, idx);
  }

  class NodeManager {
    var matrix: seq<seq<Node>>

    ghost predicate Valid()
      reads this
    {
      MatrixValid(matrix)
    }

    /** What the manager holds: each node ID mapped to its row. */
    ghost function Rows(): (m: map<bytes, seq<Node>>)
      reads this
      requires Valid()
      ensures forall id :: id in m ==> RowValid(m[id]) && m[id][0].id == id
    {
      CompareTotal();
      SortedDistinct(matrix, RowKey, Compare);
      var m := ToMap(matrix, RowKey);
      forall id | id in m ensures RowValid(m[id]) && m[id][0].id == id {
        var r := ToMapHas(matrix, RowKey, id);
      }
      m
    }

    constructor ()
      ensures Valid() && matrix == []
    {
      matrix := [];
    }

    /** Call traverse on the first node ID of each row in order; the first error stops the walk and is returned. */
    method TraverseNodeID(traverse: bytes -> Option<string>) returns (visited: seq<bytes>, err: Option<string>)
      ensures |visited| <= |FirstIDs(matrix)| && visited == FirstIDs(matrix)[..|visited|]
      ensures err.None? ==> visited == FirstIDs(matrix)
      ensures forall k :: 0 <= k < |visited| - 1 ==> traverse(visited[k]).None?
      ensures err.None? ==> forall k :: 0 <= k < |visited| ==> traverse(visited[k]).None?
      ensures err.Some? ==> |visited| > 0 && err == traverse(visited[|visited| - 1])
    {
      visited := [];
      var i := 0;
      while i < |matrix|
        invariant 0 <= i <= |matrix|
        invariant visited == FirstIDs(matrix[..i])
        invariant forall k :: 0 <= k < |visited| ==> traverse(visited[k]).None?
      {
        assert matrix[..i + 1][..i] == matrix[..i];
        var nodeArr := matrix[i];
        if |nodeArr| > 0 {
          visited := visited + [nodeArr[0].id];
          err := traverse(nodeArr[0].id);
          if err.Some? {
            PrefixOfFirstIDs(matrix, i + 1);
            return;
          }
        }
        i := i + 1;
      }
      assert matrix[..i] == matrix;
      err := None;
    }

    /** A copy of the row stored for nodeId, or nil. */
    method Search(nodeId: bytes) returns (row: Option<seq<Node>>)
      requires Valid()
      ensures row.Some? <==> nodeId in Rows()
      ensures row.Some? ==> row.value == Rows()[nodeId]
    {
      CompareTotal();
      BinarySearchSpec(matrix, nodeId, RowKey, Compare);
      var (idx, ok) := BinarySearch(matrix, nodeId, RowKey, Compare);
      if ok {
        row := Some(matrix[idx]);
      } else {
        row := None;
      }
    }

    /** Call traverse on each node of nodeId's row in order, stopping after the first one it rejects. */
    method TraverseNode(nodeId: bytes, traverse: Node -> bool) returns (visited: seq<Node>)
      requires Valid()
      ensures nodeId !in Rows() ==> visited == []
      ensures nodeId in Rows() ==> TraversedPrefix(Rows()[nodeId], traverse, visited)
    {
      var nodeArr := Search(nodeId);
      visited := [];
      if nodeArr.None? || |nodeArr.value| <= 0 {
        return;
      }
      visited := TraverseRow(nodeArr.value, traverse);
    }

    /** Remove the connection with node's ID and resource ID; a row left empty is dropped. */
    method Delete(node: Node)
      requires Valid()
      modifies this
      ensures Valid()
      ensures node.id !in old(Rows()) ==> matrix == old(matrix)
      ensures node.id in old(Rows()) && node.resourceId !in RowContents(old(Rows())[node.id]) ==> matrix == old(matrix)
      ensures node.id in old(Rows()) && node.resourceId in RowContents(old(Rows())[node.id]) && |old(Rows())[node.id]| <= 1 ==>
        Rows() == old(Rows()) - {node.id}
      ensures node.id in old(Rows()) && node.resourceId in RowContents(old(Rows())[node.id]) && |old(Rows())[node.id]| > 1 ==>
        && node.id in Rows()
        && Rows() == old(Rows())[node.id := Rows()[node.id]]
        && RowContents(Rows()[node.id]) == RowContents(old(Rows())[node.id]) - {node.resourceId}
        && |Rows()[node.id]| == |old(Rows())[node.id]| - 1
    {
      CompareTotal();
      BinarySearchSpec(matrix, node.id, RowKey, Compare);
      var (idx, ok) := BinarySearch(matrix, node.id, RowKey, Compare);
      if !ok {
        return;
      }
      var row := matrix[idx];
      assert RowValid(row);
      BinarySearchSpec(row, node.resourceId, ResourceKey, Compare);
      var (idx', ok') := BinarySearch(row, node.resourceId, ResourceKey, Compare);
      if !ok' {
        return;
      }
      if |row| <= 1 {
        MatrixRemoveRow(matrix, idx);
        matrix := Remove(matrix, idx);
        return;
      }
      var row' := Remove(row, idx');
      RowRemove(row, idx');
      MatrixReplaceRow(matrix, idx, row');
      matrix := matrix[idx := row'];
    }

    /** The stored connection with node's ID and resource ID with true, or node inserted and returned with false. */
    method SearchOrStore(node: Node) returns (stored: Node, ok: bool)
      requires Valid()
      modifies this
      ensures Valid()
      ensures ok <==> node.id in old(Rows()) && node.resourceId in RowContents(old(Rows())[node.id])
      ensures ok ==> stored == RowContents(old(Rows())[node.id])[node.resourceId] && matrix == old(matrix)
      ensures !ok ==> stored == node && node.id in Rows() && Rows() == old(Rows())[node.id := Rows()[node.id]]
      ensures !ok && node.id !in old(Rows()) ==> Rows()[node.id] == [node]
      ensures !ok && node.id in old(Rows()) ==>
        RowContents(Rows()[node.id]) == RowContents(old(Rows())[node.id])[node.resourceId := node]
    {
      CompareTotal();
      BinarySearchSpec(matrix, node.id, RowKey, Compare);
      var (idx, found) := BinarySearch(matrix, node.id, RowKey, Compare);
      if !found {
        MatrixInsertRow(matrix, idx, node);
        matrix := StoreAt(matrix, idx, [node]);
        return node, false;
      }
      var row := matrix[idx];
      assert RowValid(row);
      BinarySearchSpec(row, node.resourceId, ResourceKey, Compare);
      var (idx', found') := BinarySearch(row, node.resourceId, ResourceKey, Compare);
      if !found' {
        var row' := StoreAt(row, idx', node);
        RowInsert(row, idx', node);
        MatrixReplaceRow(matrix, idx, row');
        matrix := matrix[idx := row'];
        return node, false;
      }
      return row[idx'], true;
    }

    /** The number of connections held for nodeId, or 0. */
    method Count(nodeId: bytes) returns (n: int)
      requires Valid()
      ensures n == if nodeId in Rows() then |Rows()[nodeId]| else 0
      ensures n >= 0 && (n > 0 <==> nodeId in Rows())
    {
      CompareTotal();
      BinarySearchSpec(matrix, nodeId, RowKey, Compare);
      var (idx, ok) := BinarySearch(matrix, nodeId, RowKey, Compare);
      if ok {
        return |matrix[idx]|;
      }
      return 0;
    }
  }

  /** A registered NodeGuard: whether it is enabled and its access decision for a node ID. */
  datatype Guard = Guard(enabled: bool, access: bytes -> Option<string>)

  /** nodeModule.Access: traverse the guards in registry order; the first enabled guard that refuses decides. */
  function Access(guards: seq<Guard>, nodeId: bytes): (err: Option<string>)
    ensures err.None? <==> forall i :: 0 <= i < |guards| && guards[i].enabled ==> guards[i].access(nodeId).None?
    ensures err.Some? ==> exists i :: 0 <= i < |guards| && guards[i].enabled && guards[i].access(nodeId) == err &&
                                      (forall j :: 0 <= j < i && guards[j].enabled ==> guards[j].access(nodeId).None?)
  {
    if guards == [] then None
    else if guards[0].enabled && guards[0].access(nodeId).Some? then guards[0].access(nodeId)
    else
      var rest := Access(guards[1..], nodeId);
      assert forall i :: 1 <= i < |guards| ==> guards[i] == guards[1..][i - 1];
      if rest.Some? then
        FirstRefusalShift(guards, nodeId, rest);
        rest
      else rest
  }

  /** The first refusing guard of the tail, seen from the whole list, when the head lets the node pass. */
  lemma FirstRefusalShift(guards: seq<Guard>, nodeId: bytes, err: Option<string>)
    requires guards != [] && !(guards[0].enabled && guards[0].access(nodeId).Some?)
    requires exists i :: 0 <= i < |guards[1..]| && guards[1..][i].enabled && guards[1..][i].access(nodeId) == err &&
                         (forall j :: 0 <= j < i && guards[1..][j].enabled ==> guards[1..][j].access(nodeId).None?)
    ensures exists i :: 0 <= i < |guards| && guards[i].enabled && guards[i].access(nodeId) == err &&
                        (forall j :: 0 <= j < i && guards[j].enabled ==> guards[j].access(nodeId).None?)
  {
    var i :| 0 <= i < |guards[1..]| && guards[1..][i].enabled && guards[1..][i].access(nodeId) == err &&
             (forall j :: 0 <= j < i && guards[1..][j].enabled ==> guards[1..][j].access(nodeId).None?);
    assert guards[i + 1] == guards[1..][i];
    forall j | 0 <= j < i + 1 && guards[j].enabled ensures guards[j].access(nodeId).None? {
      if j > 0 {
        assert guards[j] == guards[1..][j - 1];
      }
    }
  }

  /** The 13-byte resource ID: the node type, the unix time as BE64, the sequence number as BE32. */
  function ResourceID(nodeType: byte, unix: nat, sequence: nat): (r: bytes)
    requires unix < U64 && sequence < U32
    ensures |r| == 13 && r[0] == nodeType
    ensures ReadBE64(r[1..9]) == unix && ReadBE32(r[9..]) == sequence
  {
    var r := [nodeType] + BE64(unix) + BE32(sequence);
    assert r[1..9] == BE64(unix) + [];
    BE64RoundTrip(unix, []);
    assert r[9..] == BE32(sequence) + [];
    BE32RoundTrip(sequence, []);
    r
  }

  class NodeModule {
    const mgr: NodeManager
    var guards: seq<Guard>
    var sequence: nat

    ghost predicate Valid()
      reads this, mgr
    {
      mgr.Valid() && sequence < U32
    }

    constructor (guards: seq<Guard>)
      ensures Valid() && fresh(mgr) && mgr.matrix == [] && this.guards == guards && sequence == 0
    {
      mgr := new NodeManager();
      this.guards := guards;
      sequence := 0;
    }

    /** Admit a node: an Access refusal is returned; a node already stored is ErrConflict; otherwise it is stored. */
    method Control(node: Node) returns (err: Option<string>)
      requires Valid()
      modifies mgr
      ensures Valid()
      ensures Access(guards, node.id).Some? ==> err == Access(guards, node.id) && mgr.matrix == old(mgr.matrix)
      ensures Access(guards, node.id).None? ==>
        var stored := node.id in old(mgr.Rows()) && node.resourceId in RowContents(old(mgr.Rows())[node.id]);
        && (err.Some? <==> stored)
        && (stored ==> err == Some(ErrConflict) && mgr.matrix == old(mgr.matrix))
        && (!stored ==> node.id in mgr.Rows() && mgr.Rows() == old(mgr.Rows())[node.id := mgr.Rows()[node.id]])
        && (!stored && node.id !in old(mgr.Rows()) ==> mgr.Rows()[node.id] == [node])
        && (!stored && node.id in old(mgr.Rows()) ==>
              RowContents(mgr.Rows()[node.id]) == RowContents(old(mgr.Rows())[node.id])[node.resourceId := node])
    {
      err := Access(guards, node.id);
      if err.None? {
        var _, ok := mgr.SearchOrStore(node);
        if ok {
          err := Some(ErrConflict);
        }
      }
    }

    /** A fresh resource ID for a node of the given type at the given unix time; the sequence advances by one (uint32). */
    method NewResourceID(nodeType: byte, now: int) returns (rid: bytes)
      requires Valid()
      modifies this
      ensures Valid() && guards == old(guards)
      ensures sequence == Wrap(old(sequence) + 1, U32)
      ensures rid == ResourceID(nodeType, Wrap(now, U64), sequence)
    {
      sequence := Wrap(sequence + 1, U32);
      rid := ResourceID(nodeType, Wrap(now, U64), sequence);
    }
  }
}
