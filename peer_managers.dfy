// The peer node and route managers: a memory bucket of per-peer nest
// buckets, keyed by peer id. A nest bucket is held here as a value (the
// peer id and its sorted item slice); an update of a nest bucket is written
// back into the outer bucket with SetItem.
module PeerManagers {
  import opened Wrappers
  import opened Bytes
  import opened Ordering
  import opened Buckets
  import opened MemoryBucket

  /** A node as the managers see it: its type byte, its address and an identity for the connection. */
  datatype PeerNode = PeerNode(nodeType: byte, addr: bytes, ident: nat)

  lemma ContentInItems<K, V>(items: seq<V>, key: V -> K, k: K)
    requires DistinctKeys(items, key) && k in ToMap(items, key)
    ensures ToMap(items, key)[k] in items && key(ToMap(items, key)[k]) == k
  {
    var i := ToMapHas(items, key, k);
  }

  /** The elements after Swap are the old ones and the argument. */
  lemma SwapElements<K, V>(items: seq<V>, item: V, key: V -> K, cmp: (K, K) -> int)
    ensures forall y :: y in SwapOp(items, item, key, cmp).0 ==> y in items || y == item
  {
    var (idx, ok) := Search(items, key(item), key, cmp);
    if ok {
      forall y | y in items[idx := item] ensures y in items || y == item {
        var i :| 0 <= i < |items| && items[idx := item][i] == y;
        if i != idx {
          assert items[i] == y;
        }
      }
    } else if idx >= 0 {
      assert items == items[..idx] + items[idx..];
    }
  }

  /** The elements after SearchOrStore are the old ones and, when it inserts, the argument. */
  lemma SearchOrStoreElements<K, V>(items: seq<V>, item: V, key: V -> K, cmp: (K, K) -> int)
    ensures forall y :: y in SearchOrStoreOp(items, item, key, cmp).0 ==> y in items || y == item
  {
    var (idx, ok) := Search(items, key(item), key, cmp);
    if !ok && idx >= 0 {
      assert items == items[..idx] + items[idx..];
    }
  }

  // ---------------------------------------------------------------- node manager

  /** peerNodeItem: a node under its uint32 code. */
  datatype PeerNodeItem = PeerNodeItem(code: int, node: PeerNode)

  function ItemCode(item: PeerNodeItem): int {
    item.code
  }

  /** NestBucket[PeerId, uint32, *peerNodeItem]: a peer's nodes. */
  datatype NodeRow = NodeRow(id: bytes, nodes: seq<PeerNodeItem>)

  function NodeRowId(row: NodeRow): bytes {
    row.id
  }

  /** A memory bucket of uint32 codes: descending by cmp.Compare. */
  ghost predicate NodesSorted(nodes: seq<PeerNodeItem>) {
    Sorted(nodes, ItemCode, Flip(IntCompare))
  }

  lemma NodeOrderTotal()
    ensures TotalOrder(Flip(IntCompare))
  {
    IntCompareTotal();
    FlipTotal(IntCompare);
  }

  /** The node item stored under each code. */
  ghost function NodeMap(nodes: seq<PeerNodeItem>): map<int, PeerNodeItem>
    requires NodesSorted(nodes)
  {
    NodeOrderTotal();
    SortedDistinct(nodes, ItemCode, Flip(IntCompare));
    ToMap(nodes, ItemCode)
  }

  /**
   * The code Save gives a node, as intended: one more than the highest code
   * of the peer, which the descending bucket holds first; 0 for a peer
   * without nodes.
   */
  function NextCode(nodes: seq<PeerNodeItem>): (code: int)
    ensures 0 <= code < U32
  {
    if nodes == [] then 0 else Wrap(nodes[0].code + 1, U32)
  }

  /** Save as written takes one more than the code of the LAST item, which in descending order is the lowest. */
  function NextCodeAsWritten(nodes: seq<PeerNodeItem>): (code: int)
    ensures 0 <= code < U32
  {
    if nodes == [] then 0 else Wrap(nodes[|nodes| - 1].code + 1, U32)
  }

  /** A third node for one peer: as written it gets the code of the second and AddItem refuses it. */
  lemma ThirdSaveCollides(n: PeerNode)
    ensures NodesSorted([PeerNodeItem(1, n), PeerNodeItem(0, n)])
    ensures NextCodeAsWritten([PeerNodeItem(1, n), PeerNodeItem(0, n)]) in NodeMap([PeerNodeItem(1, n), PeerNodeItem(0, n)])
    ensures NextCode([PeerNodeItem(1, n), PeerNodeItem(0, n)]) == 2
    ensures NextCode([PeerNodeItem(1, n), PeerNodeItem(0, n)]) !in NodeMap([PeerNodeItem(1, n), PeerNodeItem(0, n)])
  {
    var nodes := [PeerNodeItem(1, n), PeerNodeItem(0, n)];
    assert NodesSorted(nodes) by {
      forall i, j | 0 <= i < j < |nodes| ensures Flip(IntCompare)(ItemCode(nodes[i]), ItemCode(nodes[j])) < 0 {
        assert i == 0 && j == 1;
        assert ItemCode(nodes[i]) == 1 && ItemCode(nodes[j]) == 0;
        assert Flip(IntCompare)(1, 0) == IntCompare(0, 1) < 0;
      }
    }
    NodeMapIsToMap(nodes);
    ToMapAt(nodes, ItemCode, 1);
    ToMapAt(nodes, ItemCode, 0);
    assert NodeMap(nodes).Keys == {0, 1};
  }

  lemma NodeMapIsToMap(nodes: seq<PeerNodeItem>)
    requires NodesSorted(nodes)
    ensures DistinctKeys(nodes, ItemCode) && NodeMap(nodes) == ToMap(nodes, ItemCode)
  {
    NodeOrderTotal();
    SortedDistinct(nodes, ItemCode, Flip(IntCompare));
  }

  lemma NodesDescending(nodes: seq<PeerNodeItem>, i: int, j: int)
    requires NodesSorted(nodes) && 0 <= i < j < |nodes|
    ensures nodes[i].code > nodes[j].code
  {
    assert Flip(IntCompare)(ItemCode(nodes[i]), ItemCode(nodes[j])) < 0;
  }

  /** The first node of a sorted row holds its highest code. */
  lemma FirstIsHighest(nodes: seq<PeerNodeItem>)
    requires NodesSorted(nodes) && nodes != []
    ensures forall k :: k in NodeMap(nodes) ==> k <= nodes[0].code
  {
    NodeMapIsToMap(nodes);
    forall k | k in NodeMap(nodes) ensures k <= nodes[0].code {
      var i := ToMapHas(nodes, ItemCode, k);
      if i > 0 {
        NodesDescending(nodes, 0, i);
      }
    }
  }

  /** The intended code is fresh in any row whose codes fit below the uint32 limit. */
  lemma NextCodeIsFresh(nodes: seq<PeerNodeItem>)
    requires NodesSorted(nodes)
    requires nodes != [] ==> nodes[0].code < U32 - 1
    ensures NextCode(nodes) !in NodeMap(nodes)
  {
    if nodes != [] {
      FirstIsHighest(nodes);
    } else {
      assert NodeMap(nodes) == map[];
    }
  }

  /**
   * The other repair of the same collision: with an ascending bucket, as the
   * bucket's test expects, the last item holds the highest code and Save's
   * last code + 1 is fresh below the uint32 limit.
   */
  lemma AscendingNextCodeAsWrittenIsFresh(nodes: seq<PeerNodeItem>)
    requires Sorted(nodes, ItemCode, IntCompare)
    requires nodes != [] ==> nodes[|nodes| - 1].code < U32 - 1
    ensures DistinctKeys(nodes, ItemCode)
    ensures NextCodeAsWritten(nodes) !in ToMap(nodes, ItemCode)
  {
    IntCompareTotal();
    SortedDistinct(nodes, ItemCode, IntCompare);
    if nodes != [] {
      AscendingLastIsHighest(nodes);
      var last := nodes[|nodes| - 1].code;
      if last >= 0 {
        assert NextCodeAsWritten(nodes) == last + 1;
      }
    } else {
      assert ToMap(nodes, ItemCode) == map[];
    }
  }

  /** In an ascending row the last item holds the highest code. */
  lemma AscendingLastIsHighest(nodes: seq<PeerNodeItem>)
    requires Sorted(nodes, ItemCode, IntCompare) && DistinctKeys(nodes, ItemCode) && nodes != []
    ensures forall k :: k in ToMap(nodes, ItemCode) ==> k <= nodes[|nodes| - 1].code
  {
    forall k | k in ToMap(nodes, ItemCode) ensures k <= nodes[|nodes| - 1].code {
      var i := ToMapHas(nodes, ItemCode, k);
      if i < |nodes| - 1 {
        assert IntCompare(ItemCode(nodes[i]), ItemCode(nodes[|nodes| - 1])) < 0;
      }
    }
  }

  /** AddItem on a peer's nest bucket: the item under its code, or the duplicate error and no change. */
  function AddNode(nodes: seq<PeerNodeItem>, item: PeerNodeItem): (r: (seq<PeerNodeItem>, Option<string>))
    requires NodesSorted(nodes)
    ensures NodesSorted(r.0)
    ensures r.1.Some? <==> item.code in NodeMap(nodes)
    ensures r.1.Some? ==> r.1.value == DuplicateError && r.0 == nodes
    ensures r.1.None? ==> NodeMap(r.0) == NodeMap(nodes)[item.code := item]
  {
    NodeOrderTotal();
    StoreOpSpec(nodes, item, ItemCode, Flip(IntCompare));
    var r := StoreOp(nodes, item, ItemCode, Flip(IntCompare));
    NodeMapIsToMap(nodes);
    NodeMapIsToMap(r.0);
    r
  }

  /** RemoveItem on a peer's nest bucket: the code is no longer stored, and nothing else changes. */
  function RemoveNode(nodes: seq<PeerNodeItem>, code: int): (r: seq<PeerNodeItem>)
    requires NodesSorted(nodes)
    ensures NodesSorted(r)
    ensures NodeMap(r) == NodeMap(nodes) - {code}
  {
    NodeOrderTotal();
    DeleteOpSpec(nodes, code, ItemCode, Flip(IntCompare));
    var r := DeleteOp(nodes, code, ItemCode, Flip(IntCompare));
    NodeMapIsToMap(nodes);
    NodeMapIsToMap(r);
    r
  }

  /**
   * RemoveNode as written on a peer's codes 3, 2, 1: the bucket finds code 2
   * at index 1, and the two copies leave the code-1 item followed by nil,
   * the slot on which a later GetItem, GetLastItem or Save calls HashCode.
   */
  lemma RemoveNodeAsWrittenLeavesNil(n: PeerNode)
    ensures SearchAsWritten([PeerNodeItem(3, n), PeerNodeItem(2, n), PeerNodeItem(1, n)], 2, ItemCode, Flip(IntCompare)) == (1, true)
    ensures DeleteAsWritten([Some(PeerNodeItem(3, n)), Some(PeerNodeItem(2, n)), Some(PeerNodeItem(1, n))], 1, None)
      == [Some(PeerNodeItem(1, n)), None]
    ensures NodesSorted([PeerNodeItem(3, n), PeerNodeItem(2, n), PeerNodeItem(1, n)])
    ensures RemoveNode([PeerNodeItem(3, n), PeerNodeItem(2, n), PeerNodeItem(1, n)], 2) == [PeerNodeItem(3, n), PeerNodeItem(1, n)]
  {
    var s := [PeerNodeItem(3, n), PeerNodeItem(2, n), PeerNodeItem(1, n)];
    var down := Flip(IntCompare);
    assert down(ItemCode(s[1]), 2) == IntCompare(2, 2) == 0;
    assert down(ItemCode(s[0]), 2) == IntCompare(2, 3) == -1;
    assert SearchLoopAsWritten(s, 2, ItemCode, down, 0, 2, -1) == (1, true);
    assert Copy(Zeros(2, None), [Some(PeerNodeItem(1, n))]) == [Some(PeerNodeItem(1, n)), None];
    assert NodesSorted(s) by {
      forall i, j | 0 <= i < j < |s| ensures down(ItemCode(s[i]), ItemCode(s[j])) < 0 {
        assert IntCompare(ItemCode(s[j]), ItemCode(s[i])) < 0;
      }
    }
    assert Below(s, 2, ItemCode, down) == 1 + Below(s[1..], 2, ItemCode, down);
    assert s[1..][0] == PeerNodeItem(2, n);
    assert DeleteOp(s, 2, ItemCode, down) == [PeerNodeItem(3, n), PeerNodeItem(1, n)];
  }

  /** The code Save computes from the row GetOrAddItem gave it is NextCode of the peer's nodes. */
  lemma SavedCodeIsNext(existed: bool, nodes: seq<PeerNodeItem>, code: int)
    requires !existed ==> nodes == []
    requires code == if existed && |nodes| > 0 then Wrap(nodes[0].code + 1, U32) else 0
    ensures code == NextCode(nodes)
  {
  }

  class NodeManager {
    const bucket: Bucket<bytes, NodeRow>

    ghost predicate Valid()
      reads this, bucket
    {
      && bucket.Valid() && bucket.key == NodeRowId
      && (forall r :: r in bucket.items ==> NodesSorted(r.nodes))
    }

    /** The nodes stored for each peer that has a nest bucket, highest code first. */
    ghost function Peers(): map<bytes, seq<PeerNodeItem>>
      reads this, bucket
      requires bucket.Valid()
    {
      RowNodes(bucket.Contents())
    }

    /** The nodes of one peer; none for a peer without a nest bucket. */
    ghost function PeerNodes(id: bytes): (nodes: seq<PeerNodeItem>)
      reads this, bucket
      requires Valid()
      ensures NodesSorted(nodes)
      ensures nodes == if id in Peers() then Peers()[id] else []
    {
      if id in bucket.Contents() then
        ContentInItems(bucket.items, bucket.key, id);
        bucket.Contents()[id].nodes
      else []
    }

    /** NewNodeManager. */
    constructor ()
      ensures Valid() && Peers() == map[] && fresh(bucket)
    {
      CompareTotal();
      bucket := new Bucket<bytes, NodeRow>(NodeRowId, Compare);
    }

    /** Count: the number of nodes stored for the peer, or -1 for a peer without a bucket. */
    method Count(id: bytes) returns (count: int)
      requires Valid()
      ensures count == if id in Peers() then |Peers()[id]| else -1
    {
      var row := bucket.GetItem(id);
      if row.None? {
        return -1;
      }
      count := |row.value.nodes|;
    }

    /** Get: the peer's first node, which holds its highest code; nil without nodes. */
    method Get(id: bytes) returns (node: Option<PeerNode>)
      requires Valid()
      ensures node.Some? <==> PeerNodes(id) != []
      ensures node.Some? ==> node.value == PeerNodes(id)[0].node
      ensures node.Some? ==> forall k :: k in NodeMap(PeerNodes(id)) ==> k <= PeerNodes(id)[0].code
    {
      var row := bucket.GetItem(id);
      if row.None? {
        return None;
      }
      var nodes := row.value.nodes;
      if |nodes| <= 0 {
        return None;
      }
      FirstIsHighest(PeerNodes(id));
      return Some(nodes[0].node);
    }

    /**
     * Save: the peer's nest bucket, added when missing; then the node under
     * the next code (corrected to one past the highest code, see NextCode),
     * refused when that code is taken.
     */
    method Save(id: bytes, node: PeerNode) returns (item: PeerNodeItem, err: Option<string>)
      requires Valid()
      modifies bucket
      ensures Valid() && id in Peers() && Peers() == old(Peers())[id := PeerNodes(id)]
      ensures item == PeerNodeItem(NextCode(old(PeerNodes(id))), node)
      ensures err.Some? <==> item.code in NodeMap(old(PeerNodes(id)))
      ensures err.Some? ==> err.value == DuplicateError && PeerNodes(id) == old(PeerNodes(id))
      ensures err.None? ==> NodeMap(PeerNodes(id)) == NodeMap(old(PeerNodes(id)))[item.code := item]
    {
      ghost var before := PeerNodes(id);
      var nodes, existed := SaveRow(id);
      assert nodes == before;
      var code := 0;
      if existed {
        if |nodes| > 0 {
          code := Wrap(nodes[0].code + 1, U32);
        }
      }
      SavedCodeIsNext(existed, nodes, code);
      item := PeerNodeItem(code, node);
      var stored := AddNode(nodes, item);
      err := stored.1;
      RowsAfterSet(bucket.items, NodeRow(id, stored.0), bucket.key, Flip(bucket.cmp));
      ghost var c := bucket.Contents();
      assert RowNodes(c) == old(Peers())[id := nodes];
      RowNodesUpdate(c, id, NodeRow(id, stored.0));
      bucket.SetItem(NodeRow(id, stored.0));
      assert Peers() == RowNodes(c)[id := stored.0];
      UpdateTwice(old(Peers()), id, nodes, stored.0);
      assert PeerNodes(id) == stored.0;
    }

    /** The first half of Save: the peer's nest bucket, added empty when missing, and its nodes. */
    method SaveRow(id: bytes) returns (nodes: seq<PeerNodeItem>, existed: bool)
      requires Valid()
      modifies bucket
      ensures Valid() && id in Peers() && Peers() == old(Peers())[id := nodes]
      ensures nodes == old(PeerNodes(id)) && (existed <==> id in old(Peers())) && (!existed ==> nodes == [])
    {
      RowsAfterAdd(bucket.items, NodeRow(id, []), bucket.key, Flip(bucket.cmp));
      ghost var c := bucket.Contents();
      var row;
      row, existed := bucket.GetOrAddItem(NodeRow(id, []));
      nodes := row.nodes;
      if existed {
        RowNodesSame(c, id);
        assert Peers() == RowNodes(c);
      } else {
        RowNodesUpdate(c, id, NodeRow(id, []));
        assert Peers() == RowNodes(c[id := row]);
      }
    }

    /** Delete: the node's code leaves its peer's bucket, which stays even when empty; an unknown peer changes nothing. */
    method Delete(id: bytes, item: PeerNodeItem)
      requires Valid()
      modifies bucket
      ensures Valid()
      ensures id !in old(Peers()) ==> Peers() == old(Peers())
      ensures id in old(Peers()) ==>
        Peers() == old(Peers())[id := PeerNodes(id)] && NodeMap(PeerNodes(id)) == NodeMap(old(PeerNodes(id))) - {item.code}
    {
      var row := bucket.GetItem(id);
      if row.Some? {
        ContentInItems(bucket.items, bucket.key, id);
        var nodes := RemoveNode(row.value.nodes, item.code);
        RowsAfterSet(bucket.items, NodeRow(id, nodes), bucket.key, Flip(bucket.cmp));
        RowNodesUpdate(bucket.Contents(), id, NodeRow(id, nodes));
        bucket.SetItem(NodeRow(id, nodes));
      }
    }
  }

  /** After GetOrAddItem every row is an old row or the added one. */
  lemma RowsAfterAdd(before: seq<NodeRow>, row: NodeRow, key: NodeRow -> bytes, cmp: (bytes, bytes) -> int)
    requires forall r :: r in before ==> NodesSorted(r.nodes)
    requires NodesSorted(row.nodes)
    ensures forall r :: r in SearchOrStoreOp(before, row, key, cmp).0 ==> NodesSorted(r.nodes)
  {
    SearchOrStoreElements(before, row, key, cmp);
  }

  /** The item slice of each nest bucket. */
  ghost function RowNodes(c: map<bytes, NodeRow>): map<bytes, seq<PeerNodeItem>> {
    map id | id in c :: c[id].nodes
  }

  lemma RowNodesUpdate(c: map<bytes, NodeRow>, id: bytes, row: NodeRow)
    ensures RowNodes(c[id := row]) == RowNodes(c)[id := row.nodes]
  {
  }

  lemma RowNodesSame(c: map<bytes, NodeRow>, id: bytes)
    requires id in c
    ensures RowNodes(c)[id := c[id].nodes] == RowNodes(c)
  {
  }

  lemma UpdateTwice<K, V>(m: map<K, V>, k: K, a: V, b: V)
    ensures m[k := a][k := b] == m[k := b]
  {
  }

  /** After SetItem every row is an old row or the new one. */
  lemma RowsAfterSet(before: seq<NodeRow>, row: NodeRow, key: NodeRow -> bytes, cmp: (bytes, bytes) -> int)
    requires forall r :: r in before ==> NodesSorted(r.nodes)
    requires NodesSorted(row.nodes)
    ensures forall r :: r in SwapOp(before, row, key, cmp).0 ==> NodesSorted(r.nodes)
  {
    SwapElements(before, row, key, cmp);
  }

  // ---------------------------------------------------------------- route manager

  /** peerRoute: a way to reach a peer, under the code RouteCodeOf gives it, with its count of failed dials. */
  datatype PeerRoute = PeerRoute(code: bytes, nodeType: byte, addr: bytes, failedNum: int)

  function RouteCode(route: PeerRoute): bytes {
    route.code
  }

  /** A route code: the node type byte followed by the address bytes. */
  function RouteCodeOf(nodeType: byte, addr: bytes): (code: bytes)
    ensures |code| == |addr| + 1 && code[0] == nodeType && code[1..] == addr
  {
    [nodeType] + addr
  }

  /** Two nodes get the same route code exactly when their type and address agree. */
  lemma RouteCodeInjective(t1: byte, a1: bytes, t2: byte, a2: bytes)
    ensures RouteCodeOf(t1, a1) == RouteCodeOf(t2, a2) <==> t1 == t2 && a1 == a2
  {
    if RouteCodeOf(t1, a1) == RouteCodeOf(t2, a2) {
      assert a1 == RouteCodeOf(t1, a1)[1..];
    }
  }

  /** The route Save builds for a node: its type, its address and no failures yet. */
  function NewRoute(node: PeerNode): (route: PeerRoute)
    ensures route.code == RouteCodeOf(node.nodeType, node.addr)
    ensures route.nodeType == node.nodeType && route.addr == node.addr && route.failedNum == 0
  {
    PeerRoute(RouteCodeOf(node.nodeType, node.addr), node.nodeType, node.addr, 0)
  }

  /** NestBucket[PeerId, []byte, *peerRoute]: a peer's routes. */
  datatype RouteRow = RouteRow(id: bytes, routes: seq<PeerRoute>)

  function RouteRowId(row: RouteRow): bytes {
    row.id
  }

  /** A memory bucket of route codes: descending by bytes.Compare. */
  ghost predicate RoutesSorted(routes: seq<PeerRoute>) {
    Sorted(routes, RouteCode, Flip(Compare))
  }

  lemma RouteOrderTotal()
    ensures TotalOrder(Flip(Compare))
  {
    CompareTotal();
    FlipTotal(Compare);
  }

  /** The route stored under each code. */
  ghost function RouteMap(routes: seq<PeerRoute>): map<bytes, PeerRoute>
    requires RoutesSorted(routes)
  {
    RouteOrderTotal();
    SortedDistinct(routes, RouteCode, Flip(Compare));
    ToMap(routes, RouteCode)
  }

  lemma RouteMapIsToMap(routes: seq<PeerRoute>)
    requires RoutesSorted(routes)
    ensures DistinctKeys(routes, RouteCode) && RouteMap(routes) == ToMap(routes, RouteCode)
  {
    RouteOrderTotal();
    SortedDistinct(routes, RouteCode, Flip(Compare));
  }

  /**
   * GetOrAddItem on a peer's nest bucket, then the reset of FailedNum on the
   * route found: the stored route with its failures cleared and true, or the
   * argument inserted and false.
   */
  function SaveRoute(routes: seq<PeerRoute>, route: PeerRoute): (r: (seq<PeerRoute>, PeerRoute, bool))
    requires RoutesSorted(routes)
    ensures RoutesSorted(r.0)
    ensures r.2 <==> route.code in RouteMap(routes)
    ensures r.2 ==> r.1 == RouteMap(routes)[route.code].(failedNum := 0)
    ensures !r.2 ==> r.1 == route
    ensures RouteMap(r.0) == RouteMap(routes)[route.code := r.1]
  {
    RouteOrderTotal();
    RouteMapIsToMap(routes);
    SearchOrStoreOpSpec(routes, route, RouteCode, Flip(Compare));
    var found := SearchOrStoreOp(routes, route, RouteCode, Flip(Compare));
    if found.2 then
      ContentInItems(routes, RouteCode, route.code);
      var reset := found.1.(failedNum := 0);
      SwapOpSpec(routes, reset, RouteCode, Flip(Compare));
      var swapped := SwapOp(routes, reset, RouteCode, Flip(Compare)).0;
      RouteMapIsToMap(swapped);
      (swapped, reset, true)
    else
      RouteMapIsToMap(found.0);
      found
  }

  /** RemoveItem on a peer's nest bucket: the code is no longer stored, and nothing else changes. */
  function RemoveRoute(routes: seq<PeerRoute>, code: bytes): (r: seq<PeerRoute>)
    requires RoutesSorted(routes)
    ensures RoutesSorted(r)
    ensures RouteMap(r) == RouteMap(routes) - {code}
  {
    RouteOrderTotal();
    DeleteOpSpec(routes, code, RouteCode, Flip(Compare));
    var r := DeleteOp(routes, code, RouteCode, Flip(Compare));
    RouteMapIsToMap(routes);
    RouteMapIsToMap(r);
    r
  }

  class RouteManager {
    const bucket: Bucket<bytes, RouteRow>

    ghost predicate Valid()
      reads this, bucket
    {
      && bucket.Valid() && bucket.key == RouteRowId
      && (forall r :: r in bucket.items ==> RoutesSorted(r.routes))
    }

    /** The routes stored for each peer that has a nest bucket. */
    ghost function Peers(): map<bytes, seq<PeerRoute>>
      reads this, bucket
      requires bucket.Valid()
    {
      RowRoutes(bucket.Contents())
    }

    /** The routes of one peer; none for a peer without a nest bucket. */
    ghost function PeerRoutes(id: bytes): (routes: seq<PeerRoute>)
      reads this, bucket
      requires Valid()
      ensures RoutesSorted(routes)
      ensures routes == if id in Peers() then Peers()[id] else []
    {
      if id in bucket.Contents() then
        ContentInItems(bucket.items, bucket.key, id);
        bucket.Contents()[id].routes
      else []
    }

    /** NewRouteManager. */
    constructor ()
      ensures Valid() && Peers() == map[] && fresh(bucket)
    {
      CompareTotal();
      bucket := new Bucket<bytes, RouteRow>(RouteRowId, Compare);
    }

    /** Count: the number of routes stored for the peer, or -1 for a peer without a bucket. */
    method Count(id: bytes) returns (count: int)
      requires Valid()
      ensures count == if id in Peers() then |Peers()[id]| else -1
    {
      var row := bucket.GetItem(id);
      if row.None? {
        return -1;
      }
      count := |row.value.routes|;
    }

    /** GetAll: the peer's routes; nil for an unknown peer or one without routes. */
    method GetAll(id: bytes) returns (routes: Option<seq<PeerRoute>>)
      requires Valid()
      ensures routes.None? <==> PeerRoutes(id) == []
      ensures routes.Some? ==> routes.value == PeerRoutes(id)
    {
      var row := bucket.GetItem(id);
      if row.None? {
        return None;
      }
      var all := row.value.routes;
      if |all| <= 0 {
        return None;
      }
      return Some(all);
    }

    /**
     * Save: the peer's nest bucket, added when missing; then the node's
     * route. A route already stored under the same code is kept, with its
     * failures reset to 0, and ok is true.
     */
    method Save(id: bytes, node: PeerNode) returns (route: PeerRoute, ok: bool)
      requires Valid()
      modifies bucket
      ensures Valid() && id in Peers() && Peers() == old(Peers())[id := PeerRoutes(id)]
      ensures ok <==> NewRoute(node).code in RouteMap(old(PeerRoutes(id)))
      ensures ok ==> route == RouteMap(old(PeerRoutes(id)))[NewRoute(node).code].(failedNum := 0)
      ensures !ok ==> route == NewRoute(node)
      ensures RouteMap(PeerRoutes(id)) == RouteMap(old(PeerRoutes(id)))[route.code := route]
    {
      ghost var before := PeerRoutes(id);
      var made := NewRoute(node);
      var routes, _ := SaveRouteRow(id);
      assert routes == before;
      var saved := SaveRoute(routes, made);
      route, ok := saved.1, saved.2;
      assert route.code == made.code;
      RouteRowsAfterSet(bucket.items, RouteRow(id, saved.0), bucket.key, Flip(bucket.cmp));
      ghost var c := bucket.Contents();
      assert RowRoutes(c) == old(Peers())[id := routes];
      RowRoutesUpdate(c, id, RouteRow(id, saved.0));
      bucket.SetItem(RouteRow(id, saved.0));
      assert Peers() == RowRoutes(c)[id := saved.0];
      UpdateTwice(old(Peers()), id, routes, saved.0);
      assert PeerRoutes(id) == saved.0;
    }

    /** The first half of Save: the peer's nest bucket, added empty when missing, and its routes. */
    method SaveRouteRow(id: bytes) returns (routes: seq<PeerRoute>, existed: bool)
      requires Valid()
      modifies bucket
      ensures Valid() && id in Peers() && Peers() == old(Peers())[id := routes]
      ensures routes == old(PeerRoutes(id)) && (existed <==> id in old(Peers()))
    {
      RouteRowsAfterAdd(bucket.items, RouteRow(id, []), bucket.key, Flip(bucket.cmp));
      ghost var c := bucket.Contents();
      var row;
      row, existed := bucket.GetOrAddItem(RouteRow(id, []));
      routes := row.routes;
      if existed {
        RowRoutesSame(c, id);
        assert Peers() == RowRoutes(c);
      } else {
        RowRoutesUpdate(c, id, RouteRow(id, []));
        assert Peers() == RowRoutes(c[id := row]);
      }
    }

    /** Delete: the route's code leaves its peer's bucket, which stays even when empty; an unknown peer changes nothing. */
    method Delete(id: bytes, item: PeerRoute)
      requires Valid()
      modifies bucket
      ensures Valid()
      ensures id !in old(Peers()) ==> Peers() == old(Peers())
      ensures id in old(Peers()) ==>
        Peers() == old(Peers())[id := PeerRoutes(id)] && RouteMap(PeerRoutes(id)) == RouteMap(old(PeerRoutes(id))) - {item.code}
    {
      var row := bucket.GetItem(id);
      if row.Some? {
        ContentInItems(bucket.items, bucket.key, id);
        var routes := RemoveRoute(row.value.routes, item.code);
        RouteRowsAfterSet(bucket.items, RouteRow(id, routes), bucket.key, Flip(bucket.cmp));
        RowRoutesUpdate(bucket.Contents(), id, RouteRow(id, routes));
        bucket.SetItem(RouteRow(id, routes));
      }
    }
  }

  /** After GetOrAddItem every row is an old row or the added one. */
  lemma RouteRowsAfterAdd(before: seq<RouteRow>, row: RouteRow, key: RouteRow -> bytes, cmp: (bytes, bytes) -> int)
    requires forall r :: r in before ==> RoutesSorted(r.routes)
    requires RoutesSorted(row.routes)
    ensures forall r :: r in SearchOrStoreOp(before, row, key, cmp).0 ==> RoutesSorted(r.routes)
  {
    SearchOrStoreElements(before, row, key, cmp);
  }

  /** After SetItem every row is an old row or the new one. */
  lemma RouteRowsAfterSet(before: seq<RouteRow>, row: RouteRow, key: RouteRow -> bytes, cmp: (bytes, bytes) -> int)
    requires forall r :: r in before ==> RoutesSorted(r.routes)
    requires RoutesSorted(row.routes)
    ensures forall r :: r in SwapOp(before, row, key, cmp).0 ==> RoutesSorted(r.routes)
  {
    SwapElements(before, row, key, cmp);
  }

  /** The route slice of each nest bucket. */
  ghost function RowRoutes(c: map<bytes, RouteRow>): map<bytes, seq<PeerRoute>> {
    map id | id in c :: c[id].routes
  }

  lemma RowRoutesUpdate(c: map<bytes, RouteRow>, id: bytes, row: RouteRow)
    ensures RowRoutes(c[id := row]) == RowRoutes(c)[id := row.routes]
  {
  }

  lemma RowRoutesSame(c: map<bytes, RouteRow>, id: bytes)
    requires id in c
    ensures RowRoutes(c)[id := c[id].routes] == RowRoutes(c)
  {
  }
}
