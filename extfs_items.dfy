// The ExtFS item service: item IDs (a type tag and a link joined by "_"),
// the top-level listing (the local node, then the remote nodes), the
// children of a local or remote node, and the remote-node listing of the
// remote-node service. The node manager, the node service and the item
// repositories are outside the model: what they report is passed in.
module ExtFSItems {
  import opened Wrappers
  import Errors
  import opened LiveNodes
  import opened GoStrings

  const ItemIDSep: char := '_'
  const ItemTypeNode: string := "N"
  const ItemTypeRemoteNode: string := "RN"
  const ItemTypeNodeItem: string := "I"
  const ItemTypeRemoteNodeItem: string := "RI"
  const ItemTypeFolder: string := "D"
  const ItemTypeFile: string := "F"
  const FileTypeFolder: string := "D"
  const FileTypeFile: string := "F"

  /** An item of the ExtFS listing (its tag counts are always 0 and left out). */
  datatype Item = Item(id: string, name: string, itemType: string, available: bool, linkId: Option<string>, parentId: Option<string>)

  /** generateItemID: the type tag and the link joined by "_". */
  function GenerateItemID(itemType: string, id: string): (r: string)
    ensures r == itemType + "_" + id
  {
    assert [itemType, id][1..] == [id];
    assert Join([id], ItemIDSep) == id;
    Join([itemType, id], ItemIDSep)
  }

  /** parseItemID: a node or remote-node ID split into its tag and link; anything else gives ("", ""). */
  function ParseItemID(id: string): (r: (string, string))
  {
    var ids := Split(id, ItemIDSep);
    if |ids| != 2 then ("", "")
    else if ids[0] == ItemTypeNode || ids[0] == ItemTypeRemoteNode then (ids[0], ids[1])
    else ("", "")
  }

  /**
   * parseItemID inverts generateItemID exactly for node and remote-node
   * tags with a link holding no "_"; every other generated ID parses to
   * ("", "").
   */
  lemma ParseGenerated(itemType: string, id: string)
    requires ItemIDSep !in itemType
    ensures ParseItemID(GenerateItemID(itemType, id)) ==
      if (itemType == ItemTypeNode || itemType == ItemTypeRemoteNode) && ItemIDSep !in id then (itemType, id) else ("", "")
  {
    assert GenerateItemID(itemType, id) == itemType + [ItemIDSep] + id;
    if ItemIDSep in id {
      SplitMany(itemType, id, ItemIDSep);
    } else {
      SplitPair(itemType, id, ItemIDSep);
    }
  }

  /** Whatever parses came from generateItemID with a node or remote-node tag and a link with no "_". */
  lemma ParseSound(id: string)
    requires ParseItemID(id) != ("", "")
    ensures var (t, link) := ParseItemID(id);
      (t == ItemTypeNode || t == ItemTypeRemoteNode) && ItemIDSep !in link && GenerateItemID(t, link) == id
  {
    var ids := Split(id, ItemIDSep);
    JoinSplit(id, ItemIDSep);
    assert Join(ids, ItemIDSep) == ids[0] + [ItemIDSep] + ids[1];
  }

  function Digit(d: nat): (c: char)
    requires d < 10
    ensures '0' <= c <= '9'
  {
    ['0', '1', '2', '3', '4', '5', '6', '7', '8', '9'][d]
  }

  /** strconv.FormatUint(n, 10). */
  function Decimal(n: nat): (s: string)
    ensures |s| > 0 && forall k :: 0 <= k < |s| ==> '0' <= s[k] <= '9'
  {
    if n < 10 then [Digit(n)] else Decimal(n / 10) + [Digit(n % 10)]
  }

  /** A local or remote node item as its repository reports it. */
  datatype NodeItem = NodeItem(id: nat, name: string, fileType: string, available: bool)

  /** The listing entry of a node item: tag I (local) or RI (remote) and its decimal ID; D or F from the file type. */
  function ItemOfNodeItem(itemType: string, n: NodeItem, parentId: Option<string>): (item: Item)
    requires itemType == ItemTypeNodeItem || itemType == ItemTypeRemoteNodeItem
    ensures item.linkId == Some(Decimal(n.id)) && item.id == itemType + "_" + Decimal(n.id)
    ensures item.itemType == (if n.fileType == FileTypeFolder then ItemTypeFolder
      else if n.fileType == FileTypeFile then ItemTypeFile else "")
    ensures item.name == n.name && item.available == n.available && item.parentId == parentId
  {
    var link := Decimal(n.id);
    var t := if n.fileType == FileTypeFolder then ItemTypeFolder else if n.fileType == FileTypeFile then ItemTypeFile else "";
    Item(GenerateItemID(itemType, link), n.name, t, n.available, Some(link), parentId)
  }

  /** A node item's entry ID never parses as that of a node or a remote node. */
  lemma NodeItemIdUnparsed(itemType: string, n: NodeItem, parentId: Option<string>)
    requires itemType == ItemTypeNodeItem || itemType == ItemTypeRemoteNodeItem
    ensures ParseItemID(ItemOfNodeItem(itemType, n, parentId).id) == ("", "")
  {
    var link := Decimal(n.id);
    assert ItemIDSep !in link;
    ParseGenerated(itemType, link);
  }

  /** What a repository traversal visits, and the error it ends with. */
  datatype Traversal = Traversal(visited: seq<NodeItem>, err: Option<string>)

  /**
   * SearchNodeItemWithParentID and SearchRemoteNodeItemByIdWithParentID
   * once the traversal is chosen: one entry per visited node item, in
   * order, and the traversal's error.
   */
  method NodeItemsOf(itemType: string, t: Traversal, parentId: Option<string>) returns (items: seq<Item>, err: Option<string>)
    requires itemType == ItemTypeNodeItem || itemType == ItemTypeRemoteNodeItem
    ensures |items| == |t.visited| && err == t.err
    ensures forall k :: 0 <= k < |items| ==> items[k] == ItemOfNodeItem(itemType, t.visited[k], parentId)
  {
    items := [];
    var i := 0;
    while i < |t.visited|
      invariant i <= |t.visited| && |items| == i
      invariant forall k :: 0 <= k < i ==> items[k] == ItemOfNodeItem(itemType, t.visited[k], parentId)
    {
      var item := ItemOfNodeItem(itemType, t.visited[i], parentId);
      items := AppendEntry(items, item);
      i := i + 1;
    }
    err := t.err;
  }

  /** append(items, item): the old entries, then the new one. */
  method AppendEntry(items: seq<Item>, item: Item) returns (r: seq<Item>)
    ensures |r| == |items| + 1 && r[|items|] == item
    ensures forall k :: 0 <= k < |items| ==> r[k] == items[k]
  {
    r := items + [item];
  }

  /** The node's own settings. */
  datatype Settings = Settings(nodeId: string, name: string)

  /** SelectNode: the local node's entry. */
  function SelectNode(settings: Settings): (item: Item)
    ensures item.id == "N_" + settings.nodeId && item.name == settings.name
    ensures item.itemType == ItemTypeNode && item.available
  {
    Item(GenerateItemID(ItemTypeNode, settings.nodeId), settings.name, ItemTypeNode, true, None, None)
  }

  /** The entry of a remote node the node service knows. */
  function KnownItem(r: NodeRecord): (item: Item)
    ensures item.id == "RN_" + r.nodeId && item.linkId == Some(r.nodeId) && item.name == r.name
    ensures item.itemType == ItemTypeRemoteNode && item.available
  {
    Item(GenerateItemID(ItemTypeRemoteNode, r.nodeId), r.name, ItemTypeRemoteNode, true, Some(r.nodeId), None)
  }

  /** The entry of a live node the node service does not know: no name. */
  function UnknownItem(nodeId: string): (item: Item)
    ensures item.id == "RN_" + nodeId && item.linkId == Some(nodeId) && item.name == ""
    ensures item.itemType == ItemTypeRemoteNode && item.available
  {
    Item(GenerateItemID(ItemTypeRemoteNode, nodeId), "", ItemTypeRemoteNode, true, Some(nodeId), None)
  }

  function KnownItems(rs: seq<NodeRecord>): (items: seq<Item>)
    ensures |items| == |rs| && forall k :: 0 <= k < |rs| ==> items[k] == KnownItem(rs[k])
  {
    if rs == [] then [] else [KnownItem(rs[0])] + KnownItems(rs[1..])
  }

  function UnknownItems(ids: seq<string>): (items: seq<Item>)
    ensures |items| == |ids| && forall k :: 0 <= k < |ids| ==> items[k] == UnknownItem(ids[k])
  {
    if ids == [] then [] else [UnknownItem(ids[0])] + UnknownItems(ids[1..])
  }

  /**
   * What the node manager and the node service report: the live node IDs
   * (base64) in the order TraverseNodeID visits them, the records the
   * service visits for them and the service's own outcome.
   */
  datatype NodeReports = NodeReports(live: seq<string>, reported: seq<NodeRecord>, serviceErr: Option<string>)

  /** The live IDs collected and sorted, then merged with the records: nothing when no node is live. */
  method MergeReports(r: NodeReports) returns (m: Option<Merged>)
    ensures m.None? <==> r.live == []
    ensures m.Some? ==> m.value == Merge(SortLive(r.live), r.reported, r.serviceErr)
  {
    var ids := CollectLive(r.live);
    if |ids| == 0 {
      SortLiveLength(r.live);
      return None;
    }
    var merged := MergeLive(ids, r.reported, r.serviceErr);
    return Some(merged);
  }

  /**
   * SearchRemoteNode: without a node manager, nothing; with no live node,
   * nothing; otherwise the known nodes in the order reported, then (when
   * the merge succeeds) the live nodes left over, in sorted order.
   */
  /** The entries and the error SearchRemoteNode reports, as a value. */
  function RemoteListing(mgr: Option<NodeReports>): (seq<Item>, Option<string>) {
    if mgr.None? || mgr.value.live == [] then ([], None)
    else
      var m := Merge(SortLive(mgr.value.live), mgr.value.reported, mgr.value.serviceErr);
      (KnownItems(m.known) + (if m.err.None? then UnknownItems(m.leftover) else []), m.err)
  }

  method SearchRemoteNode(mgr: Option<NodeReports>) returns (items: seq<Item>, err: Option<string>)
    ensures (items, err) == RemoteListing(mgr)
    ensures mgr.None? ==> items == [] && err.None?
    ensures mgr.Some? && mgr.value.live == [] ==> items == [] && err.None?
    ensures mgr.Some? && mgr.value.live != [] ==>
      var m := Merge(SortLive(mgr.value.live), mgr.value.reported, mgr.value.serviceErr);
      err == m.err && items == KnownItems(m.known) + (if m.err.None? then UnknownItems(m.leftover) else [])
  {
    if mgr.None? {
      return [], None;
    }
    var merged := MergeReports(mgr.value);
    if merged.None? {
      return [], None;
    }
    var m := merged.value;
    items := MergedItems(m);
    err := m.err;
  }

  /** The entries of a merge: the known nodes, then, when nothing failed and any are left, the other live nodes. */
  method MergedItems(m: Merged) returns (items: seq<Item>)
    ensures items == KnownItems(m.known) + (if m.err.None? then UnknownItems(m.leftover) else [])
  {
    items := KnownItems(m.known);
    if m.err.None? && |m.leftover| > 0 {
      items := items + UnknownItems(m.leftover);
    } else if m.err.None? {
      assert items + UnknownItems(m.leftover) == items;
    } else {
      assert items + [] == items;
    }
  }

  /** The listing's condition: a parent to list the children of, or the item types of the top level. */
  datatype Condition = Condition(parentId: Option<string>, itemTypes: seq<string>)

  /** The collaborators' answers: the settings, the node reports, the local items, and the remote items per link. */
  datatype Sources = Sources(
    settings: Settings,
    nodes: Option<NodeReports>,
    localItems: Traversal,
    remoteItems: string -> Result<Traversal>)

  /**
   * Search: the total is always -1. With a parent, the children of a local
   * node (tag N) or of a remote node (tag RN, looked up by its link); a
   * failed child listing gives no items and, the error being shadowed, no
   * error. Without a parent, the local node if N is asked for, then the
   * remote nodes if RN is, whose error is the result's.
   */
  method Search(c: Condition, src: Sources) returns (total: int, items: seq<Item>, err: Option<string>)
    ensures total == -1
    ensures c.parentId.Some? ==> err.None?
    ensures c.parentId.Some? && ParseItemID(c.parentId.value) == ("", "") ==> items == []
    ensures c.parentId.Some? && ParseItemID(c.parentId.value).0 == ItemTypeNode ==>
      (src.localItems.err.None? ==>
        |items| == |src.localItems.visited| &&
        forall k :: 0 <= k < |items| ==> items[k] == ItemOfNodeItem(ItemTypeNodeItem, src.localItems.visited[k], c.parentId)) &&
      (src.localItems.err.Some? ==> items == [])
    ensures c.parentId.Some? && ParseItemID(c.parentId.value).0 == ItemTypeRemoteNode ==>
      var r := src.remoteItems(ParseItemID(c.parentId.value).1);
      (r.Ok? && r.value.err.None? ==>
        |items| == |r.value.visited| &&
        forall k :: 0 <= k < |items| ==> items[k] == ItemOfNodeItem(ItemTypeRemoteNodeItem, r.value.visited[k], c.parentId)) &&
      (r.Err? || r.value.err.Some? ==> items == [])
    ensures c.parentId.None? && ItemTypeNode in c.itemTypes ==> |items| > 0 && items[0] == SelectNode(src.settings)
    ensures c.parentId.None? && ItemTypeNode !in c.itemTypes && ItemTypeRemoteNode !in c.itemTypes ==> items == [] && err.None?
    ensures c.parentId.None? && ItemTypeRemoteNode !in c.itemTypes ==>
      err.None? && items == (if ItemTypeNode in c.itemTypes then [SelectNode(src.settings)] else [])
    ensures c.parentId.None? && ItemTypeRemoteNode in c.itemTypes ==>
      var (remote, remoteErr) := RemoteListing(src.nodes);
      err == remoteErr &&
      items == (if ItemTypeNode in c.itemTypes then [SelectNode(src.settings)] else []) + (if remoteErr.None? then remote else [])
  {
    total := -1;
    items := [];
    err := None;
    if c.parentId.Some? {
      var (itemType, linkId) := ParseItemID(c.parentId.value);
      if itemType == ItemTypeNode {
        var nodeItems, e := NodeItemsOf(ItemTypeNodeItem, src.localItems, c.parentId);
        if e.None? {
          items := nodeItems;
        }
      } else if itemType == ItemTypeRemoteNode {
        var t := src.remoteItems(linkId);
        if t.Ok? {
          var remoteItems, e := NodeItemsOf(ItemTypeRemoteNodeItem, t.value, c.parentId);
          if e.None? {
            items := remoteItems;
          }
        }
      }
      return;
    }
    if ItemTypeNode in c.itemTypes {
      items := items + [SelectNode(src.settings)];
    }
    if ItemTypeRemoteNode in c.itemTypes {
      var remoteItems, remoteErr := SearchRemoteNode(src.nodes);
      if remoteErr.None? {
        items := items + remoteItems;
      }
      err := remoteErr;
    }
  }

  /** A remote node as the remote-node service lists it (times absent for one the node service does not know). */
  datatype RemoteNode = RemoteNode(name: string, nodeId: string, available: bool, createdAt: Option<int>, updatedAt: Option<int>)

  function KnownRemote(r: NodeRecord): (n: RemoteNode)
    ensures n.nodeId == r.nodeId && n.name == r.name && n.available
    ensures n.createdAt == Some(r.createdAt) && n.updatedAt == Some(r.updatedAt)
  {
    RemoteNode(r.name, r.nodeId, true, Some(r.createdAt), Some(r.updatedAt))
  }

  function UnknownRemote(nodeId: string): (n: RemoteNode)
    ensures n.nodeId == nodeId && n.name == "" && n.available && n.createdAt.None? && n.updatedAt.None?
  {
    RemoteNode("", nodeId, true, None, None)
  }

  function KnownRemotes(rs: seq<NodeRecord>): (ns: seq<RemoteNode>)
    ensures |ns| == |rs| && forall k :: 0 <= k < |rs| ==> ns[k] == KnownRemote(rs[k])
  {
    if rs == [] then [] else [KnownRemote(rs[0])] + KnownRemotes(rs[1..])
  }

  function UnknownRemotes(ids: seq<string>): (ns: seq<RemoteNode>)
    ensures |ns| == |ids| && forall k :: 0 <= k < |ids| ==> ns[k] == UnknownRemote(ids[k])
  {
    if ids == [] then [] else [UnknownRemote(ids[0])] + UnknownRemotes(ids[1..])
  }

  /**
   * RemoteNodeService.SelectAll: the total is always 0; no node manager is
   * ErrUnavailable; no live node is an empty listing; otherwise the known
   * nodes in the order reported, then (when the merge succeeds) the live
   * nodes left over, in sorted order, all available.
   */
  method SelectAll(mgr: Option<NodeReports>) returns (total: int, remotes: seq<RemoteNode>, err: Option<string>)
    ensures total == 0
    ensures mgr.None? ==> remotes == [] && err == Some(Errors.ErrUnavailable)
    ensures mgr.Some? && mgr.value.live == [] ==> remotes == [] && err.None?
    ensures mgr.Some? && mgr.value.live != [] ==>
      var m := Merge(SortLive(mgr.value.live), mgr.value.reported, mgr.value.serviceErr);
      err == m.err && remotes == KnownRemotes(m.known) + (if m.err.None? then UnknownRemotes(m.leftover) else [])
    ensures forall k :: 0 <= k < |remotes| ==> remotes[k].available
  {
    total := 0;
    if mgr.None? {
      return 0, [], Some(Errors.ErrUnavailable);
    }
    var merged := MergeReports(mgr.value);
    if merged.None? {
      return 0, [], None;
    }
    var m := merged.value;
    remotes := MergedRemotes(m);
    err := m.err;
  }

  /** The remote nodes of a merge: the known ones, then, when nothing failed and any are left, the others; all available. */
  method MergedRemotes(m: Merged) returns (remotes: seq<RemoteNode>)
    ensures remotes == KnownRemotes(m.known) + (if m.err.None? then UnknownRemotes(m.leftover) else [])
    ensures forall k :: 0 <= k < |remotes| ==> remotes[k].available
  {
    remotes := KnownRemotes(m.known);
    if m.err.None? && |m.leftover| > 0 {
      remotes := remotes + UnknownRemotes(m.leftover);
    } else if m.err.None? {
      assert remotes + UnknownRemotes(m.leftover) == remotes;
    } else {
      assert remotes + [] == remotes;
    }
  }

  /**
   * A listing that succeeds shows every reported node with its record and
   * every other live node once, without a name, in sorted order.
   */
  lemma SelectAllAccounts(r: NodeReports)
    requires r.live != [] && Merge(SortLive(r.live), r.reported, r.serviceErr).err.None?
    ensures var m := Merge(SortLive(r.live), r.reported, r.serviceErr);
      m.known == r.reported && Sorted(m.leftover) &&
      multiset(IdsOf(r.reported)) <= multiset(r.live) &&
      multiset(m.leftover) == multiset(r.live) - multiset(IdsOf(r.reported))
  {
    var ids := SortLive(r.live);
    SortLiveSorted(r.live);
    SortLivePermutes(r.live);
    MergeOutcome(ids, r.reported, r.serviceErr);
    MergeKeepsSorted(ids, r.reported, r.serviceErr);
    MergeAccounts(ids, r.reported, r.serviceErr);
  }

  /** Two of four live nodes known (the second reported first): the known two in that order, then the other two sorted. */
  lemma MergeFourExample()
    ensures var r := Merge(["a", "b", "c", "d"],
      [NodeRecord("b", "second", 0, 0), NodeRecord("a", "first", 0, 0)], None);
      r.err.None? && r.known == [NodeRecord("b", "second", 0, 0), NodeRecord("a", "first", 0, 0)] &&
      r.leftover == ["c", "d"]
  {
    var ids := ["a", "b", "c", "d"];
    var first := NodeRecord("a", "first", 0, 0);
    var reported := [NodeRecord("b", "second", 0, 0), first];
    var rest := ["a", "c", "d"];
    // The second record, against ["a", "c", "d"].
    LessIrreflexive("a");
    assert LowerBound(rest, "a") == 0;
    assert Without(rest, "a") == ["c", "d"];
    MergeAccepts(rest, [first], None);
    assert [first][1..] == [];
    assert Merge(rest, [first], None) == Merged([first], ["c", "d"], None);
    // The first record, against all four.
    assert Less("a", "b");
    LessIrreflexive("b");
    assert LowerBound(ids, "b") == 1;
    assert Without(ids, "b") == rest;
    MergeAccepts(ids, reported, None);
    assert reported[1..] == [first];
  }
}
