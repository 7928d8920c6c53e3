// The ExtFS explorer's navigation state: the current mode (H home, N local
// node, F local folder, R remote node, RF remote folder) with the fields that
// mode's list query needs, and the stack of {name, state} entries the
// explorer has stepped through. Each click handler builds the next state and
// the reducer replaces the old one with it; a handler that returns without
// dispatching leaves the state as it was.
module ExtFSModes {
  import opened Wrappers

  /** A mode's own fields; nodeId, itemId and parentPath are present only in the modes that use them. */
  datatype SingleState = SingleState(
    mode: string,
    queryKeyList: seq<seq<string>>,
    nodeId: Option<string>,
    itemId: Option<int>,
    parentPath: Option<string>)

  datatype ParentItem = ParentItem(name: string, state: SingleState)

  datatype ExplorerState = ExplorerState(single: SingleState, parentItems: seq<ParentItem>)

  const HomeMode: string := "H"
  const NodeMode: string := "N"
  const FileMode: string := "F"
  const RemoteMode: string := "R"
  const RemoteFileMode: string := "RF"

  const AppSettingsQueryKey: seq<string> := ["app-settings"]
  const RemoteNodesQueryKey: seq<string> := ["extfs-remote-nodes"]
  const NodeQueryKey: seq<string> := ["extfs-node-items"]
  const FileQueryKey: seq<string> := ["extfs-file-items"]
  const RemoteQueryKey: seq<string> := ["extfs-remote-items"]
  const RemoteFileQueryKey: seq<string> := ["extfs-remote-file-items"]

  /** The constant state of each mode. */
  function ModeState(mode: string, keys: seq<seq<string>>): SingleState {
    SingleState(mode, keys, None, None, None)
  }

  const HomeState: SingleState := ModeState(HomeMode, [AppSettingsQueryKey, RemoteNodesQueryKey])
  const NodeState: SingleState := ModeState(NodeMode, [NodeQueryKey])
  const FileState: SingleState := ModeState(FileMode, [FileQueryKey])
  const RemoteState: SingleState := ModeState(RemoteMode, [RemoteQueryKey])
  const RemoteFileState: SingleState := ModeState(RemoteFileMode, [RemoteFileQueryKey])

  // ---------------------------------------------------------------------
  // Queries
  // ---------------------------------------------------------------------

  /** One element of a query key: a name, or the parameter object of a search. */
  datatype KeyPart = Name(name: string) | Params(nodeId: Option<string>, itemId: Option<int>, parentPath: Option<string>)

  datatype Query = Query(key: seq<KeyPart>, enabled: bool)

  function Names(key: seq<string>): (r: seq<KeyPart>)
    ensures |r| == |key| && forall i :: 0 <= i < |key| ==> r[i] == Name(key[i])
  {
    if key == [] then [] else [Name(key[0])] + Names(key[1..])
  }

  /** The two queries of the home list, both enabled only in home mode. */
  function HomeQueries(s: SingleState): (qs: seq<Query>)
    ensures |qs| == 2 && qs[0].key == Names(AppSettingsQueryKey) && qs[1].key == Names(RemoteNodesQueryKey)
    ensures forall i :: 0 <= i < 2 ==> (qs[i].enabled <==> s.mode == "H")
  {
    [Query(Names(AppSettingsQueryKey), s.mode == HomeMode), Query(Names(RemoteNodesQueryKey), s.mode == HomeMode)]
  }

  /** The local node's item list: a fixed key, fetched only in node mode. */
  function NodeQuery(s: SingleState): (q: Query)
    ensures q.key == [Name("extfs-node-items")] && (q.enabled <==> s.mode == "N")
  {
    Query(Names(NodeQueryKey), s.mode == NodeMode)
  }

  /** A folder's list: keyed by the item and the path inside it, fetched only in folder mode. */
  function FileQuery(s: SingleState): (q: Query)
    ensures q.key == [Name("extfs-file-items"), Params(None, s.itemId, s.parentPath)]
    ensures q.enabled <==> s.mode == "F"
  {
    Query(Names(FileQueryKey) + [Params(None, s.itemId, s.parentPath)], s.mode == FileMode)
  }

  /** A remote node's list: keyed by the node, fetched only in remote mode. */
  function RemoteQuery(s: SingleState): (q: Query)
    ensures q.key == [Name("extfs-remote-items"), Params(s.nodeId, None, None)]
    ensures q.enabled <==> s.mode == "R"
  {
    Query(Names(RemoteQueryKey) + [Params(s.nodeId, None, None)], s.mode == RemoteMode)
  }

  /** A remote folder's list: keyed by node, item and path, fetched only with an API and in remote-folder mode. */
  function RemoteFileQuery(s: SingleState, hasApi: bool): (q: Query)
    ensures q.key == [Name("extfs-remote-file-items"), Params(s.nodeId, s.itemId, s.parentPath)]
    ensures q.enabled <==> hasApi && s.mode == "RF"
  {
    Query(Names(RemoteFileQueryKey) + [Params(s.nodeId, s.itemId, s.parentPath)], hasApi && s.mode == RemoteFileMode)
  }

  // ---------------------------------------------------------------------
  // The home list
  // ---------------------------------------------------------------------

  /** An entry of the home list: the local node from the settings, or a remote node. */
  datatype HomeEntry =
    | LocalNode(name: string, nodeId: string)
    | RemoteNode(name: string, nodeId: string, updatedAt: string, available: bool)

  /** The local node (once the settings have loaded) followed by the remote nodes in their order. */
  function HomeItems(settings: Option<(string, string)>, remotes: Option<seq<HomeEntry>>): (items: seq<HomeEntry>)
    ensures var rs := if remotes.Some? then remotes.value else [];
      items == (if settings.Some? then [LocalNode(settings.value.0, settings.value.1)] else []) + rs
  {
    var rest := if remotes.Some? && |remotes.value| > 0 then remotes.value else [];
    if settings.Some? then [LocalNode(settings.value.0, settings.value.1)] + rest else rest
  }

  // ---------------------------------------------------------------------
  // Clicks
  // ---------------------------------------------------------------------

  /** The state becomes `next` and one entry naming it is pushed onto the stack. */
  function Enter(s: ExplorerState, name: string, next: SingleState): ExplorerState {
    ExplorerState(next, s.parentItems + [ParentItem(name, next)])
  }

  /** A remote node on the home list: remote mode for that node, one entry pushed. */
  function HomeRemoteClick(s: ExplorerState, name: string, nodeId: string): (t: ExplorerState)
    ensures t.single == RemoteState.(nodeId := Some(nodeId))
    ensures t.parentItems == s.parentItems + [ParentItem(name, t.single)]
  {
    Enter(s, name, RemoteState.(nodeId := Some(nodeId)))
  }

  /** The local node on the home list: node mode, and the stack becomes that one entry. */
  function HomeLocalClick(s: ExplorerState, name: string): (t: ExplorerState)
    ensures t == ExplorerState(NodeState, [ParentItem(name, NodeState)])
  {
    ExplorerState(NodeState, [ParentItem(name, NodeState)])
  }

  /** A local node item: an available folder opens folder mode on that item; anything else does nothing. */
  function NodeItemClick(s: ExplorerState, available: bool, fileType: string, id: int, name: string): (t: ExplorerState)
    ensures !available || fileType != "D" ==> t == s
    ensures available && fileType == "D" ==>
      t.single == FileState.(itemId := Some(id)) && t.parentItems == s.parentItems + [ParentItem(name, t.single)]
  {
    if !available then s
    else if fileType == "D" then Enter(s, name, FileState.(itemId := Some(id)))
    else s
  }

  /** A folder entry inside a local folder: same mode and item, the entry's path, one entry pushed. */
  function FileItemClick(s: ExplorerState, available: bool, fileType: string, filePath: string, name: string): (t: ExplorerState)
    ensures !available || fileType != "D" ==> t == s
    ensures available && fileType == "D" ==>
      t.single == s.single.(parentPath := Some(filePath)) && t.parentItems == s.parentItems + [ParentItem(name, t.single)]
  {
    if !available then s
    else if fileType == "D" then Enter(s, name, s.single.(parentPath := Some(filePath)))
    else s
  }

  /** An item of a remote node: an available folder opens remote-folder mode on it, with no path yet. */
  function RemoteItemClick(s: ExplorerState, available: bool, fileType: string, nodeId: string, remoteItemId: int, name: string): (t: ExplorerState)
    ensures !available || fileType != "D" ==> t == s
    ensures available && fileType == "D" ==>
      t.single == RemoteFileState.(nodeId := Some(nodeId), itemId := Some(remoteItemId)) &&
      t.single.parentPath == None && t.parentItems == s.parentItems + [ParentItem(name, t.single)]
  {
    if !available then s
    else if fileType == "D" then Enter(s, name, RemoteFileState.(nodeId := Some(nodeId), itemId := Some(remoteItemId)))
    else s
  }

  /** A folder entry inside a remote folder: same node and item, the entry's path, one entry pushed. */
  function RemoteFileItemClick(s: ExplorerState, available: bool, fileType: string, filePath: string, name: string): (t: ExplorerState)
    ensures !available || fileType != "D" ==> t == s
    ensures available && fileType == "D" ==>
      t.single == s.single.(parentPath := Some(filePath)) && t.parentItems == s.parentItems + [ParentItem(name, t.single)]
  {
    if !available then s
    else if fileType == "D" then Enter(s, name, s.single.(parentPath := Some(filePath)))
    else s
  }

  // ---------------------------------------------------------------------
  // Invariants of the navigation
  // ---------------------------------------------------------------------

  /** Each mode carries the fields its query needs and no others. */
  predicate ModeFields(s: SingleState) {
    || s == HomeState
    || s == NodeState
    || (s.mode == FileMode && s.queryKeyList == [FileQueryKey] && s.nodeId.None? && s.itemId.Some?)
    || (s.mode == RemoteMode && s.queryKeyList == [RemoteQueryKey] && s.nodeId.Some? && s.itemId.None? && s.parentPath.None?)
    || (s.mode == RemoteFileMode && s.queryKeyList == [RemoteFileQueryKey] && s.nodeId.Some? && s.itemId.Some?)
  }

  /**
   * The explorer's state is well formed: its mode has its fields, every
   * entry of the stack holds a well-formed state, and the last entry holds
   * the current state (so going back to an entry restores its view).
   */
  predicate WellFormed(s: ExplorerState) {
    && ModeFields(s.single)
    && (forall i :: 0 <= i < |s.parentItems| ==> ModeFields(s.parentItems[i].state))
    && (|s.parentItems| > 0 ==> s.parentItems[|s.parentItems| - 1].state == s.single)
  }

  /** The home state with an empty stack is well formed. */
  lemma HomeWellFormed()
    ensures WellFormed(ExplorerState(HomeState, []))
  {
  }

  lemma EnterWellFormed(s: ExplorerState, name: string, next: SingleState)
    requires WellFormed(s) && ModeFields(next)
    ensures WellFormed(Enter(s, name, next))
  {
    var t := Enter(s, name, next);
    forall i | 0 <= i < |t.parentItems|
      ensures ModeFields(t.parentItems[i].state)
    {
      if i < |s.parentItems| {
        assert t.parentItems[i] == s.parentItems[i];
      }
    }
  }

  /** Every click on the home list, the node list or a remote node's list keeps the explorer's state well formed. */
  lemma ClicksKeepWellFormed(s: ExplorerState, available: bool, fileType: string, name: string, nodeId: string, id: int)
    requires WellFormed(s)
    ensures WellFormed(HomeRemoteClick(s, name, nodeId))
    ensures WellFormed(HomeLocalClick(s, name))
    ensures WellFormed(NodeItemClick(s, available, fileType, id, name))
    ensures WellFormed(RemoteItemClick(s, available, fileType, nodeId, id, name))
  {
    EnterWellFormed(s, name, RemoteState.(nodeId := Some(nodeId)));
    if available && fileType == "D" {
      EnterWellFormed(s, name, FileState.(itemId := Some(id)));
      EnterWellFormed(s, name, RemoteFileState.(nodeId := Some(nodeId), itemId := Some(id)));
    }
  }

  /**
   * A folder list is shown in its own mode: a click there keeps the state
   * well formed, and in any other mode it would give that mode a path.
   */
  lemma FolderClicksKeepWellFormed(s: ExplorerState, available: bool, fileType: string, name: string, filePath: string)
    requires WellFormed(s) && (s.single.mode == "F" || s.single.mode == "RF")
    ensures WellFormed(FileItemClick(s, available, fileType, filePath, name))
    ensures WellFormed(RemoteFileItemClick(s, available, fileType, filePath, name))
  {
    if available && fileType == "D" {
      EnterWellFormed(s, name, s.single.(parentPath := Some(filePath)));
    }
  }

  /** Only the two folder modes carry a path. */
  lemma PathOnlyInFolders(s: ExplorerState)
    requires WellFormed(s) && s.single.parentPath.Some?
    ensures s.single.mode == "F" || s.single.mode == "RF"
  {
  }

  /** Every click leaves the entries already on the stack as they were (the local node restarts it). */
  lemma ClicksKeepEarlierEntries(s: ExplorerState, available: bool, fileType: string, name: string, nodeId: string, id: int, filePath: string)
    ensures HomeRemoteClick(s, name, nodeId).parentItems[..|s.parentItems|] == s.parentItems
    ensures NodeItemClick(s, available, fileType, id, name).parentItems[..|s.parentItems|] == s.parentItems
    ensures FileItemClick(s, available, fileType, filePath, name).parentItems[..|s.parentItems|] == s.parentItems
    ensures RemoteItemClick(s, available, fileType, nodeId, id, name).parentItems[..|s.parentItems|] == s.parentItems
    ensures RemoteFileItemClick(s, available, fileType, filePath, name).parentItems[..|s.parentItems|] == s.parentItems
  {
  }
}
