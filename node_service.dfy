// The node service of the application API: the node list, with each node
// that is not blocked marked online when the node manager holds a
// connection for it, and the creation and editing of node records.
// The repository and the node manager are collaborators given as values.
module NodeService {
  import opened Wrappers
  import opened Bytes
  import opened GoStrings

  /** models.Node: the stored record and whether the node is online now. */
  datatype Node = Node(id: nat, nodeId: string, name: string, blocked: bool, online: bool)

  /** models.NodeFields: what a client sends to create or edit a node. */
  datatype NodeFields = NodeFields(nodeId: string, name: string, blocked: Option<bool>)

  /** The parts of models.NodeSearchCondition the service reads; the rest goes to the repository. */
  datatype NodeCondition = NodeCondition(keyword: string, blocked: Option<bool>, online: Option<bool>)

  /** What the repository's Search answers. */
  datatype SearchAnswer = SearchAnswer(total: int, items: seq<Node>, err: Option<string>)

  /** The node repository: its answers to each call. */
  datatype NodeRepo = NodeRepo(
    search: NodeCondition -> SearchAnswer,
    select: nat -> (Node, Option<string>),
    save: Node -> (Node, Option<string>),
    delete: Node -> Option<string>)

  /**
   * The node manager, through what the service asks of it: the decoding
   * of a stored node ID (base64) and the number of connections held for a
   * decoded ID.
   */
  datatype Manager = Manager(decode: string -> Result<bytes>, count: bytes -> nat)

  /** setNodeOnline: with a decodable ID the node is online iff a connection is held; a bad ID is an error and leaves the node alone. */
  function Refreshed(mgr: Manager, n: Node): (r: (Node, Option<string>))
    ensures r.0.id == n.id && r.0.nodeId == n.nodeId && r.0.name == n.name && r.0.blocked == n.blocked
    ensures r.1.None? <==> mgr.decode(n.nodeId).Ok?
    ensures r.1.None? ==> (r.0.online <==> mgr.count(mgr.decode(n.nodeId).value) > 0)
    ensures r.1.Some? ==> r.0 == n
  {
    var decoded := mgr.decode(n.nodeId);
    if decoded.Ok? then (n.(online := mgr.count(decoded.value) > 0), None)
    else (n, Some(decoded.error))
  }

  /** How the list shows a node: a node that is not blocked is refreshed, its error ignored; a blocked one is as stored. */
  function Shown(mgr: Manager, n: Node): Node
  {
    if n.blocked then n else Refreshed(mgr, n).0
  }

  /** A node passes the Online filter when there is none or its shown state agrees with it. */
  predicate PassesOnline(online: Option<bool>, n: Node)
  {
    online.None? || online.value == n.online
  }

  /** The list Search gives back when it consults the manager: every node shown, those failing the Online filter dropped. */
  function Listed(mgr: Manager, items: seq<Node>, online: Option<bool>): seq<Node>
  {
    if items == [] then []
    else
      var n := Shown(mgr, items[0]);
      (if PassesOnline(online, n) then [n] else []) + Listed(mgr, items[1..], online)
  }

  /**
   * Listed is the shown form of exactly the repository items that pass the
   * filter: no more than the repository gave, all passing the filter, each
   * shown item of the repository present when it passes, and, without a
   * filter, all of them in order.
   */
  lemma ListedSpec(mgr: Manager, items: seq<Node>, online: Option<bool>)
    ensures |Listed(mgr, items, online)| <= |items|
    ensures forall n :: n in Listed(mgr, items, online) ==>
      PassesOnline(online, n) && exists i :: 0 <= i < |items| && n == Shown(mgr, items[i])
    ensures forall i :: 0 <= i < |items| && PassesOnline(online, Shown(mgr, items[i])) ==>
      Shown(mgr, items[i]) in Listed(mgr, items, online)
    ensures online.None? ==>
      |Listed(mgr, items, online)| == |items| &&
      forall i :: 0 <= i < |items| ==> Listed(mgr, items, online)[i] == Shown(mgr, items[i])
  {
    ListedSound(mgr, items, online);
    ListedComplete(mgr, items, online);
    ListedUnfiltered(mgr, items, online);
  }

  /** Every listed node passes the filter and is the shown form of a repository item; there are no more of them than items. */
  lemma {:induction false} ListedSound(mgr: Manager, items: seq<Node>, online: Option<bool>)
    ensures |Listed(mgr, items, online)| <= |items|
    ensures forall n :: n in Listed(mgr, items, online) ==>
      PassesOnline(online, n) && exists i :: 0 <= i < |items| && n == Shown(mgr, items[i])
  {
    if items != [] {
      var rest := items[1..];
      ListedSound(mgr, rest, online);
      var n := Shown(mgr, items[0]);
      forall x | x in Listed(mgr, items, online)
        ensures PassesOnline(online, x) && exists i :: 0 <= i < |items| && x == Shown(mgr, items[i])
      {
        if x !in Listed(mgr, rest, online) {
          assert x == n;
        } else {
          var j :| 0 <= j < |rest| && x == Shown(mgr, rest[j]);
          assert x == Shown(mgr, items[j + 1]);
        }
      }
    }
  }

  /** Every repository item whose shown form passes the filter is listed. */
  lemma {:induction false} ListedComplete(mgr: Manager, items: seq<Node>, online: Option<bool>)
    ensures forall i :: 0 <= i < |items| && PassesOnline(online, Shown(mgr, items[i])) ==>
      Shown(mgr, items[i]) in Listed(mgr, items, online)
  {
    if items != [] {
      var rest := items[1..];
      ListedComplete(mgr, rest, online);
      forall i | 1 <= i < |items| && PassesOnline(online, Shown(mgr, items[i]))
        ensures Shown(mgr, items[i]) in Listed(mgr, items, online)
      {
        assert rest[i - 1] == items[i];
      }
    }
  }

  /** Without a filter every item is listed, shown, in order. */
  lemma {:induction false} ListedUnfiltered(mgr: Manager, items: seq<Node>, online: Option<bool>)
    ensures online.None? ==>
      |Listed(mgr, items, online)| == |items| &&
      forall i :: 0 <= i < |items| ==> Listed(mgr, items, online)[i] == Shown(mgr, items[i])
  {
    if items != [] && online.None? {
      var rest := items[1..];
      ListedUnfiltered(mgr, rest, online);
      var l := Listed(mgr, items, online);
      assert l == [Shown(mgr, items[0])] + Listed(mgr, rest, online);
      forall i | 1 <= i < |items| ensures l[i] == Shown(mgr, items[i]) {
        assert rest[i - 1] == items[i];
      }
    }
  }

  /** A blocked node keeps its stored Online; refreshing never changes who the node is. */
  lemma ShownKeepsIdentity(mgr: Manager, n: Node)
    ensures Shown(mgr, n).id == n.id && Shown(mgr, n).nodeId == n.nodeId
    ensures Shown(mgr, n).name == n.name && Shown(mgr, n).blocked == n.blocked
    ensures n.blocked ==> Shown(mgr, n).online == n.online
  {
  }

  /** The record Create saves: the client's name and ID, blocked only when asked for explicitly. */
  function CreatedModel(fields: NodeFields): (r: Node)
    ensures r.name == fields.name && r.nodeId == fields.nodeId && r.id == 0 && !r.online
    ensures r.blocked <==> fields.blocked == Some(true)
  {
    Node(0, fields.nodeId, fields.name, fields.blocked.Some? && fields.blocked.value, false)
  }

  /** The name Update asks for: the client's name without surrounding spaces, when anything is left. */
  function NewName(fields: NodeFields): string
  {
    Trim(fields.name, ' ')
  }

  /** Update has something to save: a name that is not blank, or a Blocked value. */
  predicate Dirty(fields: NodeFields)
  {
    NewName(fields) != [] || fields.blocked.Some?
  }

  /** The record Update saves: the fields that were sent, applied to the stored record. */
  function Edited(n: Node, fields: NodeFields): (r: Node)
    ensures r.id == n.id && r.nodeId == n.nodeId && r.online == n.online
    ensures r.name == if NewName(fields) != [] then NewName(fields) else n.name
    ensures r.blocked == if fields.blocked.Some? then fields.blocked.value else n.blocked
  {
    var named := if |NewName(fields)| > 0 then n.(name := NewName(fields)) else n;
    if fields.blocked.Some? then named.(blocked := fields.blocked.value) else named
  }

  /** What Update leads to: the record returned, the error, the record saved (if any) and whether the node's connections were closed. */
  datatype UpdateOutcome = UpdateOutcome(node: Node, err: Option<string>, saved: Option<Node>, closed: bool)

  /**
   * Update step by step: select; save the edited record when dirty;
   * close the node's connections after a successful save that blocked it;
   * then, while there is no error and the node is not blocked, refresh it.
   */
  function UpdateSpec(repo: NodeRepo, mgr: Option<Manager>, id: nat, fields: NodeFields): UpdateOutcome
  {
    var (stored, selectErr) := repo.select(id);
    if selectErr.Some? then UpdateOutcome(stored, selectErr, None, false)
    else
      var toSave := Edited(stored, fields);
      var (afterSave, saveErr) := if Dirty(fields) then repo.save(toSave) else (stored, None);
      var close := Dirty(fields) && saveErr.None? && fields.blocked == Some(true) && mgr.Some?;
      var closeErr := if close && mgr.value.decode(afterSave.nodeId).Err? then Some(mgr.value.decode(afterSave.nodeId).error) else saveErr;
      var saved := if Dirty(fields) then Some(toSave) else None;
      if closeErr.None? && !afterSave.blocked && mgr.Some? then
        var (refreshed, err) := Refreshed(mgr.value, afterSave);
        UpdateOutcome(refreshed, err, saved, close)
      else UpdateOutcome(afterSave, closeErr, saved, close)
  }

  /**
   * Update saves exactly when the record exists and something was sent,
   * and then saves the stored record with the trimmed name (if not blank)
   * and the Blocked value (if any) applied; it closes connections only
   * when that save succeeded, a manager is present and the edit blocks the
   * node; a failed select or save comes back unchanged.
   */
  lemma UpdateSpecProperties(repo: NodeRepo, mgr: Option<Manager>, id: nat, fields: NodeFields)
    ensures var o := UpdateSpec(repo, mgr, id, fields);
      o.saved.Some? <==> repo.select(id).1.None? && Dirty(fields)
    ensures var o := UpdateSpec(repo, mgr, id, fields);
      o.saved.Some? ==> o.saved.value == Edited(repo.select(id).0, fields)
    ensures var o := UpdateSpec(repo, mgr, id, fields);
      o.closed <==> o.saved.Some? && repo.save(o.saved.value).1.None? && fields.blocked == Some(true) && mgr.Some?
    ensures var o := UpdateSpec(repo, mgr, id, fields);
      o.closed ==> o.saved.value.blocked
    ensures var o := UpdateSpec(repo, mgr, id, fields);
      repo.select(id).1.Some? ==> o.err == repo.select(id).1 && o.node == repo.select(id).0
    ensures var o := UpdateSpec(repo, mgr, id, fields);
      o.saved.Some? && repo.save(o.saved.value).1.Some? ==>
        o.err == repo.save(o.saved.value).1 && o.node == repo.save(o.saved.value).0
  {
  }

  /** An unblocked, successfully updated node comes back refreshed by the manager. */
  lemma UpdateRefreshes(repo: NodeRepo, mgr: Manager, id: nat, fields: NodeFields)
    requires repo.select(id).1.None? && !Dirty(fields) && !repo.select(id).0.blocked
    ensures UpdateSpec(repo, Some(mgr), id, fields).node == Refreshed(mgr, repo.select(id).0).0
    ensures UpdateSpec(repo, Some(mgr), id, fields).err == Refreshed(mgr, repo.select(id).0).1
    ensures !UpdateSpec(repo, Some(mgr), id, fields).closed && UpdateSpec(repo, Some(mgr), id, fields).saved.None?
  {
  }

  /** The service, over its repository and the manager its provider gives (nil when there is none). */
  class NodeServiceImpl {
    const repo: NodeRepo
    const mgr: Option<Manager>

    constructor (repo: NodeRepo, mgr: Option<Manager>)
      ensures this.repo == repo && this.mgr == mgr
    {
      this.repo := repo;
      this.mgr := mgr;
    }

    /**
     * Search: the repository's answer as it is when it fails, when the
     * filter asks for blocked nodes, or when there is no manager;
     * otherwise the listed nodes, with the repository's total.
     */
    method Search(cond: NodeCondition) returns (total: int, items: seq<Node>, err: Option<string>)
      ensures var a := repo.search(cond);
        if a.err.Some? || cond.blocked == Some(true) || mgr.None? then
          total == a.total && items == a.items && err == a.err
        else
          total == a.total && items == Listed(mgr.value, a.items, cond.online) && err.None?
    {
      var answer := repo.search(cond);
      total, items, err := answer.total, answer.items, answer.err;
      if err.Some? {
        return;
      }
      if cond.blocked.Some? && cond.blocked.value {
        return;
      }
      if mgr.None? {
        return;
      }
      items := ListShown(mgr.value, items, cond.online);
    }

    /** Select: the stored record, refreshed when it is not blocked and a manager is present. */
    method Select(id: nat) returns (n: Node, err: Option<string>)
      ensures repo.select(id).1.Some? ==> n == repo.select(id).0 && err == repo.select(id).1
      ensures repo.select(id).1.None? && !repo.select(id).0.blocked && mgr.Some? ==>
        (n, err) == Refreshed(mgr.value, repo.select(id).0)
      ensures repo.select(id).1.None? && (repo.select(id).0.blocked || mgr.None?) ==>
        n == repo.select(id).0 && err.None?
    {
      var selected := repo.select(id);
      n, err := selected.0, selected.1;
      if err.None? && !n.blocked && mgr.Some? {
        n, err := SetNodeOnline(mgr.value, n);
      }
    }

    /**
     * Delete: the stored record is deleted; a node that was not blocked
     * then has its connections closed when a manager is present. A failed
     * select or delete ends the call with its error.
     */
    method Delete(id: nat) returns (err: Option<string>, closed: bool)
      ensures var (stored, selectErr) := repo.select(id);
        if selectErr.Some? then err == selectErr && !closed
        else if repo.delete(stored).Some? then err == repo.delete(stored) && !closed
        else
          (closed <==> !stored.blocked && mgr.Some?) &&
          (closed ==> (err.None? <==> mgr.value.decode(stored.nodeId).Ok?)) &&
          (closed && err.Some? ==> err.value == mgr.value.decode(stored.nodeId).error) &&
          (!closed ==> err.None?)
    {
      var selected := repo.select(id);
      var model := selected.0;
      err, closed := selected.1, false;
      if err.Some? {
        return;
      }
      err := repo.delete(model);
      if err.Some? {
        return;
      }
      if !model.blocked && mgr.Some? {
        closed := true;
        err := CloseNode(mgr.value, model);
      }
    }

    /** Create: the new record, blocked only on an explicit true, handed to the repository. */
    method Create(fields: NodeFields) returns (n: Node, err: Option<string>)
      ensures (n, err) == repo.save(CreatedModel(fields))
    {
      var model := Node(0, "", "", false, false);
      model := model.(name := fields.name);
      model := model.(nodeId := fields.nodeId);
      model := model.(blocked := fields.blocked.Some? && fields.blocked.value);
      var answer := repo.save(model);
      n, err := answer.0, answer.1;
    }

    /** Update: the stored record edited field by field, saved when dirty, then closed or refreshed. */
    method Update(id: nat, fields: NodeFields) returns (n: Node, err: Option<string>, saved: Option<Node>, closed: bool)
      ensures UpdateOutcome(n, err, saved, closed) == UpdateSpec(repo, mgr, id, fields)
    {
      var selected := repo.select(id);
      n, err := selected.0, selected.1;
      saved, closed := None, false;
      if err.Some? {
        return;
      }
      var dirty := false;
      var needClosed := false;
      var name := Trim(fields.name, ' ');
      if |name| > 0 {
        dirty := true;
        n := n.(name := name);
      }
      if fields.blocked.Some? {
        dirty := true;
        n := n.(blocked := fields.blocked.value);
        needClosed := fields.blocked.value;
      }
      if dirty {
        saved := Some(n);
        var answer := repo.save(n);
        n, err := answer.0, answer.1;
        if err.None? && needClosed && mgr.Some? {
          closed := true;
          err := CloseNode(mgr.value, n);
        }
      }
      if err.None? && !n.blocked && mgr.Some? {
        n, err := SetNodeOnline(mgr.value, n);
      }
    }
  }

  /** The loop of Search over the repository's items: each shown, those failing the Online filter dropped. */
  method ListShown(mgr: Manager, items: seq<Node>, online: Option<bool>) returns (kept: seq<Node>)
    ensures kept == Listed(mgr, items, online)
  {
    kept := [];
    var i := 0;
    while i < |items|
      invariant i <= |items|
      invariant kept + Listed(mgr, items[i..], online) == Listed(mgr, items, online)
    {
      ListedStep(mgr, items, i, online);
      ghost var rest := Listed(mgr, items[i + 1..], online);
      var item := items[i];
      if !item.blocked {
        var refreshed, _ := SetNodeOnline(mgr, item);
        item := refreshed;
      }
      assert item == Shown(mgr, items[i]);
      if online.Some? && online.value != item.online {
        assert Listed(mgr, items[i..], online) == rest;
        i := i + 1;
        continue;
      }
      assert Listed(mgr, items[i..], online) == [item] + rest;
      assert kept + [item] + rest == kept + ([item] + rest);
      kept := kept + [item];
      i := i + 1;
    }
    assert items[i..] == [];
  }

  /** One step of Listed from position i. */
  lemma ListedStep(mgr: Manager, items: seq<Node>, i: nat, online: Option<bool>)
    requires i < |items|
    ensures var n := Shown(mgr, items[i]);
      Listed(mgr, items[i..], online) == (if PassesOnline(online, n) then [n] else []) + Listed(mgr, items[i + 1..], online)
  {
    assert items[i..][1..] == items[i + 1..];
  }

  /** setNodeOnline on a node value: the node with Online set from the connection count, or the decoding error. */
  method SetNodeOnline(mgr: Manager, n: Node) returns (r: Node, err: Option<string>)
    ensures (r, err) == Refreshed(mgr, n)
  {
    r := n;
    var nodeId := mgr.decode(n.nodeId);
    err := if nodeId.Ok? then None else Some(nodeId.error);
    if nodeId.Ok? {
      var count := mgr.count(nodeId.value);
      r := r.(online := count > 0);
    }
  }

  /** closeNode: the node's connections are closed whatever the decoding gave; its error is the result. */
  method CloseNode(mgr: Manager, n: Node) returns (err: Option<string>)
    ensures err.None? <==> mgr.decode(n.nodeId).Ok?
    ensures err.Some? ==> err.value == mgr.decode(n.nodeId).error
  {
    var nodeId := mgr.decode(n.nodeId);
    err := if nodeId.Ok? then None else Some(nodeId.error);
  }
}
