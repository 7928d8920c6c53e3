// The modules page's search-result state and its reducer: "set" builds a
// new state from a search result, "setItem" writes an updated module into
// the current state's item list in place, provided the update belongs to
// the search the state holds (same version).
module ModuleResults {
  import opened Wrappers

  /** A module as the page lists it. */
  datatype ModuleItem = ModuleItem(name: string, description: string, enabled: bool)

  /** A search result tagged with the version of the search that produced it; Items may be null. */
  datatype ResultValue = ResultValue(total: int, items: Option<seq<ModuleItem>>, version: int)

  datatype Action =
    | Set(value: ResultValue)
    | SetItem(item: ModuleItem, version: int)
    | Unknown(kind: string)

  const ErrUnknownAction: string := "Unknown action"

  /** Array.prototype.findIndex by name: the first index holding that name, or -1. */
  function FindIndex(items: seq<ModuleItem>, name: string): (i: int)
    ensures -1 <= i < |items|
    ensures i >= 0 ==> items[i].name == name
    ensures forall j :: 0 <= j < |items| && (i < 0 || j < i) ==> items[j].name != name
  {
    if items == [] then -1
    else if items[0].name == name then 0
    else
      var k := FindIndex(items[1..], name);
      if k < 0 then -1 else k + 1
  }

  /**
   * The list after "setItem": the first module with the item's name is
   * replaced by it. Without one, items[-1] = item only sets a property
   * named "-1" on the array, and the list's elements stay as they were.
   */
  function ReplaceNamed(items: seq<ModuleItem>, item: ModuleItem): (r: seq<ModuleItem>)
    ensures |r| == |items|
  {
    var i := FindIndex(items, item.name);
    if i < 0 then items else items[i := item]
  }

  /** Position j holds the first module named `name`. */
  predicate FirstNamed(items: seq<ModuleItem>, name: string, j: int) {
    0 <= j < |items| && items[j].name == name && forall k :: 0 <= k < j ==> items[k].name != name
  }

  /** findIndex picks the first position holding the name. */
  lemma FindIndexIsFirst(items: seq<ModuleItem>, name: string, j: int)
    requires FirstNamed(items, name, j)
    ensures FindIndex(items, name) == j
  {
    assert items[j].name == name;
  }

  /** ReplaceNamed puts the item at the first position holding its name and keeps every other element. */
  lemma ReplaceNamedSpec(items: seq<ModuleItem>, item: ModuleItem)
    ensures forall j :: 0 <= j < |items| ==>
      ReplaceNamed(items, item)[j] == if FirstNamed(items, item.name, j) then item else items[j]
    ensures (forall j :: 0 <= j < |items| ==> items[j].name != item.name) ==> ReplaceNamed(items, item) == items
  {
    var i := FindIndex(items, item.name);
    forall j | 0 <= j < |items|
      ensures ReplaceNamed(items, item)[j] == if FirstNamed(items, item.name, j) then item else items[j]
    {
      if FirstNamed(items, item.name, j) {
        FindIndexIsFirst(items, item.name, j);
      }
    }
  }

  /** Writing the same update twice is the same as writing it once. */
  lemma ReplaceNamedIdempotent(items: seq<ModuleItem>, item: ModuleItem)
    ensures ReplaceNamed(ReplaceNamed(items, item), item) == ReplaceNamed(items, item)
  {
    var i := FindIndex(items, item.name);
    if i >= 0 {
      var once := items[i := item];
      assert FirstNamed(once, item.name, i);
      FindIndexIsFirst(once, item.name, i);
    }
  }

  /** The reducer's state: a search result and the version of the search it answers. */
  class ResultState {
    var total: int
    var items: seq<ModuleItem>
    var version: int

    /** The page's initial state: no modules, version 0. */
    constructor Initial()
      ensures total == 0 && items == [] && version == 0
    {
      total := 0;
      items := [];
      version := 0;
    }

    /** { ...value, Items: value.Items || [] } */
    constructor FromValue(value: ResultValue)
      ensures total == value.total && version == value.version
      ensures items == if value.items.Some? then value.items.value else []
    {
      total := value.total;
      items := if value.items.Some? then value.items.value else [];
      version := value.version;
    }

    /** state.Items[idx] = item, with idx the first module of that name (none: the elements stay). */
    method WriteItem(item: ModuleItem)
      modifies this
      ensures items == ReplaceNamed(old(items), item)
      ensures total == old(total) && version == old(version)
    {
      var idx := FindIndex(items, item.name);
      if idx >= 0 {
        items := items[idx := item];
      }
    }
  }

  /**
   * modulesReducer: "set" gives a new state and leaves the old one alone;
   * "setItem" gives back the same state, updated in place when its version
   * is current and untouched when it is stale; any other action throws.
   */
  method Reduce(state: ResultState, action: Action) returns (r: Result<ResultState>)
    modifies state
    ensures action.Set? ==> r.Ok? && fresh(r.value) && unchanged(state)
    ensures action.Set? ==>
      r.value.total == action.value.total && r.value.version == action.value.version &&
      r.value.items == (if action.value.items.Some? then action.value.items.value else [])
    ensures action.SetItem? ==> r == Ok(state)
    ensures action.SetItem? && action.version != old(state.version) ==> unchanged(state)
    ensures action.SetItem? && action.version == old(state.version) ==>
      state.items == ReplaceNamed(old(state.items), action.item) &&
      state.total == old(state.total) && state.version == old(state.version)
    ensures action.Unknown? ==> r == Err(ErrUnknownAction) && unchanged(state)
  {
    if action.Set? {
      var next := new ResultState.FromValue(action.value);
      return Ok(next);
    } else if action.SetItem? {
      if action.version != state.version {
        return Ok(state);
      }
      state.WriteItem(action.item);
      return Ok(state);
    } else {
      return Err(ErrUnknownAction);
    }
  }
}
