// The ExtFS browser page: its navigation state (the search condition and
// the stack of parent items), the moves the breadcrumbs, the navigation
// menus and the item list make, and the links the "more" menu offers. The
// page's reducer replaces the state with whatever a handler builds, so every
// handler is a function from the old state to the new one.
module ExtFSBrowser {
  import opened Wrappers

  /** An ExtFS item as the list shows it (linkId is optional). */
  datatype Item = Item(id: string, fileType: string, name: string, linkId: Option<string>)

  /** A search condition: the file types to list, or the parent whose children to list. */
  datatype Condition = Condition(fileType: Option<seq<string>>, parentId: Option<string>)

  datatype BrowserState = BrowserState(queryKey: seq<string>, condition: Condition, defaults: Condition, parentItems: seq<Item>)

  const NodeItemRoutePath: string := "/extfs/local-node-items"

  /** The condition the page starts with: nodes and remote nodes. */
  const DefaultCondition: Condition := Condition(Some(["N", "RN"]), None)

  /** The provider's initial state. */
  function InitialState(): (s: BrowserState)
    ensures s.parentItems == [] && s.condition == s.defaults == Condition(Some(["N", "RN"]), None)
    ensures s.queryKey == ["extfs-items"]
  {
    BrowserState(["extfs-items"], DefaultCondition, DefaultCondition, [])
  }

  /** The condition that lists the children of an item. */
  function ChildrenOf(id: string): Condition {
    Condition(None, Some(id))
  }

  /** The root crumb and the menu's root entry: back to the defaults with no parents. */
  function RootClick(s: BrowserState): (t: BrowserState)
    ensures t.parentItems == [] && t.condition == s.defaults
    ensures t.queryKey == s.queryKey && t.defaults == s.defaults
  {
    s.(condition := s.defaults, parentItems := [])
  }

  /**
   * onParentClick: the given items become the parents and the last of them
   * the one listed. An empty list has no last item, and destructuring its
   * id fails.
   */
  function ParentClick(s: BrowserState, items: seq<Item>): (r: Completion<BrowserState>)
    ensures r.Panicked? <==> items == []
    ensures r.Returned? ==> r.value == s.(parentItems := items, condition := ChildrenOf(items[|items| - 1].id))
  {
    if items == [] then Panicked
    else Returned(s.(parentItems := items, condition := ChildrenOf(items[|items| - 1].id)))
  }

  /** The "..." menu of the desktop breadcrumbs: entry k of parentItems[1:-1] passes [first] ++ middle[:k+1]. */
  function MoreItemsClick(s: BrowserState, k: nat): (r: Completion<BrowserState>)
    requires |s.parentItems| > 2 && k < |s.parentItems| - 2
  {
    var p := s.parentItems;
    var middle := p[1..|p| - 1];
    ParentClick(s, [p[0]] + middle[..k + 1])
  }

  /** The first crumb of the desktop breadcrumbs, shown with more than one parent: parentItems[:1]. */
  function FirstCrumbClick(s: BrowserState): (r: Completion<BrowserState>)
    requires |s.parentItems| > 1
  {
    ParentClick(s, s.parentItems[..1])
  }

  /**
   * The desktop breadcrumbs go back to an earlier parent: the first crumb to
   * the first parent, entry k of the "..." menu to parent k + 1. Each keeps
   * the parents up to the chosen one and lists that one's children.
   */
  lemma DesktopCrumbsKeepPrefix(s: BrowserState, k: nat)
    requires |s.parentItems| > 2 && k < |s.parentItems| - 2
    ensures var p := s.parentItems;
      FirstCrumbClick(s) == Returned(s.(parentItems := p[..1], condition := ChildrenOf(p[0].id)))
    ensures var p := s.parentItems;
      MoreItemsClick(s, k) == Returned(s.(parentItems := p[..k + 2], condition := ChildrenOf(p[k + 1].id)))
  {
    var p := s.parentItems;
    var middle := p[1..|p| - 1];
    assert [p[0]] + middle[..k + 1] == p[..k + 2];
  }

  /**
   * The mobile menu as written: entry `offset` of parentItems[:-1] passes
   * parentItems[:offset], which stops one short of the chosen entry.
   */
  function MobileMenuClickAsWritten(s: BrowserState, offset: nat): (r: Completion<BrowserState>)
    requires offset < |s.parentItems| - 1
  {
    ParentClick(s, s.parentItems[..offset])
  }

  /**
   * The first entry of the mobile menu fails (it passes an empty list), and
   * every other entry opens the parent before the one chosen.
   */
  lemma MobileMenuMissesAsWritten(s: BrowserState, offset: nat)
    requires 0 < offset < |s.parentItems| - 1
    ensures MobileMenuClickAsWritten(s, 0) == Panicked
    ensures MobileMenuClickAsWritten(s, offset).Returned? &&
      MobileMenuClickAsWritten(s, offset).value.condition == ChildrenOf(s.parentItems[offset - 1].id)
  {
  }

  /** The mobile menu opening the chosen entry, parentItems[:offset+1], as the desktop "..." menu does. */
  function MobileMenuClick(s: BrowserState, offset: nat): (r: Completion<BrowserState>)
    requires offset < |s.parentItems| - 1
    ensures r == Returned(s.(parentItems := s.parentItems[..offset + 1], condition := ChildrenOf(s.parentItems[offset].id)))
  {
    ParentClick(s, s.parentItems[..offset + 1])
  }

  /** What the desktop breadcrumbs show: the first crumb past one parent, the "..." menu past two, the leaf with any. */
  datatype CrumbView = CrumbView(first: Option<Item>, more: seq<Item>, leaf: Option<Item>)

  function DesktopCrumbs(p: seq<Item>): (v: CrumbView)
    ensures v.first.Some? <==> |p| > 1
    ensures |v.more| > 0 <==> |p| > 2
    ensures v.leaf.Some? <==> |p| > 0
    ensures v.leaf.Some? ==> v.leaf.value == p[|p| - 1]
    ensures v.first.Some? ==> [v.first.value] + v.more + [v.leaf.value] == p
  {
    CrumbView(
      if |p| > 1 then Some(p[0]) else None,
      if |p| > 2 then p[1..|p| - 1] else [],
      if |p| > 0 then Some(p[|p| - 1]) else None)
  }

  /** A click on a list item: a file does nothing; anything else is entered. */
  function ItemClick(s: BrowserState, record: Item): (t: BrowserState)
    ensures record.fileType == "F" || record.fileType == "RF" ==> t == s
    ensures record.fileType != "F" && record.fileType != "RF" ==>
      t.parentItems == s.parentItems + [record] && t.condition == ChildrenOf(record.id) &&
      t.queryKey == s.queryKey && t.defaults == s.defaults
  {
    if record.fileType == "F" || record.fileType == "RF" then s
    else s.(condition := ChildrenOf(record.id), parentItems := s.parentItems + [record])
  }

  /** The condition always matches the parent stack: the defaults at the top, the last parent's children below it. */
  predicate ConditionMatches(s: BrowserState) {
    if s.parentItems == [] then s.condition == s.defaults
    else s.condition == ChildrenOf(s.parentItems[|s.parentItems| - 1].id)
  }

  /** Every move keeps the condition in step with the parent stack. */
  lemma MovesKeepConditionMatched(s: BrowserState, record: Item, items: seq<Item>)
    requires ConditionMatches(s)
    ensures ConditionMatches(InitialState())
    ensures ConditionMatches(RootClick(s))
    ensures ConditionMatches(ItemClick(s, record))
    ensures ParentClick(s, items).Returned? ==> ConditionMatches(ParentClick(s, items).value)
  {
  }

  /** Entering an item and then going back to its parent through the crumbs restores the state. */
  lemma EnterThenBack(s: BrowserState, record: Item)
    requires ConditionMatches(s) && |s.parentItems| > 0
    requires record.fileType != "F" && record.fileType != "RF"
    ensures ParentClick(ItemClick(s, record), s.parentItems) == Returned(s)
  {
  }

  function ParentAt(p: seq<Item>, back: nat): Option<Item> {
    if back < |p| then Some(p[|p| - 1 - back]) else None
  }

  /** The "more" menu's "new" link: shown when the last parent is a node. */
  function NewUrl(s: BrowserState): (u: Option<string>)
    ensures u.Some? <==> |s.parentItems| > 0 && s.parentItems[|s.parentItems| - 1].fileType == "N"
    ensures u.Some? ==> u.value == NodeItemRoutePath + "/create"
  {
    var last := ParentAt(s.parentItems, 0);
    if last.Some? && last.value.fileType == "N" then Some(NodeItemRoutePath + "/create") else None
  }

  /** A template literal's text for an optional string. */
  function Interpolate(o: Option<string>): string {
    if o.Some? then o.value else "undefined"
  }

  /** The "more" menu's settings link: shown for a folder whose own parent is a node. */
  function SettingsUrl(s: BrowserState): (u: Option<string>)
    ensures var p := s.parentItems;
      u.Some? <==> |p| > 1 && p[|p| - 1].fileType == "D" && p[|p| - 2].fileType == "N"
    ensures u.Some? ==> u.value == NodeItemRoutePath + "/" + Interpolate(s.parentItems[|s.parentItems| - 1].linkId)
  {
    var last := ParentAt(s.parentItems, 0);
    if last.Some? && last.value.fileType == "D" then
      var before := ParentAt(s.parentItems, 1);
      if before.Some? && before.value.fileType == "N" then Some(NodeItemRoutePath + "/" + Interpolate(last.value.linkId))
      else None
    else None
  }

  /** The two links never show together: the last parent is either a node or a folder. */
  lemma NewAndSettingsExclusive(s: BrowserState)
    ensures !(NewUrl(s).Some? && SettingsUrl(s).Some?)
  {
  }
}
