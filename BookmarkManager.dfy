/**
 * The coordinating object of app/core/BookmarkManager.js: it owns `tabData`,
 * `config.tabSortOrder` and `currentTab`, reads and writes pin tokens, builds
 * the document it hands to storage and applies a document read back.
 *
 * Storage is a collaborator: each save appends the document it was given to
 * `saved` (the request body is serialised when the save is called, so the
 * entry is a snapshot of that moment). Rendering is not modelled, so the two
 * refresh operations reduce to their save.
 */
module BookmarkManager {
  import opened Js
  import opened Data

  /** The tab object `currentTab` refers to: none, the tab at an index of
      `tabData`, or a tab object that is no longer part of `tabData` (after the
      last tab was deleted, or after `tabData` was replaced by a load). */
  datatype CurrentTab = NoTab | InData(index: nat) | Detached(tab: Tab)

  /** What `getTabSortOrder(name)` returns: null when there is no map at all,
      undefined when the map has no entry for the name, or the entry. */
  datatype Lookup = NullMap | Undefined | Token(value: string)

  function LookUp(order: Option<SortOrder>, name: string): (r: Lookup)
    ensures r.NullMap? <==> order.None?
    ensures r.Token? <==> order.Some? && name in order.value
    ensures r.Token? ==> r.value == order.value[name]
  {
    if order.None? then NullMap
    else if name in order.value then Token(order.value[name])
    else Undefined
  }

  /** The map after `setTabSortOrder(name, token)`: a map is created when there
      is none; a non-empty token is stored under the name; the empty string
      (falsy) deletes the entry. */
  function SetEntry(order: Option<SortOrder>, name: string, token: string): (r: SortOrder)
    ensures token != "" ==> name in r && r[name] == token
    ensures token == "" ==> name !in r
    ensures forall n :: n != name ==> (n in r <==> order.Some? && n in order.value)
    ensures forall n :: n != name && n in r ==> r[n] == order.value[n]
  {
    var m := if order.Some? then order.value else map[];
    if token != "" then m[name := token] else m - {name}
  }

  /** `getTabSortOrder` after `setTabSortOrder(name, token)`: the token when it
      is truthy, undefined when it is empty, and what was there before for
      every other name (undefined when there was no map). */
  lemma LookUpAfterSet(order: Option<SortOrder>, name: string, token: string, other: string)
    requires other != name
    ensures LookUp(Some(SetEntry(order, name, token)), name) == if token != "" then Token(token) else Undefined
    ensures LookUp(Some(SetEntry(order, name, token)), other) == if order.Some? then LookUp(order, other) else Undefined
  {
  }

  /** Clearing an entry undoes setting it, whatever the token was. */
  lemma SetThenClear(order: Option<SortOrder>, name: string, token: string)
    ensures SetEntry(Some(SetEntry(order, name, token)), name, "") == SetEntry(order, name, "")
  {
  }

  /** Setting the same token twice is the same as setting it once. */
  lemma SetEntryIdempotent(order: Option<SortOrder>, name: string, token: string)
    ensures SetEntry(Some(SetEntry(order, name, token)), name, token) == SetEntry(order, name, token)
  {
  }

  /** The document `saveData` hands to storage. */
  function ToDocument(tabs: seq<Tab>, order: Option<SortOrder>): (d: Document)
    ensures d.tabs == Some(tabs) && d.tabSortOrder == order
  {
    Document(order, Some(tabs))
  }

  /** `tabData` and `config.tabSortOrder` after `loadDataFromFile` read
      `saved` (None when storage had nothing or failed), starting from the
      map `order`. */
  function Loaded(saved: Option<Document>, order: Option<SortOrder>): (r: (seq<Tab>, Option<SortOrder>))
    ensures saved.Some? && saved.value.tabs.Some? ==> r.0 == saved.value.tabs.value
    ensures saved.None? || saved.value.tabs.None? ==> r == ([], order)
    ensures r.1 == if saved.Some? && saved.value.tabs.Some? && saved.value.tabSortOrder.Some?
                   then saved.value.tabSortOrder else order
  {
    if saved.Some? && saved.value.tabs.Some? then
      (saved.value.tabs.value,
       if saved.value.tabSortOrder.Some? then saved.value.tabSortOrder else order)
    else ([], order)
  }

  /** Loading the document that was saved restores the tabs, and the sort
      order when one was saved; when none was, the map in place is kept. */
  lemma LoadSavedDocument(tabs: seq<Tab>, order: Option<SortOrder>, inPlace: Option<SortOrder>)
    ensures Loaded(Some(ToDocument(tabs, order)), inPlace).0 == tabs
    ensures Loaded(Some(ToDocument(tabs, order)), inPlace).1 == if order.Some? then order else inPlace
  {
  }

  /** `tabData` after the tab object `current` refers to became `tab`: the
      change shows in `tabData` only when that object is one of its tabs. */
  function WriteThrough(tabs: seq<Tab>, current: CurrentTab, tab: Tab): (r: seq<Tab>)
    requires current.InData? ==> current.index < |tabs|
    ensures |r| == |tabs|
    ensures current.InData? ==> r[current.index] == tab
    ensures forall j :: 0 <= j < |tabs| && !(current.InData? && current.index == j) ==> r[j] == tabs[j]
  {
    if current.InData? then tabs[current.index := tab] else tabs
  }

  /** `currentTab` after the tab object it refers to became `tab`: the same
      index of `tabData`, or the changed object outside it. */
  function Retargeted(current: CurrentTab, tab: Tab): (r: CurrentTab)
    requires !current.NoTab?
    ensures r.InData? <==> current.InData?
    ensures r.InData? ==> r == current
    ensures r.Detached? ==> r.tab == tab
  {
    if current.InData? then current else Detached(tab)
  }

  class BookmarkManager {
    var tabData: seq<Tab>
    var tabSortOrder: Option<SortOrder>
    var currentTab: CurrentTab
    /** Every document handed to storage, oldest first. */
    var saved: seq<Document>

    ghost predicate Valid()
      reads this
    {
      currentTab.InData? ==> currentTab.index < |tabData|
    }

    /** `new BookmarkManager(config)` before `init` runs: no tabs, no current tab. */
    constructor (tabSortOrder: Option<SortOrder>)
      ensures Valid()
      ensures this.tabSortOrder == tabSortOrder && tabData == [] && currentTab == NoTab && saved == []
    {
      this.tabSortOrder := tabSortOrder;
      tabData := [];
      currentTab := NoTab;
      saved := [];
    }

    /** The tab `currentTab` refers to, if any. */
    function CurrentTabValue(): (r: Option<Tab>)
      reads this
      requires Valid()
      ensures r.None? <==> currentTab.NoTab?
      ensures currentTab.InData? ==> r == Some(tabData[currentTab.index])
    {
      match currentTab
      case NoTab => None
      case InData(i) => Some(tabData[i])
      case Detached(t) => Some(t)
    }

    function GetTabSortOrder(name: string): (r: Lookup)
      reads this
      ensures r.NullMap? <==> tabSortOrder.None?
      ensures r.Token? <==> tabSortOrder.Some? && name in tabSortOrder.value
      ensures r.Token? ==> r.value == tabSortOrder.value[name]
    {
      LookUp(tabSortOrder, name)
    }

    method SetTabSortOrder(name: string, token: string)
      modifies this`tabSortOrder
      ensures tabSortOrder == Some(SetEntry(old(tabSortOrder), name, token))
    {
      var m := if tabSortOrder.Some? then tabSortOrder.value else map[];
      if token != "" {
        m := m[name := token];
      } else {
        m := m - {name};
      }
      tabSortOrder := Some(m);
    }

    method SaveData()
      modifies this`saved
      ensures saved == old(saved) + [ToDocument(tabData, tabSortOrder)]
    {
      saved := saved + [Document(tabSortOrder, Some(tabData))];
    }

    /** `loadDataFromFile` given what storage returned. A reference held in
        `currentTab` now points at a tab object outside `tabData`. */
    method LoadDataFromFile(savedData: Option<Document>)
      requires Valid()
      modifies this`tabData, this`tabSortOrder, this`currentTab
      ensures Valid()
      ensures (tabData, tabSortOrder) == Loaded(savedData, old(tabSortOrder))
      ensures old(currentTab).InData? ==> currentTab == Detached(old(tabData)[old(currentTab).index])
      ensures !old(currentTab).InData? ==> currentTab == old(currentTab)
    {
      if currentTab.InData? {
        currentTab := Detached(tabData[currentTab.index]);
      }
      if savedData.Some? && savedData.value.tabs.Some? {
        tabData := savedData.value.tabs.value;
        if savedData.value.tabSortOrder.Some? {
          tabSortOrder := savedData.value.tabSortOrder;
        }
      } else {
        tabData := [];
      }
    }

    /** The data part of `init`: load, then show the first tab if there is one. */
    method Init(savedData: Option<Document>)
      requires Valid()
      modifies this`tabData, this`tabSortOrder, this`currentTab
      ensures Valid()
      ensures (tabData, tabSortOrder) == Loaded(savedData, old(tabSortOrder))
      ensures |tabData| > 0 ==> currentTab == InData(0)
      ensures |tabData| == 0 && old(currentTab).InData? ==> currentTab == Detached(old(tabData)[old(currentTab).index])
      ensures |tabData| == 0 && !old(currentTab).InData? ==> currentTab == old(currentTab)
    {
      LoadDataFromFile(savedData);
      if |tabData| > 0 {
        ShowTabBookmarks(0);
      }
    }

    method ShowTabBookmarks(index: nat)
      requires index < |tabData|
      modifies this`currentTab
      ensures Valid() && currentTab == InData(index)
    {
      currentTab := InData(index);
    }

    /** Writes an edited tab object back where `currentTab` refers: an edit
        through the reference changes `tabData` only when the tab is in it. */
    method ReplaceCurrentTab(tab: Tab)
      requires Valid() && !currentTab.NoTab?
      modifies this`tabData, this`currentTab
      ensures Valid() && CurrentTabValue() == Some(tab)
      ensures currentTab == Retargeted(old(currentTab), tab)
      ensures tabData == WriteThrough(old(tabData), old(currentTab), tab)
    {
      if currentTab.InData? {
        tabData := tabData[currentTab.index := tab];
      } else {
        currentTab := Detached(tab);
      }
    }

    /** `refreshTabList`: re-render (not modelled), then save. */
    method RefreshTabList()
      modifies this`saved
      ensures saved == old(saved) + [ToDocument(tabData, tabSortOrder)]
    {
      SaveData();
    }

    /** `refreshCurrentTab`: re-render the current tab (not modelled), then save. */
    method RefreshCurrentTab()
      modifies this`saved
      ensures saved == old(saved) + [ToDocument(tabData, tabSortOrder)]
    {
      SaveData();
    }
  }
}
