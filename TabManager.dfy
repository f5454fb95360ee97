/**
 * The data side of app/bookmarks/TabManager.js: the display order of the
 * tab list and its split into zones, renumbering the pinned zones, a tab
 * dropped into a zone, and adding, renaming and deleting tabs.
 *
 * The manager holds the state; the tab manager reads it, and changes it in
 * place as the source does (`delete` on the map, `setTabSortOrder`, `push`
 * and `splice` on `tabData`, assignment to a tab's `name`).
 */
module TabManager {
  import opened Js
  import opened Data
  import opened Sorting
  import opened TabOrder
  import BM = BookmarkManager

  /** `evt.to?.getAttribute('data-group') || targetGroup`: the zone of the
      container the tab was dropped in, or the handler's own zone when the
      container gives none. */
  function TargetZone(destination: Option<Zone>, targetGroup: Zone): (z: Zone)
    ensures destination.Some? ==> z == destination.value
    ensures destination.None? ==> z == targetGroup
  {
    if destination.Some? then destination.value else targetGroup
  }

  /** The map after the drop part of `handleSortableMove`, before the
      renumbering: a truthy token of the tab is deleted (there is nothing to
      delete without a map), and a drop into a pinned zone sets the token
      `${zone}-${newIndex + 1}`, creating the map if there is none. */
  function Moved(order: Option<SortOrder>, name: string, zone: Zone, newIndex: nat): (r: Option<SortOrder>)
    ensures r.None? <==> order.None? && zone == Alphabetical
    ensures zone != Alphabetical ==> name in r.value && r.value[name] == PinToken(zone, newIndex + 1)
    ensures zone == Alphabetical ==> ZoneOf(r, name) == Alphabetical
    ensures forall n :: n != name ==> (r.Some? && n in r.value <==> order.Some? && n in order.value)
    ensures forall n :: n != name && r.Some? && n in r.value ==> r.value[n] == order.value[n]
  {
    var cleared := if order.Some? && name in order.value && order.value[name] != ""
                   then Some(order.value - {name}) else order;
    if zone == Alphabetical then cleared
    else
      PinTokenLength(zone, newIndex + 1);
      Some(BM.SetEntry(cleared, name, PinToken(zone, newIndex + 1)))
  }

  lemma PinTokenLength(zone: Zone, k: nat)
    requires zone != Alphabetical
    ensures PinToken(zone, k) != ""
  {
    assert |PinToken(zone, k)| >= |Prefix(zone)|;
  }

  /** The new token reads back as a rank, so ranks that parsed still parse. */
  lemma MovedRanksParse(tabs: seq<Tab>, order: Option<SortOrder>, name: string, zone: Zone, newIndex: nat)
    requires order.Some? ==> RanksParse(order.value, tabs)
    ensures Moved(order, name, zone, newIndex).Some? ==> RanksParse(Moved(order, name, zone, newIndex).value, tabs)
  {
    var r := Moved(order, name, zone, newIndex);
    if r.Some? {
      forall i | 0 <= i < |tabs| && tabs[i].name in r.value && TokenZone(r.value[tabs[i].name]) != Alphabetical
        ensures RankOf(r.value[tabs[i].name]).Some?
      {
        if tabs[i].name == name {
          PinTokenReadsBack(zone, newIndex + 1);
        }
      }
    }
  }

  /** After the drop and the renumbering the dropped tab is in the zone it
      was dropped into. */
  lemma MoveLandsInZone(tabs: seq<Tab>, order: Option<SortOrder>, name: string, zone: Zone, newIndex: nat)
    requires order.Some? ==> RanksParse(order.value, tabs)
    ensures ZoneOf(Normalized(tabs, Moved(order, name, zone, newIndex)), name) == zone
  {
    var r := Moved(order, name, zone, newIndex);
    MovedRanksParse(tabs, order, name, zone, newIndex);
    if r.Some? {
      NormalizedFrame(tabs, r.value);
      if zone != Alphabetical {
        PinTokenZone(zone, newIndex + 1);
      }
    }
  }

  /** The drop and the renumbering move no other tab to another zone. */
  lemma MoveKeepsOtherZones(tabs: seq<Tab>, order: Option<SortOrder>, name: string, zone: Zone, newIndex: nat, n: string)
    requires order.Some? ==> RanksParse(order.value, tabs)
    requires n != name
    ensures ZoneOf(Normalized(tabs, Moved(order, name, zone, newIndex)), n) == ZoneOf(order, n)
  {
    var r := Moved(order, name, zone, newIndex);
    MovedRanksParse(tabs, order, name, zone, newIndex);
    if r.Some? {
      NormalizedFrame(tabs, r.value);
    }
  }

  /** When the dropped tab takes a rank another tab of the zone already has,
      the one earlier in `tabData` comes first after the renumbering. */
  lemma MoveTieFollowsTabData(tabs: seq<Tab>, order: Option<SortOrder>, zone: Zone, newIndex: nat, i: nat, j: nat)
    requires order.Some? ==> RanksParse(order.value, tabs)
    requires UniqueNames(tabs) && zone != Alphabetical
    requires i < |tabs| && j < |tabs| && i != j
    requires order.Some? && Pinned(order.value, tabs[j].name, zone)
    requires RankOf(order.value[tabs[j].name]) == Some(newIndex + 1)
    ensures var r := Normalized(tabs, Moved(order, tabs[i].name, zone, newIndex)).value;
            PinnedWithRank(r, tabs[i].name, zone) && PinnedWithRank(r, tabs[j].name, zone)
            && (RankOf(r[tabs[i].name]).value < RankOf(r[tabs[j].name]).value <==> i < j)
  {
    var m := Moved(order, tabs[i].name, zone, newIndex).value;
    MovedRanksParse(tabs, order, tabs[i].name, zone, newIndex);
    PinTokenReadsBack(zone, newIndex + 1);
    assert tabs[j].name != tabs[i].name by {
      if i < j {} else {}
    }
    assert RankOf(m[tabs[i].name]) == RankOf(m[tabs[j].name]);
    if i < j {
      NormalizedKeepsOrder(tabs, m, zone, i, j);
    } else {
      NormalizedKeepsOrder(tabs, m, zone, j, i);
    }
  }

  /** The `forEach` of `sortTabsWithCustomOrder` that puts each tab, in
      `tabs` order, into the top bucket (with its rank), the bottom bucket
      (with its rank) or the alphabetical bucket. */
  method Buckets(tabs: seq<Tab>, m: SortOrder) returns (topTabs: seq<Ranked>, alphabeticalTabs: seq<Tab>, bottomTabs: seq<Ranked>)
    requires RanksParse(m, tabs)
    ensures topTabs == Collect(tabs, m, Top)
    ensures alphabeticalTabs == ZoneTabs(tabs, Some(m), Alphabetical)
    ensures bottomTabs == Collect(tabs, m, Bottom)
  {
    topTabs, alphabeticalTabs, bottomTabs := [], [], [];
    var i := 0;
    while i < |tabs|
      invariant i <= |tabs|
      invariant topTabs == Collect(tabs[..i], m, Top)
      invariant bottomTabs == Collect(tabs[..i], m, Bottom)
      invariant alphabeticalTabs == ZoneTabs(tabs[..i], Some(m), Alphabetical)
    {
      var tab := tabs[i];
      var sortOrder := if tab.name in m then m[tab.name] else "";
      Bucket(tabs, m, i);
      if sortOrder != "" && HasTopPrefix(sortOrder) {
        var position := RankOf(sortOrder).value;
        topTabs := topTabs + [Ranked(tab, position, sortOrder)];
      } else if sortOrder != "" && HasBottomPrefix(sortOrder) {
        var position := RankOf(sortOrder).value;
        bottomTabs := bottomTabs + [Ranked(tab, position, sortOrder)];
      } else {
        alphabeticalTabs := alphabeticalTabs + [tab];
      }
      i := i + 1;
    }
    assert tabs[..i] == tabs;
  }

  /** The `forEach` of `normalizeTabPositions` that collects, in `tabs`
      order, the pinned tabs of each zone with their rank and token. */
  method PinnedRecords(tabs: seq<Tab>, m: SortOrder) returns (topTabs: seq<Ranked>, bottomTabs: seq<Ranked>)
    requires RanksParse(m, tabs)
    ensures topTabs == Collect(tabs, m, Top)
    ensures bottomTabs == Collect(tabs, m, Bottom)
  {
    topTabs, bottomTabs := [], [];
    var i := 0;
    while i < |tabs|
      invariant i <= |tabs|
      invariant topTabs == Collect(tabs[..i], m, Top)
      invariant bottomTabs == Collect(tabs[..i], m, Bottom)
    {
      var tab := tabs[i];
      var sortOrder := if tab.name in m then m[tab.name] else "";
      Bucket(tabs, m, i);
      if sortOrder != "" && HasTopPrefix(sortOrder) {
        var position := RankOf(sortOrder).value;
        topTabs := topTabs + [Ranked(tab, position, sortOrder)];
      } else if sortOrder != "" && HasBottomPrefix(sortOrder) {
        var position := RankOf(sortOrder).value;
        bottomTabs := bottomTabs + [Ranked(tab, position, sortOrder)];
      }
      i := i + 1;
    }
    assert tabs[..i] == tabs;
  }

  /** Where the `i`-th tab goes: the bucket its token's prefix names, with
      the rank read from the token, or the alphabetical bucket when its
      token is missing, falsy or of neither prefix. */
  lemma Bucket(tabs: seq<Tab>, m: SortOrder, i: nat)
    requires RanksParse(m, tabs) && i < |tabs|
    ensures var t := tabs[i];
            var s := if t.name in m then m[t.name] else "";
            (s != "" && HasTopPrefix(s) ==>
               (RankOf(s).Some?
                && Collect(tabs[..i + 1], m, Top) == Collect(tabs[..i], m, Top) + [Ranked(t, RankOf(s).value, s)]
                && Collect(tabs[..i + 1], m, Bottom) == Collect(tabs[..i], m, Bottom)
                && ZoneTabs(tabs[..i + 1], Some(m), Alphabetical) == ZoneTabs(tabs[..i], Some(m), Alphabetical)))
            && (!(s != "" && HasTopPrefix(s)) && s != "" && HasBottomPrefix(s) ==>
               (RankOf(s).Some?
                && Collect(tabs[..i + 1], m, Top) == Collect(tabs[..i], m, Top)
                && Collect(tabs[..i + 1], m, Bottom) == Collect(tabs[..i], m, Bottom) + [Ranked(t, RankOf(s).value, s)]
                && ZoneTabs(tabs[..i + 1], Some(m), Alphabetical) == ZoneTabs(tabs[..i], Some(m), Alphabetical)))
            && (!(s != "" && HasTopPrefix(s)) && !(s != "" && HasBottomPrefix(s)) ==>
               (Collect(tabs[..i + 1], m, Top) == Collect(tabs[..i], m, Top)
                && Collect(tabs[..i + 1], m, Bottom) == Collect(tabs[..i], m, Bottom)
                && ZoneTabs(tabs[..i + 1], Some(m), Alphabetical) == ZoneTabs(tabs[..i], Some(m), Alphabetical) + [t]))
  {
    CollectSnoc(tabs, m, Top, i);
    CollectSnoc(tabs, m, Bottom, i);
    ZoneTabsSnoc(tabs, Some(m), Alphabetical, i);
  }

  /** Filtering one more tab adds it to its own zone's list and to no other. */
  lemma ZoneStep(tabs: seq<Tab>, order: Option<SortOrder>, i: nat)
    requires i < |tabs|
    ensures forall zone: Zone :: ZoneTabs(tabs[..i + 1], order, zone)
              == ZoneTabs(tabs[..i], order, zone) + if ZoneOf(order, tabs[i].name) == zone then [tabs[i]] else []
  {
    forall zone: Zone
      ensures ZoneTabs(tabs[..i + 1], order, zone)
              == ZoneTabs(tabs[..i], order, zone) + if ZoneOf(order, tabs[i].name) == zone then [tabs[i]] else []
    {
      ZoneTabsSnoc(tabs, order, zone, i);
    }
  }

  class TabManager {
    const manager: BM.BookmarkManager

    constructor (manager: BM.BookmarkManager)
      ensures this.manager == manager
    {
      this.manager := manager;
    }

    /** `sortTabsWithCustomOrder`: the tabs in display order. The buckets are
        filled in `tabData` order and then sorted with the engine's stable sort. */
    method SortTabsWithCustomOrder(localeCompare: (string, string) -> int) returns (r: seq<Tab>)
      requires manager.tabSortOrder.Some? ==> RanksParse(manager.tabSortOrder.value, manager.tabData)
      requires TotalPreorder(ByName(localeCompare))
      ensures r == DisplayOrder(manager.tabData, manager.tabSortOrder, localeCompare)
    {
      var tabs := manager.tabData;
      if manager.tabSortOrder.None? {
        return Sort(tabs, ByName(localeCompare));
      }
      var topTabs, alphabeticalTabs, bottomTabs := Buckets(tabs, manager.tabSortOrder.value);
      topTabs := Sort(topTabs, ByPosition);
      bottomTabs := Sort(bottomTabs, ByPosition);
      alphabeticalTabs := Sort(alphabeticalTabs, ByName(localeCompare));
      r := Map(topTabs, TabOf) + alphabeticalTabs + Map(bottomTabs, TabOf);
    }

    /** `groupTabsByZone`: the tabs of `sortedTabs` split by zone, keeping their order. */
    method GroupTabsByZone(sortedTabs: seq<Tab>) returns (topTabs: seq<Tab>, alphabeticalTabs: seq<Tab>, bottomTabs: seq<Tab>)
      ensures topTabs == ZoneTabs(sortedTabs, manager.tabSortOrder, Top)
      ensures alphabeticalTabs == ZoneTabs(sortedTabs, manager.tabSortOrder, Alphabetical)
      ensures bottomTabs == ZoneTabs(sortedTabs, manager.tabSortOrder, Bottom)
    {
      var order := manager.tabSortOrder;
      topTabs, alphabeticalTabs, bottomTabs := [], [], [];
      var i := 0;
      while i < |sortedTabs|
        invariant i <= |sortedTabs|
        invariant topTabs == ZoneTabs(sortedTabs[..i], order, Top)
        invariant alphabeticalTabs == ZoneTabs(sortedTabs[..i], order, Alphabetical)
        invariant bottomTabs == ZoneTabs(sortedTabs[..i], order, Bottom)
      {
        var tab := sortedTabs[i];
        var sortOrder := manager.GetTabSortOrder(tab.name);
        ZoneStep(sortedTabs, order, i);
        if sortOrder.Token? && sortOrder.value != "" && HasTopPrefix(sortOrder.value) {
          topTabs := topTabs + [tab];
        } else if sortOrder.Token? && sortOrder.value != "" && HasBottomPrefix(sortOrder.value) {
          bottomTabs := bottomTabs + [tab];
        } else {
          alphabeticalTabs := alphabeticalTabs + [tab];
        }
        i := i + 1;
      }
      assert sortedTabs[..i] == sortedTabs;
    }

    /** `getTabsInGroup`: the tabs of `tabData` in a zone, in `tabData` order. */
    function GetTabsInGroup(groupType: Zone): (r: seq<Tab>)
      reads this, manager
      ensures forall t :: t in r <==> t in manager.tabData && ZoneOf(manager.tabSortOrder, t.name) == groupType
      ensures r == ZoneTabs(manager.tabData, manager.tabSortOrder, groupType)
    {
      ZoneTabsMembers(manager.tabData, manager.tabSortOrder, groupType);
      ZoneTabs(manager.tabData, manager.tabSortOrder, groupType)
    }

    /** `normalizeTabPositions`: collects the pinned tabs of both zones from
        the map as it is, sorts each zone stably by rank and gives the tabs
        of each zone the tokens `${zone}-1`, `${zone}-2`, ... in that order,
        writing only the tokens that differ. */
    method NormalizeTabPositions()
      requires manager.tabSortOrder.Some? ==> RanksParse(manager.tabSortOrder.value, manager.tabData)
      modifies manager`tabSortOrder
      ensures manager.tabSortOrder == Normalized(manager.tabData, old(manager.tabSortOrder))
    {
      if manager.tabSortOrder.None? {
        return;
      }
      var tabs := manager.tabData;
      var m := manager.tabSortOrder.value;
      var topTabs, bottomTabs := PinnedRecords(tabs, m);
      topTabs := Sort(topTabs, ByPosition);
      bottomTabs := Sort(bottomTabs, ByPosition);
      RenumberZone(topTabs, Top);
      RenumberZone(bottomTabs, Bottom);
    }

    /** The `forEach((item, index) => ...)` of `normalizeTabPositions` over the
        sorted records of one zone: the record at `index` gets the token
        `${zone}-${index + 1}` through `setTabSortOrder`, unless it was
        collected with that token. */
    method RenumberZone(items: seq<Ranked>, zone: Zone)
      requires zone != Alphabetical && manager.tabSortOrder.Some?
      modifies manager`tabSortOrder
      ensures manager.tabSortOrder == Some(Renumber(old(manager.tabSortOrder).value, items, zone, 0))
    {
      ghost var goal := Renumber(manager.tabSortOrder.value, items, zone, 0);
      var index := 0;
      while index < |items|
        invariant index <= |items|
        invariant manager.tabSortOrder.Some?
        invariant Renumber(manager.tabSortOrder.value, items[index..], zone, index) == goal
      {
        var item := items[index];
        var newPosition := PinToken(zone, index + 1);
        PinTokenLength(zone, index + 1);
        assert items[index..][1..] == items[index + 1..];
        if item.originalOrder != newPosition {
          manager.SetTabSortOrder(item.tab.name, newPosition);
        }
        index := index + 1;
      }
    }

    /** `handleSortableMove` after SortableJS dropped the tab named `tabName`
        at `newIndex` of a zone's container: without a name nothing happens;
        otherwise the tab's token is replaced, both zones are renumbered and
        the tab list is refreshed, which saves. */
    method HandleSortableMove(tabName: string, destination: Option<Zone>, targetGroup: Zone, newIndex: nat)
      requires manager.tabSortOrder.Some? ==> RanksParse(manager.tabSortOrder.value, manager.tabData)
      modifies manager`tabSortOrder, manager`saved
      ensures tabName == "" ==>
                manager.tabSortOrder == old(manager.tabSortOrder) && manager.saved == old(manager.saved)
      ensures tabName != "" ==>
                manager.tabSortOrder
                == Normalized(manager.tabData,
                              Moved(old(manager.tabSortOrder), tabName, TargetZone(destination, targetGroup), newIndex))
      ensures tabName != "" ==>
                manager.saved == old(manager.saved) + [BM.ToDocument(manager.tabData, manager.tabSortOrder)]
    {
      if tabName == "" {
        return;
      }
      var actualTargetGroup := TargetZone(destination, targetGroup);
      ghost var before := manager.tabSortOrder;
      if manager.tabSortOrder.Some? && tabName in manager.tabSortOrder.value
         && manager.tabSortOrder.value[tabName] != "" {
        manager.tabSortOrder := Some(manager.tabSortOrder.value - {tabName});
      }
      if actualTargetGroup != Alphabetical {
        manager.SetTabSortOrder(tabName, PinToken(actualTargetGroup, newIndex + 1));
      }
      assert manager.tabSortOrder == Moved(before, tabName, actualTargetGroup, newIndex);
      MovedRanksParse(manager.tabData, before, tabName, actualTargetGroup, newIndex);
      NormalizeTabPositions();
      manager.RefreshTabList();
    }

    /** `handleSubmit` of the tab form with the trimmed text of the name
        field. An empty name does nothing. While a tab is being edited, the
        tab at the edited index is renamed in place and a truthy token of
        its old name is deleted; an index with no tab makes `tab.name` throw.
        Otherwise `{name, groups: []}` is appended. Either way the tab list
        is refreshed, which saves. */
    method HandleSubmit(input: string, isEditing: bool, editingData: EditData) returns (outcome: Outcome)
      requires manager.Valid()
      modifies manager`tabData, manager`tabSortOrder, manager`saved
      ensures manager.Valid()
      ensures var name := Trim(input);
              var renaming := isEditing && editingData.TabEdit?;
              if name == "" || (renaming && editingData.index >= |old(manager.tabData)|) then
                outcome == (if name == "" then Returned else Threw)
                && manager.tabData == old(manager.tabData)
                && manager.tabSortOrder == old(manager.tabSortOrder)
                && manager.saved == old(manager.saved)
              else
                outcome == Returned
                && manager.saved == old(manager.saved) + [BM.ToDocument(manager.tabData, manager.tabSortOrder)]
                && (renaming ==>
                      var oldName := old(manager.tabData)[editingData.index].name;
                      manager.tabData == old(manager.tabData)[editingData.index := old(manager.tabData)[editingData.index].(name := name)]
                      && manager.tabSortOrder
                         == (if old(manager.tabSortOrder).Some? && oldName in old(manager.tabSortOrder).value
                               && old(manager.tabSortOrder).value[oldName] != ""
                             then Some(old(manager.tabSortOrder).value - {oldName}) else old(manager.tabSortOrder)))
                && (!renaming ==>
                      manager.tabData == old(manager.tabData) + [Tab(name, Some([]), None)]
                      && manager.tabSortOrder == old(manager.tabSortOrder))
    {
      var name := Trim(input);
      if name == "" {
        return Returned;
      }
      if isEditing && editingData.TabEdit? {
        var index := editingData.index;
        if index >= |manager.tabData| {
          return Threw;
        }
        var tab := manager.tabData[index];
        var oldName := tab.name;
        manager.tabData := manager.tabData[index := tab.(name := name)];
        if manager.tabSortOrder.Some? && oldName in manager.tabSortOrder.value
           && manager.tabSortOrder.value[oldName] != "" {
          manager.tabSortOrder := Some(manager.tabSortOrder.value - {oldName});
        }
      } else {
        manager.tabData := manager.tabData + [Tab(name, Some([]), None)];
      }
      manager.RefreshTabList();
      return Returned;
    }

    /** `deleteTab` for the tab at `tabIndex`: `splice(tabIndex, 1)` (nothing
        when the index is past the end), refresh the tab list, which saves,
        then show the first tab if there is one. The sort-order map keeps the
        deleted tab's token. When no tab is left, `currentTab` still refers
        to the tab object it referred to. */
    method DeleteTab(tabIndex: nat)
      requires manager.Valid()
      modifies manager`tabData, manager`currentTab, manager`saved
      ensures manager.Valid()
      ensures manager.tabData == SpliceRemove(old(manager.tabData), tabIndex)
      ensures manager.tabSortOrder == old(manager.tabSortOrder)
      ensures manager.saved == old(manager.saved) + [BM.ToDocument(manager.tabData, manager.tabSortOrder)]
      ensures |manager.tabData| > 0 ==> manager.currentTab == BM.InData(0)
      ensures |manager.tabData| == 0 ==>
                manager.currentTab
                == if old(manager.currentTab).InData?
                   then BM.Detached(old(manager.tabData)[old(manager.currentTab).index])
                   else old(manager.currentTab)
    {
      var before := manager.tabData;
      manager.tabData := SpliceRemove(manager.tabData, tabIndex);
      // The reference in `currentTab` follows its tab object.
      if manager.currentTab.InData? && tabIndex < |before| {
        var j := manager.currentTab.index;
        if j == tabIndex {
          manager.currentTab := BM.Detached(before[j]);
        } else if j > tabIndex {
          manager.currentTab := BM.InData(j - 1);
        }
      }
      manager.RefreshTabList();
      if |manager.tabData| > 0 {
        manager.ShowTabBookmarks(0);
      }
    }
  }
}
