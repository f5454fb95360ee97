/**
 * app/bookmarks/GroupManager.js: adding, renaming and deleting the groups of
 * the tab `currentTab` refers to. The edits happen on that tab object, so
 * they show in `tabData` when the tab is one of its tabs; each ends with a
 * refresh of the current tab, which saves.
 */
module GroupManager {
  import opened Js
  import opened Data
  import BM = BookmarkManager

  /** The tab's `groups` array, or none. */
  function Groups(tab: Tab): seq<Group>
  {
    if tab.groups.Some? then tab.groups.value else []
  }

  /** The tab after `groups.push({name, bookmarks: []})`, with `groups`
      created first when the tab has none. */
  function WithGroupAdded(tab: Tab, name: string): (r: Tab)
    ensures r.name == tab.name && r.bookmarks == tab.bookmarks && r.groups.Some?
    ensures |Groups(r)| == |Groups(tab)| + 1
    ensures forall i :: 0 <= i < |Groups(tab)| ==> Groups(r)[i] == Groups(tab)[i]
    ensures Groups(r)[|Groups(tab)|] == Group(name, [])
  {
    tab.(groups := Some(Groups(tab) + [Group(name, [])]))
  }

  /** The tab after `groups[index].name = name`. */
  function WithGroupRenamed(tab: Tab, index: nat, name: string): (r: Tab)
    requires tab.groups.Some? && index < |tab.groups.value|
    ensures r.name == tab.name && r.bookmarks == tab.bookmarks && r.groups.Some?
    ensures |Groups(r)| == |Groups(tab)|
    ensures Groups(r)[index] == Group(name, Groups(tab)[index].bookmarks)
    ensures forall i :: 0 <= i < |Groups(tab)| && i != index ==> Groups(r)[i] == Groups(tab)[i]
  {
    var gs := tab.groups.value;
    tab.(groups := Some(gs[index := gs[index].(name := name)]))
  }

  /** The tab after `groups.splice(index, 1)`. */
  function WithGroupDeleted(tab: Tab, index: nat): (r: Tab)
    requires tab.groups.Some?
    ensures r.name == tab.name && r.bookmarks == tab.bookmarks && r.groups.Some?
    ensures Groups(r) == SpliceRemove(Groups(tab), index)
  {
    tab.(groups := Some(SpliceRemove(tab.groups.value, index)))
  }

  /** The current tab after the group form was submitted with a non-empty
      name, or None when `currentTab.groups[projectIndex].name = name` throws
      because the tab has no such group. */
  function GroupSubmitted(tab: Tab, name: string, isEditing: bool, editingData: EditData): (r: Option<Tab>)
    ensures r.None? <==> isEditing && editingData.GroupEdit?
                         && (tab.groups.None? || editingData.projectIndex >= |tab.groups.value|)
    ensures r.Some? && isEditing && editingData.GroupEdit? ==>
              tab.groups.Some? && editingData.projectIndex < |tab.groups.value|
              && r.value == WithGroupRenamed(tab, editingData.projectIndex, name)
    ensures !(isEditing && editingData.GroupEdit?) ==> r == Some(WithGroupAdded(tab, name))
  {
    if isEditing && editingData.GroupEdit? then
      if tab.groups.Some? && editingData.projectIndex < |tab.groups.value|
      then Some(WithGroupRenamed(tab, editingData.projectIndex, name))
      else None
    else Some(WithGroupAdded(tab, name))
  }

  /** Adding a group adds no bookmark. */
  lemma GroupAddedCount(tab: Tab, name: string)
    ensures BookmarkCount(Groups(WithGroupAdded(tab, name))) == BookmarkCount(Groups(tab))
  {
    var gs := Groups(tab);
    BookmarkCountAppend(gs, [Group(name, [])]);
    assert [Group(name, [])][1..] == [];
  }

  /** Renaming a group keeps every group's bookmarks. */
  lemma GroupRenamedKeepsBookmarks(tab: Tab, index: nat, name: string)
    requires tab.groups.Some? && index < |tab.groups.value|
    ensures forall i :: 0 <= i < |Groups(tab)| ==>
              Groups(WithGroupRenamed(tab, index, name))[i].bookmarks == Groups(tab)[i].bookmarks
    ensures BookmarkCount(Groups(WithGroupRenamed(tab, index, name))) == BookmarkCount(Groups(tab))
  {
    var gs := tab.groups.value;
    BookmarkCountUpdate(gs, index, gs[index].(name := name));
  }

  /** Deleting a group deletes exactly its bookmarks. */
  lemma GroupDeletedCount(tab: Tab, index: nat)
    requires tab.groups.Some? && index < |tab.groups.value|
    ensures BookmarkCount(Groups(WithGroupDeleted(tab, index))) + |Groups(tab)[index].bookmarks|
            == BookmarkCount(Groups(tab))
  {
    var gs := tab.groups.value;
    assert gs == gs[..index] + [gs[index]] + gs[index + 1..];
    assert SpliceRemove(gs, index) == gs[..index] + gs[index + 1..];
    BookmarkCountAppend(gs[..index] + [gs[index]], gs[index + 1..]);
    BookmarkCountAppend(gs[..index], [gs[index]]);
    BookmarkCountAppend(gs[..index], gs[index + 1..]);
    assert [gs[index]][1..] == [];
  }

  /** Deleting the group just added gives the groups back. */
  lemma AddThenDelete(tab: Tab, name: string)
    ensures Groups(WithGroupDeleted(WithGroupAdded(tab, name), |Groups(tab)|)) == Groups(tab)
  {
    var r := WithGroupAdded(tab, name);
    assert Groups(r)[..|Groups(tab)|] == Groups(tab);
  }

  class GroupManager {
    const manager: BM.BookmarkManager

    constructor (manager: BM.BookmarkManager)
      ensures this.manager == manager
    {
      this.manager := manager;
    }

    /** `handleSubmit` of the group form with the trimmed text of the name
        field: nothing happens without a name or without a current tab;
        while a group is edited that group is renamed, otherwise a group is
        added at the end. The current tab is then refreshed, which saves. */
    method HandleSubmit(input: string, isEditing: bool, editingData: EditData) returns (outcome: Outcome)
      requires manager.Valid()
      modifies manager`tabData, manager`currentTab, manager`saved
      ensures manager.Valid()
      ensures var name := Trim(input);
              var tab := old(manager.CurrentTabValue());
              if name == "" || tab.None? || GroupSubmitted(tab.value, name, isEditing, editingData).None? then
                outcome == (if name == "" || tab.None? then Returned else Threw)
                && manager.tabData == old(manager.tabData) && manager.currentTab == old(manager.currentTab)
                && manager.saved == old(manager.saved)
              else
                var t := GroupSubmitted(tab.value, name, isEditing, editingData).value;
                outcome == Returned
                && manager.currentTab == BM.Retargeted(old(manager.currentTab), t)
                && manager.tabData == BM.WriteThrough(old(manager.tabData), old(manager.currentTab), t)
                && manager.saved == old(manager.saved) + [BM.ToDocument(manager.tabData, manager.tabSortOrder)]
    {
      var name := Trim(input);
      var currentTab := manager.CurrentTabValue();
      if name == "" || currentTab.None? {
        return Returned;
      }
      var tab := currentTab.value;
      if isEditing && editingData.GroupEdit? {
        var index := editingData.projectIndex;
        if tab.groups.None? || index >= |tab.groups.value| {
          return Threw;
        }
        manager.ReplaceCurrentTab(WithGroupRenamed(tab, index, name));
      } else {
        manager.ReplaceCurrentTab(WithGroupAdded(tab, name));
      }
      manager.RefreshCurrentTab();
      return Returned;
    }

    /** `deleteGroup` for the group at `projectIndex` of the current tab:
        `groups.splice(projectIndex, 1)`, which throws when there is no
        current tab or it has no `groups`; then the current tab is
        refreshed, which saves. */
    method DeleteGroup(projectIndex: nat) returns (outcome: Outcome)
      requires manager.Valid()
      modifies manager`tabData, manager`currentTab, manager`saved
      ensures manager.Valid()
      ensures var tab := old(manager.CurrentTabValue());
              if tab.None? || tab.value.groups.None? then
                outcome == Threw
                && manager.tabData == old(manager.tabData) && manager.currentTab == old(manager.currentTab)
                && manager.saved == old(manager.saved)
              else
                var t := WithGroupDeleted(tab.value, projectIndex);
                outcome == Returned
                && manager.currentTab == BM.Retargeted(old(manager.currentTab), t)
                && manager.tabData == BM.WriteThrough(old(manager.tabData), old(manager.currentTab), t)
                && manager.saved == old(manager.saved) + [BM.ToDocument(manager.tabData, manager.tabSortOrder)]
    {
      var currentTab := manager.CurrentTabValue();
      if currentTab.None? || currentTab.value.groups.None? {
        return Threw;
      }
      manager.ReplaceCurrentTab(WithGroupDeleted(currentTab.value, projectIndex));
      manager.RefreshCurrentTab();
      return Returned;
    }
  }
}
