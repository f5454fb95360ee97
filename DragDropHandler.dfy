/**
 * app/dragdrop/DragDropHandler.js: native HTML drag and drop of a bookmark
 * between the group grids of the current tab. The handler remembers the
 * element being dragged; a drop on a grid moves the bookmark the element
 * was rendered from into that grid's group, at the index the drop
 * placeholder gives.
 */
module DragDropHandler {
  import opened Js
  import opened Data
  import BM = BookmarkManager
  import BR = BookmarkRenderer
  import PM = PlaceholderManager

  /** The dragged bookmark element, by its `data-project-index` and
      `data-system-index` attributes: the group and the bookmark it was
      rendered from. */
  datatype Dragged = Dragged(projectIndex: nat, systemIndex: nat)

  /** What a drop does to the current tab: it throws before changing
      anything (no current tab, no `groups`, no source group), throws after
      the bookmark was taken out of its source group (no target group), or
      completes. */
  datatype DropEffect = ThrowsAtSource | ThrowsAtTarget(removed: Tab) | Dropped(tab: Tab)

  /** The rendered bookmark element names a bookmark of its group. */
  predicate RenderedFrom(tab: Option<Tab>, dragged: Dragged)
  {
    BR.HasGroup(tab, dragged.projectIndex) ==>
      dragged.systemIndex < |tab.value.groups.value[dragged.projectIndex].bookmarks|
  }

  /** `handleBookmarkDrop` on the current tab `tab`: take the bookmark out
      of the source group, then splice it into the target group at
      `insertIndex`. */
  function DropOutcome(tab: Option<Tab>, dragged: Dragged, targetProjectIndex: nat, insertIndex: nat): (e: DropEffect)
    requires RenderedFrom(tab, dragged)
    ensures e.ThrowsAtSource? <==> !BR.HasGroup(tab, dragged.projectIndex)
    ensures e.ThrowsAtTarget? <==> BR.HasGroup(tab, dragged.projectIndex) && !BR.HasGroup(tab, targetProjectIndex)
    ensures e.ThrowsAtTarget? ==>
              BR.HasGroup(Some(e.removed), dragged.projectIndex)
              && e.removed == BR.WithBookmarks(tab.value, dragged.projectIndex,
                                SpliceRemove(tab.value.groups.value[dragged.projectIndex].bookmarks, dragged.systemIndex))
  {
    var source := dragged.projectIndex;
    if !BR.HasGroup(tab, source) then ThrowsAtSource
    else
      var groups := tab.value.groups.value;
      var bookmark := groups[source].bookmarks[dragged.systemIndex];
      var removed := BR.WithBookmarks(tab.value, source, SpliceRemove(groups[source].bookmarks, dragged.systemIndex));
      if targetProjectIndex >= |groups| then ThrowsAtTarget(removed)
      else Dropped(BR.WithBookmarks(removed, targetProjectIndex,
                     SpliceInsert(removed.groups.value[targetProjectIndex].bookmarks, insertIndex, bookmark)))
  }

  /** A completed drop is the move SortableJS reports with the same indices:
      the bookmark lands at `insertIndex` of the target group, or at the end
      when the index is past it. So it keeps the number of bookmarks and
      leaves every other group alone. */
  lemma DropIsMove(tab: Tab, dragged: Dragged, targetProjectIndex: nat, insertIndex: nat)
    requires RenderedFrom(Some(tab), dragged)
    requires BR.HasGroup(Some(tab), dragged.projectIndex) && BR.HasGroup(Some(tab), targetProjectIndex)
    ensures BR.MoveAccepted(tab, dragged.projectIndex, targetProjectIndex)
            && dragged.systemIndex < |BR.SourceArray(tab, dragged.projectIndex, targetProjectIndex)|
    ensures DropOutcome(Some(tab), dragged, targetProjectIndex, insertIndex)
            == Dropped(BR.MovedTab(tab, dragged.projectIndex, targetProjectIndex, dragged.systemIndex, insertIndex))
    ensures BookmarkCount(DropOutcome(Some(tab), dragged, targetProjectIndex, insertIndex).tab.groups.value)
            == BookmarkCount(tab.groups.value)
  {
    var s, t := dragged.projectIndex, targetProjectIndex;
    var e := DropOutcome(Some(tab), dragged, t, insertIndex);
    var m := BR.MovedTab(tab, s, t, dragged.systemIndex, insertIndex);
    assert e.tab.groups.value == m.groups.value;
    BR.MoveKeepsCount(tab, s, t, dragged.systemIndex, insertIndex);
  }

  /** A drop on a missing group loses the dragged bookmark. */
  lemma ThrowAtTargetLosesBookmark(tab: Tab, dragged: Dragged, targetProjectIndex: nat, insertIndex: nat)
    requires RenderedFrom(Some(tab), dragged)
    requires DropOutcome(Some(tab), dragged, targetProjectIndex, insertIndex).ThrowsAtTarget?
    ensures BookmarkCount(DropOutcome(Some(tab), dragged, targetProjectIndex, insertIndex).removed.groups.value) + 1
            == BookmarkCount(tab.groups.value)
  {
    var s := dragged.projectIndex;
    var gs := tab.groups.value;
    var r := DropOutcome(Some(tab), dragged, targetProjectIndex, insertIndex).removed.groups.value;
    assert r == gs[s := r[s]];
    BookmarkCountUpdate(gs, s, r[s]);
  }

  class DragDropHandler {
    const manager: BM.BookmarkManager
    var draggedElement: Option<Dragged>

    constructor (manager: BM.BookmarkManager)
      ensures this.manager == manager && draggedElement == None
    {
      this.manager := manager;
      draggedElement := None;
    }

    /** `dragstart` on a bookmark element. */
    method DragStart(element: Dragged)
      modifies this`draggedElement
      ensures draggedElement == Some(element)
    {
      draggedElement := Some(element);
    }

    /** `dragend`: the placeholders are removed (not modelled) and the
        dragged element is forgotten. */
    method DragEnd()
      modifies this`draggedElement
      ensures draggedElement == None
    {
      draggedElement := None;
    }

    /** `drop` on a grid whose children are `grid` and whose group is
        `targetProjectIndex`: nothing happens unless an element is being
        dragged; the dragged element stays remembered until `dragend`. */
    method Drop(grid: seq<PM.GridElement>, targetProjectIndex: nat) returns (outcome: Outcome)
      requires manager.Valid()
      requires draggedElement.Some? ==> RenderedFrom(manager.CurrentTabValue(), draggedElement.value)
      modifies manager`tabData, manager`currentTab, manager`saved
      ensures manager.Valid()
      ensures draggedElement.None? ==>
                outcome == Returned && manager.tabData == old(manager.tabData)
                && manager.currentTab == old(manager.currentTab) && manager.saved == old(manager.saved)
      ensures draggedElement.Some? ==>
                DropApplied(DropOutcome(old(manager.CurrentTabValue()), draggedElement.value, targetProjectIndex,
                                 PM.InsertionIndex(grid)),
                            outcome, old(manager.tabData), old(manager.currentTab), old(manager.saved))
    {
      outcome := Returned;
      if draggedElement.Some? {
        outcome := HandleBookmarkDrop(grid, targetProjectIndex);
      }
    }

    /** The state the manager is left in after a drop with effect `e`:
        unchanged when the source could not be read; the source group's
        bookmark taken out, unsaved, when the target could not be read; the
        moved tab written and saved once otherwise. */
    ghost predicate DropApplied(e: DropEffect, outcome: Outcome, tabData: seq<Tab>, currentTab: BM.CurrentTab,
                                saved: seq<Document>)
      reads manager
      requires !currentTab.NoTab? || e.ThrowsAtSource?
      requires currentTab.InData? ==> currentTab.index < |tabData|
    {
      match e
      case ThrowsAtSource =>
        outcome == Threw && manager.tabData == tabData && manager.currentTab == currentTab && manager.saved == saved
      case ThrowsAtTarget(removed) =>
        outcome == Threw && manager.currentTab == BM.Retargeted(currentTab, removed)
        && manager.tabData == BM.WriteThrough(tabData, currentTab, removed) && manager.saved == saved
      case Dropped(tab) =>
        outcome == Returned && manager.currentTab == BM.Retargeted(currentTab, tab)
        && manager.tabData == BM.WriteThrough(tabData, currentTab, tab)
        && manager.saved == saved + [BM.ToDocument(manager.tabData, manager.tabSortOrder)]
    }

    /** `handleBookmarkDrop` for the remembered element and the grid it was
        dropped on; the insertion index is read from the grid's placeholder. */
    method HandleBookmarkDrop(grid: seq<PM.GridElement>, targetProjectIndex: nat) returns (outcome: Outcome)
      requires manager.Valid() && draggedElement.Some?
      requires RenderedFrom(manager.CurrentTabValue(), draggedElement.value)
      modifies manager`tabData, manager`currentTab, manager`saved
      ensures manager.Valid()
      ensures DropApplied(DropOutcome(old(manager.CurrentTabValue()), draggedElement.value, targetProjectIndex,
                               PM.InsertionIndex(grid)),
                          outcome, old(manager.tabData), old(manager.currentTab), old(manager.saved))
    {
      var insertIndex := PM.InsertionIndex(grid);
      var e := DropOutcome(manager.CurrentTabValue(), draggedElement.value, targetProjectIndex, insertIndex);
      match e
      case ThrowsAtSource =>
        return Threw;
      case ThrowsAtTarget(removed) =>
        manager.ReplaceCurrentTab(removed);
        return Threw;
      case Dropped(tab) =>
        manager.ReplaceCurrentTab(tab);
        manager.RefreshCurrentTab();
        return Returned;
    }
  }
}
