/**
 * The data side of app/bookmarks/BookmarkRenderer.js: a bookmark dragged
 * within or between the grids of the current tab (SortableJS `onEnd`), the
 * bookmark form, and deleting a bookmark. Every edit is made on the tab
 * object `currentTab` refers to, in place, with `splice`, `push` and index
 * assignment on its bookmark arrays.
 */
module BookmarkRenderer {
  import opened Js
  import opened Data
  import BM = BookmarkManager

  // ---------------------------------------------------------------------
  // Moving a bookmark (handleBookmarkMove)
  // ---------------------------------------------------------------------

  /** A move the handler carries out: for a tab with `groups`, both group
      indices name a group; for a tab with only direct bookmarks, the move
      stays in its single grid, index 0. */
  predicate MoveAccepted(tab: Tab, from: nat, to: nat)
  {
    if tab.groups.Some? then from < |tab.groups.value| && to < |tab.groups.value|
    else tab.bookmarks.Some? && from == 0 && to == 0
  }

  /** The array the bookmark is taken from. */
  function SourceArray(tab: Tab, from: nat, to: nat): seq<Bookmark>
    requires MoveAccepted(tab, from, to)
  {
    if tab.groups.Some? then tab.groups.value[from].bookmarks else tab.bookmarks.value
  }

  /** SortableJS reports the dragged element's own index in its grid, and
      the bookmarks come before the "+" element there, so the index names a
      bookmark of the array. */
  predicate DraggedInGrid(tab: Tab, from: nat, to: nat, oldIndex: nat)
  {
    MoveAccepted(tab, from, to) ==> oldIndex < |SourceArray(tab, from, to)|
  }

  /** `splice(oldIndex, 1)` and then `splice(newIndex, 0, moved)` on one array. */
  function Reorder(b: seq<Bookmark>, oldIndex: nat, newIndex: nat): (r: seq<Bookmark>)
    requires oldIndex < |b|
    ensures |r| == |b| && multiset(r) == multiset(b)
    ensures r[Min(newIndex, |b| - 1)] == b[oldIndex]
  {
    SpliceInsert(SpliceRemove(b, oldIndex), newIndex, b[oldIndex])
  }

  /** The tab with `groups[index].bookmarks` replaced by `b`. */
  function WithBookmarks(tab: Tab, index: nat, b: seq<Bookmark>): (r: Tab)
    requires tab.groups.Some? && index < |tab.groups.value|
    ensures r.name == tab.name && r.bookmarks == tab.bookmarks && r.groups.Some?
    ensures |r.groups.value| == |tab.groups.value|
    ensures r.groups.value[index] == Group(tab.groups.value[index].name, b)
    ensures forall g :: 0 <= g < |tab.groups.value| && g != index ==> r.groups.value[g] == tab.groups.value[g]
  {
    var gs := tab.groups.value;
    tab.(groups := Some(gs[index := gs[index].(bookmarks := b)]))
  }

  /** The tab after the bookmark at `oldIndex` of group `from` was moved to
      `newIndex` of group `to`. Within one array the two splices work on the
      same array; between groups the source loses the bookmark and the
      target gains it at `newIndex`, or at its end when `newIndex` is past it. */
  function MovedTab(tab: Tab, from: nat, to: nat, oldIndex: nat, newIndex: nat): (r: Tab)
    requires MoveAccepted(tab, from, to) && oldIndex < |SourceArray(tab, from, to)|
    ensures r.name == tab.name && r.groups.Some? == tab.groups.Some?
    ensures tab.groups.None? ==> r.bookmarks == Some(Reorder(tab.bookmarks.value, oldIndex, newIndex))
    ensures tab.groups.Some? ==>
              |r.groups.value| == |tab.groups.value| && r.bookmarks == tab.bookmarks
              && (forall g :: 0 <= g < |tab.groups.value| && g != from && g != to ==>
                    r.groups.value[g] == tab.groups.value[g])
              && r.groups.value[from].name == tab.groups.value[from].name
              && r.groups.value[to].name == tab.groups.value[to].name
    ensures tab.groups.Some? && from == to ==>
              r.groups.value[from].bookmarks == Reorder(tab.groups.value[from].bookmarks, oldIndex, newIndex)
    ensures tab.groups.Some? && from != to ==>
              r.groups.value[from].bookmarks == SpliceRemove(tab.groups.value[from].bookmarks, oldIndex)
              && r.groups.value[to].bookmarks
                 == SpliceInsert(tab.groups.value[to].bookmarks, newIndex, tab.groups.value[from].bookmarks[oldIndex])
  {
    if tab.groups.Some? then
      var gs := tab.groups.value;
      if from == to then WithBookmarks(tab, from, Reorder(gs[from].bookmarks, oldIndex, newIndex))
      else
        var moved := gs[from].bookmarks[oldIndex];
        var t1 := WithBookmarks(tab, from, SpliceRemove(gs[from].bookmarks, oldIndex));
        WithBookmarks(t1, to, SpliceInsert(gs[to].bookmarks, newIndex, moved))
    else tab.(bookmarks := Some(Reorder(tab.bookmarks.value, oldIndex, newIndex)))
  }

  /** Moving back from where the bookmark landed restores the array. */
  lemma ReorderBack(b: seq<Bookmark>, oldIndex: nat, newIndex: nat)
    requires oldIndex < |b|
    ensures Reorder(Reorder(b, oldIndex, newIndex), Min(newIndex, |b| - 1), oldIndex) == b
  {
    var c := SpliceRemove(b, oldIndex);
    InsertThenRemove(c, newIndex, b[oldIndex]);
    RemoveThenInsert(b, oldIndex);
  }

  /** A move keeps the number of bookmarks of a grouped tab. */
  lemma MoveKeepsCount(tab: Tab, from: nat, to: nat, oldIndex: nat, newIndex: nat)
    requires tab.groups.Some? && MoveAccepted(tab, from, to) && oldIndex < |SourceArray(tab, from, to)|
    ensures BookmarkCount(MovedTab(tab, from, to, oldIndex, newIndex).groups.value) == BookmarkCount(tab.groups.value)
  {
    var gs := tab.groups.value;
    var r := MovedTab(tab, from, to, oldIndex, newIndex).groups.value;
    if from == to {
      assert r == gs[from := r[from]];
      BookmarkCountUpdate(gs, from, r[from]);
    } else {
      var g1 := gs[from := r[from]];
      assert r == g1[to := r[to]];
      BookmarkCountUpdate(gs, from, r[from]);
      BookmarkCountUpdate(g1, to, r[to]);
    }
  }

  /** The index the moved bookmark lands at in its target array. */
  function Landing(tab: Tab, from: nat, to: nat, newIndex: nat): nat
    requires MoveAccepted(tab, from, to) && |SourceArray(tab, from, to)| > 0
  {
    if tab.groups.Some? && from != to then Min(newIndex, |tab.groups.value[to].bookmarks|)
    else Min(newIndex, |SourceArray(tab, from, to)| - 1)
  }

  /** A move between two groups, undone. */
  lemma MoveBackAcross(tab: Tab, from: nat, to: nat, oldIndex: nat, newIndex: nat)
    requires tab.groups.Some? && from != to
    requires MoveAccepted(tab, from, to) && oldIndex < |SourceArray(tab, from, to)|
    ensures var t := MovedTab(tab, from, to, oldIndex, newIndex);
            MoveAccepted(t, to, from) && Landing(tab, from, to, newIndex) < |SourceArray(t, to, from)|
            && MovedTab(t, to, from, Landing(tab, from, to, newIndex), oldIndex) == tab
  {
    var gs := tab.groups.value;
    var t := MovedTab(tab, from, to, oldIndex, newIndex);
    var moved := gs[from].bookmarks[oldIndex];
    var landed := Landing(tab, from, to, newIndex);
    InsertThenRemove(gs[to].bookmarks, newIndex, moved);
    RemoveThenInsert(gs[from].bookmarks, oldIndex);
    var back := MovedTab(t, to, from, landed, oldIndex);
    assert back.groups.value[to] == gs[to];
    assert back.groups.value[from] == gs[from];
    assert back.groups.value == gs;
  }

  /** A move within one group, undone. */
  lemma MoveBackWithin(tab: Tab, from: nat, oldIndex: nat, newIndex: nat)
    requires tab.groups.Some? && MoveAccepted(tab, from, from) && oldIndex < |SourceArray(tab, from, from)|
    ensures var t := MovedTab(tab, from, from, oldIndex, newIndex);
            MoveAccepted(t, from, from) && Landing(tab, from, from, newIndex) < |SourceArray(t, from, from)|
            && MovedTab(t, from, from, Landing(tab, from, from, newIndex), oldIndex) == tab
  {
    var b := tab.groups.value[from].bookmarks;
    var r := Reorder(b, oldIndex, newIndex);
    var t := WithBookmarks(tab, from, r);
    var landed := Min(newIndex, |b| - 1);
    MovedWithin(tab, from, oldIndex, newIndex);
    MovedWithin(t, from, landed, oldIndex);
    ReorderBack(b, oldIndex, newIndex);
    WithBookmarksBack(tab, from, r);
  }

  /** A move within one group of a grouped tab reorders that group's array. */
  lemma MovedWithin(tab: Tab, from: nat, oldIndex: nat, newIndex: nat)
    requires tab.groups.Some? && from < |tab.groups.value| && oldIndex < |tab.groups.value[from].bookmarks|
    ensures MoveAccepted(tab, from, from) && SourceArray(tab, from, from) == tab.groups.value[from].bookmarks
    ensures Landing(tab, from, from, newIndex) == Min(newIndex, |tab.groups.value[from].bookmarks| - 1)
    ensures MovedTab(tab, from, from, oldIndex, newIndex)
            == WithBookmarks(tab, from, Reorder(tab.groups.value[from].bookmarks, oldIndex, newIndex))
  {
  }

  /** Putting a group's old array back gives the tab back. */
  lemma WithBookmarksBack(tab: Tab, index: nat, r: seq<Bookmark>)
    requires tab.groups.Some? && index < |tab.groups.value|
    ensures WithBookmarks(WithBookmarks(tab, index, r), index, tab.groups.value[index].bookmarks) == tab
  {
    var back := WithBookmarks(WithBookmarks(tab, index, r), index, tab.groups.value[index].bookmarks);
    assert back.groups.value == tab.groups.value;
  }

  /** Dragging the bookmark back from where it landed to where it was gives
      the tab back. */
  lemma MoveBack(tab: Tab, from: nat, to: nat, oldIndex: nat, newIndex: nat)
    requires MoveAccepted(tab, from, to) && oldIndex < |SourceArray(tab, from, to)|
    ensures var t := MovedTab(tab, from, to, oldIndex, newIndex);
            MoveAccepted(t, to, from) && Landing(tab, from, to, newIndex) < |SourceArray(t, to, from)|
            && MovedTab(t, to, from, Landing(tab, from, to, newIndex), oldIndex) == tab
  {
    if tab.groups.None? {
      ReorderBack(tab.bookmarks.value, oldIndex, newIndex);
    } else if from == to {
      MoveBackWithin(tab, from, oldIndex, newIndex);
    } else {
      MoveBackAcross(tab, from, to, oldIndex, newIndex);
    }
  }

  // ---------------------------------------------------------------------
  // The bookmark form and deleting a bookmark
  // ---------------------------------------------------------------------

  /** The object the form stores, from its trimmed fields: an empty icon
      field falls back to 'icons/default.png', so the second fallback
      'data/icons/default.png' never applies, and `isImg` is always true. */
  function StoredBookmark(name: string, url: string, icon: string): (b: Bookmark)
    ensures b.name == name && b.url == url && b.isImg
    ensures b.icon != "" && (icon != "" ==> b.icon == icon)
  {
    var icon' := if icon != "" then icon else "icons/default.png";
    Bookmark(name, url, if icon' != "" then icon' else "data/icons/default.png", true)
  }

  lemma DefaultIcon(name: string, url: string)
    ensures StoredBookmark(name, url, "").icon == "icons/default.png"
  {
  }

  /** `bookmarks[index] = x`: replaces a slot, or appends when `index` is the length. */
  function Assigned(b: seq<Bookmark>, index: nat, x: Bookmark): (r: seq<Bookmark>)
    requires index <= |b|
    ensures |r| == if index < |b| then |b| else |b| + 1
    ensures r[index] == x
    ensures forall j :: 0 <= j < |b| && j != index ==> r[j] == b[j]
  {
    if index < |b| then b[index := x] else b + [x]
  }

  /** What a submitted form or a delete does to the current tab: it throws,
      leaves the tab alone, or gives it new contents. */
  datatype Effect = Throws | Untouched | Writes(tab: Tab)

  /** `tab.groups[index]` can be read: there is a tab, it has `groups` and
      the group exists. Otherwise reading from it throws. */
  predicate HasGroup(tab: Option<Tab>, index: nat)
  {
    tab.Some? && tab.value.groups.Some? && index < |tab.value.groups.value|
  }

  /** The index of an edited bookmark names a slot of its group, or the slot
      just past the end. */
  predicate EditIndexInRange(tab: Option<Tab>, isEditing: bool, editingData: EditData)
  {
    isEditing && editingData.BookmarkEdit? && HasGroup(tab, editingData.projectIndex) ==>
      editingData.systemIndex <= |tab.value.groups.value[editingData.projectIndex].bookmarks|
  }

  /** The effect of submitting `bookmark` while `tab` is current: an edit
      assigns the edited slot; an add pushes onto the group the modal was
      opened for, and does nothing when it was opened for no group. */
  function Submission(tab: Option<Tab>, bookmark: Bookmark, isEditing: bool, editingData: EditData,
                      projectIndex: Option<nat>): (e: Effect)
    requires EditIndexInRange(tab, isEditing, editingData)
    ensures e.Untouched? <==> !(isEditing && editingData.BookmarkEdit?) && projectIndex.None?
    ensures e.Throws? <==> if isEditing && editingData.BookmarkEdit? then !HasGroup(tab, editingData.projectIndex)
                           else projectIndex.Some? && !HasGroup(tab, projectIndex.value)
    ensures e.Writes? && isEditing && editingData.BookmarkEdit? ==>
              HasGroup(tab, editingData.projectIndex)
              && e.tab == WithBookmarks(tab.value, editingData.projectIndex,
                            Assigned(tab.value.groups.value[editingData.projectIndex].bookmarks,
                                     editingData.systemIndex, bookmark))
    ensures e.Writes? && !(isEditing && editingData.BookmarkEdit?) ==>
              projectIndex.Some? && HasGroup(tab, projectIndex.value)
              && e.tab == WithBookmarks(tab.value, projectIndex.value,
                            tab.value.groups.value[projectIndex.value].bookmarks + [bookmark])
  {
    if isEditing && editingData.BookmarkEdit? then
      var g := editingData.projectIndex;
      if !HasGroup(tab, g) then Throws
      else Writes(WithBookmarks(tab.value, g,
                    Assigned(tab.value.groups.value[g].bookmarks, editingData.systemIndex, bookmark)))
    else if projectIndex.None? then Untouched
    else if !HasGroup(tab, projectIndex.value) then Throws
    else Writes(WithBookmarks(tab.value, projectIndex.value,
                  tab.value.groups.value[projectIndex.value].bookmarks + [bookmark]))
  }

  /** The effect of `groups[groupIndex].bookmarks.splice(bookmarkIndex, 1)`. */
  function Deletion(tab: Option<Tab>, groupIndex: nat, bookmarkIndex: nat): (e: Effect)
    ensures e.Throws? <==> !HasGroup(tab, groupIndex)
    ensures !e.Untouched?
    ensures e.Writes? ==> HasGroup(tab, groupIndex) && HasGroup(Some(e.tab), groupIndex)
                          && e.tab.groups.value[groupIndex].bookmarks
                          == SpliceRemove(tab.value.groups.value[groupIndex].bookmarks, bookmarkIndex)
    ensures e.Writes? ==> HasGroup(tab, groupIndex)
                          && e.tab == WithBookmarks(tab.value, groupIndex,
                                        SpliceRemove(tab.value.groups.value[groupIndex].bookmarks, bookmarkIndex))
  {
    if !HasGroup(tab, groupIndex) then Throws
    else Writes(WithBookmarks(tab.value, groupIndex,
                  SpliceRemove(tab.value.groups.value[groupIndex].bookmarks, bookmarkIndex)))
  }

  /** Deleting the bookmark just added gives the tab back. */
  lemma AddThenDelete(tab: Tab, bookmark: Bookmark, g: nat)
    requires HasGroup(Some(tab), g)
    ensures var e := Submission(Some(tab), bookmark, false, NoEditData, Some(g));
            e.Writes? && Deletion(Some(e.tab), g, |tab.groups.value[g].bookmarks|) == Writes(tab)
  {
    var b := tab.groups.value[g].bookmarks;
    var e := Submission(Some(tab), bookmark, false, NoEditData, Some(g));
    assert SpliceRemove(b + [bookmark], |b|) == b;
    assert e.tab.groups.value[g := tab.groups.value[g]] == tab.groups.value;
  }

  /** Deleting a bookmark that exists removes one bookmark from the tab. */
  lemma DeletionCount(tab: Tab, g: nat, index: nat)
    requires HasGroup(Some(tab), g) && index < |tab.groups.value[g].bookmarks|
    ensures BookmarkCount(Deletion(Some(tab), g, index).tab.groups.value) + 1 == BookmarkCount(tab.groups.value)
  {
    var gs := tab.groups.value;
    var r := Deletion(Some(tab), g, index).tab.groups.value;
    assert r == gs[g := r[g]];
    BookmarkCountUpdate(gs, g, r[g]);
  }

  /** Editing a bookmark that exists keeps the number of bookmarks; adding one adds one. */
  lemma SubmissionCount(tab: Tab, bookmark: Bookmark, isEditing: bool, editingData: EditData, projectIndex: Option<nat>)
    requires EditIndexInRange(Some(tab), isEditing, editingData)
    requires Submission(Some(tab), bookmark, isEditing, editingData, projectIndex).Writes?
    ensures var r := Submission(Some(tab), bookmark, isEditing, editingData, projectIndex).tab.groups.value;
            BookmarkCount(r)
            == BookmarkCount(tab.groups.value)
               + if isEditing && editingData.BookmarkEdit?
                    && editingData.systemIndex < |tab.groups.value[editingData.projectIndex].bookmarks|
                 then 0 else 1
  {
    var gs := tab.groups.value;
    var r := Submission(Some(tab), bookmark, isEditing, editingData, projectIndex).tab.groups.value;
    var g := if isEditing && editingData.BookmarkEdit? then editingData.projectIndex else projectIndex.value;
    assert r == gs[g := r[g]];
    BookmarkCountUpdate(gs, g, r[g]);
  }

  class BookmarkRenderer {
    const manager: BM.BookmarkManager

    constructor (manager: BM.BookmarkManager)
      ensures this.manager == manager
    {
      this.manager := manager;
    }

    /** `handleBookmarkMove` for SortableJS's `onEnd`: the bookmark at
        `oldIndex` of the grid of group `fromGroupIndex` went to `newIndex`
        of the grid of group `toGroupIndex`. A drop in place, no current tab
        or a move the tab's shape does not allow changes nothing and saves
        nothing; a move is saved, and saved again by the refresh. */
    method HandleBookmarkMove(oldIndex: nat, newIndex: nat, fromGroupIndex: nat, toGroupIndex: nat)
      requires manager.Valid()
      requires manager.CurrentTabValue().Some? ==>
                 DraggedInGrid(manager.CurrentTabValue().value, fromGroupIndex, toGroupIndex, oldIndex)
      modifies manager`tabData, manager`currentTab, manager`saved
      ensures manager.Valid()
      ensures var tab := old(manager.CurrentTabValue());
              if (oldIndex == newIndex && fromGroupIndex == toGroupIndex) || tab.None?
                 || !MoveAccepted(tab.value, fromGroupIndex, toGroupIndex) then
                manager.tabData == old(manager.tabData) && manager.currentTab == old(manager.currentTab)
                && manager.saved == old(manager.saved)
              else
                var t := MovedTab(tab.value, fromGroupIndex, toGroupIndex, oldIndex, newIndex);
                manager.currentTab == BM.Retargeted(old(manager.currentTab), t)
                && manager.tabData == BM.WriteThrough(old(manager.tabData), old(manager.currentTab), t)
                && manager.saved == old(manager.saved) + [BM.ToDocument(manager.tabData, manager.tabSortOrder),
                                                          BM.ToDocument(manager.tabData, manager.tabSortOrder)]
    {
      if oldIndex == newIndex && fromGroupIndex == toGroupIndex {
        return;
      }
      var currentTab := manager.CurrentTabValue();
      if currentTab.None? || !MoveAccepted(currentTab.value, fromGroupIndex, toGroupIndex) {
        return;
      }
      manager.ReplaceCurrentTab(MovedTab(currentTab.value, fromGroupIndex, toGroupIndex, oldIndex, newIndex));
      manager.SaveData();
      manager.RefreshCurrentTab();
    }

    /** `handleBookmarkSubmit` with the bookmark form's fields and the
        modal's state (`currentProjectIndex` is the group the modal was
        opened for). Without a name or a url nothing happens; otherwise the
        form's bookmark is stored as `Submission` says and the current tab is
        refreshed, which saves, unless the store threw. */
    method HandleBookmarkSubmit(nameInput: string, urlInput: string, iconInput: string, isEditing: bool,
                                editingData: EditData, currentProjectIndex: Option<nat>) returns (outcome: Outcome)
      requires manager.Valid()
      requires EditIndexInRange(manager.CurrentTabValue(), isEditing, editingData)
      modifies manager`tabData, manager`currentTab, manager`saved
      ensures manager.Valid()
      ensures var name, url := Trim(nameInput), Trim(urlInput);
              var e := Submission(old(manager.CurrentTabValue()), StoredBookmark(name, url, Trim(iconInput)),
                                  isEditing, editingData, currentProjectIndex);
              if name == "" || url == "" || e.Throws? then
                outcome == (if name == "" || url == "" then Returned else Threw)
                && manager.tabData == old(manager.tabData) && manager.currentTab == old(manager.currentTab)
                && manager.saved == old(manager.saved)
              else
                outcome == Returned
                && manager.currentTab == (if e.Writes? then BM.Retargeted(old(manager.currentTab), e.tab)
                                          else old(manager.currentTab))
                && manager.tabData == (if e.Writes? then BM.WriteThrough(old(manager.tabData), old(manager.currentTab), e.tab)
                                       else old(manager.tabData))
                && manager.saved == old(manager.saved) + [BM.ToDocument(manager.tabData, manager.tabSortOrder)]
    {
      var name, url, icon := Trim(nameInput), Trim(urlInput), Trim(iconInput);
      if name == "" || url == "" {
        return Returned;
      }
      var bookmark := StoredBookmark(name, url, icon);
      var e := Submission(manager.CurrentTabValue(), bookmark, isEditing, editingData, currentProjectIndex);
      if e.Throws? {
        return Threw;
      }
      Apply(e);
      return Returned;
    }

    /** `deleteBookmark` for the bookmark at `bookmarkIndex` of group
        `groupIndex` of the current tab, then a refresh, which saves. */
    method DeleteBookmark(groupIndex: nat, bookmarkIndex: nat) returns (outcome: Outcome)
      requires manager.Valid()
      modifies manager`tabData, manager`currentTab, manager`saved
      ensures manager.Valid()
      ensures var e := Deletion(old(manager.CurrentTabValue()), groupIndex, bookmarkIndex);
              if e.Throws? then
                outcome == Threw
                && manager.tabData == old(manager.tabData) && manager.currentTab == old(manager.currentTab)
                && manager.saved == old(manager.saved)
              else
                outcome == Returned
                && manager.currentTab == BM.Retargeted(old(manager.currentTab), e.tab)
                && manager.tabData == BM.WriteThrough(old(manager.tabData), old(manager.currentTab), e.tab)
                && manager.saved == old(manager.saved) + [BM.ToDocument(manager.tabData, manager.tabSortOrder)]
    {
      var e := Deletion(manager.CurrentTabValue(), groupIndex, bookmarkIndex);
      if e.Throws? {
        return Threw;
      }
      Apply(e);
      return Returned;
    }

    /** Carries out an effect that did not throw: the new tab contents are
        written through `currentTab`, and the current tab is refreshed, which
        saves. */
    method Apply(e: Effect)
      requires manager.Valid() && !e.Throws?
      requires e.Writes? ==> !manager.currentTab.NoTab?
      modifies manager`tabData, manager`currentTab, manager`saved
      ensures manager.Valid()
      ensures manager.currentTab == (if e.Writes? then BM.Retargeted(old(manager.currentTab), e.tab)
                                     else old(manager.currentTab))
      ensures manager.tabData == (if e.Writes? then BM.WriteThrough(old(manager.tabData), old(manager.currentTab), e.tab)
                                  else old(manager.tabData))
      ensures manager.saved == old(manager.saved) + [BM.ToDocument(manager.tabData, manager.tabSortOrder)]
    {
      if e.Writes? {
        manager.ReplaceCurrentTab(e.tab);
      }
      manager.RefreshCurrentTab();
    }
  }
}
