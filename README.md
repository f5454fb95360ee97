# Bookmark organiser: a verified model of its data core

The bookmark organiser keeps a list of tabs (`tabData`). Each tab holds
named groups of bookmarks or, in the older flat shape, bookmarks directly.
Next to the list sits a name-keyed sort-order map (`config.tabSortOrder`)
whose values are pin tokens `"top-k"` and `"bottom-k"`. The tab list shows
three zones:

- the top zone, by rank;
- the unpinned tabs, by name;
- the bottom zone, by rank.

Dragging a tab rewrites its token and renumbers both pinned zones. Dragging
a bookmark splices it out of one bookmark array and into another. Every
edit that completes ends with the whole document `{tabSortOrder, tabs}`
being handed to storage; a handler that throws part-way saves nothing.

This project models that core in Dafny:

- **The data.** `Data`: tabs, groups and bookmarks, the document, and the
  outcome of an event handler. `Js`: the JavaScript semantics the code
  relies on (`splice`, `trim`, `parseInt`, decimal numerals).
- **The manager.** `BookmarkManager` is a class with the fields `tabData`,
  `tabSortOrder` and `currentTab`, plus `saved`, the log of every document
  handed to storage.
- **The handlers.** `TabManager`, `GroupManager`, `BookmarkRenderer` and
  `DragDropHandler` are classes whose methods change the manager's fields in
  place, as the JavaScript handlers do.
- **The sort-order engine.** `TabOrder` models it on values: zones, ranks,
  the display order and the renumbering. `Sorting` models
  `Array.prototype.sort` as a stable insertion sort and proves it sorted,
  a permutation and stable.
- **The drop index.** `PlaceholderManager` models where the drop placeholder
  goes and which index a drop reads from it. Element geometry is reduced to
  one integer midpoint per element.
- **The utilities.** `DataUtils` models them on a JavaScript value type:
  `deepCopy`, `deepMerge`, `isEmpty`, `customSort`, `findInNested` and the
  string helpers.

Some conventions run through the whole model:

- **Throws.** A handler that reads a property of `undefined` throws a
  TypeError. The model returns `Threw` and leaves the state exactly as it was
  at that point. For example, `handleBookmarkDrop` throws after the bookmark
  has left its source group, so that bookmark is lost and nothing is saved.
- **The current tab.** It is `NoTab`, `InData(i)` (the tab object at index
  `i` of `tabData`) or `Detached(tab)` (a tab object no longer in `tabData`,
  e.g. after the last tab is deleted or after a reload). An edit of a
  detached tab is not written to `tabData`.
- **Where a reader might expect otherwise, the model follows the code:**
  - adding a tab does not reject a duplicate name;
  - deleting a tab leaves its sort-order entry in the map;
  - a bookmark move within one group saves twice, once directly and once
    through `refreshCurrentTab`;
  - a drop has no no-op check: every drop that completes saves, even one
    that puts the bookmark back where it was;
  - `findInNested` returns only truthy nested matches;
  - `getInsertionIndex` gives 0 when the placeholder sits after the "+"
    element. This happens whenever the pointer is below every bookmark, so
    such a drop inserts at the front;
  - a tab dropped at a rank another pinned tab of its zone already holds
    ties with it, and the renumbering breaks the tie by `tabData` order, so
    the dropped tab can land after the slot it was dropped on
    (`TabManager.MoveTieFollowsTabData`);
  - normalizing with two tabs of the same name collects that name twice, and
    the later write wins. A zone that holds only that name at `top-1` ends at
    `top-2`, so its ranks are no longer contiguous
    (`TabOrder.DuplicateNameSkipsRank`).

## Model

| member | source | states |
|---|---|---|
| Js.SpliceRemove | app/bookmarks/BookmarkRenderer.js:297 | `splice(i, 1)` removes exactly the element at `i`, keeps the others in order, and removes nothing when `i` is past the end |
| Js.SpliceInsert | app/bookmarks/BookmarkRenderer.js:249 | `splice(i, 0, x)` puts `x` at `min(i, length)` and shifts the rest; the multiset gains exactly `x` |
| Js.RemoveThenInsert | app/bookmarks/BookmarkRenderer.js:246-249 | taking an element out and inserting it back at the same index restores the array |
| Js.InsertThenRemove | app/dragdrop/DragDropHandler.js:61-68 | inserting and then removing at the landing index restores the array |
| Js.Trim | app/bookmarks/TabManager.js:422 | the result is the part of the input after its leading white space, with only white space after it, and neither starts nor ends with white space |
| Js.LeadingWhitespace | app/bookmarks/TabManager.js:422 | the count of white-space characters the text starts with: all of them white space, and the next one not |
| Js.TrimStart | app/bookmarks/TabManager.js:422 | a suffix of the input, all dropped characters white space, no leading white space left |
| Js.TrimEnd | app/bookmarks/TabManager.js:422 | a prefix of the input, all dropped characters white space, no trailing white space left |
| Js.NatToString | app/bookmarks/TabManager.js:344 | `${index + 1}` is a non-empty decimal numeral without a leading zero |
| Js.ParseIntNatToString | app/bookmarks/TabManager.js:330 | `parseInt` reads back the number a renumbered token was written with |
| Sorting.Sort | app/bookmarks/TabManager.js:392-394 | `Array.prototype.sort` returns a permutation of its input |
| Sorting.SortSorted | app/bookmarks/TabManager.js:392-394 | with a consistent comparator the result is sorted |
| Sorting.SortStable | app/bookmarks/TabManager.js:339-340 | elements that compare equal keep their relative order (sort is stable) |
| Sorting.SortKeepsOrder | app/bookmarks/TabManager.js:339-340 | an element not greater than a later one stays before it |
| Sorting.SortedUnique | app/bookmarks/TabManager.js:339-345 | a sorted rearrangement of a strictly ascending sequence is that sequence, so sorting already renumbered records changes nothing |
| Data.BookmarkCountAppend | app/dragdrop/DragDropHandler.js:61-68 | helper for the count lemmas: the bookmark count of concatenated group lists adds up |
| Data.BookmarkCountUpdate | app/dragdrop/DragDropHandler.js:61-68 | helper for the count lemmas: replacing one group changes the count by the difference of its sizes |
| TabOrder.PinTokenReadsBack | app/bookmarks/TabManager.js:328-346 | a token `${zone}-${k}` lands in that zone with rank `k` |
| TabOrder.PinTokenInjective | app/bookmarks/TabManager.js:344-347 | distinct ranks give distinct tokens |
| TabOrder.TokenZone | app/bookmarks/TabManager.js:43-45 | `startsWith('top-')` first, then `startsWith('bottom-')`, else unpinned; PinTokenReadsBack and ZonePartition state its use |
| TabOrder.ZoneOf | app/bookmarks/TabManager.js:42-49 | the zone of a name's entry, unpinned without a map or an entry |
| TabOrder.RankOf | app/bookmarks/TabManager.js:330-333 | `parseInt` of the token after its prefix; PinTokenReadsBack states that it reads back a built token's rank |
| TabOrder.PinToken | app/bookmarks/TabManager.js:344 | the token `${zone}-${k}`; PinTokenReadsBack and PinTokenInjective state its meaning |
| TabOrder.Collect | app/bookmarks/TabManager.js:327-336 | the records `{tab, position, originalOrder}` of one zone in `tabData` order; CollectMembers and CollectTabs state its contents |
| TabOrder.ZoneTabs | app/bookmarks/TabManager.js:303-315 | the tabs of one zone in input order; ZoneTabsMembers and ZonePartition state its contents |
| TabOrder.DisplayOrder | app/bookmarks/TabManager.js:359-401 | the order `sortTabsWithCustomOrder` returns; DisplayOrderPermutation and DisplayOrderZones state its meaning |
| TabOrder.Pins | app/bookmarks/TabManager.js:338-340 | one zone's records sorted stably by rank; CollectSortKeepsOrder states the order |
| TabOrder.Renumber | app/bookmarks/TabManager.js:343-356 | the map after the `forEach` over one zone's sorted records; RenumberAssigns, RenumberKeepsOthers and RenumberKeys state its effect |
| TabOrder.NormalizedMap | app/bookmarks/TabManager.js:317-357 | the map after `normalizeTabPositions`, top zone first; NormalizedAssigns, NormalizedContiguous and NormalizedIdempotent state its meaning |
| TabOrder.ByPositionPreorder | app/bookmarks/TabManager.js:339 | the comparator `a.position - b.position` is a consistent total preorder |
| TabOrder.CollectMembers | app/bookmarks/TabManager.js:327-336 | every collected record is a tab of `tabData` pinned to the zone, with its parsed rank and original token |
| TabOrder.ZoneTabsMembers | app/bookmarks/TabManager.js:303-315 | a tab is in a zone's list exactly when it is in the input and its token puts it in that zone |
| TabOrder.ZonePartition | app/bookmarks/TabManager.js:36-53 | the three zone lists together are exactly the input, as a multiset |
| TabOrder.ZoneTabsAppend | app/bookmarks/TabManager.js:41-50 | splitting into zones commutes with concatenation, so each zone list keeps input order |
| TabOrder.CollectTabs | app/bookmarks/TabManager.js:327-336 | the tabs of the collected records are the zone's tabs in `tabData` order |
| TabOrder.CollectDistinct | app/bookmarks/TabManager.js:327-336 | with unique tab names the collected records have distinct names |
| TabOrder.DisplayOrderPermutation | app/bookmarks/TabManager.js:359-401 | the displayed order is a permutation of `tabData`: no tab lost or duplicated |
| TabOrder.DisplayOrderZones | app/bookmarks/TabManager.js:359-401 | without a map every tab is in the middle zone sorted by name; otherwise the top zone by rank, then the middle zone by name, then the bottom zone by rank |
| TabOrder.ThreePartZone | app/bookmarks/TabManager.js:397-401 | splitting the concatenated result into zones gives back each part |
| TabOrder.PinnedPartAscends | app/bookmarks/TabManager.js:392-393 | the top and bottom parts are ascending by rank |
| TabOrder.PinnedPartTies | app/bookmarks/TabManager.js:392-393 | tabs of equal rank keep their `tabData` order |
| TabOrder.PinnedPartPermutation | app/bookmarks/TabManager.js:374-393 | the pinned part of a zone holds exactly that zone's tabs |
| TabOrder.PinnedPartInZone | app/bookmarks/TabManager.js:377-382 | every tab of the pinned part carries a token of that zone |
| TabOrder.MiddleInZone | app/bookmarks/TabManager.js:383-387 | every tab of the middle part is unpinned |
| TabOrder.MiddleSorted | app/bookmarks/TabManager.js:394 | the middle part is sorted by `localeCompare` |
| TabOrder.Normalized | app/bookmarks/TabManager.js:317-320 | a missing map stays missing; an existing one stays present |
| TabOrder.RenumberKeepsOthers | app/bookmarks/TabManager.js:343-356 | renumbering touches only the entries of the records it goes over |
| TabOrder.RenumberKeys | app/bookmarks/TabManager.js:343-356 | renumbering neither adds nor removes map entries |
| TabOrder.RenumberAssigns | app/bookmarks/TabManager.js:343-348 | with distinct record names, the record at index `k` ends with the token `${zone}-${k + 1}` |
| TabOrder.RenumberFixed | app/bookmarks/TabManager.js:345 | records already numbered 1..N leave the map unchanged |
| TabOrder.RenumberPinned | app/bookmarks/TabManager.js:343-356 | renumbered tabs stay pinned to their zone with a rank that parses |
| TabOrder.PinsDisjoint | app/bookmarks/TabManager.js:329-334 | no tab is collected for both zones |
| TabOrder.NormalizedFrame | app/bookmarks/TabManager.js:317-357 | normalizing keeps the map's keys and every token's zone, and leaves unpinned entries and entries of names not in `tabData` unchanged |
| TabOrder.NormalizedEntry | app/bookmarks/TabManager.js:327-356 | an entry keeps its zone; a collected tab ends pinned with a rank that parses, any other entry is unchanged |
| TabOrder.NormalizedAssigns | app/bookmarks/TabManager.js:339-356 | with unique tab names, the `k`-th pinned tab by (rank, `tabData` order) ends with `${zone}-${k + 1}`, in both zones |
| TabOrder.NormalizedContiguous | app/bookmarks/TabManager.js:342-356 | with unique tab names, each zone's ranks after normalizing are exactly 1..N in the old rank order |
| TabOrder.NormalizedKeepsOrder | app/bookmarks/TabManager.js:338-340 | with unique tab names, a tab with a smaller rank, or an equal rank and earlier in `tabData`, ends with the smaller new rank |
| TabOrder.NormalizedRank | app/bookmarks/TabManager.js:338-356 | with unique tab names, a pinned tab's new rank is its place in the stably sorted zone, plus one |
| TabOrder.NormalizedIdempotent | app/bookmarks/TabManager.js:317-357 | with unique tab names, normalizing twice gives the same map as normalizing once |
| TabOrder.DuplicateNameSkipsRank | app/bookmarks/TabManager.js:326-348 | for any map that pins a name at `top-1`, two tabs of that name are collected twice with that token; the second write wins, and the name ends at `top-2` with every other entry kept. So with no other pinned tab, the zone's ranks are not 1..N |
| TabOrder.CollectRepinned | app/bookmarks/TabManager.js:327-336 | re-collecting after a zone-preserving rewrite gives the same tabs in the same order |
| TabOrder.CollectSortKeepsOrder | app/bookmarks/TabManager.js:339-340 | an earlier tab of no greater rank stays before a later one after the sort |
| BookmarkManager.LookUp | app/core/BookmarkManager.js:199-204 | null without a map, otherwise the entry for the name, which may be absent |
| BookmarkManager.SetEntry | app/core/BookmarkManager.js:206-215 | a truthy token is stored under the name, a falsy one deletes it, a missing map starts empty, other names untouched |
| BookmarkManager.LookUpAfterSet | app/core/BookmarkManager.js:199-215 | after `setTabSortOrder`, `getTabSortOrder` gives the token when it is truthy and undefined when it is empty, and what it gave before for every other name |
| BookmarkManager.SetThenClear | app/core/BookmarkManager.js:206-215 | helper law: setting and then clearing equals clearing |
| BookmarkManager.SetEntryIdempotent | app/core/BookmarkManager.js:206-215 | helper law: setting the same token twice equals setting it once |
| BookmarkManager.ToDocument | app/core/BookmarkManager.js:162-166 | the saved document is exactly `{tabSortOrder, tabs: tabData}` |
| BookmarkManager.Loaded | app/core/BookmarkManager.js:125-141 | a document with `tabs` replaces `tabData`, and the map only when it has one; otherwise `tabData` becomes empty and the map is kept |
| BookmarkManager.LoadSavedDocument | app/core/BookmarkManager.js:125-166 | loading a saved document restores `tabData`, and the map when it was not null |
| BookmarkManager.WriteThrough | app/bookmarks/BookmarkRenderer.js:219-297 | an edit of the current tab object shows in `tabData` at its index and nowhere else |
| BookmarkManager.Retargeted | app/core/BookmarkManager.js:182-184 | the current tab stays the same object after an in-place edit |
| BookmarkManager.BookmarkManager.constructor | app/core/BookmarkManager.js:16-24 | starts with empty `tabData`, no current tab, the configured map and nothing saved |
| BookmarkManager.BookmarkManager.CurrentTabValue | app/core/BookmarkManager.js:182-184 | the current tab object, absent only when there is none |
| BookmarkManager.BookmarkManager.GetTabSortOrder | app/core/BookmarkManager.js:199-204 | null without a map, otherwise the name's entry |
| BookmarkManager.BookmarkManager.SetTabSortOrder | app/core/BookmarkManager.js:206-215 | the map becomes `SetEntry` of the old one |
| BookmarkManager.BookmarkManager.SaveData | app/core/BookmarkManager.js:162-168 | exactly one document `{tabSortOrder, tabs}` is handed to storage |
| BookmarkManager.BookmarkManager.LoadDataFromFile | app/core/BookmarkManager.js:119-142 | the fields become `Loaded` of the stored document; the current tab object is kept, now detached |
| BookmarkManager.BookmarkManager.Init | app/core/BookmarkManager.js:80-117 | loads, then shows the first tab when there is one; with no tabs, `currentTab` is what loading left: a reference into the old `tabData` becomes detached, anything else is kept |
| BookmarkManager.BookmarkManager.ShowTabBookmarks | app/core/BookmarkManager.js:145-149 | the given tab becomes the current tab |
| BookmarkManager.BookmarkManager.ReplaceCurrentTab | app/bookmarks/BookmarkRenderer.js:245-249 | an in-place edit of the current tab object: it now reads as the new tab and `tabData` shows the edit |
| BookmarkManager.BookmarkManager.RefreshTabList | app/core/BookmarkManager.js:218-221 | always saves once |
| BookmarkManager.BookmarkManager.RefreshCurrentTab | app/core/BookmarkManager.js:223-228 | always saves once |
| TabManager.TargetZone | app/bookmarks/TabManager.js:276 | the destination container's zone wins over the handler's argument |
| TabManager.Moved | app/bookmarks/TabManager.js:279-293 | the tab's truthy token is deleted; a pinned zone sets `${zone}-${newIndex + 1}`; the alphabetical zone leaves it unpinned; other names untouched |
| TabManager.MovedRanksParse | app/bookmarks/TabManager.js:290-292 | the new token's rank parses, so a well-formed map stays well-formed |
| TabManager.MoveLandsInZone | app/bookmarks/TabManager.js:279-296 | after the move and renumbering the tab is in the zone it was dropped into |
| TabManager.MoveKeepsOtherZones | app/bookmarks/TabManager.js:279-296 | every other tab stays in its zone |
| TabManager.MoveTieFollowsTabData | app/bookmarks/TabManager.js:290-296 | with unique tab names, a rank tie with an existing tab is broken by `tabData` order |
| TabManager.Buckets | app/bookmarks/TabManager.js:374-389 | the loop fills the three buckets with the zone's records, in `tabData` order |
| TabManager.PinnedRecords | app/bookmarks/TabManager.js:327-336 | the loop collects the records of both pinned zones in `tabData` order |
| TabManager.ZoneStep | app/bookmarks/TabManager.js:41-50 | one loop step pushes the tab onto exactly its own zone's list |
| TabManager.TabManager.constructor | app/bookmarks/TabManager.js:5-7 | remembers the manager |
| TabManager.TabManager.SortTabsWithCustomOrder | app/bookmarks/TabManager.js:359-401 | returns exactly the display order, whose properties the `TabOrder` lemmas state |
| TabManager.TabManager.GroupTabsByZone | app/bookmarks/TabManager.js:36-53 | the three lists are the zone lists of the input |
| TabManager.TabManager.GetTabsInGroup | app/bookmarks/TabManager.js:303-315 | exactly the tabs of `tabData` in that zone, in order |
| TabManager.TabManager.NormalizeTabPositions | app/bookmarks/TabManager.js:317-357 | the map becomes the normalized map, or stays missing |
| TabManager.TabManager.RenumberZone | app/bookmarks/TabManager.js:343-356 | the `forEach` renumbering of one zone in place |
| TabManager.TabManager.HandleSortableMove | app/bookmarks/TabManager.js:257-301 | no tab name changes nothing; otherwise the map is the move then the renumbering, and one save follows |
| TabManager.TabManager.HandleSubmit | app/bookmarks/TabManager.js:417-456 | an empty name changes nothing; a rename changes only that tab's name and deletes the old name's truthy token; an add appends `{name, groups: []}` with no duplicate check; a stale index throws |
| TabManager.TabManager.DeleteTab | app/bookmarks/TabManager.js:459-473 | removes exactly the tab at the index, leaves the map alone, saves, and shows the first remaining tab |
| GroupManager.WithGroupAdded | app/bookmarks/GroupManager.js:20-27 | creates `groups` if missing and appends `{name, bookmarks: []}` at the end |
| GroupManager.WithGroupRenamed | app/bookmarks/GroupManager.js:15-18 | changes only that group's name |
| GroupManager.WithGroupDeleted | app/bookmarks/GroupManager.js:35-37 | removes exactly the group at the index |
| GroupManager.GroupSubmitted | app/bookmarks/GroupManager.js:15-28 | an edit of a missing group throws; an edit of an existing group renames that group only (`WithGroupRenamed`: same tab name, same group count, its bookmarks and every other group kept); anything else appends one empty group (`WithGroupAdded`) |
| GroupManager.GroupAddedCount | app/bookmarks/GroupManager.js:20-27 | adding a group adds no bookmark |
| GroupManager.GroupRenamedKeepsBookmarks | app/bookmarks/GroupManager.js:15-18 | renaming keeps every group's bookmarks |
| GroupManager.GroupDeletedCount | app/bookmarks/GroupManager.js:35-37 | deleting a group removes exactly its bookmarks |
| GroupManager.AddThenDelete | app/bookmarks/GroupManager.js:20-37 | deleting the group just added restores the groups |
| GroupManager.GroupManager.constructor | app/bookmarks/GroupManager.js:3-5 | remembers the manager |
| GroupManager.GroupManager.HandleSubmit | app/bookmarks/GroupManager.js:7-33 | nothing changes without a name or a current tab; otherwise the edit is written to the current tab and saved once |
| GroupManager.GroupManager.DeleteGroup | app/bookmarks/GroupManager.js:35-39 | throws without a current tab with `groups`; otherwise removes the group and saves once |
| BookmarkRenderer.Reorder | app/bookmarks/BookmarkRenderer.js:245-249 | a move within one array keeps its length and multiset, and lands the bookmark at `min(newIndex, length - 1)` |
| BookmarkRenderer.MoveAccepted | app/bookmarks/BookmarkRenderer.js:228-243 | the move goes ahead when both group indices name a group, or for a flat tab within its one grid |
| BookmarkRenderer.Landing | app/bookmarks/BookmarkRenderer.js:245-249 | where the moved bookmark lands, clamped by `splice`; MovedWithin and MoveBack use it to undo the move |
| BookmarkRenderer.WithBookmarks | app/bookmarks/BookmarkRenderer.js:234-235 | replaces one group's bookmarks and nothing else |
| BookmarkRenderer.MovedTab | app/bookmarks/BookmarkRenderer.js:225-249 | within one array: remove then insert; across groups: the source loses the bookmark, the target gains it at `min(newIndex, length)`, other groups unchanged |
| BookmarkRenderer.ReorderBack | app/bookmarks/BookmarkRenderer.js:245-249 | moving back from the landing index restores the array |
| BookmarkRenderer.MoveKeepsCount | app/bookmarks/BookmarkRenderer.js:245-249 | a move keeps the number of bookmarks |
| BookmarkRenderer.MoveBack | app/bookmarks/BookmarkRenderer.js:225-249 | the reverse move restores the tab |
| BookmarkRenderer.MoveBackAcross | app/bookmarks/BookmarkRenderer.js:234-249 | the reverse cross-group move restores the tab |
| BookmarkRenderer.MoveBackWithin | app/bookmarks/BookmarkRenderer.js:245-249 | the reverse move within a group restores the tab |
| BookmarkRenderer.StoredBookmark | app/bookmarks/BookmarkRenderer.js:264-272 | the bookmark has the name and url, `isImg: true`, and a non-empty icon that is the given one when given |
| BookmarkRenderer.DefaultIcon | app/bookmarks/BookmarkRenderer.js:264 | an empty icon becomes `icons/default.png` |
| BookmarkRenderer.Assigned | app/bookmarks/BookmarkRenderer.js:279 | index assignment writes exactly one slot, appending when the index is the length |
| BookmarkRenderer.Submission | app/bookmarks/BookmarkRenderer.js:274-286 | an add with no group index changes nothing; an edit or add on a missing group throws; otherwise the new tab is `WithBookmarks` of the old one with only that group's bookmarks replaced (tab name, flat bookmarks, group name and every other group kept): an edit assigns the edited slot and keeps every other slot, an add is the old list plus the bookmark at the end |
| BookmarkRenderer.Deletion | app/bookmarks/BookmarkRenderer.js:293-299 | throws on a missing group; otherwise the new tab is `WithBookmarks` of the old one with that group's list replaced by its `SpliceRemove` at the index (every other part of the tab kept) |
| BookmarkRenderer.AddThenDelete | app/bookmarks/BookmarkRenderer.js:282-297 | deleting the bookmark just added restores the tab |
| BookmarkRenderer.DeletionCount | app/bookmarks/BookmarkRenderer.js:297 | deleting removes exactly one bookmark |
| BookmarkRenderer.SubmissionCount | app/bookmarks/BookmarkRenderer.js:276-286 | an edit of an existing slot keeps the count; an add, or an edit one past the end, adds one |
| BookmarkRenderer.BookmarkRenderer.constructor | app/bookmarks/BookmarkRenderer.js:5-7 | remembers the manager |
| BookmarkRenderer.BookmarkRenderer.HandleBookmarkMove | app/bookmarks/BookmarkRenderer.js:205-258 | a no-op move, a missing tab or a rejected move changes nothing and saves nothing; otherwise the moved tab is written and saved twice |
| BookmarkRenderer.BookmarkRenderer.HandleBookmarkSubmit | app/bookmarks/BookmarkRenderer.js:260-291 | an empty name or url changes nothing; a throw changes nothing; an add with no group index writes nothing but still saves once; otherwise exactly the `Submission` tab (one group's list changed, the rest of the tab kept) is written through the current-tab reference and saved once |
| BookmarkRenderer.BookmarkRenderer.DeleteBookmark | app/bookmarks/BookmarkRenderer.js:293-299 | a missing group throws with no change; otherwise exactly the `Deletion` tab (one group's list spliced, the rest of the tab kept) is written through the current-tab reference and saved once |
| BookmarkRenderer.BookmarkRenderer.Apply | app/bookmarks/BookmarkRenderer.js:276-288 | writes the effect to the current tab, then refreshes and saves once |
| PlaceholderManager.Reduce | app/dragdrop/PlaceholderManager.js:32-41 | the fold finds an element with negative offset, the largest such, the earliest on a tie, and nothing when no offset is negative |
| PlaceholderManager.DragAfterElementIsNearestBelow | app/dragdrop/PlaceholderManager.js:29-42 | the result is exactly the nearest element below the pointer, or undefined when none is below it |
| PlaceholderManager.DragAfterElement | app/dragdrop/PlaceholderManager.js:29-42 | the index the `reduce` ends on, or none; its meaning is stated by DragAfterElementIsNearestBelow |
| PlaceholderManager.Draggables | app/dragdrop/PlaceholderManager.js:30 | exactly the positions of the bookmark elements that are not being dragged, in ascending document order |
| PlaceholderManager.WithoutPlaceholders | app/dragdrop/PlaceholderManager.js:25-27 | no placeholder is left and the result is never longer than the grid |
| PlaceholderManager.WithoutPlaceholdersAppend | app/dragdrop/PlaceholderManager.js:25-27 | removal works element by element over a concatenation, so the kept elements stay in their order |
| PlaceholderManager.NoPlaceholders | app/dragdrop/PlaceholderManager.js:25-27 | a grid without placeholders is left as it is |
| PlaceholderManager.FirstPlaceholder | app/dragdrop/PlaceholderManager.js:45 | the first placeholder in document order, or none |
| PlaceholderManager.InsertionIndex | app/dragdrop/PlaceholderManager.js:44-55 | 0 without a placeholder, 0 when the placeholder is first or follows an element that is not a bookmark (`indexOf` gives -1), and never more than the number of bookmark elements |
| PlaceholderManager.InsertionIndexAfterBookmark | app/dragdrop/PlaceholderManager.js:49-51 | a placeholder after a bookmark gives the count of bookmarks up to and including it |
| PlaceholderManager.ShownInsertionIndex | app/dragdrop/PlaceholderManager.js:9-55 | on a rendered grid the index read back is the position of the element the placeholder was put before, or 0 when it was appended after the "+" element |
| PlaceholderManager.AppendedIndex | app/dragdrop/PlaceholderManager.js:17-19 | a placeholder appended after the "+" element reads back as index 0 |
| PlaceholderManager.InsertedIndex | app/dragdrop/PlaceholderManager.js:21 | a placeholder inserted before the bookmark element at `q` of a rendered grid reads back as `q` |
| PlaceholderManager.Shown | app/dragdrop/PlaceholderManager.js:9-23 | the grid after `show`: old placeholders removed, a new one before the picked element or at the end; ShownInsertionIndex states what a drop reads from it |
| PlaceholderManager.BookmarkElements | app/dragdrop/PlaceholderManager.js:49 | the number of bookmark elements, the dragged one included; BookmarkElementsPrefix and AllBookmarks state its bounds |
| DragDropHandler.DropOutcome | app/dragdrop/DragDropHandler.js:49-72 | throws before any change without the source group; throws after removing the bookmark without the target group |
| DragDropHandler.DropIsMove | app/dragdrop/DragDropHandler.js:57-68 | a completed drop is the same move as a sortable move with the same indices, and keeps the bookmark count |
| DragDropHandler.ThrowAtTargetLosesBookmark | app/dragdrop/DragDropHandler.js:57-67 | a drop on a missing group loses exactly one bookmark |
| DragDropHandler.DragDropHandler.constructor | app/dragdrop/DragDropHandler.js:5-9 | nothing is being dragged |
| DragDropHandler.DragDropHandler.DragStart | app/dragdrop/DragDropHandler.js:12-16 | the element becomes the dragged element |
| DragDropHandler.DragDropHandler.DragEnd | app/dragdrop/DragDropHandler.js:18-22 | the dragged element is forgotten |
| DragDropHandler.DragDropHandler.Drop | app/dragdrop/DragDropHandler.js:40-46 | no dragged element: no change; otherwise the drop is applied |
| DragDropHandler.DragDropHandler.HandleBookmarkDrop | app/dragdrop/DragDropHandler.js:49-72 | applies the drop outcome at the placeholder's index; a completed drop always saves, a throw does not |
| DataUtils.IndexMapAt | app/utils/DataUtils.js:126-127 | element `i` is the property named `i` |
| DataUtils.IndexMapKey | app/utils/DataUtils.js:126-127 | every property of an array or string is named after an index |
| DataUtils.Spread | app/utils/DataUtils.js:132 | the own properties `{...v}` copies: an object's fields, one per index of an array or string, none otherwise; IndexMapAt, IndexMapKey and SpreadEmpty state them |
| DataUtils.SpreadSmaller | app/utils/DataUtils.js:132 | each own property is part of the value (or one character of a string) |
| DataUtils.SpreadEmpty | app/utils/DataUtils.js:126 | an array or string has no own keys exactly when its length is zero |
| DataUtils.IsEmpty | app/utils/DataUtils.js:124-128 | true for null and undefined, otherwise exactly when there are no own keys |
| DataUtils.DeepCopy | app/utils/DataUtils.js:5-27 | the copy equals the original |
| DataUtils.DeepMerge | app/utils/DataUtils.js:131-145 | the loop over the source's keys returns exactly the merged properties |
| DataUtils.Merged | app/utils/DataUtils.js:131-145 | the properties of `deepMerge(target, source)`; MergedKeys and MergedSourceWins state them |
| DataUtils.MergeProperties | app/utils/DataUtils.js:134-142 | the loop writes each source key's merged value over the copy of the target |
| DataUtils.MergedKeys | app/utils/DataUtils.js:132-142 | the result's keys are the union of both inputs' keys, and target-only keys keep their value |
| DataUtils.MergedSourceWins | app/utils/DataUtils.js:136-140 | a plain-object source value merges recursively into `result[key] \|\| {}`; any other value, arrays and null included, overrides |
| DataUtils.MergeIntoEmpty | app/utils/DataUtils.js:131-145 | merging into `{}` copies the source's properties |
| DataUtils.MergeWithItself | app/utils/DataUtils.js:131-145 | merging a value into itself gives its own properties |
| DataUtils.CompareIsRunOrder | app/utils/DataUtils.js:31-56 | the comparator puts negative custom orders first, then unordered names, then non-negative orders, ascending within each |
| DataUtils.Compare | app/utils/DataUtils.js:31-56 | the comparator of `customSort`; CompareIsRunOrder states its sign |
| DataUtils.CustomLePreorder | app/utils/DataUtils.js:31-56 | the comparator is consistent when `localeCompare` is |
| DataUtils.CustomSort | app/utils/DataUtils.js:30-57 | sorts the caller's array in place, returns the same array, and leaves it stably sorted by the comparator |
| DataUtils.CustomSortOrder | app/utils/DataUtils.js:30-57 | the result is a permutation, ordered by run and then by order or name |
| DataUtils.Children | app/utils/DataUtils.js:66 | the nested array searched is part of the item |
| DataUtils.First | app/utils/DataUtils.js:60-74 | the first matching item, or none when no item matches |
| DataUtils.FindInNested | app/utils/DataUtils.js:60-74 | `findInNested` from the first item; FindIsFirstInPreorder states what it finds |
| DataUtils.FindFrom | app/utils/DataUtils.js:60-74 | the search from one item on, each item tested before its children; FindIsFirstInPreorder states what it finds |
| DataUtils.FindIsFirstInPreorder | app/utils/DataUtils.js:60-74 | the search returns the first match of a preorder walk of the tree, and null when nothing matches |
| DataUtils.SeparatorsToSpaces | app/utils/DataUtils.js:150 | each `_` and `-` becomes a space and every other character is kept, at the same position |
| DataUtils.CapitalizeWords | app/utils/DataUtils.js:151 | a word character at a word start is upper-cased and every other character is kept, at the same position |
| DataUtils.CapitalizeWordsCapitalizes | app/utils/DataUtils.js:151 | no word starts with a lower-case letter |
| DataUtils.TrimKeepsCapitalized | app/utils/DataUtils.js:151-152 | trimming keeps every word capitalized |
| DataUtils.FormatDisplayName | app/utils/DataUtils.js:148-153 | the result is the separators-to-spaces, capitalised text with its leading and trailing white space cut off; it has no `_` or `-`, no white space at either end, and no word starting lower-case |
| DataUtils.FormatDisplayNameIdempotent | app/utils/DataUtils.js:148-153 | formatting a formatted name changes nothing |
| DataUtils.AfterLast | app/utils/DataUtils.js:157 | `split(c).pop()` is the suffix after the last `c`, or the whole text |
| DataUtils.FilenameFromPath | app/utils/DataUtils.js:156-158 | a suffix with neither `/` nor `\`, preceded by one of them unless it is the whole path, which it is when the path has neither |
| DataUtils.LastIndexOf | app/utils/DataUtils.js:162 | the last index of the character, or -1 |
| DataUtils.RemoveExtension | app/utils/DataUtils.js:161-163 | the non-empty text before the last `.`, or the whole name |
| DataUtils.RemoveAddedExtension | app/utils/DataUtils.js:161-163 | removing an added extension gives the name back |
| DataUtils.HiddenFileKept | app/utils/DataUtils.js:161-163 | a name whose only dot leads is kept |

## Left out

- I/O and the DOM are not modelled. This covers:
  - rendering, `populateTabList` and the tab zones' drop areas;
  - the modal, which is passed in as `isEditing`, `editingData` and the group index;
  - reading form fields and `data-*` attributes, which are passed in as values;
  - `FileStorageManager`, modelled as the `saved` log of documents;
  - logging.
- Timing is not modelled: saves are not awaited, `setTimeout`, and SortableJS possibly reporting one drop twice. A save is the moment the document is handed over.
- `show` and `removeAll` in `PlaceholderManager` are modelled only for where the placeholder lands (`Shown`), on one grid; element geometry is one integer midpoint per element, with no floating point.
- `setupDragAndDrop` and `setupDropZone` are modelled as the handlers they register (`DragStart`, `DragEnd`, `Drop`). The code that would register them on elements is not part of this model.
- `localeCompare` is an abstract function; Unicode collation is left out.
- Sort-order map values are strings. The shipped default configurations put numbers there, where `startsWith` would throw.
- `isValidUrl`, `sanitizeHtml`, `generateId`, `debounce` and `throttle` depend on a URL parser, the DOM, the clock, randomness or timers.
- The `Date` branch of `deepCopy` is not modelled.
- Values are compared structurally, so object identity, aliasing and key order are not modelled.
- Numbers in `DataUtils` are integers.
- DataUtils.DeepCopy: states only that the copy equals the original. Values have no identity in this model, so the point of `deepCopy`, that the copy shares no object with the original, is not captured.
- `customSort`'s `defaultSort` argument is modelled as a flag for `'alphabetical'`.
- BookmarkManager.LookUp: the sort-order map is a Dafny map, so a name inherited from `Object.prototype` (`toString`, `constructor`, `valueOf`, ...) with no entry of its own is absent here. In the source, `tabSortOrder[name]` on a plain object returns the inherited function for such a name.
- BookmarkManager.BookmarkManager.GetTabSortOrder: returns `Undefined` for a name inherited from `Object.prototype`, where the source returns the inherited function (app/core/BookmarkManager.js:203).
- TabManager.TabManager.GroupTabsByZone: for a tab named after an `Object.prototype` member with no entry of its own, the source's `sortOrder.startsWith` is not a function and throws a TypeError (app/bookmarks/TabManager.js:43), so `populateTabList` throws too. The model puts the tab in the unpinned zone.
- TabManager.TabManager.GetTabsInGroup: the same TypeError at app/bookmarks/TabManager.js:308-312 is not modelled; the model counts the tab as unpinned.
- TabManager.TabManager.SortTabsWithCustomOrder: requires every pinned rank to parse and `localeCompare` to be a consistent preorder. A NaN rank or an inconsistent comparator leaves the order of `Array.prototype.sort` unspecified. A tab named after an `Object.prototype` member is unpinned here, as in the source, whose `typeof` test skips the inherited function.
- TabManager.TabManager.NormalizeTabPositions: requires every pinned rank of a tab to parse, for the same reason. The TypeError the source throws for a tab named after an `Object.prototype` member (app/bookmarks/TabManager.js:329) is not modelled.
- TabManager.TabManager.HandleSortableMove: requires every pinned rank of a tab to parse, for the same reason. For a tab named after an `Object.prototype` member, the source throws inside `normalizeTabPositions` after the map was edited and never reaches the save of `refreshTabList`; the model completes the move and saves once.
- TabOrder.RankOf: ranks are unbounded integers. `parseInt` returns a double, so in the source two different ranks above 2^53 can compare equal; the model orders them apart.
- TabOrder.NormalizedIdempotent: requires unique tab names. With a duplicate name, the second renumbering reads records whose original token is stale.
- TabOrder.RenumberAssigns: requires distinct record names. When two records share a name, the later write wins and the earlier record's token is lost.
- TabOrder.NormalizedAssigns: requires unique tab names, which the source does not enforce. With a duplicate name, the zone's ranks are not contiguous (TabOrder.DuplicateNameSkipsRank).
- TabOrder.NormalizedContiguous: requires unique tab names. With a duplicate name, the zone's ranks are not contiguous: `[A, A]` with `{A: "top-1"}` ends as `{A: "top-2"}` (TabOrder.DuplicateNameSkipsRank).
- TabOrder.NormalizedKeepsOrder: requires unique tab names. With a duplicate name, the two records of that name share one entry, so their order cannot be read from the map.
- TabOrder.NormalizedRank: requires unique tab names. With a duplicate name, the entry holds the rank of the name's last record, not its first.
- TabManager.MoveTieFollowsTabData: requires unique tab names, for the same reason.
- BookmarkRenderer.BookmarkRenderer.HandleBookmarkMove: requires the old index to name a bookmark of the source array. SortableJS reports the dragged element's own index.
- BookmarkRenderer.BookmarkRenderer.HandleBookmarkSubmit: requires an edited slot to be in the group or just past its end. An index further out would leave holes in the array.
- DragDropHandler.DragDropHandler.HandleBookmarkDrop: requires the dragged element's indices to name a bookmark of the current tab, as they do for an element rendered from it.
- DragDropHandler.DragDropHandler.Drop: carries the same requirement.
- DataUtils.FindIsFirstInPreorder: stated for trees without null or undefined items, on which the source's property read would throw, and whose matches are truthy. A falsy match is skipped by the source.
- DataUtils.CustomSortOrder: requires `localeCompare` to be a consistent preorder.
