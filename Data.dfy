/**
 * The organiser's data: tabs holding groups of bookmarks (or, in the older
 * flat shape, bookmarks directly), the name-keyed sort-order map and the
 * document that is persisted.
 */
module Data {
  import opened Js

  datatype Bookmark = Bookmark(name: string, url: string, icon: string, isImg: bool)

  datatype Group = Group(name: string, bookmarks: seq<Bookmark>)

  /** A tab object as stored in `tabData`. Either array field may be missing.
      A tab read from a document normally has exactly one of them; a flat tab
      acquires `groups` when a group is added to it, and from then on the
      `groups` field is the one every consumer looks at. */
  datatype Tab = Tab(name: string, groups: Option<seq<Group>>, bookmarks: Option<seq<Bookmark>>)

  /** `config.tabSortOrder`: tab name to pin token (`"top-<k>"`, `"bottom-<k>"`). */
  type SortOrder = map<string, string>

  /** The persisted JSON document `{tabSortOrder, tabs}`; either field may be
      missing (or null) in a document read back from storage. */
  datatype Document = Document(tabSortOrder: Option<SortOrder>, tabs: Option<seq<Tab>>)

  /** How an event handler ended: it ran to its end, or it stopped at a
      TypeError thrown by reading a property of `undefined`, leaving the
      state as it was at that point. */
  datatype Outcome = Returned | Threw

  /** The modal's `editingData` while a form is submitted: empty, or what is
      being edited (indices are read from `data-*` attributes). */
  datatype EditData =
    | NoEditData
    | TabEdit(index: nat)
    | GroupEdit(projectIndex: nat)
    | BookmarkEdit(projectIndex: nat, systemIndex: nat)

  /** The tab as the view and the bookmark operations see it: grouped when it
      has a `groups` array, flat when it has only a `bookmarks` array. */
  predicate IsGrouped(tab: Tab) { tab.groups.Some? }
  predicate IsFlat(tab: Tab) { tab.groups.None? && tab.bookmarks.Some? }

  /** The number of bookmarks held by a list of groups. */
  function BookmarkCount(groups: seq<Group>): nat
  {
    if groups == [] then 0 else |groups[0].bookmarks| + BookmarkCount(groups[1..])
  }

  lemma {:induction false} BookmarkCountAppend(a: seq<Group>, b: seq<Group>)
    ensures BookmarkCount(a + b) == BookmarkCount(a) + BookmarkCount(b)
  {
    if a == [] {
      assert a + b == b;
    } else {
      assert (a + b)[1..] == a[1..] + b;
      BookmarkCountAppend(a[1..], b);
    }
  }

  /** Replacing one group changes the total by the difference of the two groups' sizes. */
  lemma BookmarkCountUpdate(groups: seq<Group>, i: nat, g: Group)
    requires i < |groups|
    ensures BookmarkCount(groups[i := g]) + |groups[i].bookmarks| == BookmarkCount(groups) + |g.bookmarks|
  {
    assert groups == groups[..i] + [groups[i]] + groups[i + 1..];
    assert groups[i := g] == groups[..i] + [g] + groups[i + 1..];
    BookmarkCountAppend(groups[..i] + [groups[i]], groups[i + 1..]);
    BookmarkCountAppend(groups[..i], [groups[i]]);
    BookmarkCountAppend(groups[..i] + [g], groups[i + 1..]);
    BookmarkCountAppend(groups[..i], [g]);
    assert BookmarkCount([g]) == |g.bookmarks| by { assert [g][1..] == []; }
    assert BookmarkCount([groups[i]]) == |groups[i].bookmarks| by { assert [groups[i]][1..] == []; }
  }
}
