/**
 * app/dragdrop/PlaceholderManager.js: where the drop placeholder goes in a
 * bookmark grid while a bookmark is dragged over it, and which index a drop
 * there inserts at. The geometry is abstracted to one integer per element,
 * the vertical midpoint of its box; the pointer is an integer `y`.
 */
module PlaceholderManager {
  import opened Js

  /** A child of a bookmark grid, in document order: a bookmark element
      (`dragging` is set on the element being dragged), the "+" element
      (classes `bookmark add-bookmark`) or a drop placeholder. */
  datatype GridElement = BookmarkElement(dragging: bool, mid: int) | AddButton | DropPlaceholder

  // ---------------------------------------------------------------------
  // getDragAfterElement
  // ---------------------------------------------------------------------

  /** The accumulator of the `reduce`: nothing found yet (offset minus
      infinity), or the best element so far with its offset. */
  datatype Closest = NoneYet | Found(offset: int, element: nat)

  /** One step of the `reduce` for the element at `index` with midpoint `mid`. */
  function Step(closest: Closest, index: nat, mid: int, y: int): Closest
  {
    var offset := y - mid;
    if offset < 0 && (closest.NoneYet? || offset > closest.offset) then Found(offset, index) else closest
  }

  /** The `reduce` over the midpoints of the candidate elements, left to right. */
  function Reduce(mids: seq<int>, y: int): (c: Closest)
    ensures c.Found? ==> c.element < |mids| && c.offset == y - mids[c.element] && c.offset < 0
    ensures c.Found? ==> forall j :: 0 <= j < |mids| && y - mids[j] < 0 ==> y - mids[j] <= c.offset
    ensures c.Found? ==> forall j :: 0 <= j < c.element && y - mids[j] < 0 ==> y - mids[j] < c.offset
    ensures c.NoneYet? <==> forall j :: 0 <= j < |mids| ==> y - mids[j] >= 0
  {
    if |mids| == 0 then NoneYet
    else Step(Reduce(mids[..|mids| - 1], y), |mids| - 1, mids[|mids| - 1], y)
  }

  /** The element the placeholder goes before: the nearest one whose
      midpoint is below the pointer, as an index into `mids`. */
  function DragAfterElement(mids: seq<int>, y: int): Option<nat>
  {
    var c := Reduce(mids, y);
    if c.Found? then Some(c.element) else None
  }

  /** The element at `k` is below the pointer, no element below the pointer
      is nearer, and no earlier one is as near. */
  predicate NearestBelow(mids: seq<int>, y: int, k: nat)
  {
    k < |mids| && y - mids[k] < 0
    && (forall j :: 0 <= j < |mids| && y - mids[j] < 0 ==> y - mids[j] <= y - mids[k])
    && (forall j :: 0 <= j < k && y - mids[j] < 0 ==> y - mids[j] < y - mids[k])
  }

  /** `getDragAfterElement` returns exactly the nearest element below the
      pointer, the earliest on a tie, and undefined when no element is below it. */
  lemma DragAfterElementIsNearestBelow(mids: seq<int>, y: int, k: nat)
    ensures DragAfterElement(mids, y) == Some(k) <==> NearestBelow(mids, y, k)
    ensures DragAfterElement(mids, y) == None <==> forall j :: 0 <= j < |mids| ==> y - mids[j] >= 0
  {
  }

  // ---------------------------------------------------------------------
  // show: where the placeholder is put
  // ---------------------------------------------------------------------

  /** The positions in `grid` of `.bookmark:not(.dragging):not(.add-bookmark)`. */
  function Draggables(grid: seq<GridElement>): (ps: seq<nat>)
    ensures forall i :: 0 <= i < |ps| ==> ps[i] < |grid| && grid[ps[i]].BookmarkElement? && !grid[ps[i]].dragging
    ensures forall p :: 0 <= p < |grid| && grid[p].BookmarkElement? && !grid[p].dragging ==> p in ps
    ensures forall i, j :: 0 <= i < j < |ps| ==> ps[i] < ps[j]
  {
    if |grid| == 0 then []
    else
      var n := |grid| - 1;
      var last := grid[n];
      var init := Draggables(grid[..n]);
      assert forall p :: 0 <= p < n ==> grid[..n][p] == grid[p];
      init + if last.BookmarkElement? && !last.dragging then [n] else []
  }

  /** The midpoints of the elements at `positions`. */
  function Mids(grid: seq<GridElement>, positions: seq<nat>): (r: seq<int>)
    requires forall i :: 0 <= i < |positions| ==> positions[i] < |grid| && grid[positions[i]].BookmarkElement?
    ensures |r| == |positions|
    ensures forall i :: 0 <= i < |r| ==> r[i] == grid[positions[i]].mid
  {
    if |positions| == 0 then [] else Mids(grid, positions[..|positions| - 1]) + [grid[positions[|positions| - 1]].mid]
  }

  /** The grid with its placeholders removed (`removeAll`, on this grid). */
  function WithoutPlaceholders(grid: seq<GridElement>): (r: seq<GridElement>)
    ensures forall i :: 0 <= i < |r| ==> !r[i].DropPlaceholder?
    ensures |r| <= |grid|
  {
    if |grid| == 0 then []
    else
      var n := |grid| - 1;
      WithoutPlaceholders(grid[..n]) + if grid[n].DropPlaceholder? then [] else [grid[n]]
  }

  /** Removing placeholders works element by element: the kept elements stay
      in their order. */
  lemma {:induction false} WithoutPlaceholdersAppend(a: seq<GridElement>, b: seq<GridElement>)
    ensures WithoutPlaceholders(a + b) == WithoutPlaceholders(a) + WithoutPlaceholders(b)
    decreases |b|
  {
    if |b| > 0 {
      var n := |b| - 1;
      WithoutPlaceholdersAppend(a, b[..n]);
      assert (a + b)[..|a + b| - 1] == a + b[..n];
      assert (a + b)[|a + b| - 1] == b[n];
    } else {
      assert a + b == a;
    }
  }

  /** The grid after `show` while the pointer is at `y`: the old placeholders
      are removed and a new one is inserted before the element
      `getDragAfterElement` picks, or appended when it picks none. */
  function Shown(grid: seq<GridElement>, y: int): (r: seq<GridElement>)
  {
    var g := WithoutPlaceholders(grid);
    var ps := Draggables(g);
    match DragAfterElement(Mids(g, ps), y)
    case None => g + [DropPlaceholder]
    case Some(k) => g[..ps[k]] + [DropPlaceholder] + g[ps[k]..]
  }

  // ---------------------------------------------------------------------
  // getInsertionIndex
  // ---------------------------------------------------------------------

  /** The number of `.bookmark:not(.add-bookmark):not(.drop-placeholder)`
      elements, the dragged one included. */
  function BookmarkElements(grid: seq<GridElement>): nat
  {
    if |grid| == 0 then 0
    else BookmarkElements(grid[..|grid| - 1]) + if grid[|grid| - 1].BookmarkElement? then 1 else 0
  }

  lemma BookmarkElementsPrefix(grid: seq<GridElement>, i: nat)
    requires i <= |grid|
    ensures BookmarkElements(grid[..i]) <= BookmarkElements(grid)
    decreases |grid|
  {
    if i < |grid| {
      assert grid[..|grid| - 1][..i] == grid[..i];
      BookmarkElementsPrefix(grid[..|grid| - 1], i);
    } else {
      assert grid[..i] == grid;
    }
  }

  /** The position of the first placeholder (`querySelector`), if any. */
  function FirstPlaceholder(grid: seq<GridElement>): (r: Option<nat>)
    ensures r.Some? ==> r.value < |grid| && grid[r.value].DropPlaceholder?
                        && forall i :: 0 <= i < r.value ==> !grid[i].DropPlaceholder?
    ensures r.None? ==> forall i :: 0 <= i < |grid| ==> !grid[i].DropPlaceholder?
  {
    if |grid| == 0 then None
    else if grid[0].DropPlaceholder? then Some(0)
    else match FirstPlaceholder(grid[1..])
      case None => None
      case Some(p) => Some(p + 1)
  }

  /** `getInsertionIndex`: 0 without a placeholder; otherwise the index,
      among the bookmark elements, of the placeholder's previous sibling,
      plus one, where `indexOf` gives -1 when that sibling is not a
      bookmark element. */
  function InsertionIndex(grid: seq<GridElement>): (r: nat)
    ensures r <= BookmarkElements(grid)
    ensures match FirstPlaceholder(grid)
            case None => r == 0
            case Some(p) => (p == 0 || !grid[p - 1].BookmarkElement?) ==> r == 0
  {
    match FirstPlaceholder(grid)
    case None => 0
    case Some(p) =>
      if p > 0 && grid[p - 1].BookmarkElement? then
        BookmarkElementsPrefix(grid, p);
        BookmarkElements(grid[..p])
      else 0
  }

  /** A placeholder right after a bookmark element counts every bookmark
      element up to and including that one. */
  lemma InsertionIndexAfterBookmark(grid: seq<GridElement>, p: nat)
    requires 0 < p < |grid| && grid[p].DropPlaceholder? && grid[p - 1].BookmarkElement?
    requires forall i :: 0 <= i < p ==> !grid[i].DropPlaceholder?
    ensures InsertionIndex(grid) == BookmarkElements(grid[..p]) && InsertionIndex(grid) > 0
  {
    FirstPlaceholderAt(grid, p);
    assert grid[..p][..p - 1] == grid[..p - 1];
  }

  lemma FirstPlaceholderAt(grid: seq<GridElement>, p: nat)
    requires p < |grid| && grid[p].DropPlaceholder?
    requires forall i :: 0 <= i < p ==> !grid[i].DropPlaceholder?
    ensures FirstPlaceholder(grid) == Some(p)
  {
  }

  /** A rendered grid: its bookmark elements, then the "+" element. */
  predicate Rendered(grid: seq<GridElement>)
  {
    |grid| > 0 && grid[|grid| - 1].AddButton?
    && forall i :: 0 <= i < |grid| - 1 ==> grid[i].BookmarkElement?
  }

  /** Placing the placeholder on a rendered grid and reading the insertion
      index back: before a bookmark, the index is that bookmark's position in
      the grid (the dragged element counted when it is in this grid); when no
      bookmark is below the pointer the placeholder follows the "+" element,
      which is no bookmark, and the index is 0. */
  lemma ShownInsertionIndex(grid: seq<GridElement>, y: int)
    requires Rendered(grid)
    ensures var ps := Draggables(grid);
            InsertionIndex(Shown(grid, y))
            == match DragAfterElement(Mids(grid, ps), y)
               case None => 0
               case Some(k) => ps[k]
  {
    NoPlaceholders(grid);
    var ps := Draggables(grid);
    match DragAfterElement(Mids(grid, ps), y)
    case None =>
      AppendedIndex(grid);
    case Some(k) =>
      InsertedIndex(grid, ps[k]);
  }

  /** A placeholder appended after the "+" element reads as index 0. */
  lemma AppendedIndex(grid: seq<GridElement>)
    requires Rendered(grid)
    ensures InsertionIndex(grid + [DropPlaceholder]) == 0
  {
    var s := grid + [DropPlaceholder];
    FirstPlaceholderAt(s, |grid|);
    assert s[|grid| - 1] == grid[|grid| - 1];
  }

  /** A placeholder inserted before the bookmark element at `q` reads as index `q`. */
  lemma InsertedIndex(grid: seq<GridElement>, q: nat)
    requires Rendered(grid) && q < |grid| && grid[q].BookmarkElement?
    ensures InsertionIndex(grid[..q] + [DropPlaceholder] + grid[q..]) == q
  {
    var s := grid[..q] + [DropPlaceholder] + grid[q..];
    assert forall i :: 0 <= i < q ==> s[i] == grid[i];
    FirstPlaceholderAt(s, q);
    if q > 0 {
      assert s[..q] == grid[..q];
      AllBookmarks(grid[..q]);
    }
  }

  lemma {:induction false} NoPlaceholders(grid: seq<GridElement>)
    requires forall i :: 0 <= i < |grid| ==> !grid[i].DropPlaceholder?
    ensures WithoutPlaceholders(grid) == grid
  {
    if |grid| > 0 {
      var n := |grid| - 1;
      var init := grid[..n];
      assert forall i :: 0 <= i < |init| ==> init[i] == grid[i];
      NoPlaceholders(init);
      assert WithoutPlaceholders(grid) == WithoutPlaceholders(init) + [grid[n]];
      assert init + [grid[n]] == grid;
    }
  }

  lemma AllBookmarks(grid: seq<GridElement>)
    requires forall i :: 0 <= i < |grid| ==> grid[i].BookmarkElement?
    ensures BookmarkElements(grid) == |grid|
  {
    if |grid| > 0 {
      AllBookmarks(grid[..|grid| - 1]);
    }
  }
}
