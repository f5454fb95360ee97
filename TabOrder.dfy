/**
 * The tab sort-order engine of app/bookmarks/TabManager.js, on values: how
 * a pin token places a tab in a zone, the display order built from the map,
 * and the renumbering that closes gaps in the ranks of each pinned zone.
 *
 * A token is pinned to the top zone when it starts with "top-" and to the
 * bottom zone when it starts with "bottom-"; the rank is `parseInt` of the
 * text after that prefix. Any other token, or no entry, leaves the tab in
 * the middle zone, which is ordered by name.
 */
module TabOrder {
  import opened Js
  import opened Data
  import opened Sorting

  datatype Zone = Top | Alphabetical | Bottom

  /** The token prefix of a pinned zone. */
  function Prefix(zone: Zone): string
    requires zone != Alphabetical
  {
    if zone == Top then "top-" else "bottom-"
  }

  /** The zone a token pins its tab to. The empty token (falsy in the
      source) starts with neither prefix, so it pins nothing. */
  function TokenZone(token: string): Zone
  {
    if HasTopPrefix(token) then Top
    else if HasBottomPrefix(token) then Bottom
    else Alphabetical
  }

  /** `token.startsWith('top-')`, character by character. */
  predicate HasTopPrefix(token: string)
  {
    |token| >= 4 && token[0] == 't' && token[1] == 'o' && token[2] == 'p' && token[3] == '-'
  }

  /** `token.startsWith('bottom-')`, character by character. */
  predicate HasBottomPrefix(token: string)
  {
    |token| >= 7 && token[0] == 'b' && token[1] == 'o' && token[2] == 't' && token[3] == 't'
    && token[4] == 'o' && token[5] == 'm' && token[6] == '-'
  }

  /** The zone of the tab named `name` under the map `order`, if any. */
  function ZoneOf(order: Option<SortOrder>, name: string): Zone
  {
    if order.Some? && name in order.value then TokenZone(order.value[name]) else Alphabetical
  }

  /** `parseInt(token.replace(prefix, ''))`: the prefix sits at the start of a
      pinned token, so the first occurrence that `replace` removes is that one. */
  function RankOf(token: string): Option<int>
    requires TokenZone(token) != Alphabetical
  {
    ParseInt(token[if TokenZone(token) == Top then 4 else 7..])
  }

  /** The token `${zone}-${k}` built by the source. */
  function PinToken(zone: Zone, k: nat): string
    requires zone != Alphabetical
  {
    Prefix(zone) + NatToString(k)
  }

  /** A token built for a zone and a rank pins to that zone and reads back as that rank. */
  lemma PinTokenReadsBack(zone: Zone, k: nat)
    requires zone != Alphabetical
    ensures TokenZone(PinToken(zone, k)) == zone
    ensures RankOf(PinToken(zone, k)) == Some(k)
  {
    PinTokenZone(zone, k);
    var t := PinToken(zone, k);
    assert t[|Prefix(zone)|..] == NatToString(k);
    assert |Prefix(zone)| == if zone == Top then 4 else 7;
    ParseIntNatToString(k);
  }

  lemma PinTokenZone(zone: Zone, k: nat)
    requires zone != Alphabetical
    ensures TokenZone(PinToken(zone, k)) == zone
  {
    var t := PinToken(zone, k);
    var p := Prefix(zone);
    assert forall i :: 0 <= i < |p| ==> t[i] == p[i];
  }

  /** Two built tokens are equal only when zone and rank are. */
  lemma PinTokenInjective(zone: Zone, k: nat, k': nat)
    requires zone != Alphabetical
    requires PinToken(zone, k) == PinToken(zone, k')
    ensures k == k'
  {
    PinTokenReadsBack(zone, k);
    PinTokenReadsBack(zone, k');
  }

  predicate Pinned(m: SortOrder, name: string, zone: Zone)
  {
    name in m && TokenZone(m[name]) == zone
  }

  /** Every rank the source reads for a tab of `tabs` is a number. A rank that
      is not (NaN) makes the comparator inconsistent and the order unspecified. */
  predicate RanksParse(m: SortOrder, tabs: seq<Tab>)
  {
    forall i :: 0 <= i < |tabs| && tabs[i].name in m && TokenZone(m[tabs[i].name]) != Alphabetical
      ==> RankOf(m[tabs[i].name]).Some?
  }

  predicate UniqueNames(tabs: seq<Tab>)
  {
    forall i, j :: 0 <= i < j < |tabs| ==> tabs[i].name != tabs[j].name
  }

  // ---------------------------------------------------------------------
  // Collecting the pinned tabs of a zone
  // ---------------------------------------------------------------------

  /** The record `{tab, position, originalOrder}` built for a pinned tab. The
      position 0 stands in for a rank that does not parse, which RanksParse
      excludes wherever the order matters. */
  datatype Ranked = Ranked(tab: Tab, position: int, originalOrder: string)

  function PinOf(m: SortOrder, t: Tab): Ranked
  {
    var token := if t.name in m then m[t.name] else "";
    Ranked(t, if TokenZone(token) != Alphabetical && RankOf(token).Some? then RankOf(token).value else 0, token)
  }

  function TabOf(x: Ranked): Tab { x.tab }

  function NameOf(x: Ranked): string { x.tab.name }

  /** `Repin(m)` reads a record's tab again under the map `m`. */
  function Repin(m: SortOrder): Ranked -> Ranked
  {
    (x: Ranked) => PinOf(m, x.tab)
  }

  /** The comparator `(a, b) => a.position - b.position`, as "not greater". */
  predicate ByPosition(a: Ranked, b: Ranked)
  {
    a.position - b.position <= 0
  }

  /** The comparator `(a, b) => a.name.localeCompare(b.name)`, as "not greater". */
  function ByName(localeCompare: (string, string) -> int): (Tab, Tab) -> bool
  {
    (a: Tab, b: Tab) => localeCompare(a.name, b.name) <= 0
  }

  lemma ByPositionPreorder()
    ensures TotalPreorder(ByPosition)
  {
  }

  /** The pinned tabs of a zone in `tabs` order, each with its rank and token. */
  function Collect(tabs: seq<Tab>, m: SortOrder, zone: Zone): (r: seq<Ranked>)
    ensures |r| <= |tabs|
  {
    if tabs == [] then [] else CollectHead(tabs[0], m, zone) + Collect(tabs[1..], m, zone)
  }

  /** What Collect contributes for one tab: its record when it is pinned to the zone. */
  function CollectHead(t: Tab, m: SortOrder, zone: Zone): seq<Ranked>
  {
    if Pinned(m, t.name, zone) then [PinOf(m, t)] else []
  }

  lemma CollectCons(tabs: seq<Tab>, m: SortOrder, zone: Zone)
    requires tabs != []
    ensures Collect(tabs, m, zone) == CollectHead(tabs[0], m, zone) + Collect(tabs[1..], m, zone)
  {
  }

  /** Each collected record is the record of a pinned tab of `tabs`. */
  lemma {:induction false} CollectMembers(tabs: seq<Tab>, m: SortOrder, zone: Zone)
    ensures forall x :: x in Collect(tabs, m, zone) ==>
              x == PinOf(m, x.tab) && Pinned(m, x.tab.name, zone) && x.tab in tabs
  {
    if tabs != [] {
      CollectMembers(tabs[1..], m, zone);
      CollectCons(tabs, m, zone);
      forall x | x in Collect(tabs, m, zone)
        ensures x == PinOf(m, x.tab) && Pinned(m, x.tab.name, zone) && x.tab in tabs
      {
        if x !in Collect(tabs[1..], m, zone) {
          assert x in CollectHead(tabs[0], m, zone);
        } else {
          assert x.tab in tabs[1..];
        }
      }
    }
  }

  /** The tabs of `tabs` in a zone, in `tabs` order. */
  function ZoneTabs(tabs: seq<Tab>, order: Option<SortOrder>, zone: Zone): (r: seq<Tab>)
    ensures |r| <= |tabs|
  {
    if tabs == [] then [] else ZoneHead(tabs[0], order, zone) + ZoneTabs(tabs[1..], order, zone)
  }

  /** What ZoneTabs contributes for one tab: the tab when it is in the zone. */
  function ZoneHead(t: Tab, order: Option<SortOrder>, zone: Zone): seq<Tab>
  {
    if ZoneOf(order, t.name) == zone then [t] else []
  }

  lemma ZoneTabsCons(tabs: seq<Tab>, order: Option<SortOrder>, zone: Zone)
    requires tabs != []
    ensures ZoneTabs(tabs, order, zone) == ZoneHead(tabs[0], order, zone) + ZoneTabs(tabs[1..], order, zone)
  {
  }

  /** A tab is in a zone's list exactly when it is in `tabs` and in that zone. */
  lemma {:induction false} ZoneTabsMembers(tabs: seq<Tab>, order: Option<SortOrder>, zone: Zone)
    ensures forall t :: t in ZoneTabs(tabs, order, zone) <==> t in tabs && ZoneOf(order, t.name) == zone
  {
    if tabs != [] {
      ZoneTabsMembers(tabs[1..], order, zone);
      ZoneTabsCons(tabs, order, zone);
      Cons(tabs);
      forall t ensures t in ZoneTabs(tabs, order, zone) <==> t in tabs && ZoneOf(order, t.name) == zone {
        assert t in tabs <==> t == tabs[0] || t in tabs[1..];
      }
    }
  }

  lemma {:induction false} CollectAppend(a: seq<Tab>, b: seq<Tab>, m: SortOrder, zone: Zone)
    ensures Collect(a + b, m, zone) == Collect(a, m, zone) + Collect(b, m, zone)
  {
    if a == [] {
      assert a + b == b;
    } else {
      ConsAppend(a, b);
      CollectAppend(a[1..], b, m, zone);
      CollectCons(a + b, m, zone);
      CollectCons(a, m, zone);
      Assoc(CollectHead(a[0], m, zone), Collect(a[1..], m, zone), Collect(b, m, zone));
    }
  }

  lemma {:induction false} ZoneTabsAppend(a: seq<Tab>, b: seq<Tab>, order: Option<SortOrder>, zone: Zone)
    ensures ZoneTabs(a + b, order, zone) == ZoneTabs(a, order, zone) + ZoneTabs(b, order, zone)
  {
    if a == [] {
      assert a + b == b;
    } else {
      ConsAppend(a, b);
      ZoneTabsAppend(a[1..], b, order, zone);
      ZoneTabsCons(a + b, order, zone);
      ZoneTabsCons(a, order, zone);
      Assoc(ZoneHead(a[0], order, zone), ZoneTabs(a[1..], order, zone), ZoneTabs(b, order, zone));
    }
  }

  /** The tabs of the collected records are the zone's tabs. */
  lemma {:induction false} CollectTabs(tabs: seq<Tab>, m: SortOrder, zone: Zone)
    requires zone != Alphabetical
    ensures Map(Collect(tabs, m, zone), TabOf) == ZoneTabs(tabs, Some(m), zone)
  {
    if tabs != [] {
      CollectTabs(tabs[1..], m, zone);
      CollectCons(tabs, m, zone);
      ZoneTabsCons(tabs, Some(m), zone);
      MapAppend(CollectHead(tabs[0], m, zone), Collect(tabs[1..], m, zone), TabOf);
      assert Map(CollectHead(tabs[0], m, zone), TabOf) == ZoneHead(tabs[0], Some(m), zone);
    }
  }

  /** Collecting one more tab of a prefix adds that tab's record, if any. */
  lemma CollectSnoc(tabs: seq<Tab>, m: SortOrder, zone: Zone, i: nat)
    requires i < |tabs|
    ensures Collect(tabs[..i + 1], m, zone) == Collect(tabs[..i], m, zone) + CollectHead(tabs[i], m, zone)
  {
    assert tabs[..i + 1] == tabs[..i] + [tabs[i]];
    CollectAppend(tabs[..i], [tabs[i]], m, zone);
    assert [tabs[i]][1..] == [];
  }

  /** Filtering one more tab of a prefix adds that tab, if it is in the zone. */
  lemma ZoneTabsSnoc(tabs: seq<Tab>, order: Option<SortOrder>, zone: Zone, i: nat)
    requires i < |tabs|
    ensures ZoneTabs(tabs[..i + 1], order, zone) == ZoneTabs(tabs[..i], order, zone) + ZoneHead(tabs[i], order, zone)
  {
    assert tabs[..i + 1] == tabs[..i] + [tabs[i]];
    ZoneTabsAppend(tabs[..i], [tabs[i]], order, zone);
    assert [tabs[i]][1..] == [];
  }

  /** Every tab is in exactly one zone, so the three zones together are `tabs`. */
  lemma {:induction false} ZonePartition(tabs: seq<Tab>, order: Option<SortOrder>)
    ensures multiset(ZoneTabs(tabs, order, Top)) + multiset(ZoneTabs(tabs, order, Alphabetical))
            + multiset(ZoneTabs(tabs, order, Bottom)) == multiset(tabs)
  {
    if tabs != [] {
      ZonePartition(tabs[1..], order);
      ZonePartitionStep(tabs, order);
    }
  }

  lemma ZonePartitionStep(tabs: seq<Tab>, order: Option<SortOrder>)
    requires tabs != []
    requires multiset(ZoneTabs(tabs[1..], order, Top)) + multiset(ZoneTabs(tabs[1..], order, Alphabetical))
             + multiset(ZoneTabs(tabs[1..], order, Bottom)) == multiset(tabs[1..])
    ensures multiset(ZoneTabs(tabs, order, Top)) + multiset(ZoneTabs(tabs, order, Alphabetical))
            + multiset(ZoneTabs(tabs, order, Bottom)) == multiset(tabs)
  {
    var t, rest := tabs[0], tabs[1..];
    ZoneTabsCons(tabs, order, Top);
    ZoneTabsCons(tabs, order, Alphabetical);
    ZoneTabsCons(tabs, order, Bottom);
    MultisetCons(tabs);
    assert multiset(ZoneHead(t, order, Top)) + multiset(ZoneHead(t, order, Alphabetical))
           + multiset(ZoneHead(t, order, Bottom)) == multiset{t};
    Regroup(multiset(ZoneHead(t, order, Top)), multiset(ZoneHead(t, order, Alphabetical)),
            multiset(ZoneHead(t, order, Bottom)), multiset(ZoneTabs(rest, order, Top)),
            multiset(ZoneTabs(rest, order, Alphabetical)), multiset(ZoneTabs(rest, order, Bottom)));
  }

  lemma Regroup<T>(a: multiset<T>, b: multiset<T>, c: multiset<T>, d: multiset<T>, e: multiset<T>, f: multiset<T>)
    ensures (a + d) + (b + e) + (c + f) == (a + b + c) + (d + e + f)
  {
  }

  lemma {:induction false} ZoneTabsAll(s: seq<Tab>, order: Option<SortOrder>, zone: Zone)
    requires forall i :: 0 <= i < |s| ==> ZoneOf(order, s[i].name) == zone
    ensures ZoneTabs(s, order, zone) == s
  {
    if s != [] {
      ZoneTabsAll(s[1..], order, zone);
      ZoneTabsCons(s, order, zone);
      Cons(s);
    }
  }

  lemma {:induction false} ZoneTabsNone(s: seq<Tab>, order: Option<SortOrder>, zone: Zone)
    requires forall i :: 0 <= i < |s| ==> ZoneOf(order, s[i].name) != zone
    ensures ZoneTabs(s, order, zone) == []
  {
    if s != [] {
      ZoneTabsNone(s[1..], order, zone);
      ZoneTabsCons(s, order, zone);
    }
  }

  /** The record of the `i`-th tab sits in the collection after the records of
      the pinned tabs before it. */
  lemma CollectAt(tabs: seq<Tab>, m: SortOrder, zone: Zone, i: nat)
    requires i < |tabs| && Pinned(m, tabs[i].name, zone)
    ensures |Collect(tabs[..i], m, zone)| < |Collect(tabs, m, zone)|
    ensures Collect(tabs, m, zone)[|Collect(tabs[..i], m, zone)|] == PinOf(m, tabs[i])
  {
    var front, back := tabs[..i], tabs[i..];
    assert tabs == front + back;
    CollectAppend(front, back, m, zone);
    CollectCons(back, m, zone);
    assert back[0] == tabs[i];
  }

  lemma CollectIndexMonotone(tabs: seq<Tab>, m: SortOrder, zone: Zone, i: nat, j: nat)
    requires i < j <= |tabs| && Pinned(m, tabs[i].name, zone)
    ensures |Collect(tabs[..i], m, zone)| < |Collect(tabs[..j], m, zone)|
  {
    var front, middle := tabs[..i], tabs[i..j];
    assert tabs[..j] == front + middle;
    CollectAppend(front, middle, m, zone);
    CollectCons(middle, m, zone);
    assert middle[0] == tabs[i];
  }

  lemma {:induction false} CollectDistinct(tabs: seq<Tab>, m: SortOrder, zone: Zone)
    requires UniqueNames(tabs)
    ensures DistinctBy(Collect(tabs, m, zone), NameOf)
  {
    if tabs != [] {
      var rest := Collect(tabs[1..], m, zone);
      CollectDistinct(tabs[1..], m, zone);
      CollectCons(tabs, m, zone);
      if Pinned(m, tabs[0].name, zone) {
        CollectMembers(tabs[1..], m, zone);
        forall y | y in rest ensures NameOf(y) != tabs[0].name {
          var k :| 0 <= k < |tabs[1..]| && tabs[1..][k] == y.tab;
          assert tabs[k + 1] == y.tab;
        }
        ConsDistinct(PinOf(m, tabs[0]), rest);
      }
    }
  }

  /** A record whose name no record of a name-distinct list carries can be put in front. */
  lemma ConsDistinct(x: Ranked, rest: seq<Ranked>)
    requires DistinctBy(rest, NameOf)
    requires forall y :: y in rest ==> NameOf(y) != NameOf(x)
    ensures DistinctBy([x] + rest, NameOf)
  {
    var r := [x] + rest;
    forall i, j | 0 <= i < j < |r| ensures NameOf(r[i]) != NameOf(r[j]) {
      assert r[j] == rest[j - 1];
      if i > 0 {
        assert r[i] == rest[i - 1];
      }
    }
  }

  /** Ties in rank keep `tabs` order, and a smaller rank comes first. */
  lemma CollectSortKeepsOrder(tabs: seq<Tab>, m: SortOrder, zone: Zone, i: nat, j: nat)
    requires i < j < |tabs|
    requires Pinned(m, tabs[i].name, zone) && Pinned(m, tabs[j].name, zone)
    requires PinOf(m, tabs[i]).position <= PinOf(m, tabs[j]).position
    ensures Before(PinOf(m, tabs[i]), PinOf(m, tabs[j]), Sort(Collect(tabs, m, zone), ByPosition))
  {
    var c := Collect(tabs, m, zone);
    var ci, cj := |Collect(tabs[..i], m, zone)|, |Collect(tabs[..j], m, zone)|;
    CollectAt(tabs, m, zone, i);
    CollectAt(tabs, m, zone, j);
    CollectIndexMonotone(tabs, m, zone, i, j);
    ByPositionPreorder();
    SortKeepsOrder(c, ci, cj, ByPosition);
  }

  // ---------------------------------------------------------------------
  // Display order (sortTabsWithCustomOrder) and zones (groupTabsByZone)
  // ---------------------------------------------------------------------

  /** The top part of the display order: the top zone by rank. */
  function PinnedPart(tabs: seq<Tab>, m: SortOrder, zone: Zone): seq<Tab>
  {
    Map(Sort(Collect(tabs, m, zone), ByPosition), TabOf)
  }

  /** The order in which the tab list shows `tabs`. */
  function DisplayOrder(tabs: seq<Tab>, order: Option<SortOrder>, localeCompare: (string, string) -> int): seq<Tab>
  {
    if order.None? then Sort(tabs, ByName(localeCompare))
    else
      PinnedPart(tabs, order.value, Top)
      + Sort(ZoneTabs(tabs, order, Alphabetical), ByName(localeCompare))
      + PinnedPart(tabs, order.value, Bottom)
  }

  lemma PinnedPartPermutation(tabs: seq<Tab>, m: SortOrder, zone: Zone)
    requires zone != Alphabetical
    ensures multiset(PinnedPart(tabs, m, zone)) == multiset(ZoneTabs(tabs, Some(m), zone))
  {
    var c := Collect(tabs, m, zone);
    MapPermutation(Sort(c, ByPosition), c, TabOf);
    CollectTabs(tabs, m, zone);
  }

  lemma PinnedPartInZone(tabs: seq<Tab>, m: SortOrder, zone: Zone)
    requires zone != Alphabetical
    ensures forall i :: 0 <= i < |PinnedPart(tabs, m, zone)| ==>
              ZoneOf(Some(m), PinnedPart(tabs, m, zone)[i].name) == zone
  {
    var c := Collect(tabs, m, zone);
    var s := Sort(c, ByPosition);
    CollectMembers(tabs, m, zone);
    forall i | 0 <= i < |s| ensures Pinned(m, s[i].tab.name, zone) {
      assert s[i] in multiset(c);
    }
  }

  lemma MiddleInZone(tabs: seq<Tab>, order: Option<SortOrder>, localeCompare: (string, string) -> int)
    ensures forall i :: 0 <= i < |Sort(ZoneTabs(tabs, order, Alphabetical), ByName(localeCompare))| ==>
              ZoneOf(order, Sort(ZoneTabs(tabs, order, Alphabetical), ByName(localeCompare))[i].name) == Alphabetical
  {
    var z := ZoneTabs(tabs, order, Alphabetical);
    var middle := Sort(z, ByName(localeCompare));
    ZoneTabsMembers(tabs, order, Alphabetical);
    forall i | 0 <= i < |middle| ensures ZoneOf(order, middle[i].name) == Alphabetical {
      assert middle[i] in multiset(z);
    }
  }

  /** The display order holds every tab exactly as often as `tabs` does. */
  lemma DisplayOrderPermutation(tabs: seq<Tab>, order: Option<SortOrder>, localeCompare: (string, string) -> int)
    ensures multiset(DisplayOrder(tabs, order, localeCompare)) == multiset(tabs)
  {
    if order.Some? {
      PinnedPartPermutation(tabs, order.value, Top);
      PinnedPartPermutation(tabs, order.value, Bottom);
      ZonePartition(tabs, order);
    }
  }

  /** Splitting three consecutive runs, one per zone, by zone gives back the runs. */
  lemma ThreePartZone(top: seq<Tab>, middle: seq<Tab>, bottom: seq<Tab>, order: Option<SortOrder>, zone: Zone)
    requires forall i :: 0 <= i < |top| ==> ZoneOf(order, top[i].name) == Top
    requires forall i :: 0 <= i < |middle| ==> ZoneOf(order, middle[i].name) == Alphabetical
    requires forall i :: 0 <= i < |bottom| ==> ZoneOf(order, bottom[i].name) == Bottom
    ensures ZoneTabs(top + middle + bottom, order, zone)
            == match zone case Top => top case Alphabetical => middle case Bottom => bottom
  {
    ZoneTabsAppend(top + middle, bottom, order, zone);
    ZoneTabsAppend(top, middle, order, zone);
    match zone
    case Top =>
      ZoneTabsAll(top, order, zone);
      ZoneTabsNone(middle, order, zone);
      ZoneTabsNone(bottom, order, zone);
      assert top + [] + [] == top;
    case Alphabetical =>
      ZoneTabsNone(top, order, zone);
      ZoneTabsAll(middle, order, zone);
      ZoneTabsNone(bottom, order, zone);
      assert [] + middle + [] == middle;
    case Bottom =>
      ZoneTabsNone(top, order, zone);
      ZoneTabsNone(middle, order, zone);
      ZoneTabsAll(bottom, order, zone);
      assert [] + [] + bottom == bottom;
  }

  /** Splitting the display order into zones gives the top zone by rank, the
      middle zone by name and the bottom zone by rank; without a map, every
      tab is in the middle zone and the whole list is by name. */
  lemma DisplayOrderZones(tabs: seq<Tab>, order: Option<SortOrder>, localeCompare: (string, string) -> int, zone: Zone)
    ensures order.None? ==>
              ZoneTabs(DisplayOrder(tabs, order, localeCompare), order, zone)
              == if zone == Alphabetical then Sort(tabs, ByName(localeCompare)) else []
    ensures order.Some? ==>
              ZoneTabs(DisplayOrder(tabs, order, localeCompare), order, zone)
              == match zone
                 case Top => PinnedPart(tabs, order.value, Top)
                 case Alphabetical => Sort(ZoneTabs(tabs, order, Alphabetical), ByName(localeCompare))
                 case Bottom => PinnedPart(tabs, order.value, Bottom)
  {
    var r := DisplayOrder(tabs, order, localeCompare);
    if order.None? {
      if zone == Alphabetical {
        ZoneTabsAll(r, order, zone);
      } else {
        ZoneTabsNone(r, order, zone);
      }
    } else {
      var top, bottom := PinnedPart(tabs, order.value, Top), PinnedPart(tabs, order.value, Bottom);
      var middle := Sort(ZoneTabs(tabs, order, Alphabetical), ByName(localeCompare));
      PinnedPartInZone(tabs, order.value, Top);
      PinnedPartInZone(tabs, order.value, Bottom);
      MiddleInZone(tabs, order, localeCompare);
      assert forall i :: 0 <= i < |top| ==> ZoneOf(order, top[i].name) == Top;
      assert forall i :: 0 <= i < |middle| ==> ZoneOf(order, middle[i].name) == Alphabetical;
      assert forall i :: 0 <= i < |bottom| ==> ZoneOf(order, bottom[i].name) == Bottom;
      ThreePartZone(top, middle, bottom, order, zone);
    }
  }

  /** Within a pinned zone of the display order ranks ascend. */
  lemma PinnedPartAscends(tabs: seq<Tab>, m: SortOrder, zone: Zone)
    requires zone != Alphabetical
    ensures forall i, j :: 0 <= i < j < |PinnedPart(tabs, m, zone)| ==>
              PinOf(m, PinnedPart(tabs, m, zone)[i]).position <= PinOf(m, PinnedPart(tabs, m, zone)[j]).position
  {
    var c := Collect(tabs, m, zone);
    var s := Sort(c, ByPosition);
    ByPositionPreorder();
    SortSorted(c, ByPosition);
    CollectMembers(tabs, m, zone);
    forall i | 0 <= i < |s| ensures s[i] == PinOf(m, s[i].tab) {
      assert s[i] in multiset(c);
    }
    forall i, j | 0 <= i < j < |s| ensures PinOf(m, s[i].tab).position <= PinOf(m, s[j].tab).position {
      assert ByPosition(s[i], s[j]);
    }
  }

  /** Two tabs of equal rank appear in the pinned zone in `tabs` order. */
  lemma PinnedPartTies(tabs: seq<Tab>, m: SortOrder, zone: Zone, i: nat, j: nat)
    requires zone != Alphabetical && i < j < |tabs|
    requires Pinned(m, tabs[i].name, zone) && Pinned(m, tabs[j].name, zone)
    requires PinOf(m, tabs[i]).position == PinOf(m, tabs[j]).position
    ensures Before(tabs[i], tabs[j], PinnedPart(tabs, m, zone))
  {
    var s := Sort(Collect(tabs, m, zone), ByPosition);
    CollectSortKeepsOrder(tabs, m, zone, i, j);
    var p, q :| 0 <= p < q < |s| && s[p] == PinOf(m, tabs[i]) && s[q] == PinOf(m, tabs[j]);
    assert PinnedPart(tabs, m, zone)[p] == tabs[i] && PinnedPart(tabs, m, zone)[q] == tabs[j];
  }

  /** The middle zone ascends by name (for a consistent `localeCompare`). */
  lemma MiddleSorted(tabs: seq<Tab>, order: Option<SortOrder>, localeCompare: (string, string) -> int)
    requires TotalPreorder(ByName(localeCompare))
    ensures Sorted(Sort(ZoneTabs(tabs, order, Alphabetical), ByName(localeCompare)), ByName(localeCompare))
  {
    SortSorted(ZoneTabs(tabs, order, Alphabetical), ByName(localeCompare));
  }

  // ---------------------------------------------------------------------
  // Renumbering (normalizeTabPositions)
  // ---------------------------------------------------------------------

  /** The `forEach((item, index) => ...)` over the sorted records of one zone:
      the record at `index` gets `${zone}-${index + 1}` unless it already had
      that token. `done` counts the records already handled. */
  function Renumber(m: SortOrder, items: seq<Ranked>, zone: Zone, done: nat): SortOrder
    requires zone != Alphabetical
    decreases |items|
  {
    if items == [] then m
    else Renumber(RenumberOne(m, items[0], PinToken(zone, done + 1)), items[1..], zone, done + 1)
  }

  /** One step of the renumbering: `setTabSortOrder(item.tab.name, token)`
      when the token the record was collected with differs. */
  function RenumberOne(m: SortOrder, x: Ranked, token: string): SortOrder
  {
    if x.originalOrder != token then m[x.tab.name := token] else m
  }

  /** No record of `items` belongs to the tab named `n`. */
  predicate NotNamed(items: seq<Ranked>, n: string)
  {
    forall k :: 0 <= k < |items| ==> items[k].tab.name != n
  }

  /** Each record's tab name maps to a token of the zone with a rank that parses. */
  predicate AllPinned(m: SortOrder, items: seq<Ranked>, zone: Zone)
  {
    zone != Alphabetical &&
    forall k :: 0 <= k < |items| ==> PinnedWithRank(m, items[k].tab.name, zone)
  }

  predicate PinnedWithRank(m: SortOrder, n: string, zone: Zone)
  {
    n in m && TokenZone(m[n]) == zone && zone != Alphabetical && RankOf(m[n]).Some?
  }

  /** A name no record carries keeps its entry (or its absence). */
  lemma {:induction false} RenumberKeepsOthers(m: SortOrder, items: seq<Ranked>, zone: Zone, done: nat, n: string)
    requires zone != Alphabetical && NotNamed(items, n)
    ensures n in Renumber(m, items, zone, done) <==> n in m
    ensures n in m ==> Renumber(m, items, zone, done)[n] == m[n]
    decreases |items|
  {
    if items != [] {
      assert items[0].tab.name != n;
      var m' := RenumberOne(m, items[0], PinToken(zone, done + 1));
      assert NotNamed(items[1..], n) by {
        forall k | 0 <= k < |items[1..]| ensures items[1..][k].tab.name != n {
          assert items[1..][k] == items[k + 1];
        }
      }
      RenumberKeepsOthers(m', items[1..], zone, done + 1, n);
    }
  }

  /** Renumbering keeps the set of names. */
  lemma {:induction false} RenumberKeys(m: SortOrder, items: seq<Ranked>, zone: Zone, done: nat)
    requires zone != Alphabetical
    requires forall k :: 0 <= k < |items| ==> items[k].tab.name in m
    ensures Renumber(m, items, zone, done).Keys == m.Keys
    decreases |items|
  {
    if items != [] {
      var m' := RenumberOne(m, items[0], PinToken(zone, done + 1));
      assert m'.Keys == m.Keys;
      forall k | 0 <= k < |items[1..]| ensures items[1..][k].tab.name in m' {
        assert items[1..][k] == items[k + 1];
      }
      RenumberKeys(m', items[1..], zone, done + 1);
    }
  }

  /** Renumbering leaves each record's tab pinned to the zone with a rank that parses. */
  lemma {:induction false} RenumberPinned(m: SortOrder, items: seq<Ranked>, zone: Zone, done: nat)
    requires AllPinned(m, items, zone)
    ensures AllPinned(Renumber(m, items, zone, done), items, zone)
    decreases |items|
  {
    if items != [] {
      var token := PinToken(zone, done + 1);
      var x := items[0];
      var m' := RenumberOne(m, x, token);
      PinTokenReadsBack(zone, done + 1);
      RenumberOnePinned(m, items, zone, token);
      RenumberPinned(m', items[1..], zone, done + 1);
      RenumberPinnedHead(m', items, zone, done);
    }
  }

  lemma RenumberOnePinned(m: SortOrder, items: seq<Ranked>, zone: Zone, token: string)
    requires AllPinned(m, items, zone) && items != []
    requires TokenZone(token) == zone && RankOf(token).Some?
    ensures AllPinned(RenumberOne(m, items[0], token), items[1..], zone)
    ensures PinnedWithRank(RenumberOne(m, items[0], token), items[0].tab.name, zone)
  {
    var m' := RenumberOne(m, items[0], token);
    forall k | 0 <= k < |items[1..]| ensures PinnedWithRank(m', items[1..][k].tab.name, zone) {
      assert items[1..][k] == items[k + 1];
      RenumberOneKeepsPinned(m, items[0], token, items[k + 1].tab.name, zone);
    }
    RenumberOneKeepsPinned(m, items[0], token, items[0].tab.name, zone);
  }

  lemma RenumberOneKeepsPinned(m: SortOrder, x: Ranked, token: string, n: string, zone: Zone)
    requires PinnedWithRank(m, n, zone)
    requires TokenZone(token) == zone && RankOf(token).Some?
    ensures PinnedWithRank(RenumberOne(m, x, token), n, zone)
  {
  }

  lemma RenumberPinnedHead(m': SortOrder, items: seq<Ranked>, zone: Zone, done: nat)
    requires zone != Alphabetical && items != []
    requires PinnedWithRank(m', items[0].tab.name, zone)
    requires AllPinned(Renumber(m', items[1..], zone, done + 1), items[1..], zone)
    ensures AllPinned(Renumber(m', items[1..], zone, done + 1), items, zone)
  {
    var r := Renumber(m', items[1..], zone, done + 1);
    var n := items[0].tab.name;
    if NotNamed(items[1..], n) {
      RenumberKeepsOthers(m', items[1..], zone, done + 1, n);
    } else {
      var k :| 0 <= k < |items[1..]| && items[1..][k].tab.name == n;
    }
    forall k | 0 <= k < |items| ensures PinnedWithRank(r, items[k].tab.name, zone) {
      if k > 0 {
        assert items[k] == items[1..][k - 1];
      }
    }
  }

  /** With distinct names and tokens as collected, the record at index `k`
      ends up with `${zone}-${done + k + 1}`. */
  lemma {:induction false} RenumberAssigns(m: SortOrder, items: seq<Ranked>, zone: Zone, done: nat, k: nat)
    requires zone != Alphabetical && DistinctBy(items, NameOf) && k < |items|
    requires forall j :: 0 <= j < |items| ==> items[j].tab.name in m && m[items[j].tab.name] == items[j].originalOrder
    ensures items[k].tab.name in Renumber(m, items, zone, done)
    ensures Renumber(m, items, zone, done)[items[k].tab.name] == PinToken(zone, done + k + 1)
    decreases |items|
  {
    var x, rest := items[0], items[1..];
    var m' := RenumberOne(m, x, PinToken(zone, done + 1));
    if k == 0 {
      RenumberAssignsHead(m, items, zone, done);
    } else {
      RenumberRest(m, items, zone, done);
      RenumberAssigns(m', rest, zone, done + 1, k - 1);
      assert rest[k - 1] == items[k];
    }
  }

  lemma RenumberAssignsHead(m: SortOrder, items: seq<Ranked>, zone: Zone, done: nat)
    requires zone != Alphabetical && DistinctBy(items, NameOf) && items != []
    requires items[0].tab.name in m && m[items[0].tab.name] == items[0].originalOrder
    ensures items[0].tab.name in Renumber(m, items, zone, done)
    ensures Renumber(m, items, zone, done)[items[0].tab.name] == PinToken(zone, done + 1)
  {
    var x, rest := items[0], items[1..];
    var m' := RenumberOne(m, x, PinToken(zone, done + 1));
    assert x.tab.name in m' && m'[x.tab.name] == PinToken(zone, done + 1);
    assert Renumber(m, items, zone, done) == Renumber(m', rest, zone, done + 1);
    forall j | 0 <= j < |rest| ensures rest[j].tab.name != x.tab.name {
      assert NameOf(items[0]) != NameOf(items[j + 1]);
    }
    RenumberKeepsOthers(m', rest, zone, done + 1, x.tab.name);
  }

  lemma RenumberRest(m: SortOrder, items: seq<Ranked>, zone: Zone, done: nat)
    requires zone != Alphabetical && DistinctBy(items, NameOf) && items != []
    requires forall j :: 0 <= j < |items| ==> items[j].tab.name in m && m[items[j].tab.name] == items[j].originalOrder
    ensures DistinctBy(items[1..], NameOf)
    ensures var m' := RenumberOne(m, items[0], PinToken(zone, done + 1));
            forall j :: 0 <= j < |items[1..]| ==>
              items[1..][j].tab.name in m' && m'[items[1..][j].tab.name] == items[1..][j].originalOrder
  {
    var rest := items[1..];
    forall i, j | 0 <= i < j < |rest| ensures NameOf(rest[i]) != NameOf(rest[j]) {
      assert rest[i] == items[i + 1] && rest[j] == items[j + 1];
    }
    forall j | 0 <= j < |rest| ensures rest[j].tab.name != items[0].tab.name && rest[j] == items[j + 1] {
      assert NameOf(items[0]) != NameOf(items[j + 1]);
    }
  }

  /** Records that already carry the tokens renumbering would give change nothing. */
  lemma {:induction false} RenumberFixed(m: SortOrder, items: seq<Ranked>, zone: Zone, done: nat)
    requires zone != Alphabetical
    requires forall k :: 0 <= k < |items| ==> items[k].originalOrder == PinToken(zone, done + k + 1)
    ensures Renumber(m, items, zone, done) == m
    decreases |items|
  {
    if items != [] {
      assert items[0].originalOrder == PinToken(zone, done + 1);
      forall k | 0 <= k < |items[1..]| ensures items[1..][k].originalOrder == PinToken(zone, done + 1 + k + 1) {
        assert items[1..][k] == items[k + 1];
      }
      RenumberFixed(m, items[1..], zone, done + 1);
    }
  }

  // ---------------------------------------------------------------------
  // The normalised map
  // ---------------------------------------------------------------------

  /** The pinned records of a zone sorted stably by rank, as `normalizeTabPositions` sorts them. */
  function Pins(tabs: seq<Tab>, m: SortOrder, zone: Zone): seq<Ranked>
  {
    Sort(Collect(tabs, m, zone), ByPosition)
  }

  /** The map after the top zone is renumbered. */
  function FirstPass(tabs: seq<Tab>, m: SortOrder): SortOrder
  {
    Renumber(m, Pins(tabs, m, Top), Top, 0)
  }

  /** The map after `normalizeTabPositions`: both zones are collected from the
      map as it was, sorted stably by rank, and renumbered from 1, top first. */
  function NormalizedMap(tabs: seq<Tab>, m: SortOrder): SortOrder
  {
    Renumber(FirstPass(tabs, m), Pins(tabs, m, Bottom), Bottom, 0)
  }

  /** `normalizeTabPositions` on the map in place, which may be missing. */
  function Normalized(tabs: seq<Tab>, order: Option<SortOrder>): (r: Option<SortOrder>)
    ensures r.None? <==> order.None?
  {
    if order.None? then None else Some(NormalizedMap(tabs, order.value))
  }

  /** Each sorted record is the record of a tab of `tabs` pinned to the zone,
      with the token it was collected with. */
  lemma PinsMembers(tabs: seq<Tab>, m: SortOrder, zone: Zone)
    requires zone != Alphabetical && RanksParse(m, tabs)
    ensures AllPinned(m, Pins(tabs, m, zone), zone)
    ensures forall k :: 0 <= k < |Pins(tabs, m, zone)| ==>
              Pins(tabs, m, zone)[k].tab in tabs
              && Pins(tabs, m, zone)[k] == PinOf(m, Pins(tabs, m, zone)[k].tab)
              && m[Pins(tabs, m, zone)[k].tab.name] == Pins(tabs, m, zone)[k].originalOrder
  {
    var c := Collect(tabs, m, zone);
    var s := Sort(c, ByPosition);
    CollectMembers(tabs, m, zone);
    forall k | 0 <= k < |s|
      ensures PinnedWithRank(m, s[k].tab.name, zone)
      ensures s[k].tab in tabs && s[k] == PinOf(m, s[k].tab) && m[s[k].tab.name] == s[k].originalOrder
    {
      var x := s[k];
      assert x in multiset(c);
      assert x in c;
      assert x.tab in tabs && Pinned(m, x.tab.name, zone) && x == PinOf(m, x.tab);
      var i :| 0 <= i < |tabs| && tabs[i] == x.tab;
      assert tabs[i].name in m && TokenZone(m[tabs[i].name]) != Alphabetical;
      assert RankOf(m[x.tab.name]).Some?;
    }
  }

  /** No tab is pinned to both zones. */
  lemma PinsDisjoint(tabs: seq<Tab>, m: SortOrder, n: string)
    requires RanksParse(m, tabs)
    ensures NotNamed(Pins(tabs, m, Top), n) || NotNamed(Pins(tabs, m, Bottom), n)
  {
    PinsMembers(tabs, m, Top);
    PinsMembers(tabs, m, Bottom);
    var tops, bottoms := Pins(tabs, m, Top), Pins(tabs, m, Bottom);
    if !NotNamed(tops, n) && !NotNamed(bottoms, n) {
      assert false;
    }
  }

  /** Renumbering the top zone keeps the keys and leaves the bottom zone's records as collected. */
  lemma FirstPassFrame(tabs: seq<Tab>, m: SortOrder)
    requires RanksParse(m, tabs)
    ensures FirstPass(tabs, m).Keys == m.Keys
    ensures AllPinned(FirstPass(tabs, m), Pins(tabs, m, Top), Top)
    ensures AllPinned(FirstPass(tabs, m), Pins(tabs, m, Bottom), Bottom)
    ensures forall k :: 0 <= k < |Pins(tabs, m, Bottom)| ==>
              FirstPass(tabs, m)[Pins(tabs, m, Bottom)[k].tab.name] == m[Pins(tabs, m, Bottom)[k].tab.name]
  {
    var tops, bottoms := Pins(tabs, m, Top), Pins(tabs, m, Bottom);
    var m1 := FirstPass(tabs, m);
    PinsMembers(tabs, m, Top);
    PinsMembers(tabs, m, Bottom);
    RenumberKeys(m, tops, Top, 0);
    RenumberPinned(m, tops, Top, 0);
    forall k | 0 <= k < |bottoms|
      ensures bottoms[k].tab.name in m1 && m1[bottoms[k].tab.name] == m[bottoms[k].tab.name]
      ensures PinnedWithRank(m1, bottoms[k].tab.name, Bottom)
    {
      var n := bottoms[k].tab.name;
      PinsDisjoint(tabs, m, n);
      assert PinnedWithRank(m, n, Bottom);
      RenumberKeepsOthers(m, tops, Top, 0, n);
    }
  }

  /** What normalising does to one name of the map: it stays, in its zone;
      it changes only when it is the name of a record of a pinned zone. */
  lemma NormalizedEntry(tabs: seq<Tab>, m: SortOrder, n: string)
    requires RanksParse(m, tabs) && n in m
    ensures n in NormalizedMap(tabs, m)
    ensures TokenZone(NormalizedMap(tabs, m)[n]) == TokenZone(m[n])
    ensures NotNamed(Pins(tabs, m, Top), n) && NotNamed(Pins(tabs, m, Bottom), n) ==> NormalizedMap(tabs, m)[n] == m[n]
    ensures !NotNamed(Pins(tabs, m, Top), n) || !NotNamed(Pins(tabs, m, Bottom), n) ==>
              PinnedWithRank(NormalizedMap(tabs, m), n, TokenZone(m[n]))
  {
    var tops, bottoms := Pins(tabs, m, Top), Pins(tabs, m, Bottom);
    var m1 := FirstPass(tabs, m);
    var r := NormalizedMap(tabs, m);
    FirstPassFrame(tabs, m);
    PinsMembers(tabs, m, Top);
    PinsMembers(tabs, m, Bottom);
    RenumberPinned(m1, bottoms, Bottom, 0);
    if !NotNamed(bottoms, n) {
      var j :| 0 <= j < |bottoms| && bottoms[j].tab.name == n;
      assert PinnedWithRank(m, bottoms[j].tab.name, Bottom);
      assert PinnedWithRank(r, bottoms[j].tab.name, Bottom);
    } else {
      RenumberKeepsOthers(m1, bottoms, Bottom, 0, n);
      if !NotNamed(tops, n) {
        var i :| 0 <= i < |tops| && tops[i].tab.name == n;
        assert PinnedWithRank(m, tops[i].tab.name, Top);
        assert PinnedWithRank(m1, tops[i].tab.name, Top);
      } else {
        RenumberKeepsOthers(m, tops, Top, 0, n);
      }
    }
  }

  /** Renumbering keeps every key and every name's zone, keeps ranks
      readable, and leaves alone the entries of tabs in the middle zone and of
      names that are not tabs at all. */
  lemma NormalizedFrame(tabs: seq<Tab>, m: SortOrder)
    requires RanksParse(m, tabs)
    ensures NormalizedMap(tabs, m).Keys == m.Keys
    ensures forall n :: n in m ==> TokenZone(NormalizedMap(tabs, m)[n]) == TokenZone(m[n])
    ensures forall n :: n in m && TokenZone(m[n]) == Alphabetical ==> NormalizedMap(tabs, m)[n] == m[n]
    ensures forall n :: n in m && (forall i :: 0 <= i < |tabs| ==> tabs[i].name != n) ==>
              NormalizedMap(tabs, m)[n] == m[n]
    ensures RanksParse(NormalizedMap(tabs, m), tabs)
  {
    var r := NormalizedMap(tabs, m);
    FirstPassFrame(tabs, m);
    PinsMembers(tabs, m, Bottom);
    RenumberKeys(FirstPass(tabs, m), Pins(tabs, m, Bottom), Bottom, 0);
    forall n | n in m
      ensures TokenZone(r[n]) == TokenZone(m[n])
      ensures TokenZone(m[n]) == Alphabetical ==> r[n] == m[n]
      ensures (forall i :: 0 <= i < |tabs| ==> tabs[i].name != n) ==> r[n] == m[n]
    {
      NormalizedEntry(tabs, m, n);
      if TokenZone(m[n]) == Alphabetical || (forall i :: 0 <= i < |tabs| ==> tabs[i].name != n) {
        NotNamedTabs(tabs, m, n);
      }
    }
    forall i | 0 <= i < |tabs| && tabs[i].name in r && TokenZone(r[tabs[i].name]) != Alphabetical
      ensures RankOf(r[tabs[i].name]).Some?
    {
      NormalizedEntry(tabs, m, tabs[i].name);
    }
  }

  /** A name pinned with an unnamed middle token, or not the name of any tab,
      belongs to no record of either pinned zone. */
  lemma NotNamedTabs(tabs: seq<Tab>, m: SortOrder, n: string)
    requires RanksParse(m, tabs) && n in m
    requires TokenZone(m[n]) == Alphabetical || (forall i :: 0 <= i < |tabs| ==> tabs[i].name != n)
    ensures NotNamed(Pins(tabs, m, Top), n) && NotNamed(Pins(tabs, m, Bottom), n)
  {
    PinsMembers(tabs, m, Top);
    PinsMembers(tabs, m, Bottom);
    var tops, bottoms := Pins(tabs, m, Top), Pins(tabs, m, Bottom);
    forall k | 0 <= k < |tops| ensures tops[k].tab.name != n {
      assert PinnedWithRank(m, tops[k].tab.name, Top);
      var i :| 0 <= i < |tabs| && tabs[i] == tops[k].tab;
    }
    forall k | 0 <= k < |bottoms| ensures bottoms[k].tab.name != n {
      assert PinnedWithRank(m, bottoms[k].tab.name, Bottom);
      var i :| 0 <= i < |tabs| && tabs[i] == bottoms[k].tab;
    }
  }

  /** The sorted records of a zone carry distinct names when the tabs do. */
  lemma PinsDistinct(tabs: seq<Tab>, m: SortOrder, zone: Zone)
    requires UniqueNames(tabs)
    ensures DistinctBy(Pins(tabs, m, zone), NameOf)
  {
    CollectDistinct(tabs, m, zone);
    SortDistinctBy(Collect(tabs, m, zone), ByPosition, NameOf);
  }

  /** With unique names, the `k`-th tab of a zone in (rank, `tabs`) order gets rank `k + 1`. */
  lemma NormalizedAssigns(tabs: seq<Tab>, m: SortOrder, zone: Zone, k: nat)
    requires zone != Alphabetical && RanksParse(m, tabs) && UniqueNames(tabs)
    requires k < |Pins(tabs, m, zone)|
    ensures Pins(tabs, m, zone)[k].tab.name in NormalizedMap(tabs, m)
    ensures NormalizedMap(tabs, m)[Pins(tabs, m, zone)[k].tab.name] == PinToken(zone, k + 1)
  {
    if zone == Top {
      NormalizedAssignsTop(tabs, m, k);
    } else {
      NormalizedAssignsBottom(tabs, m, k);
    }
  }

  lemma NormalizedAssignsTop(tabs: seq<Tab>, m: SortOrder, k: nat)
    requires RanksParse(m, tabs) && UniqueNames(tabs)
    requires k < |Pins(tabs, m, Top)|
    ensures Pins(tabs, m, Top)[k].tab.name in NormalizedMap(tabs, m)
    ensures NormalizedMap(tabs, m)[Pins(tabs, m, Top)[k].tab.name] == PinToken(Top, k + 1)
  {
    var tops := Pins(tabs, m, Top);
    var n := tops[k].tab.name;
    FirstPassAssigns(tabs, m, k);
    PinsDisjoint(tabs, m, n);
    assert !NotNamed(tops, n);
    RenumberKeepsOthers(FirstPass(tabs, m), Pins(tabs, m, Bottom), Bottom, 0, n);
  }

  lemma FirstPassAssigns(tabs: seq<Tab>, m: SortOrder, k: nat)
    requires RanksParse(m, tabs) && UniqueNames(tabs)
    requires k < |Pins(tabs, m, Top)|
    ensures Pins(tabs, m, Top)[k].tab.name in FirstPass(tabs, m)
    ensures FirstPass(tabs, m)[Pins(tabs, m, Top)[k].tab.name] == PinToken(Top, k + 1)
  {
    PinsRecorded(tabs, m, Top);
    PinsDistinct(tabs, m, Top);
    RenumberAssigns(m, Pins(tabs, m, Top), Top, 0, k);
  }

  /** Each sorted record's tab name maps to the token it was collected with. */
  lemma PinsRecorded(tabs: seq<Tab>, m: SortOrder, zone: Zone)
    requires zone != Alphabetical && RanksParse(m, tabs)
    ensures forall j :: 0 <= j < |Pins(tabs, m, zone)| ==>
              Pins(tabs, m, zone)[j].tab.name in m
              && m[Pins(tabs, m, zone)[j].tab.name] == Pins(tabs, m, zone)[j].originalOrder
  {
    PinsMembers(tabs, m, zone);
  }

  lemma NormalizedAssignsBottom(tabs: seq<Tab>, m: SortOrder, k: nat)
    requires RanksParse(m, tabs) && UniqueNames(tabs)
    requires k < |Pins(tabs, m, Bottom)|
    ensures Pins(tabs, m, Bottom)[k].tab.name in NormalizedMap(tabs, m)
    ensures NormalizedMap(tabs, m)[Pins(tabs, m, Bottom)[k].tab.name] == PinToken(Bottom, k + 1)
  {
    FirstPassKeepsBottoms(tabs, m);
    SecondPassAssigns(tabs, m, FirstPass(tabs, m), k);
  }

  lemma SecondPassAssigns(tabs: seq<Tab>, m: SortOrder, m1: SortOrder, k: nat)
    requires UniqueNames(tabs)
    requires k < |Pins(tabs, m, Bottom)|
    requires forall j :: 0 <= j < |Pins(tabs, m, Bottom)| ==>
              Pins(tabs, m, Bottom)[j].tab.name in m1
              && m1[Pins(tabs, m, Bottom)[j].tab.name] == Pins(tabs, m, Bottom)[j].originalOrder
    ensures Pins(tabs, m, Bottom)[k].tab.name in Renumber(m1, Pins(tabs, m, Bottom), Bottom, 0)
    ensures Renumber(m1, Pins(tabs, m, Bottom), Bottom, 0)[Pins(tabs, m, Bottom)[k].tab.name] == PinToken(Bottom, k + 1)
  {
    PinsDistinct(tabs, m, Bottom);
    RenumberAssigns(m1, Pins(tabs, m, Bottom), Bottom, 0, k);
  }

  /** After the top zone is renumbered, the bottom zone's names still map to
      the tokens their records were collected with. */
  lemma FirstPassKeepsBottoms(tabs: seq<Tab>, m: SortOrder)
    requires RanksParse(m, tabs)
    ensures forall j :: 0 <= j < |Pins(tabs, m, Bottom)| ==>
              Pins(tabs, m, Bottom)[j].tab.name in FirstPass(tabs, m)
              && FirstPass(tabs, m)[Pins(tabs, m, Bottom)[j].tab.name] == Pins(tabs, m, Bottom)[j].originalOrder
  {
    PinsMembers(tabs, m, Bottom);
    FirstPassFrame(tabs, m);
  }

  /** `Collect` under a map that keeps every name's zone reads the same tabs again. */
  lemma {:induction false} CollectRepinned(tabs: seq<Tab>, m: SortOrder, r: SortOrder, zone: Zone)
    requires r.Keys == m.Keys
    requires forall n :: n in m ==> TokenZone(r[n]) == TokenZone(m[n])
    ensures Collect(tabs, r, zone) == Map(Collect(tabs, m, zone), Repin(r))
  {
    if tabs != [] {
      CollectRepinned(tabs[1..], m, r, zone);
      CollectCons(tabs, m, zone);
      CollectCons(tabs, r, zone);
      MapAppend(CollectHead(tabs[0], m, zone), Collect(tabs[1..], m, zone), Repin(r));
      assert Map(CollectHead(tabs[0], m, zone), Repin(r)) == CollectHead(tabs[0], r, zone);
    }
  }

  /** The records of a zone re-read under the normalised map, in the old
      sorted order: the `k`-th carries rank `k + 1`. */
  function Renumbered(tabs: seq<Tab>, m: SortOrder, zone: Zone): seq<Ranked>
  {
    Map(Pins(tabs, m, zone), Repin(NormalizedMap(tabs, m)))
  }

  lemma RenumberedAt(tabs: seq<Tab>, m: SortOrder, zone: Zone, k: nat)
    requires zone != Alphabetical && RanksParse(m, tabs) && UniqueNames(tabs)
    requires k < |Pins(tabs, m, zone)|
    ensures Renumbered(tabs, m, zone)[k] == Ranked(Pins(tabs, m, zone)[k].tab, k + 1, PinToken(zone, k + 1))
  {
    NormalizedAssigns(tabs, m, zone, k);
    PinTokenReadsBack(zone, k + 1);
  }

  lemma RenumberedStrictly(tabs: seq<Tab>, m: SortOrder, zone: Zone)
    requires zone != Alphabetical && RanksParse(m, tabs) && UniqueNames(tabs)
    ensures StrictlySorted(Renumbered(tabs, m, zone), ByPosition)
  {
    var p := Renumbered(tabs, m, zone);
    forall i, j | 0 <= i < j < |p| ensures !ByPosition(p[j], p[i]) {
      RenumberedAt(tabs, m, zone, i);
      RenumberedAt(tabs, m, zone, j);
    }
  }

  /** After renumbering, each pinned zone sorted by rank carries the ranks
      1, 2, ..., N in the order the zone had before. */
  lemma NormalizedContiguous(tabs: seq<Tab>, m: SortOrder, zone: Zone)
    requires zone != Alphabetical && RanksParse(m, tabs) && UniqueNames(tabs)
    ensures |Pins(tabs, NormalizedMap(tabs, m), zone)| == |Pins(tabs, m, zone)|
    ensures forall k :: 0 <= k < |Pins(tabs, m, zone)| ==>
              Pins(tabs, NormalizedMap(tabs, m), zone)[k]
              == Ranked(Pins(tabs, m, zone)[k].tab, k + 1, PinToken(zone, k + 1))
  {
    var r := NormalizedMap(tabs, m);
    var p := Renumbered(tabs, m, zone);
    NormalizedFrame(tabs, m);
    CollectRepinned(tabs, m, r, zone);
    MapPermutation(Pins(tabs, m, zone), Collect(tabs, m, zone), Repin(r));
    ByPositionPreorder();
    SortSorted(Collect(tabs, r, zone), ByPosition);
    RenumberedStrictly(tabs, m, zone);
    SortedUnique(Pins(tabs, r, zone), p, ByPosition);
    forall k | 0 <= k < |Pins(tabs, m, zone)|
      ensures Pins(tabs, r, zone)[k] == Ranked(Pins(tabs, m, zone)[k].tab, k + 1, PinToken(zone, k + 1))
    {
      RenumberedAt(tabs, m, zone, k);
    }
  }

  /** Renumbering twice gives the map renumbering once gives. */
  lemma NormalizedIdempotent(tabs: seq<Tab>, order: Option<SortOrder>)
    requires order.Some? ==> RanksParse(order.value, tabs)
    requires UniqueNames(tabs)
    ensures Normalized(tabs, Normalized(tabs, order)) == Normalized(tabs, order)
  {
    if order.Some? {
      var m := order.value;
      var r := NormalizedMap(tabs, m);
      NormalizedFixed(tabs, m, Top);
      NormalizedFixed(tabs, m, Bottom);
      assert FirstPass(tabs, r) == r;
    }
  }

  /** Renumbering a zone of the normalised map again changes nothing. */
  lemma NormalizedFixed(tabs: seq<Tab>, m: SortOrder, zone: Zone)
    requires zone != Alphabetical && RanksParse(m, tabs) && UniqueNames(tabs)
    ensures Renumber(NormalizedMap(tabs, m), Pins(tabs, NormalizedMap(tabs, m), zone), zone, 0) == NormalizedMap(tabs, m)
  {
    var r := NormalizedMap(tabs, m);
    NormalizedContiguous(tabs, m, zone);
    RenumberFixed(r, Pins(tabs, r, zone), zone, 0);
  }

  /** Renumbering keeps the order within a zone: a smaller rank stays
      smaller, and of two equal ranks the tab earlier in `tabs` gets the
      smaller new rank. */
  lemma NormalizedKeepsOrder(tabs: seq<Tab>, m: SortOrder, zone: Zone, i: nat, j: nat)
    requires zone != Alphabetical && RanksParse(m, tabs) && UniqueNames(tabs)
    requires i < |tabs| && j < |tabs| && i != j
    requires Pinned(m, tabs[i].name, zone) && Pinned(m, tabs[j].name, zone)
    requires RankOf(m[tabs[i].name]).value < RankOf(m[tabs[j].name]).value
             || (RankOf(m[tabs[i].name]).value == RankOf(m[tabs[j].name]).value && i < j)
    ensures PinnedWithRank(NormalizedMap(tabs, m), tabs[i].name, zone)
    ensures PinnedWithRank(NormalizedMap(tabs, m), tabs[j].name, zone)
    ensures RankOf(NormalizedMap(tabs, m)[tabs[i].name]).value < RankOf(NormalizedMap(tabs, m)[tabs[j].name]).value
  {
    var p := NormalizedRank(tabs, m, zone, i);
    var q := NormalizedRank(tabs, m, zone, j);
    PinsOrder(tabs, m, zone, i, j, p, q);
  }

  /** Nothing stops two tabs from sharing a name. Both are collected with the
      one token of their name, and the second write of the renumbering wins:
      a name at rank 1 held by two tabs ends at rank 2, so with no other
      pinned tab the zone's ranks are not 1..N. */
  lemma DuplicateNameSkipsRank(t: Tab, m: SortOrder)
    requires t.name in m && m[t.name] == PinToken(Top, 1)
    ensures NormalizedMap([t, t], m) == m[t.name := PinToken(Top, 2)]
  {
    var x := Ranked(t, 1, PinToken(Top, 1));
    DuplicateCollected(t, m, x);
    TwinNormalized([t, t], m, x);
  }

  /** A top zone that collects one record twice, and an empty bottom zone,
      normalize to the second token for that record's name. */
  lemma TwinNormalized(tabs: seq<Tab>, m: SortOrder, x: Ranked)
    requires Collect(tabs, m, Top) == [x, x] && Collect(tabs, m, Bottom) == []
    requires x.originalOrder == PinToken(Top, 1)
    ensures NormalizedMap(tabs, m) == m[x.tab.name := PinToken(Top, 2)]
  {
    SortTwin(x, ByPosition);
    assert Pins(tabs, m, Top) == [x, x];
    DuplicateRenumbered(m, x);
  }

  lemma DuplicateCollected(t: Tab, m: SortOrder, x: Ranked)
    requires t.name in m && m[t.name] == PinToken(Top, 1) && x == Ranked(t, 1, PinToken(Top, 1))
    ensures Collect([t, t], m, Top) == [x, x] && Collect([t, t], m, Bottom) == []
  {
    PinTokenReadsBack(Top, 1);
    assert PinOf(m, t) == x;
    assert [t, t][1..] == [t];
    CollectCons([t, t], m, Top);
    CollectCons([t], m, Top);
    CollectCons([t, t], m, Bottom);
    CollectCons([t], m, Bottom);
  }

  /** Renumbering the same record twice leaves the second token. */
  lemma DuplicateRenumbered(m: SortOrder, x: Ranked)
    requires x.originalOrder == PinToken(Top, 1)
    ensures Renumber(m, [x, x], Top, 0) == m[x.tab.name := PinToken(Top, 2)]
  {
    assert PinToken(Top, 1) != PinToken(Top, 2) by {
      if PinToken(Top, 1) == PinToken(Top, 2) {
        PinTokenInjective(Top, 1, 2);
      }
    }
    assert [x, x][1..] == [x];
    assert Renumber(m, [x, x], Top, 0) == Renumber(m, [x], Top, 1);
    assert Renumber(m, [x], Top, 1) == Renumber(m[x.tab.name := PinToken(Top, 2)], [], Top, 2);
  }

  /** The new rank of a pinned tab is one more than the index of its record
      among the sorted records. */
  lemma NormalizedRank(tabs: seq<Tab>, m: SortOrder, zone: Zone, i: nat) returns (p: nat)
    requires zone != Alphabetical && RanksParse(m, tabs) && UniqueNames(tabs)
    requires i < |tabs| && Pinned(m, tabs[i].name, zone)
    ensures p < |Pins(tabs, m, zone)| && Pins(tabs, m, zone)[p] == PinOf(m, tabs[i])
    ensures PinnedWithRank(NormalizedMap(tabs, m), tabs[i].name, zone)
    ensures RankOf(NormalizedMap(tabs, m)[tabs[i].name]).value == p + 1
  {
    p := PinsIndex(tabs, m, zone, i);
    NormalizedAssigns(tabs, m, zone, p);
    PinTokenReadsBack(zone, p + 1);
  }

  /** Where the record of a pinned tab sits among the sorted records. */
  lemma PinsIndex(tabs: seq<Tab>, m: SortOrder, zone: Zone, i: nat) returns (p: nat)
    requires i < |tabs| && Pinned(m, tabs[i].name, zone)
    ensures p < |Pins(tabs, m, zone)| && Pins(tabs, m, zone)[p] == PinOf(m, tabs[i])
  {
    CollectAt(tabs, m, zone, i);
    var c := Collect(tabs, m, zone);
    assert c[|Collect(tabs[..i], m, zone)|] == PinOf(m, tabs[i]);
    assert PinOf(m, tabs[i]) in multiset(Sort(c, ByPosition));
    p :| 0 <= p < |Pins(tabs, m, zone)| && Pins(tabs, m, zone)[p] == PinOf(m, tabs[i]);
  }

  /** The record of the tab with the smaller rank, or of the earlier of two
      tabs with equal rank, comes first among the sorted records. */
  lemma PinsOrder(tabs: seq<Tab>, m: SortOrder, zone: Zone, i: nat, j: nat, p: nat, q: nat)
    requires zone != Alphabetical && RanksParse(m, tabs) && UniqueNames(tabs)
    requires i < |tabs| && j < |tabs| && i != j
    requires Pinned(m, tabs[i].name, zone) && Pinned(m, tabs[j].name, zone)
    requires RankOf(m[tabs[i].name]).value < RankOf(m[tabs[j].name]).value
             || (RankOf(m[tabs[i].name]).value == RankOf(m[tabs[j].name]).value && i < j)
    requires p < |Pins(tabs, m, zone)| && Pins(tabs, m, zone)[p] == PinOf(m, tabs[i])
    requires q < |Pins(tabs, m, zone)| && Pins(tabs, m, zone)[q] == PinOf(m, tabs[j])
    ensures p < q
  {
    var s := Pins(tabs, m, zone);
    var x, y := PinOf(m, tabs[i]), PinOf(m, tabs[j]);
    assert x.position == RankOf(m[tabs[i].name]).value && y.position == RankOf(m[tabs[j].name]).value;
    assert x.tab.name != y.tab.name;
    PinsDistinct(tabs, m, zone);
    if q <= p {
      assert q != p;
      ByPositionPreorder();
      SortSorted(Collect(tabs, m, zone), ByPosition);
      assert ByPosition(s[q], s[p]);
      assert x.position == y.position && i < j;
      CollectSortKeepsOrder(tabs, m, zone, i, j);
      assert false;
    }
  }
}
