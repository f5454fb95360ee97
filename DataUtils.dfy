/**
 * app/utils/DataUtils.js: copying, merging and searching plain JavaScript
 * data, sorting by a custom order, and three string helpers.
 */
module DataUtils {
  import opened Js
  import opened Sorting

  /** A JavaScript value as these utilities see it. Numbers are integers
      here; functions, dates and objects with a prototype of their own are
      not modelled, nor is the order of an object's keys. */
  datatype Value =
    | Undefined
    | Null
    | Bool(b: bool)
    | Num(n: int)
    | Str(s: string)
    | Arr(items: seq<Value>)
    | Obj(fields: map<string, Value>)

  /** `!!v` */
  predicate Truthy(v: Value)
  {
    match v
    case Undefined => false
    case Null => false
    case Bool(b) => b
    case Num(n) => n != 0
    case Str(s) => s != ""
    case _ => true
  }

  /** `obj[key]` on a plain object: the property, or undefined. */
  function Get(m: map<string, Value>, key: string): Value
  {
    if key in m then m[key] else Undefined
  }

  // ---------------------------------------------------------------------
  // Own enumerable properties
  // ---------------------------------------------------------------------

  /** The properties of an array-like value: element `i` under the name of
      `i` in decimal. */
  function IndexMap<V>(xs: seq<V>): map<string, V>
  {
    if xs == [] then map[] else IndexMap(xs[..|xs| - 1])[NatToString(|xs| - 1) := xs[|xs| - 1]]
  }

  /** Element `i` is the property named `i`. */
  lemma {:induction false} IndexMapAt<V>(xs: seq<V>, i: nat)
    requires i < |xs|
    ensures NatToString(i) in IndexMap(xs) && IndexMap(xs)[NatToString(i)] == xs[i]
  {
    var n := |xs| - 1;
    if i < n {
      IndexMapAt(xs[..n], i);
      ParseIntNatToString(i);
      ParseIntNatToString(n);
    }
  }

  /** Every property is named after an index. */
  lemma {:induction false} IndexMapKey<V>(xs: seq<V>, k: string) returns (i: nat)
    requires k in IndexMap(xs)
    ensures i < |xs| && k == NatToString(i)
  {
    var n := |xs| - 1;
    if k == NatToString(n) {
      i := n;
    } else {
      i := IndexMapKey(xs[..n], k);
    }
  }

  /** The one-character strings of `s`, as `s[i]` gives them. */
  function Characters(s: string): (r: seq<Value>)
    ensures |r| == |s| && forall i :: 0 <= i < |r| ==> r[i] == Str([s[i]])
  {
    seq(|s|, i requires 0 <= i < |s| => Str([s[i]]))
  }

  /** `{...v}`: the own enumerable properties of `v` as a plain object. An
      array or a string has one per index; a number or a boolean has none,
      and spreading null or undefined gives `{}`. */
  function Spread(v: Value): map<string, Value>
  {
    match v
    case Obj(fields) => fields
    case Arr(items) => IndexMap(items)
    case Str(s) => IndexMap(Characters(s))
    case _ => map[]
  }

  /** A property of `v` is smaller than `v`, unless it is one character of a string. */
  lemma SpreadSmaller(v: Value, key: string)
    requires key in Spread(v)
    ensures Spread(v)[key] < v || (v.Str? && Spread(v)[key].Str?)
  {
    if v.Arr? {
      var i := IndexMapKey(v.items, key);
      IndexMapAt(v.items, i);
    } else if v.Str? {
      var i := IndexMapKey(Characters(v.s), key);
      IndexMapAt(Characters(v.s), i);
    }
  }

  lemma SpreadEmpty(v: Value, length: nat)
    requires (v.Arr? && length == |v.items|) || (v.Str? && length == |v.s|)
    ensures |Spread(v)| == 0 <==> length == 0
  {
    if length > 0 {
      if v.Arr? {
        IndexMapAt(v.items, 0);
      } else {
        IndexMapAt(Characters(v.s), 0);
      }
    } else {
      assert Spread(v).Keys == {};
    }
  }

  /** `isEmpty`: null and undefined are empty; anything else is empty when
      it has no own keys (`Object.keys`), which for arrays and strings means
      length zero and for numbers and booleans always holds. */
  function IsEmpty(v: Value): (r: bool)
    ensures r <==> v.Undefined? || v.Null? || |Spread(v)| == 0
  {
    if v.Undefined? || v.Null? then true
    else if v.Arr? then
      SpreadEmpty(v, |v.items|);
      |v.items| == 0
    else if v.Str? then
      SpreadEmpty(v, |v.s|);
      |v.s| == 0
    else if v.Obj? then |v.fields| == 0
    else true
  }

  // ---------------------------------------------------------------------
  // deepCopy
  // ---------------------------------------------------------------------

  /** `deepCopy`: arrays element by element, objects property by property
      over their own keys, anything else as it is. Values have no identity
      here, so that the copy shares no object with the original (what
      `deepCopy` is for) cannot be stated; the contract says the copy is
      equal to the original. */
  method DeepCopy(v: Value) returns (r: Value)
    ensures r == v
    decreases v
  {
    match v
    case Arr(items) =>
      var copied: seq<Value> := [];
      for i := 0 to |items|
        invariant copied == items[..i]
      {
        var c := DeepCopy(items[i]);
        copied := copied + [c];
      }
      assert items[..|items|] == items;
      return Arr(copied);
    case Obj(fields) =>
      var copy: map<string, Value> := map[];
      var keys := fields.Keys;
      while keys != {}
        invariant keys <= fields.Keys
        invariant copy.Keys == fields.Keys - keys
        invariant forall k :: k in copy ==> copy[k] == fields[k]
        decreases keys
      {
        var k :| k in keys;
        var c := DeepCopy(fields[k]);
        copy := copy[k := c];
        keys := keys - {k};
      }
      assert copy == fields;
      return Obj(copy);
    case _ =>
      return v;
  }

  // ---------------------------------------------------------------------
  // deepMerge
  // ---------------------------------------------------------------------

  /** `result[key] || {}` */
  function OrEmpty(v: Value): Value
  {
    if Truthy(v) then v else Obj(map[])
  }

  /** Every plain-object property of `s` is smaller than `source`. */
  ghost predicate PropertiesBelow(s: map<string, Value>, source: Value)
  {
    forall k :: k in s && s[k].Obj? ==> s[k] < source
  }

  lemma SpreadBelow(v: Value)
    ensures PropertiesBelow(Spread(v), v)
  {
    forall k | k in Spread(v) && Spread(v)[k].Obj? ensures Spread(v)[k] < v {
      SpreadSmaller(v, k);
    }
  }

  /** The value `deepMerge` stores under `key`, a key of the source's
      properties `s`, when `t` holds the target's properties: a plain-object
      source value is merged into the target's value (or into `{}` when that
      is falsy); any other source value, arrays and null included, replaces it. */
  function MergedEntry(t: map<string, Value>, s: map<string, Value>, key: string, source: Value): Value
    requires key in s && PropertiesBelow(s, source)
    decreases source, 0
  {
    if s[key].Obj? then Obj(Merged(OrEmpty(Get(t, key)), s[key])) else s[key]
  }

  /** The properties of `deepMerge(target, source)`. */
  function Merged(target: Value, source: Value): map<string, Value>
    decreases source, 1
  {
    var t, s := Spread(target), Spread(source);
    SpreadBelow(source);
    map k | k in t.Keys + s.Keys :: if k in s then MergedEntry(t, s, k, source) else t[k]
  }

  /** The merged value under a key of the source. */
  lemma MergedAt(target: Value, source: Value, key: string)
    requires key in Spread(source)
    ensures PropertiesBelow(Spread(source), source)
    ensures Merged(target, source)[key] == MergedEntry(Spread(target), Spread(source), key, source)
  {
    SpreadBelow(source);
  }

  /** `deepMerge`: starts from a shallow copy of the target and goes over
      the source's own keys. */
  method DeepMerge(target: Value, source: Value) returns (result: Value)
    ensures result == Obj(Merged(target, source))
    decreases source, 1
  {
    var t := Spread(target);
    var s := Spread(source);
    ghost var goal := Merged(target, source);
    MergedKeys(target, source);
    SpreadBelow(source);
    forall k | k in s
      ensures goal[k] == MergedEntry(t, s, k, source)
    {
      MergedAt(target, source, k);
    }
    var r := MergeProperties(t, s, goal, source);
    return Obj(r);
  }

  /** The loop of `deepMerge` over the source's properties `s`, writing into
      a copy of the target's properties `t`. */
  method MergeProperties(t: map<string, Value>, s: map<string, Value>, ghost goal: map<string, Value>,
                         ghost source: Value) returns (r: map<string, Value>)
    requires PropertiesBelow(s, source)
    requires goal.Keys == t.Keys + s.Keys
    requires forall k :: k in t && k !in s ==> goal[k] == t[k]
    requires forall k :: k in s ==> goal[k] == MergedEntry(t, s, k, source)
    ensures r == goal
    decreases source, 0
  {
    r := t;
    var keys := s.Keys;
    while keys != {}
      invariant keys <= s.Keys
      invariant r.Keys == t.Keys + (s.Keys - keys)
      invariant forall k :: k in r ==> r[k] == if k in s && k !in keys then goal[k] else t[k]
      decreases keys
    {
      var key :| key in keys;
      assert Get(r, key) == Get(t, key);
      var merged: Value;
      if s[key].Obj? {
        merged := DeepMerge(OrEmpty(Get(r, key)), s[key]);
      } else {
        merged := s[key];
      }
      assert merged == goal[key];
      MergeStep(r, t, s, goal, keys, key);
      r := r[key := merged];
      keys := keys - {key};
    }
    SameMaps(r, goal, t, s);
  }

  /** One key of the source written: the loop invariant of `MergeProperties` is kept. */
  lemma MergeStep(r: map<string, Value>, t: map<string, Value>, s: map<string, Value>, goal: map<string, Value>,
                  keys: set<string>, key: string)
    requires key in keys && keys <= s.Keys && goal.Keys == t.Keys + s.Keys
    requires r.Keys == t.Keys + (s.Keys - keys)
    requires forall k :: k in r ==> r[k] == if k in s && k !in keys then goal[k] else t[k]
    ensures r[key := goal[key]].Keys == t.Keys + (s.Keys - (keys - {key}))
    ensures forall k :: k in r[key := goal[key]] ==>
              r[key := goal[key]][k] == if k in s && k !in keys - {key} then goal[k] else t[k]
  {
  }

  /** Two maps over the keys of `t` and `s` that agree with `t` off `s` and
      with each other on `s` are equal. */
  lemma SameMaps(r: map<string, Value>, goal: map<string, Value>, t: map<string, Value>, s: map<string, Value>)
    requires r.Keys == t.Keys + s.Keys && goal.Keys == t.Keys + s.Keys
    requires forall k :: k in r ==> r[k] == if k in s then goal[k] else t[k]
    requires forall k :: k in t && k !in s ==> goal[k] == t[k]
    ensures r == goal
  {
  }

  /** The result has exactly the keys of both inputs; a key only the target
      has keeps the target's value. */
  lemma MergedKeys(target: Value, source: Value)
    ensures Merged(target, source).Keys == Spread(target).Keys + Spread(source).Keys
    ensures forall k :: k in Spread(target) && k !in Spread(source) ==> Merged(target, source)[k] == Spread(target)[k]
  {
  }

  /** A source value that is not a plain object overrides; a plain object
      is merged recursively. */
  lemma MergedSourceWins(target: Value, source: Value, key: string)
    requires key in Spread(source)
    ensures !Spread(source)[key].Obj? ==> Merged(target, source)[key] == Spread(source)[key]
    ensures Spread(source)[key].Obj? ==>
              Merged(target, source)[key] == Obj(Merged(OrEmpty(Get(Spread(target), key)), Spread(source)[key]))
  {
  }

  /** Merging into `{}` copies the source's properties. */
  lemma {:induction false} MergeIntoEmpty(source: Value)
    ensures Merged(Obj(map[]), source) == Spread(source)
    decreases source
  {
    var s := Spread(source);
    var m := Merged(Obj(map[]), source);
    SpreadBelow(source);
    assert Spread(Obj(map[])) == map[];
    assert m.Keys == s.Keys;
    forall k | k in s
      ensures m[k] == s[k]
    {
      assert m[k] == MergedEntry(map[], s, k, source);
      if s[k].Obj? {
        MergeIntoEmpty(s[k]);
      }
    }
  }

  /** Merging a value into itself gives its own properties. */
  lemma {:induction false} MergeWithItself(v: Value)
    ensures Merged(v, v) == Spread(v)
    decreases v
  {
    var s := Spread(v);
    var m := Merged(v, v);
    SpreadBelow(v);
    assert m.Keys == s.Keys;
    forall k | k in s
      ensures m[k] == s[k]
    {
      assert m[k] == MergedEntry(s, s, k, v);
      if s[k].Obj? {
        assert OrEmpty(Get(s, k)) == s[k];
        MergeWithItself(s[k]);
      }
    }
  }

  // ---------------------------------------------------------------------
  // customSort
  // ---------------------------------------------------------------------

  /** `customOrder`: an order number per name. */
  type CustomOrder = map<string, int>

  /** The comparator of `customSort` on the names of two items; `alphabetical`
      is `defaultSort === 'alphabetical'`. */
  function Compare(order: CustomOrder, alphabetical: bool, localeCompare: (string, string) -> int,
                   a: string, b: string): int
  {
    if a in order && b in order then order[a] - order[b]
    else if a in order then (if order[a] < 0 then -1 else 1)
    else if b in order then (if order[b] < 0 then 1 else -1)
    else if alphabetical then localeCompare(a, b)
    else 0
  }

  /** The "not after" relation of the comparator on items named by `name`. */
  function CustomLe<T>(order: CustomOrder, alphabetical: bool, localeCompare: (string, string) -> int,
                       name: T -> string): (T, T) -> bool
  {
    (a: T, b: T) => Compare(order, alphabetical, localeCompare, name(a), name(b)) <= 0
  }

  /** Which of the three runs a name sorts into: a negative custom order, no
      custom order, a non-negative custom order. */
  function Run(order: CustomOrder, n: string): nat
  {
    if n in order then (if order[n] < 0 then 0 else 2) else 1
  }

  /** The comparator orders by run first, then by custom order within the
      runs that have one, then by name (or not at all) within the middle run. */
  predicate RunLe(order: CustomOrder, alphabetical: bool, localeCompare: (string, string) -> int, a: string, b: string)
  {
    Run(order, a) < Run(order, b)
    || (Run(order, a) == Run(order, b)
        && (if a in order then order[a] <= order[b] else !alphabetical || localeCompare(a, b) <= 0))
  }

  lemma CompareIsRunOrder(order: CustomOrder, alphabetical: bool, localeCompare: (string, string) -> int, a: string, b: string)
    ensures Compare(order, alphabetical, localeCompare, a, b) <= 0 <==> RunLe(order, alphabetical, localeCompare, a, b)
  {
  }

  /** With a consistent `localeCompare`, the comparator is consistent, so the
      sort is determined. */
  lemma CustomLePreorder<T(!new)>(order: CustomOrder, alphabetical: bool, localeCompare: (string, string) -> int,
                                  name: T -> string)
    requires TotalPreorder((x: string, y: string) => localeCompare(x, y) <= 0)
    ensures TotalPreorder(CustomLe(order, alphabetical, localeCompare, name))
  {
    var le := CustomLe(order, alphabetical, localeCompare, name);
    var nameLe := (x: string, y: string) => localeCompare(x, y) <= 0;
    forall a, b ensures le(a, b) || le(b, a) {
      CompareIsRunOrder(order, alphabetical, localeCompare, name(a), name(b));
      CompareIsRunOrder(order, alphabetical, localeCompare, name(b), name(a));
      assert nameLe(name(a), name(b)) || nameLe(name(b), name(a));
    }
    forall a, b, c | Chain(a, b, c, le) ensures le(a, c) {
      var x, y, z := name(a), name(b), name(c);
      CompareIsRunOrder(order, alphabetical, localeCompare, x, y);
      CompareIsRunOrder(order, alphabetical, localeCompare, y, z);
      CompareIsRunOrder(order, alphabetical, localeCompare, x, z);
      if Run(order, x) == Run(order, y) == Run(order, z) == 1 && alphabetical {
        Transitive(x, y, z, nameLe);
      }
    }
  }

  /** `customSort`: sorts the array in place with the comparator and returns it. */
  method CustomSort<T>(a: array<T>, name: T -> string, order: CustomOrder, alphabetical: bool,
                       localeCompare: (string, string) -> int) returns (r: array<T>)
    modifies a
    ensures r == a
    ensures a[..] == Sort(old(a[..]), CustomLe(order, alphabetical, localeCompare, name))
  {
    var sorted := Sort(a[..], CustomLe(order, alphabetical, localeCompare, name));
    forall i | 0 <= i < a.Length {
      a[i] := sorted[i];
    }
    return a;
  }

  /** The sorted items are a permutation of the input in which items with a
      negative custom order come first, items without one next and items
      with a non-negative one last; each run with a custom order ascends by
      it, and the middle run ascends by name when the default sort is
      alphabetical. */
  lemma CustomSortOrder<T(!new)>(s: seq<T>, name: T -> string, order: CustomOrder, alphabetical: bool,
                                 localeCompare: (string, string) -> int)
    requires TotalPreorder((x: string, y: string) => localeCompare(x, y) <= 0)
    ensures var r := Sort(s, CustomLe(order, alphabetical, localeCompare, name));
            multiset(r) == multiset(s)
            && forall i, j :: 0 <= i < j < |r| ==> RunLe(order, alphabetical, localeCompare, name(r[i]), name(r[j]))
  {
    var le := CustomLe(order, alphabetical, localeCompare, name);
    CustomLePreorder(order, alphabetical, localeCompare, name);
    SortSorted(s, le);
    var r := Sort(s, le);
    forall i, j | 0 <= i < j < |r| ensures RunLe(order, alphabetical, localeCompare, name(r[i]), name(r[j])) {
      assert le(r[i], r[j]);
      CompareIsRunOrder(order, alphabetical, localeCompare, name(r[i]), name(r[j]));
    }
  }

  // ---------------------------------------------------------------------
  // findInNested
  // ---------------------------------------------------------------------

  /** `item[childProperty]` when it is an array, or no children. */
  function Children(item: Value, childProperty: string): (r: seq<Value>)
    ensures r != [] ==> Arr(r) < item
  {
    var c := Get(Spread(item), childProperty);
    if c.Arr? then
      SpreadSmaller(item, childProperty);
      c.items
    else []
  }

  /** What a search gives: the item found, `null`, or a TypeError thrown by
      reading `childProperty` of a null or undefined item. */
  datatype Search = Found(item: Value) | NotFound | SearchThrew

  /** `findInNested(items, predicate, childProperty)`, from index `i` of
      `items` on: the predicate is applied to each item before its children are searched; a
      match found among the children is returned only when it is truthy. */
  function FindFrom(items: seq<Value>, i: nat, p: Value -> bool, childProperty: string): Search
    requires i <= |items|
    decreases Arr(items), |items| - i
  {
    if i == |items| then NotFound
    else if p(items[i]) then Found(items[i])
    else if items[i].Null? || items[i].Undefined? then SearchThrew
    else
      var children := Children(items[i], childProperty);
      var found := if children == [] then NotFound else FindFrom(children, 0, p, childProperty);
      if found.SearchThrew? then SearchThrew
      else if found.Found? && Truthy(found.item) then found
      else FindFrom(items, i + 1, p, childProperty)
  }

  function FindInNested(items: seq<Value>, p: Value -> bool, childProperty: string): Search
  {
    FindFrom(items, 0, p, childProperty)
  }

  /** The items from index `i` on and all their descendants, in preorder. */
  function Preorder(items: seq<Value>, i: nat, childProperty: string): seq<Value>
    requires i <= |items|
    decreases Arr(items), |items| - i
  {
    if i == |items| then []
    else
      var children := Children(items[i], childProperty);
      [items[i]] + (if children == [] then [] else Preorder(children, 0, childProperty))
      + Preorder(items, i + 1, childProperty)
  }

  /** The first element of `s` satisfying `p`. */
  function First(s: seq<Value>, p: Value -> bool): (r: Search)
    ensures !r.SearchThrew?
    ensures r.Found? ==> r.item in s && p(r.item)
    ensures r.NotFound? <==> forall j :: 0 <= j < |s| ==> !p(s[j])
  {
    if s == [] then NotFound else if p(s[0]) then Found(s[0]) else First(s[1..], p)
  }

  lemma {:induction false} FirstAppend(a: seq<Value>, b: seq<Value>, p: Value -> bool)
    ensures First(a + b, p) == if First(a, p).Found? then First(a, p) else First(b, p)
  {
    if a != [] {
      assert (a + b)[1..] == a[1..] + b;
      FirstAppend(a[1..], b, p);
    } else {
      assert a + b == b;
    }
  }

  /** On a tree of objects (no null or undefined item) in which every item
      the predicate accepts is truthy, `findInNested` returns the first
      accepted item in preorder, and null exactly when no item is accepted. */
  lemma {:induction false} FindIsFirstInPreorder(items: seq<Value>, i: nat, p: Value -> bool, childProperty: string)
    requires i <= |items|
    requires forall v :: v in Preorder(items, i, childProperty) ==> !v.Null? && !v.Undefined? && (p(v) ==> Truthy(v))
    ensures FindFrom(items, i, p, childProperty) == First(Preorder(items, i, childProperty), p)
    decreases Arr(items), |items| - i
  {
    if i < |items| {
      var children := Children(items[i], childProperty);
      var sub := if children == [] then [] else Preorder(children, 0, childProperty);
      var rest := Preorder(items, i + 1, childProperty);
      assert Preorder(items, i, childProperty) == [items[i]] + sub + rest;
      FirstAppend([items[i]] + sub, rest, p);
      FirstAppend([items[i]], sub, p);
      if children != [] {
        FindIsFirstInPreorder(children, 0, p, childProperty);
      }
      FindIsFirstInPreorder(items, i + 1, p, childProperty);
    }
  }

  // ---------------------------------------------------------------------
  // String helpers
  // ---------------------------------------------------------------------

  /** `\w`: an ASCII letter, digit or underscore. */
  predicate IsWordChar(c: char)
  {
    'a' <= c <= 'z' || 'A' <= c <= 'Z' || '0' <= c <= '9' || c == '_'
  }

  /** `toUpperCase` on a word character. */
  function ToUpper(c: char): (u: char)
    ensures IsWordChar(u) == IsWordChar(c) && !('a' <= u <= 'z')
    ensures 'a' <= c <= 'z' ==> 'A' <= u <= 'Z' && u as int - 'A' as int == c as int - 'a' as int
    ensures !('a' <= c <= 'z') ==> u == c
  {
    if 'a' <= c <= 'z' then (c as int - 32) as char else c
  }

  /** `\b\w` matches at `i`: a word character not preceded by one. */
  predicate WordStart(s: string, i: nat)
    requires i < |s|
  {
    IsWordChar(s[i]) && (i == 0 || !IsWordChar(s[i - 1]))
  }

  /** `replace(/[_-]/g, ' ')` */
  function SeparatorsToSpaces(s: string): (r: string)
    ensures |r| == |s|
    ensures forall i {:trigger r[i]} :: 0 <= i < |s| && (s[i] == '_' || s[i] == '-') ==> r[i] == ' '
    ensures forall i {:trigger r[i]} :: 0 <= i < |s| && s[i] != '_' && s[i] != '-' ==> r[i] == s[i]
    ensures forall i :: 0 <= i < |r| ==> r[i] != '_' && r[i] != '-'
  {
    seq(|s|, i requires 0 <= i < |s| => if s[i] == '_' || s[i] == '-' then ' ' else s[i])
  }

  /** `replace(/\b\w/g, l => l.toUpperCase())` */
  function CapitalizeWords(s: string): (r: string)
    ensures |r| == |s|
    ensures forall i {:trigger r[i]} :: 0 <= i < |s| && WordStart(s, i) ==> r[i] == ToUpper(s[i])
    ensures forall i {:trigger r[i]} :: 0 <= i < |s| && !WordStart(s, i) ==> r[i] == s[i]
    ensures forall i :: 0 <= i < |s| ==> IsWordChar(r[i]) == IsWordChar(s[i])
  {
    seq(|s|, i requires 0 <= i < |s| => if WordStart(s, i) then ToUpper(s[i]) else s[i])
  }

  /** No word of `s` starts with a lower-case letter. */
  predicate Capitalized(s: string)
  {
    forall i :: 0 <= i < |s| && WordStart(s, i) ==> !('a' <= s[i] <= 'z')
  }

  /** `formatDisplayName`: separators become spaces, words start upper-case,
      and the ends are trimmed. */
  function FormatDisplayName(s: string): (r: string)
    ensures TrimmedFrom(CapitalizeWords(SeparatorsToSpaces(s)), r)
    ensures forall i :: 0 <= i < |r| ==> r[i] != '_' && r[i] != '-'
    ensures r == [] || (!IsWhitespace(r[0]) && !IsWhitespace(r[|r| - 1]))
    ensures Capitalized(r)
  {
    var spaced := SeparatorsToSpaces(s);
    var c := CapitalizeWords(spaced);
    CapitalizeWordsCapitalizes(spaced);
    TrimKeepsCapitalized(c);
    Trim(c)
  }

  /** Formatting a formatted name changes nothing. */
  lemma FormatDisplayNameIdempotent(s: string)
    ensures FormatDisplayName(FormatDisplayName(s)) == FormatDisplayName(s)
  {
    var r := FormatDisplayName(s);
    NoSeparatorsKept(r);
    CapitalizedKept(r);
    TrimTrimmed(r);
  }

  lemma NoSeparatorsKept(s: string)
    requires forall i :: 0 <= i < |s| ==> s[i] != '_' && s[i] != '-'
    ensures SeparatorsToSpaces(s) == s
  {
  }

  lemma CapitalizedKept(s: string)
    requires Capitalized(s)
    ensures CapitalizeWords(s) == s
  {
    var c := CapitalizeWords(s);
    forall i | 0 <= i < |s| ensures c[i] == s[i] {
      if WordStart(s, i) {
        assert !('a' <= s[i] <= 'z');
      }
    }
  }

  lemma CapitalizeWordsCapitalizes(s: string)
    ensures Capitalized(CapitalizeWords(s))
  {
    var c := CapitalizeWords(s);
    forall j | 0 <= j < |c| && WordStart(c, j) ensures !('a' <= c[j] <= 'z') {
      CapitalizedWordStart(s, c, j);
    }
  }

  /** Trimming keeps the words capitalized: a word start of the trimmed
      text is one of the text. */
  lemma TrimKeepsCapitalized(c: string)
    requires Capitalized(c)
    ensures Capitalized(Trim(c))
  {
    var a := TrimStart(c);
    var r := TrimEnd(a);
    var off := |c| - |a|;
    assert r == c[off..off + |r|];
    forall i | 0 <= i < |r| && WordStart(r, i) ensures !('a' <= r[i] <= 'z') {
      if off > 0 {
        WhitespaceIsNoWordChar(c[off - 1]);
      }
      SliceWordStart(c, off, r, i);
      assert r[i] == c[off + i];
    }
  }

  lemma WhitespaceIsNoWordChar(c: char)
    requires IsWhitespace(c)
    ensures !IsWordChar(c)
  {
  }

  /** A word start of a slice is one of the whole text when the slice does
      not begin inside a word. */
  lemma SliceWordStart(c: string, off: nat, r: string, i: nat)
    requires off + |r| <= |c| && r == c[off..off + |r|]
    requires i < |r| && WordStart(r, i)
    requires off > 0 ==> !IsWordChar(c[off - 1])
    ensures WordStart(c, off + i)
  {
    assert r[i] == c[off + i];
    if i > 0 {
      assert r[i - 1] == c[off + i - 1];
    }
  }

  /** Capitalizing leaves no lower-case letter at a word start. */
  lemma CapitalizedWordStart(s: string, c: string, j: nat)
    requires c == CapitalizeWords(s) && j < |c| && WordStart(c, j)
    ensures !('a' <= c[j] <= 'z')
  {
    assert WordStart(s, j);
  }

  /** `s.split(c).pop()`: the text after the last `c`, or all of `s`. */
  function AfterLast(s: string, c: char): (r: string)
    ensures |r| <= |s| && r == s[|s| - |r|..]
    ensures forall j :: 0 <= j < |r| ==> r[j] != c
    ensures |r| < |s| ==> s[|s| - |r| - 1] == c
  {
    if s == [] then []
    else if s[|s| - 1] == c then []
    else AfterLast(s[..|s| - 1], c) + [s[|s| - 1]]
  }

  /** `getFilenameFromPath`: the part after the last '/' or '\'. */
  function FilenameFromPath(path: string): (r: string)
    ensures |r| <= |path| && r == path[|path| - |r|..]
    ensures forall j :: 0 <= j < |r| ==> r[j] != '/' && r[j] != '\\'
    ensures |r| < |path| ==> path[|path| - |r| - 1] == '/' || path[|path| - |r| - 1] == '\\'
    ensures (forall j :: 0 <= j < |path| ==> path[j] != '/' && path[j] != '\\') ==> r == path
  {
    var afterSlash := AfterLast(path, '/');
    AfterLast(afterSlash, '\\')
  }

  /** `lastIndexOf(c)`, -1 when absent. */
  function LastIndexOf(s: string, c: char): (i: int)
    ensures -1 <= i < |s|
    ensures i >= 0 ==> s[i] == c
    ensures forall j :: i < j < |s| ==> s[j] != c
  {
    if s == [] then -1
    else if s[|s| - 1] == c then |s| - 1
    else LastIndexOf(s[..|s| - 1], c)
  }

  /** `removeExtension`: the text before the last '.', or the whole name
      when that text is empty (no dot, or the only dot leads). */
  function RemoveExtension(filename: string): (r: string)
    ensures r == filename
            || (r != [] && |r| < |filename| && r == filename[..|r|] && filename[|r|] == '.'
                && forall j :: |r| < j < |filename| ==> filename[j] != '.')
    ensures (forall j :: 0 <= j < |filename| ==> filename[j] != '.') ==> r == filename
  {
    var i := LastIndexOf(filename, '.');
    var prefix := if i <= 0 then "" else filename[..i];
    if prefix != "" then prefix else filename
  }

  /** Adding an extension and removing it again gives the name back. */
  lemma RemoveAddedExtension(name: string, extension: string)
    requires name != [] && forall j :: 0 <= j < |extension| ==> extension[j] != '.'
    ensures RemoveExtension(name + ['.'] + extension) == name
  {
    var f := name + ['.'] + extension;
    assert f[|name|] == '.';
    assert f[..|name|] == name;
  }

  /** A name whose only dot leads (a hidden file) is left as it is. */
  lemma HiddenFileKept(name: string)
    requires forall j :: 0 <= j < |name| ==> name[j] != '.'
    ensures RemoveExtension(['.'] + name) == ['.'] + name
  {
  }
}
