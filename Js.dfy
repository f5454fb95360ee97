/**
 * The pieces of JavaScript semantics that the bookmark organiser relies on:
 * absent values, `Array.prototype.splice` with one element removed or
 * inserted, the white-space set of `trim`,
 * `parseInt` without a radix and the decimal rendering of a non-negative
 * integer inside a template literal.
 */
module Js {

  /** `null`/`undefined` (None) or a present value (Some). */
  datatype Option<T> = None | Some(value: T)

  function Min(a: int, b: int): int { if a <= b then a else b }

  // ---------------------------------------------------------------------
  // Array.prototype.splice
  // ---------------------------------------------------------------------

  /** `s.splice(start, 1)` for a non-negative `start`: removes the element at
      `start`, or nothing when `start` is past the end. */
  function SpliceRemove<T>(s: seq<T>, start: nat): (r: seq<T>)
    ensures |r| == if start < |s| then |s| - 1 else |s|
    ensures forall j :: 0 <= j < |r| ==> r[j] == s[if j < start then j else j + 1]
    ensures start < |s| ==> multiset(r) + multiset{s[start]} == multiset(s)
  {
    if start < |s| then
      assert s == s[..start] + [s[start]] + s[start + 1..];
      s[..start] + s[start + 1..]
    else s
  }

  /** `s.splice(start, 0, x)` for a non-negative `start`: inserts `x` so that it
      ends up at index `start`, or appends it when `start` is past the end. */
  function SpliceInsert<T>(s: seq<T>, start: nat, x: T): (r: seq<T>)
    ensures |r| == |s| + 1
    ensures r[Min(start, |s|)] == x
    ensures forall j :: 0 <= j < |r| && j != Min(start, |s|) ==>
              r[j] == s[if j < Min(start, |s|) then j else j - 1]
    ensures multiset(r) == multiset(s) + multiset{x}
  {
    var k := Min(start, |s|);
    assert s == s[..k] + s[k..];
    s[..k] + [x] + s[k..]
  }

  /** Removing an element and putting it back at the same index is the identity. */
  lemma RemoveThenInsert<T>(s: seq<T>, i: nat)
    requires i < |s|
    ensures SpliceInsert(SpliceRemove(s, i), i, s[i]) == s
  {
    var r := SpliceInsert(SpliceRemove(s, i), i, s[i]);
    forall j | 0 <= j < |s| ensures r[j] == s[j] {}
  }

  /** Inserting an element and removing it again is the identity. */
  lemma InsertThenRemove<T>(s: seq<T>, i: nat, x: T)
    ensures SpliceRemove(SpliceInsert(s, i, x), Min(i, |s|)) == s
  {
    var r := SpliceRemove(SpliceInsert(s, i, x), Min(i, |s|));
    forall j | 0 <= j < |s| ensures r[j] == s[j] {}
  }

  // ---------------------------------------------------------------------
  // Strings
  // ---------------------------------------------------------------------

  /** The WhiteSpace and LineTerminator code points of ECMA-262, which `trim`
      strips and `parseInt` skips. */
  predicate IsWhitespace(c: char)
  {
    c == '\t' || c == '\n' || c == '\U{000B}' || c == '\U{000C}' || c == '\r' || c == ' '
    || c == '\U{00A0}' || c == '\U{1680}' || ('\U{2000}' <= c <= '\U{200A}')
    || c == '\U{2028}' || c == '\U{2029}' || c == '\U{202F}' || c == '\U{205F}'
    || c == '\U{3000}' || c == '\U{FEFF}'
  }

  /** Drops leading white space (the first step of `parseInt`, and half of `trim`). */
  function TrimStart(s: string): (r: string)
    ensures |r| <= |s| && r == s[|s| - |r|..]
    ensures forall i :: 0 <= i < |s| - |r| ==> IsWhitespace(s[i])
    ensures r == [] || !IsWhitespace(r[0])
  {
    if s != [] && IsWhitespace(s[0]) then TrimStart(s[1..]) else s
  }

  /** Drops trailing white space. */
  function TrimEnd(s: string): (r: string)
    ensures |r| <= |s| && r == s[..|r|]
    ensures forall i :: |r| <= i < |s| ==> IsWhitespace(s[i])
    ensures r == [] || !IsWhitespace(r[|r| - 1])
  {
    if s != [] && IsWhitespace(s[|s| - 1]) then TrimEnd(s[..|s| - 1]) else s
  }

  /** The number of white-space characters `s` starts with. */
  function LeadingWhitespace(s: string): (n: nat)
    ensures n <= |s|
    ensures forall i :: 0 <= i < n ==> IsWhitespace(s[i])
    ensures n < |s| ==> !IsWhitespace(s[n])
  {
    if s != [] && IsWhitespace(s[0]) then 1 + LeadingWhitespace(s[1..]) else 0
  }

  lemma {:induction false} TrimStartDropsLeading(s: string)
    ensures TrimStart(s) == s[LeadingWhitespace(s)..]
  {
    if s != [] && IsWhitespace(s[0]) {
      TrimStartDropsLeading(s[1..]);
      assert s[1..][LeadingWhitespace(s[1..])..] == s[LeadingWhitespace(s)..];
    }
  }

  /** `r` is the part of `s` after its leading white space, with only white
      space following it in `s`. */
  predicate TrimmedFrom(s: string, r: string)
  {
    && LeadingWhitespace(s) + |r| <= |s|
    && r == s[LeadingWhitespace(s)..LeadingWhitespace(s) + |r|]
    && forall i :: LeadingWhitespace(s) + |r| <= i < |s| ==> IsWhitespace(s[i])
  }

  /** `String.prototype.trim`: the part of `s` between its leading and its
      trailing white space. */
  function Trim(s: string): (r: string)
    ensures TrimmedFrom(s, r)
    ensures r == [] || (!IsWhitespace(r[0]) && !IsWhitespace(r[|r| - 1]))
  {
    TrimStartDropsLeading(s);
    TrimEnd(TrimStart(s))
  }

  /** Text that neither starts nor ends with white space is its own trim. */
  lemma TrimTrimmed(s: string)
    requires s == [] || (!IsWhitespace(s[0]) && !IsWhitespace(s[|s| - 1]))
    ensures Trim(s) == s
  {
    assert TrimStart(s) == s;
    assert TrimEnd(s) == s;
  }

  // ---------------------------------------------------------------------
  // Numbers rendered as text and text read as numbers
  // ---------------------------------------------------------------------

  function DecimalDigit(d: nat): (c: char)
    requires d < 10
    ensures '0' <= c <= '9' && c as int - '0' as int == d
  {
    ('0' as int + d) as char
  }

  /** The value of `c` as a digit in radix 36 ('0'..'9', then letters of either
      case), or 36 when `c` is no such digit. */
  function DigitValue(c: char): (v: nat)
    ensures v <= 36
  {
    if '0' <= c <= '9' then c as int - '0' as int
    else if 'a' <= c <= 'z' then c as int - 'a' as int + 10
    else if 'A' <= c <= 'Z' then c as int - 'A' as int + 10
    else 36
  }

  /** The decimal text of a non-negative integer, as `${n}` produces it. */
  function NatToString(n: nat): (s: string)
    ensures |s| >= 1
    ensures forall i :: 0 <= i < |s| ==> DigitValue(s[i]) < 10 && '0' <= s[i] <= '9'
    ensures n >= 1 ==> s[0] != '0'
    ensures n < 10 <==> |s| == 1
  {
    if n < 10 then [DecimalDigit(n)] else NatToString(n / 10) + [DecimalDigit(n % 10)]
  }

  /** The longest prefix of `s` made of digits of the given radix. */
  function DigitPrefix(s: string, radix: nat): (z: string)
    ensures |z| <= |s| && z == s[..|z|]
    ensures forall i :: 0 <= i < |z| ==> DigitValue(z[i]) < radix
    ensures |z| < |s| ==> DigitValue(s[|z|]) >= radix
  {
    if s != [] && DigitValue(s[0]) < radix then [s[0]] + DigitPrefix(s[1..], radix) else []
  }

  /** The value of a string of digits in the given radix, most significant first. */
  function DigitsValue(z: string, radix: nat): nat
  {
    if z == [] then 0
    else DigitsValue(z[..|z| - 1], radix) * radix + Min(DigitValue(z[|z| - 1]), radix) as nat
  }

  /** `parseInt(s)` with no radix: skips leading white space, reads an optional
      sign, then a `0x`/`0X` prefix selects radix 16, and the longest run of
      digits that follows is the value. None stands for NaN (no digit at all).
      Trailing text is ignored, so `parseInt("3x")` is 3. */
  function ParseInt(s: string): (r: Option<int>)
  {
    var t := TrimStart(s);
    var negative := t != [] && t[0] == '-';
    var u := if t != [] && (t[0] == '-' || t[0] == '+') then t[1..] else t;
    var hex := |u| >= 2 && u[0] == '0' && (u[1] == 'x' || u[1] == 'X');
    var radix := if hex then 16 else 10;
    var z := DigitPrefix(if hex then u[2..] else u, radix);
    if z == [] then None
    else Some(if negative then -(DigitsValue(z, radix) as int) else DigitsValue(z, radix))
  }

  lemma {:induction false} DigitsValueOfNatToString(n: nat)
    ensures DigitsValue(NatToString(n), 10) == n
  {
    var s := NatToString(n);
    if n >= 10 {
      var q, d := n / 10, n % 10;
      assert s == NatToString(q) + [DecimalDigit(d)];
      assert s[..|s| - 1] == NatToString(q);
      DigitsValueOfNatToString(q);
      assert DigitValue(s[|s| - 1]) == d;
      calc {
        DigitsValue(s, 10);
        DigitsValue(NatToString(q), 10) * 10 + d;
        q * 10 + d;
        n;
      }
    } else {
      assert s[..0] == [];
    }
  }

  lemma {:induction false} DigitPrefixOfDigits(s: string, radix: nat)
    requires forall i :: 0 <= i < |s| ==> DigitValue(s[i]) < radix
    ensures DigitPrefix(s, radix) == s
  {
    if s != [] {
      DigitPrefixOfDigits(s[1..], radix);
    }
  }

  /** Reading back the decimal text of a non-negative integer gives the integer. */
  lemma ParseIntNatToString(n: nat)
    ensures ParseInt(NatToString(n)) == Some(n)
  {
    var s := NatToString(n);
    assert !IsWhitespace(s[0]);
    assert TrimStart(s) == s;
    assert s[0] != '-' && s[0] != '+';
    assert !(|s| >= 2 && s[0] == '0');
    DigitPrefixOfDigits(s, 10);
    DigitsValueOfNatToString(n);
  }
}
