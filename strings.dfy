/**
 * The parts of the .NET string library that the modelled code relies on:
 * white space, trimming, splitting, joining, searching, decimal numbers and
 * the ordinal order.  Case-insensitive comparison is modelled by folding
 * ASCII letters (see README, "Left out").
 */
module Strings {
  import opened Wrappers

  /** The characters Char.IsWhiteSpace accepts (Unicode Zs, Zl, Zp, U+0009..U+000D, U+0085). */
  const WhiteSpace: set<char> :=
    {' ', '\t', '\n', '\U{0B}', '\U{0C}', '\r', '\U{85}', '\U{A0}', '\U{1680}',
     '\U{2000}', '\U{2001}', '\U{2002}', '\U{2003}', '\U{2004}', '\U{2005}',
     '\U{2006}', '\U{2007}', '\U{2008}', '\U{2009}', '\U{200A}',
     '\U{2028}', '\U{2029}', '\U{202F}', '\U{205F}', '\U{3000}'}

  /** The white space int.TryParse skips around a number (NumberStyles.Integer). */
  const NumberWhite: set<char> := {' ', '\t', '\n', '\U{0B}', '\U{0C}', '\r'}

  /** String.IsNullOrWhiteSpace */
  predicate IsWhiteSpaceOnly(s: string)
  {
    forall i :: 0 <= i < |s| ==> s[i] in WhiteSpace
  }

  predicate StartsWith(s: string, prefix: string)
  {
    |prefix| <= |s| && s[..|prefix|] == prefix
  }

  predicate EndsWith(s: string, suffix: string)
  {
    |suffix| <= |s| && s[|s| - |suffix|..] == suffix
  }

  /** String.TrimStart(chars): drops the longest prefix made of `chars`. */
  function TrimStart(s: string, chars: set<char>): string
  {
    if s != [] && s[0] in chars then TrimStart(s[1..], chars) else s
  }

  lemma {:induction false} TrimStartFacts(s: string, chars: set<char>)
    ensures var r := TrimStart(s, chars);
      && |r| <= |s| && r == s[|s| - |r|..]
      && (r == [] || r[0] !in chars)
      && forall i :: 0 <= i < |s| - |r| ==> s[i] in chars
  {
    if s != [] && s[0] in chars {
      var t := s[1..];
      TrimStartFacts(t, chars);
      var r := TrimStart(t, chars);
      assert TrimStart(s, chars) == r;
      assert t[|t| - |r|..] == s[|s| - |r|..];
      forall i | 0 <= i < |s| - |r| ensures s[i] in chars {
        if i > 0 {
          assert s[i] == t[i - 1];
        }
      }
    } else {
      assert s[|s| - |s|..] == s;
    }
  }

  /** String.TrimEnd(chars): drops the longest suffix made of `chars`. */
  function TrimEnd(s: string, chars: set<char>): string
  {
    if s != [] && s[|s| - 1] in chars then TrimEnd(s[..|s| - 1], chars) else s
  }

  lemma {:induction false} TrimEndFacts(s: string, chars: set<char>)
    ensures var r := TrimEnd(s, chars);
      && |r| <= |s| && r == s[..|r|]
      && (r == [] || r[|r| - 1] !in chars)
      && forall i :: |r| <= i < |s| ==> s[i] in chars
  {
    if s != [] && s[|s| - 1] in chars {
      TrimEndFacts(s[..|s| - 1], chars);
    }
  }

  /** String.Trim(chars) */
  function Trim(s: string, chars: set<char>): string
  {
    TrimEnd(TrimStart(s, chars), chars)
  }

  lemma TrimEmptyIff(s: string)
    ensures Trim(s, WhiteSpace) == [] <==> IsWhiteSpaceOnly(s)
  {
    var t := TrimStart(s, WhiteSpace);
    TrimStartFacts(s, WhiteSpace);
    TrimEndFacts(t, WhiteSpace);
    assert forall i :: 0 <= i < |t| ==> t[i] == s[|s| - |t| + i];
  }

  /** The index of the first character of `s` in `chars`, or |s| when there is none. */
  function FirstIndexIn(s: string, chars: set<char>): (r: nat)
    ensures r <= |s|
    ensures forall i :: 0 <= i < r ==> s[i] !in chars
    ensures r < |s| ==> s[r] in chars
  {
    if s == [] then 0 else if s[0] in chars then 0 else 1 + FirstIndexIn(s[1..], chars)
  }

  /** String.IndexOf(char): the first index of `c`, or -1. */
  function IndexOfChar(s: string, c: char): (r: int)
    ensures -1 <= r < |s|
    ensures r == -1 <==> c !in s
    ensures r >= 0 ==> s[r] == c && c !in s[..r]
  {
    var i := FirstIndexIn(s, {c});
    assert c !in s[..i] by {
      forall k | 0 <= k < i ensures s[..i][k] != c { }
    }
    if i == |s| then (assert s[..i] == s; -1) else i
  }

  /** The first separator of a concatenation is in its first part, or else in its second. */
  lemma {:induction false} FirstIndexInAppend(x: string, z: string, chars: set<char>)
    ensures FirstIndexIn(x + z, chars) ==
      if FirstIndexIn(x, chars) < |x| then FirstIndexIn(x, chars) else |x| + FirstIndexIn(z, chars)
  {
    if x == [] {
      assert x + z == z;
    } else {
      assert (x + z)[0] == x[0] && (x + z)[1..] == x[1..] + z;
      if x[0] !in chars {
        FirstIndexInAppend(x[1..], z, chars);
      }
    }
  }

  /** String.Split(separators) without options: the pieces between separators, empty ones included. */
  function Split(s: string, seps: set<char>): (r: seq<string>)
    ensures |r| >= 1
    ensures forall i, j :: 0 <= i < |r| && 0 <= j < |r[i]| ==> r[i][j] !in seps
    decreases |s|
  {
    var i := FirstIndexIn(s, seps);
    if i == |s| then [s] else [s[..i]] + Split(s[i + 1..], seps)
  }

  /** String.Join(separator, parts) */
  function Join(parts: seq<string>, sep: string): string
  {
    if |parts| == 0 then "" else if |parts| == 1 then parts[0] else parts[0] + sep + Join(parts[1..], sep)
  }

  /** String.Replace(char, char): every `a` replaced by `b`. */
  function ReplaceChar(s: string, a: char, b: char): (r: string)
    ensures |r| == |s|
    ensures forall i :: 0 <= i < |s| ==> r[i] == if s[i] == a then b else s[i]
  {
    if s == [] then [] else [if s[0] == a then b else s[0]] + ReplaceChar(s[1..], a, b)
  }

  /** The non-empty pieces: StringSplitOptions.RemoveEmptyEntries. */
  function NonEmpty(parts: seq<string>): (r: seq<string>)
    ensures |r| <= |parts|
    ensures forall i :: 0 <= i < |r| ==> r[i] != []
  {
    if parts == [] then [] else (if parts[0] == [] then [] else [parts[0]]) + NonEmpty(parts[1..])
  }

  predicate NoneContains(parts: seq<string>, c: char)
  {
    forall i :: 0 <= i < |parts| ==> c !in parts[i]
  }

  /** Splitting a joined list on a separator none of its parts contains gives the list back. */
  lemma {:induction false} SplitJoin(parts: seq<string>, c: char)
    requires |parts| >= 1 && NoneContains(parts, c)
    ensures Split(Join(parts, [c]), {c}) == parts
  {
    if |parts| == 1 {
      var i := FirstIndexIn(parts[0], {c});
      assert i == |parts[0]|;
    } else {
      var s := Join(parts, [c]);
      var rest := Join(parts[1..], [c]);
      assert s == parts[0] + [c] + rest;
      var i := FirstIndexIn(s, {c});
      assert i == |parts[0]| by {
        assert s[|parts[0]|] == c;
        assert forall k :: 0 <= k < |parts[0]| ==> s[k] == parts[0][k];
      }
      assert s[..i] == parts[0];
      assert s[i + 1..] == rest;
      SplitJoin(parts[1..], c);
    }
  }

  /** Splitting at a last separator adds the text after it as the last piece. */
  lemma {:induction false} SplitSnoc(x: string, c: char, y: string)
    requires c !in y
    ensures Split(x + [c] + y, {c}) == Split(x, {c}) + [y]
    decreases |x|
  {
    var s := x + [c] + y;
    assert s == x + ([c] + y);
    FirstIndexInAppend(x, [c] + y, {c});
    var k := FirstIndexIn(x, {c});
    if k < |x| {
      assert FirstIndexIn(s, {c}) == k;
      assert s[..k] == x[..k];
      assert s[k + 1..] == x[k + 1..] + [c] + y;
      assert Split(s, {c}) == [x[..k]] + Split(x[k + 1..] + [c] + y, {c});
      assert Split(x, {c}) == [x[..k]] + Split(x[k + 1..], {c});
      SplitSnoc(x[k + 1..], c, y);
      assert [x[..k]] + (Split(x[k + 1..], {c}) + [y]) == ([x[..k]] + Split(x[k + 1..], {c})) + [y];
    } else {
      assert FirstIndexIn([c] + y, {c}) == 0;
      assert FirstIndexIn(s, {c}) == |x|;
      assert s[..|x|] == x && s[|x| + 1..] == y;
      assert Split(s, {c}) == [x] + Split(y, {c});
      assert FirstIndexIn(y, {c}) == |y|;
      assert Split(x, {c}) == [x];
    }
  }

  /** Joining the pieces of a split with the same separator gives the string back. */
  lemma {:induction false} JoinSplit(s: string, c: char)
    ensures Join(Split(s, {c}), [c]) == s
    decreases |s|
  {
    var i := FirstIndexIn(s, {c});
    if i < |s| {
      JoinSplit(s[i + 1..], c);
      var tail := Split(s[i + 1..], {c});
      assert Split(s, {c}) == [s[..i]] + tail;
      assert ([s[..i]] + tail)[1..] == tail;
      assert s == s[..i] + [c] + s[i + 1..];
    }
  }

  /** No part contains a character of `seps`. */
  predicate NoneContainsAny(parts: seq<string>, seps: set<char>)
  {
    forall i, j :: 0 <= i < |parts| && 0 <= j < |parts[i]| ==> parts[i][j] !in seps
  }

  /** A piece free of separators, followed by a separator, splits off as the first piece. */
  lemma SplitHead(p: string, c: char, rest: string, seps: set<char>)
    requires c in seps && forall k :: 0 <= k < |p| ==> p[k] !in seps
    ensures Split(p + [c] + rest, seps) == [p] + Split(rest, seps)
  {
    var s := p + [c] + rest;
    assert s == p + ([c] + rest);
    assert FirstIndexIn(p, seps) == |p|;
    assert FirstIndexIn([c] + rest, seps) == 0;
    FirstIndexInAppend(p, [c] + rest, seps);
    assert FirstIndexIn(s, seps) == |p|;
    assert s[..|p|] == p && s[|p| + 1..] == rest;
  }

  lemma NoneContainsAnyTail(parts: seq<string>, seps: set<char>)
    requires parts != [] && NoneContainsAny(parts, seps)
    ensures NoneContainsAny(parts[1..], seps)
  {
    forall a, b | 0 <= a < |parts[1..]| && 0 <= b < |parts[1..][a]| ensures parts[1..][a][b] !in seps {
      assert parts[1..][a] == parts[a + 1];
    }
  }

  /**
   * Joining parts with a separator `c` and ending the text with one more `c`, then
   * splitting at any of `seps` (which holds `c`), gives the parts and one empty last piece.
   */
  lemma {:induction false} SplitJoinTerminated(parts: seq<string>, c: char, seps: set<char>)
    requires |parts| >= 1 && c in seps && NoneContainsAny(parts, seps)
    ensures Split(Join(parts, [c]) + [c], seps) == parts + [[]]
    decreases |parts|
  {
    var p := parts[0];
    assert forall k :: 0 <= k < |p| ==> p[k] !in seps;
    if |parts| == 1 {
      assert Join(parts, [c]) + [c] == p + [c] + [];
      SplitHead(p, c, [], seps);
      assert FirstIndexIn([], seps) == 0;
      assert [p] + [[]] == parts + [[]];
    } else {
      var rest := Join(parts[1..], [c]) + [c];
      assert Join(parts, [c]) + [c] == p + [c] + rest;
      SplitHead(p, c, rest, seps);
      NoneContainsAnyTail(parts, seps);
      SplitJoinTerminated(parts[1..], c, seps);
      assert [p] + (parts[1..] + [[]]) == parts + [[]];
    }
  }

  /** An empty last piece is dropped by NonEmpty, and non-empty parts are kept. */
  lemma {:induction false} NonEmptyTerminated(parts: seq<string>)
    requires forall i :: 0 <= i < |parts| ==> parts[i] != []
    ensures NonEmpty(parts + [[]]) == parts
  {
    if parts != [] {
      assert (parts + [[]])[1..] == parts[1..] + [[]];
      NonEmptyTerminated(parts[1..]);
    }
  }

  /** A piece is kept by NonEmpty exactly when it is not empty. */
  lemma {:induction false} NonEmptyMembers(parts: seq<string>, x: string)
    ensures x in NonEmpty(parts) <==> x in parts && x != []
  {
    if parts != [] {
      NonEmptyMembers(parts[1..], x);
      assert parts == [parts[0]] + parts[1..];
    }
  }

  /** The first occurrence of `x` removed (List.Remove). */
  function RemoveFirst<T(==)>(xs: seq<T>, x: T): (r: seq<T>)
    ensures x in xs ==> |r| == |xs| - 1
    ensures x !in xs ==> r == xs
    ensures multiset(r) == multiset(xs) - multiset{x}
  {
    if xs == [] then []
    else
      assert xs == [xs[0]] + xs[1..];
      if xs[0] == x then xs[1..] else [xs[0]] + RemoveFirst(xs[1..], x)
  }

  lemma RemoveFirstMembers<T>(xs: seq<T>, x: T)
    ensures forall i :: 0 <= i < |RemoveFirst(xs, x)| ==> RemoveFirst(xs, x)[i] in xs
  {
    var r := RemoveFirst(xs, x);
    forall i | 0 <= i < |r| ensures r[i] in xs {
      assert r[i] in multiset(r);
    }
  }

  /** No element occurs twice. */
  predicate NoDuplicates<T(==)>(xs: seq<T>)
  {
    forall i, j :: 0 <= i < j < |xs| ==> xs[i] != xs[j]
  }

  /** Enumerable.Distinct: the first occurrence of every element, in order. */
  function Distinct<T(==)>(xs: seq<T>): (r: seq<T>)
    ensures forall i :: 0 <= i < |xs| ==> xs[i] in r
    ensures forall i :: 0 <= i < |r| ==> r[i] in xs
    ensures forall i, j :: 0 <= i < j < |r| ==> r[i] != r[j]
  {
    DistinctAfter(xs, {})
  }

  /** The first occurrence of every element of `xs` not in `seen`, in order. */
  function DistinctAfter<T(==)>(xs: seq<T>, seen: set<T>): (r: seq<T>)
    ensures forall i :: 0 <= i < |xs| ==> xs[i] in seen || xs[i] in r
    ensures forall i :: 0 <= i < |r| ==> r[i] in xs && r[i] !in seen
    ensures forall i, j :: 0 <= i < j < |r| ==> r[i] != r[j]
  {
    if xs == [] then []
    else if xs[0] in seen then DistinctAfter(xs[1..], seen)
    else [xs[0]] + DistinctAfter(xs[1..], seen + {xs[0]})
  }

  // ----- case folding and the ordinal order -----

  function ToLowerChar(c: char): char
  {
    if 'A' <= c <= 'Z' then (c as int + 32) as char else c
  }

  /** String.ToLowerInvariant on ASCII letters; other characters are kept. */
  function ToLower(s: string): (r: string)
    ensures |r| == |s|
    ensures forall i :: 0 <= i < |s| ==> r[i] == ToLowerChar(s[i])
  {
    seq(|s|, i requires 0 <= i < |s| => ToLowerChar(s[i]))
  }

  lemma ToLowerAppend(a: string, b: string)
    ensures ToLower(a + b) == ToLower(a) + ToLower(b)
  {
    assert forall i :: 0 <= i < |a + b| ==> ToLower(a + b)[i] == (ToLower(a) + ToLower(b))[i];
  }

  /** `a` folds to `b` character by character. */
  predicate FoldsTo(a: string, b: string)
  {
    |a| == |b| && forall i :: 0 <= i < |a| ==> ToLowerChar(a[i]) == b[i]
  }

  lemma FoldsToLower(a: string, b: string)
    ensures FoldsTo(a, b) <==> ToLower(a) == b
  {
    if FoldsTo(a, b) {
      assert forall i :: 0 <= i < |a| ==> ToLower(a)[i] == b[i];
    }
  }

  /** Ordinal case-insensitive equality. */
  predicate EqualsIgnoreCase(a: string, b: string)
  {
    ToLower(a) == ToLower(b)
  }

  /** The ordinal order of .NET strings: char codes compared in turn, a proper prefix first. */
  predicate OrdinalLess(a: string, b: string)
  {
    if a == [] then b != []
    else b != [] && (a[0] < b[0] || (a[0] == b[0] && OrdinalLess(a[1..], b[1..])))
  }

  lemma {:induction false} OrdinalTrichotomy(a: string, b: string)
    ensures OrdinalLess(a, b) || a == b || OrdinalLess(b, a)
    ensures !(OrdinalLess(a, b) && OrdinalLess(b, a))
  {
    if a != [] && b != [] {
      OrdinalTrichotomy(a[1..], b[1..]);
      if a[0] == b[0] && a[1..] == b[1..] {
        assert a == [a[0]] + a[1..] && b == [b[0]] + b[1..];
      }
    }
  }

  lemma {:induction false} OrdinalIrreflexive(a: string)
    ensures !OrdinalLess(a, a)
  {
    if a != [] {
      OrdinalIrreflexive(a[1..]);
    }
  }

  lemma {:induction false} OrdinalTransitive(a: string, b: string, c: string)
    requires OrdinalLess(a, b) && OrdinalLess(b, c)
    ensures OrdinalLess(a, c)
  {
    if a != [] && a[0] == b[0] && b[0] == c[0] {
      OrdinalTransitive(a[1..], b[1..], c[1..]);
    }
  }

  /** String.CompareOrdinal, reduced to its sign. */
  function OrdinalCompare(a: string, b: string): (r: int)
    ensures r < 0 <==> OrdinalLess(a, b)
    ensures r > 0 <==> OrdinalLess(b, a)
    ensures r == 0 <==> a == b
  {
    OrdinalTrichotomy(a, b);
    OrdinalIrreflexive(a);
    if OrdinalLess(a, b) then -1 else if a == b then 0 else 1
  }

  // ----- searching for a substring -----

  /** Case-insensitive equality, one character at a time. */
  predicate SameIgnoringCase(a: string, b: string)
    decreases |a|
  {
    |a| == |b| && (a == [] || (ToLowerChar(a[0]) == ToLowerChar(b[0]) && SameIgnoringCase(a[1..], b[1..])))
  }

  lemma {:induction false} SameIgnoringCaseIff(a: string, b: string)
    ensures SameIgnoringCase(a, b) <==> EqualsIgnoreCase(a, b)
    decreases |a|
  {
    if |a| == |b| && a != [] {
      SameIgnoringCaseIff(a[1..], b[1..]);
      var la, lb := ToLower(a), ToLower(b);
      if EqualsIgnoreCase(a, b) {
        assert la[0] == lb[0];
        assert ToLower(a[1..]) == ToLower(b[1..]) by {
          forall k | 0 <= k < |a| - 1 ensures ToLower(a[1..])[k] == ToLower(b[1..])[k] {
            assert la[k + 1] == lb[k + 1];
          }
        }
      }
      if SameIgnoringCase(a, b) {
        forall k | 0 <= k < |a| ensures la[k] == lb[k] {
          if k > 0 {
            assert ToLower(a[1..])[k - 1] == ToLower(b[1..])[k - 1];
          }
        }
      }
    }
  }

  /** `sub` occurs in `s` at index `i` (ordinally, or ignoring case). */
  predicate MatchAt(s: string, sub: string, i: nat, ignoreCase: bool)
  {
    i + |sub| <= |s| &&
    (if ignoreCase then SameIgnoringCase(s[i..i + |sub|], sub) else s[i..i + |sub|] == sub)
  }

  /** String.IndexOf(sub, from): the first index at or after `from` where `sub` occurs, or -1. */
  function IndexOfFrom(s: string, sub: string, from: nat, ignoreCase: bool): (r: int)
    requires from <= |s|
    ensures r == -1 || (from <= r && r + |sub| <= |s|)
    decreases |s| - from
  {
    if MatchAt(s, sub, from, ignoreCase) then from
    else if from == |s| then -1
    else IndexOfFrom(s, sub, from + 1, ignoreCase)
  }

  /** The index IndexOfFrom answers is a match. */
  lemma {:induction false} IndexOfFromMatch(s: string, sub: string, from: nat, ignoreCase: bool)
    requires from <= |s| && IndexOfFrom(s, sub, from, ignoreCase) != -1
    ensures MatchAt(s, sub, IndexOfFrom(s, sub, from, ignoreCase), ignoreCase)
    decreases |s| - from
  {
    if !MatchAt(s, sub, from, ignoreCase) {
      IndexOfFromMatch(s, sub, from + 1, ignoreCase);
    }
  }

  /** IndexOfFrom finds a match, and none lies before it (none at all when it answers -1). */
  lemma {:induction false} IndexOfFromFacts(s: string, sub: string, from: nat, ignoreCase: bool)
    requires from <= |s|
    ensures var r := IndexOfFrom(s, sub, from, ignoreCase);
      (r >= 0 ==> MatchAt(s, sub, r, ignoreCase)) &&
      forall k :: from <= k < (if r == -1 then |s| + 1 else r) ==> !MatchAt(s, sub, k, ignoreCase)
    decreases |s| - from
  {
    if !MatchAt(s, sub, from, ignoreCase) && from < |s| {
      IndexOfFromFacts(s, sub, from + 1, ignoreCase);
    }
  }

  /** String.Contains(sub) */
  predicate ContainsSub(s: string, sub: string, ignoreCase: bool)
  {
    exists i :: 0 <= i <= |s| && MatchAt(s, sub, i, ignoreCase)
  }

  lemma IndexOfFindsContains(s: string, sub: string, ignoreCase: bool)
    ensures IndexOfFrom(s, sub, 0, ignoreCase) >= 0 <==> ContainsSub(s, sub, ignoreCase)
  {
    IndexOfFromFacts(s, sub, 0, ignoreCase);
  }

  // ----- decimal numbers -----

  predicate IsDigit(c: char) { '0' <= c <= '9' }

  predicate AllDigits(s: string)
  {
    forall i :: 0 <= i < |s| ==> IsDigit(s[i])
  }

  function DigitValue(c: char): nat
    requires IsDigit(c)
  {
    c as int - '0' as int
  }

  /** The value of a string of decimal digits. */
  function DecimalValue(s: string): nat
    requires AllDigits(s)
  {
    if s == [] then 0 else DecimalValue(s[..|s| - 1]) * 10 + DigitValue(s[|s| - 1])
  }

  function DigitChar(d: nat): (c: char)
    requires d < 10
    ensures IsDigit(c) && DigitValue(c) == d
  {
    ('0' as int + d) as char
  }

  /** Int32.ToString() of a non-negative number: its decimal digits, without leading zeros. */
  function NatToString(n: nat): (r: string)
    ensures r != [] && AllDigits(r)
    ensures |r| > 1 ==> r[0] != '0'
  {
    if n < 10 then [DigitChar(n)] else NatToString(n / 10) + [DigitChar(n % 10)]
  }

  lemma {:induction false} NatToStringValue(n: nat)
    ensures DecimalValue(NatToString(n)) == n
  {
    if n >= 10 {
      NatToStringValue(n / 10);
      var s := NatToString(n);
      assert s[..|s| - 1] == NatToString(n / 10);
    }
  }

  const Int32Min: int := -0x8000_0000
  const Int32Max: int := 0x7FFF_FFFF

  /**
   * Int32.Parse(s) with NumberStyles.Integer: optional white space around an
   * optional '+' or '-' followed by one or more decimal digits; Format when the
   * text has another shape, Overflow when the value does not fit in 32 bits.
   */
  function ParseInt32(s: string): (r: Result<int>)
    ensures r.Ok? ==> Int32Min <= r.value <= Int32Max
  {
    ParseSignedDigits(Trim(s, NumberWhite))
  }

  /** An optional sign followed by one or more digits, within the 32-bit range. */
  function ParseSignedDigits(t: string): (r: Result<int>)
    ensures r.Ok? ==> Int32Min <= r.value <= Int32Max
  {
    var negative := t != [] && t[0] == '-';
    var digits := if t != [] && (t[0] == '-' || t[0] == '+') then t[1..] else t;
    if digits == [] || !AllDigits(digits) then Throws(Format)
    else
      var v := if negative then -(DecimalValue(digits) as int) else DecimalValue(digits) as int;
      if v < Int32Min || v > Int32Max then Throws(Overflow) else Ok(v)
  }

  /** int.TryParse(s, out v): the parsed value, or None where Int32.Parse would throw. */
  function TryParseInt32(s: string): Option<int>
  {
    match ParseInt32(s)
    case Ok(v) => Some(v)
    case Throws(_) => None
  }

  lemma TrimDigits(s: string)
    requires s != [] && AllDigits(s)
    ensures Trim(s, NumberWhite) == s
  {
    assert s[0] !in NumberWhite by { assert IsDigit(s[0]); }
    assert s[|s| - 1] !in NumberWhite by { assert IsDigit(s[|s| - 1]); }
    assert TrimStart(s, NumberWhite) == s;
    assert TrimEnd(s, NumberWhite) == s;
  }

  lemma ParseDigits(s: string)
    requires s != [] && AllDigits(s) && DecimalValue(s) <= Int32Max
    ensures ParseSignedDigits(s) == Ok(DecimalValue(s))
  {
    assert IsDigit(s[0]);
  }

  /** The decimal text of a 32-bit count parses back to the count. */
  lemma NatToStringParses(n: nat)
    requires n <= Int32Max
    ensures TryParseInt32(NatToString(n)) == Some(n)
  {
    var s := NatToString(n);
    NatToStringValue(n);
    TrimDigits(s);
    ParseDigits(s);
  }

  /** Int32.ToString(): a '-' before the digits of a negative number. */
  function IntToString(n: int): (r: string)
    ensures r != [] && IsDigit(r[|r| - 1])
    ensures forall i :: 0 <= i < |r| ==> IsDigit(r[i]) || r[i] == '-'
    ensures n >= 0 ==> AllDigits(r)
  {
    if n < 0 then "-" + NatToString(-n) else NatToString(n)
  }

  /** The decimal text of a 32-bit number parses back to the number. */
  lemma IntToStringParses(n: int)
    requires Int32Min <= n <= Int32Max
    ensures TryParseInt32(IntToString(n)) == Some(n)
  {
    if n >= 0 {
      NatToStringParses(n);
    } else {
      var d := NatToString(-n);
      var s := IntToString(n);
      NatToStringValue(-n);
      assert s[0] !in NumberWhite;
      assert s[|s| - 1] !in NumberWhite by { assert IsDigit(s[|s| - 1]); }
      assert TrimStart(s, NumberWhite) == s;
      assert TrimEnd(s, NumberWhite) == s;
      assert s[1..] == d;
    }
  }
}
