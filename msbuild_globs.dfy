/**
 * Wildcard includes and exclude patterns of the MSBuild evaluator: how an
 * include is recognised as a glob or as an item transform, how a glob path is
 * cut into directory segments, and how a ';'-separated exclude list becomes
 * one regular expression.
 */
module MSBuildGlobs {
  import opened Wrappers
  import opened Strings

  const Wildcards: set<char> := {'*', '?'}

  /** The characters ExcludeToRegex escapes with a backslash. */
  const RegexEscapeChars: set<char> :=
    {'\\', '^', '$', '{', '}', '[', ']', '(', ')', '.', '*', '+', '?', '|', '<', '>', '-', '&'}

  /** An include is a glob when it holds '*' or '?'. */
  function IsWildcardInclude(inc: string): (r: bool)
    ensures r <==> exists i :: 0 <= i < |inc| && inc[i] in Wildcards
  {
    FirstIndexIn(inc, Wildcards) != |inc|
  }

  /** An include of the form "@(...)" with something between the parentheses. */
  predicate IsIncludeTransform(inc: string)
  {
    |inc| > 3 && inc[0] == '@' && inc[1] == '(' && inc[|inc| - 1] == ')'
  }

  /** The transform expression AddItem hands to ExecuteTransform. */
  function TransformBody(inc: string): string
    requires IsIncludeTransform(inc)
  {
    inc[2..|inc| - 1]
  }

  /** Wrapping a non-empty expression in "@(" and ")" gives a transform whose body is that expression, and nothing shorter is one. */
  lemma TransformBodyRoundTrip(e: string)
    ensures IsIncludeTransform("@(" + e + ")") <==> |e| >= 1
    ensures |e| >= 1 ==> TransformBody("@(" + e + ")") == e
  {
    var s := "@(" + e + ")";
    assert |s| == |e| + 3;
    assert s[2..|s| - 1] == e;
  }

  /** The path after '/' becomes '\' and a trailing "**" gets a "\*" file part. */
  function NormalizedGlobPath(path: string): string
  {
    var p := ReplaceChar(path, '/', '\\');
    if p == "**" || EndsWith(p, "\\**") then p + "\\*" else p
  }

  /** SplitWildcardFilePath: the directory segments of a glob. */
  function SplitWildcardFilePath(path: string): seq<string>
  {
    Split(NormalizedGlobPath(path), {'\\'})
  }

  /** No segment holds a separator of either kind. */
  lemma SplitWildcardFilePathSegments(path: string)
    ensures var segs := SplitWildcardFilePath(path);
      |segs| >= 1 && forall i :: 0 <= i < |segs| ==> '\\' !in segs[i] && '/' !in segs[i]
  {
    var n := NormalizedGlobPath(path);
    assert '/' !in n by {
      var p := ReplaceChar(path, '/', '\\');
      assert forall j :: 0 <= j < |p| ==> p[j] != '/';
      assert '/' !in p;
    }
    SplitPartsFrom(n, {'\\'}, '/');
  }

  /** Joined with '\' the segments give the normalised path back. */
  lemma SplitWildcardFilePathJoin(path: string)
    ensures Join(SplitWildcardFilePath(path), "\\") == NormalizedGlobPath(path)
  {
    JoinSplit(NormalizedGlobPath(path), '\\');
  }

  /** A glob ending in "**" always ends in the segments "**" and "*". */
  lemma SplitWildcardFilePathRecursive(path: string)
    requires var p := ReplaceChar(path, '/', '\\'); p == "**" || EndsWith(p, "\\**")
    ensures var segs := SplitWildcardFilePath(path);
      |segs| >= 2 && segs[|segs| - 1] == "*" && segs[|segs| - 2] == "**"
  {
    SplitEndsWithStars(ReplaceChar(path, '/', '\\'));
  }

  /** The pieces of a split contain only characters of the string. */
  lemma {:induction false} SplitPartsFrom(s: string, seps: set<char>, c: char)
    requires c !in s
    ensures forall i :: 0 <= i < |Split(s, seps)| ==> c !in Split(s, seps)[i]
    decreases |s|
  {
    var k := FirstIndexIn(s, seps);
    if k < |s| {
      assert s == s[..k] + [s[k]] + s[k + 1..];
      SplitPartsFrom(s[k + 1..], seps, c);
    }
  }

  lemma SplitEndsWithStars(p: string)
    requires p == "**" || EndsWith(p, "\\**")
    ensures var segs := Split(p + "\\*", {'\\'});
      |segs| >= 2 && segs[|segs| - 1] == "*" && segs[|segs| - 2] == "**"
  {
    assert p + "\\*" == p + ['\\'] + "*";
    SplitSnoc(p, '\\', "*");
    SplitLastIsStars(p);
    var segs := Split(p, {'\\'});
    assert Split(p + "\\*", {'\\'}) == segs + ["*"];
    assert (segs + ["*"])[|segs| - 1] == segs[|segs| - 1];
  }

  lemma SplitLastIsStars(p: string)
    requires p == "**" || EndsWith(p, "\\**")
    ensures var segs := Split(p, {'\\'});
      |segs| >= 1 && segs[|segs| - 1] == "**"
  {
    if p == "**" {
      assert FirstIndexIn(p, {'\\'}) == 2;
    } else {
      var q := p[..|p| - 3];
      assert p == q + p[|p| - 3..];
      assert p == q + ['\\'] + "**";
      SplitSnoc(q, '\\', "**");
    }
  }

  // ----- ExcludeToRegex -----

  /** .NET String.Replace(@"\\", @"\"): every non-overlapping pair of backslashes, from the left, becomes one. */
  function CollapseBackslashes(s: string): (r: string)
    ensures |r| <= |s|
  {
    if |s| >= 2 && s[0] == '\\' && s[1] == '\\' then "\\" + CollapseBackslashes(s[2..])
    else if s == [] then []
    else [s[0]] + CollapseBackslashes(s[1..])
  }

  /** The exclude list after separator normalisation, split on ';' with empty entries dropped. */
  function ExcludeEntries(exclude: string): seq<string>
  {
    NonEmpty(Split(CollapseBackslashes(ReplaceChar(exclude, '/', '\\')), {';'}))
  }

  /** The glob one entry contributes: trimmed; in directories-only mode only entries ending in "\**", with that suffix cut. */
  function EntryPattern(entry: string, directoriesOnly: bool): Option<string>
  {
    var ex := Trim(entry, WhiteSpace);
    if !directoriesOnly then Some(ex)
    else if |ex| >= 3 && EqualsIgnoreCase(ex[|ex| - 3..], "\\**") then Some(ex[..|ex| - 3])
    else None
  }

  /** The globs the entries contribute, in order. */
  function SelectedPatterns(entries: seq<string>, directoriesOnly: bool): seq<string>
  {
    if entries == [] then []
    else
      SelectedPatterns(entries[..|entries| - 1], directoriesOnly) +
      AsList(EntryPattern(entries[|entries| - 1], directoriesOnly))
  }

  function AsList(o: Option<string>): seq<string>
  {
    if o.Some? then [o.value] else []
  }

  /** How many glob characters the loop consumes at the front of `ex`: "**\" together, "**" together, otherwise one. */
  function TokenWidth(ex: string): (w: nat)
    requires ex != []
    ensures 1 <= w <= |ex|
  {
    if ex[0] == '*' && |ex| > 1 && ex[1] == '*' then
      if |ex| > 2 && ex[2] == '\\' then 3 else 2
    else 1
  }

  /** The regular expression for the glob characters at the front of `ex`. */
  function TokenRegex(ex: string): string
    requires ex != []
  {
    if ex[0] == '*' then
      if |ex| > 1 && ex[1] == '*' then
        if |ex| > 2 && ex[2] == '\\' then "(.*\\\\)?"   // zero or more directories
        else ".*"
      else "[^\\\\]*"
    else if ex[0] in RegexEscapeChars then ['\\', ex[0]]
    else [ex[0]]
  }

  /** The regular expression for one glob, read from the front. */
  function Translate(ex: string): string
    decreases |ex|
  {
    if ex == [] then "" else TokenRegex(ex) + Translate(ex[TokenWidth(ex)..])
  }

  function Anchored(ex: string): string
  {
    "^" + Translate(ex) + "$"
  }

  /** The anchored patterns separated by '|', built left to right as the StringBuilder does. */
  function Alternation(patterns: seq<string>): string
  {
    if patterns == [] then ""
    else
      var init := Alternation(patterns[..|patterns| - 1]);
      (if init == "" then "" else init + "|") + Anchored(patterns[|patterns| - 1])
  }

  /** What ExcludeToRegex returns. */
  function ExcludeRegex(exclude: string, directoriesOnly: bool): string
  {
    Alternation(SelectedPatterns(ExcludeEntries(exclude), directoriesOnly))
  }

  /** The alternation is exactly the '|'-join of the anchored patterns. */
  lemma {:induction false} AlternationIsJoin(patterns: seq<string>)
    ensures Alternation(patterns) == Join(AnchoredAll(patterns), "|")
    ensures patterns != [] ==> Alternation(patterns) != ""
  {
    if patterns != [] {
      var init := patterns[..|patterns| - 1];
      AlternationIsJoin(init);
      JoinSnoc(AnchoredAll(init), Anchored(patterns[|patterns| - 1]), "|");
      assert AnchoredAll(patterns) == AnchoredAll(init) + [Anchored(patterns[|patterns| - 1])];
    }
  }

  function AnchoredAll(patterns: seq<string>): (r: seq<string>)
    ensures |r| == |patterns|
    ensures forall i :: 0 <= i < |r| ==> r[i] == Anchored(patterns[i])
  {
    if patterns == [] then [] else AnchoredAll(patterns[..|patterns| - 1]) + [Anchored(patterns[|patterns| - 1])]
  }

  lemma {:induction false} JoinSnoc(parts: seq<string>, x: string, sep: string)
    ensures Join(parts + [x], sep) == if parts == [] then x else Join(parts, sep) + sep + x
  {
    if |parts| >= 2 {
      JoinSnoc(parts[1..], x, sep);
      assert (parts + [x])[1..] == parts[1..] + [x];
    } else if |parts| == 1 {
      assert (parts + [x])[1..] == [x];
    }
  }

  /**
   * How many regular-expression characters stand for one glob token at the front of `r`.
   * A translated pattern escapes every '(', '.' and '[' of the glob, so an unescaped one
   * starts the expression of a wildcard.
   */
  function UntokenWidth(r: string): (w: nat)
    requires r != []
    ensures 1 <= w <= |r|
  {
    if r[0] == '(' && |r| >= 7 then 7
    else if r[0] == '.' && |r| >= 2 then 2
    else if r[0] == '[' && |r| >= 6 then 6
    else if r[0] == '\\' && |r| > 1 then 2
    else 1
  }

  /** The glob token those characters stand for. */
  function UntokenGlob(r: string): string
    requires r != []
  {
    if r[0] == '(' && |r| >= 7 then "**\\"
    else if r[0] == '.' && |r| >= 2 then "**"
    else if r[0] == '[' && |r| >= 6 then "*"
    else if r[0] == '\\' && |r| > 1 then [r[1]]
    else [r[0]]
  }

  /** Reads a translated pattern back into the glob it came from. */
  function Untranslate(r: string): string
    decreases |r|
  {
    if r == [] then "" else UntokenGlob(r) + Untranslate(r[UntokenWidth(r)..])
  }

  /** Reading back the regular expression of one token gives that token, whatever follows it. */
  lemma TokenRoundTrip(ex: string, rest: string)
    requires ex != []
    ensures var r := TokenRegex(ex) + rest;
      r != [] && UntokenWidth(r) == |TokenRegex(ex)| && UntokenGlob(r) == ex[..TokenWidth(ex)]
  {
    var t := TokenRegex(ex);
    var r := t + rest;
    if ex[0] == '*' {
      if |ex| > 1 && ex[1] == '*' {
        if |ex| > 2 && ex[2] == '\\' {
          assert r[..7] == t;
          assert ex[..3] == "**\\";
        } else {
          assert r[0] == '.' && r[..2] == t;
          assert ex[..2] == "**";
        }
      } else {
        assert r[0] == '[' && r[..6] == t;
        assert ex[..1] == "*";
      }
    } else if ex[0] in RegexEscapeChars {
      assert r[0] == '\\' && r[1] == ex[0];
      assert ex[..1] == [ex[0]];
    } else {
      assert r[0] == ex[0] && r[0] != '(' && r[0] != '.' && r[0] != '[' && r[0] != '\\';
      assert ex[..1] == [ex[0]];
    }
  }

  /** The translation loses nothing: different globs give different regular expressions. */
  lemma {:induction false} TranslateRoundTrip(ex: string)
    ensures Untranslate(Translate(ex)) == ex
    decreases |ex|
  {
    if ex != [] {
      TranslateRoundTrip(ex[TokenWidth(ex)..]);
      TranslateStep(ex);
    }
  }

  /** Reading back the translation of a glob gives its first token, then what the rest reads back as. */
  lemma TranslateStep(ex: string)
    requires ex != [] && Untranslate(Translate(ex[TokenWidth(ex)..])) == ex[TokenWidth(ex)..]
    ensures Untranslate(Translate(ex)) == ex
  {
    var w := TokenWidth(ex);
    var rest := Translate(ex[w..]);
    TokenRoundTrip(ex, rest);
    UntranslateFront(TokenRegex(ex), rest, ex[..w]);
    assert Untranslate(Translate(ex)) == ex[..w] + ex[w..];
    assert ex == ex[..w] + ex[w..];
  }

  /** Reading back a pattern whose front stands for the glob token `g`. */
  lemma UntranslateFront(t: string, rest: string, g: string)
    requires t + rest != [] && UntokenWidth(t + rest) == |t| && UntokenGlob(t + rest) == g
    ensures Untranslate(t + rest) == g + Untranslate(rest)
  {
    assert (t + rest)[|t|..] == rest;
  }

  /** A glob without wildcards or regular-expression metacharacters matches only itself. */
  lemma {:induction false} TranslateLiteral(ex: string)
    requires forall i :: 0 <= i < |ex| ==> ex[i] !in RegexEscapeChars
    ensures Translate(ex) == ex
    decreases |ex|
  {
    if ex != [] {
      assert ex[0] != '*';
      TranslateLiteral(ex[1..]);
      assert ex == [ex[0]] + ex[1..];
    }
  }

  lemma AlternationSnoc(before: seq<string>, ex: string)
    ensures Alternation(before + [ex]) == (if before == [] then "" else Alternation(before) + "|") + Anchored(ex)
  {
    assert (before + [ex])[..|before|] == before;
    AlternationIsJoin(before);
  }

  lemma SelectedSnoc(entries: seq<string>, k: nat, directoriesOnly: bool)
    requires k < |entries|
    ensures SelectedPatterns(entries[..k + 1], directoriesOnly) ==
      SelectedPatterns(entries[..k], directoriesOnly) + AsList(EntryPattern(entries[k], directoriesOnly))
  {
    assert entries[..k + 1][..k] == entries[..k];
  }

  /** ExcludeToRegex as the source writes it: a loop over the entries and, inside it, over the characters. */
  method ExcludeToRegex(exclude: string, directoriesOnly: bool) returns (r: string)
    ensures r == ExcludeRegex(exclude, directoriesOnly)
  {
    var entries := ExcludeEntries(exclude);
    var sb := "";
    ghost var selected: seq<string> := [];
    var k := 0;
    while k < |entries|
      invariant 0 <= k <= |entries|
      invariant selected == SelectedPatterns(entries[..k], directoriesOnly)
      invariant sb == Alternation(selected)
    {
      SelectedSnoc(entries, k, directoriesOnly);
      var pattern := EntryGlob(entries[k], directoriesOnly);
      if pattern.Some? {
        var ex := pattern.value;
        assert AsList(pattern) == [ex];
        sb := AppendPattern(sb, selected, ex);
        selected := selected + [ex];
      } else {
        assert selected + AsList(pattern) == selected;
      }
      k := k + 1;
    }
    assert entries[..|entries|] == entries;
    r := sb;
  }

  /** One selected glob appended to the StringBuilder: a '|' unless it is still empty, then the anchored translation. */
  method AppendPattern(sb: string, ghost selected: seq<string>, ex: string) returns (sb': string)
    requires sb == Alternation(selected)
    ensures sb' == Alternation(selected + [ex])
  {
    AlternationSnoc(selected, ex);
    AlternationIsJoin(selected);
    ghost var sep := if selected == [] then "" else sb + "|";
    sb' := sb;
    if |sb'| > 0 {
      sb' := sb' + "|";
    }
    assert sb' == sep;
    var body := TranslateLoop(ex);
    var anchored := "^" + body + "$";
    assert anchored == Anchored(ex);
    sb' := sb' + anchored;
  }

  /** The trimming and the directories-only test at the head of the entry loop (None: `continue`). */
  method EntryGlob(entry: string, directoriesOnly: bool) returns (pattern: Option<string>)
    ensures pattern == EntryPattern(entry, directoriesOnly)
  {
    var ex := Trim(entry, WhiteSpace);
    if directoriesOnly {
      if |ex| >= 3 && EqualsIgnoreCase(ex[|ex| - 3..], "\\**") {
        ex := ex[..|ex| - 3];
      } else {
        return None;
      }
    }
    return Some(ex);
  }

  lemma TranslateUnfold(ex: string)
    requires ex != []
    ensures Translate(ex) == TokenRegex(ex) + Translate(ex[TokenWidth(ex)..])
  {
  }

  /** The inner loop of ExcludeToRegex over the characters of one glob. */
  method TranslateLoop(ex: string) returns (out: string)
    ensures out == Translate(ex)
  {
    out := "";
    var n := 0;
    while n < |ex|
      invariant 0 <= n <= |ex|
      invariant out + Translate(ex[n..]) == Translate(ex)
    {
      TranslateUnfold(ex[n..]);
      var piece, next := NextToken(ex, n);
      out := out + piece;
      n := next;
    }
  }

  /** One turn of the inner loop: what is appended for the character at `n`, and where the next turn starts. */
  method NextToken(ex: string, n: nat) returns (piece: string, next: nat)
    requires n < |ex|
    ensures piece == TokenRegex(ex[n..]) && next == n + TokenWidth(ex[n..])
    ensures ex[next..] == ex[n..][TokenWidth(ex[n..])..]
  {
    var c := ex[n];
    next := n;
    if c == '*' {
      if n < |ex| - 1 && ex[n + 1] == '*' {
        if n < |ex| - 2 && ex[n + 2] == '\\' {
          piece := "(.*\\\\)?";   // zero or more subdirectories
          next := n + 2;
        } else {
          piece := ".*";
          next := n + 1;
        }
      } else {
        piece := "[^\\\\]*";
      }
    } else if c in RegexEscapeChars {
      piece := ['\\', c];
    } else {
      piece := [c];
    }
    next := next + 1;
  }
}
