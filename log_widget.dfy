/**
 * The text of the version-control log view (LogWidget): which revisions the search filter
 * keeps, how the author and the message of a revision are shortened for their cells, and
 * the markup that highlights each occurrence of the filter.
 *
 * GLib.Markup.EscapeText, RevisionHelpers.FormatMessage and the highlight colour are
 * parameters; the culture's case-insensitive search is the ASCII-folding search of Strings.
 */
module LogWidget {
  import opened Strings

  /** The fields of a Revision the log view reads. */
  datatype Revision = Revision(author: string, email: string, message: string, name: string, shortName: string)

  /** IndexOf(filter, CurrentCultureIgnoreCase) != -1 */
  predicate Mentions(s: string, filter: string)
  {
    IndexOfFrom(s, filter, 0, true) != -1
  }

  /** MatchesFilter: every revision for an empty filter, else those whose author, email, message, name or short name holds it. */
  predicate MatchesFilter(rev: Revision, filter: string)
  {
    filter == [] || Mentions(rev.author, filter) || Mentions(rev.email, filter) || Mentions(rev.message, filter) ||
    Mentions(rev.name, filter) || Mentions(rev.shortName, filter)
  }

  /** A revision passes the filter exactly when the filter is empty or occurs, ignoring case, in one of its fields. */
  lemma MatchesFilterMeaning(rev: Revision, filter: string)
    ensures MatchesFilter(rev, filter) <==>
      filter == [] || exists s :: s in [rev.author, rev.email, rev.message, rev.name, rev.shortName] && ContainsSub(s, filter, true)
  {
    var fields := [rev.author, rev.email, rev.message, rev.name, rev.shortName];
    forall s | s in fields ensures Mentions(s, filter) <==> ContainsSub(s, filter, true) {
      IndexOfFindsContains(s, filter, true);
    }
    if !MatchesFilter(rev, filter) {
      forall s | s in fields ensures !ContainsSub(s, filter, true) {
        assert !Mentions(s, filter);
      }
    } else if filter != [] {
      var k :| 0 <= k < 5 && Mentions(fields[k], filter) by {
        if Mentions(rev.author, filter) { assert Mentions(fields[0], filter); }
        else if Mentions(rev.email, filter) { assert Mentions(fields[1], filter); }
        else if Mentions(rev.message, filter) { assert Mentions(fields[2], filter); }
        else if Mentions(rev.name, filter) { assert Mentions(fields[3], filter); }
        else { assert Mentions(fields[4], filter); }
      }
      assert fields[k] in fields;
    }
  }

  // ----- the highlight markup -----

  /** A piece of the highlighted text: plain text, escaped, or an occurrence of the filter, marked. */
  datatype Piece = Plain(text: string) | Marked(text: string)

  /** The text written before and after a marked occurrence. */
  datatype Marker = Marker(open: string, close: string)

  /** The span EscapeWithFilterMarker writes around an occurrence, in the given colour. */
  function SpanMarker(color: string): Marker
  {
    Marker("<span color='" + color + "'>", "</span>")
  }

  function RenderPiece(p: Piece, escape: string -> string, m: Marker): string
  {
    match p
    case Plain(t) => escape(t)
    // the occurrence itself is appended without escaping
    case Marked(t) => m.open + t + m.close
  }

  function Render(ps: seq<Piece>, escape: string -> string, m: Marker): string
  {
    if ps == [] then "" else RenderPiece(ps[0], escape, m) + Render(ps[1..], escape, m)
  }

  /** The characters of the pieces, in order. */
  function Texts(ps: seq<Piece>): string
  {
    if ps == [] then "" else ps[0].text + Texts(ps[1..])
  }

  /**
   * The pieces of txt[last..] that EscapeWithFilterMarker writes: the text up to the next
   * occurrence of the filter (ignoring case) and the occurrence, again after it, and the
   * rest when it is not empty.
   */
  function Pieces(txt: string, filter: string, last: nat): seq<Piece>
    requires filter != [] && last <= |txt|
    decreases |txt| - last
  {
    var i := IndexOfFrom(txt, filter, last, true);
    if i == -1 then (if last < |txt| then [Plain(txt[last..])] else [])
    else [Plain(txt[last..i]), Marked(txt[i..i + |filter|])] + Pieces(txt, filter, i + |filter|)
  }

  lemma {:induction false} TextsConcat(a: seq<Piece>, b: seq<Piece>)
    ensures Texts(a + b) == Texts(a) + Texts(b)
  {
    if a != [] {
      TextsConcat(a[1..], b);
      assert (a + b)[1..] == a[1..] + b;
      assert a[0].text + Texts(a[1..]) + Texts(b) == a[0].text + (Texts(a[1..]) + Texts(b));
    } else {
      assert a + b == b;
    }
  }

  lemma {:induction false} RenderConcat(a: seq<Piece>, b: seq<Piece>, escape: string -> string, m: Marker)
    ensures Render(a + b, escape, m) == Render(a, escape, m) + Render(b, escape, m)
  {
    if a != [] {
      RenderConcat(a[1..], b, escape, m);
      assert (a + b)[1..] == a[1..] + b;
      assert RenderPiece(a[0], escape, m) + Render(a[1..], escape, m) + Render(b, escape, m) ==
        RenderPiece(a[0], escape, m) + (Render(a[1..], escape, m) + Render(b, escape, m));
    } else {
      assert a + b == b;
    }
  }

  /** The pieces hold the characters of the text, in their order. */
  lemma {:induction false} PiecesKeepText(txt: string, filter: string, last: nat)
    requires filter != [] && last <= |txt|
    ensures Texts(Pieces(txt, filter, last)) == txt[last..]
    decreases |txt| - last
  {
    var i := IndexOfFrom(txt, filter, last, true);
    if i != -1 {
      var next := i + |filter|;
      PiecesKeepText(txt, filter, next);
      var head := [Plain(txt[last..i]), Marked(txt[i..next])];
      TextsConcat(head, Pieces(txt, filter, next));
      assert Texts(head) == txt[last..i] + txt[i..next] by {
        assert head[1..][1..] == [];
      }
      assert txt[last..] == txt[last..i] + txt[i..next] + txt[next..];
    }
  }

  /** Every marked piece is an occurrence of the filter, ignoring case. */
  predicate MarksFilter(ps: seq<Piece>, filter: string)
  {
    forall k :: 0 <= k < |ps| && ps[k].Marked? ==> EqualsIgnoreCase(ps[k].text, filter)
  }

  lemma MarksFilterConcat(a: seq<Piece>, b: seq<Piece>, filter: string)
    requires MarksFilter(a, filter) && MarksFilter(b, filter)
    ensures MarksFilter(a + b, filter)
  {
    forall k | 0 <= k < |a + b| && (a + b)[k].Marked? ensures EqualsIgnoreCase((a + b)[k].text, filter) {
      if k >= |a| {
        assert (a + b)[k] == b[k - |a|];
      }
    }
  }

  /** The pieces mark only occurrences of the filter. */
  lemma {:induction false} PiecesMarkFilter(txt: string, filter: string, last: nat)
    requires filter != [] && last <= |txt|
    ensures MarksFilter(Pieces(txt, filter, last), filter)
    decreases |txt| - last
  {
    var i := IndexOfFrom(txt, filter, last, true);
    if i != -1 {
      var next := i + |filter|;
      PiecesMarkFilter(txt, filter, next);
      PiecesStep(txt, filter, last, i, next);
      IndexOfFromMatch(txt, filter, last, true);
      SameIgnoringCaseIff(txt[i..next], filter);
      var round := [Plain(txt[last..i]), Marked(txt[i..next])];
      assert MarksFilter(round, filter) by {
        assert round[1].text == txt[i..next];
      }
      MarksFilterConcat(round, Pieces(txt, filter, next), filter);
    }
  }

  /** No plain piece holds an occurrence of the filter, ignoring case. */
  predicate PlainsClear(ps: seq<Piece>, filter: string)
  {
    forall k :: 0 <= k < |ps| && ps[k].Plain? ==> !ContainsSub(ps[k].text, filter, true)
  }

  lemma PlainsClearConcat(a: seq<Piece>, b: seq<Piece>, filter: string)
    requires PlainsClear(a, filter) && PlainsClear(b, filter)
    ensures PlainsClear(a + b, filter)
  {
    forall k | 0 <= k < |a + b| && (a + b)[k].Plain? ensures !ContainsSub((a + b)[k].text, filter, true) {
      if k >= |a| {
        assert (a + b)[k] == b[k - |a|];
      }
    }
  }

  /** The pieces leave no occurrence of the filter unmarked: every occurrence the loop passes over
      is the one IndexOf finds next, so the text between two marks holds none. */
  lemma {:induction false} PiecesPlainClear(txt: string, filter: string, last: nat)
    requires filter != [] && last <= |txt|
    ensures PlainsClear(Pieces(txt, filter, last), filter)
    decreases |txt| - last
  {
    var i := IndexOfFrom(txt, filter, last, true);
    IndexOfFromFacts(txt, filter, last, true);
    if i != -1 {
      var next := i + |filter|;
      PiecesPlainClear(txt, filter, next);
      PiecesStep(txt, filter, last, i, next);
      NoMatchInSlice(txt, filter, last, i);
      var round := [Plain(txt[last..i]), Marked(txt[i..next])];
      assert PlainsClear(round, filter) by {
        assert round[0].text == txt[last..i];
      }
      PlainsClearConcat(round, Pieces(txt, filter, next), filter);
    } else if last < |txt| {
      NoMatchInSlice(txt, filter, last, |txt|);
      assert txt[last..] == txt[last..|txt|];
    }
  }

  /** A slice holds no occurrence when none starts in it. */
  lemma NoMatchInSlice(txt: string, filter: string, a: nat, b: nat)
    requires filter != [] && a <= b <= |txt|
    requires forall k :: a <= k < b ==> !MatchAt(txt, filter, k, true)
    ensures !ContainsSub(txt[a..b], filter, true)
  {
    var t := txt[a..b];
    if ContainsSub(t, filter, true) {
      var j :| 0 <= j <= |t| && MatchAt(t, filter, j, true);
      assert j + |filter| <= |t| && a + j + |filter| <= b;
      var u, v := t[j..j + |filter|], txt[a + j..a + j + |filter|];
      assert u == v by {
        forall x | 0 <= x < |filter| ensures u[x] == v[x] {
          assert t[j + x] == txt[a + j + x];
        }
      }
      assert MatchAt(txt, filter, a + j, true);
    }
  }

  /** One round of the loop: the text before an occurrence, escaped, then the occurrence, marked. */
  lemma RenderRound(before: string, found: string, escape: string -> string, m: Marker)
    ensures Render([Plain(before), Marked(found)], escape, m) == escape(before) + (m.open + found + m.close)
  {
    var ps := [Plain(before), Marked(found)];
    assert ps[1..][1..] == [];
    assert Render(ps[1..], escape, m) == m.open + found + m.close + "";
  }

  /**
   * EscapeWithFilterMarker: the text escaped, with every occurrence of the filter found
   * from left to right (ignoring case, not overlapping) wrapped in a coloured span.
   */
  method EscapeWithFilterMarker(txt: string, filter: string, escape: string -> string, color: string) returns (r: string)
    ensures filter == [] || !ContainsSub(txt, filter, true) ==> r == escape(txt)
    ensures filter != [] && ContainsSub(txt, filter, true) ==> r == Render(Pieces(txt, filter, 0), escape, SpanMarker(color))
  {
    if filter == [] {
      return escape(txt);
    }
    IndexOfFindsContains(txt, filter, true);
    var i := IndexOfFrom(txt, filter, 0, true);
    if i == -1 {
      return escape(txt);
    }
    var m := SpanMarker(color);
    var sb := "";
    var last := 0;
    ghost var done: seq<Piece> := [];
    while i != -1
      invariant 0 <= last <= |txt|
      invariant i == IndexOfFrom(txt, filter, last, true)
      invariant done + Pieces(txt, filter, last) == Pieces(txt, filter, 0)
      invariant sb == Render(done, escape, m)
      decreases |txt| - last
    {
      sb, last, done := MarkRound(txt, filter, escape, m, last, i, sb, done);
      i := IndexOfFrom(txt, filter, last, true);
    }
    PiecesTail(txt, filter, last, escape, m);
    RenderConcat(done, Pieces(txt, filter, last), escape, m);
    if last < |txt| {
      sb := sb + escape(txt[last..]);
    } else {
      assert sb + "" == sb;
    }
    return sb;
  }

  /** One round of EscapeWithFilterMarker's loop: the text before the occurrence at `i`, escaped, then the occurrence in a span. */
  method MarkRound(txt: string, filter: string, escape: string -> string, m: Marker, last: nat, i: int, sb: string, ghost done: seq<Piece>)
    returns (sb': string, next: nat, ghost done': seq<Piece>)
    requires filter != [] && last <= |txt| && i != -1 && i == IndexOfFrom(txt, filter, last, true)
    requires done + Pieces(txt, filter, last) == Pieces(txt, filter, 0)
    requires sb == Render(done, escape, m)
    ensures last < next <= |txt|
    ensures done' + Pieces(txt, filter, next) == Pieces(txt, filter, 0)
    ensures sb' == Render(done', escape, m)
  {
    next := i + |filter|;
    var before, found := txt[last..i], txt[i..next];
    ghost var round := [Plain(before), Marked(found)];
    PiecesStep(txt, filter, last, i, next);
    ConcatAssoc(done, round, Pieces(txt, filter, next));
    RenderRound(before, found, escape, m);
    RenderConcat(done, round, escape, m);
    var escaped, span := escape(before), m.open + found + m.close;
    ConcatAssoc(sb, escaped, span);
    sb' := sb + escaped + span;
    done' := done + round;
    assert done' + Pieces(txt, filter, next) == done + Pieces(txt, filter, last);
  }

  /** Regrouping a concatenation, for MarkRound's accumulators. */
  lemma ConcatAssoc<T>(a: seq<T>, b: seq<T>, c: seq<T>)
    ensures a + b + c == a + (b + c)
  {
  }

  /** The pieces after the last occurrence: the rest of the text, when there is any. */
  lemma PiecesTail(txt: string, filter: string, last: nat, escape: string -> string, m: Marker)
    requires filter != [] && last <= |txt| && IndexOfFrom(txt, filter, last, true) == -1
    ensures Render(Pieces(txt, filter, last), escape, m) == if last < |txt| then escape(txt[last..]) else ""
  {
    if last < |txt| {
      assert Pieces(txt, filter, last) == [Plain(txt[last..])];
      assert Render([Plain(txt[last..])], escape, m) == escape(txt[last..]) + "";
    }
  }

  /** Pieces after an occurrence found at or after `last`. */
  lemma PiecesStep(txt: string, filter: string, last: nat, i: int, next: nat)
    requires filter != [] && last <= |txt| && i != -1 && i == IndexOfFrom(txt, filter, last, true) && next == i + |filter|
    ensures Pieces(txt, filter, last) == [Plain(txt[last..i]), Marked(txt[i..next])] + Pieces(txt, filter, next)
  {
  }

  // ----- the author and message cells -----

  /** AuthorFunc's text: the name before an e-mail address in "<...>" (trimmed), or the whole author. */
  function ShownAuthor(author: string): (r: string)
    ensures (0 <= IndexOfChar(author, '<') < IndexOfChar(author, '>')) ==>
      r == Trim(author[..IndexOfChar(author, '<')], WhiteSpace)
    ensures !(0 <= IndexOfChar(author, '<') < IndexOfChar(author, '>')) ==> r == author
  {
    var idx := IndexOfChar(author, '<');
    if idx >= 0 && idx < IndexOfChar(author, '>') then Trim(author[..idx], WhiteSpace) else author
  }

  /** Trimming adds no character. */
  lemma TrimKeeps(s: string, c: char)
    requires c !in s
    ensures c !in Trim(s, WhiteSpace)
  {
    var t := TrimStart(s, WhiteSpace);
    TrimStartFacts(s, WhiteSpace);
    TrimEndFacts(t, WhiteSpace);
    assert c !in t by {
      forall k | 0 <= k < |t| ensures t[k] != c {
        assert t[k] == s[|s| - |t| + k];
      }
    }
    var r := TrimEnd(t, WhiteSpace);
    forall k | 0 <= k < |r| ensures r[k] != c {
      assert r[k] == t[k];
    }
  }

  /** A shortened author is shortened no further. */
  lemma ShownAuthorIdempotent(author: string)
    ensures ShownAuthor(ShownAuthor(author)) == ShownAuthor(author)
  {
    var idx := IndexOfChar(author, '<');
    if 0 <= idx < IndexOfChar(author, '>') {
      TrimKeeps(author[..idx], '<');
    }
  }

  /** What a cell renderer is given: plain text, markup, or nothing (the cell keeps its text). */
  datatype Cell = Text(text: string) | Markup(markup: string) | Untouched

  /** AuthorFunc: nothing for an empty author; the shortened author as text, or highlighted when a filter is set. */
  method AuthorCell(author: string, filter: string, escape: string -> string, color: string) returns (cell: Cell)
    ensures author == [] ==> cell == Untouched
    ensures author != [] && filter == [] ==> cell == Text(ShownAuthor(author))
    ensures author != [] && filter != [] ==>
      cell.Markup? &&
      (ContainsSub(ShownAuthor(author), filter, true) ==> cell.markup == Render(Pieces(ShownAuthor(author), filter, 0), escape, SpanMarker(color))) &&
      (!ContainsSub(ShownAuthor(author), filter, true) ==> cell.markup == escape(ShownAuthor(author)))
  {
    if author == [] {
      return Untouched;
    }
    var shown := ShownAuthor(author);
    if filter == [] {
      return Text(shown);
    }
    var markup := EscapeWithFilterMarker(shown, filter, escape, color);
    return Markup(markup);
  }

  /** MessageFunc's text: the formatted message up to its first line break, unless the break is its first character. */
  function ShownMessage(formatted: string): (r: string)
    ensures IndexOfChar(formatted, '\n') > 0 ==> r == formatted[..IndexOfChar(formatted, '\n')] && '\n' !in r && r != []
    ensures IndexOfChar(formatted, '\n') <= 0 ==> r == formatted
  {
    var idx := IndexOfChar(formatted, '\n');
    if idx > 0 then formatted[..idx] else formatted
  }

  /** The shortened message is shortened no further. */
  lemma ShownMessageIdempotent(formatted: string)
    ensures ShownMessage(ShownMessage(formatted)) == ShownMessage(formatted)
  {
    var r := ShownMessage(formatted);
    if IndexOfChar(formatted, '\n') > 0 {
      assert IndexOfChar(r, '\n') == -1;
    }
  }

  const NoMessage := "(No message)"

  /** MessageFunc: "(No message)" for an empty message; the first line as text, or highlighted when a filter is set. */
  method MessageCell(message: string, filter: string, formatMessage: string -> string, escape: string -> string, color: string)
    returns (cell: Cell)
    ensures message == [] ==> cell == Text(NoMessage)
    ensures message != [] && filter == [] ==> cell == Text(ShownMessage(formatMessage(message)))
    ensures message != [] && filter != [] ==>
      cell.Markup? &&
      var shown := ShownMessage(formatMessage(message));
      (ContainsSub(shown, filter, true) ==> cell.markup == Render(Pieces(shown, filter, 0), escape, SpanMarker(color))) &&
      (!ContainsSub(shown, filter, true) ==> cell.markup == escape(shown))
  {
    if message == [] {
      return Text(NoMessage);
    }
    var shown := ShownMessage(formatMessage(message));
    if filter == [] {
      return Text(shown);
    }
    var markup := EscapeWithFilterMarker(shown, filter, escape, color);
    return Markup(markup);
  }
}
