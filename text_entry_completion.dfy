/**
 * The debugger's text entry with code completion (TextEntryWithCodeCompletion): the
 * character a key stands for, and the widget's text as the completion window reads and
 * edits it.
 *
 * Keys are Xwt.Key codes.  The completion window, the key events and the screen
 * coordinates of the completion context are not part of this model.
 */
module CompletionEntry {
  import opened Wrappers

  /** Xwt.Key.Exclamation and Xwt.Key.Tilde: the printable ASCII keys lie between them. */
  const Exclamation := 0x21
  const Tilde := 0x7e

  /** CharFromKey: the character of a printable ASCII key, '\0' for every other key. */
  function CharFromKey(key: int): (c: char)
    ensures Exclamation <= key <= Tilde ==> c as int == key
    ensures !(Exclamation <= key <= Tilde) ==> c == '\0'
  {
    if Exclamation <= key <= Tilde then key as char else '\0'
  }

  /** A key gives a character exactly when it is printable, and a printable character's own key gives it back. */
  lemma CharFromKeyRoundTrip(key: int, c: char)
    ensures CharFromKey(key) != '\0' <==> Exclamation <= key <= Tilde
    ensures '!' <= c <= '~' ==> CharFromKey(c as int) == c
  {
  }

  /** String.Remove(offset, count) */
  function RemoveText(t: string, offset: int, count: int): (r: Result<string>)
    ensures r.Throws? <==> offset < 0 || count < 0 || offset + count > |t|
    ensures r.Throws? ==> r.error == ArgumentOutOfRange
    ensures r.Ok? ==> |r.value| == |t| - count && r.value[..offset] == t[..offset] && r.value[offset..] == t[offset + count..]
  {
    if offset < 0 || count < 0 || offset + count > |t| then Throws(ArgumentOutOfRange)
    else Ok(t[..offset] + t[offset + count..])
  }

  /** String.Insert(offset, s) */
  function InsertText(t: string, offset: int, s: string): (r: Result<string>)
    ensures r.Throws? <==> offset < 0 || offset > |t|
    ensures r.Throws? ==> r.error == ArgumentOutOfRange
    ensures r.Ok? ==>
      |r.value| == |t| + |s| && r.value[..offset] == t[..offset] &&
      r.value[offset..offset + |s|] == s && r.value[offset + |s|..] == t[offset..]
  {
    if offset < 0 || offset > |t| then Throws(ArgumentOutOfRange)
    else Ok(t[..offset] + s + t[offset..])
  }

  /** The text after Replace and the exception it stops with, if any. */
  datatype Outcome = Outcome(text: string, error: Option<Exception>)

  /**
   * Replace: removes `count` characters at `offset` when `count` is positive, then inserts
   * `s` there when it is not empty.  A removal that fails leaves the text alone; an
   * insertion that fails leaves it with the characters removed.
   */
  function ReplaceOutcome(t: string, offset: int, count: int, s: string): Outcome
  {
    var removed := if count > 0 then RemoveText(t, offset, count) else Ok(t);
    if removed.Throws? then Outcome(t, Some(removed.error))
    else if s == [] then Outcome(removed.value, None)
    else
      match InsertText(removed.value, offset, s)
      case Ok(u) => Outcome(u, None)
      case Throws(e) => Outcome(removed.value, Some(e))
  }

  /** Within the text, Replace puts `s` in place of the `count` characters at `offset`. */
  lemma ReplaceSplices(t: string, offset: int, count: int, s: string)
    requires 0 <= offset && 0 <= count && offset + count <= |t|
    ensures ReplaceOutcome(t, offset, count, s) == Outcome(t[..offset] + s + t[offset + count..], None)
  {
    if count == 0 {
      assert t[offset + count..] == t[offset..];
    }
    if s == [] {
      assert t[..offset] + s == t[..offset];
    }
  }

  /**
   * Replace throws exactly when it has something to remove outside the text, or nothing
   * to remove and something to insert outside the text.
   */
  lemma ReplaceFails(t: string, offset: int, count: int, s: string)
    ensures ReplaceOutcome(t, offset, count, s).error.Some? <==>
      (count > 0 && (offset < 0 || offset + count > |t|)) ||
      (count <= 0 && s != [] && (offset < 0 || offset > |t|))
    ensures ReplaceOutcome(t, offset, count, s).error.Some? ==> ReplaceOutcome(t, offset, count, s).error == Some(ArgumentOutOfRange)
  {
    if count > 0 && 0 <= offset && offset + count <= |t| {
      assert |RemoveText(t, offset, count).value| == |t| - count;
    }
  }

  class TextEntryWithCodeCompletion {
    var text: string
    var cursorPosition: int

    constructor()
      ensures text == [] && cursorPosition == 0
    {
      text := [];
      cursorPosition := 0;
    }

    /**
     * GetText: the text between two offsets, a start outside the text read as 0 and an end
     * past it as its length; an end before the start throws.
     */
    function GetText(startOffset: int, endOffset: int): (r: Result<string>)
      reads this
      ensures var s := if startOffset < 0 || startOffset > |text| then 0 else startOffset;
        var e := if endOffset > |text| then |text| else endOffset;
        (r.Throws? <==> e < s) && (r.Throws? ==> r.error == ArgumentOutOfRange) &&
        (r.Ok? ==> |r.value| == e - s && r.value == text[s..e])
    {
      var s := if startOffset < 0 || startOffset > |text| then 0 else startOffset;
      var e := if endOffset > |text| then |text| else endOffset;
      if e < s then Throws(ArgumentOutOfRange) else Ok(text[s..e])
    }

    /** GetChar: the character at an offset, '\0' at or past the end; a negative offset throws. */
    function GetChar(offset: int): (r: Result<char>)
      reads this
      ensures offset >= |text| ==> r == Ok('\0')
      ensures 0 <= offset < |text| ==> r == Ok(text[offset])
      ensures offset < 0 ==> r == Throws(IndexOutOfRange)
    {
      if offset >= |text| then Ok('\0')
      else if offset < 0 then Throws(IndexOutOfRange)
      else Ok(text[offset])
    }

    /** Replace, as ReplaceOutcome describes it; the cursor is not moved. */
    method Replace(offset: int, count: int, s: string) returns (error: Option<Exception>)
      modifies this
      ensures text == ReplaceOutcome(old(text), offset, count, s).text
      ensures error == ReplaceOutcome(old(text), offset, count, s).error
      ensures cursorPosition == old(cursorPosition)
    {
      error := None;
      if count > 0 {
        var removed := RemoveText(text, offset, count);
        if removed.Throws? {
          return Some(removed.error);
        }
        text := removed.value;
      }
      if s != [] {
        var inserted := InsertText(text, offset, s);
        if inserted.Throws? {
          return Some(inserted.error);
        }
        text := inserted.value;
      }
    }

    /** SetCompletionText: the completed word becomes the whole text, with the cursor after it. */
    method SetCompletionText(partialWord: string, completeWord: string)
      modifies this
      ensures text == completeWord && cursorPosition == |completeWord|
    {
      text := completeWord;
      cursorPosition := |completeWord|;
    }
  }

  /** Reading the pieces between consecutive offsets gives the text between the outer ones. */
  lemma GetTextJoins(entry: TextEntryWithCodeCompletion, a: int, b: int, c: int)
    requires 0 <= a <= b <= c <= |entry.text|
    ensures entry.GetText(a, b).Ok? && entry.GetText(b, c).Ok? && entry.GetText(a, c).Ok?
    ensures entry.GetText(a, b).value + entry.GetText(b, c).value == entry.GetText(a, c).value
  {
    assert entry.text[a..c] == entry.text[a..b] + entry.text[b..c];
  }

  /** The characters GetChar reads from 0 up to the length are GetText of the whole text. */
  lemma GetCharReadsText(entry: TextEntryWithCodeCompletion, k: int)
    requires 0 <= k < |entry.text|
    ensures entry.GetText(0, |entry.text|) == Ok(entry.text)
    ensures entry.GetChar(k).Ok? && entry.GetChar(k).value == entry.GetText(k, k + 1).value[0]
  {
    assert entry.text[0..|entry.text|] == entry.text;
  }
}
