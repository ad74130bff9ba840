/**
 * The text parsing of the breakpoint properties dialog (BreakpointPropertiesDialog): the
 * "file:line[:column]" location a user types (ParsedLocation), the "name(parameters)"
 * function signature (TryParseFunction), and how OnSave normalises the hit count and the
 * condition it stores in the breakpoint.
 *
 * File.Exists and FunctionBreakpoint.TryParseParameters are parameters; the warnings are the
 * untranslated GettextCatalog strings.
 */
module BreakpointProperties {
  import opened Wrappers
  import opened Strings

  const EnterLocation := "Enter location."
  const FileDoesNotExist := "File does not exist."
  const MissingColon := "Missing ':' for line declaration."
  const LineNotNumber := "Line is not a number."
  const ColumnNotNumber := "Column is not a number."

  /** A location breakpoint: file, line and column. */
  datatype Breakpoint = Breakpoint(fileName: string, line: int, column: int)

  // ----- the location text -----

  /** The first two ':' pieces of a location joined back: a drive letter and the rest of a Windows path. */
  function MergeDrive(splitted: seq<string>): (r: seq<string>)
    requires |splitted| > 1
    ensures |r| == |splitted| - 1
    ensures Join(r, ":") == Join(splitted, ":")
  {
    assert splitted[2..] == splitted[1..][1..];
    if |splitted| == 2 then [splitted[0] + ":" + splitted[1]]
    else
      var r := [splitted[0] + ":" + splitted[1]] + splitted[2..];
      assert r[1..] == splitted[2..];
      r
  }

  /**
   * What Update(location) writes: the warning always, and the file name, line and column
   * where it gets to set them (None leaves the field as it was).
   */
  datatype LocationUpdate = LocationUpdate(warning: string, fileName: Option<string>, line: Option<int>, column: Option<int>)

  /** The pieces of a location once the file is found: the path (with a drive letter merged back) first. */
  function FileSegments(location: string, exists_: string -> bool): Option<seq<string>>
  {
    var splitted := Split(location, {':'});
    if exists_(splitted[0]) then Some(splitted)
    else if |splitted| > 1 && exists_(splitted[0] + ":" + splitted[1]) then Some(MergeDrive(splitted))
    else None
  }

  /** The part of Update(location) up to the line number: either its outcome, or the pieces and the line. */
  datatype LineStage = Stopped(update: LocationUpdate) | LineRead(segments: seq<string>, line: int)

  function ReadLine(location: string, exists_: string -> bool): (r: LineStage)
    ensures r.LineRead? ==> |r.segments| >= 2
  {
    if IsWhiteSpaceOnly(location) then Stopped(LocationUpdate(EnterLocation, None, None, None))
    else match FileSegments(location, exists_)
      case None => Stopped(LocationUpdate(FileDoesNotExist, None, None, None))
      case Some(s) =>
        if |s| < 2 then Stopped(LocationUpdate(MissingColon, None, None, None))
        else match TryParseInt32(s[1])
          // int.TryParse leaves 0 in `line` when it fails
          case None => Stopped(LocationUpdate(LineNotNumber, Some(s[0]), Some(0), None))
          case Some(line) => LineRead(s, line)
  }

  /**
   * Update(location) as written: `else column = 1` belongs to the whole `if`, so a column
   * that parses is overwritten by 1.
   */
  function ParseLocationAsWritten(location: string, exists_: string -> bool): (r: LocationUpdate)
    ensures r.warning == "" ==> r.column == Some(1)
    ensures r == ParseLocation(location, exists_).(column := r.column)
    ensures r.warning != "" ==> r == ParseLocation(location, exists_)
  {
    match ReadLine(location, exists_)
    case Stopped(u) => u
    case LineRead(s, line) =>
      if |s| > 2 && TryParseInt32(s[2]).None? then LocationUpdate(ColumnNotNumber, Some(s[0]), Some(line), Some(0))
      else LocationUpdate("", Some(s[0]), Some(line), Some(1))
  }

  /** Update(location) as intended: the column when one is given and parses, 1 when none is given. */
  function ParseLocation(location: string, exists_: string -> bool): (r: LocationUpdate)
    ensures IsWhiteSpaceOnly(location) ==> r == LocationUpdate(EnterLocation, None, None, None)
    // the warning is "" exactly when the file (or drive letter and path) exists, a ':' and a
    // line number follow, and a column, when present, is a number
    ensures r.warning == "" <==>
      !IsWhiteSpaceOnly(location) && FileSegments(location, exists_).Some? &&
      var s := FileSegments(location, exists_).value;
      |s| >= 2 && TryParseInt32(s[1]).Some? && (|s| > 2 ==> TryParseInt32(s[2]).Some?)
    ensures r.warning == "" ==> r.fileName.Some? && r.line.Some? && r.column.Some?
  {
    match ReadLine(location, exists_)
    case Stopped(u) => u
    case LineRead(s, line) =>
      if |s| > 2 then
        match TryParseInt32(s[2])
        case None => LocationUpdate(ColumnNotNumber, Some(s[0]), Some(line), Some(0))
        case Some(column) => LocationUpdate("", Some(s[0]), Some(line), Some(column))
      else LocationUpdate("", Some(s[0]), Some(line), Some(1))
  }

  /** ToString: file, line and column separated by ':'. */
  function LocationText(fileName: string, line: int, column: int): string
  {
    fileName + ":" + IntToString(line) + ":" + IntToString(column)
  }

  /**
   * A location written by ToString reads back as the same file, line and column, when the
   * file exists and its name has no ':'.
   */
  lemma SplitLocationText(fileName: string, line: int, column: int)
    requires ':' !in fileName
    ensures Split(LocationText(fileName, line, column), {':'}) == [fileName, IntToString(line), IntToString(column)]
  {
    var parts := [fileName, IntToString(line), IntToString(column)];
    assert NoneContains(parts, ':') by {
      assert forall k :: 0 <= k < |parts[1]| ==> parts[1][k] != ':';
      assert forall k :: 0 <= k < |parts[2]| ==> parts[2][k] != ':';
    }
    assert Join(parts, ":") == LocationText(fileName, line, column) by {
      var l, c := IntToString(line), IntToString(column);
      assert parts[1..] == [l, c];
      assert [l, c][1..] == [c];
      assert Join([c], ":") == c;
      assert Join([l, c], ":") == l + ":" + c;
      assert Join(parts, ":") == fileName + ":" + (l + ":" + c);
    }
    SplitJoin(parts, ':');
  }

  lemma {:induction false} LocationRoundTrip(fileName: string, line: int, column: int, exists_: string -> bool)
    requires exists_(fileName) && ':' !in fileName
    requires Int32Min <= line <= Int32Max && Int32Min <= column <= Int32Max
    ensures ParseLocation(LocationText(fileName, line, column), exists_)
         == LocationUpdate("", Some(fileName), Some(line), Some(column))
  {
    var text := LocationText(fileName, line, column);
    SplitLocationText(fileName, line, column);
    LocationTextNotBlank(fileName, line, column);
    var s := [fileName, IntToString(line), IntToString(column)];
    assert FileSegments(text, exists_) == Some(s);
    IntToStringParses(line);
    IntToStringParses(column);
    ParseWholeLocation(text, exists_, s, line, column);
  }

  lemma LocationTextNotBlank(fileName: string, line: int, column: int)
    ensures !IsWhiteSpaceOnly(LocationText(fileName, line, column))
  {
    var text := LocationText(fileName, line, column);
    assert text[|fileName|] == ':';
  }

  /** A location with a known file, line and column. */
  lemma ParseWholeLocation(location: string, exists_: string -> bool, s: seq<string>, line: int, column: int)
    requires !IsWhiteSpaceOnly(location) && FileSegments(location, exists_) == Some(s) && |s| == 3
    requires TryParseInt32(s[1]) == Some(line) && TryParseInt32(s[2]) == Some(column)
    ensures ParseLocation(location, exists_) == LocationUpdate("", Some(s[0]), Some(line), Some(column))
  {
  }

  /** The column of "file:10:5" is read as 1 by Update(location) as written. */
  lemma ColumnOverwritten(exists_: string -> bool)
    requires exists_("f")
    ensures ParseLocationAsWritten("f:10:5", exists_).column == Some(1)
    ensures ParseLocation("f:10:5", exists_).column == Some(5)
  {
    var parts := ["f", "10", "5"];
    assert LocationText("f", 10, 5) == "f:10:5" by {
      assert IntToString(10) == "10" && IntToString(5) == "5";
    }
    LocationRoundTrip("f", 10, 5, exists_);
  }

  /** The copy loop of Update(location) that merges the first two pieces into `newSplitted`. */
  method MergeDriveLetter(splitted: seq<string>) returns (merged: seq<string>)
    requires |splitted| > 1
    ensures merged == MergeDrive(splitted)
  {
    var newSplitted := new string[|splitted| - 1];
    newSplitted[0] := splitted[0] + ":" + splitted[1];
    for i := 2 to |splitted|
      invariant newSplitted[0] == splitted[0] + ":" + splitted[1]
      invariant forall j :: 2 <= j < i ==> newSplitted[j - 1] == splitted[j]
    {
      newSplitted[i - 1] := splitted[i];
    }
    merged := newSplitted[..];
    assert merged == [splitted[0] + ":" + splitted[1]] + splitted[2..];
  }

  /** ParsedLocation: the location the dialog edits and the warning for the text last read. */
  class ParsedLocation {
    var line: int
    var column: int
    /** None until an Update sets a warning. */
    var warning: Option<string>
    /** "" until an Update sets it. */
    var fileName: string

    constructor()
      ensures line == 0 && column == 0 && warning == None && fileName == ""
    {
      line := 0;
      column := 0;
      warning := None;
      fileName := "";
    }

    /** IsValid: the warning is "". */
    predicate IsValid()
      reads this
    {
      warning == Some("")
    }

    /** Update(string): reads a "file:line[:column]" text. */
    method Update(location: string, exists_: string -> bool)
      modifies this
      ensures var u := ParseLocation(location, exists_);
        warning == Some(u.warning) && fileName == u.fileName.GetOr(old(fileName)) &&
        line == u.line.GetOr(old(line)) && column == u.column.GetOr(old(column))
    {
      if IsWhiteSpaceOnly(location) {
        warning := Some(EnterLocation);
        return;
      }
      var splitted := Split(location, {':'});
      if !exists_(splitted[0]) {
        if |splitted| > 1 && exists_(splitted[0] + ":" + splitted[1]) {
          splitted := MergeDriveLetter(splitted);
        } else {
          warning := Some(FileDoesNotExist);
          return;
        }
      }
      assert Some(splitted) == FileSegments(location, exists_);
      if |splitted| < 2 {
        warning := Some(MissingColon);
        return;
      }
      fileName := splitted[0];
      var parsedLine := TryParseInt32(splitted[1]);
      if parsedLine.None? {
        line := 0;
        warning := Some(LineNotNumber);
        return;
      }
      line := parsedLine.value;
      if |splitted| > 2 {
        var parsedColumn := TryParseInt32(splitted[2]);
        if parsedColumn.None? {
          column := 0;
          warning := Some(ColumnNotNumber);
          return;
        }
        column := parsedColumn.value;
      } else {
        column := 1;
      }
      warning := Some("");
    }

    /** Update(filePath, line, column): stores the location; the warning says whether the file exists. */
    method UpdateTo(filePath: string, line: int, column: int, exists_: string -> bool)
      modifies this
      ensures fileName == filePath && this.line == line && this.column == column
      ensures IsValid() <==> exists_(filePath)
      ensures warning == Some(if exists_(filePath) then "" else FileDoesNotExist)
    {
      if !exists_(filePath) {
        warning := Some(FileDoesNotExist);
      } else {
        warning := Some("");
      }
      fileName := filePath;
      this.line := line;
      this.column := column;
    }

    /** Update(Breakpoint): the breakpoint's file, line and column. */
    method UpdateFrom(bp: Breakpoint, exists_: string -> bool)
      modifies this
      ensures fileName == bp.fileName && line == bp.line && column == bp.column
      ensures IsValid() <==> exists_(bp.fileName)
    {
      UpdateTo(bp.fileName, bp.line, bp.column, exists_);
    }

    /** ToBreakpoint: the location as a breakpoint; an invalid location throws. */
    method ToBreakpoint() returns (r: Result<Breakpoint>)
      ensures !IsValid() <==> r == Throws(InvalidOperation("Location is invalid."))
      ensures IsValid() ==> r == Ok(Breakpoint(fileName, line, column))
    {
      if !IsValid() {
        return Throws(InvalidOperation("Location is invalid."));
      }
      return Ok(Breakpoint(fileName, line, column));
    }

    /** ToString */
    function ToString(): string
      reads this
    {
      LocationText(fileName, line, column)
    }
  }

  // ----- the function signature -----

  /** What TryParseFunction returns: success, the function name and the parameter types (None for null). */
  datatype FunctionParse = FunctionParse(success: bool, name: Option<string>, paramTypes: Option<seq<string>>)

  /**
   * TryParseFunction as written.  A ')' at the end without a '(' makes Substring(0, -1)
   * throw.  `tryParseParameters(signature, start, end)` is FunctionBreakpoint.TryParseParameters.
   */
  function TryParseFunctionAsWritten(signature: string, tryParseParameters: (string, int, int) -> Option<seq<string>>)
    : (r: Result<FunctionParse>)
    ensures r.Throws? <==> '(' !in signature && ')' in signature && IndexOfChar(signature, ')') == |signature| - 1
    ensures r.Ok? ==> r.value == TryParseFunction(signature, tryParseParameters)
  {
    var paramListStart := IndexOfChar(signature, '(');
    var paramListEnd := IndexOfChar(signature, ')');
    if paramListStart == -1 && paramListEnd == -1 then Ok(FunctionParse(true, Some(signature), None))
    else if paramListEnd != |signature| - 1 then Ok(FunctionParse(false, None, None))
    else if paramListStart < 0 then Throws(ArgumentOutOfRange)
    else
      var name := Trim(signature[..paramListStart], WhiteSpace);
      match tryParseParameters(signature, paramListStart + 1, paramListEnd)
      case None => Ok(FunctionParse(false, None, None))
      case Some(types) => Ok(FunctionParse(true, Some(name), Some(types)))
  }

  /** TryParseFunction as intended: a ')' without a '(' is invalid syntax. */
  function TryParseFunction(signature: string, tryParseParameters: (string, int, int) -> Option<seq<string>>)
    : (r: FunctionParse)
    ensures r.success <==> r.name.Some?
    ensures !r.success ==> r.paramTypes.None?
    ensures '(' !in signature && ')' !in signature ==> r == FunctionParse(true, Some(signature), None)
    ensures (')' !in signature && '(' in signature) || (')' in signature && IndexOfChar(signature, ')') != |signature| - 1) ==>
      !r.success
    ensures ('(' in signature || ')' in signature) && r.success ==>
      var open := IndexOfChar(signature, '(');
      open >= 0 && signature[|signature| - 1] == ')' && r.name == Some(Trim(signature[..open], WhiteSpace)) &&
      r.paramTypes == tryParseParameters(signature, open + 1, |signature| - 1)
  {
    var paramListStart := IndexOfChar(signature, '(');
    var paramListEnd := IndexOfChar(signature, ')');
    if paramListStart == -1 && paramListEnd == -1 then FunctionParse(true, Some(signature), None)
    else if paramListEnd != |signature| - 1 || paramListStart == -1 then FunctionParse(false, None, None)
    else
      match tryParseParameters(signature, paramListStart + 1, paramListEnd)
      case None => FunctionParse(false, None, None)
      case Some(types) => FunctionParse(true, Some(Trim(signature[..paramListStart], WhiteSpace)), Some(types))
  }

  /** "f)" makes TryParseFunction as written throw; the intended reading refuses it. */
  lemma UnopenedParenthesisThrows(tryParseParameters: (string, int, int) -> Option<seq<string>>)
    ensures TryParseFunctionAsWritten("f)", tryParseParameters) == Throws(ArgumentOutOfRange)
    ensures TryParseFunction("f)", tryParseParameters) == FunctionParse(false, None, None)
  {
    assert IndexOfChar("f)", '(') == -1;
    assert IndexOfChar("f)", ')') == 1 by { assert "f)"[1] == ')' && "f)"[..1] == "f"; }
  }

  // ----- what OnSave stores -----

  /** Mono.Debugging's HitCountMode; NoHitCount is its None. */
  datatype HitCountMode = NoHitCount | LessThan | LessThanOrEqualTo | EqualTo | GreaterThan | GreaterThanOrEqualTo | MultipleOf

  /**
   * The hit count mode and count OnSave stores: "at least 0 hits" is stored as no hit
   * count condition, and the count is 0 whenever there is none.
   */
  function SavedHitCount(mode: HitCountMode, count: int): (r: (HitCountMode, int))
    ensures r.0 == NoHitCount ==> r.1 == 0
    ensures r.0 != NoHitCount ==> r == (mode, count)
    ensures r.0 == NoHitCount <==> mode == NoHitCount || (mode == GreaterThanOrEqualTo && count == 0)
  {
    var saved := if mode == GreaterThanOrEqualTo && count == 0 then NoHitCount else mode;
    (saved, if saved != NoHitCount then count else 0)
  }

  /** Saving a hit count that was saved before stores it unchanged. */
  lemma SavedHitCountIdempotent(mode: HitCountMode, count: int)
    ensures var (m, c) := SavedHitCount(mode, count); SavedHitCount(m, c) == (m, c)
  {
  }

  /** The condition OnSave stores: None (null) for a blank expression, else the text and whether it breaks on changes. */
  datatype SavedCondition = SavedCondition(expression: Option<string>, breakIfConditionChanges: Option<bool>)

  /** OnSave's condition: a blank text clears the expression and leaves BreakIfConditionChanges alone. */
  function SaveCondition(text: string, expressionChangesSelected: bool): (r: SavedCondition)
    ensures r.expression.None? <==> IsWhiteSpaceOnly(text)
    ensures r.expression.Some? ==> r.expression.value == text && r.breakIfConditionChanges == Some(expressionChangesSelected)
    ensures r.expression.None? ==> r.breakIfConditionChanges.None?
  {
    if !IsWhiteSpaceOnly(text) then SavedCondition(Some(text), Some(expressionChangesSelected))
    else SavedCondition(None, None)
  }
}
