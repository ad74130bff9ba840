/**
 * The Mono class-library makefile project (MonoMakefileProjectExtension): the `.sources` file
 * that lists a library's compiled files, one per line, kept up to date as files are added,
 * removed and renamed in the project; the reading of that file into the project; the make
 * target names; and the filtering of compiler output into errors and warnings.
 *
 * The `.sources` file is its sequence of lines.  Project.GetRelativeChildPath, the
 * culture-sensitive string.Compare, Path.Combine, Path.GetDirectoryName, File.Exists and the
 * error regular expression are parameters.
 */
module MakefileSources {
  import opened Wrappers
  import opened Strings

  /** The text of a `.sources` line: the line without leading and trailing spaces and tabs. */
  function SourceText(line: string): string
  {
    Trim(line, {' ', '\t'})
  }

  /** A relative path without a leading "./". */
  function StripDotSlash(path: string): (r: string)
    ensures StartsWith(path, "./") ==> path == "./" + r
    ensures !StartsWith(path, "./") ==> r == path
  {
    if StartsWith(path, "./") then path[2..] else path
  }

  // ----- adding a line -----

  /** The line before which AddSourceFile writes `newFile`: a blank one, or one that compares greater. */
  predicate InsertsBefore(line: string, newFile: string, greater: (string, string) -> bool)
  {
    SourceText(line) == "" || greater(SourceText(line), newFile)
  }

  /** The index of the first line `newFile` is written before, or the number of lines when there is none. */
  function InsertionPoint(lines: seq<string>, newFile: string, greater: (string, string) -> bool): (k: nat)
    ensures k <= |lines|
    ensures forall j :: 0 <= j < k ==> !InsertsBefore(lines[j], newFile, greater)
    ensures k < |lines| ==> InsertsBefore(lines[k], newFile, greater)
  {
    if lines == [] || InsertsBefore(lines[0], newFile, greater) then 0
    else 1 + InsertionPoint(lines[1..], newFile, greater)
  }

  /** The lines with `newFile` written once, at its insertion point. */
  function Inserted(lines: seq<string>, newFile: string, greater: (string, string) -> bool): seq<string>
  {
    var k := InsertionPoint(lines, newFile, greater);
    lines[..k] + [newFile] + lines[k..]
  }

  /** The listed file names do not decrease: no line's text compares greater than a later one's. */
  predicate SortedLines(lines: seq<string>, greater: (string, string) -> bool)
  {
    forall i, j :: 0 <= i < j < |lines| ==> !greater(SourceText(lines[i]), SourceText(lines[j]))
  }

  ghost predicate Transitive(greater: (string, string) -> bool)
  {
    forall a, b, c :: greater(a, b) && greater(b, c) ==> greater(a, c)
  }

  /**
   * Inserting a file name (without surrounding blanks) into a sorted `.sources` file without
   * blank lines keeps it sorted, whenever the comparison is a strict order.
   */
  lemma InsertedKeepsSorted(lines: seq<string>, newFile: string, greater: (string, string) -> bool)
    requires Transitive(greater) && forall a :: !greater(a, a)
    requires SortedLines(lines, greater) && forall i :: 0 <= i < |lines| ==> SourceText(lines[i]) != ""
    requires SourceText(newFile) == newFile
    ensures SortedLines(Inserted(lines, newFile, greater), greater)
  {
    var k := InsertionPoint(lines, newFile, greater);
    var r := Inserted(lines, newFile, greater);
    assert |r| == |lines| + 1;
    assert forall i :: 0 <= i < k ==> r[i] == lines[i];
    assert r[k] == newFile;
    assert forall i :: k < i < |r| ==> r[i] == lines[i - 1];
    forall i, j | 0 <= i < j < |r| ensures !greater(SourceText(r[i]), SourceText(r[j])) {
      if j == k {
        assert !InsertsBefore(lines[i], newFile, greater);
      } else if i == k {
        assert greater(SourceText(lines[k]), newFile);
        if j - 1 > k {
          assert !greater(SourceText(lines[k]), SourceText(lines[j - 1]));
        }
      }
    }
  }

  // ----- removing lines -----

  /** The lines whose text is not `file`, in order. */
  function Without(lines: seq<string>, file: string): (r: seq<string>)
    ensures |r| <= |lines|
    ensures forall i :: 0 <= i < |r| ==> SourceText(r[i]) != file
  {
    if lines == [] then []
    else
      var n := |lines| - 1;
      Without(lines[..n], file) + (if SourceText(lines[n]) != file then [lines[n]] else [])
  }

  /** A line is kept exactly when its text is not `file`. */
  lemma {:induction false} WithoutMembers(lines: seq<string>, file: string, l: string)
    ensures l in Without(lines, file) <==> l in lines && SourceText(l) != file
  {
    if lines != [] {
      var n := |lines| - 1;
      WithoutMembers(lines[..n], file, l);
      assert lines == lines[..n] + [lines[n]];
    }
  }

  /** Some line of the file has `file` as its text. */
  predicate Listed(lines: seq<string>, file: string)
  {
    exists i :: 0 <= i < |lines| && SourceText(lines[i]) == file
  }

  /** A file is listed in lines with one more line when it is listed before or is that line's text. */
  lemma ListedSnoc(lines: seq<string>, line: string, file: string)
    ensures Listed(lines + [line], file) <==> Listed(lines, file) || SourceText(line) == file
  {
    var s := lines + [line];
    if Listed(s, file) && !Listed(lines, file) {
      var i :| 0 <= i < |s| && SourceText(s[i]) == file;
    }
    if Listed(lines, file) {
      var i :| 0 <= i < |lines| && SourceText(lines[i]) == file;
      assert s[i] == lines[i];
    }
    if SourceText(line) == file {
      assert s[|lines|] == line;
    }
  }

  /** Removing a file that is not listed leaves the lines as they are. */
  lemma {:induction false} WithoutUnlisted(lines: seq<string>, file: string)
    requires !Listed(lines, file)
    ensures Without(lines, file) == lines
  {
    if lines != [] {
      var n := |lines| - 1;
      assert !Listed(lines[..n], file) by {
        forall i | 0 <= i < n ensures SourceText(lines[..n][i]) != file {
          assert lines[..n][i] == lines[i];
        }
      }
      WithoutUnlisted(lines[..n], file);
      assert SourceText(lines[n]) != file;
      assert lines == lines[..n] + [lines[n]];
    }
  }

  // ----- compiler output -----

  /** Lines of make's output that are never errors (debug-symbol statistics, progress lines). */
  const IgnoredPrefixes: seq<string> := ["WROTE SYMFILE", "make[", "OffsetTable", "Compilation succeeded", "Compilation failed"]

  predicate Ignored(line: string)
  {
    exists i :: 0 <= i < |IgnoredPrefixes| && StartsWith(line, IgnoredPrefixes[i])
  }

  /** The groups of the error regular expression that matched a line; a group that took part in no match is "". */
  datatype ErrorMatch = ErrorMatch(file: string, line: string, column: string, level: string, number: string, message: string)

  /** System.CodeDom.Compiler.CompilerError; its fields start as "", 0, 0, "", "" and false. */
  datatype CompilerError = CompilerError(fileName: string, line: int, column: int, errorNumber: string, errorText: string, isWarning: bool)

  /**
   * CreateErrorFromString: the error or warning a line of compiler output reports, or None
   * for an ignored line, a line the regular expression does not match (`matched` is its
   * result) and a level other than "warning" and "error".  Int32.Parse of a line or column
   * group that is not a 32-bit number throws.
   */
  function CreateErrorFromString(errorString: string, matched: Option<ErrorMatch>, baseDirectory: string,
                                 combine: (string, string) -> string): (r: Result<Option<CompilerError>>)
    ensures Ignored(errorString) || matched.None? ==> r == Ok(None)
    ensures matched.Some? && matched.value.level != "warning" && matched.value.level != "error" ==> r == Ok(None)
    ensures r.Ok? && r.value.Some? ==>
      !Ignored(errorString) && matched.Some? &&
      (r.value.value.isWarning <==> matched.value.level == "warning") &&
      (!r.value.value.isWarning ==> matched.value.level == "error") &&
      r.value.value.errorNumber == matched.value.number && r.value.value.errorText == matched.value.message &&
      r.value.value.fileName == (if matched.value.file == "" then "" else combine(baseDirectory, matched.value.file))
    ensures r.Ok? && r.value.Some? ==>
      (if matched.value.line == "" then r.value.value.line == 0 else ParseInt32(matched.value.line) == Ok(r.value.value.line)) &&
      (if matched.value.column == "" then r.value.value.column == 0 else ParseInt32(matched.value.column) == Ok(r.value.value.column))
    ensures r == Ok(None) <==>
      Ignored(errorString) || matched.None? || (matched.value.level != "warning" && matched.value.level != "error")
    ensures r.Throws? <==>
      !Ignored(errorString) && matched.Some? && (matched.value.level == "warning" || matched.value.level == "error") &&
      ((matched.value.line != "" && ParseInt32(matched.value.line).Throws?) ||
       (matched.value.column != "" && ParseInt32(matched.value.column).Throws?))
  {
    if Ignored(errorString) then Ok(None)
    else match matched
      case None => Ok(None)
      case Some(m) =>
        if m.level != "warning" && m.level != "error" then Ok(None)
        else
          var fileName := if m.file != "" then combine(baseDirectory, m.file) else "";
          var line := if m.line != "" then ParseInt32(m.line) else Ok(0);
          var column := if m.column != "" then ParseInt32(m.column) else Ok(0);
          if line.Throws? then Throws(line.error)
          else if column.Throws? then Throws(column.error)
          else Ok(Some(CompilerError(fileName, line.value, column.value, m.number, m.message, m.level == "warning")))
  }

  /** The regular expression's column group allows trailing '+' signs, which Int32.Parse refuses. */
  lemma ColumnWithPlusThrows(errorString: string, m: ErrorMatch, baseDirectory: string, combine: (string, string) -> string)
    requires !Ignored(errorString) && m.level == "error" && m.line == "" && m.column == "5+"
    ensures CreateErrorFromString(errorString, Some(m), baseDirectory, combine) == Throws(Format)
  {
    assert Trim("5+", NumberWhite) == "5+" by {
      assert TrimStart("5+", NumberWhite) == "5+";
      assert TrimEnd("5+", NumberWhite) == "5+";
    }
    assert !AllDigits("5+") by { assert !IsDigit("5+"[1]); }
  }

  /** OnRunTarget: make's target for the IDE's Build and Clean targets; other targets are passed on. */
  function MakeTarget(target: string, buildTarget: string, cleanTarget: string): (r: string)
    ensures target == buildTarget ==> r == "all"
    ensures target != buildTarget && target == cleanTarget ==> r == "clean"
    ensures target != buildTarget && target != cleanTarget ==> r == target
  {
    if target == buildTarget then "all" else if target == cleanTarget then "clean" else target
  }

  // ----- the project extension -----

  datatype BuildAction = Compile | Content | OtherAction

  datatype ProjectFile = ProjectFile(name: string, buildAction: BuildAction)

  /** One file of a FileRenamedInProject event: the file, its old name and its new one. */
  datatype RenamedFile = RenamedFile(file: ProjectFile, oldName: string, newName: string)

  /** The directory of a `.sources` line's file, under basePath. */
  function LineDirectory(line: string, basePath: string, combine: (string, string) -> string,
                         directoryName: string -> string): string
  {
    directoryName(combine(basePath, SourceText(line)))
  }

  /** The directories checked for a ChangeLog once a line is read: its directory is added when it is new. */
  function NextChecked(line: string, checked: seq<string>, basePath: string, combine: (string, string) -> string,
                       directoryName: string -> string): (r: seq<string>)
    ensures |checked| <= |r| && r[..|checked|] == checked
    ensures SourceText(line) != "" ==> LineDirectory(line, basePath, combine, directoryName) in r
  {
    var dir := LineDirectory(line, basePath, combine, directoryName);
    if SourceText(line) == "" || dir in checked then checked
    else
      assert (checked + [dir])[..|checked|] == checked;
      checked + [dir]
  }

  /** The files one line adds: none for a blank line, else the file, and the ChangeLog of a new directory when it exists. */
  function LineFiles(line: string, checked: seq<string>, basePath: string, combine: (string, string) -> string,
                     directoryName: string -> string, exists_: string -> bool): seq<ProjectFile>
  {
    var text := SourceText(line);
    if text == "" then []
    else
      var fname := combine(basePath, text);
      var dir := directoryName(fname);
      var changeLog := combine(dir, "ChangeLog");
      [ProjectFile(fname, Compile)] + (if dir !in checked && exists_(changeLog) then [ProjectFile(changeLog, Content)] else [])
  }

  /** The directories checked for a ChangeLog once the lines are read, each once, in order of first use. */
  function CheckedFolders(lines: seq<string>, basePath: string, combine: (string, string) -> string,
                          directoryName: string -> string): seq<string>
  {
    if lines == [] then []
    else NextChecked(lines[|lines| - 1], CheckedFolders(lines[..|lines| - 1], basePath, combine, directoryName),
                     basePath, combine, directoryName)
  }

  /** The files a reading of the `.sources` lines adds to the project, in order. */
  function ReadFiles(lines: seq<string>, basePath: string, combine: (string, string) -> string,
                     directoryName: string -> string, exists_: string -> bool): seq<ProjectFile>
  {
    if lines == [] then []
    else
      var init := lines[..|lines| - 1];
      ReadFiles(init, basePath, combine, directoryName, exists_) +
      LineFiles(lines[|lines| - 1], CheckedFolders(init, basePath, combine, directoryName), basePath, combine, directoryName, exists_)
  }

  /** Every directory is checked once: the checked folders stay distinct. */
  lemma {:induction false} CheckedFoldersDistinct(lines: seq<string>, basePath: string, combine: (string, string) -> string,
                                                  directoryName: string -> string)
    ensures NoDuplicates(CheckedFolders(lines, basePath, combine, directoryName))
  {
    if lines != [] {
      CheckedFoldersDistinct(lines[..|lines| - 1], basePath, combine, directoryName);
    }
  }

  /** The checked directories are exactly the directories of the non-blank lines. */
  lemma {:induction false} CheckedFoldersCover(lines: seq<string>, basePath: string, combine: (string, string) -> string,
                                               directoryName: string -> string, dir: string)
    ensures dir in CheckedFolders(lines, basePath, combine, directoryName) <==>
      exists i :: 0 <= i < |lines| && SourceText(lines[i]) != "" && LineDirectory(lines[i], basePath, combine, directoryName) == dir
  {
    if lines != [] {
      var n := |lines| - 1;
      var init := lines[..n];
      CheckedFoldersCover(init, basePath, combine, directoryName, dir);
      var before := CheckedFolders(init, basePath, combine, directoryName);
      var r := CheckedFolders(lines, basePath, combine, directoryName);
      assert r[..|before|] == before;
      if dir in before {
        var j :| 0 <= j < |before| && before[j] == dir;
        assert r[j] == dir;
        var i :| 0 <= i < n && SourceText(init[i]) != "" && LineDirectory(init[i], basePath, combine, directoryName) == dir;
        assert lines[i] == init[i];
      }
      if exists i :: 0 <= i < |lines| && SourceText(lines[i]) != "" && LineDirectory(lines[i], basePath, combine, directoryName) == dir {
        var i :| 0 <= i < |lines| && SourceText(lines[i]) != "" && LineDirectory(lines[i], basePath, combine, directoryName) == dir;
        if i < n {
          assert init[i] == lines[i];
          var j :| 0 <= j < |before| && before[j] == dir;
          assert r[j] == dir;
        }
      }
    }
  }

  /**
   * The loop of Read: the files the lines add, and the directories checked for a ChangeLog.
   */
  method ReadLines(lines: seq<string>, basePath: string, combine: (string, string) -> string,
                   directoryName: string -> string, exists_: string -> bool)
    returns (files: seq<ProjectFile>, checked: seq<string>)
    ensures files == ReadFiles(lines, basePath, combine, directoryName, exists_)
    ensures checked == CheckedFolders(lines, basePath, combine, directoryName)
  {
    files := [];
    checked := [];
    var i := 0;
    while i < |lines|
      invariant 0 <= i <= |lines|
      invariant files == ReadFiles(lines[..i], basePath, combine, directoryName, exists_)
      invariant checked == CheckedFolders(lines[..i], basePath, combine, directoryName)
    {
      assert lines[..i + 1][..i] == lines[..i];
      var line := SourceText(lines[i]);
      if line != "" {
        var fname := combine(basePath, line);
        files := files + [ProjectFile(fname, Compile)];
        var dir := directoryName(fname);
        if dir !in checked {
          checked := checked + [dir];
          var changeLog := combine(dir, "ChangeLog");
          if exists_(changeLog) {
            files := files + [ProjectFile(changeLog, Content)];
          }
        }
      }
      i := i + 1;
    }
    assert lines[..i] == lines;
  }

  /** The loop of AddSourceFile: `newFile` written before the first blank or greater line, or last. */
  method WriteInserted(lines: seq<string>, newFile: string, greater: (string, string) -> bool) returns (written: seq<string>)
    ensures written == Inserted(lines, newFile, greater)
  {
    ghost var k := InsertionPoint(lines, newFile, greater);
    var pending := true;
    written := [];
    var i := 0;
    while i < |lines|
      invariant 0 <= i <= |lines|
      invariant pending <==> i <= k
      invariant pending ==> written == lines[..i]
      invariant !pending ==> written == lines[..k] + [newFile] + lines[k..i]
    {
      var file := SourceText(lines[i]);
      if pending && (file == "" || greater(file, newFile)) {
        written := written + [newFile];
        pending := false;
      }
      if !pending {
        assert lines[k..i + 1] == lines[k..i] + [lines[i]];
      }
      written := written + [lines[i]];
      i := i + 1;
    }
    if pending {
      written := written + [newFile];
    }
  }

  /** The loop of RemoveSourceFile: the lines other than `file`'s, and whether one was `file`'s. */
  method WriteWithout(lines: seq<string>, file: string) returns (written: seq<string>, found: bool)
    ensures written == Without(lines, file)
    ensures found <==> Listed(lines, file)
    ensures !found ==> written == lines
  {
    found := false;
    written := [];
    var i := 0;
    while i < |lines|
      invariant 0 <= i <= |lines|
      invariant written == Without(lines[..i], file)
      invariant found <==> Listed(lines[..i], file)
    {
      assert lines[..i + 1][..i] == lines[..i];
      assert lines[..i + 1] == lines[..i] + [lines[i]];
      ListedSnoc(lines[..i], lines[i], file);
      var text := SourceText(lines[i]);
      if file != text {
        written := written + [lines[i]];
      } else {
        found := true;
      }
      i := i + 1;
    }
    assert lines[..i] == lines;
    if !found {
      WithoutUnlisted(lines, file);
    }
  }

  class MonoMakefileProjectExtension {
    /** Project.GetRelativeChildPath */
    const relativeChildPath: string -> string
    /** string.Compare(a, b) > 0 */
    const compareGreater: (string, string) -> bool
    /** The lines of the library's `.sources` file. */
    var sources: seq<string>
    /** Project.Files */
    var files: seq<ProjectFile>
    /** Set while Read fills the project, so that the file handlers do not write the `.sources` file. */
    var loading: bool

    constructor(relativeChildPath: string -> string, compareGreater: (string, string) -> bool, sources: seq<string>)
      ensures this.relativeChildPath == relativeChildPath && this.compareGreater == compareGreater
      ensures this.sources == sources && files == [] && !loading
    {
      this.relativeChildPath := relativeChildPath;
      this.compareGreater := compareGreater;
      this.sources := sources;
      files := [];
      loading := false;
    }

    /** The name a project file has in the `.sources` file. */
    function SourcesName(sourceFile: string): string
    {
      StripDotSlash(relativeChildPath(sourceFile))
    }

    /**
     * Read, the part that reads the `.sources` file: every non-blank line, trimmed, becomes a
     * compiled file under basePath; the first file of each directory also brings the
     * directory's ChangeLog, when it exists, as content.
     */
    method Read(basePath: string, combine: (string, string) -> string, directoryName: string -> string,
                exists_: string -> bool)
      returns (ghost checkedFolders: seq<string>)
      modifies this`files, this`loading
      ensures files == old(files) + ReadFiles(sources, basePath, combine, directoryName, exists_)
      ensures checkedFolders == CheckedFolders(sources, basePath, combine, directoryName)
      ensures !loading
    {
      loading := true;
      var added, checked := ReadLines(sources, basePath, combine, directoryName, exists_);
      files := files + added;
      checkedFolders := checked;
      loading := false;
    }

    /** AddSourceFile: the file's relative name is written once, before the first blank or greater line. */
    method AddSourceFile(sourceFile: string)
      modifies this`sources
      ensures sources == Inserted(old(sources), SourcesName(sourceFile), compareGreater)
    {
      var newFile := relativeChildPath(sourceFile);
      if StartsWith(newFile, "./") {
        newFile := newFile[2..];
      }
      assert newFile == SourcesName(sourceFile);
      sources := WriteInserted(sources, newFile, compareGreater);
    }

    /** RemoveSourceFile: drops every line naming the file; the file is rewritten only when one was found. */
    method RemoveSourceFile(sourceFile: string) returns (found: bool)
      modifies this`sources
      ensures found <==> Listed(old(sources), SourcesName(sourceFile))
      ensures sources == Without(old(sources), SourcesName(sourceFile))
    {
      var oldFile := relativeChildPath(sourceFile);
      if StartsWith(oldFile, "./") {
        oldFile := oldFile[2..];
      }
      var written;
      written, found := WriteWithout(sources, oldFile);
      if found {
        sources := written;
      }
    }

    /** OnFileAddedToProject: each compiled file is added to the `.sources` file, unless loading. */
    method OnFileAddedToProject(added: seq<ProjectFile>)
      modifies this`sources
      ensures loading ==> sources == old(sources)
      ensures !loading ==> sources == AfterAdds(old(sources), added)
    {
      if loading {
        return;
      }
      var i := 0;
      while i < |added|
        invariant 0 <= i <= |added|
        invariant sources == AfterAdds(old(sources), added[..i])
      {
        assert added[..i + 1][..i] == added[..i];
        if added[i].buildAction == Compile {
          AddSourceFile(added[i].name);
        }
        i := i + 1;
      }
      assert added[..i] == added;
    }

    /** The `.sources` lines after each compiled file of `added` was added in turn. */
    ghost function AfterAdds(lines: seq<string>, added: seq<ProjectFile>): seq<string>
    {
      if added == [] then lines
      else
        var before := AfterAdds(lines, added[..|added| - 1]);
        var f := added[|added| - 1];
        if f.buildAction == Compile then Inserted(before, SourcesName(f.name), compareGreater) else before
    }

    /** OnFileRemovedFromProject: each compiled file is removed from the `.sources` file, unless loading. */
    method OnFileRemovedFromProject(removed: seq<ProjectFile>)
      modifies this`sources
      ensures loading ==> sources == old(sources)
      ensures !loading ==> sources == AfterRemoves(old(sources), removed)
    {
      if loading {
        return;
      }
      var i := 0;
      while i < |removed|
        invariant 0 <= i <= |removed|
        invariant sources == AfterRemoves(old(sources), removed[..i])
      {
        assert removed[..i + 1][..i] == removed[..i];
        if removed[i].buildAction == Compile {
          var _ := RemoveSourceFile(removed[i].name);
        }
        i := i + 1;
      }
      assert removed[..i] == removed;
    }

    ghost function AfterRemoves(lines: seq<string>, removed: seq<ProjectFile>): seq<string>
    {
      if removed == [] then lines
      else
        var before := AfterRemoves(lines, removed[..|removed| - 1]);
        var f := removed[|removed| - 1];
        if f.buildAction == Compile then Without(before, SourcesName(f.name)) else before
    }

    /** A rename: the new name is added only when the old one was listed and removed. */
    ghost function Renamed(lines: seq<string>, oldName: string, newName: string): seq<string>
    {
      if Listed(lines, SourcesName(oldName))
      then Inserted(Without(lines, SourcesName(oldName)), SourcesName(newName), compareGreater)
      else lines
    }

    /** OnFileRenamedInProject: each compiled file is renamed in the `.sources` file, unless loading. */
    method OnFileRenamedInProject(renamed: seq<RenamedFile>)
      modifies this`sources
      ensures loading ==> sources == old(sources)
      ensures !loading ==> sources == AfterRenames(old(sources), renamed)
    {
      if loading {
        return;
      }
      var i := 0;
      while i < |renamed|
        invariant 0 <= i <= |renamed|
        invariant sources == AfterRenames(old(sources), renamed[..i])
      {
        assert renamed[..i + 1][..i] == renamed[..i];
        var e := renamed[i];
        if e.file.buildAction == Compile {
          ghost var before := sources;
          var removed := RemoveSourceFile(e.oldName);
          if removed {
            AddSourceFile(e.newName);
          } else {
            WithoutUnlisted(before, SourcesName(e.oldName));
          }
        }
        i := i + 1;
      }
      assert renamed[..i] == renamed;
    }

    ghost function AfterRenames(lines: seq<string>, renamed: seq<RenamedFile>): seq<string>
    {
      if renamed == [] then lines
      else
        var before := AfterRenames(lines, renamed[..|renamed| - 1]);
        var e := renamed[|renamed| - 1];
        if e.file.buildAction == Compile then Renamed(before, e.oldName, e.newName) else before
    }
  }
}
