/**
 * The project pad's folder nodes (FolderNodeBuilder): which project files a folder node
 * lists as its files, which sub-folders it shows, and whether it has children at all.
 *
 * A project is its list of files and its base directory.  FilePath's operations
 * (ParentDirectory, Combine, IsChildPathOf) and FileNestingService.HasParent are
 * parameters: FilePath and the nesting service are not part of this model.
 */
module ProjectPadFolders {
  import opened Wrappers
  import opened Strings
  import opened PathTreeNodes

  /** The fields of a ProjectFile the folder node reads. */
  datatype ProjectFile = ProjectFile(
    filePath: string,
    name: string,
    visible: bool,
    hidden: bool,
    isDirectory: bool,
    // DependsOnFile, when it is set: whether that file is a directory
    dependsOn: Option<bool>,
    isLink: bool,
    virtualPath: string)

  datatype Project = Project(files: seq<ProjectFile>, baseDirectory: string)

  /** FilePath.ParentDirectory, FilePath.Combine and FilePath.IsChildPathOf. */
  datatype PathOps = PathOps(
    parentDirectory: string -> string,
    combine: (string, string) -> string,
    isChildPathOf: (string, string) -> bool)

  /** The file depends on a file that is not a directory. */
  predicate DependsOnFile(file: ProjectFile)
  {
    file.dependsOn.Some? && !file.dependsOn.value
  }

  /** Where a file sits: the parent of its virtual path for a link, else of its own path. */
  function FileDirectory(file: ProjectFile, baseDirectory: string, ops: PathOps): string
  {
    if file.isLink then ops.parentDirectory(ops.combine(baseDirectory, file.virtualPath))
    else ops.parentDirectory(file.filePath)
  }

  /** The prefix every sub-folder of `folder` starts with. */
  function FolderPrefix(folder: string): string
  {
    folder + [DirectorySeparator]
  }

  /** What GetFolderContent makes of one project file. */
  datatype Entry = Skip | AsFile | Candidate(dir: string)

  function Classify(file: ProjectFile, project: Project, folder: string, ops: PathOps, hasParent: ProjectFile -> bool): Entry
  {
    if !file.visible || file.hidden then Skip
    else if !file.isDirectory then
      if DependsOnFile(file) || hasParent(file) then Skip
      else
        var dir := FileDirectory(file, project.baseDirectory, ops);
        if dir == folder then AsFile else Candidate(dir)
    else Candidate(file.name)
  }

  /**
   * The sub-folder of `folder` that `dir` lies in: `dir` cut at the first separator
   * after the prefix, or None when `dir` is not below `folder`.
   */
  function Subfolder(dir: string, folder: string): Option<string>
  {
    var prefix := FolderPrefix(folder);
    if !StartsWith(dir, prefix) then None
    else
      var i := IndexOfChar(dir[|prefix|..], DirectorySeparator);
      if i == -1 then Some(dir) else Some(dir[..|prefix| + i])
  }

  /** A sub-folder is found exactly below the folder, and it is one level deep and a prefix of the path. */
  lemma SubfolderFacts(dir: string, folder: string)
    ensures var r := Subfolder(dir, folder);
      (r.Some? <==> StartsWith(dir, FolderPrefix(folder))) &&
      (r.Some? ==>
        StartsWith(r.value, FolderPrefix(folder)) && StartsWith(dir, r.value) &&
        DirectorySeparator !in r.value[|FolderPrefix(folder)|..])
  {
    var prefix := FolderPrefix(folder);
    if StartsWith(dir, prefix) {
      var i := IndexOfChar(dir[|prefix|..], DirectorySeparator);
      if i != -1 {
        var sub := dir[..|prefix| + i];
        assert sub[|prefix|..] == dir[|prefix|..][..i];
        assert sub[..|prefix|] == prefix;
      }
    }
  }

  /** The files GetFolderContent lists from the first files of the project. */
  function ListedFiles(xs: seq<ProjectFile>, project: Project, folder: string, ops: PathOps, hasParent: ProjectFile -> bool): seq<ProjectFile>
  {
    if xs == [] then []
    else
      ListedFiles(xs[..|xs| - 1], project, folder, ops, hasParent) +
      (if Classify(xs[|xs| - 1], project, folder, ops, hasParent) == AsFile then [xs[|xs| - 1]] else [])
  }

  /** The sub-folder of `folder` a file makes GetFolderContent show, if any. */
  function FolderOf(file: ProjectFile, project: Project, folder: string, ops: PathOps, hasParent: ProjectFile -> bool): Option<string>
  {
    var e := Classify(file, project, folder, ops, hasParent);
    if e.Candidate? then Subfolder(e.dir, folder) else None
  }

  /**
   * Only a visible file that is not nested under another file gives a sub-folder: its
   * own path for a directory, its directory otherwise.
   */
  lemma FolderOfFacts(file: ProjectFile, project: Project, folder: string, ops: PathOps, hasParent: ProjectFile -> bool)
    ensures var r := FolderOf(file, project, folder, ops, hasParent);
      (r.Some? ==> file.visible && !file.hidden && (!file.isDirectory ==> !DependsOnFile(file) && !hasParent(file))) &&
      (r.Some? ==> StartsWith(r.value, FolderPrefix(folder)) && DirectorySeparator !in r.value[|FolderPrefix(folder)|..]) &&
      (r.Some? && file.isDirectory ==> r == Subfolder(file.name, folder)) &&
      (r.Some? && !file.isDirectory ==> r == Subfolder(FileDirectory(file, project.baseDirectory, ops), folder))
  {
    var e := Classify(file, project, folder, ops, hasParent);
    if e.Candidate? {
      SubfolderFacts(e.dir, folder);
    }
  }

  /** The sub-folders GetFolderContent lists from the first files of the project. */
  function ListedFolders(xs: seq<ProjectFile>, project: Project, folder: string, ops: PathOps, hasParent: ProjectFile -> bool): seq<string>
  {
    if xs == [] then []
    else
      var seen := ListedFolders(xs[..|xs| - 1], project, folder, ops, hasParent);
      var d := FolderOf(xs[|xs| - 1], project, folder, ops, hasParent);
      if d.Some? && d.value !in seen then seen + [d.value] else seen
  }

  /**
   * GetFolderContent: the visible files directly in the folder, and every sub-folder
   * that a visible file or directory lies in, once each, in the order first met.
   */
  method GetFolderContent(project: Project, folder: string, ops: PathOps, hasParent: ProjectFile -> bool)
    returns (files: seq<ProjectFile>, folders: seq<string>)
    ensures files == ListedFiles(project.files, project, folder, ops, hasParent)
    ensures folders == ListedFolders(project.files, project, folder, ops, hasParent)
  {
    var xs := project.files;
    files, folders := [], [];
    for k := 0 to |xs|
      invariant files == ListedFiles(xs[..k], project, folder, ops, hasParent)
      invariant folders == ListedFolders(xs[..k], project, folder, ops, hasParent)
    {
      var file := xs[k];
      ListedStep(xs, k, project, folder, ops, hasParent);
      ghost var sub := FolderOf(file, project, folder, ops, hasParent);
      var dir: string;
      if !file.visible || file.hidden {
        continue;
      }
      if !file.isDirectory {
        if DependsOnFile(file) || hasParent(file) {
          continue;
        }
        dir := if file.isLink then ops.parentDirectory(ops.combine(project.baseDirectory, file.virtualPath))
          else ops.parentDirectory(file.filePath);
        if dir == folder {
          files := files + [file];
          continue;
        }
      } else {
        dir := file.name;
      }
      assert sub == Subfolder(dir, folder);
      folders := AddFolder(folders, dir, folder);
    }
    assert xs[..|xs|] == xs;
  }

  /** Adds the sub-folder of `folder` that `dir` lies in, if there is one and it is not yet listed. */
  method AddFolder(folders: seq<string>, dir: string, folder: string) returns (r: seq<string>)
    ensures var d := Subfolder(dir, folder);
      r == if d.Some? && d.value !in folders then folders + [d.value] else folders
  {
    var folderPrefix := FolderPrefix(folder);
    r := folders;
    if StartsWith(dir, folderPrefix) {
      var i := IndexOfChar(dir[|folderPrefix|..], DirectorySeparator);
      var sub := dir;
      if i != -1 {
        sub := dir[..|folderPrefix| + i];
      }
      if sub !in folders {
        r := folders + [sub];
      }
    }
  }

  /** One more file: what it adds to the listed files and folders. */
  lemma ListedStep(xs: seq<ProjectFile>, k: nat, project: Project, folder: string, ops: PathOps, hasParent: ProjectFile -> bool)
    requires k < |xs|
    ensures ListedFiles(xs[..k + 1], project, folder, ops, hasParent) ==
      ListedFiles(xs[..k], project, folder, ops, hasParent) +
      (if Classify(xs[k], project, folder, ops, hasParent) == AsFile then [xs[k]] else [])
    ensures var seen := ListedFolders(xs[..k], project, folder, ops, hasParent);
      var d := FolderOf(xs[k], project, folder, ops, hasParent);
      ListedFolders(xs[..k + 1], project, folder, ops, hasParent) ==
        if d.Some? && d.value !in seen then seen + [d.value] else seen
  {
    assert xs[..k + 1][..k] == xs[..k];
  }

  /** A file is listed exactly when it is visible, not a directory, not nested, and sits directly in the folder. */
  lemma {:induction false} ListedFilesMembers(xs: seq<ProjectFile>, project: Project, folder: string, ops: PathOps,
                                              hasParent: ProjectFile -> bool, f: ProjectFile)
    ensures f in ListedFiles(xs, project, folder, ops, hasParent) <==>
      f in xs && f.visible && !f.hidden && !f.isDirectory && !DependsOnFile(f) && !hasParent(f) &&
      FileDirectory(f, project.baseDirectory, ops) == folder
  {
    if xs != [] {
      var init := xs[..|xs| - 1];
      ListedFilesMembers(init, project, folder, ops, hasParent, f);
      assert xs == init + [xs[|xs| - 1]];
    }
  }

  /** Every listed sub-folder is one level below the folder, and none is listed twice. */
  lemma {:induction false} ListedFoldersShape(xs: seq<ProjectFile>, project: Project, folder: string, ops: PathOps,
                                              hasParent: ProjectFile -> bool)
    ensures var r := ListedFolders(xs, project, folder, ops, hasParent);
      NoDuplicates(r) &&
      forall d :: d in r ==> StartsWith(d, FolderPrefix(folder)) && DirectorySeparator !in d[|FolderPrefix(folder)|..]
  {
    if xs != [] {
      ListedFoldersShape(xs[..|xs| - 1], project, folder, ops, hasParent);
      FolderOfFacts(xs[|xs| - 1], project, folder, ops, hasParent);
    }
  }

  /** A sub-folder is listed exactly when some visible project file or directory lies in it. */
  lemma {:induction false} ListedFoldersMembers(xs: seq<ProjectFile>, project: Project, folder: string, ops: PathOps,
                                                hasParent: ProjectFile -> bool, d: string)
    ensures d in ListedFolders(xs, project, folder, ops, hasParent) <==>
      exists k :: 0 <= k < |xs| && FolderOf(xs[k], project, folder, ops, hasParent) == Some(d)
  {
    if xs != [] {
      var init := xs[..|xs| - 1];
      var seen := ListedFolders(init, project, folder, ops, hasParent);
      var last := FolderOf(xs[|xs| - 1], project, folder, ops, hasParent);
      assert ListedFolders(xs, project, folder, ops, hasParent) ==
        if last.Some? && last.value !in seen then seen + [last.value] else seen;
      assert d in ListedFolders(xs, project, folder, ops, hasParent) <==> d in seen || last == Some(d);
      ListedFoldersMembers(init, project, folder, ops, hasParent, d);
      if d in seen {
        var k :| 0 <= k < |init| && FolderOf(init[k], project, folder, ops, hasParent) == Some(d);
        assert xs[k] == init[k];
      } else if last == Some(d) {
        assert FolderOf(xs[|xs| - 1], project, folder, ops, hasParent) == Some(d);
      } else {
        forall k | 0 <= k < |xs|
          ensures FolderOf(xs[k], project, folder, ops, hasParent) != Some(d)
        {
          if k < |init| {
            assert xs[k] == init[k];
            assert FolderOf(init[k], project, folder, ops, hasParent) != Some(d);
          } else {
            assert xs[k] == xs[|xs| - 1];
          }
        }
      }
    }
  }

  // ----- HasChildNodes -----

  /** Above this many files a folder is taken to have children without looking. */
  const BigProject := 500

  /** The path HasChildNodes tests: the virtual path for a linked file, else the file's own path. */
  function ChildPath(file: ProjectFile, baseDirectory: string, ops: PathOps): string
  {
    if !file.isDirectory && file.isLink then ops.combine(baseDirectory, file.virtualPath) else file.filePath
  }

  /** A visible project file lies below the folder. */
  predicate ShowsChild(file: ProjectFile, baseDirectory: string, folder: string, ops: PathOps)
  {
    file.visible && !file.hidden && ops.isChildPathOf(ChildPath(file, baseDirectory, ops), folder)
  }

  /**
   * HasChildNodes: false outside a project, true for a project of more than 500 files,
   * and otherwise whether some visible file lies below the folder.
   */
  method HasChildNodes(project: Option<Project>, folder: string, ops: PathOps) returns (r: bool)
    ensures project.None? ==> !r
    ensures project.Some? && |project.value.files| > BigProject ==> r
    ensures project.Some? && |project.value.files| <= BigProject ==>
      (r <==> exists k ::
        0 <= k < |project.value.files| && ShowsChild(project.value.files[k], project.value.baseDirectory, folder, ops))
  {
    if project.None? {
      return false;
    }
    var p := project.value;
    if |p.files| > BigProject {
      return true;
    }
    for k := 0 to |p.files|
      invariant forall j :: 0 <= j < k ==> !ShowsChild(p.files[j], p.baseDirectory, folder, ops)
    {
      var file := p.files[k];
      if !file.visible || file.hidden {
        continue;
      }
      var path := if !file.isDirectory then (if file.isLink then ops.combine(p.baseDirectory, file.virtualPath) else file.filePath)
        else file.filePath;
      if ops.isChildPathOf(path, folder) {
        return true;
      }
    }
    return false;
  }
}
