/**
 * The engine's cache of loaded (parsed, not evaluated) project files, keyed by canonical
 * path and reference counted: LoadProject and UnloadProject.  A parsed project is named
 * by a number; `loads` records every parse of a file and `disposed` every project given up.
 */
module MSBuildProjectCache {
  import opened Wrappers

  /** LoadedProjectInfo. */
  datatype LoadedProjectInfo = LoadedProjectInfo(
    project: Option<nat>,
    lastWriteTime: int,
    referenceCount: int,
    needsLoad: bool)

  /** The count a new cache entry starts with, before LoadProject increments it. */
  const InitialReferenceCount := 0

  /** DateTime's default value, the last-write time of an entry never loaded. */
  const NoWriteTime := 0

  /** Whether LoadProject parses the file: the entry is new or the file changed since it was parsed. */
  predicate NeedsReload(entries: map<string, LoadedProjectInfo>, fileName: string, lastWriteTime: int)
  {
    fileName !in entries || entries[fileName].project.None? || entries[fileName].needsLoad ||
    entries[fileName].lastWriteTime != lastWriteTime
  }

  /** The cache after LoadProject(fileName), `lastWriteTime` being File.GetLastWriteTimeUtc and `newProject` the project a new entry gets. */
  function AfterLoad(entries: map<string, LoadedProjectInfo>, fileName: string, lastWriteTime: int, newProject: nat, initialCount: int)
    : (r: map<string, LoadedProjectInfo>)
    ensures r.Keys == entries.Keys + {fileName}
    ensures r[fileName].referenceCount ==
      (if fileName in entries then entries[fileName].referenceCount else initialCount) + 1
    ensures r[fileName].project.Some? && !r[fileName].needsLoad && r[fileName].lastWriteTime == lastWriteTime
    ensures forall f :: f in entries && f != fileName ==> r[f] == entries[f]
  {
    var pi := if fileName in entries then entries[fileName] else LoadedProjectInfo(None, NoWriteTime, initialCount, false);
    var counted := pi.(referenceCount := pi.referenceCount + 1);
    var withProject := if counted.project.None? then counted.(project := Some(newProject), needsLoad := true) else counted;
    var checked := if !withProject.needsLoad then withProject.(needsLoad := withProject.lastWriteTime != lastWriteTime) else withProject;
    var loaded := if checked.needsLoad then checked.(lastWriteTime := lastWriteTime, needsLoad := false) else checked;
    entries[fileName := loaded]
  }

  /** The cache after UnloadProject of the project of `fileName`. */
  function AfterUnload(entries: map<string, LoadedProjectInfo>, fileName: string): (r: map<string, LoadedProjectInfo>)
    ensures fileName !in entries ==> r == entries
    ensures fileName in entries && entries[fileName].referenceCount == 1 ==> r == entries - {fileName}
    ensures fileName in entries && entries[fileName].referenceCount != 1 ==>
      r == entries[fileName := entries[fileName].(referenceCount := entries[fileName].referenceCount - 1)]
  {
    if fileName !in entries then entries
    else
      var pi := entries[fileName];
      if pi.referenceCount - 1 == 0 then entries - {fileName}
      else entries[fileName := pi.(referenceCount := pi.referenceCount - 1)]
  }

  /** Every cached entry holds a parsed project and counts at least one user. */
  ghost predicate CacheValid(entries: map<string, LoadedProjectInfo>)
  {
    forall f :: f in entries ==> entries[f].referenceCount >= 1 && entries[f].project.Some? && !entries[f].needsLoad
  }

  /** A load followed by an unload of a path that was not cached leaves the cache as it was. */
  lemma LoadUnloadEvicts(entries: map<string, LoadedProjectInfo>, fileName: string, lastWriteTime: int, newProject: nat)
    requires fileName !in entries
    ensures AfterUnload(AfterLoad(entries, fileName, lastWriteTime, newProject, InitialReferenceCount), fileName) == entries
  {
    var r := AfterLoad(entries, fileName, lastWriteTime, newProject, InitialReferenceCount);
    assert r - {fileName} == entries;
  }

  /** On a cached path, a load and an unload give the count back. */
  lemma LoadUnloadBalances(entries: map<string, LoadedProjectInfo>, fileName: string, lastWriteTime: int, newProject: nat)
    requires CacheValid(entries) && fileName in entries
    ensures var r := AfterUnload(AfterLoad(entries, fileName, lastWriteTime, newProject, InitialReferenceCount), fileName);
      r.Keys == entries.Keys && r[fileName].referenceCount == entries[fileName].referenceCount &&
      r[fileName].project == entries[fileName].project
  {
  }

  /** Loads and unloads keep the cache valid. */
  lemma LoadKeepsValid(entries: map<string, LoadedProjectInfo>, fileName: string, lastWriteTime: int, newProject: nat)
    requires CacheValid(entries)
    ensures CacheValid(AfterLoad(entries, fileName, lastWriteTime, newProject, InitialReferenceCount))
  {
  }

  lemma UnloadKeepsValid(entries: map<string, LoadedProjectInfo>, fileName: string)
    requires CacheValid(entries)
    ensures CacheValid(AfterUnload(entries, fileName))
  {
  }

  /** The count the source gives a new entry (`ReferenceCount = 1`), which LoadProject then increments. */
  const InitialReferenceCountAsWritten := 1

  /** As written, one load and one unload of a new path leave it cached, with a count of 1. */
  lemma LoadUnloadNeverEvictsAsWritten(entries: map<string, LoadedProjectInfo>, fileName: string, lastWriteTime: int, newProject: nat)
    requires fileName !in entries
    ensures var r := AfterUnload(AfterLoad(entries, fileName, lastWriteTime, newProject, InitialReferenceCountAsWritten), fileName);
      fileName in r && r[fileName].referenceCount == 1 && r != entries
  {
  }

  /** `n` loads of the same file, unchanged on disk. */
  function LoadTimes(entries: map<string, LoadedProjectInfo>, fileName: string, lastWriteTime: int, newProject: nat, n: nat)
    : map<string, LoadedProjectInfo>
  {
    if n == 0 then entries
    else AfterLoad(LoadTimes(entries, fileName, lastWriteTime, newProject, n - 1), fileName, lastWriteTime, newProject, InitialReferenceCount)
  }

  /** `n` unloads of the same file. */
  function UnloadTimes(entries: map<string, LoadedProjectInfo>, fileName: string, n: nat): map<string, LoadedProjectInfo>
  {
    if n == 0 then entries else UnloadTimes(AfterUnload(entries, fileName), fileName, n - 1)
  }

  /** After `n` loads of a path that was not cached, its entry counts `n` users of one parsed project. */
  lemma {:induction false} LoadTimesCounts(entries: map<string, LoadedProjectInfo>, fileName: string, lastWriteTime: int, newProject: nat, n: nat)
    requires fileName !in entries && n >= 1
    ensures LoadTimes(entries, fileName, lastWriteTime, newProject, n) ==
      entries[fileName := LoadedProjectInfo(Some(newProject), lastWriteTime, n, false)]
  {
    if n > 1 {
      LoadTimesCounts(entries, fileName, lastWriteTime, newProject, n - 1);
    }
  }

  /** `n` unloads of an entry counting `n` users evict it and leave everything else as it was. */
  lemma {:induction false} UnloadTimesEvicts(entries: map<string, LoadedProjectInfo>, fileName: string, info: LoadedProjectInfo, n: nat)
    requires fileName !in entries && n >= 1 && info.referenceCount == n
    decreases n
    ensures UnloadTimes(entries[fileName := info], fileName, n) == entries
  {
    var e := entries[fileName := info];
    if n == 1 {
      assert AfterUnload(e, fileName) == entries;
    } else {
      var info' := info.(referenceCount := n - 1);
      assert AfterUnload(e, fileName) == entries[fileName := info'];
      UnloadTimesEvicts(entries, fileName, info', n - 1);
    }
  }

  /** As many unloads as loads of a path that was not cached leave the cache as it was. */
  lemma BalancedLoadsEvict(entries: map<string, LoadedProjectInfo>, fileName: string, lastWriteTime: int, newProject: nat, n: nat)
    requires fileName !in entries && n >= 1
    ensures UnloadTimes(LoadTimes(entries, fileName, lastWriteTime, newProject, n), fileName, n) == entries
  {
    LoadTimesCounts(entries, fileName, lastWriteTime, newProject, n);
    UnloadTimesEvicts(entries, fileName, LoadedProjectInfo(Some(newProject), lastWriteTime, n, false), n);
  }

  /** The map of loaded projects, with the counter that names new projects. */
  class LoadedProjects {
    var entries: map<string, LoadedProjectInfo>
    var nextProject: nat
    var loads: seq<string>
    var disposed: seq<nat>

    ghost predicate Valid()
      reads this
    {
      CacheValid(entries) && forall f :: f in entries ==> entries[f].project.value < nextProject
    }

    constructor ()
      ensures Valid() && entries == map[] && loads == [] && disposed == []
    {
      entries := map[];
      nextProject := 0;
      loads := [];
      disposed := [];
    }

    /** LoadProject: count one more user, parse the file if it is new or changed, and return its project. */
    method LoadProject(fileName: string, lastWriteTime: int) returns (project: nat)
      requires Valid()
      modifies this
      ensures Valid()
      ensures entries == AfterLoad(old(entries), fileName, lastWriteTime, old(nextProject), InitialReferenceCount)
      ensures project == entries[fileName].project.value
      ensures fileName in old(entries) ==> project == old(entries)[fileName].project.value
      ensures loads == old(loads) + (if NeedsReload(old(entries), fileName, lastWriteTime) then [fileName] else [])
      ensures disposed == old(disposed)
    {
      var pi: LoadedProjectInfo;
      if fileName !in entries {
        pi := LoadedProjectInfo(None, NoWriteTime, InitialReferenceCount, false);
      } else {
        pi := entries[fileName];
      }
      pi := pi.(referenceCount := pi.referenceCount + 1);
      if pi.project.None? {
        pi := pi.(project := Some(nextProject), needsLoad := true);
        nextProject := nextProject + 1;
      }
      if !pi.needsLoad {
        pi := pi.(needsLoad := pi.lastWriteTime != lastWriteTime);
      }
      if pi.needsLoad {
        pi := pi.(lastWriteTime := lastWriteTime);
        loads := loads + [fileName];
        pi := pi.(needsLoad := false);
      }
      entries := entries[fileName := pi];
      project := pi.project.value;
    }

    /** UnloadProject: count one user less; the last one evicts the entry and disposes its project. */
    method UnloadProject(fileName: string)
      requires Valid()
      modifies this
      ensures Valid()
      ensures entries == AfterUnload(old(entries), fileName)
      ensures disposed == old(disposed) +
        (if fileName in old(entries) && old(entries)[fileName].referenceCount == 1
         then [old(entries)[fileName].project.value] else [])
      ensures loads == old(loads) && nextProject == old(nextProject)
    {
      if fileName !in entries {
        return;
      }
      var pi := entries[fileName];
      pi := pi.(referenceCount := pi.referenceCount - 1);
      if pi.referenceCount == 0 {
        entries := entries - {fileName};
        disposed := disposed + [pi.project.value];
      } else {
        entries := entries[fileName := pi];
      }
    }
  }
}
