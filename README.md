# MonoDevelop core logic in Dafny

This project models, and proves properties of, the sequential pieces of logic inside
MonoDevelop, the .NET IDE:

- the MSBuild evaluation engine (`DefaultMSBuildEngine`). This covers the property table
  and how imports merge into it, the two parallel item lists (evaluated, and evaluated
  ignoring conditions), adding, removing and updating items, item transform parsing,
  summary and item-list functions, the exclude glob-to-regex translation,
  SplitWildcardFilePath, the condition fail-safe wrapper, the reference-counted cache of
  loaded projects, and the EvaluateObjects/Choose dispatch;
- the file watcher's `PathTree`, a trie of path segments whose child lists are kept sorted
  and doubly linked, with find, insert, and removal that prunes dead subtrees;
- the `ProgressMonitor` task stack (BeginTask/EndTask, steps, pending step work), its
  coalescing list of cached log chunks, error reporting and disposal;
- the C# and VB.NET compiler parameters: define symbols, NoWarn parsing, specific
  diagnostic options, the output kind and nullable option mappings, and the change-detecting
  setters;
- the Makefile project extension's `.sources` file maintenance, its compiler-error parsing
  and its target mapping;
- small parsers in the IDE: the debugger's breakpoint location and function signature, the
  hit count and condition saved by the breakpoint dialog, the version-control log's filter
  and highlighting, the project pad's folder contents, and the debugger's completion text
  entry.

Layout:

- `wrappers.dfy` holds Option and Result. Result carries the .NET exception a call throws.
- `strings.dfy` holds the .NET string operations the code relies on: Trim, Split, Join,
  IndexOf, Int32.Parse, number formatting, ASCII case folding and ordinal order.
- The other files follow the source files:
  - `msbuild_*.dfy` model DefaultMSBuildEngine, one file per part of the engine;
  - `pathtree_*.dfy` model PathTree;
  - `progress_*.dfy` model ProgressMonitor;
  - one file each for the remaining classes.

State that the source updates in place is modelled as Dafny classes with those fields:
`LoadedProjects`, `ProjectInfo`, `PathTree`, `ProgressMonitor`, the compiler parameters,
`MonoMakefileProjectExtension`, `ParsedLocation` and `TextEntryWithCodeCompletion`.

Linked nodes are kept in an arena, a sequence of node records in which a node's index is its
reference and -1 is null. This applies to the PathTree nodes with their Parent, FirstChild,
Next and Previous links, and to the ProgressTask records with their parent and child lists.
Each class method is proved against a specification function of the old state. The
properties the source promises are lemmas about those functions.

Code that the source does not show becomes a function parameter of the member that calls
it. This covers the condition parser, the evaluation context, File.Exists, GetLastWriteTime,
regular-expression matching, SyntaxFacts.IsValidIdentifier,
FunctionBreakpoint.TryParseParameters, markup escaping, the file-nesting service,
string.Compare and the culture-aware comparisons.

## Model

| member | source | states |
|---|---|---|
| MSBuildProjectState.StoredProperty | main/src/core/MonoDevelop.Core/MonoDevelop.Projects.MSBuild/DefaultMSBuildEngine.cs:1311-1320 | the key is the folded name; a redefinition overwrites Value and FinalValue and sets DefinedMultipleTimes; a first definition is (name, value, finalValue) with DefinedMultipleTimes and IsImported false; every other key is unchanged |
| MSBuildProjectState.StoreIgnoresCase | main/src/core/MonoDevelop.Core/MonoDevelop.Projects.MSBuild/DefaultMSBuildEngine.cs:1311-1320 | names that differ only in the case of ASCII letters store the same property |
| MSBuildProjectState.ProjectInfo.StoreProperty | main/src/core/MonoDevelop.Core/MonoDevelop.Projects.MSBuild/DefaultMSBuildEngine.cs:1311-1320 | the table becomes StoredProperty of the old one |
| MSBuildProjectState.MergedProperties | main/src/core/MonoDevelop.Core/MonoDevelop.Projects.MSBuild/DefaultMSBuildEngine.cs:1221-1229 | the keys are the importer's plus the imported ones; every imported property is flagged IsImported, replaces the importer's entry, and is flagged DefinedMultipleTimes when the key was already present, otherwise keeps its own flag; other entries are unchanged |
| MSBuildProjectState.MergeTwice | main/src/core/MonoDevelop.Core/MonoDevelop.Projects.MSBuild/DefaultMSBuildEngine.cs:1221-1229 | importing the same properties twice flags every one as defined multiple times |
| MSBuildProjectState.Imported | main/src/core/MonoDevelop.Core/MonoDevelop.Projects.MSBuild/DefaultMSBuildEngine.cs:1221-1229 | an imported property keeps its name and values, and is flagged IsImported |
| MSBuildProjectState.MergeLoop | main/src/core/MonoDevelop.Core/MonoDevelop.Projects.MSBuild/DefaultMSBuildEngine.cs:1221-1229 | the foreach over the imported properties yields MergedProperties |
| MSBuildProjectState.MergedPointwise | main/src/core/MonoDevelop.Core/MonoDevelop.Projects.MSBuild/DefaultMSBuildEngine.cs:1221-1229 | a table that agrees with the merge key by key is the merge |
| MSBuildProjectState.ProjectInfo.ImportFile | main/src/core/MonoDevelop.Core/MonoDevelop.Projects.MSBuild/DefaultMSBuildEngine.cs:1199-1232 | nothing changes when the file does not exist; otherwise the file is appended to the referenced projects and the properties are merged |
| MSBuildProjectState.ProjectInfo.constructor | main/src/core/MonoDevelop.Core/MonoDevelop.Projects.MSBuild/DefaultMSBuildEngine.cs:59-83 | a project with empty tables and lists |
| MSBuildProjectState.NotExcluded | main/src/core/MonoDevelop.Core/MonoDevelop.Projects.MSBuild/DefaultMSBuildEngine.cs:563-570 | the items whose include the exclude expression does not match, in order |
| MSBuildProjectState.NotExcludedLoop | main/src/core/MonoDevelop.Core/MonoDevelop.Projects.MSBuild/DefaultMSBuildEngine.cs:563-570 | the foreach of the wildcard branch yields NotExcluded |
| MSBuildProjectState.NotExcludedPicks | main/src/core/MonoDevelop.Core/MonoDevelop.Projects.MSBuild/DefaultMSBuildEngine.cs:563-570 | the kept items are the input's items at strictly increasing places, and a place is kept exactly when its include is not excluded, so order and repeats are kept |
| MSBuildProjectState.ProjectInfo.AddItem | main/src/core/MonoDevelop.Core/MonoDevelop.Projects.MSBuild/DefaultMSBuildEngine.cs:547-587 | an empty include adds nothing; a transform adds the transformed items; a wildcard adds the expanded items not excluded and records a glob; an include that differs after evaluation adds one item unless excluded, otherwise one item; the items always go to the list that ignores conditions, and to the evaluated list only when the condition holds |
| MSBuildProjectState.ProjectInfo.RemoveEvaluatedItem | main/src/core/MonoDevelop.Core/MonoDevelop.Projects.MSBuild/DefaultMSBuildEngine.cs:540-545 | every item with this name and include leaves the list that ignores conditions, and the evaluated list when the condition holds; the rest stay in order |
| MSBuildProjectState.ProjectInfo.UpdateEvaluatedItem | main/src/core/MonoDevelop.Core/MonoDevelop.Projects.MSBuild/DefaultMSBuildEngine.cs:437-466 | the metadata overlay is written into the matching items of the evaluated list when the condition holds and always into those of the list that ignores conditions |
| MSBuildProjectState.AddKeepsConsistent | main/src/core/MonoDevelop.Core/MonoDevelop.Projects.MSBuild/DefaultMSBuildEngine.cs:547-587 | adding keeps every evaluated item in the list that ignores conditions |
| MSBuildProjectState.RemoveKeepsConsistent | main/src/core/MonoDevelop.Core/MonoDevelop.Projects.MSBuild/DefaultMSBuildEngine.cs:540-545 | every evaluated item stays in the list that ignores conditions exactly when the condition holds or no evaluated item matches: with a false condition a matching item leaves only the list that ignores conditions |
| MSBuildProjectState.EvaluatedTarget | main/src/core/MonoDevelop.Core/MonoDevelop.Projects.MSBuild/DefaultMSBuildEngine.cs:1244-1258 | the name is kept; Inputs, Outputs, DependsOnTargets, AfterTargets, BeforeTargets, Returns and KeepDuplicateOutputs are each the evaluation of the original attribute |
| MSBuildProjectState.ProjectInfo.AddTarget | main/src/core/MonoDevelop.Core/MonoDevelop.Projects.MSBuild/DefaultMSBuildEngine.cs:1244-1258 | the target always joins the list that ignores conditions, and Targets only when its condition holds |
| MSBuildProjectState.ConditionHolds | main/src/core/MonoDevelop.Core/MonoDevelop.Projects.MSBuild/DefaultMSBuildEngine.cs:1274-1309 | true for a missing or empty condition; false when parsing fails or evaluation throws; otherwise the value |
| MSBuildProjectState.ProjectInfo.SafeParseAndEvaluate | main/src/core/MonoDevelop.Core/MonoDevelop.Projects.MSBuild/DefaultMSBuildEngine.cs:1274-1309 | returns ConditionHolds; CustomFullDirectoryName is cleared afterwards in every case; the parsed condition's properties are collected when asked to |
| MSBuildItems.EvaluatedItem.GetValue | main/src/core/MonoDevelop.Core/MonoDevelop.Projects.MSBuild/DefaultMSBuildEngine.cs:437-466 | a metadata value is present exactly when its key is |
| MSBuildItems.Without | main/src/core/MonoDevelop.Core/MonoDevelop.Projects.MSBuild/DefaultMSBuildEngine.cs:540-545 | exactly the items that do not match name and include, in order |
| MSBuildItems.WithoutPicks | main/src/core/MonoDevelop.Core/MonoDevelop.Projects.MSBuild/DefaultMSBuildEngine.cs:540-545 | the kept items are the input's items at strictly increasing places, and a place is kept exactly when its item does not match, so order and repeats are kept |
| MSBuildItems.WithoutAppend | main/src/core/MonoDevelop.Core/MonoDevelop.Projects.MSBuild/DefaultMSBuildEngine.cs:540-545 | removal works piecewise on a concatenation, so the order of the kept items holds |
| MSBuildItems.WithoutIdempotent | main/src/core/MonoDevelop.Core/MonoDevelop.Projects.MSBuild/DefaultMSBuildEngine.cs:540-545 | removing twice removes nothing more |
| MSBuildItems.WithoutNoMatch | main/src/core/MonoDevelop.Core/MonoDevelop.Projects.MSBuild/DefaultMSBuildEngine.cs:540-545 | a list with no matching item is unchanged |
| MSBuildItems.UpdateMatching | main/src/core/MonoDevelop.Core/MonoDevelop.Projects.MSBuild/DefaultMSBuildEngine.cs:439-465 | the loops over the items: a matching item gets the old metadata with the overlay written over it; every other item is unchanged |
| MSBuildTransforms.ParseTransformExpression | main/src/core/MonoDevelop.Core/MonoDevelop.Projects.MSBuild/DefaultMSBuildEngine.cs:718-754 | None exactly when the item name is empty; the item name is the trimmed text before the arrow |
| MSBuildTransforms.ParseArrowExpression | main/src/core/MonoDevelop.Core/MonoDevelop.Projects.MSBuild/DefaultMSBuildEngine.cs:736-753 | a quoted right side gives the unquoted expression and no function; an item function is set only for a known function name |
| MSBuildTransforms.ParseWithoutArrow | main/src/core/MonoDevelop.Core/MonoDevelop.Projects.MSBuild/DefaultMSBuildEngine.cs:727-734 | without an arrow the item name is the trimmed input, and parsing fails exactly when it is empty |
| MSBuildTransforms.ArrowIndex | main/src/core/MonoDevelop.Core/MonoDevelop.Projects.MSBuild/DefaultMSBuildEngine.cs:727-734 | the first arrow of `name->rhs` is the one after name when name holds no '>' |
| MSBuildTransforms.ParseWithArrow | main/src/core/MonoDevelop.Core/MonoDevelop.Projects.MSBuild/DefaultMSBuildEngine.cs:727-754 | with an arrow, the trimmed left side is the item name (failure exactly when it is empty); a quoted right side is stripped and calls no function; a function is set exactly when the name before '(' is known and the side is not quoted |
| MSBuildTransforms.ExecuteSummaryItemFunction | main/src/core/MonoDevelop.Core/MonoDevelop.Projects.MSBuild/DefaultMSBuildEngine.cs:788-802 | defined exactly for Count, and for AnyHaveMetadataValue with two arguments; Count gives the number of items in decimal; AnyHaveMetadataValue gives "true" exactly when some item's metadata has the value, ignoring case |
| MSBuildTransforms.CountParses | main/src/core/MonoDevelop.Core/MonoDevelop.Projects.MSBuild/DefaultMSBuildEngine.cs:792-794 | Count's result reads back as the number of items |
| MSBuildTransforms.Reversed | main/src/core/MonoDevelop.Core/MonoDevelop.Projects.MSBuild/DefaultMSBuildEngine.cs:807-810 | the items in the opposite order |
| MSBuildTransforms.ReversedTwice | main/src/core/MonoDevelop.Core/MonoDevelop.Projects.MSBuild/DefaultMSBuildEngine.cs:807-810 | reversing twice gives the list back |
| MSBuildTransforms.HavingMetadata | main/src/core/MonoDevelop.Core/MonoDevelop.Projects.MSBuild/DefaultMSBuildEngine.cs:811-816 | exactly the items having the metadata key, in order |
| MSBuildTransforms.WithMetadataValue | main/src/core/MonoDevelop.Core/MonoDevelop.Projects.MSBuild/DefaultMSBuildEngine.cs:817-822 | exactly the items whose metadata value equals the value ignoring case, in order |
| MSBuildTransforms.HavingMetadataPicks | main/src/core/MonoDevelop.Core/MonoDevelop.Projects.MSBuild/DefaultMSBuildEngine.cs:811-816 | the kept items are the input's items at strictly increasing places, and a place is kept exactly when the item has the key |
| MSBuildTransforms.WithMetadataValuePicks | main/src/core/MonoDevelop.Core/MonoDevelop.Projects.MSBuild/DefaultMSBuildEngine.cs:817-822 | the kept items are the input's items at strictly increasing places, and a place is kept exactly when the item's value for the key equals the value ignoring case |
| MSBuildTransforms.FirstByKey | main/src/core/MonoDevelop.Core/MonoDevelop.Projects.MSBuild/DefaultMSBuildEngine.cs:826-836 | the first item of every key not seen before, in order, with no key repeated |
| MSBuildTransforms.FirstByKeyKeys | main/src/core/MonoDevelop.Core/MonoDevelop.Projects.MSBuild/DefaultMSBuildEngine.cs:826-836 | the kept keys are the distinct keys of the input in order of first occurrence |
| MSBuildTransforms.DistinctProperties | main/src/core/MonoDevelop.Core/MonoDevelop.Projects.MSBuild/DefaultMSBuildEngine.cs:826-836 | Distinct (ignoring case) and DistinctWithCase (ordinal) keep no two items with one key, keep every key of the input, and set ignoreMetadata |
| MSBuildTransforms.FirstByKeyPicks | main/src/core/MonoDevelop.Core/MonoDevelop.Projects.MSBuild/DefaultMSBuildEngine.cs:826-836 | the kept items are the input's items at strictly increasing places, and a place is kept exactly when its key was not seen before and no earlier item has it: of items sharing a key, the first |
| MSBuildTransforms.ItemListFunction | main/src/core/MonoDevelop.Core/MonoDevelop.Projects.MSBuild/DefaultMSBuildEngine.cs:804-840 | ClearMetadata gives items without metadata; unknown functions fail; each list function is the filter or reordering above |
| MSBuildTransforms.ExecuteTransformItemListFunction | main/src/core/MonoDevelop.Core/MonoDevelop.Projects.MSBuild/DefaultMSBuildEngine.cs:804-840 | the method with the HashSet loop computes ItemListFunction |
| MSBuildTransforms.DistinctLoop | main/src/core/MonoDevelop.Core/MonoDevelop.Projects.MSBuild/DefaultMSBuildEngine.cs:826-836 | the foreach with `values.Add` keeps FirstByKey |
| MSBuildTransforms.Keys | main/src/core/MonoDevelop.Core/MonoDevelop.Projects.MSBuild/DefaultMSBuildEngine.cs:826-836 | one key per item, in order |
| MSBuildGlobs.IsWildcardInclude | main/src/core/MonoDevelop.Core/MonoDevelop.Projects.MSBuild/DefaultMSBuildEngine.cs:851-854 | true exactly when the include holds '*' or '?' |
| MSBuildGlobs.TransformBodyRoundTrip | main/src/core/MonoDevelop.Core/MonoDevelop.Projects.MSBuild/DefaultMSBuildEngine.cs:996-999 | "@(" + e + ")" is a transform exactly when e is not empty, and its body is e |
| MSBuildGlobs.SplitWildcardFilePathSegments | main/src/core/MonoDevelop.Core/MonoDevelop.Projects.MSBuild/DefaultMSBuildEngine.cs:876-882 | no segment holds '/' or '\' |
| MSBuildGlobs.SplitWildcardFilePathJoin | main/src/core/MonoDevelop.Core/MonoDevelop.Projects.MSBuild/DefaultMSBuildEngine.cs:876-882 | joining the segments with '\' gives the normalised path back |
| MSBuildGlobs.SplitWildcardFilePathRecursive | main/src/core/MonoDevelop.Core/MonoDevelop.Projects.MSBuild/DefaultMSBuildEngine.cs:876-882 | a path ending in "**" ends in the segments "**" and "*" |
| MSBuildGlobs.CollapseBackslashes | main/src/core/MonoDevelop.Core/MonoDevelop.Projects.MSBuild/DefaultMSBuildEngine.cs:954-968 | every non-overlapping "\\" from the left becomes one '\' |
| MSBuildGlobs.TokenWidth | main/src/core/MonoDevelop.Core/MonoDevelop.Projects.MSBuild/DefaultMSBuildEngine.cs:969-988 | the loop consumes "**\" or "**" together and anything else one character at a time |
| MSBuildGlobs.AlternationIsJoin | main/src/core/MonoDevelop.Core/MonoDevelop.Projects.MSBuild/DefaultMSBuildEngine.cs:954-992 | the StringBuilder result is the anchored patterns "^…$" joined by vertical bars |
| MSBuildGlobs.TokenRoundTrip | main/src/core/MonoDevelop.Core/MonoDevelop.Projects.MSBuild/DefaultMSBuildEngine.cs:969-988 | reading back the regex of one glob token gives that token |
| MSBuildGlobs.TranslateRoundTrip | main/src/core/MonoDevelop.Core/MonoDevelop.Projects.MSBuild/DefaultMSBuildEngine.cs:969-994 | the translation is injective: reading the regex back gives the glob |
| MSBuildGlobs.TranslateLiteral | main/src/core/MonoDevelop.Core/MonoDevelop.Projects.MSBuild/DefaultMSBuildEngine.cs:969-994 | a glob without wildcards or regex metacharacters translates to itself |
| MSBuildGlobs.ExcludeToRegex | main/src/core/MonoDevelop.Core/MonoDevelop.Projects.MSBuild/DefaultMSBuildEngine.cs:954-992 | the two loops compute ExcludeRegex: entries split on ';', trimmed, in directories-only mode only those ending in "\**" with the suffix cut, each anchored and joined by vertical bars |
| MSBuildGlobs.AppendPattern | main/src/core/MonoDevelop.Core/MonoDevelop.Projects.MSBuild/DefaultMSBuildEngine.cs:969-988 | a vertical bar unless nothing was appended yet, then the anchored translation |
| MSBuildGlobs.EntryGlob | main/src/core/MonoDevelop.Core/MonoDevelop.Projects.MSBuild/DefaultMSBuildEngine.cs:960-968 | the trimmed entry; in directories-only mode None unless it ends in "\**", and the entry without that suffix otherwise |
| MSBuildGlobs.TranslateLoop | main/src/core/MonoDevelop.Core/MonoDevelop.Projects.MSBuild/DefaultMSBuildEngine.cs:969-988 | the character loop appends the translation of the glob |
| MSBuildGlobs.NextToken | main/src/core/MonoDevelop.Core/MonoDevelop.Projects.MSBuild/DefaultMSBuildEngine.cs:969-988 | "**\" gives "(.*\\)?", "**" gives ".*", "*" gives "[^\\]*", a metacharacter is escaped, anything else is copied |
| MSBuildDispatch.EvaluateObjects | main/src/core/MonoDevelop.Core/MonoDevelop.Projects.MSBuild/DefaultMSBuildEngine.cs:311-332 | the foreach over the objects yields Trace, the dispatch on each object's kind, each object in the context the ones before it left |
| MSBuildDispatch.EvaluateChoose | main/src/core/MonoDevelop.Core/MonoDevelop.Projects.MSBuild/DefaultMSBuildEngine.cs:1234-1242 | the foreach with its break yields ChooseTrace, the conditions read in the context the Choose is reached in |
| MSBuildDispatch.SelectedOption | main/src/core/MonoDevelop.Core/MonoDevelop.Projects.MSBuild/DefaultMSBuildEngine.cs:1234-1242 | the index of the first option that is Otherwise or whose condition holds, or the number of options |
| MSBuildDispatch.ChooseSelects | main/src/core/MonoDevelop.Core/MonoDevelop.Projects.MSBuild/DefaultMSBuildEngine.cs:1234-1242 | a Choose evaluates exactly the objects of the selected option, and nothing when none is selected |
| MSBuildDispatch.PropertyPassHasNoItems | main/src/core/MonoDevelop.Core/MonoDevelop.Projects.MSBuild/DefaultMSBuildEngine.cs:311-342 | the property pass evaluates no item group, target or item definition |
| MSBuildDispatch.ItemPassHasNoProperties | main/src/core/MonoDevelop.Core/MonoDevelop.Projects.MSBuild/DefaultMSBuildEngine.cs:311-342 | the item pass evaluates no property group |
| MSBuildDispatch.PassesImportAlike | main/src/core/MonoDevelop.Core/MonoDevelop.Projects.MSBuild/DefaultMSBuildEngine.cs:311-332 | both passes walk into the same imports in the same order when no condition reads what the walk has evaluated |
| MSBuildDispatch.ChooseFreeImportsAlike | main/src/core/MonoDevelop.Core/MonoDevelop.Projects.MSBuild/DefaultMSBuildEngine.cs:311-332 | without a Choose both passes walk into the same imports in the same order, whatever the conditions read |
| MSBuildDispatch.ConditionSeesPropertyPass | main/src/core/MonoDevelop.Core/MonoDevelop.Projects.MSBuild/DefaultMSBuildEngine.cs:268-281 | a Choose on a property set by a later PropertyGroup skips its import in the property pass and walks into it in the item pass |
| MSBuildDispatch.EvaluatePasses | main/src/core/MonoDevelop.Core/MonoDevelop.Projects.MSBuild/DefaultMSBuildEngine.cs:268-281 | the property pass from the starting context, then, unless only properties are evaluated, the item pass in the context the property pass left |
| MSBuildProjectCache.AfterLoad | main/src/core/MonoDevelop.Core/MonoDevelop.Projects.MSBuild/DefaultMSBuildEngine.cs:138-169 | the cache gains the file if new, with the starting count; otherwise its count goes up by one; the project is replaced when reloaded; other entries are unchanged |
| MSBuildProjectCache.AfterUnload | main/src/core/MonoDevelop.Core/MonoDevelop.Projects.MSBuild/DefaultMSBuildEngine.cs:171-188 | nothing changes for an uncached file; a count of 1 evicts the entry; otherwise the count goes down by one |
| MSBuildProjectCache.LoadedProjects.LoadProject | main/src/core/MonoDevelop.Core/MonoDevelop.Projects.MSBuild/DefaultMSBuildEngine.cs:138-169 | the cache becomes AfterLoad with the corrected starting count; the file is parsed exactly when it is new or its write time changed; a cached unchanged file returns the same project |
| MSBuildProjectCache.LoadedProjects.UnloadProject | main/src/core/MonoDevelop.Core/MonoDevelop.Projects.MSBuild/DefaultMSBuildEngine.cs:171-188 | the cache becomes AfterUnload; the project is disposed exactly when the last user leaves |
| MSBuildProjectCache.LoadUnloadEvicts | main/src/core/MonoDevelop.Core/MonoDevelop.Projects.MSBuild/DefaultMSBuildEngine.cs:138-188 | a load and an unload of a path that was not cached leave the cache as it was |
| MSBuildProjectCache.LoadUnloadBalances | main/src/core/MonoDevelop.Core/MonoDevelop.Projects.MSBuild/DefaultMSBuildEngine.cs:138-188 | on a cached path a load and an unload give the count back |
| MSBuildProjectCache.LoadKeepsValid | main/src/core/MonoDevelop.Core/MonoDevelop.Projects.MSBuild/DefaultMSBuildEngine.cs:138-169 | loading keeps every count positive |
| MSBuildProjectCache.UnloadKeepsValid | main/src/core/MonoDevelop.Core/MonoDevelop.Projects.MSBuild/DefaultMSBuildEngine.cs:171-188 | unloading keeps every count positive |
| MSBuildProjectCache.LoadTimesCounts | main/src/core/MonoDevelop.Core/MonoDevelop.Projects.MSBuild/DefaultMSBuildEngine.cs:138-169 | n loads of a path not cached give a count of n and one parsed project |
| MSBuildProjectCache.UnloadTimesEvicts | main/src/core/MonoDevelop.Core/MonoDevelop.Projects.MSBuild/DefaultMSBuildEngine.cs:171-188 | n unloads of an entry counting n evict it and leave the rest |
| MSBuildProjectCache.BalancedLoadsEvict | main/src/core/MonoDevelop.Core/MonoDevelop.Projects.MSBuild/DefaultMSBuildEngine.cs:138-188 | as many unloads as loads of a path not cached leave the cache as it was |
| MSBuildProjectCache.LoadUnloadNeverEvictsAsWritten | main/src/core/MonoDevelop.Core/MonoDevelop.Projects.MSBuild/DefaultMSBuildEngine.cs:138-188 | as written (a new entry starts at 1 and is then incremented) one load and one unload leave the path cached with count 1 |
| FileWatcherPathTree.PathTree.constructor | main/src/core/MonoDevelop.Core/MonoDevelop.FSW/PathTree.cs:39-48 | rootNode with the single child pathRoot, neither live, and the tree invariant |
| FileWatcherPathTree.PathTree.TryFind | main/src/core/MonoDevelop.Core/MonoDevelop.FSW/PathTree.cs:118-171 | on success the result is the node of the path and no chain for the path ends elsewhere; otherwise parent is the end of the longest matching chain, previousNode the sibling before the gap, and lastIndex where the unmatched text starts |
| FileWatcherPathTree.PathTree.WalkStep | main/src/core/MonoDevelop.Core/MonoDevelop.FSW/PathTree.cs:128-166 | one segment looked up among the children of parent |
| FileWatcherPathTree.PathTree.ScanSiblings | main/src/core/MonoDevelop.Core/MonoDevelop.FSW/PathTree.cs:139-150 | siblings below the segment are skipped; the scan stops at the first not below it, which is where the segment belongs |
| FileWatcherPathTree.ConsumeSegment | main/src/core/MonoDevelop.Core/MonoDevelop.FSW/PathTree.cs:152-166 | the rest of the path after the separator and its offset |
| FileWatcherPathTree.PathTree.FindNode | main/src/core/MonoDevelop.Core/MonoDevelop.FSW/PathTree.cs:50-54 | the node of the path, or null exactly when the tree holds none |
| FileWatcherPathTree.PathTree.FindNodeContaining | main/src/core/MonoDevelop.Core/MonoDevelop.FSW/PathTree.cs:56-63 | the node of the path, or else the deepest matched node; null when that is a pathRoot that is not live |
| FileWatcherPathTree.PathTree.AddNode | main/src/core/MonoDevelop.Core/MonoDevelop.FSW/PathTree.cs:173-189 | an existing node gets the id, isModified says it was not live, and no child list changes; a missing path gets a new subtree whose leaf holds the id, with isModified true, and of the old child lists only that of the node before the gap gains one node, the subtree's head; the tree invariant holds |
| FileWatcherPathTree.PathTree.AddMissing | main/src/core/MonoDevelop.Core/MonoDevelop.FSW/PathTree.cs:181-188 | the rest of the path becomes a subtree hung below parent at the gap, with the id on its leaf |
| FileWatcherPathTree.PathTree.GrowSubTree | main/src/core/MonoDevelop.Core/MonoDevelop.FSW/PathTree.cs:181-186 | CreateSubTree for the rest of the path and RegisterId on its leaf |
| FileWatcherPathTree.PathTree.CreateSubTree | main/src/core/MonoDevelop.Core/MonoDevelop.FSW/PathTree.cs:181-186 | one node per remaining segment, each the only child of the one before |
| FileWatcherPathTree.PathTree.InsertNode | main/src/core/MonoDevelop.Core/MonoDevelop.FSW/PathTree.cs:261-286 | the node goes into the parent's list right after previousNode or at its head; ChildrenCount goes up; the Parent, Previous and Next links stay consistent |
| FileWatcherPathTree.PathTree.RemoveNode | main/src/core/MonoDevelop.Core/MonoDevelop.FSW/PathTree.cs:197-204 | null with nothing changed when the path is not found; otherwise RemoveNodeAt |
| FileWatcherPathTree.PathTree.RemoveNodeAt | main/src/core/MonoDevelop.Core/MonoDevelop.FSW/PathTree.cs:206-237 | the id is unregistered; isModified says it was there and the node is no longer live; dead subtrees are unlinked climbing up, never past pathRoot: the list of the node above each cut node loses it, the cut nodes' Parent, Previous and Next are null, and no other list changes |
| FileWatcherPathTree.PathTree.Climb | main/src/core/MonoDevelop.Core/MonoDevelop.FSW/PathTree.cs:215-233 | each dead subtree leaves its parent's list until pathRoot or a subtree that is not dead |
| FileWatcherPathTree.PathTree.CutTop | main/src/core/MonoDevelop.Core/MonoDevelop.FSW/PathTree.cs:215-233 | a dead node leaves its parent's list, and the count and links are fixed |
| FileWatcherPathTree.PathTree.IsDeadSubtree | main/src/core/MonoDevelop.Core/MonoDevelop.FSW/PathTree.cs:239-259 | the search answers DeadSubtree: no node of the subtree is live |
| FileWatcherPathTree.PathTree.PushChildren | main/src/core/MonoDevelop.Core/MonoDevelop.FSW/PathTree.cs:253-256 | the children of the node are pushed on the stack, following the child list |
| PathTreeNodes.RegisterId | main/src/core/MonoDevelop.Core/MonoDevelop.FSW/PathTree.cs:175-184 | one more registration of the id; the node is live afterwards |
| PathTreeNodes.UnregisterId | main/src/core/MonoDevelop.Core/MonoDevelop.FSW/PathTree.cs:206-210 | one registration of the id less, true exactly when it had one |
| PathTreeNodes.SortedTail | main/src/core/MonoDevelop.Core/MonoDevelop.FSW/PathTree.cs:139-150 | in a sorted child list everything after a larger segment is larger |
| PathTreeNodes.OneChildPerSegment | main/src/core/MonoDevelop.Core/MonoDevelop.FSW/PathTree.cs:139-150 | a segment names at most one child |
| PathTreeNodes.ChainsAgree | main/src/core/MonoDevelop.Core/MonoDevelop.FSW/PathTree.cs:118-171 | two chains for the same segments agree as far as both go |
| PathTreeNodes.ChainMaximal | main/src/core/MonoDevelop.Core/MonoDevelop.FSW/PathTree.cs:118-171 | a chain stopped at a gap cannot be outdone |
| PathTreeNodes.OnlyChain | main/src/core/MonoDevelop.Core/MonoDevelop.FSW/PathTree.cs:118-171 | TryFind's outcome tells of all chains: none longer, and every full chain ends at its node |
| PathTreeNodes.DeadSubtreeFrame | main/src/core/MonoDevelop.Core/MonoDevelop.FSW/PathTree.cs:239-259 | deadness depends only on the ids and child lists of the subtree |
| PathTreeNodes.TreeIgnoresIds | main/src/core/MonoDevelop.Core/MonoDevelop.FSW/PathTree.cs:173-237 | registering or unregistering keeps the tree invariant |
| PathTreeEdits.Link | main/src/core/MonoDevelop.Core/MonoDevelop.FSW/PathTree.cs:261-286 | the pointer updates of InsertNode on the arena |
| PathTreeEdits.InsertKeepsTree | main/src/core/MonoDevelop.Core/MonoDevelop.FSW/PathTree.cs:261-286 | linking a detached node at the gap its segment belongs keeps the tree invariant |
| PathTreeEdits.InsertLinksList | main/src/core/MonoDevelop.Core/MonoDevelop.FSW/PathTree.cs:261-286 | the list with the node in it is doubly linked head to tail |
| PathTreeEdits.InsertSortsList | main/src/core/MonoDevelop.Core/MonoDevelop.FSW/PathTree.cs:261-286 | the list with the node in it still ascends |
| PathTreeEdits.InsertKeepsParents | main/src/core/MonoDevelop.Core/MonoDevelop.FSW/PathTree.cs:261-286 | every node stays in its parent's list, the new one in that of the parent |
| PathTreeEdits.Cut | main/src/core/MonoDevelop.Core/MonoDevelop.FSW/PathTree.cs:215-233 | RemoveNode's pointer updates for one node: the count, the head link, the neighbours' links, its own links |
| PathTreeEdits.RemoveAtDropped | main/src/core/MonoDevelop.Core/MonoDevelop.FSW/PathTree.cs:215-233 | in a list without repeats, unlinking the node at its place removes exactly that node |
| PathTreeEdits.UnlinkKeepsTree | main/src/core/MonoDevelop.Core/MonoDevelop.FSW/PathTree.cs:215-233 | unlinking a child with its subtree keeps the tree invariant |
| PathTreeEdits.UnlinkLinksList | main/src/core/MonoDevelop.Core/MonoDevelop.FSW/PathTree.cs:215-233 | the list without the node keeps its links, order and count |
| PathTreeEdits.UnlinkSortsList | main/src/core/MonoDevelop.Core/MonoDevelop.FSW/PathTree.cs:215-233 | the list without the node still ascends |
| PathTreeEdits.UnlinkKeepsParents | main/src/core/MonoDevelop.Core/MonoDevelop.FSW/PathTree.cs:215-233 | every other node stays in its parent's list, and the cut one has none |
| PathTreeEdits.AppendKeepsTree | main/src/core/MonoDevelop.Core/MonoDevelop.FSW/PathTree.cs:181-186 | appending a fresh subtree keeps the tree invariant |
| PathTreeEdits.GrownHung | main/src/core/MonoDevelop.Core/MonoDevelop.FSW/PathTree.cs:181-188 | after the subtree is inserted, the chain goes on to the leaf, which holds the id alone, and old nodes keep segments, ids and children |
| PathTreeEdits.ExistingAdded | main/src/core/MonoDevelop.Core/MonoDevelop.FSW/PathTree.cs:175-179 | AddNode on a held path registers the id on its node and changes nothing else |
| PathTreeEdits.MissingAdded | main/src/core/MonoDevelop.Core/MonoDevelop.FSW/PathTree.cs:181-188 | AddNode on a partly held path hangs a new subtree whose leaf is its node |
| PathTreePrune.Size | main/src/core/MonoDevelop.Core/MonoDevelop.FSW/PathTree.cs:239-259 | the measure IsDeadSubtree's search uses up |
| PathTreePrune.ChildrenDead | main/src/core/MonoDevelop.Core/MonoDevelop.FSW/PathTree.cs:239-259 | a node that is not live has a dead subtree exactly when its children have |
| PathTreePrune.CutKeepsDead | main/src/core/MonoDevelop.Core/MonoDevelop.FSW/PathTree.cs:215-233 | cutting out a dead child changes no node's deadness |
| PathTreePrune.CutStep | main/src/core/MonoDevelop.Core/MonoDevelop.FSW/PathTree.cs:215-233 | a round of the climb keeps the climb's invariant one node lower |
| PathTreePrune.PruningEnds | main/src/core/MonoDevelop.Core/MonoDevelop.FSW/PathTree.cs:215-237 | at the end of the climb every cut was of a dead subtree of the final tree |
| PathTreePrune.ClimbStep | main/src/core/MonoDevelop.Core/MonoDevelop.FSW/PathTree.cs:215-233 | one cut keeps the record of the climb: the lists so far are ClimbLists, the cut nodes detached, and the parent's Parent is the next node up |
| PathTreePrune.ClimbListsChanges | main/src/core/MonoDevelop.Core/MonoDevelop.FSW/PathTree.cs:215-233 | the recorded cuts take each cut node out of the list of the node above it and change no other list |
| PathTreePrune.RemovedLists | main/src/core/MonoDevelop.Core/MonoDevelop.FSW/PathTree.cs:206-237 | after RemoveNode each cut node has left the list of the node above it and has null Parent, Previous and Next, and every other list is as it was |
| PathTreePrune.LiveChainsSurvive | main/src/core/MonoDevelop.Core/MonoDevelop.FSW/PathTree.cs:206-237 | pruning loses no registration: every path to a live node still leads to it |
| PathTreePrune.RemovalKeepsLive | main/src/core/MonoDevelop.Core/MonoDevelop.FSW/PathTree.cs:206-237 | RemoveNode keeps every path to a node that stays live |
| PathTreePrune.AddedIsFound | main/src/core/MonoDevelop.Core/MonoDevelop.FSW/PathTree.cs:173-189 | after AddNode the path leads to the returned node and no other |
| PathTreePrune.AddThenRemove | main/src/core/MonoDevelop.Core/MonoDevelop.FSW/PathTree.cs:173-237 | RemoveNode with AddNode's path and id takes back its registration and reports a change exactly when AddNode did |
| ProgressTasks.Ancestors | main/src/core/MonoDevelop.Core/MonoDevelop.Core/ProgressMonitor.cs:200-206 | the chain of parent links, outermost first and the task last |
| ProgressTasks.AddChild | main/src/core/MonoDevelop.Core/MonoDevelop.Core/ProgressMonitor.cs:850-855 | the child gets the parent and goes last among its children |
| ProgressTasks.SetChildComplete | main/src/core/MonoDevelop.Core/MonoDevelop.Core/ProgressMonitor.cs:876-885 | the child loses its parent, which adds its work and drops it |
| ProgressTasks.SetComplete | main/src/core/MonoDevelop.Core/MonoDevelop.Core/ProgressMonitor.cs:865-874 | all the task's work is done and its parent is told |
| ProgressTasks.PushRoot | main/src/core/MonoDevelop.Core/MonoDevelop.Core/ProgressMonitor.cs:233-238 | a task begun with no current task is outermost and alone on its chain |
| ProgressTasks.PushChild | main/src/core/MonoDevelop.Core/MonoDevelop.Core/ProgressMonitor.cs:233-238 | a task begun under p has p's chain with itself on top |
| ProgressTasks.PushChildLinks | main/src/core/MonoDevelop.Core/MonoDevelop.Core/ProgressMonitor.cs:850-855 | after AddChild children and parents still name each other |
| ProgressTasks.PushChildDistinct | main/src/core/MonoDevelop.Core/MonoDevelop.Core/ProgressMonitor.cs:850-855 | after AddChild no child list repeats |
| ProgressTasks.CompleteShape | main/src/core/MonoDevelop.Core/MonoDevelop.Core/ProgressMonitor.cs:865-885 | at each index: the task completed and orphaned, its parent credited and without it, everything else unchanged |
| ProgressTasks.CompleteKeeps | main/src/core/MonoDevelop.Core/MonoDevelop.Core/ProgressMonitor.cs:865-885 | completing keeps the arena well formed and the parent's chain |
| ProgressTasks.CompleteParents | main/src/core/MonoDevelop.Core/MonoDevelop.Core/ProgressMonitor.cs:865-885 | every task with a parent is still listed by it, and no list repeats |
| ProgressTasks.CompleteChildren | main/src/core/MonoDevelop.Core/MonoDevelop.Core/ProgressMonitor.cs:865-885 | every listed child still names its parent |
| ProgressTasks.BeginEndRestores | main/src/core/MonoDevelop.Core/MonoDevelop.Core/ProgressMonitor.cs:850-885 | adding a child and completing it gives the arena back with the task completed and the parent credited |
| ProgressTasks.StepKeeps | main/src/core/MonoDevelop.Core/MonoDevelop.Core/ProgressMonitor.cs:857-863 | a step changes no link, so every chain stays |
| ProgressMonitors.AppendText | main/src/core/MonoDevelop.Core/MonoDevelop.Core/ProgressMonitor.cs:749-759 | the text goes at the end of the last chunk when that is text of the same kind, else into a new chunk; nothing earlier changes |
| ProgressMonitors.AppendTextEvents | main/src/core/MonoDevelop.Core/MonoDevelop.Core/ProgressMonitor.cs:749-759 | afterwards the chunks write what they wrote before followed by the text |
| ProgressMonitors.AppendTextCoalesced | main/src/core/MonoDevelop.Core/MonoDevelop.Core/ProgressMonitor.cs:749-759 | no two neighbouring text chunks have the same kind |
| ProgressMonitors.AppendObject | main/src/core/MonoDevelop.Core/MonoDevelop.Core/ProgressMonitor.cs:761-770 | the object always gets a new chunk at the end |
| ProgressMonitors.AppendTextTwice | main/src/core/MonoDevelop.Core/MonoDevelop.Core/ProgressMonitor.cs:749-759 | two texts of one kind in a row land in one chunk as if appended at once |
| ProgressMonitors.EventsConcat | main/src/core/MonoDevelop.Core/MonoDevelop.Core/ProgressMonitor.cs:700-726 | the events of a chunk chain are those of its parts, in order |
| ProgressMonitors.TextEventsConcat | main/src/core/MonoDevelop.Core/MonoDevelop.Core/ProgressMonitor.cs:728-740 | writing two texts of one kind writes their concatenation |
| ProgressMonitors.StoredError | main/src/core/MonoDevelop.Core/MonoDevelop.Core/ProgressMonitor.cs:529-556 | an error with an exception and no message gets the message derived from the exception and no exception; others are kept |
| ProgressMonitors.Floor | main/src/core/MonoDevelop.Core/MonoDevelop.Core/ProgressMonitor.cs:264-283 | how many tasks at the bottom of the stack EndTask may not end |
| ProgressMonitors.Begin | main/src/core/MonoDevelop.Core/MonoDevelop.Core/ProgressMonitor.cs:226-257 | the new task is appended, as a child of the current task when there is one |
| ProgressMonitors.BeginShape | main/src/core/MonoDevelop.Core/MonoDevelop.Core/ProgressMonitor.cs:233-238 | no older task changes except the current one, which lists the new task last |
| ProgressMonitors.BeginStack | main/src/core/MonoDevelop.Core/MonoDevelop.Core/ProgressMonitor.cs:226-257 | BeginTask pushes the new task, which is the root task for an empty stack and the current task's last child otherwise, and takes over the pending step work |
| ProgressMonitors.EndStack | main/src/core/MonoDevelop.Core/MonoDevelop.Core/ProgressMonitor.cs:264-291 | EndTask pops the top and keeps the stack and its floor |
| ProgressMonitors.StepStack | main/src/core/MonoDevelop.Core/MonoDevelop.Core/ProgressMonitor.cs:305-336 | Step credits the current task with the pending work and then the work; a message replaces the status |
| ProgressMonitors.BeginStepStack | main/src/core/MonoDevelop.Core/MonoDevelop.Core/ProgressMonitor.cs:343-375 | BeginStep consumes the pending work and records the new work as pending |
| ProgressMonitors.BeginEndRestores | main/src/core/MonoDevelop.Core/MonoDevelop.Core/ProgressMonitor.cs:226-291 | beginning and ending a task restores the stack, adding only the completed task and crediting the previous current task |
| ProgressMonitors.BeginEndTasks | main/src/core/MonoDevelop.Core/MonoDevelop.Core/ProgressMonitor.cs:226-291 | Begin then SetComplete of the new task, on the arena alone |
| ProgressMonitors.BeginEndRoot | main/src/core/MonoDevelop.Core/MonoDevelop.Core/ProgressMonitor.cs:226-291 | for a root task the arena only gains the completed task |
| ProgressMonitors.EndTaskOn | main/src/core/MonoDevelop.Core/MonoDevelop.Core/ProgressMonitor.cs:264-291 | EndTask pops when it may and otherwise leaves the stack alone |
| ProgressMonitors.EndTaskAsWrittenHangs | main/src/core/MonoDevelop.Core/MonoDevelop.Core/ProgressMonitor.cs:293-298 | once parentRootTask is current, EndTask changes nothing, so the loop as written never ends for another task |
| ProgressMonitors.DisposeTwiceHangs | main/src/core/MonoDevelop.Core/MonoDevelop.Core/ProgressMonitor.cs:293-298 | a task begun in a sub-monitor and disposed twice: the second Dispose never returns |
| ProgressMonitors.UpToStep | main/src/core/MonoDevelop.Core/MonoDevelop.Core/ProgressMonitor.cs:293-298 | a round of the loop ends a task other than the one sought, which stays on the stack |
| ProgressMonitors.UpToExit | main/src/core/MonoDevelop.Core/MonoDevelop.Core/ProgressMonitor.cs:293-298 | the loop stops at the task when EndTask may end it, otherwise at the floor |
| ProgressMonitors.UnwindStart | main/src/core/MonoDevelop.Core/MonoDevelop.Core/ProgressMonitor.cs:161-164 | dropping parentRootTask starts unwinding the whole chain down to it |
| ProgressMonitors.UnwindStep | main/src/core/MonoDevelop.Core/MonoDevelop.Core/ProgressMonitor.cs:161-164 | each round of OnDispose's loop ends the current task |
| ProgressMonitors.UnwindDone | main/src/core/MonoDevelop.Core/MonoDevelop.Core/ProgressMonitor.cs:161-164 | the loop stops with everything above the dropped parentRootTask ended |
| ProgressMonitors.ProgressMonitor.constructor | main/src/core/MonoDevelop.Core/MonoDevelop.Core/ProgressMonitor.cs:89-110 | no task, no pending work, an empty log, no errors, not disposed |
| ProgressMonitors.ProgressMonitor.Sub | main/src/core/MonoDevelop.Core/MonoDevelop.Core/ProgressMonitor.cs:134-140 | a sub-monitor holding a copy of the parent's task as both current task and parentRootTask, reporting to the parent |
| ProgressMonitors.ProgressMonitor.BeginTask | main/src/core/MonoDevelop.Core/MonoDevelop.Core/ProgressMonitor.cs:226-257 | the stack and arena become BeginOn of the old ones; pending work is reset to -1 |
| ProgressMonitors.ProgressMonitor.EndTask | main/src/core/MonoDevelop.Core/MonoDevelop.Core/ProgressMonitor.cs:264-291 | pops and completes the current task unless there is none or it is parentRootTask, in which case nothing but the log changes |
| ProgressMonitors.ProgressMonitor.EndTaskUpTo | main/src/core/MonoDevelop.Core/MonoDevelop.Core/ProgressMonitor.cs:293-298 | with the guard stopping at parentRootTask: the tasks above the task are ended, then the task; otherwise every task EndTask may end is ended |
| ProgressMonitors.ProgressMonitor.EndAbove | main/src/core/MonoDevelop.Core/MonoDevelop.Core/ProgressMonitor.cs:293-298 | EndTask until the current task is null, the task or parentRootTask |
| ProgressMonitors.ProgressMonitor.ConsumePendingWork | main/src/core/MonoDevelop.Core/MonoDevelop.Core/ProgressMonitor.cs:387-393 | pending work is added to the current task and reset |
| ProgressMonitors.ProgressMonitor.Step | main/src/core/MonoDevelop.Core/MonoDevelop.Core/ProgressMonitor.cs:305-336 | with no task an error is logged; otherwise negative work is clamped to 0 and StepOn applies |
| ProgressMonitors.ProgressMonitor.BeginStep | main/src/core/MonoDevelop.Core/MonoDevelop.Core/ProgressMonitor.cs:343-375 | throws InvalidOperation with no current task and Argument for negative work; otherwise BeginStepOn applies |
| ProgressMonitors.ProgressMonitor.AppendLog | main/src/core/MonoDevelop.Core/MonoDevelop.Core/ProgressMonitor.cs:749-759 | the chunks become AppendText of the old ones |
| ProgressMonitors.ProgressMonitor.AppendLogObject | main/src/core/MonoDevelop.Core/MonoDevelop.Core/ProgressMonitor.cs:761-770 | the chunks become AppendObject of the old ones |
| ProgressMonitors.ProgressMonitor.DoWriteText | main/src/core/MonoDevelop.Core/MonoDevelop.Core/ProgressMonitor.cs:728-740 | the text is cached for the parent when reporting to it, and written |
| ProgressMonitors.ProgressMonitor.DoWriteLogObject | main/src/core/MonoDevelop.Core/MonoDevelop.Core/ProgressMonitor.cs:742-747 | the object is cached for the parent when reporting to it, and written |
| ProgressMonitors.ProgressMonitor.WriteChunk | main/src/core/MonoDevelop.Core/MonoDevelop.Core/ProgressMonitor.cs:700-726 | one chunk written through the matching writer |
| ProgressMonitors.ProgressMonitor.DumpLog | main/src/core/MonoDevelop.Core/MonoDevelop.Core/ProgressMonitor.cs:700-726 | every chunk is written in order, and cached again when reporting to a parent |
| ProgressMonitors.ProgressMonitor.ReportError | main/src/core/MonoDevelop.Core/MonoDevelop.Core/ProgressMonitor.cs:529-563 | the monitor keeps StoredError of the error, so HasErrors holds afterwards |
| ProgressMonitors.ProgressMonitor.OnDispose | main/src/core/MonoDevelop.Core/MonoDevelop.Core/ProgressMonitor.cs:142-180 | the first call marks the monitor disposed, hands the log to the parent and ends every task above parentRootTask; a later call changes nothing |
| ProgressMonitors.ProgressMonitor.EndAll | main/src/core/MonoDevelop.Core/MonoDevelop.Core/ProgressMonitor.cs:152-164 | parentRootTask is dropped and every task above it ended |
| CSharpParameters.SuppressedWarnings | main/src/addins/CSharpBinding/MonoDevelop.CSharp.Project/CSharpCompilerParameters.cs:255-266 | the NoWarn entries split at ';' and ',', non-empty, once each in order of first appearance, numeric ones prefixed "CS"; null is empty |
| CSharpParameters.SuppressedWarningsMeaning | main/src/addins/CSharpBinding/MonoDevelop.CSharp.Project/CSharpCompilerParameters.cs:255-266 | a name is suppressed exactly when some non-empty entry gives it |
| CSharpParameters.WarningIdsMembers | main/src/addins/CSharpBinding/MonoDevelop.CSharp.Project/CSharpCompilerParameters.cs:255-266 | the names are the warning names of the entries |
| CSharpParameters.AddSpecificDiagnosticOptions | main/src/addins/CSharpBinding/MonoDevelop.CSharp.Project/CSharpCompilerParameters.cs:239-244 | every rule set entry is written over the result |
| CSharpParameters.SpecificDiagnosticOptions | main/src/addins/CSharpBinding/MonoDevelop.CSharp.Project/CSharpCompilerParameters.cs:206-225 | the global, then project rule set, then every suppressed warning as Suppress, each later one overriding |
| CSharpParameters.SuppressWarnings | main/src/addins/CSharpBinding/MonoDevelop.CSharp.Project/CSharpCompilerParameters.cs:219-224 | every suppressed warning maps to Suppress; other keys keep the rule sets' values |
| CSharpParameters.CSharpCompilerParameters.GetSpecificDiagnosticOptions | main/src/addins/CSharpBinding/MonoDevelop.CSharp.Project/CSharpCompilerParameters.cs:206-225 | the keys are those of the existing rule sets and the NoWarn warnings; every suppressed warning maps to Suppress, a project rule set entry wins over the global one, and a global entry is kept where nothing overrides it |
| CSharpParameters.OutputTypeToOutputKind | main/src/addins/CSharpBinding/MonoDevelop.CSharp.Project/CSharpCompilerParameters.cs:192-204 | "exe", "winexe" and "module" in any case map to their kinds; everything else is a library |
| CSharpParameters.OutputKindsAgree | main/src/addins/CSharpBinding/MonoDevelop.CSharp.Project/CSharpCompilerParameters.cs:178-204 | GetOutputKindFromProject and OutputTypeToOutputKind agree on every compile target |
| CSharpParameters.NullableOf | main/src/addins/CSharpBinding/MonoDevelop.CSharp.Project/CSharpCompilerParameters.cs:284-299 | "enable", "warnings", "annotations" map to their options ignoring case; "", "disable" and anything else to Disable |
| CSharpParameters.NullableRoundTrip | main/src/addins/CSharpBinding/MonoDevelop.CSharp.Project/CSharpCompilerParameters.cs:283-311 | the text the setter stores reads back as the value set |
| CSharpParameters.CSharpCompilerParameters.SetNullable | main/src/addins/CSharpBinding/MonoDevelop.CSharp.Project/CSharpCompilerParameters.cs:300-310 | stores the option's name unless the getter already reads it |
| CSharpParameters.DefineSymbolsIn | main/src/addins/CSharpBinding/MonoDevelop.CSharp.Project/CSharpCompilerParameters.cs:341-344 | the pieces between ';', ',', ' ' and tab that are identifiers |
| CSharpParameters.StoredSymbolsRoundTrip | main/src/addins/CSharpBinding/MonoDevelop.CSharp.Project/CSharpCompilerParameters.cs:334-355 | a list stored with ';' after every symbol reads back as itself |
| CSharpParameters.AddThenGet | main/src/addins/CSharpBinding/MonoDevelop.CSharp.Project/CSharpCompilerParameters.cs:334-344 | after adding an identifier the symbols are the old ones with it at the end |
| CSharpParameters.RemoveThenGet | main/src/addins/CSharpBinding/MonoDevelop.CSharp.Project/CSharpCompilerParameters.cs:341-355 | after removing, the symbols are the old ones without its first occurrence |
| CSharpParameters.CSharpCompilerParameters.constructor | main/src/addins/CSharpBinding/MonoDevelop.CSharp.Project/CSharpCompilerParameters.cs:48-87 | the field initialisers: an unset warning level and empty texts |
| CSharpParameters.CSharpCompilerParameters.AddDefineSymbol | main/src/addins/CSharpBinding/MonoDevelop.CSharp.Project/CSharpCompilerParameters.cs:334-339 | stores the symbols plus the new one, each followed by ';'; no notification |
| CSharpParameters.CSharpCompilerParameters.RemoveDefineSymbol | main/src/addins/CSharpBinding/MonoDevelop.CSharp.Project/CSharpCompilerParameters.cs:346-355 | drops the first occurrence; an empty list is stored as "" |
| CSharpParameters.CSharpCompilerParameters.SetDefineSymbols | main/src/addins/CSharpBinding/MonoDevelop.CSharp.Project/CSharpCompilerParameters.cs:357-367 | null means ""; an unchanged value is not stored and does not notify |
| CSharpParameters.CSharpCompilerParameters.SetOptimize | main/src/addins/CSharpBinding/MonoDevelop.CSharp.Project/CSharpCompilerParameters.cs:369-379 | a value that differs is stored, with one notification; otherwise nothing changes |
| CSharpParameters.CSharpCompilerParameters.SetUnsafeCode | main/src/addins/CSharpBinding/MonoDevelop.CSharp.Project/CSharpCompilerParameters.cs:381-391 | as SetOptimize |
| CSharpParameters.CSharpCompilerParameters.SetGenerateOverflowChecks | main/src/addins/CSharpBinding/MonoDevelop.CSharp.Project/CSharpCompilerParameters.cs:393-403 | as SetOptimize |
| CSharpParameters.CSharpCompilerParameters.SetPlatformTarget | main/src/addins/CSharpBinding/MonoDevelop.CSharp.Project/CSharpCompilerParameters.cs:417-430 | null means ""; stored and notified only when it differs |
| CSharpParameters.CSharpCompilerParameters.SetWarningLevel | main/src/addins/CSharpBinding/MonoDevelop.CSharp.Project/CSharpCompilerParameters.cs:432-449 | the getter then reads the value set; an unset level set to 4 stays unset |
| CSharpParameters.CSharpCompilerParameters.SetNoWarnings | main/src/addins/CSharpBinding/MonoDevelop.CSharp.Project/CSharpCompilerParameters.cs:451-461 | stored and notified only when it differs |
| CSharpParameters.CSharpCompilerParameters.SetNoStdLib | main/src/addins/CSharpBinding/MonoDevelop.CSharp.Project/CSharpCompilerParameters.cs:463-473 | as SetOptimize |
| CSharpParameters.CSharpCompilerParameters.SetTreatWarningsAsErrors | main/src/addins/CSharpBinding/MonoDevelop.CSharp.Project/CSharpCompilerParameters.cs:475-485 | as SetOptimize |
| CSharpParameters.CSharpCompilerParameters.SetWarningsNotAsErrors | main/src/addins/CSharpBinding/MonoDevelop.CSharp.Project/CSharpCompilerParameters.cs:487-498 | stored and notified only when it differs |
| VBParameters.DefineSymbolsIn | main/src/addins/VBNetBinding/Project/VBCompilerParameters.cs:136-141 | the non-empty pieces between commas |
| VBParameters.StoredSymbolsRoundTrip | main/src/addins/VBNetBinding/Project/VBCompilerParameters.cs:117-141 | a list stored with ',' after every symbol reads back as itself |
| VBParameters.AddThenGet | main/src/addins/VBNetBinding/Project/VBCompilerParameters.cs:117-141 | after adding a non-empty symbol without commas the symbols are the old ones with it at the end |
| VBParameters.RemoveThenGet | main/src/addins/VBNetBinding/Project/VBCompilerParameters.cs:124-141 | after removing, the symbols are the old ones without its first occurrence |
| VBParameters.VBCompilerParameters.constructor | main/src/addins/VBNetBinding/Project/VBCompilerParameters.cs:74-112 | the field initialisers: warning level 1, no symbols |
| VBParameters.VBCompilerParameters.AddDefineSymbol | main/src/addins/VBNetBinding/Project/VBCompilerParameters.cs:117-122 | stores the symbols plus the new one, each followed by ',' |
| VBParameters.VBCompilerParameters.RemoveDefineSymbol | main/src/addins/VBNetBinding/Project/VBCompilerParameters.cs:124-134 | drops the first occurrence; an empty list is stored as "" |
| VBParameters.VBCompilerParameters.SetWarningsDisabled | main/src/addins/VBNetBinding/Project/VBCompilerParameters.cs:193-198 | true stores level 0 and false level 1, and WarningsDisabled then reads the value set |
| MakefileSources.StripDotSlash | main/src/addins/MonoDeveloperExtensions/MonoMakefileProjectExtension.cs:276-277 | a leading "./" is dropped |
| MakefileSources.InsertionPoint | main/src/addins/MonoDeveloperExtensions/MonoMakefileProjectExtension.cs:276-289 | the index of the first blank or greater line, or the number of lines |
| MakefileSources.InsertedKeepsSorted | main/src/addins/MonoDeveloperExtensions/MonoMakefileProjectExtension.cs:276-289 | inserting into a sorted file without blank lines keeps it sorted |
| MakefileSources.WriteInserted | main/src/addins/MonoDeveloperExtensions/MonoMakefileProjectExtension.cs:276-289 | the loop writes the lines with the new file once, at its insertion point |
| MakefileSources.MonoMakefileProjectExtension.AddSourceFile | main/src/addins/MonoDeveloperExtensions/MonoMakefileProjectExtension.cs:267-296 | the relative name without "./" is written once, before the first blank or greater line, or last; all old lines stay in order |
| MakefileSources.Without | main/src/addins/MonoDeveloperExtensions/MonoMakefileProjectExtension.cs:308-327 | exactly the lines whose trimmed text is not the file, in order |
| MakefileSources.WithoutMembers | main/src/addins/MonoDeveloperExtensions/MonoMakefileProjectExtension.cs:308-327 | a line is kept exactly when its text is not the file |
| MakefileSources.WithoutUnlisted | main/src/addins/MonoDeveloperExtensions/MonoMakefileProjectExtension.cs:308-327 | removing an unlisted file leaves the lines as they are |
| MakefileSources.WriteWithout | main/src/addins/MonoDeveloperExtensions/MonoMakefileProjectExtension.cs:308-327 | the loop keeps Without and reports whether some line was the file |
| MakefileSources.MonoMakefileProjectExtension.RemoveSourceFile | main/src/addins/MonoDeveloperExtensions/MonoMakefileProjectExtension.cs:298-328 | drops every line naming the file, returns whether one went, and rewrites the file only then |
| MakefileSources.MonoMakefileProjectExtension.OnFileAddedToProject | main/src/addins/MonoDeveloperExtensions/MonoMakefileProjectExtension.cs:231-240 | each compiled file is added, unless loading |
| MakefileSources.MonoMakefileProjectExtension.OnFileRemovedFromProject | main/src/addins/MonoDeveloperExtensions/MonoMakefileProjectExtension.cs:242-252 | each compiled file is removed, unless loading |
| MakefileSources.MonoMakefileProjectExtension.OnFileRenamedInProject | main/src/addins/MonoDeveloperExtensions/MonoMakefileProjectExtension.cs:254-265 | the new name is added only when removing the old one succeeded; nothing while loading |
| MakefileSources.CreateErrorFromString | main/src/addins/MonoDeveloperExtensions/MonoMakefileProjectExtension.cs:198-229 | None exactly for the ignored prefixes, unmatched lines and levels other than "warning" and "error"; "warning" sets IsWarning; the number, text and combined file name come from the match; an empty line or column is 0 and any other is its Int32.Parse value; it throws exactly when a non-empty line or column is not a 32-bit number |
| MakefileSources.ColumnWithPlusThrows | main/src/addins/MonoDeveloperExtensions/MonoMakefileProjectExtension.cs:198-229 | a column the regular expression accepts with a trailing '+' makes Int32.Parse throw |
| MakefileSources.MakeTarget | main/src/addins/MonoDeveloperExtensions/MonoMakefileProjectExtension.cs:163-196 | Build becomes "all", Clean "clean", others pass through |
| MakefileSources.NextChecked | main/src/addins/MonoDeveloperExtensions/MonoMakefileProjectExtension.cs:99-113 | a line's directory is added to the checked ones when it is new |
| MakefileSources.CheckedFoldersDistinct | main/src/addins/MonoDeveloperExtensions/MonoMakefileProjectExtension.cs:99-113 | every directory is checked for a ChangeLog at most once |
| MakefileSources.CheckedFoldersCover | main/src/addins/MonoDeveloperExtensions/MonoMakefileProjectExtension.cs:99-113 | the checked directories are exactly those of the non-blank lines |
| MakefileSources.ReadLines | main/src/addins/MonoDeveloperExtensions/MonoMakefileProjectExtension.cs:99-113 | the loop adds ReadFiles of the lines and checks CheckedFolders |
| MakefileSources.MonoMakefileProjectExtension.Read | main/src/addins/MonoDeveloperExtensions/MonoMakefileProjectExtension.cs:70-148 | every non-blank trimmed line becomes a compiled file, and each new directory's ChangeLog is added when it exists |
| MakefileSources.MonoMakefileProjectExtension.constructor | main/src/addins/MonoDeveloperExtensions/MonoMakefileProjectExtension.cs:48 | a project extension that is not loading |
| BreakpointProperties.MergeDrive | main/src/addins/MonoDevelop.Debugger/MonoDevelop.Debugger/BreakpointPropertiesDialog.cs:385-397 | the first two ':' pieces joined back with ':' |
| BreakpointProperties.MergeDriveLetter | main/src/addins/MonoDevelop.Debugger/MonoDevelop.Debugger/BreakpointPropertiesDialog.cs:385-397 | the copy loop yields the pieces with the first two merged |
| BreakpointProperties.ReadLine | main/src/addins/MonoDevelop.Debugger/MonoDevelop.Debugger/BreakpointPropertiesDialog.cs:399-407 | fewer than two pieces give the missing-':' warning, a non-numeric line "Line is not a number." |
| BreakpointProperties.ParseLocationAsWritten | main/src/addins/MonoDevelop.Debugger/MonoDevelop.Debugger/BreakpointPropertiesDialog.cs:373-415 | the location as written: blank gives "Enter location.", a missing file "File does not exist.", and on success the column is always 1 |
| BreakpointProperties.ParseLocation | main/src/addins/MonoDevelop.Debugger/MonoDevelop.Debugger/BreakpointPropertiesDialog.cs:373-415 | the corrected reading: the column when given and numeric, 1 when none is given |
| BreakpointProperties.ColumnOverwritten | main/src/addins/MonoDevelop.Debugger/MonoDevelop.Debugger/BreakpointPropertiesDialog.cs:399-415 | "file:10:5" is read with column 1 as written, and 5 by the corrected reading |
| BreakpointProperties.SplitLocationText | main/src/addins/MonoDevelop.Debugger/MonoDevelop.Debugger/BreakpointPropertiesDialog.cs:448-459 | ToString's text reads back as the same file, line and column when the file exists and has no ':' |
| BreakpointProperties.LocationRoundTrip | main/src/addins/MonoDevelop.Debugger/MonoDevelop.Debugger/BreakpointPropertiesDialog.cs:373-459 | Update of ToString gives the location back |
| BreakpointProperties.LocationTextNotBlank | main/src/addins/MonoDevelop.Debugger/MonoDevelop.Debugger/BreakpointPropertiesDialog.cs:448-459 | ToString's text is never blank |
| BreakpointProperties.ParseWholeLocation | main/src/addins/MonoDevelop.Debugger/MonoDevelop.Debugger/BreakpointPropertiesDialog.cs:399-415 | a known file, line and column |
| BreakpointProperties.ParsedLocation.constructor | main/src/addins/MonoDevelop.Debugger/MonoDevelop.Debugger/BreakpointPropertiesDialog.cs:373-379 | an empty location: no file, line and column 0 and no warning, so IsValid() is false until Update runs |
| BreakpointProperties.ParsedLocation.Update | main/src/addins/MonoDevelop.Debugger/MonoDevelop.Debugger/BreakpointPropertiesDialog.cs:373-415 | the fields become ParseLocation of the text |
| BreakpointProperties.ParsedLocation.UpdateTo | main/src/addins/MonoDevelop.Debugger/MonoDevelop.Debugger/BreakpointPropertiesDialog.cs:423-433 | stores the location; the warning says whether the file exists |
| BreakpointProperties.ParsedLocation.UpdateFrom | main/src/addins/MonoDevelop.Debugger/MonoDevelop.Debugger/BreakpointPropertiesDialog.cs:418-421 | the breakpoint's file, line and column |
| BreakpointProperties.ParsedLocation.ToBreakpoint | main/src/addins/MonoDevelop.Debugger/MonoDevelop.Debugger/BreakpointPropertiesDialog.cs:435-459 | an invalid location throws; a valid one gives a breakpoint at its file, line and column |
| BreakpointProperties.TryParseFunctionAsWritten | main/src/addins/MonoDevelop.Debugger/MonoDevelop.Debugger/BreakpointPropertiesDialog.cs:611-626 | the function as written, including the Substring that throws |
| BreakpointProperties.TryParseFunction | main/src/addins/MonoDevelop.Debugger/MonoDevelop.Debugger/BreakpointPropertiesDialog.cs:611-626 | no parentheses: the whole signature with no parameter types; a ')' that is not last, or has no '(', is invalid |
| BreakpointProperties.UnopenedParenthesisThrows | main/src/addins/MonoDevelop.Debugger/MonoDevelop.Debugger/BreakpointPropertiesDialog.cs:611-626 | "f)" throws as written and is invalid in the corrected reading |
| BreakpointProperties.SavedHitCount | main/src/addins/MonoDevelop.Debugger/MonoDevelop.Debugger/BreakpointPropertiesDialog.cs:499-504 | GreaterThanOrEqualTo with count 0 is saved as None; the count is 0 whenever the mode is None |
| BreakpointProperties.SavedHitCountIdempotent | main/src/addins/MonoDevelop.Debugger/MonoDevelop.Debugger/BreakpointPropertiesDialog.cs:499-504 | saving a saved hit count changes nothing |
| BreakpointProperties.SaveCondition | main/src/addins/MonoDevelop.Debugger/MonoDevelop.Debugger/BreakpointPropertiesDialog.cs:507-512 | a blank condition clears the expression and leaves BreakIfConditionChanges alone; otherwise it is stored |
| LogWidget.MatchesFilterMeaning | main/src/addins/VersionControl/MonoDevelop.VersionControl/MonoDevelop.VersionControl.Views/LogWidget.cs:852-867 | true exactly when the filter is empty or occurs, ignoring case, in the author, email, message, name or short name |
| LogWidget.EscapeWithFilterMarker | main/src/addins/VersionControl/MonoDevelop.VersionControl/MonoDevelop.VersionControl.Views/LogWidget.cs:869-888 | the escaped text with every occurrence found from the left, not overlapping, wrapped in a span; just the escaped text for an empty filter or no match |
| LogWidget.PiecesKeepText | main/src/addins/VersionControl/MonoDevelop.VersionControl/MonoDevelop.VersionControl.Views/LogWidget.cs:878-888 | the pieces hold the characters of the text in their order |
| LogWidget.PiecesMarkFilter | main/src/addins/VersionControl/MonoDevelop.VersionControl/MonoDevelop.VersionControl.Views/LogWidget.cs:878-888 | only occurrences of the filter are marked |
| LogWidget.PiecesPlainClear | main/src/addins/VersionControl/MonoDevelop.VersionControl/MonoDevelop.VersionControl.Views/LogWidget.cs:878-888 | no occurrence of the filter, ignoring case, is left in the text between marks: every occurrence is marked |
| LogWidget.RenderRound | main/src/addins/VersionControl/MonoDevelop.VersionControl/MonoDevelop.VersionControl.Views/LogWidget.cs:878-888 | one round: the text before an occurrence escaped, then the occurrence marked |
| LogWidget.PiecesTail | main/src/addins/VersionControl/MonoDevelop.VersionControl/MonoDevelop.VersionControl.Views/LogWidget.cs:886-888 | after the last occurrence comes the rest of the text, if any |
| LogWidget.PiecesStep | main/src/addins/VersionControl/MonoDevelop.VersionControl/MonoDevelop.VersionControl.Views/LogWidget.cs:878-885 | the pieces after an occurrence found at or after the last one |
| LogWidget.ShownAuthor | main/src/addins/VersionControl/MonoDevelop.VersionControl/MonoDevelop.VersionControl.Views/LogWidget.cs:679-681 | the author cut before '<' and trimmed when '<' comes before '>'; otherwise the whole author |
| LogWidget.ShownAuthorIdempotent | main/src/addins/VersionControl/MonoDevelop.VersionControl/MonoDevelop.VersionControl.Views/LogWidget.cs:679-681 | a shortened author is shortened no further |
| LogWidget.AuthorCell | main/src/addins/VersionControl/MonoDevelop.VersionControl/MonoDevelop.VersionControl.Views/LogWidget.cs:670-685 | nothing for an empty author; the shortened author as text, or highlighted with a filter |
| LogWidget.ShownMessage | main/src/addins/VersionControl/MonoDevelop.VersionControl/MonoDevelop.VersionControl.Views/LogWidget.cs:659-662 | the message up to its first line break when that is not its first character |
| LogWidget.ShownMessageIdempotent | main/src/addins/VersionControl/MonoDevelop.VersionControl/MonoDevelop.VersionControl.Views/LogWidget.cs:659-662 | a shortened message is shortened no further |
| LogWidget.MessageCell | main/src/addins/VersionControl/MonoDevelop.VersionControl/MonoDevelop.VersionControl.Views/LogWidget.cs:650-668 | "(No message)" for an empty message; the first line as text, or highlighted with a filter |
| ProjectPadFolders.SubfolderFacts | main/src/core/MonoDevelop.Ide/MonoDevelop.Ide.Gui.Pads.ProjectPad/FolderNodeBuilder.cs:111-116 | a sub-folder is found exactly below the folder; it is one level deep and a prefix of the path |
| ProjectPadFolders.FolderOfFacts | main/src/core/MonoDevelop.Ide/MonoDevelop.Ide.Gui.Pads.ProjectPad/FolderNodeBuilder.cs:91-116 | only a visible file not nested under another gives a sub-folder |
| ProjectPadFolders.GetFolderContent | main/src/core/MonoDevelop.Ide/MonoDevelop.Ide.Gui.Pads.ProjectPad/FolderNodeBuilder.cs:80-118 | the visible, non-nested files directly in the folder, and each sub-folder holding a visible file or directory, once each in order |
| ProjectPadFolders.AddFolder | main/src/core/MonoDevelop.Ide/MonoDevelop.Ide.Gui.Pads.ProjectPad/FolderNodeBuilder.cs:111-116 | the sub-folder is added when it exists and is not yet listed |
| ProjectPadFolders.ListedFilesMembers | main/src/core/MonoDevelop.Ide/MonoDevelop.Ide.Gui.Pads.ProjectPad/FolderNodeBuilder.cs:91-106 | a file is listed exactly when it is visible, not hidden, not a directory, not nested, and directly in the folder |
| ProjectPadFolders.ListedFoldersShape | main/src/core/MonoDevelop.Ide/MonoDevelop.Ide.Gui.Pads.ProjectPad/FolderNodeBuilder.cs:111-116 | every listed sub-folder is one level below the folder and none is repeated |
| ProjectPadFolders.ListedFoldersMembers | main/src/core/MonoDevelop.Ide/MonoDevelop.Ide.Gui.Pads.ProjectPad/FolderNodeBuilder.cs:91-116 | a sub-folder is listed exactly when some visible file or directory lies in it |
| ProjectPadFolders.HasChildNodes | main/src/core/MonoDevelop.Ide/MonoDevelop.Ide.Gui.Pads.ProjectPad/FolderNodeBuilder.cs:120-147 | false without a project, true for more than 500 files, otherwise whether some visible file lies below the folder |
| CompletionEntry.CharFromKey | main/src/addins/MonoDevelop.Debugger/MonoDevelop.Debugger/TextEntryWithCodeCompletion.cs:65-72 | the key as a character between Exclamation and Tilde, '\0' otherwise |
| CompletionEntry.CharFromKeyRoundTrip | main/src/addins/MonoDevelop.Debugger/MonoDevelop.Debugger/TextEntryWithCodeCompletion.cs:65-72 | a key gives a character exactly when printable, and a printable character's code gives it back |
| CompletionEntry.TextEntryWithCodeCompletion.GetText | main/src/addins/MonoDevelop.Debugger/MonoDevelop.Debugger/TextEntryWithCodeCompletion.cs:156-163 | a start outside the text reads as 0 and an end past it as its length; an end before the start throws; otherwise the text between |
| CompletionEntry.TextEntryWithCodeCompletion.GetChar | main/src/addins/MonoDevelop.Debugger/MonoDevelop.Debugger/TextEntryWithCodeCompletion.cs:170-176 | '\0' at or past the end, the character in the text, a throw for a negative offset |
| CompletionEntry.GetTextJoins | main/src/addins/MonoDevelop.Debugger/MonoDevelop.Debugger/TextEntryWithCodeCompletion.cs:156-163 | reading consecutive pieces gives the text between the outer offsets |
| CompletionEntry.GetCharReadsText | main/src/addins/MonoDevelop.Debugger/MonoDevelop.Debugger/TextEntryWithCodeCompletion.cs:156-176 | GetChar reads the characters of GetText |
| CompletionEntry.RemoveText | main/src/addins/MonoDevelop.Debugger/MonoDevelop.Debugger/TextEntryWithCodeCompletion.cs:184-190 | String.Remove: throws out of range, otherwise the text without those characters |
| CompletionEntry.InsertText | main/src/addins/MonoDevelop.Debugger/MonoDevelop.Debugger/TextEntryWithCodeCompletion.cs:184-190 | String.Insert: throws out of range, otherwise the text with s at the offset |
| CompletionEntry.TextEntryWithCodeCompletion.Replace | main/src/addins/MonoDevelop.Debugger/MonoDevelop.Debugger/TextEntryWithCodeCompletion.cs:184-190 | removes only for a positive count, inserts only for non-empty text, as ReplaceOutcome |
| CompletionEntry.ReplaceSplices | main/src/addins/MonoDevelop.Debugger/MonoDevelop.Debugger/TextEntryWithCodeCompletion.cs:184-190 | within the text, Replace puts s in place of the count characters at the offset |
| CompletionEntry.ReplaceFails | main/src/addins/MonoDevelop.Debugger/MonoDevelop.Debugger/TextEntryWithCodeCompletion.cs:184-190 | Replace throws exactly when it removes outside the text, or inserts outside it after removing nothing |
| CompletionEntry.TextEntryWithCodeCompletion.SetCompletionText | main/src/addins/MonoDevelop.Debugger/MonoDevelop.Debugger/TextEntryWithCodeCompletion.cs:208-218 | the completed word becomes the whole text with the cursor after it |

## Left out

- PathTree.Normalize is not modelled. It walks the whole tree with a queue to rebuild it, and no core operation depends on it.
- The Windows PathTree layout is not modelled; only the Unix one is. On Windows, pathRoot is rootNode and drive roots are its children.
- FileWatcherPathTree.PathTree.RemoveNodeAt: a climb that reaches rootNode dereferences a null Parent in the source. That only happens with a relative path. The model reports it as `faulted` and does not go on.
- ProgressMonitor.EndStep is not modelled, because it only changes floating-point progress.
- ProgressMonitor.BeginAsyncStep is modelled only as the Sub constructor. Its SynchronizationContext and async task plumbing are threading.
- ProgressMonitors.ProgressMonitor.Sub: the parent's task is copied, not shared as SetParentTask shares it (ProgressMonitor.cs:134-140). Tasks begun and completed in the sub-monitor are therefore added to and credited on the copy, and do not reach the parent monitor's task.
- Locks and SynchronizationContext posting are not modelled; only the sequential path with no context is. currentWork is modelled as integer work; the floating-point Progress and completedChildrenWork are not modelled.
- ProgressTasks.AddChild and ProgressTasks.SetChildComplete state only the arena's length in their own contracts. Their effects are stated by PushChild, PushChildLinks and CompleteShape.
- ExecuteTransform is not modelled. It comes into AddItem as its `transformed` parameter, with None for a transform that fails. Its summary branch adds the item to EvaluatedItemsIgnoringCondition itself, and AddItem then adds it again; this double add is not modelled.
- ExpandWildcardFilePath, IsIncludedInGlob, GetImportFiles and the file system are not modelled. The expanded items and File.Exists come in as parameters.
- The condition parser and MSBuildEvaluationContext come in as function parameters (EvaluateString, EvaluateParameters, property collection). In the object walk a condition is read against the evaluations before it, as an event history; what each PropertyGroup or Import sets is not modelled.
- MSBuildDispatch.PassesImportAlike: stated only for conditions that do not read the context, because the source's conditions see the properties set earlier in the walk; ChooseFreeImportsAlike states it for objects without a Choose, and ConditionSeesPropertyPass shows a project where the passes import differently.
- Regular-expression matching is not modelled. ExcludeToRegex builds the pattern text, and the match is a parameter.
- Culture-sensitive and ordinal-ignore-case comparisons are modelled as ASCII case folding. string.Compare in AddSourceFile is a parameter that must be a strict order.
- CSharpCompilerParameters: LangVersion, DocumentationFile, Write/Read serialisation, CreateCompilationOptions/CreateParseOptions (Roslyn) and GetPlatform (Enum.TryParse) are not modelled. The plain get/set properties of VBCompilerParameters are not modelled either.
- NotifyChange is modelled as a counter of notifications.
- The LogWidget's UI, its tree model and its async loading are not modelled. GLib markup escaping and RevisionHelpers.FormatMessage are parameters.
- OnSave of the breakpoint dialog is modelled only for the hit count and the condition. The rest sets UI-bound fields.
- BreakpointProperties.ParsedLocation: a null FileName is modelled as "" and a null Warning as None.
- FolderNodeBuilder: the FilePath operations and FileNestingService are parameters. BuildChildNodes is not modelled, because it only feeds the tree builder.
- TextEntryWithCodeCompletion: GetCompletionText, the key handlers, the completion context, and the SetCompletionText overload with an offset are not modelled. CompletionEntry.TextEntryWithCodeCompletion.Replace does not move the cursor, which the source leaves to the widget.
- `.sources` file streams, the Makefile parsing of Read and the running of make are not modelled. The lines of the file are a sequence of strings.
- MSBuildProjectState.ProjectInfo.UpdateEvaluatedItem: item2.AddSourceItem (DefaultMSBuildEngine.cs:448, 460) is not modelled, because the source items only feed saving. With an evaluation context the overlay comes from UpdateProperties (468-487), which the model does not spell out: its per-metadata condition, the evaluated value and the unevaluated value chosen by the root project come in with the `overlay` parameter.
- MSBuildProjectCache.LoadedProjects.LoadProject: CanonicalPath (DefaultMSBuildEngine.cs:140) is not modelled; the file name is taken as already canonical. A Project.Load that throws (161) is not modelled either: the source then leaves the entry cached with the count incremented, NeedsLoad true and the new LastWriteTime, while the model's load always succeeds.
- BreakpointProperties.ParsedLocation.Update, MSBuildProjectCache.LoadedProjects.LoadProject and ProgressMonitors.ProgressMonitor.EndTaskUpTo follow the corrected reading of their finding below, not the code as written; the as-written behaviour is kept in the as-written members named there.

## Findings

| source | as written | input that shows it | evidently intended | confidence | as-written member | corrected member |
|---|---|---|---|---|---|---|
| main/src/core/MonoDevelop.Core/MonoDevelop.Projects.MSBuild/DefaultMSBuildEngine.cs:147-165 | a new LoadedProjectInfo starts with ReferenceCount = 1 (line 53) and LoadProject then increments it, so the first load counts 2 users | LoadProject then UnloadProject of a path not cached: the entry stays with count 1 and is never evicted | the first load counts one user, so a balanced unload evicts the entry | not executed | MSBuildProjectCache.LoadUnloadNeverEvictsAsWritten | MSBuildProjectCache.LoadUnloadEvicts |
| main/src/addins/MonoDevelop.Debugger/MonoDevelop.Debugger/BreakpointPropertiesDialog.cs:399-415 | the `else column = 1` binds to the enclosing `if`, so a column that parses is overwritten by 1 | "file:10:5" for an existing file gives column 1 | column 5, and 1 only when no column is given | not executed | BreakpointProperties.ColumnOverwritten | BreakpointProperties.ParseLocation |
| main/src/core/MonoDevelop.Core/MonoDevelop.Core/ProgressMonitor.cs:293-298 | the loop `while (currentTask != null && currentTask != task) EndTask ()` does not stop at parentRootTask, where EndTask changes nothing | a task begun in a monitor made by BeginAsyncStep and disposed twice: the second EndTask(task) loops forever | stop when EndTask can end no more tasks | not executed | ProgressMonitors.DisposeTwiceHangs | ProgressMonitors.ProgressMonitor.EndTaskUpTo |
| main/src/addins/MonoDevelop.Debugger/MonoDevelop.Debugger/BreakpointPropertiesDialog.cs:611-626 | a ')' at the end with no '(' makes Substring take a negative length | "f)" throws ArgumentOutOfRange | report invalid syntax | not executed | BreakpointProperties.UnopenedParenthesisThrows | BreakpointProperties.TryParseFunction |
