/**
 * The string handling of the C# project options (CSharpCompilerParameters): the NoWarn list,
 * the diagnostic options built from rule sets and suppressed warnings, the output-kind and
 * nullable-context mappings, the DefineConstants list, and the setters that report a change
 * only when the stored value changes.
 *
 * SyntaxFacts.IsValidIdentifier is the abstract predicate `isIdentifier`; rule sets (loaded
 * from files by Roslyn) are given as maps.  ToLower/ToLowerInvariant fold ASCII letters.
 */
module CSharpParameters {
  import opened Wrappers
  import opened Strings

  // ----- NoWarn -----

  const NoWarnSeparators: set<char> := {';', ','}

  /** A numeric NoWarn entry names a C# compiler warning, "CS" followed by the number. */
  function WarningId(item: string): string
  {
    if TryParseInt32(item).Some? then "CS" + item else item
  }

  function WarningIds(items: seq<string>): (r: seq<string>)
    ensures |r| == |items|
    ensures forall i :: 0 <= i < |items| ==> r[i] == WarningId(items[i])
  {
    if items == [] then [] else [WarningId(items[0])] + WarningIds(items[1..])
  }

  /**
   * GetSuppressedWarnings: the non-empty NoWarn entries, split at ';' and ',', each once, in
   * order of first appearance, numeric ones prefixed with "CS"; a null NoWarn is empty.
   */
  function SuppressedWarnings(noWarn: Option<string>): (r: seq<string>)
    ensures noWarn.None? ==> r == []
  {
    assert noWarn.None? ==> Split(noWarn.GetOr(""), NoWarnSeparators) == [[]];
    WarningIds(Distinct(NonEmpty(Split(noWarn.GetOr(""), NoWarnSeparators))))
  }

  /** The names WarningIds gives are the warning names of the items. */
  lemma WarningIdsMembers(items: seq<string>, w: string)
    ensures w in WarningIds(items) <==> exists p :: p in items && w == WarningId(p)
  {
    var r := WarningIds(items);
    if w in r {
      var i :| 0 <= i < |r| && r[i] == w;
      assert items[i] in items;
    }
    if exists p :: p in items && w == WarningId(p) {
      var p :| p in items && w == WarningId(p);
      var i :| 0 <= i < |items| && items[i] == p;
      assert r[i] == w;
    }
  }

  /** The suppressed warnings are exactly the warning names of the non-empty NoWarn entries. */
  lemma SuppressedWarningsMeaning(noWarn: Option<string>, w: string)
    ensures w in SuppressedWarnings(noWarn) <==>
      exists p :: p in Split(noWarn.GetOr(""), NoWarnSeparators) && p != [] && w == WarningId(p)
  {
    var pieces := Split(noWarn.GetOr(""), NoWarnSeparators);
    var items := Distinct(NonEmpty(pieces));
    WarningIdsMembers(items, w);
    if exists p :: p in items && w == WarningId(p) {
      var p :| p in items && w == WarningId(p);
      NonEmptyMembers(pieces, p);
    }
    if exists p :: p in pieces && p != [] && w == WarningId(p) {
      var p :| p in pieces && p != [] && w == WarningId(p);
      NonEmptyMembers(pieces, p);
    }
  }

  /** The report level of a diagnostic in a rule set or in the compiler options. */
  datatype ReportDiagnostic = Default | Error | Warn | Info | Hidden | Suppress

  /** AddSpecificDiagnosticOptions: every entry of the rule set is written over `result`. */
  method AddSpecificDiagnosticOptions(result: map<string, ReportDiagnostic>, ruleSet: map<string, ReportDiagnostic>)
    returns (r: map<string, ReportDiagnostic>)
    ensures r.Keys == result.Keys + ruleSet.Keys
    ensures forall k :: k in ruleSet ==> r[k] == ruleSet[k]
    ensures forall k :: k in result && k !in ruleSet ==> r[k] == result[k]
  {
    r := result;
    var todo := ruleSet.Keys;
    while todo != {}
      invariant todo <= ruleSet.Keys
      invariant r.Keys == result.Keys + (ruleSet.Keys - todo)
      invariant forall k :: k in ruleSet && k !in todo ==> r[k] == ruleSet[k]
      invariant forall k :: k in result && (k !in ruleSet || k in todo) ==> r[k] == result[k]
      decreases todo
    {
      var k :| k in todo;
      r := r[k := ruleSet[k]];
      todo := todo - {k};
    }
  }

  /**
   * GetSpecificDiagnosticOptions: the global rule set, then the project's rule set, then every
   * suppressed warning as Suppress; each later entry overrides an earlier one for its key.
   */
  method SpecificDiagnosticOptions(globalRuleSet: Option<map<string, ReportDiagnostic>>,
                                   ruleSet: Option<map<string, ReportDiagnostic>>,
                                   suppressed: seq<string>)
    returns (result: map<string, ReportDiagnostic>)
    ensures result.Keys == globalRuleSet.GetOr(map[]).Keys + ruleSet.GetOr(map[]).Keys + set w | w in suppressed
    ensures forall w :: w in suppressed ==> result[w] == Suppress
    ensures forall k :: k in ruleSet.GetOr(map[]) && k !in suppressed ==> result[k] == ruleSet.GetOr(map[])[k]
    ensures forall k :: k in globalRuleSet.GetOr(map[]) && k !in ruleSet.GetOr(map[]) && k !in suppressed ==>
      result[k] == globalRuleSet.GetOr(map[])[k]
  {
    result := map[];
    if globalRuleSet.Some? {
      result := AddSpecificDiagnosticOptions(result, globalRuleSet.value);
    }
    if ruleSet.Some? {
      result := AddSpecificDiagnosticOptions(result, ruleSet.value);
    }
    result := SuppressWarnings(result, suppressed);
  }

  /** Every suppressed warning is written over `ruled` as Suppress. */
  method SuppressWarnings(ruled: map<string, ReportDiagnostic>, suppressed: seq<string>)
    returns (result: map<string, ReportDiagnostic>)
    ensures result.Keys == ruled.Keys + set w | w in suppressed
    ensures forall w :: w in suppressed ==> result[w] == Suppress
    ensures forall k :: k in ruled && k !in suppressed ==> result[k] == ruled[k]
  {
    result := ruled;
    var i := 0;
    while i < |suppressed|
      invariant 0 <= i <= |suppressed|
      invariant result.Keys == ruled.Keys + set w | w in suppressed[..i]
      invariant forall w :: w in suppressed[..i] ==> result[w] == Suppress
      invariant forall k :: k in ruled && k !in suppressed[..i] ==> result[k] == ruled[k]
    {
      assert suppressed[..i + 1] == suppressed[..i] + [suppressed[i]];
      result := result[suppressed[i] := Suppress];
      i := i + 1;
    }
    assert suppressed[..i] == suppressed;
  }

  // ----- output kind -----

  datatype OutputKind = ConsoleApplication | WindowsApplication | DynamicallyLinkedLibrary | NetModule

  /** OutputTypeToOutputKind: "exe", "winexe" and "module" in any case; anything else is a library. */
  function OutputTypeToOutputKind(outputType: string): (r: OutputKind)
    ensures r == ConsoleApplication <==> ToLower(outputType) == "exe"
    ensures r == WindowsApplication <==> ToLower(outputType) == "winexe"
    ensures r == NetModule <==> ToLower(outputType) == "module"
    ensures r == DynamicallyLinkedLibrary <==> ToLower(outputType) !in {"exe", "winexe", "module"}
  {
    var t := ToLower(outputType);
    if t == "exe" then ConsoleApplication
    else if t == "winexe" then WindowsApplication
    else if t == "module" then NetModule
    else DynamicallyLinkedLibrary
  }

  /** The project's CompileTarget, used when the configuration has no OutputType. */
  datatype CompileTarget = Exe | Library | WinExe | Module

  /** GetOutputKindFromProject */
  function OutputKindFromProject(target: CompileTarget): OutputKind
  {
    match target
    case Exe => ConsoleApplication
    case WinExe => WindowsApplication
    case Module => NetModule
    case Library => DynamicallyLinkedLibrary
  }

  /** The OutputType text MSBuild writes for a compile target. */
  function OutputTypeName(target: CompileTarget): string
  {
    match target
    case Exe => "Exe"
    case WinExe => "WinExe"
    case Module => "Module"
    case Library => "Library"
  }

  /** Both ways of finding the output kind agree on the OutputType names of the compile targets. */
  lemma OutputKindsAgree(target: CompileTarget)
    ensures OutputTypeToOutputKind(OutputTypeName(target)) == OutputKindFromProject(target)
  {
    match target
    case Exe => FoldsToLower("Exe", "exe");
    case WinExe => FoldsToLower("WinExe", "winexe");
    case Module => FoldsToLower("Module", "module");
    case Library => FoldsToLower("Library", "library");
  }

  // ----- nullable context -----

  datatype NullableContextOptions = Disable | Warnings | Annotations | Enable

  /** The NullableContextOptions getter: "" and "disable", and every unknown text, mean Disable. */
  function NullableOf(text: string): (r: NullableContextOptions)
    ensures r == Enable <==> ToLower(text) == "enable"
    ensures r == Warnings <==> ToLower(text) == "warnings"
    ensures r == Annotations <==> ToLower(text) == "annotations"
    ensures r == Disable <==> ToLower(text) !in {"enable", "warnings", "annotations"}
  {
    var t := ToLower(text);
    if t == "enable" then Enable
    else if t == "warnings" then Warnings
    else if t == "annotations" then Annotations
    else Disable
  }

  /** NullableContextOptions.ToString(): the text the setter stores. */
  function NullableName(v: NullableContextOptions): string
  {
    match v
    case Disable => "Disable"
    case Warnings => "Warnings"
    case Annotations => "Annotations"
    case Enable => "Enable"
  }

  /** The text the setter stores reads back as the value set. */
  lemma NullableRoundTrip(v: NullableContextOptions)
    ensures NullableOf(NullableName(v)) == v
  {
    match v
    case Disable => FoldsToLower("Disable", "disable");
    case Warnings => FoldsToLower("Warnings", "warnings");
    case Annotations => FoldsToLower("Annotations", "annotations");
    case Enable => FoldsToLower("Enable", "enable");
  }

  // ----- DefineConstants -----

  const SymbolSeparators: set<char> := {';', ',', ' ', '\t'}

  /** A piece of DefineConstants that GetDefineSymbols returns. */
  predicate IsSymbol(s: string, isIdentifier: string -> bool)
  {
    isIdentifier(s) && !IsWhiteSpaceOnly(s)
  }

  /** The pieces that are valid identifiers and not blank, in order. */
  function Symbols(pieces: seq<string>, isIdentifier: string -> bool): (r: seq<string>)
    ensures forall i :: 0 <= i < |r| ==> IsSymbol(r[i], isIdentifier) && r[i] in pieces
    ensures forall p :: p in pieces && IsSymbol(p, isIdentifier) ==> p in r
  {
    if pieces == [] then []
    else
      assert forall p :: p in pieces ==> p == pieces[0] || p in pieces[1..];
      (if IsSymbol(pieces[0], isIdentifier) then [pieces[0]] else []) + Symbols(pieces[1..], isIdentifier)
  }

  /** Every entry is a symbol and contains no separator. */
  predicate AllSymbols(symbols: seq<string>, isIdentifier: string -> bool)
  {
    NoneContainsAny(symbols, SymbolSeparators) && forall i :: 0 <= i < |symbols| ==> IsSymbol(symbols[i], isIdentifier)
  }

  lemma SymbolsSubList(xs: seq<string>, ys: seq<string>, isIdentifier: string -> bool)
    requires AllSymbols(xs, isIdentifier)
    requires forall i :: 0 <= i < |ys| ==> ys[i] in xs
    ensures AllSymbols(ys, isIdentifier)
  {
    forall i, j | 0 <= i < |ys| && 0 <= j < |ys[i]| ensures ys[i][j] !in SymbolSeparators {
      var k :| 0 <= k < |xs| && xs[k] == ys[i];
    }
    forall i | 0 <= i < |ys| ensures IsSymbol(ys[i], isIdentifier) {
      var k :| 0 <= k < |xs| && xs[k] == ys[i];
    }
  }

  /** GetDefineSymbols: the pieces of the text between ';', ',', ' ' and tab that are identifiers. */
  function DefineSymbolsIn(text: string, isIdentifier: string -> bool): (r: seq<string>)
    ensures AllSymbols(r, isIdentifier)
    ensures forall p :: p in Split(text, SymbolSeparators) && IsSymbol(p, isIdentifier) ==> p in r
  {
    var pieces := Split(text, SymbolSeparators);
    var r := Symbols(pieces, isIdentifier);
    forall i, j | 0 <= i < |r| && 0 <= j < |r[i]| ensures r[i][j] !in SymbolSeparators {
      var k :| 0 <= k < |pieces| && pieces[k] == r[i];
    }
    r
  }

  /** The text Add/RemoveDefineSymbol store for a list: joined by ';' with a trailing ';', or "" for none. */
  function StoredSymbols(symbols: seq<string>): string
  {
    if symbols == [] then "" else Join(symbols, ";") + ";"
  }

  lemma {:induction false} SymbolsTerminated(symbols: seq<string>, isIdentifier: string -> bool)
    requires forall i :: 0 <= i < |symbols| ==> IsSymbol(symbols[i], isIdentifier)
    ensures Symbols(symbols + [[]], isIdentifier) == symbols
  {
    assert IsWhiteSpaceOnly([]);
    if symbols != [] {
      assert (symbols + [[]])[1..] == symbols[1..] + [[]];
      SymbolsTerminated(symbols[1..], isIdentifier);
    } else {
      assert Symbols([], isIdentifier) == [];
    }
  }

  /** A stored list of symbols that contain no separator reads back as the same list. */
  lemma StoredSymbolsRoundTrip(symbols: seq<string>, isIdentifier: string -> bool)
    requires AllSymbols(symbols, isIdentifier)
    ensures DefineSymbolsIn(StoredSymbols(symbols), isIdentifier) == symbols
  {
    if symbols == [] {
      assert Split("", SymbolSeparators) == [[]];
      assert IsWhiteSpaceOnly([]);
      assert Symbols([[]], isIdentifier) == [] + Symbols([], isIdentifier);
    } else {
      SplitJoinTerminated(symbols, ';', SymbolSeparators);
      SymbolsTerminated(symbols, isIdentifier);
    }
  }

  /** After adding an identifier without separators, the symbols are the old ones and it at the end. */
  lemma AddThenGet(text: string, symbol: string, isIdentifier: string -> bool)
    requires IsSymbol(symbol, isIdentifier) && forall j :: 0 <= j < |symbol| ==> symbol[j] !in SymbolSeparators
    ensures DefineSymbolsIn(StoredSymbols(DefineSymbolsIn(text, isIdentifier) + [symbol]), isIdentifier)
         == DefineSymbolsIn(text, isIdentifier) + [symbol]
  {
    var old_ := DefineSymbolsIn(text, isIdentifier);
    var s := old_ + [symbol];
    assert AllSymbols(s, isIdentifier) by {
      forall i, j | 0 <= i < |s| && 0 <= j < |s[i]| ensures s[i][j] !in SymbolSeparators {
        if i < |old_| { assert s[i] == old_[i]; } else { assert s[i] == symbol; }
      }
    }
    StoredSymbolsRoundTrip(s, isIdentifier);
  }

  /** After removing a symbol, the symbols are the old ones without its first occurrence. */
  lemma RemoveThenGet(text: string, symbol: string, isIdentifier: string -> bool)
    ensures DefineSymbolsIn(StoredSymbols(RemoveFirst(DefineSymbolsIn(text, isIdentifier), symbol)), isIdentifier)
         == RemoveFirst(DefineSymbolsIn(text, isIdentifier), symbol)
  {
    var old_ := DefineSymbolsIn(text, isIdentifier);
    var s := RemoveFirst(old_, symbol);
    RemoveFirstMembers(old_, symbol);
    SymbolsSubList(old_, s, isIdentifier);
    StoredSymbolsRoundTrip(s, isIdentifier);
  }

  // ----- the options object -----

  /** The project options a CSharpCompilerParameters object stores, with its change notifications. */
  class CSharpCompilerParameters {
    const isIdentifier: string -> bool
    var warningLevel: Option<int>
    var noWarnings: Option<string>
    var optimize: Option<bool>
    var unsafeCode: bool
    var generateOverflowChecks: bool
    var defineSymbols: string
    var noStdLib: bool
    var treatWarningsAsErrors: bool
    var platformTarget: string
    var warningsNotAsErrors: Option<string>
    var nullableContextOptions: string
    /** How many times NotifyChange told the project that its options changed. */
    var notifications: nat

    /** The field initialisers. */
    constructor(isIdentifier: string -> bool)
      ensures this.isIdentifier == isIdentifier
      ensures warningLevel == Some(4) && noWarnings == Some("") && optimize == Some(false)
      ensures !unsafeCode && !generateOverflowChecks && defineSymbols == "" && !noStdLib
      ensures !treatWarningsAsErrors && platformTarget == "anycpu" && warningsNotAsErrors == Some("")
      ensures nullableContextOptions == "" && notifications == 0
    {
      this.isIdentifier := isIdentifier;
      warningLevel := Some(4);
      noWarnings := Some("");
      optimize := Some(false);
      unsafeCode := false;
      generateOverflowChecks := false;
      defineSymbols := "";
      noStdLib := false;
      treatWarningsAsErrors := false;
      platformTarget := "anycpu";
      warningsNotAsErrors := Some("");
      nullableContextOptions := "";
      notifications := 0;
    }

    /** GetDefineSymbols */
    function DefineSymbolList(): seq<string>
      reads this`defineSymbols
    {
      DefineSymbolsIn(defineSymbols, isIdentifier)
    }

    /** AddDefineSymbol: appends the symbol and stores the list with ';' after every symbol; no notification. */
    method AddDefineSymbol(symbol: string)
      modifies this`defineSymbols
      ensures defineSymbols == StoredSymbols(old(DefineSymbolList()) + [symbol])
      ensures IsSymbol(symbol, isIdentifier) && (forall j :: 0 <= j < |symbol| ==> symbol[j] !in SymbolSeparators) ==>
        DefineSymbolList() == old(DefineSymbolList()) + [symbol]
    {
      var symbols := DefineSymbolsIn(defineSymbols, isIdentifier);
      symbols := symbols + [symbol];
      defineSymbols := Join(symbols, ";") + ";";
      if IsSymbol(symbol, isIdentifier) && forall j :: 0 <= j < |symbol| ==> symbol[j] !in SymbolSeparators {
        AddThenGet(old(defineSymbols), symbol, isIdentifier);
      }
    }

    /** RemoveDefineSymbol: drops the first occurrence; an empty list is stored as "". */
    method RemoveDefineSymbol(symbol: string)
      modifies this`defineSymbols
      ensures defineSymbols == StoredSymbols(RemoveFirst(old(DefineSymbolList()), symbol))
      ensures DefineSymbolList() == RemoveFirst(old(DefineSymbolList()), symbol)
    {
      var symbols := DefineSymbolsIn(defineSymbols, isIdentifier);
      symbols := RemoveFirst(symbols, symbol);
      if |symbols| > 0 {
        defineSymbols := Join(symbols, ";") + ";";
      } else {
        defineSymbols := "";
      }
      RemoveThenGet(old(defineSymbols), symbol, isIdentifier);
    }

    /** The DefineSymbols setter: null means ""; an unchanged value is not stored again. */
    method SetDefineSymbols(value: Option<string>)
      modifies this`defineSymbols, this`notifications
      ensures defineSymbols == value.GetOr("")
      ensures notifications == old(notifications) + (if old(defineSymbols) == value.GetOr("") then 0 else 1)
    {
      if defineSymbols == value.GetOr("") {
        return;
      }
      defineSymbols := value.GetOr("");
      notifications := notifications + 1;
    }

    /** The Optimize getter: an unset value reads as false. */
    function Optimize(): bool
      reads this`optimize
    {
      optimize.GetOr(false)
    }

    /** The Optimize setter: stores only a value that differs from what the getter reads. */
    method SetOptimize(value: bool)
      modifies this`optimize, this`notifications
      ensures Optimize() == value
      ensures old(Optimize()) == value ==> optimize == old(optimize) && notifications == old(notifications)
      ensures old(Optimize()) != value ==> optimize == Some(value) && notifications == old(notifications) + 1
    {
      if value == Optimize() {
        return;
      }
      optimize := Some(value);
      notifications := notifications + 1;
    }

    method SetUnsafeCode(value: bool)
      modifies this`unsafeCode, this`notifications
      ensures unsafeCode == value
      ensures notifications == old(notifications) + (if old(unsafeCode) == value then 0 else 1)
    {
      if unsafeCode == value {
        return;
      }
      unsafeCode := value;
      notifications := notifications + 1;
    }

    method SetGenerateOverflowChecks(value: bool)
      modifies this`generateOverflowChecks, this`notifications
      ensures generateOverflowChecks == value
      ensures notifications == old(notifications) + (if old(generateOverflowChecks) == value then 0 else 1)
    {
      if generateOverflowChecks == value {
        return;
      }
      generateOverflowChecks := value;
      notifications := notifications + 1;
    }

    method SetNoStdLib(value: bool)
      modifies this`noStdLib, this`notifications
      ensures noStdLib == value
      ensures notifications == old(notifications) + (if old(noStdLib) == value then 0 else 1)
    {
      if noStdLib == value {
        return;
      }
      noStdLib := value;
      notifications := notifications + 1;
    }

    method SetTreatWarningsAsErrors(value: bool)
      modifies this`treatWarningsAsErrors, this`notifications
      ensures treatWarningsAsErrors == value
      ensures notifications == old(notifications) + (if old(treatWarningsAsErrors) == value then 0 else 1)
    {
      if treatWarningsAsErrors == value {
        return;
      }
      treatWarningsAsErrors := value;
      notifications := notifications + 1;
    }

    /** The PlatformTarget setter: null means "". */
    method SetPlatformTarget(value: Option<string>)
      modifies this`platformTarget, this`notifications
      ensures platformTarget == value.GetOr("")
      ensures notifications == old(notifications) + (if old(platformTarget) == value.GetOr("") then 0 else 1)
    {
      if platformTarget == value.GetOr("") {
        return;
      }
      platformTarget := value.GetOr("");
      notifications := notifications + 1;
    }

    /** The NoWarnings setter stores null as it is. */
    method SetNoWarnings(value: Option<string>)
      modifies this`noWarnings, this`notifications
      ensures noWarnings == value
      ensures notifications == old(notifications) + (if old(noWarnings) == value then 0 else 1)
    {
      if noWarnings == value {
        return;
      }
      noWarnings := value;
      notifications := notifications + 1;
    }

    method SetWarningsNotAsErrors(value: Option<string>)
      modifies this`warningsNotAsErrors, this`notifications
      ensures warningsNotAsErrors == value
      ensures notifications == old(notifications) + (if old(warningsNotAsErrors) == value then 0 else 1)
    {
      if warningsNotAsErrors == value {
        return;
      }
      warningsNotAsErrors := value;
      notifications := notifications + 1;
    }

    /** The WarningLevel getter: an unset level reads as 4. */
    function WarningLevel(): int
      reads this`warningLevel
    {
      warningLevel.GetOr(4)
    }

    /**
     * The WarningLevel setter: the getter then reads the value set.  An unset level stays unset
     * when it is set to 4, the level it already reads as.
     */
    method SetWarningLevel(value: int)
      modifies this`warningLevel, this`notifications
      ensures WarningLevel() == value
      ensures old(warningLevel).Some? ==> warningLevel == Some(value)
      ensures old(warningLevel).None? ==> warningLevel == (if value == 4 then None else Some(value))
      ensures notifications == old(notifications) + (if warningLevel == old(warningLevel) then 0 else 1)
    {
      var newLevel := warningLevel;
      if warningLevel.Some? {
        newLevel := Some(value);
      } else {
        if value != 4 {
          newLevel := Some(value);
        }
      }
      if warningLevel == newLevel {
        return;
      }
      warningLevel := newLevel;
      notifications := notifications + 1;
    }

    /** The NullableContextOptions getter. */
    function Nullable(): NullableContextOptions
      reads this`nullableContextOptions
    {
      NullableOf(nullableContextOptions)
    }

    /** The NullableContextOptions setter: stores the option's name unless the getter already reads it. */
    method SetNullable(value: NullableContextOptions)
      modifies this`nullableContextOptions, this`notifications
      ensures Nullable() == value
      ensures old(Nullable()) == value ==> nullableContextOptions == old(nullableContextOptions) && notifications == old(notifications)
      ensures old(Nullable()) != value ==> nullableContextOptions == NullableName(value) && notifications == old(notifications) + 1
    {
      if Nullable() == value {
        return;
      }
      nullableContextOptions := NullableName(value);
      NullableRoundTrip(value);
      notifications := notifications + 1;
    }

    /** GetSuppressedWarnings, read from the NoWarn property. */
    function SuppressedWarningList(): seq<string>
      reads this`noWarnings
    {
      SuppressedWarnings(noWarnings)
    }

    /** GetSpecificDiagnosticOptions with the global and the project rule set, when they exist. */
    method GetSpecificDiagnosticOptions(globalRuleSet: Option<map<string, ReportDiagnostic>>,
                                        ruleSet: Option<map<string, ReportDiagnostic>>)
      returns (result: map<string, ReportDiagnostic>)
      ensures forall w :: w in SuppressedWarningList() ==> w in result && result[w] == Suppress
      ensures forall k :: k in result <==>
        k in globalRuleSet.GetOr(map[]) || k in ruleSet.GetOr(map[]) || k in SuppressedWarningList()
      ensures forall k :: k in ruleSet.GetOr(map[]) && k !in SuppressedWarningList() ==> result[k] == ruleSet.GetOr(map[])[k]
      ensures forall k :: k in globalRuleSet.GetOr(map[]) && k !in ruleSet.GetOr(map[]) && k !in SuppressedWarningList() ==>
        result[k] == globalRuleSet.GetOr(map[])[k]
    {
      result := SpecificDiagnosticOptions(globalRuleSet, ruleSet, SuppressedWarningList());
    }
  }
}
