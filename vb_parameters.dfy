/**
 * The VB.NET project options (VBCompilerParameters) that hold logic: the DefineConstants list,
 * which VB separates with ',' only, and WarningsDisabled, stored as a warning level.
 */
module VBParameters {
  import opened Strings

  /** GetDefineSymbols: the non-empty pieces of the text between commas. */
  function DefineSymbolsIn(text: string): (r: seq<string>)
    ensures NoneContainsAny(r, {','})
    ensures forall i :: 0 <= i < |r| ==> r[i] != []
    ensures forall p :: p in r <==> p in Split(text, {','}) && p != []
  {
    var pieces := Split(text, {','});
    var r := NonEmpty(pieces);
    forall p ensures p in r <==> p in pieces && p != [] {
      NonEmptyMembers(pieces, p);
    }
    forall i, j | 0 <= i < |r| && 0 <= j < |r[i]| ensures r[i][j] !in {','} {
      assert r[i] in r;
      var k :| 0 <= k < |pieces| && pieces[k] == r[i];
    }
    r
  }

  /** The text Add/RemoveDefineSymbol store for a list: joined by ',' with a trailing ',', or "" for none. */
  function StoredSymbols(symbols: seq<string>): string
  {
    if symbols == [] then "" else Join(symbols, ",") + ","
  }

  /** A stored list of non-empty symbols without commas reads back as the same list. */
  lemma StoredSymbolsRoundTrip(symbols: seq<string>)
    requires NoneContainsAny(symbols, {','})
    requires forall i :: 0 <= i < |symbols| ==> symbols[i] != []
    ensures DefineSymbolsIn(StoredSymbols(symbols)) == symbols
  {
    if symbols == [] {
      assert Split("", {','}) == [[]];
    } else {
      SplitJoinTerminated(symbols, ',', {','});
      NonEmptyTerminated(symbols);
    }
  }

  /** After adding a non-empty symbol without commas, the symbols are the old ones and it at the end. */
  lemma AddThenGet(text: string, symbol: string)
    requires symbol != [] && ',' !in symbol
    ensures DefineSymbolsIn(StoredSymbols(DefineSymbolsIn(text) + [symbol])) == DefineSymbolsIn(text) + [symbol]
  {
    var old_ := DefineSymbolsIn(text);
    var s := old_ + [symbol];
    forall i, j | 0 <= i < |s| && 0 <= j < |s[i]| ensures s[i][j] !in {','} {
      if i < |old_| { assert s[i] == old_[i]; } else { assert s[i] == symbol; }
    }
    StoredSymbolsRoundTrip(s);
  }

  /** After removing a symbol, the symbols are the old ones without its first occurrence. */
  lemma RemoveThenGet(text: string, symbol: string)
    ensures DefineSymbolsIn(StoredSymbols(RemoveFirst(DefineSymbolsIn(text), symbol)))
         == RemoveFirst(DefineSymbolsIn(text), symbol)
  {
    var old_ := DefineSymbolsIn(text);
    var s := RemoveFirst(old_, symbol);
    RemoveFirstMembers(old_, symbol);
    forall i, j | 0 <= i < |s| && 0 <= j < |s[i]| ensures s[i][j] !in {','} {
      var k :| 0 <= k < |old_| && old_[k] == s[i];
    }
    StoredSymbolsRoundTrip(s);
  }

  /** The options a VBCompilerParameters object stores for these properties. */
  class VBCompilerParameters {
    var defineSymbols: string
    /** 0 disables warnings, 1 enables them. */
    var warningLevel: int

    constructor()
      ensures defineSymbols == "" && warningLevel == 1
    {
      defineSymbols := "";
      warningLevel := 1;
    }

    function DefineSymbolList(): seq<string>
      reads this`defineSymbols
    {
      DefineSymbolsIn(defineSymbols)
    }

    /** AddDefineSymbol: appends the symbol and stores the list with ',' after every symbol. */
    method AddDefineSymbol(symbol: string)
      modifies this`defineSymbols
      ensures defineSymbols == StoredSymbols(old(DefineSymbolList()) + [symbol])
      ensures symbol != [] && ',' !in symbol ==> DefineSymbolList() == old(DefineSymbolList()) + [symbol]
    {
      var symbols := DefineSymbolsIn(defineSymbols);
      symbols := symbols + [symbol];
      defineSymbols := Join(symbols, ",") + ",";
      if symbol != [] && ',' !in symbol {
        AddThenGet(old(defineSymbols), symbol);
      }
    }

    /** RemoveDefineSymbol: drops the first occurrence; an empty list is stored as "". */
    method RemoveDefineSymbol(symbol: string)
      modifies this`defineSymbols
      ensures defineSymbols == StoredSymbols(RemoveFirst(old(DefineSymbolList()), symbol))
      ensures DefineSymbolList() == RemoveFirst(old(DefineSymbolList()), symbol)
    {
      var symbols := DefineSymbolsIn(defineSymbols);
      symbols := RemoveFirst(symbols, symbol);
      if |symbols| > 0 {
        defineSymbols := Join(symbols, ",") + ",";
      } else {
        defineSymbols := "";
      }
      RemoveThenGet(old(defineSymbols), symbol);
    }

    /** The WarningsDisabled getter. */
    predicate WarningsDisabled()
      reads this`warningLevel
    {
      warningLevel == 0
    }

    /** The WarningsDisabled setter: level 0 to disable warnings, 1 to enable them. */
    method SetWarningsDisabled(value: bool)
      modifies this`warningLevel
      ensures warningLevel == if value then 0 else 1
      ensures WarningsDisabled() == value
    {
      warningLevel := if value then 0 else 1;
    }
  }
}
