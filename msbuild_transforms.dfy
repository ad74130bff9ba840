/**
 * Item transforms of the MSBuild engine: "@(Name->'expr')" and "@(Name->Function(args))".
 * Parsing the transform, the summary functions (Count, AnyHaveMetadataValue) and the list
 * functions (Reverse, HasMetadata, WithMetadataValue, ClearMetadata, Distinct, DistinctWithCase).
 */
module MSBuildTransforms {
  import opened Wrappers
  import opened Strings
  import opened MSBuildItems

  /** The item functions the engine implements itself. */
  const ItemFunctions: set<string> :=
    {"Count", "DirectoryName", "Distinct", "DistinctWithCase", "Reverse",
     "AnyHaveMetadataValue", "ClearMetadata", "HasMetadata", "Metadata", "WithMetadataValue"}

  /** The public instance methods of System.String, usable as item functions on the include. */
  const StringItemFunctions: set<string> :=
    {"Clone", "CompareTo", "Contains", "CopyTo", "EndsWith", "Equals", "GetEnumerator",
     "GetHashCode", "GetType", "GetTypeCode", "IndexOf", "IndexOfAny", "Insert", "IsNormalized",
     "LastIndexOf", "LastIndexOfAny", "Normalize", "PadLeft", "PadRight", "Remove", "Replace",
     "Split", "StartsWith", "Substring", "ToCharArray", "ToLower", "ToLowerInvariant", "ToString",
     "ToUpper", "ToUpperInvariant", "Trim", "TrimEnd", "TrimStart", "get_Chars", "get_Length"}

  const KnownItemFunctions: set<string> := ItemFunctions + StringItemFunctions

  /**
   * A parsed transform: the item list to transform, the expression after "->" (None when
   * there is no arrow), and, when the expression calls a known item function, its name and
   * its evaluated arguments.
   */
  datatype Transform = Transform(
    itemName: string,
    expression: Option<string>,
    itemFunction: Option<string>,
    itemFunctionArgs: Option<seq<string>>)

  /** The right side of the arrow is a quoted string: the quotes are stripped and no function is called. */
  predicate IsQuoted(e: string)
  {
    |e| > 1 && e[0] == '\'' && e[|e| - 1] == '\''
  }

  /**
   * ParseTransformExpression; None where the source returns false.  `evaluateParameters`
   * stands for MSBuildEvaluationContext.EvaluateParameters: it reads the argument list of
   * the expression starting at the given index (just after the opening parenthesis).
   */
  function ParseTransformExpression(inc: string, evaluateParameters: (string, nat) -> seq<string>): (r: Option<Transform>)
    ensures r.Some? ==> r.value.itemName != []
    ensures r.Some? && r.value.itemFunction.Some? ==>
      r.value.itemFunction.value in KnownItemFunctions && r.value.itemFunctionArgs.Some? &&
      r.value.expression.Some? && !IsQuoted(r.value.expression.value)
  {
    var i := IndexOfFrom(inc, "->", 0, false);
    if i == -1 then
      var name := Trim(inc, WhiteSpace);
      if name == [] then None else Some(Transform(name, None, None, None))
    else
      var name := Trim(inc[..i], WhiteSpace);
      if name == [] then None
      else Some(ParseArrowExpression(name, Trim(inc[i + 2..], WhiteSpace), evaluateParameters))
  }

  /** The part of ParseTransformExpression after the arrow, `e` being the trimmed right side. */
  function ParseArrowExpression(name: string, e: string, evaluateParameters: (string, nat) -> seq<string>): (t: Transform)
    ensures t.itemName == name && t.expression.Some?
    ensures t.itemFunction.Some? ==>
      t.itemFunction.value in KnownItemFunctions && t.itemFunctionArgs.Some? && !IsQuoted(t.expression.value)
  {
    if IsQuoted(e) then Transform(name, Some(e[1..|e| - 1]), None, None)
    else
      var p := IndexOfChar(e, '(');
      if p == -1 then Transform(name, Some(e), None, None)
      else
        var func := Trim(e[..p], WhiteSpace);
        if func in KnownItemFunctions then
          Transform(name, Some(e), Some(func), Some(evaluateParameters(e, p + 1)))
        else Transform(name, Some(e), None, None)
  }

  /** Without an arrow the whole trimmed input names the item list, and parsing fails iff it is empty. */
  lemma ParseWithoutArrow(inc: string, evaluateParameters: (string, nat) -> seq<string>)
    requires !ContainsSub(inc, "->", false)
    ensures var r := ParseTransformExpression(inc, evaluateParameters);
      (r.Some? <==> Trim(inc, WhiteSpace) != []) &&
      (r.Some? ==> r.value == Transform(Trim(inc, WhiteSpace), None, None, None))
  {
    IndexOfFindsContains(inc, "->", false);
  }

  /** The first arrow of `name + "->" + rhs` is the one after `name` when `name` holds no '>'. */
  lemma ArrowIndex(name: string, rhs: string)
    requires '>' !in name
    ensures IndexOfFrom(name + "->" + rhs, "->", 0, false) == |name|
  {
    var s := name + "->" + rhs;
    assert MatchAt(s, "->", |name|, false) by {
      assert s[|name|..|name| + 2] == "->";
    }
    forall k | 0 <= k < |name|
      ensures !MatchAt(s, "->", k, false)
    {
      assert s[k + 1] != '>' by {
        if k + 1 < |name| {
          assert s[k + 1] == name[k + 1];
        } else {
          assert s[k + 1] == '-';
        }
      }
      assert s[k..k + 2][1] == s[k + 1];
    }
    IndexOfFromFacts(s, "->", 0, false);
  }

  /**
   * With an arrow: the trimmed left side names the item list (failure iff it is empty);
   * a quoted right side gives the unquoted expression and no function; otherwise the
   * trimmed right side is the expression, and an item function is set exactly when the
   * name before '(' is a known function.
   */
  lemma ParseWithArrow(name: string, rhs: string, evaluateParameters: (string, nat) -> seq<string>)
    requires '>' !in name
    ensures var r := ParseTransformExpression(name + "->" + rhs, evaluateParameters);
      var e := Trim(rhs, WhiteSpace);
      var p := IndexOfChar(e, '(');
      (r.Some? <==> Trim(name, WhiteSpace) != []) &&
      (r.Some? ==> r.value.itemName == Trim(name, WhiteSpace)) &&
      (r.Some? && IsQuoted(e) ==> r.value.expression == Some(e[1..|e| - 1]) && r.value.itemFunction == None) &&
      (r.Some? && !IsQuoted(e) ==> r.value.expression == Some(e)) &&
      (r.Some? ==> (r.value.itemFunction.Some? <==>
                    !IsQuoted(e) && p != -1 && Trim(e[..p], WhiteSpace) in KnownItemFunctions))
  {
    ArrowIndex(name, rhs);
    var s := name + "->" + rhs;
    assert s[..|name|] == name;
    assert s[|name| + 2..] == rhs;
  }

  // ----- summary functions -----

  /** Whether some item's metadata `key` equals `value`, ignoring case (an absent entry never does). */
  predicate AnyHaveMetadataValue(items: seq<EvaluatedItem>, key: string, value: string)
    reads items
  {
    exists i :: 0 <= i < |items| && key in items[i].metadata && EqualsIgnoreCase(items[i].metadata[key], value)
  }

  /**
   * ExecuteSummaryItemFunction: a single value for the whole list, None where the source
   * returns false (not a summary function, or the wrong number of arguments).
   */
  function ExecuteSummaryItemFunction(items: seq<EvaluatedItem>, itemFunction: string, args: seq<string>): (r: Option<string>)
    reads items
    ensures r.Some? <==> itemFunction == "Count" || (itemFunction == "AnyHaveMetadataValue" && |args| == 2)
    ensures r.Some? && itemFunction == "Count" ==> AllDigits(r.value) && DecimalValue(r.value) == |items|
    ensures r.Some? && itemFunction == "AnyHaveMetadataValue" ==>
      (r.value == "true" <==> AnyHaveMetadataValue(items, args[0], args[1])) &&
      (r.value == "false" <==> !AnyHaveMetadataValue(items, args[0], args[1]))
  {
    if itemFunction == "Count" then
      NatToStringValue(|items|);
      Some(NatToString(|items|))
    else if itemFunction == "AnyHaveMetadataValue" then
      if |args| != 2 then None
      else Some(if AnyHaveMetadataValue(items, args[0], args[1]) then "true" else "false")
    else None
  }

  /** The count reads back as the number of items (int.Parse of Count's result). */
  lemma CountParses(items: seq<EvaluatedItem>, args: seq<string>)
    requires |items| <= Int32Max
    ensures var r := ExecuteSummaryItemFunction(items, "Count", args);
      r.Some? && TryParseInt32(r.value) == Some(|items|)
  {
    NatToStringParses(|items|);
  }

  // ----- list functions -----

  /** What ExecuteTransformItemListFunction does: whether it applied, the new list, and whether metadata is dropped. */
  datatype ListFunction = ListFunction(handled: bool, items: seq<EvaluatedItem>, ignoreMetadata: bool)

  function Reversed(items: seq<EvaluatedItem>): (r: seq<EvaluatedItem>)
    ensures |r| == |items|
    ensures forall i :: 0 <= i < |items| ==> r[i] == items[|items| - 1 - i]
  {
    if items == [] then [] else Reversed(items[1..]) + [items[0]]
  }

  lemma {:induction false} ReversedTwice(items: seq<EvaluatedItem>)
    ensures Reversed(Reversed(items)) == items
  {
    var r := Reversed(items);
    assert forall i :: 0 <= i < |items| ==> Reversed(r)[i] == r[|r| - 1 - i] == items[i];
  }

  /** Items whose metadata has an entry `key` (HasMetadata). */
  function HavingMetadata(items: seq<EvaluatedItem>, key: string): (r: seq<EvaluatedItem>)
    reads items
    ensures |r| <= |items|
    ensures forall i :: 0 <= i < |r| ==> r[i] in items && key in r[i].metadata
    ensures forall i :: 0 <= i < |items| && key in items[i].metadata ==> items[i] in r
  {
    if items == [] then []
    else
      var rest := HavingMetadata(items[1..], key);
      assert forall i :: 1 <= i < |items| ==> items[i] == items[1..][i - 1];
      if key in items[0].metadata then [items[0]] + rest else rest
  }

  /** Items whose metadata `key` equals `value` ignoring case (WithMetadataValue). */
  function WithMetadataValue(items: seq<EvaluatedItem>, key: string, value: string): (r: seq<EvaluatedItem>)
    reads items
    ensures |r| <= |items|
    ensures forall i :: 0 <= i < |r| ==> r[i] in items && key in r[i].metadata && EqualsIgnoreCase(r[i].metadata[key], value)
    ensures forall i :: 0 <= i < |items| && key in items[i].metadata && EqualsIgnoreCase(items[i].metadata[key], value) ==> items[i] in r
  {
    if items == [] then []
    else
      var rest := WithMetadataValue(items[1..], key, value);
      assert forall i :: 1 <= i < |items| ==> items[i] == items[1..][i - 1];
      if key in items[0].metadata && EqualsIgnoreCase(items[0].metadata[key], value) then [items[0]] + rest else rest
  }

  /** HasMetadata keeps, in their order, exactly the items at the places whose metadata has the key. */
  lemma HavingMetadataPicks(items: seq<EvaluatedItem>, key: string)
    ensures exists idx :: Picks(HavingMetadata(items, key), items, idx) &&
                          forall i :: 0 <= i < |items| ==> (i in idx <==> key in items[i].metadata)
  {
    var idx := HavingMetadataPlaces(items, key);
  }

  /** The places HavingMetadata keeps. */
  lemma {:induction false} HavingMetadataPlaces(items: seq<EvaluatedItem>, key: string) returns (idx: seq<int>)
    ensures Picks(HavingMetadata(items, key), items, idx)
    ensures forall i :: 0 <= i < |items| ==> (i in idx <==> key in items[i].metadata)
  {
    if items == [] {
      idx := [];
    } else {
      var tail := items[1..];
      var kept := key in items[0].metadata;
      var rest := HavingMetadata(tail, key);
      var places := HavingMetadataPlaces(tail, key);
      PicksCons(items[0], rest, tail, places, kept);
      assert items == [items[0]] + tail;
      assert HavingMetadata(items, key) == if kept then [items[0]] + rest else rest;
      idx := Shifted(places, kept);
      forall i | 0 <= i < |items|
        ensures i in idx <==> key in items[i].metadata
      {
        if i > 0 {
          assert items[i] == tail[i - 1];
        }
      }
    }
  }


  /** WithMetadataValue keeps, in their order, exactly the items at the places whose metadata `key` equals `value` ignoring case. */
  lemma WithMetadataValuePicks(items: seq<EvaluatedItem>, key: string, value: string)
    ensures exists idx :: Picks(WithMetadataValue(items, key, value), items, idx) &&
                          forall i :: 0 <= i < |items| ==> (i in idx <==> key in items[i].metadata && EqualsIgnoreCase(items[i].metadata[key], value))
  {
    var idx := WithMetadataValuePlaces(items, key, value);
  }

  /** The places WithMetadataValue keeps. */
  lemma {:induction false} WithMetadataValuePlaces(items: seq<EvaluatedItem>, key: string, value: string) returns (idx: seq<int>)
    ensures Picks(WithMetadataValue(items, key, value), items, idx)
    ensures forall i :: 0 <= i < |items| ==> (i in idx <==> key in items[i].metadata && EqualsIgnoreCase(items[i].metadata[key], value))
  {
    if items == [] {
      idx := [];
    } else {
      var tail := items[1..];
      var kept := key in items[0].metadata && EqualsIgnoreCase(items[0].metadata[key], value);
      var rest := WithMetadataValue(tail, key, value);
      var places := WithMetadataValuePlaces(tail, key, value);
      PicksCons(items[0], rest, tail, places, kept);
      assert items == [items[0]] + tail;
      assert WithMetadataValue(items, key, value) == if kept then [items[0]] + rest else rest;
      idx := Shifted(places, kept);
      forall i | 0 <= i < |items|
        ensures i in idx <==> key in items[i].metadata && EqualsIgnoreCase(items[i].metadata[key], value)
      {
        if i > 0 {
          assert items[i] == tail[i - 1];
        }
      }
    }
  }


  /** The key Distinct compares: the include, folded when the comparison ignores case. */
  function Key(it: EvaluatedItem, ignoreCase: bool): string
  {
    if ignoreCase then ToLower(it.inc) else it.inc
  }

  function Keys(items: seq<EvaluatedItem>, ignoreCase: bool): (r: seq<string>)
    ensures |r| == |items|
    ensures forall i :: 0 <= i < |items| ==> r[i] == Key(items[i], ignoreCase)
  {
    if items == [] then [] else [Key(items[0], ignoreCase)] + Keys(items[1..], ignoreCase)
  }

  /** The first item of every key not yet in `seen`, in order (the HashSet.Add filter). */
  function FirstByKey(items: seq<EvaluatedItem>, seen: set<string>, ignoreCase: bool): (r: seq<EvaluatedItem>)
    ensures forall i :: 0 <= i < |r| ==> r[i] in items
  {
    if items == [] then []
    else
      var rest := FirstByKey(items[1..], seen + {Key(items[0], ignoreCase)}, ignoreCase);
      assert forall i :: 1 <= i < |items| ==> items[i] == items[1..][i - 1];
      if Key(items[0], ignoreCase) in seen then FirstByKey(items[1..], seen, ignoreCase)
      else [items[0]] + rest
  }

  /** One step of FirstByKey: the first item is kept exactly when its key is new. */
  lemma FirstByKeyUnfold(items: seq<EvaluatedItem>, seen: set<string>, ignoreCase: bool)
    requires items != []
    ensures FirstByKey(items, seen, ignoreCase) ==
      if Key(items[0], ignoreCase) in seen then FirstByKey(items[1..], seen, ignoreCase)
      else [items[0]] + FirstByKey(items[1..], seen + {Key(items[0], ignoreCase)}, ignoreCase)
  {
  }

  /**
   * The keys of the kept items are exactly the distinct keys of the input, in the order
   * of their first occurrence: the result of Enumerable.Distinct on the keys.
   */
  lemma {:induction false} FirstByKeyKeys(items: seq<EvaluatedItem>, seen: set<string>, ignoreCase: bool)
    ensures Keys(FirstByKey(items, seen, ignoreCase), ignoreCase) == DistinctAfter(Keys(items, ignoreCase), seen)
  {
    if items != [] {
      var k := Key(items[0], ignoreCase);
      assert Keys(items, ignoreCase)[1..] == Keys(items[1..], ignoreCase);
      if k in seen {
        FirstByKeyKeys(items[1..], seen, ignoreCase);
      } else {
        FirstByKeyKeys(items[1..], seen + {k}, ignoreCase);
        var rest := FirstByKey(items[1..], seen + {k}, ignoreCase);
        assert ([items[0]] + rest)[1..] == rest;
      }
    }
  }

  /** Place `i` of `items` is the first place of its key, and the key is not in `seen`. */
  ghost predicate FirstOfKey(items: seq<EvaluatedItem>, seen: set<string>, ignoreCase: bool, i: int)
  {
    && 0 <= i < |items| && Key(items[i], ignoreCase) !in seen
    && forall h :: 0 <= h < i ==> Key(items[h], ignoreCase) != Key(items[i], ignoreCase)
  }

  /** The HashSet.Add filter keeps, in their order, exactly the items at the first places of the
      keys not in `seen`: of several items with one key, the first. */
  lemma FirstByKeyPicks(items: seq<EvaluatedItem>, seen: set<string>, ignoreCase: bool)
    ensures exists idx :: Picks(FirstByKey(items, seen, ignoreCase), items, idx) &&
                          forall i :: 0 <= i < |items| ==> (i in idx <==> FirstOfKey(items, seen, ignoreCase, i))
  {
    var idx := FirstByKeyPlaces(items, seen, ignoreCase);
  }

  /** The places FirstByKey keeps. */
  lemma {:induction false} FirstByKeyPlaces(items: seq<EvaluatedItem>, seen: set<string>, ignoreCase: bool) returns (idx: seq<int>)
    ensures Picks(FirstByKey(items, seen, ignoreCase), items, idx)
    ensures forall i :: 0 <= i < |items| ==> (i in idx <==> FirstOfKey(items, seen, ignoreCase, i))
  {
    if items == [] {
      idx := [];
    } else {
      var tail, k := items[1..], Key(items[0], ignoreCase);
      var kept := k !in seen;
      var seen' := if kept then seen + {k} else seen;
      var rest := FirstByKey(tail, seen', ignoreCase);
      var places := FirstByKeyPlaces(tail, seen', ignoreCase);
      PicksCons(items[0], rest, tail, places, kept);
      assert items == [items[0]] + tail;
      FirstByKeyUnfold(items, seen, ignoreCase);
      idx := Shifted(places, kept);
      forall i | 0 < i < |items|
        ensures FirstOfKey(items, seen, ignoreCase, i) <==> FirstOfKey(tail, seen', ignoreCase, i - 1)
      {
        FirstOfKeyTail(items, seen, ignoreCase, i);
      }
    }
  }

  /** Past the head, a first place of a key not in `seen` is one of the rest, the head's key
      then counting as seen. */
  lemma FirstOfKeyTail(items: seq<EvaluatedItem>, seen: set<string>, ignoreCase: bool, i: int)
    requires 0 < i < |items|
    ensures var k := Key(items[0], ignoreCase);
      FirstOfKey(items, seen, ignoreCase, i) <==> FirstOfKey(items[1..], if k in seen then seen else seen + {k}, ignoreCase, i - 1)
  {
    var tail := items[1..];
    assert forall h :: 0 <= h < i - 1 ==> tail[h] == items[h + 1];
    assert tail[i - 1] == items[i];
    if FirstOfKey(items, seen, ignoreCase, i) {
      forall h | 0 <= h < i - 1
        ensures Key(tail[h], ignoreCase) != Key(tail[i - 1], ignoreCase)
      {
        assert Key(items[h + 1], ignoreCase) != Key(items[i], ignoreCase);
      }
    }
    var k := Key(items[0], ignoreCase);
    if FirstOfKey(tail, if k in seen then seen else seen + {k}, ignoreCase, i - 1) {
      forall h | 0 <= h < i
        ensures Key(items[h], ignoreCase) != Key(items[i], ignoreCase)
      {
        if h > 0 {
          assert Key(tail[h - 1], ignoreCase) != Key(tail[i - 1], ignoreCase);
        }
      }
    }
  }

  /** Distinct and DistinctWithCase: no two kept items share a key, and every key of the input is kept. */
  lemma DistinctProperties(items: seq<EvaluatedItem>, ignoreCase: bool)
    ensures var r := FirstByKey(items, {}, ignoreCase);
      (forall i, j :: 0 <= i < j < |r| ==> Key(r[i], ignoreCase) != Key(r[j], ignoreCase)) &&
      (forall i :: 0 <= i < |items| ==> Key(items[i], ignoreCase) in Keys(r, ignoreCase))
  {
    FirstByKeyKeys(items, {}, ignoreCase);
    var r := FirstByKey(items, {}, ignoreCase);
    assert Keys(r, ignoreCase) == Distinct(Keys(items, ignoreCase));
    forall i, j | 0 <= i < j < |r|
      ensures Key(r[i], ignoreCase) != Key(r[j], ignoreCase)
    {
      assert Keys(r, ignoreCase)[i] != Keys(r, ignoreCase)[j];
    }
    forall i | 0 <= i < |items|
      ensures Key(items[i], ignoreCase) in Keys(r, ignoreCase)
    {
      assert Keys(items, ignoreCase)[i] in Distinct(Keys(items, ignoreCase));
    }
  }

  /** ExecuteTransformItemListFunction, as a function of the list and the call. */
  function ItemListFunction(items: seq<EvaluatedItem>, itemFunction: string, args: seq<string>): (r: ListFunction)
    reads items
    ensures !r.handled ==> r.items == items && !r.ignoreMetadata
    ensures r.handled <==> itemFunction in {"Reverse", "ClearMetadata", "Distinct", "DistinctWithCase"} ||
                           (itemFunction == "HasMetadata" && |args| == 1) ||
                           (itemFunction == "WithMetadataValue" && |args| == 2)
    ensures r.ignoreMetadata <==> itemFunction in {"ClearMetadata", "Distinct", "DistinctWithCase"}
  {
    match itemFunction
    case "Reverse" => ListFunction(true, Reversed(items), false)
    case "HasMetadata" =>
      if |args| != 1 then ListFunction(false, items, false)
      else ListFunction(true, HavingMetadata(items, args[0]), false)
    case "WithMetadataValue" =>
      if |args| != 2 then ListFunction(false, items, false)
      else ListFunction(true, WithMetadataValue(items, args[0], args[1]), false)
    case "ClearMetadata" => ListFunction(true, items, true)
    case "Distinct" => ListFunction(true, FirstByKey(items, {}, true), true)
    case "DistinctWithCase" => ListFunction(true, FirstByKey(items, {}, false), true)
    case _ => ListFunction(false, items, false)
  }

  /** ExecuteTransformItemListFunction as the source writes it, with the HashSet loop of Distinct. */
  method ExecuteTransformItemListFunction(items: seq<EvaluatedItem>, itemFunction: string, args: seq<string>)
    returns (handled: bool, newItems: seq<EvaluatedItem>, ignoreMetadata: bool)
    ensures ListFunction(handled, newItems, ignoreMetadata) == ItemListFunction(items, itemFunction, args)
  {
    newItems := items;
    if itemFunction == "Reverse" {
      ignoreMetadata := false;
      newItems := Reversed(items);
      handled := true;
    } else if itemFunction == "HasMetadata" {
      ignoreMetadata := false;
      if |args| != 1 {
        return false, items, ignoreMetadata;
      }
      newItems := HavingMetadata(items, args[0]);
      handled := true;
    } else if itemFunction == "WithMetadataValue" {
      ignoreMetadata := false;
      if |args| != 2 {
        return false, items, ignoreMetadata;
      }
      newItems := WithMetadataValue(items, args[0], args[1]);
      handled := true;
    } else if itemFunction == "ClearMetadata" {
      ignoreMetadata := true;
      handled := true;
    } else if itemFunction == "Distinct" || itemFunction == "DistinctWithCase" {
      newItems := DistinctLoop(items, itemFunction == "Distinct");
      ignoreMetadata := true;
      handled := true;
    } else {
      ignoreMetadata := false;
      handled := false;
    }
  }

  /** The foreach over the items with `values.Add (it.Include)` deciding what is kept. */
  method DistinctLoop(items: seq<EvaluatedItem>, ignoreCase: bool) returns (result: seq<EvaluatedItem>)
    ensures result == FirstByKey(items, {}, ignoreCase)
  {
    var values: set<string> := {};
    result := [];
    var k := 0;
    while k < |items|
      invariant 0 <= k <= |items|
      invariant result + FirstByKey(items[k..], values, ignoreCase) == FirstByKey(items, {}, ignoreCase)
    {
      var key := Key(items[k], ignoreCase);
      FirstByKeyUnfold(items[k..], values, ignoreCase);
      assert items[k..][0] == items[k] && items[k..][1..] == items[k + 1..];
      if key !in values {
        ghost var later := FirstByKey(items[k + 1..], values + {key}, ignoreCase);
        assert result + ([items[k]] + later) == (result + [items[k]]) + later;
        values := values + {key};
        result := result + [items[k]];
      }
      k := k + 1;
    }
  }
}
