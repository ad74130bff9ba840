/**
 * The evaluation state of one project (the engine's ProjectInfo): the property table, the
 * two parallel item lists, the glob includes, the targets and the conditioned properties,
 * with the operations of the engine that update them.
 */
module MSBuildProjectState {
  import opened Wrappers
  import opened Strings
  import opened MSBuildItems
  import opened MSBuildGlobs

  /** PropertyInfo: what the engine remembers about one evaluated property. */
  datatype PropertyInfo = PropertyInfo(
    name: string,
    value: string,
    finalValue: string,
    isImported: bool,
    definedMultipleTimes: bool)

  /** The property table is a Dictionary with StringComparer.OrdinalIgnoreCase: names are folded. */
  function PropertyKey(name: string): string
  {
    ToLower(name)
  }

  /** The table after StoreProperty (name, value, finalValue). */
  function StoredProperty(props: map<string, PropertyInfo>, name: string, value: string, finalValue: string): (r: map<string, PropertyInfo>)
    ensures r.Keys == props.Keys + {PropertyKey(name)}
    ensures var p := r[PropertyKey(name)];
      p.value == value && p.finalValue == finalValue &&
      (p.definedMultipleTimes <==> PropertyKey(name) in props)
    ensures PropertyKey(name) !in props ==> r[PropertyKey(name)] == PropertyInfo(name, value, finalValue, false, false)
    ensures PropertyKey(name) in props ==>
      r[PropertyKey(name)].name == props[PropertyKey(name)].name &&
      r[PropertyKey(name)].isImported == props[PropertyKey(name)].isImported
    ensures forall k :: k in props && k != PropertyKey(name) ==> r[k] == props[k]
  {
    var key := PropertyKey(name);
    if key in props then
      props[key := props[key].(value := value, finalValue := finalValue, definedMultipleTimes := true)]
    else
      props[key := PropertyInfo(name, value, finalValue, false, false)]
  }

  /** Names differing only in the case of ASCII letters denote the same property. */
  lemma StoreIgnoresCase(props: map<string, PropertyInfo>, a: string, b: string, value: string, finalValue: string)
    requires EqualsIgnoreCase(a, b)
    ensures var r := StoredProperty(StoredProperty(props, a, value, finalValue), b, value, finalValue);
      r.Keys == props.Keys + {PropertyKey(a)} && r[PropertyKey(a)].definedMultipleTimes
  {
  }

  /**
   * The importer's table after ImportFile copies an imported project's properties into it:
   * every imported property is flagged IsImported and replaces the importer's entry, and
   * it is flagged DefinedMultipleTimes when the importer already had the key.
   */
  function MergedProperties(importer: map<string, PropertyInfo>, imported: map<string, PropertyInfo>): (r: map<string, PropertyInfo>)
    ensures r.Keys == importer.Keys + imported.Keys
    ensures forall k :: k in imported ==> r[k] == Imported(imported[k], k in importer)
    ensures forall k :: k in importer && k !in imported ==> r[k] == importer[k]
  {
    map k | k in importer.Keys + imported.Keys ::
      if k in imported then Imported(imported[k], k in importer) else importer[k]
  }

  /** Importing the same properties a second time flags every one of them as defined multiple times. */
  lemma MergeTwice(importer: map<string, PropertyInfo>, imported: map<string, PropertyInfo>)
    ensures var r := MergedProperties(MergedProperties(importer, imported), imported);
      forall k :: k in imported ==> r[k].definedMultipleTimes && r[k].isImported
  {
  }

  /** GlobInfo: a wildcard include remembered so that later Update and Remove elements see it. */
  datatype GlobInfo = GlobInfo(itemName: string, inc: string, includeSplit: seq<string>, condition: bool)

  /** An MSBuild target with the attributes the engine evaluates. */
  datatype Target = Target(
    name: string,
    afterTargets: string,
    inputs: string,
    outputs: string,
    beforeTargets: string,
    dependsOnTargets: string,
    returnItems: string,
    keepDuplicateOutputs: string)

  /** The target with every attribute evaluated; `evaluateString` stands for the evaluation context. */
  function EvaluatedTarget(t: Target, evaluateString: string -> string): (r: Target)
    ensures r.name == t.name
    ensures r.inputs == evaluateString(t.inputs) && r.outputs == evaluateString(t.outputs)
    ensures r.dependsOnTargets == evaluateString(t.dependsOnTargets)
    ensures r.afterTargets == evaluateString(t.afterTargets) && r.beforeTargets == evaluateString(t.beforeTargets)
    ensures r.returnItems == evaluateString(t.returnItems) && r.keepDuplicateOutputs == evaluateString(t.keepDuplicateOutputs)
  {
    Target(t.name, evaluateString(t.afterTargets), evaluateString(t.inputs), evaluateString(t.outputs),
      evaluateString(t.beforeTargets), evaluateString(t.dependsOnTargets), evaluateString(t.returnItems),
      evaluateString(t.keepDuplicateOutputs))
  }

  /** The items of `items` whose include the exclude regular expression does not match. */
  function NotExcluded(items: seq<EvaluatedItem>, excluded: string -> bool): (r: seq<EvaluatedItem>)
    ensures |r| <= |items|
    ensures forall i :: 0 <= i < |r| ==> r[i] in items && !excluded(r[i].inc)
    ensures forall i :: 0 <= i < |items| && !excluded(items[i].inc) ==> items[i] in r
  {
    if items == [] then []
    else
      var rest := NotExcluded(items[1..], excluded);
      assert forall i :: 1 <= i < |items| ==> items[i] == items[1..][i - 1];
      if excluded(items[0].inc) then rest else [items[0]] + rest
  }

  /** The exclude filter keeps, in their order, exactly the items at the places whose include it does not match. */
  lemma NotExcludedPicks(items: seq<EvaluatedItem>, excluded: string -> bool)
    ensures exists idx :: Picks(NotExcluded(items, excluded), items, idx) &&
                          forall i :: 0 <= i < |items| ==> (i in idx <==> !excluded(items[i].inc))
  {
    var idx := NotExcludedPlaces(items, excluded);
  }

  /** The places NotExcluded keeps. */
  lemma {:induction false} NotExcludedPlaces(items: seq<EvaluatedItem>, excluded: string -> bool) returns (idx: seq<int>)
    ensures Picks(NotExcluded(items, excluded), items, idx)
    ensures forall i :: 0 <= i < |items| ==> (i in idx <==> !excluded(items[i].inc))
  {
    if items == [] {
      idx := [];
    } else {
      var tail := items[1..];
      var kept := !excluded(items[0].inc);
      var rest := NotExcluded(tail, excluded);
      var places := NotExcludedPlaces(tail, excluded);
      PicksCons(items[0], rest, tail, places, kept);
      assert items == [items[0]] + tail;
      assert NotExcluded(items, excluded) == if kept then [items[0]] + rest else rest;
      idx := Shifted(places, kept);
      forall i | 0 <= i < |items|
        ensures i in idx <==> !excluded(items[i].inc)
      {
        if i > 0 {
          assert items[i] == tail[i - 1];
        }
      }
    }
  }


  /** A parsed condition (ConditionExpression): its text and the properties it mentions. */
  datatype ConditionInfo = ConditionInfo(text: string, properties: seq<string>)

  /**
   * What SafeParseAndEvaluate returns: true for a missing or empty condition, false when
   * parsing or evaluation fails, otherwise the value.  `parse` stands for the condition
   * parser (None: it throws) and `evaluate` for TryEvaluateToBool, which sees the custom
   * base directory.
   */
  function ConditionHolds(condition: Option<string>, customBase: Option<string>,
                          parse: string -> Option<ConditionInfo>,
                          evaluate: (ConditionInfo, Option<string>) -> Option<bool>): (r: bool)
    ensures condition.None? || condition.value == [] ==> r
    ensures condition.Some? && condition.value != [] && parse(condition.value).None? ==> !r
    ensures condition.Some? && condition.value != [] && parse(condition.value).Some? ==>
      (r <==> evaluate(parse(condition.value).value, customBase) == Some(true))
  {
    if condition.None? || condition.value == [] then true
    else
      match parse(condition.value)
      case None => false
      case Some(ce) =>
        match evaluate(ce, customBase)
        case None => false
        case Some(v) => v
  }

  /** The part of MSBuildEvaluationContext that SafeParseAndEvaluate changes. */
  class EvaluationContext {
    var customFullDirectoryName: Option<string>

    constructor ()
      ensures customFullDirectoryName == None
    {
      customFullDirectoryName := None;
    }
  }

  class ProjectInfo {
    var evaluatedItemsIgnoringCondition: seq<EvaluatedItem>
    var evaluatedItems: seq<EvaluatedItem>
    var properties: map<string, PropertyInfo>
    var globIncludes: seq<GlobInfo>
    var targets: seq<Target>
    var targetsIgnoringCondition: seq<Target>
    var conditionedProperties: seq<string>
    var referencedProjects: seq<string>

    constructor ()
      ensures evaluatedItemsIgnoringCondition == [] && evaluatedItems == [] && properties == map[]
      ensures globIncludes == [] && targets == [] && targetsIgnoringCondition == []
      ensures conditionedProperties == [] && referencedProjects == []
    {
      evaluatedItemsIgnoringCondition := [];
      evaluatedItems := [];
      properties := map[];
      globIncludes := [];
      targets := [];
      targetsIgnoringCondition := [];
      conditionedProperties := [];
      referencedProjects := [];
    }

    /** StoreProperty: a redefinition overwrites Value and FinalValue and sets DefinedMultipleTimes. */
    method StoreProperty(name: string, value: string, finalValue: string)
      modifies this
      ensures properties == StoredProperty(old(properties), name, value, finalValue)
      ensures evaluatedItems == old(evaluatedItems) && evaluatedItemsIgnoringCondition == old(evaluatedItemsIgnoringCondition)
      ensures globIncludes == old(globIncludes) && targets == old(targets) && targetsIgnoringCondition == old(targetsIgnoringCondition)
      ensures conditionedProperties == old(conditionedProperties) && referencedProjects == old(referencedProjects)
    {
      var key := PropertyKey(name);
      if key in properties {
        var pi := properties[key];
        properties := properties[key := pi.(value := value, finalValue := finalValue, definedMultipleTimes := true)];
      } else {
        properties := properties[key := PropertyInfo(name, value, finalValue, false, false)];
      }
    }

    /**
     * ImportFile: when the file exists it becomes a referenced project and the properties
     * its evaluation produced (`imported`) are merged into this project's table, one by one.
     */
    method ImportFile(file: string, fileExists: bool, imported: map<string, PropertyInfo>)
      modifies this
      ensures !fileExists ==> properties == old(properties) && referencedProjects == old(referencedProjects)
      ensures fileExists ==> properties == MergedProperties(old(properties), imported)
      ensures fileExists ==> referencedProjects == old(referencedProjects) + [file]
      ensures evaluatedItems == old(evaluatedItems) && evaluatedItemsIgnoringCondition == old(evaluatedItemsIgnoringCondition)
      ensures globIncludes == old(globIncludes) && targets == old(targets) && targetsIgnoringCondition == old(targetsIgnoringCondition)
      ensures conditionedProperties == old(conditionedProperties)
    {
      if !fileExists {
        return;
      }
      referencedProjects := referencedProjects + [file];
      properties := MergeLoop(properties, imported);
    }

    /**
     * AddItem for one include of an item element.  `it` is the item CreateEvaluatedItem made
     * for the element, `excluded` the match of its Exclude regular expression (false when
     * there is none), `transformed` the result of ExecuteTransform (None: it failed),
     * `expanded` the files the wildcard expands to, and `metadata` the metadata of a new item
     * created for an include that differs from the element's.  Returns the added items.
     */
    method AddItem(itemName: string, it: EvaluatedItem, inc: string, excluded: string -> bool, trueCond: bool,
                   transformed: Option<seq<EvaluatedItem>>, expanded: seq<EvaluatedItem>, metadata: map<string, string>)
      returns (added: seq<EvaluatedItem>)
      modifies this
      ensures evaluatedItemsIgnoringCondition == old(evaluatedItemsIgnoringCondition) + added
      ensures evaluatedItems == old(evaluatedItems) + (if trueCond then added else [])
      ensures inc == [] ==> added == [] && globIncludes == old(globIncludes)
      ensures inc != [] && IsIncludeTransform(inc) ==>
        added == transformed.GetOr([]) && globIncludes == old(globIncludes)
      ensures inc != [] && !IsIncludeTransform(inc) && IsWildcardInclude(inc) ==>
        added == NotExcluded(expanded, excluded) &&
        globIncludes == old(globIncludes) + [GlobInfo(itemName, inc, SplitWildcardFilePath(inc), trueCond)]
      ensures inc != [] && !IsIncludeTransform(inc) && !IsWildcardInclude(inc) ==>
        globIncludes == old(globIncludes) &&
        (excluded(inc) ==> added == []) &&
        (!excluded(inc) ==>
          (|added| == 1 && added[0].inc == inc &&
           (inc == it.inc ==> added[0] == it) &&
           (inc != it.inc ==> fresh(added[0]) && added[0].name == itemName && added[0].metadata == metadata)))
      ensures properties == old(properties) && targets == old(targets) && targetsIgnoringCondition == old(targetsIgnoringCondition)
      ensures conditionedProperties == old(conditionedProperties) && referencedProjects == old(referencedProjects)
    {
      added := [];
      if inc == [] {
        return;
      }
      if IsIncludeTransform(inc) {
        if transformed.Some? {
          added := transformed.value;
        }
      } else if IsWildcardInclude(inc) {
        globIncludes := globIncludes + [GlobInfo(itemName, inc, SplitWildcardFilePath(inc), trueCond)];
        added := NotExcludedLoop(expanded, excluded);
      } else if inc != it.inc {
        if excluded(inc) {
          return;
        }
        var created := new EvaluatedItem(itemName, inc, metadata);
        added := [created];
      } else {
        if excluded(inc) {
          return;
        }
        added := [it];
      }
      evaluatedItemsIgnoringCondition := evaluatedItemsIgnoringCondition + added;
      if trueCond {
        evaluatedItems := evaluatedItems + added;
      }
    }

    /** RemoveEvaluatedItem: every item with this name and include goes; the others stay, in order. */
    method RemoveEvaluatedItem(itemName: string, inc: string, trueCond: bool)
      modifies this
      ensures evaluatedItems == if trueCond then Without(old(evaluatedItems), itemName, inc) else old(evaluatedItems)
      ensures evaluatedItemsIgnoringCondition == Without(old(evaluatedItemsIgnoringCondition), itemName, inc)
      ensures properties == old(properties) && globIncludes == old(globIncludes)
      ensures targets == old(targets) && targetsIgnoringCondition == old(targetsIgnoringCondition)
      ensures conditionedProperties == old(conditionedProperties) && referencedProjects == old(referencedProjects)
    {
      if trueCond {
        evaluatedItems := Without(evaluatedItems, itemName, inc);
      }
      evaluatedItemsIgnoringCondition := Without(evaluatedItemsIgnoringCondition, itemName, inc);
    }

    /**
     * UpdateEvaluatedItem: the metadata `overlay` of an Update element is written into every
     * item with this name and include, in the evaluated list only when the condition holds
     * and always in the list that ignores conditions.  No other item changes.
     */
    method UpdateEvaluatedItem(itemName: string, inc: string, trueCond: bool, overlay: map<string, string>)
      modifies set x | x in evaluatedItems + evaluatedItemsIgnoringCondition
      ensures forall x: EvaluatedItem :: Updated(x, itemName, inc, trueCond) ==> x.metadata == old(x.metadata) + overlay
      ensures forall x: EvaluatedItem :: Listed(x) && !Updated(x, itemName, inc, trueCond) ==> x.metadata == old(x.metadata)
    {
      if trueCond {
        UpdateMatching(evaluatedItems, itemName, inc, overlay);
      }
      UpdateMatching(evaluatedItemsIgnoringCondition, itemName, inc, overlay);
    }

    /** The item is in one of the two item lists. */
    ghost predicate Listed(x: EvaluatedItem)
      reads this
    {
      x in evaluatedItems || x in evaluatedItemsIgnoringCondition
    }

    /** The items UpdateEvaluatedItem writes to. */
    ghost predicate Updated(x: EvaluatedItem, itemName: string, inc: string, trueCond: bool)
      reads this
    {
      Matches(x, itemName, inc) && ((trueCond && x in evaluatedItems) || x in evaluatedItemsIgnoringCondition)
    }

    /** Evaluate (target): always kept in the list that ignores conditions, in Targets only when its condition holds. */
    method AddTarget(target: Target, conditionIsTrue: bool, evaluateString: string -> string)
      modifies this
      ensures targetsIgnoringCondition == old(targetsIgnoringCondition) + [EvaluatedTarget(target, evaluateString)]
      ensures targets == old(targets) + (if conditionIsTrue then [EvaluatedTarget(target, evaluateString)] else [])
      ensures evaluatedItems == old(evaluatedItems) && evaluatedItemsIgnoringCondition == old(evaluatedItemsIgnoringCondition)
      ensures properties == old(properties) && globIncludes == old(globIncludes)
      ensures conditionedProperties == old(conditionedProperties) && referencedProjects == old(referencedProjects)
    {
      var newTarget := EvaluatedTarget(target, evaluateString);
      targetsIgnoringCondition := targetsIgnoringCondition + [newTarget];
      if conditionIsTrue {
        targets := targets + [newTarget];
      }
    }

    /**
     * SafeParseAndEvaluate: sets the context's custom base directory while the condition is
     * evaluated and always clears it afterwards; when asked to, collects the properties the
     * parsed condition mentions.
     */
    method SafeParseAndEvaluate(context: EvaluationContext, condition: Option<string>, collectConditionedProperties: bool,
                                customEvalBasePath: Option<string>,
                                parse: string -> Option<ConditionInfo>,
                                evaluate: (ConditionInfo, Option<string>) -> Option<bool>)
      returns (r: bool)
      modifies this, context
      ensures r == ConditionHolds(condition, customEvalBasePath, parse, evaluate)
      ensures context.customFullDirectoryName == None
      ensures conditionedProperties == old(conditionedProperties) +
        (if collectConditionedProperties && condition.Some? && condition.value != [] && parse(condition.value).Some?
         then parse(condition.value).value.properties else [])
      ensures evaluatedItems == old(evaluatedItems) && evaluatedItemsIgnoringCondition == old(evaluatedItemsIgnoringCondition)
      ensures properties == old(properties) && globIncludes == old(globIncludes)
      ensures targets == old(targets) && targetsIgnoringCondition == old(targetsIgnoringCondition)
      ensures referencedProjects == old(referencedProjects)
    {
      if condition.None? || condition.value == [] {
        r := true;
      } else {
        context.customFullDirectoryName := customEvalBasePath;
        var ce := parse(condition.value);
        if ce.None? {
          r := false;
        } else {
          if collectConditionedProperties {
            conditionedProperties := conditionedProperties + ce.value.properties;
          }
          var value := evaluate(ce.value, context.customFullDirectoryName);
          r := value == Some(true);
        }
      }
      context.customFullDirectoryName := None;
    }
  }

  /** The foreach of ImportFile over the imported properties, on the importer's table. */
  method MergeLoop(importer: map<string, PropertyInfo>, imported: map<string, PropertyInfo>) returns (props: map<string, PropertyInfo>)
    ensures props == MergedProperties(importer, imported)
  {
    props := importer;
    var keys := imported.Keys;
    while keys != {}
      invariant keys <= imported.Keys
      invariant MergedSoFar(importer, imported, keys, props)
      decreases |keys|
    {
      var k :| k in keys;
      var p := imported[k].(isImported := true);
      if k in props {
        p := p.(definedMultipleTimes := true);
      }
      MergeStep(importer, imported, keys, props, k, p);
      props := props[k := p];
      keys := keys - {k};
    }
    MergedPointwise(importer, imported, props);
  }

  /** The importer's table once every imported property except those in `pending` has been copied into it. */
  ghost predicate MergedSoFar(importer: map<string, PropertyInfo>, imported: map<string, PropertyInfo>, pending: set<string>, props: map<string, PropertyInfo>)
  {
    (forall k :: k in props <==> k in importer || (k in imported && k !in pending)) &&
    (forall k :: k in imported && k !in pending ==> props[k] == Imported(imported[k], k in importer)) &&
    (forall k :: k in importer && (k !in imported || k in pending) ==> props[k] == importer[k])
  }

  /** One turn of the ImportFile loop. */
  lemma MergeStep(importer: map<string, PropertyInfo>, imported: map<string, PropertyInfo>, pending: set<string>,
                  props: map<string, PropertyInfo>, k: string, p: PropertyInfo)
    requires MergedSoFar(importer, imported, pending, props)
    requires k in imported && k in pending
    requires p == imported[k].(isImported := true, definedMultipleTimes := imported[k].definedMultipleTimes || k in props)
    ensures MergedSoFar(importer, imported, pending - {k}, props[k := p])
  {
    assert k in props <==> k in importer;
  }

  /** A table that agrees with the merge key by key is the merge. */
  lemma MergedPointwise(importer: map<string, PropertyInfo>, imported: map<string, PropertyInfo>, props: map<string, PropertyInfo>)
    requires MergedSoFar(importer, imported, {}, props)
    ensures props == MergedProperties(importer, imported)
  {
  }

  /** An imported property as it is stored in the importer's table. */
  function Imported(p: PropertyInfo, redefined: bool): (r: PropertyInfo)
    ensures r.isImported && r.name == p.name && r.value == p.value && r.finalValue == p.finalValue
    ensures r.definedMultipleTimes <==> p.definedMultipleTimes || redefined
  {
    p.(isImported := true, definedMultipleTimes := p.definedMultipleTimes || redefined)
  }

  /** The exclude filter of the wildcard branch of AddItem, as its foreach loop. */
  method NotExcludedLoop(items: seq<EvaluatedItem>, excluded: string -> bool) returns (r: seq<EvaluatedItem>)
    ensures r == NotExcluded(items, excluded)
  {
    r := [];
    var k := |items|;
    while k > 0
      invariant 0 <= k <= |items|
      invariant r == NotExcluded(items[k..], excluded)
    {
      k := k - 1;
      assert items[k..][1..] == items[k + 1..];
      if !excluded(items[k].inc) {
        r := [items[k]] + r;
      }
    }
  }

  /** Adding an item keeps every condition-true item in the list that ignores conditions. */
  lemma AddKeepsConsistent(evaluated: seq<EvaluatedItem>, ignoring: seq<EvaluatedItem>, added: seq<EvaluatedItem>, trueCond: bool)
    requires forall i :: 0 <= i < |evaluated| ==> evaluated[i] in ignoring
    ensures var e := evaluated + (if trueCond then added else []);
      forall i :: 0 <= i < |e| ==> e[i] in ignoring + added
  {
    var e := evaluated + (if trueCond then added else []);
    forall i | 0 <= i < |e|
      ensures e[i] in ignoring + added
    {
      if i < |evaluated| {
        assert e[i] == evaluated[i];
      } else {
        assert e[i] == added[i - |evaluated|];
      }
    }
  }

  /** A Remove keeps every evaluated item in the list that ignores conditions when its condition
      holds; when it does not, the Remove still takes the items out of that list but not out of
      the evaluated one, so the lists stay consistent only if no evaluated item matches. */
  lemma RemoveKeepsConsistent(evaluated: seq<EvaluatedItem>, ignoring: seq<EvaluatedItem>, name: string, inc: string, trueCond: bool)
    requires forall i :: 0 <= i < |evaluated| ==> evaluated[i] in ignoring
    ensures var e := if trueCond then Without(evaluated, name, inc) else evaluated;
      (forall i :: 0 <= i < |e| ==> e[i] in Without(ignoring, name, inc)) <==>
      (trueCond || forall i :: 0 <= i < |evaluated| ==> !Matches(evaluated[i], name, inc))
  {
    var w := Without(ignoring, name, inc);
    if !trueCond {
      if exists i :: 0 <= i < |evaluated| && Matches(evaluated[i], name, inc) {
        var i :| 0 <= i < |evaluated| && Matches(evaluated[i], name, inc);
        assert evaluated[i] !in w;
      }
    }
  }

}
