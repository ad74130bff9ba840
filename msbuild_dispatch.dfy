/**
 * The object walk of the MSBuild engine (EvaluateObjects and Evaluate (Choose)): which
 * evaluation each project object gets in the property pass and in the item pass.  The
 * evaluations themselves are recorded as events; a Choose evaluates the objects of its
 * first option whose condition holds, or of its Otherwise.  A condition is read against the
 * evaluation context, which the evaluations before it have changed (a PropertyGroup sets
 * properties, an Import merges those of the imported file): the model gives it the events before
 * it, and `holds(history, condition)` stands for SafeParseAndEvaluate in that context.
 */
module MSBuildDispatch {

  datatype MSBuildObject =
    | ItemGroup(name: string)
    | Target(name: string)
    | ItemDefinitionGroup(name: string)
    | PropertyGroup(name: string)
    | ImportGroup(name: string)
    | Import(name: string)
    | Choose(options: seq<ChooseOption>)
    | Other(name: string)

  /** A When (or the Otherwise) of a Choose, with its condition and its objects. */
  datatype ChooseOption = ChooseOption(isOtherwise: bool, condition: string, objects: seq<MSBuildObject>)

  /** One call of an Evaluate overload. */
  datatype Event =
    | EvalItemGroup(name: string)
    | EvalTarget(name: string)
    | EvalItemDefinitionGroup(name: string)
    | EvalPropertyGroup(name: string)
    | EvalImportGroup(name: string, evalItems: bool)
    | EvalImport(name: string, evalItems: bool)

  predicate IsItemEvent(e: Event)
  {
    e.EvalItemGroup? || e.EvalTarget? || e.EvalItemDefinitionGroup?
  }

  /** The evaluation of one object in the pass `evalItems`, the context being that left by `before`. */
  function ObjectTrace(ob: MSBuildObject, evalItems: bool, holds: (seq<Event>, string) -> bool, before: seq<Event>): seq<Event>
    decreases ob, 1
  {
    var own :=
      if evalItems then
        match ob
        case ItemGroup(l) => [EvalItemGroup(l)]
        case Target(l) => [EvalTarget(l)]
        case ItemDefinitionGroup(l) => [EvalItemDefinitionGroup(l)]
        case _ => []
      else if ob.PropertyGroup? then [EvalPropertyGroup(ob.name)]
      else [];
    own +
      match ob
      case ImportGroup(l) => [EvalImportGroup(l, evalItems)]
      case Import(l) => [EvalImport(l, evalItems)]
      case Choose(options) => ChooseTrace(options, evalItems, holds, before)
      case _ => []
  }

  /** EvaluateObjects: the objects in order, each in the context the ones before it left. */
  function Trace(objects: seq<MSBuildObject>, evalItems: bool, holds: (seq<Event>, string) -> bool, before: seq<Event>): seq<Event>
    decreases objects, 0
  {
    if objects == [] then []
    else
      var first := ObjectTrace(objects[0], evalItems, holds, before);
      first + Trace(objects[1..], evalItems, holds, before + first)
  }

  /** Evaluate (Choose): the first option that is the Otherwise or whose condition holds. */
  function ChooseTrace(options: seq<ChooseOption>, evalItems: bool, holds: (seq<Event>, string) -> bool, before: seq<Event>): seq<Event>
    decreases options
  {
    if options == [] then []
    else if options[0].isOtherwise || holds(before, options[0].condition) then Trace(options[0].objects, evalItems, holds, before)
    else ChooseTrace(options[1..], evalItems, holds, before)
  }

  /** The index of the option a Choose selects, |options| when there is none. */
  function SelectedOption(options: seq<ChooseOption>, holds: (seq<Event>, string) -> bool, before: seq<Event>): (r: nat)
    ensures r <= |options|
    ensures forall i :: 0 <= i < r ==> !options[i].isOtherwise && !holds(before, options[i].condition)
    ensures r < |options| ==> options[r].isOtherwise || holds(before, options[r].condition)
  {
    if options == [] then 0
    else if options[0].isOtherwise || holds(before, options[0].condition) then 0
    else 1 + SelectedOption(options[1..], holds, before)
  }

  /** A Choose evaluates exactly the objects of the selected option, and nothing when none is selected. */
  lemma {:induction false} ChooseSelects(options: seq<ChooseOption>, evalItems: bool, holds: (seq<Event>, string) -> bool, before: seq<Event>)
    ensures var s := SelectedOption(options, holds, before);
      ChooseTrace(options, evalItems, holds, before) == if s < |options| then Trace(options[s].objects, evalItems, holds, before) else []
  {
    if options != [] && !(options[0].isOtherwise || holds(before, options[0].condition)) {
      ChooseSelects(options[1..], evalItems, holds, before);
    }
  }

  /** The property pass evaluates no item group, target or item definition group. */
  lemma {:induction false} PropertyPassHasNoItems(objects: seq<MSBuildObject>, holds: (seq<Event>, string) -> bool, before: seq<Event>)
    ensures forall i :: 0 <= i < |Trace(objects, false, holds, before)| ==> !IsItemEvent(Trace(objects, false, holds, before)[i])
    decreases objects, 0
  {
    if objects != [] {
      var first := ObjectTrace(objects[0], false, holds, before);
      ObjectPropertyPass(objects[0], holds, before);
      PropertyPassHasNoItems(objects[1..], holds, before + first);
    }
  }

  lemma {:induction false} ObjectPropertyPass(ob: MSBuildObject, holds: (seq<Event>, string) -> bool, before: seq<Event>)
    ensures forall i :: 0 <= i < |ObjectTrace(ob, false, holds, before)| ==> !IsItemEvent(ObjectTrace(ob, false, holds, before)[i])
    decreases ob, 1
  {
    if ob.Choose? {
      ChoosePropertyPass(ob.options, holds, before);
    }
  }

  lemma {:induction false} ChoosePropertyPass(options: seq<ChooseOption>, holds: (seq<Event>, string) -> bool, before: seq<Event>)
    ensures forall i :: 0 <= i < |ChooseTrace(options, false, holds, before)| ==> !IsItemEvent(ChooseTrace(options, false, holds, before)[i])
    decreases options
  {
    if options != [] {
      if options[0].isOtherwise || holds(before, options[0].condition) {
        PropertyPassHasNoItems(options[0].objects, holds, before);
      } else {
        ChoosePropertyPass(options[1..], holds, before);
      }
    }
  }

  /** The item pass evaluates no property group. */
  lemma {:induction false} ItemPassHasNoProperties(objects: seq<MSBuildObject>, holds: (seq<Event>, string) -> bool, before: seq<Event>)
    ensures forall i :: 0 <= i < |Trace(objects, true, holds, before)| ==> !Trace(objects, true, holds, before)[i].EvalPropertyGroup?
    decreases objects, 0
  {
    if objects != [] {
      var first := ObjectTrace(objects[0], true, holds, before);
      ObjectItemPass(objects[0], holds, before);
      ItemPassHasNoProperties(objects[1..], holds, before + first);
    }
  }

  lemma {:induction false} ObjectItemPass(ob: MSBuildObject, holds: (seq<Event>, string) -> bool, before: seq<Event>)
    ensures forall i :: 0 <= i < |ObjectTrace(ob, true, holds, before)| ==> !ObjectTrace(ob, true, holds, before)[i].EvalPropertyGroup?
    decreases ob, 1
  {
    if ob.Choose? {
      ChooseItemPass(ob.options, holds, before);
    }
  }

  lemma {:induction false} ChooseItemPass(options: seq<ChooseOption>, holds: (seq<Event>, string) -> bool, before: seq<Event>)
    ensures forall i :: 0 <= i < |ChooseTrace(options, true, holds, before)| ==> !ChooseTrace(options, true, holds, before)[i].EvalPropertyGroup?
    decreases options
  {
    if options != [] {
      if options[0].isOtherwise || holds(before, options[0].condition) {
        ItemPassHasNoProperties(options[0].objects, holds, before);
      } else {
        ChooseItemPass(options[1..], holds, before);
      }
    }
  }

  /** The import an event evaluates, if any. */
  function ImportLabel(e: Event): seq<string>
  {
    if e.EvalImportGroup? || e.EvalImport? then [e.name] else []
  }

  /** The imports a trace evaluates, in order. */
  function ImportLabels(trace: seq<Event>): seq<string>
  {
    if trace == [] then [] else ImportLabel(trace[0]) + ImportLabels(trace[1..])
  }

  lemma {:induction false} ImportLabelsAppend(a: seq<Event>, b: seq<Event>)
    ensures ImportLabels(a + b) == ImportLabels(a) + ImportLabels(b)
  {
    if a == [] {
      assert a + b == b;
    } else {
      var ab := a + b;
      assert ab[0] == a[0] && ab[1..] == a[1..] + b;
      ImportLabelsAppend(a[1..], b);
      var x, y, z := ImportLabel(a[0]), ImportLabels(a[1..]), ImportLabels(b);
      assert ImportLabels(ab) == x + (y + z);
      assert ImportLabels(a) == x + y;
    }
  }

  /** The conditions read nothing the walk changes: each has one value whatever was evaluated before it. */
  ghost predicate ContextFree(holds: (seq<Event>, string) -> bool)
  {
    forall h: seq<Event>, c: string :: holds(h, c) == holds([], c)
  }

  /** Both passes walk into the same imports, in the same order, when no condition depends on
      what the walk has evaluated (ConditionSeesPropertyPass shows a project where one does). */
  lemma {:induction false} PassesImportAlike(objects: seq<MSBuildObject>, holds: (seq<Event>, string) -> bool,
                                             beforeProperties: seq<Event>, beforeItems: seq<Event>)
    requires ContextFree(holds)
    ensures ImportLabels(Trace(objects, true, holds, beforeItems)) == ImportLabels(Trace(objects, false, holds, beforeProperties))
    decreases objects, 0
  {
    if objects != [] {
      var ti, tp := ObjectTrace(objects[0], true, holds, beforeItems), ObjectTrace(objects[0], false, holds, beforeProperties);
      ObjectImportsAlike(objects[0], holds, beforeProperties, beforeItems);
      PassesImportAlike(objects[1..], holds, beforeProperties + tp, beforeItems + ti);
      ImportLabelsAppend(ti, Trace(objects[1..], true, holds, beforeItems + ti));
      ImportLabelsAppend(tp, Trace(objects[1..], false, holds, beforeProperties + tp));
    }
  }

  lemma {:induction false} ObjectImportsAlike(ob: MSBuildObject, holds: (seq<Event>, string) -> bool,
                                              beforeProperties: seq<Event>, beforeItems: seq<Event>)
    requires ContextFree(holds) || !ob.Choose?
    ensures ImportLabels(ObjectTrace(ob, true, holds, beforeItems)) == ImportLabels(ObjectTrace(ob, false, holds, beforeProperties))
    decreases ob, 1
  {
    var rest :=
      match ob
      case ImportGroup(l) => [EvalImportGroup(l, true)]
      case Import(l) => [EvalImport(l, true)]
      case Choose(options) => ChooseTrace(options, true, holds, beforeItems)
      case _ => [];
    var rest' :=
      match ob
      case ImportGroup(l) => [EvalImportGroup(l, false)]
      case Import(l) => [EvalImport(l, false)]
      case Choose(options) => ChooseTrace(options, false, holds, beforeProperties)
      case _ => [];
    var own := if ob.ItemGroup? then [EvalItemGroup(ob.name)] else if ob.Target? then [EvalTarget(ob.name)]
               else if ob.ItemDefinitionGroup? then [EvalItemDefinitionGroup(ob.name)] else [];
    var own' := if ob.PropertyGroup? then [EvalPropertyGroup(ob.name)] else [];
    assert ObjectTrace(ob, true, holds, beforeItems) == own + rest;
    assert ObjectTrace(ob, false, holds, beforeProperties) == own' + rest';
    ImportLabelsAppend(own, rest);
    ImportLabelsAppend(own', rest');
    assert ImportLabels(own) == [] && ImportLabels(own') == [];
    if ob.Choose? {
      ChooseImportsAlike(ob.options, holds, beforeProperties, beforeItems);
    }
  }

  lemma {:induction false} ChooseImportsAlike(options: seq<ChooseOption>, holds: (seq<Event>, string) -> bool,
                                              beforeProperties: seq<Event>, beforeItems: seq<Event>)
    requires ContextFree(holds)
    ensures ImportLabels(ChooseTrace(options, true, holds, beforeItems)) == ImportLabels(ChooseTrace(options, false, holds, beforeProperties))
    decreases options
  {
    if options != [] {
      assert holds(beforeItems, options[0].condition) == holds(beforeProperties, options[0].condition) by {
        assert holds(beforeItems, options[0].condition) == holds([], options[0].condition);
        assert holds(beforeProperties, options[0].condition) == holds([], options[0].condition);
      }
      if options[0].isOtherwise || holds(beforeItems, options[0].condition) {
        PassesImportAlike(options[0].objects, holds, beforeProperties, beforeItems);
      } else {
        ChooseImportsAlike(options[1..], holds, beforeProperties, beforeItems);
      }
    }
  }

  /** Without a Choose the two passes walk into the same imports whatever the conditions read. */
  lemma {:induction false} ChooseFreeImportsAlike(objects: seq<MSBuildObject>, holds: (seq<Event>, string) -> bool,
                                                  beforeProperties: seq<Event>, beforeItems: seq<Event>)
    requires forall i :: 0 <= i < |objects| ==> !objects[i].Choose?
    ensures ImportLabels(Trace(objects, true, holds, beforeItems)) == ImportLabels(Trace(objects, false, holds, beforeProperties))
    decreases objects
  {
    if objects != [] {
      var ti, tp := ObjectTrace(objects[0], true, holds, beforeItems), ObjectTrace(objects[0], false, holds, beforeProperties);
      ObjectImportsAlike(objects[0], holds, beforeProperties, beforeItems);
      ChooseFreeImportsAlike(objects[1..], holds, beforeProperties + tp, beforeItems + ti);
      ImportLabelsAppend(ti, Trace(objects[1..], true, holds, beforeItems + ti));
      ImportLabelsAppend(tp, Trace(objects[1..], false, holds, beforeProperties + tp));
    }
  }

  /** A Choose before the PropertyGroup its condition reads: the property pass does not see the
      property yet and skips the import, the item pass, run after every property is set, walks
      into it. */
  lemma ConditionSeesPropertyPass()
    ensures var objects := [Choose([ChooseOption(false, "'$(A)'=='1'", [Import("x")])]), PropertyGroup("A")];
      var holds := (h: seq<Event>, c: string) => EvalPropertyGroup("A") in h;
      var properties := Trace(objects, false, holds, []);
      ImportLabels(properties) == [] && ImportLabels(Trace(objects, true, holds, properties)) == ["x"]
  {
    var when := ChooseOption(false, "'$(A)'=='1'", [Import("x")]);
    var objects := [Choose([when]), PropertyGroup("A")];
    var holds := (h: seq<Event>, c: string) => EvalPropertyGroup("A") in h;
    assert objects[1..][1..] == [];
    assert [when][1..] == [];
    var properties := Trace(objects, false, holds, []);
    assert !holds([], when.condition);
    assert ChooseTrace([when], false, holds, []) == [];
    assert ObjectTrace(objects[0], false, holds, []) == [];
    assert ObjectTrace(objects[1], false, holds, []) == [EvalPropertyGroup("A")];
    assert Trace(objects[1..], false, holds, []) == [EvalPropertyGroup("A")];
    assert properties == [EvalPropertyGroup("A")];
    assert holds(properties, when.condition);
    assert Trace([Import("x")], true, holds, properties) == [EvalImport("x", true)];
    assert ChooseTrace([when], true, holds, properties) == [EvalImport("x", true)];
    assert ObjectTrace(objects[0], true, holds, properties) == [EvalImport("x", true)];
    var after := properties + [EvalImport("x", true)];
    assert ObjectTrace(objects[1], true, holds, after) == [];
    assert Trace(objects[1..], true, holds, after) == [];
    assert Trace(objects, true, holds, properties) == [EvalImport("x", true)];
    assert ImportLabels([EvalImport("x", true)]) == ["x"];
  }

  /** EvaluateObjects as the source writes it: a foreach over the objects dispatching on their
      kind; `before` stands for the context it is called in, and each object sees the context
      the ones before it left. */
  method EvaluateObjects(objects: seq<MSBuildObject>, evalItems: bool, holds: (seq<Event>, string) -> bool, before: seq<Event>)
    returns (trace: seq<Event>)
    ensures trace == Trace(objects, evalItems, holds, before)
    decreases objects, 1
  {
    trace := [];
    var k := 0;
    assert before + trace == before && objects[k..] == objects;
    while k < |objects|
      invariant 0 <= k <= |objects|
      invariant trace + Trace(objects[k..], evalItems, holds, before + trace) == Trace(objects, evalItems, holds, before)
    {
      assert objects[k..][1..] == objects[k + 1..];
      var step := EvaluateObject(objects[k], evalItems, holds, before + trace);
      ghost var later := Trace(objects[k + 1..], evalItems, holds, before + trace + step);
      assert Trace(objects[k..], evalItems, holds, before + trace) == step + later;
      assert (trace + step) + later == trace + (step + later);
      assert before + trace + step == before + (trace + step);
      trace := trace + step;
      k := k + 1;
    }
  }

  /** One turn of the foreach of EvaluateObjects: the Evaluate overload for the object's kind. */
  method EvaluateObject(ob: MSBuildObject, evalItems: bool, holds: (seq<Event>, string) -> bool, before: seq<Event>)
    returns (step: seq<Event>)
    ensures step == ObjectTrace(ob, evalItems, holds, before)
    decreases ob, 2
  {
    step := [];
    if evalItems {
      if ob.ItemGroup? {
        step := [EvalItemGroup(ob.name)];
      } else if ob.Target? {
        step := [EvalTarget(ob.name)];
      } else if ob.ItemDefinitionGroup? {
        step := [EvalItemDefinitionGroup(ob.name)];
      }
    } else {
      if ob.PropertyGroup? {
        step := [EvalPropertyGroup(ob.name)];
      }
    }
    if ob.ImportGroup? {
      step := step + [EvalImportGroup(ob.name, evalItems)];
    } else if ob.Import? {
      step := step + [EvalImport(ob.name, evalItems)];
    } else if ob.Choose? {
      var sub := EvaluateChoose(ob.options, evalItems, holds, before);
      step := step + sub;
    }
  }

  /** Evaluate (Choose): the foreach over the options with its `break`. */
  method EvaluateChoose(options: seq<ChooseOption>, evalItems: bool, holds: (seq<Event>, string) -> bool, before: seq<Event>)
    returns (trace: seq<Event>)
    ensures trace == ChooseTrace(options, evalItems, holds, before)
    decreases options, 0
  {
    var k := 0;
    while k < |options|
      invariant 0 <= k <= |options|
      invariant ChooseTrace(options[k..], evalItems, holds, before) == ChooseTrace(options, evalItems, holds, before)
    {
      var op := options[k];
      assert options[k..][1..] == options[k + 1..];
      if op.isOtherwise || holds(before, op.condition) {
        trace := EvaluateObjects(op.objects, evalItems, holds, before);
        return;
      }
      k := k + 1;
    }
    trace := [];
  }

  /** The two passes of Evaluate (ProjectInfo): the property pass over the objects, then, unless
      only properties are wanted, the item pass in the context the property pass left. */
  method EvaluatePasses(objects: seq<MSBuildObject>, onlyEvaluateProperties: bool, holds: (seq<Event>, string) -> bool)
    returns (propertyTrace: seq<Event>, itemTrace: seq<Event>)
    ensures propertyTrace == Trace(objects, false, holds, [])
    ensures itemTrace == if onlyEvaluateProperties then [] else Trace(objects, true, holds, propertyTrace)
  {
    propertyTrace := EvaluateObjects(objects, false, holds, []);
    itemTrace := [];
    if !onlyEvaluateProperties {
      itemTrace := EvaluateObjects(objects, true, holds, propertyTrace);
    }
  }
}
