// The production renderer of loom/src/render.jsx, which walks the tree on its own, and its
// agreement with the validator node for node.
module LoomRender {
  import opened Options
  import opened Seqs
  import opened LoomProps
  import opened LoomRegistry
  import opened LoomValidate
  import opened LoomRepair

  // What a node comes to: nothing, a text or number, or the call of a component's render function
  // with its props and children (null when it takes none). A call that threw draws nothing.
  datatype Slots = NoSlots | Slots(items: seq<Rendered>)

  datatype Rendered =
    | Nothing
    | Text(v: Value)
    | Drawn(component: string, props: map<string, Value>, children: Slots, threw: bool)

  datatype Report =
    | ReportUnknown(typ: Value)
    | ReportUnexpected(parent: string, child: string)
    | ReportDisallowed(parent: string, child: string)
    | ReportProps(component: string, errors: seq<PropError>)
    | ReportThrew(component: string)

  // Which calls of a component's render function throw.
  type Throws = (string, map<string, Value>, Slots) -> bool

  function RenderNode(env: Env, reg: Registry, throws: Throws, node: Value, parent: Option<Component>): (Rendered, seq<Report>)
    decreases node, 1
  {
    if node.Undefined? || node.Null? then (Nothing, [])
    else if node.Str? || node.Num? then (Text(node), [])
    else if !node.Obj? || !Truthy(Field(node.fields, "type")) then (Nothing, [])
    else
      var typ := Field(node.fields, "type");
      if !(typ.Str? && typ.s in reg.defs) then (Nothing, [ReportUnknown(typ)])
      else
        var def := reg.defs[typ.s];
        if parent.Some? && !ChildAllowed(parent.value, typ.s) then
          if parent.value.children.NoChildren? then (Nothing, [ReportUnexpected(parent.value.name, typ.s)])
          else (Nothing, [ReportDisallowed(parent.value.name, typ.s)])
        else
          var props := KeptProps(env, def.props, PropsOf(node));
          var errors := PropErrors(env, def.props, PropsOf(node));
          var bad := if |errors| > 0 then [ReportProps(typ.s, errors)] else [];
          if AnyFatal(env, errors) then (Nothing, bad)
          else
            var list := Field(node.fields, "children");
            if TakesChildren(def) && list.Arr? then
              var (children, reports) := RenderChildren(env, reg, throws, list.items, def);
              Call(throws, typ.s, props, Slots(children), bad + reports)
            else Call(throws, typ.s, props, NoSlots, bad)
  }

  function RenderChildren(env: Env, reg: Registry, throws: Throws, nodes: seq<Value>, def: Component): (seq<Rendered>, seq<Report>)
    decreases nodes, 0
  {
    if nodes == [] then ([], [])
    else
      var (first, r1) := RenderNode(env, reg, throws, nodes[0], Some(def));
      var (rest, r2) := RenderChildren(env, reg, throws, nodes[1..], def);
      ([first] + rest, r1 + r2)
  }

  function Call(throws: Throws, component: string, props: map<string, Value>, children: Slots, reports: seq<Report>)
    : (Rendered, seq<Report>)
  {
    var threw := throws(component, props, children);
    (Drawn(component, props, children, threw), if threw then reports + [ReportThrew(component)] else reports)
  }

  // ---- The same nodes.

  // The tree for whose nodes the calls of a rendering were made, whether they threw or not, without
  // the places where there was nothing to call.
  function AsTree(r: Rendered): Value
    decreases r, 1
  {
    match r
    case Nothing => Null
    case Text(v) => v
    case Drawn(component, props, children, _) =>
      Build(component, props, if children.Slots? then Some(AsTrees(children.items)) else None)
  }

  function AsTrees(rs: seq<Rendered>): seq<Value>
    decreases rs, 0
  {
    if rs == [] then []
    else
      var first := AsTree(rs[0]);
      (if first == Null then [] else [first]) + AsTrees(rs[1..])
  }

  // The renderer makes exactly the calls for the repaired tree: the same components with the same
  // props and children, empty places aside.
  lemma {:induction false} CallsForTheRepairedTree(env: Env, reg: Registry, throws: Throws, node: Value, parent: Option<Component>)
    requires ValidRegistry(reg)
    ensures AsTree(RenderNode(env, reg, throws, node, parent).0) == Repair(env, reg, node, parent)
    decreases node, 1
  {
    var verdict := Judge(env, reg, node, parent);
    if verdict.Known? && !AnyFatal(env, verdict.errors) && Kids(node, verdict.def).Some? {
      CallsForTheRepairedTrees(env, reg, throws, Kids(node, verdict.def).value, verdict.def);
    }
  }

  lemma {:induction false} CallsForTheRepairedTrees(env: Env, reg: Registry, throws: Throws, nodes: seq<Value>, def: Component)
    requires ValidRegistry(reg)
    ensures AsTrees(RenderChildren(env, reg, throws, nodes, def).0) == RepairAll(env, reg, nodes, def)
    decreases nodes, 0
  {
    if nodes != [] {
      CallsForTheRepairedTree(env, reg, throws, nodes[0], Some(def));
      CallsForTheRepairedTrees(env, reg, throws, nodes[1..], def);
      var first, rest := RenderNode(env, reg, throws, nodes[0], Some(def)).0, RenderChildren(env, reg, throws, nodes[1..], def).0;
      assert ([first] + rest)[1..] == rest;
    }
  }

  // Rendering a valid tree and rendering its repaired form call the same components with the same
  // props and, empty places aside, the same children, whatever throws, exactly when the tree leans on
  // no default that needs coercion.
  lemma RepairIsInvisibleIff(env: Env, reg: Registry, throws: Throws, throws': Throws, tree: Value)
    requires Sound(env, reg) && Errors(env, reg, tree, [], None) == []
    ensures AsTree(RenderNode(env, reg, throws, Repair(env, reg, tree, None), None).0)
         == AsTree(RenderNode(env, reg, throws', tree, None).0)
       <==> !Leans(env, reg, tree, None)
  {
    ValidSettlesIff(env, reg, tree);
    CallsForTheRepairedTree(env, reg, throws, Repair(env, reg, tree, None), None);
    CallsForTheRepairedTree(env, reg, throws', tree, None);
  }

  // ---- Empty places too.

  // No call was given a child that is nothing.
  predicate NoGaps(r: Rendered)
    decreases r, 1
  {
    r.Drawn? && r.children.Slots? ==> AllThere(r.children.items)
  }

  predicate AllThere(rs: seq<Rendered>)
    decreases rs, 0
  {
    rs == [] || (rs[0] != Nothing && NoGaps(rs[0]) && AllThere(rs[1..]))
  }

  // What a rendering always is: its texts are texts or numbers, and exactly those calls threw that throw.
  ghost predicate Genuine(throws: Throws, r: Rendered)
    decreases r, 1
  {
    match r
    case Nothing => true
    case Text(v) => v.Str? || v.Num?
    case Drawn(component, props, children, threw) =>
      threw == throws(component, props, children) && (children.Slots? ==> AllGenuine(throws, children.items))
  }

  ghost predicate AllGenuine(throws: Throws, rs: seq<Rendered>)
    decreases rs, 0
  {
    rs == [] || (Genuine(throws, rs[0]) && AllGenuine(throws, rs[1..]))
  }

  lemma {:induction false} RenderingIsGenuine(env: Env, reg: Registry, throws: Throws, node: Value, parent: Option<Component>)
    ensures Genuine(throws, RenderNode(env, reg, throws, node, parent).0)
    decreases node, 1
  {
    var verdict := Judge(env, reg, node, parent);
    if verdict.Known? && !AnyFatal(env, verdict.errors) && Kids(node, verdict.def).Some? {
      RenderingsAreGenuine(env, reg, throws, Kids(node, verdict.def).value, verdict.def);
    }
  }

  lemma {:induction false} RenderingsAreGenuine(env: Env, reg: Registry, throws: Throws, nodes: seq<Value>, def: Component)
    ensures AllGenuine(throws, RenderChildren(env, reg, throws, nodes, def).0)
    decreases nodes, 0
  {
    if nodes != [] {
      RenderingIsGenuine(env, reg, throws, nodes[0], Some(def));
      RenderingsAreGenuine(env, reg, throws, nodes[1..], def);
      var first, rest := RenderNode(env, reg, throws, nodes[0], Some(def)).0, RenderChildren(env, reg, throws, nodes[1..], def).0;
      assert ([first] + rest)[1..] == rest;
    }
  }

  // Without empty places a rendering is determined by the tree of its calls.
  lemma {:induction false} AsTreeInjective(throws: Throws, a: Rendered, b: Rendered)
    requires Genuine(throws, a) && Genuine(throws, b) && NoGaps(a) && NoGaps(b) && AsTree(a) == AsTree(b)
    ensures a == b
    decreases a, 1
  {
    if a.Drawn? && b.Drawn? {
      BuildsDiffer(a.component, b.component, a.props, b.props,
                   if a.children.Slots? then Some(AsTrees(a.children.items)) else None,
                   if b.children.Slots? then Some(AsTrees(b.children.items)) else None);
      if a.children.Slots? {
        AsTreesInjective(throws, a.children.items, b.children.items);
      }
    }
  }

  lemma {:induction false} AsTreesInjective(throws: Throws, a: seq<Rendered>, b: seq<Rendered>)
    requires AllGenuine(throws, a) && AllGenuine(throws, b) && AllThere(a) && AllThere(b) && AsTrees(a) == AsTrees(b)
    ensures a == b
    decreases a, 0
  {
    ThereIsATree(a);
    ThereIsATree(b);
    if a != [] {
      SameCons(AsTree(a[0]), AsTrees(a[1..]), AsTree(b[0]), AsTrees(b[1..]));
      AsTreeInjective(throws, a[0], b[0]);
      AsTreesInjective(throws, a[1..], b[1..]);
      assert a == [a[0]] + a[1..] && b == [b[0]] + b[1..];
    }
  }

  lemma ThereIsATree(rs: seq<Rendered>)
    requires AllThere(rs) && (rs != [] && rs[0].Text? ==> rs[0].v != Null)
    ensures rs == [] <==> AsTrees(rs) == []
    ensures rs != [] ==> AsTrees(rs) == [AsTree(rs[0])] + AsTrees(rs[1..])
  {
  }

  // Some kept node has a child that is null or undefined.
  predicate HasEmptyPlace(env: Env, reg: Registry, node: Value, parent: Option<Component>)
    decreases node, 1
  {
    match Judge(env, reg, node, parent)
    case Known(def, _, errors) =>
      !AnyFatal(env, errors) &&
      var kids := Kids(node, def);
      kids.Some? && AnyEmptyPlace(env, reg, kids.value, def)
    case _ => false
  }

  predicate AnyEmptyPlace(env: Env, reg: Registry, nodes: seq<Value>, def: Component)
    decreases nodes, 0
  {
    nodes != [] &&
    (Missing(nodes[0]) || HasEmptyPlace(env, reg, nodes[0], Some(def)) || AnyEmptyPlace(env, reg, nodes[1..], def))
  }

  // In the rendering of a valid tree the empty places are those of the tree.
  lemma {:induction false} NoGapsIff(env: Env, reg: Registry, throws: Throws, node: Value, path: seq<nat>, parent: Option<Component>)
    requires Lawful(env) && ValidRegistry(reg) && Errors(env, reg, node, path, parent) == []
    ensures var r := RenderNode(env, reg, throws, node, parent).0;
      (r == Nothing <==> Missing(node)) && (NoGaps(r) <==> !HasEmptyPlace(env, reg, node, parent))
    decreases node, 1
  {
    var verdict := Judge(env, reg, node, parent);
    if verdict.Known? {
      assert |InvalidProps(path, verdict.def.name, verdict.errors)| == 0;
      if Kids(node, verdict.def).Some? {
        AllThereIff(env, reg, throws, Kids(node, verdict.def).value, path, 0, verdict.def);
      }
    }
  }

  lemma {:induction false} AllThereIff(env: Env, reg: Registry, throws: Throws, nodes: seq<Value>, path: seq<nat>, k: nat, def: Component)
    requires Lawful(env) && ValidRegistry(reg) && ErrorsAll(env, reg, nodes, path, k, def) == []
    ensures AllThere(RenderChildren(env, reg, throws, nodes, def).0) <==> !AnyEmptyPlace(env, reg, nodes, def)
    decreases nodes, 0
  {
    if nodes != [] {
      NoGapsIff(env, reg, throws, nodes[0], path + [k], Some(def));
      AllThereIff(env, reg, throws, nodes[1..], path, k + 1, def);
      var first, rest := RenderNode(env, reg, throws, nodes[0], Some(def)).0, RenderChildren(env, reg, throws, nodes[1..], def).0;
      assert ([first] + rest)[1..] == rest;
    }
  }

  lemma {:induction false} RepairedHasNoEmptyPlace(env: Env, reg: Registry, node: Value, parent: Option<Component>)
    requires ValidRegistry(reg)
    ensures !HasEmptyPlace(env, reg, Repair(env, reg, node, parent), parent)
    decreases node, 1
  {
    match Judge(env, reg, node, parent)
    case Known(def, props, errors) =>
      if !AnyFatal(env, errors) {
        var kids := Kids(node, def);
        JudgeBuilt(env, reg, def, props, if kids.Some? then Some(RepairAll(env, reg, kids.value, def)) else None, parent);
        if kids.Some? {
          RepairedHaveNoEmptyPlace(env, reg, kids.value, def);
        }
      }
    case _ =>
  }

  lemma {:induction false} RepairedHaveNoEmptyPlace(env: Env, reg: Registry, nodes: seq<Value>, def: Component)
    requires ValidRegistry(reg)
    ensures !AnyEmptyPlace(env, reg, RepairAll(env, reg, nodes, def), def)
    decreases nodes, 0
  {
    if nodes != [] {
      var first := Repair(env, reg, nodes[0], Some(def));
      var rest := RepairAll(env, reg, nodes[1..], def);
      RepairedHasNoEmptyPlace(env, reg, nodes[0], Some(def));
      RepairedHaveNoEmptyPlace(env, reg, nodes[1..], def);
      assert ([first] + rest)[1..] == rest && [] + rest == rest;
    }
  }

  // Rendering a repaired valid tree leaves no empty place.
  lemma RepairLeavesNoGaps(env: Env, reg: Registry, throws: Throws, tree: Value)
    requires Sound(env, reg) && Errors(env, reg, tree, [], None) == []
    ensures NoGaps(RenderNode(env, reg, throws, Repair(env, reg, tree, None), None).0)
  {
    ValidIsNotFlawed(env, reg, tree, [], None);
    if Starved(env, reg, tree, None) {
      StarvedIsFlawed(env, reg, tree, None);
    }
    OnePassNode(env, reg, tree, [], None);
    NoGapsIff(env, reg, throws, Repair(env, reg, tree, None), [], None);
    RepairedHasNoEmptyPlace(env, reg, tree, None);
  }

  // The rendering of a valid tree and that of its repaired form are the same, down to the places of
  // the children, exactly when the tree leans on no default that needs coercion and has no empty place.
  lemma RenderingIsUnchangedIff(env: Env, reg: Registry, throws: Throws, tree: Value)
    requires Sound(env, reg) && Errors(env, reg, tree, [], None) == []
    ensures RenderNode(env, reg, throws, Repair(env, reg, tree, None), None).0 == RenderNode(env, reg, throws, tree, None).0
       <==> !Leans(env, reg, tree, None) && !HasEmptyPlace(env, reg, tree, None)
  {
    var repaired := Repair(env, reg, tree, None);
    RepairIsInvisibleIff(env, reg, throws, throws, tree);
    RepairLeavesNoGaps(env, reg, throws, tree);
    NoGapsIff(env, reg, throws, tree, [], None);
    if !Leans(env, reg, tree, None) && !HasEmptyPlace(env, reg, tree, None) {
      RenderingIsGenuine(env, reg, throws, repaired, None);
      RenderingIsGenuine(env, reg, throws, tree, None);
      AsTreeInjective(throws, RenderNode(env, reg, throws, repaired, None).0, RenderNode(env, reg, throws, tree, None).0);
    }
  }

  // A valid tree that leaves a number to its default "5" is called with the text, its repaired form
  // with the number.
  lemma LeaningShows(env: Env, throws: Throws)
    requires Lawful(env) && env.toNumber(Str("5")) == Finite(5.0)
    ensures
      var reg, tree := Single(TEXT_DEFAULT), Node(map[]);
      && Sound(env, reg) && Errors(env, reg, tree, [], None) == []
      && AsTree(RenderNode(env, reg, throws, tree, None).0) == Node(map["n" := Str("5")])
      && AsTree(RenderNode(env, reg, throws, Repair(env, reg, tree, None), None).0) == Node(map["n" := Num(Finite(5.0))])
  {
    var reg, tree := Single(TEXT_DEFAULT), Node(map[]);
    SingleIsSound(env, TEXT_DEFAULT);
    SingleRepair(env, TEXT_DEFAULT, map[]);
    DefaultCoercedThird(env);
    CallsForTheRepairedTree(env, reg, throws, tree, None);
    CallsForTheRepairedTree(env, reg, throws, Repair(env, reg, tree, None), None);
  }

  const BOX := Component("C", [], AnyChild)
  const BOX_REGISTRY := Registry(["C"], map["C" := BOX])

  // A null child of a valid tree is a place of its own until the repair drops it.
  lemma EmptyPlaceShows(env: Env, throws: Throws)
    requires Lawful(env)
    ensures
      var tree := Build("C", map[], Some([Null, Str("x")]));
      var repaired := Repair(env, BOX_REGISTRY, tree, None);
      var before, after := RenderNode(env, BOX_REGISTRY, throws, tree, None).0, RenderNode(env, BOX_REGISTRY, throws, repaired, None).0;
      && Errors(env, BOX_REGISTRY, tree, [], None) == [] && repaired == Build("C", map[], Some([Str("x")]))
      && before.Drawn? && before.children == Slots([Nothing, Text(Str("x"))])
      && after.Drawn? && after.children == Slots([Text(Str("x"))])
  {
    BoxOf(env, throws, [Null, Str("x")]);
    BoxOf(env, throws, [Str("x")]);
    TwoPlaces(env, throws);
  }

  lemma BoxOf(env: Env, throws: Throws, kids: seq<Value>)
    ensures
      var v := Build("C", map[], Some(kids));
      && Repair(env, BOX_REGISTRY, v, None) == Build("C", map[], Some(RepairAll(env, BOX_REGISTRY, kids, BOX)))
      && Errors(env, BOX_REGISTRY, v, [], None) == ErrorsAll(env, BOX_REGISTRY, kids, [], 0, BOX)
      && RenderNode(env, BOX_REGISTRY, throws, v, None).0.Drawn?
      && RenderNode(env, BOX_REGISTRY, throws, v, None).0.children == Slots(RenderChildren(env, BOX_REGISTRY, throws, kids, BOX).0)
  {
    JudgeBuilt(env, BOX_REGISTRY, BOX, map[], Some(kids), None);
    assert InvalidProps([], "C", []) == [];
  }

  lemma TwoPlaces(env: Env, throws: Throws)
    ensures RepairAll(env, BOX_REGISTRY, [Null, Str("x")], BOX) == [Str("x")]
    ensures ErrorsAll(env, BOX_REGISTRY, [Null, Str("x")], [], 0, BOX) == []
    ensures RenderChildren(env, BOX_REGISTRY, throws, [Str("x")], BOX).0 == [Text(Str("x"))]
    ensures RenderChildren(env, BOX_REGISTRY, throws, [Null, Str("x")], BOX).0 == [Nothing, Text(Str("x"))]
  {
    assert [Null, Str("x")][1..] == [Str("x")] && [Str("x")][1..] == [];
    assert RepairAll(env, BOX_REGISTRY, [Str("x")], BOX) == [Str("x")];
    assert ErrorsAll(env, BOX_REGISTRY, [Str("x")], [], 1, BOX) == [];
  }

  // ---- The same errors.

  // The first two are prop errors of one node.
  predicate Joins(errors: seq<TreeError>) {
    |errors| > 1 && SameRun(errors[0], errors[1])
  }

  predicate SameRun(a: TreeError, b: TreeError) {
    a.InvalidProp? && b.InvalidProp? && a.path == b.path
  }

  function Own(e: TreeError): (r: seq<Report>)
    ensures e.InvalidProp? ==> r != [] && r[0].ReportProps?
  {
    match e
    case Malformed(_) => []
    case UnknownComponent(_, typ) => [ReportUnknown(typ)]
    case DisallowedChild(_, p, c) => [ReportDisallowed(p, c)]
    case InvalidProp(_, component, e) => [ReportProps(component, [e])]
  }

  // The validator's errors as the renderer words them: no word about malformed nodes, and the
  // prop errors of one node in one report.
  function Grouped(errors: seq<TreeError>): (r: seq<Report>)
    ensures errors != [] && errors[0].InvalidProp? ==> r != [] && r[0].ReportProps?
  {
    if errors == [] then []
    else
      var rest := Grouped(errors[1..]);
      if Joins(errors) then [ReportProps(errors[0].component, [errors[0].detail] + rest[0].errors)] + rest[1..]
      else Own(errors[0]) + rest
  }

  lemma TailConcat<T>(x: seq<T>, y: seq<T>)
    requires x != []
    ensures (x + y)[0] == x[0] && (x + y)[1..] == x[1..] + y
  {
  }

  lemma {:induction false} GroupedConcat(a: seq<TreeError>, b: seq<TreeError>)
    requires a == [] || b == [] || !SameRun(a[|a| - 1], b[0])
    ensures Grouped(a + b) == Grouped(a) + Grouped(b)
  {
    if a == [] {
      assert a + b == b;
    } else {
      var x, y := Grouped(a[1..]), Grouped(b);
      TailConcat(a, b);
      GroupedConcat(a[1..], b);
      assert Joins(a + b) == Joins(a);
      if Joins(a) {
        TailConcat(x, y);
        Assoc([ReportProps(a[0].component, [a[0].detail] + x[0].errors)], x[1..], y);
      } else {
        Assoc(Own(a[0]), x, y);
      }
    }
  }

  lemma {:induction false} GroupedRun(path: seq<nat>, component: string, errors: seq<PropError>)
    ensures Grouped(InvalidProps(path, component, errors)) == if errors == [] then [] else [ReportProps(component, errors)]
  {
    if errors != [] {
      var all := InvalidProps(path, component, errors);
      assert all[1..] == InvalidProps(path, component, errors[1..]);
      GroupedRun(path, component, errors[1..]);
      assert [errors[0]] + errors[1..] == errors;
      if |errors| > 1 {
        assert SameRun(all[0], all[1]);
        assert [ReportProps(component, errors[1..])][1..] == [];
      } else {
        assert [errors[0]] == errors;
      }
    }
  }

  // The errors below a node are addressed below it, those of its k-th child below path + [k].
  ghost predicate Below(path: seq<nat>, errors: seq<TreeError>) {
    forall i :: 0 <= i < |errors| ==> path <= errors[i].path
  }

  ghost predicate BelowFrom(path: seq<nat>, k: nat, errors: seq<TreeError>) {
    forall i :: 0 <= i < |errors| ==>
      path <= errors[i].path && |errors[i].path| > |path| && errors[i].path[|path|] >= k
  }

  lemma {:induction false} ErrorsBelow(env: Env, reg: Registry, node: Value, path: seq<nat>, parent: Option<Component>)
    ensures Below(path, Errors(env, reg, node, path, parent))
    decreases node, 1
  {
    var verdict := Judge(env, reg, node, parent);
    if verdict.Known? && Kids(node, verdict.def).Some? {
      ErrorsAllBelow(env, reg, Kids(node, verdict.def).value, path, 0, verdict.def);
    }
  }

  lemma {:induction false} ErrorsAllBelow(env: Env, reg: Registry, nodes: seq<Value>, path: seq<nat>, k: nat, def: Component)
    ensures BelowFrom(path, k, ErrorsAll(env, reg, nodes, path, k, def))
    decreases nodes, 0
  {
    if nodes != [] {
      var first := Errors(env, reg, nodes[0], path + [k], Some(def));
      ErrorsBelow(env, reg, nodes[0], path + [k], Some(def));
      ErrorsAllBelow(env, reg, nodes[1..], path, k + 1, def);
      forall i | 0 <= i < |first|
        ensures path <= first[i].path && |first[i].path| > |path| && first[i].path[|path|] >= k
      {
        assert path + [k] <= first[i].path;
        assert first[i].path[|path|] == (path + [k])[|path|];
      }
    }
  }

  function NotThrown(): Report -> bool {
    (r: Report) => !r.ReportThrew?
  }

  lemma {:induction false} ReportsMatch(env: Env, reg: Registry, throws: Throws, node: Value, path: seq<nat>, parent: Option<Component>)
    requires ValidRegistry(reg) && (parent.Some? ==> !parent.value.children.NoChildren?)
    ensures Filter(RenderNode(env, reg, throws, node, parent).1, NotThrown()) == Grouped(Errors(env, reg, node, path, parent))
    decreases node, 1
  {
    var verdict := Judge(env, reg, node, parent);
    if verdict.Known? {
      ComponentReportsMatch(env, reg, throws, node, path, parent, verdict.def, verdict.props, verdict.errors);
    } else {
      OneReport(RenderNode(env, reg, throws, node, parent).1);
      assert Grouped([]) == [];
    }
  }

  lemma OneReport(reports: seq<Report>)
    requires |reports| <= 1
    ensures Filter(reports, NotThrown()) == if reports == [] || reports[0].ReportThrew? then [] else reports
  {
    if reports != [] {
      assert reports[1..] == [] && reports == [reports[0]];
    }
  }

  lemma {:induction false} ComponentReportsMatch(env: Env, reg: Registry, throws: Throws, node: Value, path: seq<nat>,
      parent: Option<Component>, def: Component, props: map<string, Value>, errors: seq<PropError>)
    requires ValidRegistry(reg) && Judge(env, reg, node, parent) == Known(def, props, errors)
    ensures Filter(RenderNode(env, reg, throws, node, parent).1, NotThrown()) == Grouped(Errors(env, reg, node, path, parent))
    decreases node, 0
  {
    var bad := if |errors| > 0 then [ReportProps(def.name, errors)] else [];
    var own := InvalidProps(path, def.name, errors);
    var kids := Kids(node, def);
    if AnyFatal(env, errors) {
      OwnReports(path, def.name, errors, [], []);
      assert bad + [] == bad && own + [] == own;
    } else if kids.None? {
      OwnReports(path, def.name, errors, [], []);
      DropThrew(throws, def.name, props, NoSlots, bad);
      assert bad + [] == bad && own + [] == own;
    } else {
      var (cs, rs) := RenderChildren(env, reg, throws, kids.value, def);
      var below := ErrorsAll(env, reg, kids.value, path, 0, def);
      ChildReportsMatch(env, reg, throws, kids.value, path, 0, def);
      ErrorsAllBelow(env, reg, kids.value, path, 0, def);
      OwnReports(path, def.name, errors, below, rs);
      DropThrew(throws, def.name, props, Slots(cs), bad + rs);
    }
  }

  // A node's own prop errors, in front of what its children have to report.
  lemma OwnReports(path: seq<nat>, component: string, errors: seq<PropError>, below: seq<TreeError>, reports: seq<Report>)
    requires BelowFrom(path, 0, below) && Filter(reports, NotThrown()) == Grouped(below)
    ensures var bad := if |errors| > 0 then [ReportProps(component, errors)] else [];
      Filter(bad + reports, NotThrown()) == Grouped(InvalidProps(path, component, errors) + below)
  {
    var bad := if |errors| > 0 then [ReportProps(component, errors)] else [];
    GroupedRun(path, component, errors);
    OneReport(bad);
    FilterConcat(bad, reports, NotThrown());
    GroupedConcat(InvalidProps(path, component, errors), below);
  }

  lemma DropThrew(throws: Throws, component: string, props: map<string, Value>, children: Slots, reports: seq<Report>)
    ensures Filter(Call(throws, component, props, children, reports).1, NotThrown()) == Filter(reports, NotThrown())
  {
    FilterPush(reports, ReportThrew(component), NotThrown());
    assert Filter(reports, NotThrown()) + [] == Filter(reports, NotThrown());
  }

  lemma {:induction false} ChildReportsMatch(env: Env, reg: Registry, throws: Throws, nodes: seq<Value>, path: seq<nat>, k: nat, def: Component)
    requires ValidRegistry(reg) && TakesChildren(def)
    ensures Filter(RenderChildren(env, reg, throws, nodes, def).1, NotThrown())
         == Grouped(ErrorsAll(env, reg, nodes, path, k, def))
    decreases nodes, 0
  {
    if nodes != [] {
      var r1, r2 := RenderNode(env, reg, throws, nodes[0], Some(def)).1, RenderChildren(env, reg, throws, nodes[1..], def).1;
      var e1 := Errors(env, reg, nodes[0], path + [k], Some(def));
      var e2 := ErrorsAll(env, reg, nodes[1..], path, k + 1, def);
      ReportsMatch(env, reg, throws, nodes[0], path + [k], Some(def));
      ChildReportsMatch(env, reg, throws, nodes[1..], path, k + 1, def);
      FilterConcat(r1, r2, NotThrown());
      SiblingsApart(env, reg, nodes, path, k, def);
      GroupedConcat(e1, e2);
    }
  }

  // Errors of one child never run into those of the next.
  lemma SiblingsApart(env: Env, reg: Registry, nodes: seq<Value>, path: seq<nat>, k: nat, def: Component)
    requires nodes != []
    ensures var e1 := Errors(env, reg, nodes[0], path + [k], Some(def));
      var e2 := ErrorsAll(env, reg, nodes[1..], path, k + 1, def);
      e1 == [] || e2 == [] || e1[|e1| - 1].path != e2[0].path
  {
    var e1 := Errors(env, reg, nodes[0], path + [k], Some(def));
    var e2 := ErrorsAll(env, reg, nodes[1..], path, k + 1, def);
    ErrorsBelow(env, reg, nodes[0], path + [k], Some(def));
    ErrorsAllBelow(env, reg, nodes[1..], path, k + 1, def);
    if e1 != [] && e2 != [] {
      assert path + [k] <= e1[|e1| - 1].path;
      assert e1[|e1| - 1].path[|path|] == (path + [k])[|path|] == k;
      assert e2[0].path[|path|] >= k + 1;
    }
  }

  // For every tree the renderer reports, throwing components aside, the validator's errors in the
  // same order, malformed nodes left out and the prop errors of each node together. In
  // particular it never reports an unexpected child.
  lemma RendererReportsValidatorErrors(env: Env, reg: Registry, throws: Throws, tree: Value)
    requires ValidRegistry(reg)
    ensures Filter(RenderNode(env, reg, throws, tree, None).1, NotThrown()) == Grouped(Errors(env, reg, tree, [], None))
    ensures forall r :: r in RenderNode(env, reg, throws, tree, None).1 ==> !r.ReportUnexpected?
  {
    ReportsMatch(env, reg, throws, tree, [], None);
    FilterMembers(RenderNode(env, reg, throws, tree, None).1, NotThrown());
    GroupedNeverUnexpected(Errors(env, reg, tree, [], None));
  }

  lemma {:induction false} GroupedNeverUnexpected(errors: seq<TreeError>)
    ensures forall r :: r in Grouped(errors) ==> !r.ReportUnexpected?
  {
    if errors != [] {
      GroupedNeverUnexpected(errors[1..]);
    }
  }

  // ---- Calls that throw.

  // The calls of a rendering that threw: those for the children of a component before its own.
  function Thrown(r: Rendered): seq<Report>
    decreases r, 1
  {
    match r
    case Nothing => []
    case Text(_) => []
    case Drawn(component, _, children, threw) =>
      (if children.Slots? then AllThrown(children.items) else []) + if threw then [ReportThrew(component)] else []
  }

  function AllThrown(rs: seq<Rendered>): seq<Report>
    decreases rs, 0
  {
    if rs == [] then [] else Thrown(rs[0]) + AllThrown(rs[1..])
  }

  function IsThrew(): Report -> bool {
    (r: Report) => r.ReportThrew?
  }

  // Every call that throws is reported, once and in order, and no other.
  lemma {:induction false} ThrowsAreReported(env: Env, reg: Registry, throws: Throws, node: Value, parent: Option<Component>)
    ensures var (r, reports) := RenderNode(env, reg, throws, node, parent); Filter(reports, IsThrew()) == Thrown(r)
    decreases node, 1
  {
    var verdict := Judge(env, reg, node, parent);
    if verdict.Known? && !AnyFatal(env, verdict.errors) {
      var bad := if |verdict.errors| > 0 then [ReportProps(node.fields["type"].s, verdict.errors)] else [];
      NoThrowAmong(bad);
      if Kids(node, verdict.def).Some? {
        var kids := Kids(node, verdict.def).value;
        var (cs, rs) := RenderChildren(env, reg, throws, kids, verdict.def);
        AllThrowsAreReported(env, reg, throws, kids, verdict.def);
        FilterConcat(bad, rs, IsThrew());
        CallIsReported(throws, node.fields["type"].s, verdict.props, Slots(cs), bad + rs);
      } else {
        CallIsReported(throws, node.fields["type"].s, verdict.props, NoSlots, bad);
      }
    } else {
      NoThrowAmong(RenderNode(env, reg, throws, node, parent).1);
    }
  }

  lemma NoThrowAmong(reports: seq<Report>)
    requires |reports| <= 1 && (reports != [] ==> !reports[0].ReportThrew?)
    ensures Filter(reports, IsThrew()) == []
  {
    assert reports != [] ==> reports[1..] == [];
  }

  lemma CallIsReported(throws: Throws, component: string, props: map<string, Value>, children: Slots, reports: seq<Report>)
    ensures Filter(Call(throws, component, props, children, reports).1, IsThrew())
         == Filter(reports, IsThrew()) + if throws(component, props, children) then [ReportThrew(component)] else []
  {
    FilterPush(reports, ReportThrew(component), IsThrew());
    assert Filter(reports, IsThrew()) + [] == Filter(reports, IsThrew());
  }

  lemma {:induction false} AllThrowsAreReported(env: Env, reg: Registry, throws: Throws, nodes: seq<Value>, def: Component)
    ensures var (rs, reports) := RenderChildren(env, reg, throws, nodes, def); Filter(reports, IsThrew()) == AllThrown(rs)
    decreases nodes, 0
  {
    if nodes != [] {
      var (first, r1) := RenderNode(env, reg, throws, nodes[0], Some(def));
      var (rest, r2) := RenderChildren(env, reg, throws, nodes[1..], def);
      ThrowsAreReported(env, reg, throws, nodes[0], Some(def));
      AllThrowsAreReported(env, reg, throws, nodes[1..], def);
      FilterConcat(r1, r2, IsThrew());
      assert ([first] + rest)[1..] == rest;
    }
  }
}
