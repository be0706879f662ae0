// What repairing achieves: when one pass suffices, and that two passes always do.
module LoomRepair {
  import opened Options
  import opened LoomProps
  import opened LoomRegistry
  import opened LoomValidate

  ghost predicate DefaultsValidate(env: Env, specs: Specs) {
    forall i :: 0 <= i < |specs| ==> DefaultValidates(env, specs[i].0, specs[i].1)
  }

  ghost predicate DefaultsAreStable(env: Env, specs: Specs) {
    forall i :: 0 <= i < |specs| ==> DefaultIsStable(env, specs[i].0, specs[i].1)
  }

  // A registry that is in order, with defaults that pass their own check.
  ghost predicate Sound(env: Env, reg: Registry) {
    Lawful(env) && ValidRegistry(reg) && forall n :: n in reg.defs ==> DefaultsValidate(env, reg.defs[n].props)
  }

  ghost predicate Stable(env: Env, reg: Registry) {
    Sound(env, reg) && forall n :: n in reg.defs ==> DefaultsAreStable(env, reg.defs[n].props)
  }

  // ---- Starved nodes: a required prop had a bad value, and the node was kept without it.

  predicate StarvedProps(env: Env, specs: Specs, props: Value) {
    exists i :: 0 <= i < |specs| && specs[i].1.required && CheckAt(env, specs, props, i).Err?
  }

  predicate Starved(env: Env, reg: Registry, node: Value, parent: Option<Component>)
    decreases node, 1
  {
    match Judge(env, reg, node, parent)
    case Known(def, _, errors) =>
      !AnyFatal(env, errors) &&
      var kids := Kids(node, def);
      StarvedProps(env, def.props, PropsOf(node)) || (kids.Some? && AnyStarved(env, reg, kids.value, def))
    case _ => false
  }

  predicate AnyStarved(env: Env, reg: Registry, nodes: seq<Value>, def: Component)
    decreases nodes, 0
  {
    nodes != [] && (Starved(env, reg, nodes[0], Some(def)) || AnyStarved(env, reg, nodes[1..], def))
  }

  // What checking keeps of one prop.
  function Kept(env: Env, specs: Specs, props: Value, i: nat): Value
    requires i < |specs|
  {
    var c := CheckAt(env, specs, props, i);
    if c.Ok? then c.value else Undefined
  }

  // Checking the kept props again: errors are missing required props, and there are some exactly
  // when the first check rejected a required prop.
  lemma PropsAgain(env: Env, specs: Specs, props: Value)
    requires Lawful(env) && DistinctNames(specs) && DefaultsValidate(env, specs)
    ensures var again := Obj(KeptProps(env, specs, props));
      && (PropErrors(env, specs, again) == [] <==> !StarvedProps(env, specs, props))
      && (PropErrors(env, specs, again) != [] ==> AnyFatal(env, PropErrors(env, specs, again)))
      && (StarvedProps(env, specs, again) ==> AnyFatal(env, PropErrors(env, specs, again)))
  {
    var again := Obj(KeptProps(env, specs, props));
    forall i | 0 <= i < |specs|
      ensures CheckAt(env, specs, again, i).Err? <==> specs[i].1.required && CheckAt(env, specs, props, i).Err?
      ensures CheckAt(env, specs, again, i).Err? ==> CheckAt(env, specs, again, i).error.Required?
    {
      KeptPropsAt(env, specs, props, i);
      Recheck(env, specs[i].0, specs[i].1, Read(env, props, specs[i].0));
    }
    NoPropErrorsIff(env, specs, again);
    PropErrorsMembers(env, specs, again);
    var errors := PropErrors(env, specs, again);
    if errors != [] {
      assert errors[0] in errors;
      assert env.fatal(errors[0]);
    }
  }

  // How a repaired node is judged.
  lemma JudgeBuilt(env: Env, reg: Registry, def: Component, props: map<string, Value>, kids: Option<seq<Value>>, parent: Option<Component>)
    requires ValidRegistry(reg) && def.name in reg.defs && reg.defs[def.name] == def
    requires parent.Some? ==> ChildAllowed(parent.value, def.name)
    ensures Judge(env, reg, Build(def.name, props, kids), parent)
         == Known(def, KeptProps(env, def.props, Obj(props)), PropErrors(env, def.props, Obj(props)))
    ensures Kids(Build(def.name, props, kids), def) == if TakesChildren(def) then kids else None
    ensures PropsOf(Build(def.name, props, kids)) == Obj(props)
  {
  }

  lemma {:induction false} OnePassNode(env: Env, reg: Registry, node: Value, path: seq<nat>, parent: Option<Component>)
    requires Sound(env, reg)
    ensures Errors(env, reg, Repair(env, reg, node, parent), path, parent) == [] <==> !Starved(env, reg, node, parent)
    decreases node, 1
  {
    match Judge(env, reg, node, parent)
    case Known(def, props, errors) =>
      if !AnyFatal(env, errors) {
        var kids := Kids(node, def);
        var repaired := if kids.Some? then Some(RepairAll(env, reg, kids.value, def)) else None;
        JudgeBuilt(env, reg, def, props, repaired, parent);
        PropsAgain(env, def.props, PropsOf(node));
        if kids.Some? {
          OnePassNodes(env, reg, kids.value, path, 0, def);
        }
      }
    case _ =>
  }

  lemma {:induction false} OnePassNodes(env: Env, reg: Registry, nodes: seq<Value>, path: seq<nat>, k: nat, def: Component)
    requires Sound(env, reg)
    ensures ErrorsAll(env, reg, RepairAll(env, reg, nodes, def), path, k, def) == [] <==> !AnyStarved(env, reg, nodes, def)
    decreases nodes, 0
  {
    if nodes != [] {
      var first := Repair(env, reg, nodes[0], Some(def));
      var rest := RepairAll(env, reg, nodes[1..], def);
      OnePassNode(env, reg, nodes[0], path + [k], Some(def));
      OnePassNodes(env, reg, nodes[1..], path, if first == Null then k else k + 1, def);
      assert ([first] + rest)[1..] == rest && [] + rest == rest;
    }
  }

  // ---- Flawed nodes: kept, with a prop error to their name.

  predicate Flawed(env: Env, reg: Registry, node: Value, parent: Option<Component>)
    decreases node, 1
  {
    match Judge(env, reg, node, parent)
    case Known(def, _, errors) =>
      !AnyFatal(env, errors) &&
      var kids := Kids(node, def);
      errors != [] || (kids.Some? && AnyFlawed(env, reg, kids.value, def))
    case _ => false
  }

  predicate AnyFlawed(env: Env, reg: Registry, nodes: seq<Value>, def: Component)
    decreases nodes, 0
  {
    nodes != [] && (Flawed(env, reg, nodes[0], Some(def)) || AnyFlawed(env, reg, nodes[1..], def))
  }

  lemma {:induction false} StarvedIsFlawed(env: Env, reg: Registry, node: Value, parent: Option<Component>)
    requires Starved(env, reg, node, parent)
    ensures Flawed(env, reg, node, parent)
    decreases node, 1
  {
    match Judge(env, reg, node, parent)
    case Known(def, props, errors) =>
      NoPropErrorsIff(env, def.props, PropsOf(node));
      if Kids(node, def).Some? && AnyStarved(env, reg, Kids(node, def).value, def) {
        StarvedAreFlawed(env, reg, Kids(node, def).value, def);
      }
  }

  lemma {:induction false} StarvedAreFlawed(env: Env, reg: Registry, nodes: seq<Value>, def: Component)
    requires AnyStarved(env, reg, nodes, def)
    ensures AnyFlawed(env, reg, nodes, def)
    decreases nodes, 0
  {
    if Starved(env, reg, nodes[0], Some(def)) {
      StarvedIsFlawed(env, reg, nodes[0], Some(def));
    } else {
      StarvedAreFlawed(env, reg, nodes[1..], def);
    }
  }

  lemma {:induction false} ValidIsNotFlawed(env: Env, reg: Registry, node: Value, path: seq<nat>, parent: Option<Component>)
    requires Errors(env, reg, node, path, parent) == []
    ensures !Flawed(env, reg, node, parent)
    decreases node, 1
  {
    match Judge(env, reg, node, parent)
    case Known(def, props, errors) =>
      assert |InvalidProps(path, def.name, errors)| == 0;
      if Kids(node, def).Some? {
        ValidAreNotFlawed(env, reg, Kids(node, def).value, path, 0, def);
      }
    case _ =>
  }

  lemma {:induction false} ValidAreNotFlawed(env: Env, reg: Registry, nodes: seq<Value>, path: seq<nat>, k: nat, def: Component)
    requires ErrorsAll(env, reg, nodes, path, k, def) == []
    ensures !AnyFlawed(env, reg, nodes, def)
    decreases nodes, 0
  {
    if nodes != [] {
      ValidIsNotFlawed(env, reg, nodes[0], path + [k], Some(def));
      ValidAreNotFlawed(env, reg, nodes[1..], path, k + 1, def);
    }
  }

  // The tree that generate() saves: the model's own when valid, else the repaired one.
  function Saved(env: Env, reg: Registry, tree: Value): Value {
    if Errors(env, reg, tree, [], None) == [] then tree else Repair(env, reg, tree, None)
  }

  // One repair makes a saved tree valid exactly when it kept no node whose required prop had a
  // bad value: "is required" is the only error that drops a node.
  lemma SavedTreeIsValidIff(env: Env, reg: Registry, tree: Value)
    requires Sound(env, reg)
    ensures Errors(env, reg, Saved(env, reg, tree), [], None) == [] <==> !Starved(env, reg, tree, None)
  {
    OnePassNode(env, reg, tree, [], None);
    if Errors(env, reg, tree, [], None) == [] && Starved(env, reg, tree, None) {
      StarvedIsFlawed(env, reg, tree, None);
      ValidIsNotFlawed(env, reg, tree, [], None);
    }
  }

  // Required props whose check cannot fail on a present value.
  ghost predicate RequiredNeverFail(reg: Registry) {
    forall n, i :: n in reg.defs && 0 <= i < |reg.defs[n].props| && reg.defs[n].props[i].1.required ==>
      reg.defs[n].props[i].1.typ in {TString, TBoolean, TOther}
  }

  lemma {:induction false} NothingStarves(env: Env, reg: Registry, node: Value, parent: Option<Component>)
    requires Lawful(env) && ValidRegistry(reg) && RequiredNeverFail(reg)
    ensures !Starved(env, reg, node, parent)
    decreases node, 1
  {
    match Judge(env, reg, node, parent)
    case Known(def, props, errors) =>
      if StarvedProps(env, def.props, PropsOf(node)) {
        var i :| 0 <= i < |def.props| && def.props[i].1.required && CheckAt(env, def.props, PropsOf(node), i).Err?;
        var e := CheckAt(env, def.props, PropsOf(node), i).error;
        assert e.Required?;
        PropErrorsMembers(env, def.props, PropsOf(node));
        assert e in errors;
      }
      if Kids(node, def).Some? {
        NothingStarvesAll(env, reg, Kids(node, def).value, def);
      }
    case _ =>
  }

  lemma {:induction false} NothingStarvesAll(env: Env, reg: Registry, nodes: seq<Value>, def: Component)
    requires Lawful(env) && ValidRegistry(reg) && RequiredNeverFail(reg)
    ensures !AnyStarved(env, reg, nodes, def)
    decreases nodes, 0
  {
    if nodes != [] {
      NothingStarves(env, reg, nodes[0], Some(def));
      NothingStarvesAll(env, reg, nodes[1..], def);
    }
  }

  // Then one repair makes every tree valid.
  lemma OnePassSuffices(env: Env, reg: Registry, tree: Value)
    requires Sound(env, reg) && RequiredNeverFail(reg)
    ensures Errors(env, reg, Repair(env, reg, tree, None), [], None) == []
  {
    NothingStarves(env, reg, tree, None);
    OnePassNode(env, reg, tree, [], None);
  }

  // ---- Two passes.

  lemma {:induction false} RepairedIsNotFlawed(env: Env, reg: Registry, node: Value, parent: Option<Component>)
    requires Sound(env, reg)
    ensures !Flawed(env, reg, Repair(env, reg, node, parent), parent)
    decreases node, 1
  {
    match Judge(env, reg, node, parent)
    case Known(def, props, errors) =>
      if !AnyFatal(env, errors) {
        var kids := Kids(node, def);
        var repaired := if kids.Some? then Some(RepairAll(env, reg, kids.value, def)) else None;
        JudgeBuilt(env, reg, def, props, repaired, parent);
        PropsAgain(env, def.props, PropsOf(node));
        if kids.Some? {
          RepairedAreNotFlawed(env, reg, kids.value, def);
        }
      }
    case _ =>
  }

  lemma {:induction false} RepairedAreNotFlawed(env: Env, reg: Registry, nodes: seq<Value>, def: Component)
    requires Sound(env, reg)
    ensures !AnyFlawed(env, reg, RepairAll(env, reg, nodes, def), def)
    decreases nodes, 0
  {
    if nodes != [] {
      var first := Repair(env, reg, nodes[0], Some(def));
      var rest := RepairAll(env, reg, nodes[1..], def);
      RepairedIsNotFlawed(env, reg, nodes[0], Some(def));
      RepairedAreNotFlawed(env, reg, nodes[1..], def);
      assert ([first] + rest)[1..] == rest && [] + rest == rest;
    }
  }

  // Whatever the tree: repaired twice, it validates.
  lemma TwoPassesSuffice(env: Env, reg: Registry, tree: Value)
    requires Sound(env, reg)
    ensures Errors(env, reg, Repair(env, reg, Repair(env, reg, tree, None), None), [], None) == []
  {
    var once := Repair(env, reg, tree, None);
    RepairedIsNotFlawed(env, reg, tree, None);
    if Starved(env, reg, once, None) {
      StarvedIsFlawed(env, reg, once, None);
    }
    OnePassNode(env, reg, once, [], None);
  }

  // A registry with one component "C" and its one prop "n".
  function Single(spec: PropSpec): Registry {
    Registry(["C"], map["C" := Component("C", [("n", spec)], NoChildren)])
  }

  function Node(props: map<string, Value>): Value {
    Build("C", props, None)
  }

  lemma SingleRepair(env: Env, spec: PropSpec, props: map<string, Value>)
    ensures var c := ValidateProp(env, "n", spec, Field(props, "n"));
      && (c.Ok? ==>
            Repair(env, Single(spec), Node(props), None) == Node(if c.value != Undefined then map["n" := c.value] else map[]))
      && (c.Err? && !env.fatal(c.error) ==> Repair(env, Single(spec), Node(props), None) == Node(map[]))
      && Errors(env, Single(spec), Node(props), [], None) == (if c.Ok? then [] else [InvalidProp([], "C", c.error)])
      && (c.Err? && env.fatal(c.error) ==> Repair(env, Single(spec), Node(props), None) == Null)
  {
    var specs := [("n", spec)];
    assert specs[..0] == [];
    assert KeptProps(env, specs[..0], Obj(props)) == map[] && PropErrors(env, specs[..0], Obj(props)) == [];
    JudgeBuilt(env, Single(spec), Component("C", specs, NoChildren), props, None, None);
    var errors := PropErrors(env, specs, Obj(props));
    assert errors != [] && env.fatal(errors[0]) ==> AnyFatal(env, errors);
  }

  // One pass does not always: a required number that is no number is dropped, its node kept. The
  // next pass, and with it the renderer, then drops the node.
  lemma OnePassIsNotEnough(env: Env)
    requires Lawful(env) && env.toNumber(Str("abc")) == NaN && !env.fatal(NotANumber("n", Str("abc")))
    ensures
      var reg := Single(PropSpec(TNumber, true, None, []));
      var repaired := Repair(env, reg, Node(map["n" := Str("abc")]), None);
      && Sound(env, reg) && repaired == Node(map[])
      && Errors(env, reg, repaired, [], None) == [InvalidProp([], "C", Required("n"))]
      && Repair(env, reg, repaired, None) == Null
  {
    var spec := PropSpec(TNumber, true, None, []);
    SingleRepair(env, spec, map["n" := Str("abc")]);
    SingleRepair(env, spec, map[]);
  }

  // ---- Where repairing comes to rest.

  // An absent prop whose default needs coercion: the pass puts the default in as it is, and the
  // next pass coerces it.
  ghost predicate LeansProps(env: Env, specs: Specs, props: Value) {
    exists i :: 0 <= i < |specs| && Missing(Read(env, props, specs[i].0)) && !DefaultIsStable(env, specs[i].0, specs[i].1)
  }

  ghost predicate Leans(env: Env, reg: Registry, node: Value, parent: Option<Component>)
    decreases node, 1
  {
    match Judge(env, reg, node, parent)
    case Known(def, _, errors) =>
      !AnyFatal(env, errors) &&
      var kids := Kids(node, def);
      LeansProps(env, def.props, PropsOf(node)) || (kids.Some? && AnyLeans(env, reg, kids.value, def))
    case _ => false
  }

  ghost predicate AnyLeans(env: Env, reg: Registry, nodes: seq<Value>, def: Component)
    decreases nodes, 0
  {
    nodes != [] && (Leans(env, reg, nodes[0], Some(def)) || AnyLeans(env, reg, nodes[1..], def))
  }

  lemma {:induction false} SameKept(env: Env, specs: Specs, p: Value, q: Value)
    requires forall i :: 0 <= i < |specs| ==> Kept(env, specs, p, i) == Kept(env, specs, q, i)
    ensures KeptProps(env, specs, p) == KeptProps(env, specs, q)
  {
    if specs != [] {
      var n := |specs| - 1;
      forall i | 0 <= i < n ensures Kept(env, specs[..n], p, i) == Kept(env, specs[..n], q, i) {
        assert Kept(env, specs[..n], p, i) == Kept(env, specs, p, i);
        assert Kept(env, specs[..n], q, i) == Kept(env, specs, q, i);
      }
      SameKept(env, specs[..n], p, q);
      assert Kept(env, specs, p, n) == Kept(env, specs, q, n);
    }
  }

  // One prop without an error, checked again.
  lemma KeptAgain(env: Env, specs: Specs, p: Value, i: nat)
    requires Lawful(env) && DistinctNames(specs) && DefaultsValidate(env, specs) && i < |specs|
    requires CheckAt(env, specs, p, i).Ok?
    ensures var again := Obj(KeptProps(env, specs, p));
      && (Kept(env, specs, again, i) == Kept(env, specs, p, i)
          <==> !(Missing(Read(env, p, specs[i].0)) && !DefaultIsStable(env, specs[i].0, specs[i].1)))
      && (Missing(Read(env, again, specs[i].0)) ==> DefaultIsStable(env, specs[i].0, specs[i].1))
  {
    KeptPropsAt(env, specs, p, i);
    Recheck(env, specs[i].0, specs[i].1, Read(env, p, specs[i].0));
  }

  lemma PropsRestIff(env: Env, specs: Specs, p: Value)
    requires Lawful(env) && DistinctNames(specs) && DefaultsValidate(env, specs) && PropErrors(env, specs, p) == []
    ensures var again := Obj(KeptProps(env, specs, p));
      && PropErrors(env, specs, again) == []
      && (KeptProps(env, specs, again) == KeptProps(env, specs, p) <==> !LeansProps(env, specs, p))
      && !LeansProps(env, specs, again)
  {
    var again := Obj(KeptProps(env, specs, p));
    NoPropErrorsIff(env, specs, p);
    PropsAgain(env, specs, p);
    NoPropErrorsIff(env, specs, again);
    forall i | 0 <= i < |specs|
      ensures Kept(env, specs, again, i) == Kept(env, specs, p, i)
        <==> !(Missing(Read(env, p, specs[i].0)) && !DefaultIsStable(env, specs[i].0, specs[i].1))
      ensures Missing(Read(env, again, specs[i].0)) ==> DefaultIsStable(env, specs[i].0, specs[i].1)
      ensures Field(KeptProps(env, specs, again), specs[i].0) == Kept(env, specs, again, i)
      ensures Field(KeptProps(env, specs, p), specs[i].0) == Kept(env, specs, p, i)
    {
      KeptAgain(env, specs, p, i);
      KeptPropsAt(env, specs, again, i);
      KeptPropsAt(env, specs, p, i);
    }
    if !LeansProps(env, specs, p) {
      SameKept(env, specs, again, p);
    }
  }

  lemma BuildsDiffer(n: string, n': string, p: map<string, Value>, p': map<string, Value>, kids: Option<seq<Value>>, kids': Option<seq<Value>>)
    ensures Build(n, p, kids) == Build(n', p', kids') <==> n == n' && p == p' && kids == kids'
  {
    var a, b := Build(n, p, kids), Build(n', p', kids');
    assert a.fields["type"] == Str(n) && b.fields["type"] == Str(n');
    assert PropsOf(a) == Obj(p) && PropsOf(b) == Obj(p');
    assert ("children" in a.fields <==> kids.Some?) && ("children" in b.fields <==> kids'.Some?);
    assert kids.Some? ==> a.fields["children"] == Arr(kids.value);
    assert kids'.Some? ==> b.fields["children"] == Arr(kids'.value);
  }

  // A second pass over a tree without flaws changes nothing exactly when no kept node leans on a
  // default that needs coercion; and a repaired tree never does.
  lemma {:induction false} RestsIff(env: Env, reg: Registry, node: Value, parent: Option<Component>)
    requires Sound(env, reg) && !Flawed(env, reg, node, parent)
    ensures var once := Repair(env, reg, node, parent);
      && (Repair(env, reg, once, parent) == once <==> !Leans(env, reg, node, parent))
      && (once != Null ==> Repair(env, reg, once, parent) != Null)
      && !Leans(env, reg, once, parent)
    decreases node, 1
  {
    match Judge(env, reg, node, parent)
    case Known(def, props, errors) =>
      if !AnyFatal(env, errors) {
        var kids := Kids(node, def);
        PropsRestIff(env, def.props, PropsOf(node));
        BuiltRests(env, reg, def, props, if kids.Some? then Some(RepairAll(env, reg, kids.value, def)) else None, parent);
        if kids.Some? {
          RestAllIff(env, reg, kids.value, def);
        }
      }
    case _ =>
  }

  lemma BuiltRests(env: Env, reg: Registry, def: Component, props: map<string, Value>, kids: Option<seq<Value>>, parent: Option<Component>)
    requires ValidRegistry(reg) && def.name in reg.defs && reg.defs[def.name] == def
    requires parent.Some? ==> ChildAllowed(parent.value, def.name)
    requires PropErrors(env, def.props, Obj(props)) == [] && (kids.Some? ==> TakesChildren(def))
    ensures var node := Build(def.name, props, kids);
      && Repair(env, reg, node, parent) != Null
      && (Repair(env, reg, node, parent) == node <==>
            KeptProps(env, def.props, Obj(props)) == props && (kids.Some? ==> RepairAll(env, reg, kids.value, def) == kids.value))
      && (Leans(env, reg, node, parent) <==>
            LeansProps(env, def.props, Obj(props)) || (kids.Some? && AnyLeans(env, reg, kids.value, def)))
  {
    JudgeBuilt(env, reg, def, props, kids, parent);
    var kids' := if kids.Some? then Some(RepairAll(env, reg, kids.value, def)) else None;
    BuildsDiffer(def.name, def.name, KeptProps(env, def.props, Obj(props)), props, kids', kids);
  }

  lemma {:induction false} RestAllIff(env: Env, reg: Registry, nodes: seq<Value>, def: Component)
    requires Sound(env, reg) && !AnyFlawed(env, reg, nodes, def)
    ensures var once := RepairAll(env, reg, nodes, def);
      && (RepairAll(env, reg, once, def) == once <==> !AnyLeans(env, reg, nodes, def))
      && !AnyLeans(env, reg, once, def)
    decreases nodes, 0
  {
    if nodes != [] {
      var first := Repair(env, reg, nodes[0], Some(def));
      var rest := RepairAll(env, reg, nodes[1..], def);
      RestsIff(env, reg, nodes[0], Some(def));
      RestAllIff(env, reg, nodes[1..], def);
      assert [] + rest == rest;
      if first != Null {
        var again := Repair(env, reg, first, Some(def));
        assert ([first] + rest)[1..] == rest;
        assert RepairAll(env, reg, [first] + rest, def) == [again] + RepairAll(env, reg, rest, def);
        SameCons(again, RepairAll(env, reg, rest, def), first, rest);
      } else {
        assert Repair(env, reg, Null, Some(def)) == Null;
      }
    }
  }

  lemma SameCons<T>(x: T, a: seq<T>, y: T, b: seq<T>)
    ensures [x] + a == [y] + b <==> x == y && a == b
  {
    assert ([x] + a)[1..] == a && ([y] + b)[1..] == b;
    assert ([x] + a)[0] == x && ([y] + b)[0] == y;
  }

  lemma {:induction false} StableNeverLeans(env: Env, reg: Registry, node: Value, parent: Option<Component>)
    requires Stable(env, reg)
    ensures !Leans(env, reg, node, parent)
    decreases node, 1
  {
    match Judge(env, reg, node, parent)
    case Known(def, props, errors) =>
      if Kids(node, def).Some? {
        StableNeverLeanAll(env, reg, Kids(node, def).value, def);
      }
    case _ =>
  }

  lemma {:induction false} StableNeverLeanAll(env: Env, reg: Registry, nodes: seq<Value>, def: Component)
    requires Stable(env, reg)
    ensures !AnyLeans(env, reg, nodes, def)
    decreases nodes, 0
  {
    if nodes != [] {
      StableNeverLeans(env, reg, nodes[0], Some(def));
      StableNeverLeanAll(env, reg, nodes[1..], def);
    }
  }

  // A third pass changes nothing exactly when the once repaired tree leans on no default that
  // needs coercion, as with defaults that are stable it never does; a fourth never changes anything.
  lemma RepairComesToRest(env: Env, reg: Registry, tree: Value)
    requires Sound(env, reg)
    ensures var once := Repair(env, reg, tree, None);
      var twice := Repair(env, reg, once, None);
      var thrice := Repair(env, reg, twice, None);
      && (thrice == twice <==> !Leans(env, reg, once, None))
      && (Stable(env, reg) ==> thrice == twice)
      && Repair(env, reg, thrice, None) == thrice
  {
    var once := Repair(env, reg, tree, None);
    var twice := Repair(env, reg, once, None);
    RepairedIsNotFlawed(env, reg, tree, None);
    RepairedIsNotFlawed(env, reg, once, None);
    RestsIff(env, reg, once, None);
    RestsIff(env, reg, twice, None);
    if Stable(env, reg) {
      StableNeverLeans(env, reg, once, None);
    }
  }

  // A repaired valid tree is at rest exactly when the valid tree leans on no such default.
  lemma ValidSettlesIff(env: Env, reg: Registry, tree: Value)
    requires Sound(env, reg) && Errors(env, reg, tree, [], None) == []
    ensures var once := Repair(env, reg, tree, None);
      Repair(env, reg, once, None) == once <==> !Leans(env, reg, tree, None)
  {
    ValidIsNotFlawed(env, reg, tree, [], None);
    RestsIff(env, reg, tree, None);
  }

  const TEXT_DEFAULT := PropSpec(TNumber, false, Some(Str("5")), [])

  lemma DefaultComesSecond(env: Env)
    requires env.toNumber(Str("abc")) == NaN && !env.fatal(NotANumber("n", Str("abc")))
    ensures Repair(env, Single(TEXT_DEFAULT), Repair(env, Single(TEXT_DEFAULT), Node(map["n" := Str("abc")]), None), None)
         == Node(map["n" := Str("5")])
  {
    SingleRepair(env, TEXT_DEFAULT, map["n" := Str("abc")]);
    SingleRepair(env, TEXT_DEFAULT, map[]);
  }

  lemma DefaultCoercedThird(env: Env)
    requires env.toNumber(Str("5")) == Finite(5.0)
    ensures Repair(env, Single(TEXT_DEFAULT), Node(map["n" := Str("5")]), None) == Node(map["n" := Num(Finite(5.0))])
  {
    SingleRepair(env, TEXT_DEFAULT, map["n" := Str("5")]);
  }

  // A default that validates but needs coercion: the third pass still changes the tree.
  lemma ThirdPassCanChange(env: Env)
    requires Lawful(env) && env.toNumber(Str("5")) == Finite(5.0)
    requires env.toNumber(Str("abc")) == NaN && !env.fatal(NotANumber("n", Str("abc")))
    ensures
      var reg := Single(TEXT_DEFAULT);
      var second := Repair(env, reg, Repair(env, reg, Node(map["n" := Str("abc")]), None), None);
      && Sound(env, reg) && second == Node(map["n" := Str("5")])
      && Repair(env, reg, second, None) == Node(map["n" := Num(Finite(5.0))]) != second
  {
    DefaultComesSecond(env);
    DefaultCoercedThird(env);
    NodesDiffer(map["n" := Str("5")], map["n" := Num(Finite(5.0))], "n");
    SingleIsSound(env, TEXT_DEFAULT);
  }

  lemma NodesDiffer(m: map<string, Value>, m': map<string, Value>, key: string)
    requires Field(m, key) != Field(m', key)
    ensures Node(m) != Node(m')
  {
    assert PropsOf(Node(m)) == Obj(m) && PropsOf(Node(m')) == Obj(m');
  }

  lemma SingleIsSound(env: Env, spec: PropSpec)
    requires Lawful(env) && DefaultValidates(env, "n", spec)
    ensures Sound(env, Single(spec))
  {
  }
}
