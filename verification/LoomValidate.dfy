// validateTree of loom/src/validate.js: the errors of a UI tree, and its repaired form.
module LoomValidate {
  import opened Options
  import opened LoomProps
  import opened LoomRegistry

  // A path is the list of child indices from the root.
  datatype TreeError =
    | Malformed(path: seq<nat>)
    | UnknownComponent(path: seq<nat>, typ: Value)
    | DisallowedChild(path: seq<nat>, parent: string, child: string)
    | InvalidProp(path: seq<nat>, component: string, detail: PropError)

  // What a node turns out to be below a given parent. A component carries its checked props.
  datatype Verdict =
    | Leaf(v: Value)
    | NoNode
    | Unknown(typ: Value)
    | Disallowed(parent: string, child: string)
    | Known(def: Component, props: map<string, Value>, errors: seq<PropError>)

  // An array has no `type`, so it is as malformed as a boolean.
  function TypeOf(node: Value): Value {
    if node.Obj? then Field(node.fields, "type") else Undefined
  }

  // The props of a node; an empty object when they are absent or falsy.
  function PropsOf(node: Value): Value
    requires node.Obj?
  {
    var props := Field(node.fields, "props");
    if Truthy(props) then props else Obj(map[])
  }

  function Judge(env: Env, reg: Registry, node: Value, parent: Option<Component>): Verdict {
    if Missing(node) then Leaf(Null)
    else if node.Str? || node.Num? then Leaf(node)
    else
      var typ := TypeOf(node);
      if !Truthy(typ) then NoNode
      else if !typ.Str? || typ.s !in reg.defs then Unknown(typ)
      else
        var def := reg.defs[typ.s];
        if parent.Some? && !ChildAllowed(parent.value, typ.s) then Disallowed(parent.value.name, typ.s)
        else Known(def, KeptProps(env, def.props, PropsOf(node)), PropErrors(env, def.props, PropsOf(node)))
  }

  // The children that are walked: those of a component that takes any, if they are an array.
  function Kids(node: Value, def: Component): Option<seq<Value>> {
    if node.Obj? && TakesChildren(def) && Field(node.fields, "children").Arr?
    then Some(Field(node.fields, "children").items) else None
  }

  // A repaired node: `props` only when there are any, `children` only when they were walked.
  function Build(name: string, props: map<string, Value>, kids: Option<seq<Value>>): Value {
    var head := map["type" := Str(name)];
    var body := if props == map[] then head else head["props" := Obj(props)];
    Obj(if kids.Some? then body["children" := Arr(kids.value)] else body)
  }

  function Repair(env: Env, reg: Registry, node: Value, parent: Option<Component>): Value
    decreases node, 1
  {
    var verdict := Judge(env, reg, node, parent);
    match verdict
    case Leaf(v) => v
    case Known(def, props, errors) =>
      if AnyFatal(env, errors) then Null
      else
        var kids := Kids(node, def);
        Build(def.name, props, if kids.Some? then Some(RepairAll(env, reg, kids.value, def)) else None)
    case _ => Null
  }

  // The children that are left of a list, in order: those repaired to null are dropped.
  function RepairAll(env: Env, reg: Registry, nodes: seq<Value>, def: Component): seq<Value>
    decreases nodes, 0
  {
    if nodes == [] then []
    else
      var first := Repair(env, reg, nodes[0], Some(def));
      (if first == Null then [] else [first]) + RepairAll(env, reg, nodes[1..], def)
  }

  function InvalidProps(path: seq<nat>, component: string, errors: seq<PropError>): (r: seq<TreeError>)
    ensures |r| == |errors|
  {
    seq(|errors|, i requires 0 <= i < |errors| => InvalidProp(path, component, errors[i]))
  }

  function Errors(env: Env, reg: Registry, node: Value, path: seq<nat>, parent: Option<Component>): seq<TreeError>
    decreases node, 1
  {
    match Judge(env, reg, node, parent)
    case Leaf(_) => []
    case NoNode => [Malformed(path)]
    case Unknown(typ) => [UnknownComponent(path, typ)]
    case Disallowed(p, c) => [DisallowedChild(path, p, c)]
    case Known(def, _, errors) =>
      InvalidProps(path, def.name, errors) +
      var kids := Kids(node, def);
      if AnyFatal(env, errors) || kids.None? then [] else ErrorsAll(env, reg, kids.value, path, 0, def)
  }

  function ErrorsAll(env: Env, reg: Registry, nodes: seq<Value>, path: seq<nat>, k: nat, def: Component): seq<TreeError>
    decreases nodes, 0
  {
    if nodes == [] then []
    else Errors(env, reg, nodes[0], path + [k], Some(def)) + ErrorsAll(env, reg, nodes[1..], path, k + 1, def)
  }

  // The walk as it runs: one shared list of errors that every node appends to.
  class TreeWalk {
    var errors: seq<TreeError>

    constructor ()
      ensures errors == []
    {
      errors := [];
    }

    method Walk(env: Env, reg: Registry, node: Value, path: seq<nat>, parent: Option<Component>) returns (r: Value)
      requires ValidRegistry(reg)
      modifies this
      ensures r == Repair(env, reg, node, parent)
      ensures errors == old(errors) + Errors(env, reg, node, path, parent)
      decreases node, 1
    {
      if node.Undefined? || node.Null? {
        return Null;
      }
      if node.Str? || node.Num? {
        return node;
      }
      if !node.Obj? || !Truthy(Field(node.fields, "type")) {
        errors := errors + [Malformed(path)];
        return Null;
      }
      var typ := Field(node.fields, "type");
      if !typ.Str? || typ.s !in reg.defs {
        errors := errors + [UnknownComponent(path, typ)];
        return Null;
      }
      var def := reg.defs[typ.s];
      if parent.Some? && !ChildAllowed(parent.value, typ.s) {
        errors := errors + [DisallowedChild(path, parent.value.name, typ.s)];
        return Null;
      }
      r := WalkComponent(env, reg, node, path, parent, def);
    }

    // The rest of the walk, for a node of a known component that its parent allows.
    method WalkComponent(env: Env, reg: Registry, node: Value, path: seq<nat>, ghost parent: Option<Component>, def: Component)
      returns (r: Value)
      requires ValidRegistry(reg) && Judge(env, reg, node, parent).Known? && Judge(env, reg, node, parent).def == def
      modifies this
      ensures r == Repair(env, reg, node, parent)
      ensures errors == old(errors) + Errors(env, reg, node, path, parent)
      decreases node, 0
    {
      var props, propErrors := ValidateProps(env, def.props, PropsOf(node));
      assert Judge(env, reg, node, parent) == Known(def, props, propErrors);
      ReportProps(path, def.name, propErrors);
      if AnyFatal(env, propErrors) {
        return Null;
      }
      var kids := Kids(node, def);
      if kids.None? {
        return Build(def.name, props, None);
      }
      var walked := WalkAll(env, reg, kids.value, path, 0, def);
      r := Build(def.name, props, Some(walked));
    }

    method ReportProps(path: seq<nat>, component: string, propErrors: seq<PropError>)
      modifies this
      ensures errors == old(errors) + InvalidProps(path, component, propErrors)
    {
      var k := 0;
      while k < |propErrors|
        invariant k <= |propErrors|
        invariant errors == old(errors) + InvalidProps(path, component, propErrors[..k])
      {
        errors := errors + [InvalidProp(path, component, propErrors[k])];
        k := k + 1;
      }
      assert propErrors[..k] == propErrors;
    }

    method WalkAll(env: Env, reg: Registry, nodes: seq<Value>, path: seq<nat>, k: nat, def: Component) returns (r: seq<Value>)
      requires ValidRegistry(reg)
      modifies this
      ensures r == RepairAll(env, reg, nodes, def)
      ensures errors == old(errors) + ErrorsAll(env, reg, nodes, path, k, def)
      decreases nodes, 0
    {
      if nodes == [] {
        return [];
      }
      var first := Walk(env, reg, nodes[0], path + [k], Some(def));
      var rest := WalkAll(env, reg, nodes[1..], path, k + 1, def);
      r := (if first == Null then [] else [first]) + rest;
    }
  }

  method ValidateTree(env: Env, reg: Registry, tree: Value) returns (valid: bool, errors: seq<TreeError>, repaired: Value)
    requires ValidRegistry(reg)
    ensures errors == Errors(env, reg, tree, [], None) && repaired == Repair(env, reg, tree, None)
    ensures valid <==> errors == []
  {
    var walk := new TreeWalk();
    repaired := walk.Walk(env, reg, tree, [], None);
    errors := walk.errors;
    valid := |errors| == 0;
  }

  // Which errors a node has does not depend on where it stands, only how they are addressed.
  lemma {:induction false} CleanAnywhere(env: Env, reg: Registry, node: Value, p: seq<nat>, q: seq<nat>, parent: Option<Component>)
    ensures Errors(env, reg, node, p, parent) == [] <==> Errors(env, reg, node, q, parent) == []
    decreases node, 1
  {
    var verdict := Judge(env, reg, node, parent);
    if verdict.Known? {
      var kids := Kids(node, verdict.def);
      if kids.Some? {
        CleanAllAnywhere(env, reg, kids.value, p, q, 0, 0, verdict.def);
      }
    }
  }

  lemma {:induction false} CleanAllAnywhere(env: Env, reg: Registry, nodes: seq<Value>, p: seq<nat>, q: seq<nat>, k: nat, m: nat, def: Component)
    ensures ErrorsAll(env, reg, nodes, p, k, def) == [] <==> ErrorsAll(env, reg, nodes, q, m, def) == []
    decreases nodes, 0
  {
    if nodes != [] {
      CleanAnywhere(env, reg, nodes[0], p + [k], q + [m], Some(def));
      CleanAllAnywhere(env, reg, nodes[1..], p, q, k + 1, m + 1, def);
    }
  }
}
