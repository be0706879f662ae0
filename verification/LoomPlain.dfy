// What the checks come to in plain terms: the values of each prop type, the nodes the validator
// rejects, and that what the schema accepts is kept as it was given.
module LoomPlain {
  import opened Options
  import opened LoomProps
  import opened LoomRegistry
  import opened LoomValidate
  import opened LoomManifest

  // ---- Props.

  // An absent prop is an error if it is required; else its default stands in, if it has one.
  lemma AbsentProp(env: Env, name: string, spec: PropSpec, v: Value)
    requires v == Undefined || v == Null
    ensures spec.required ==> ValidateProp(env, name, spec, v) == Err(Required(name))
    ensures !spec.required && spec.default.Some? ==> ValidateProp(env, name, spec, v) == Ok(spec.default.value)
    ensures !spec.required && spec.default.None? ==> ValidateProp(env, name, spec, v) == Ok(Undefined)
  {
  }

  // The values of a type: texts, numbers, booleans, the listed values, objects, arrays.
  predicate HasDeclaredType(spec: PropSpec, v: Value) {
    match spec.typ
    case TString => v.Str?
    case TNumber => v.Num? && v.n != NaN
    case TBoolean => v == Bool(true) || v == Bool(false)
    case TEnum => v in spec.values && v != Undefined && v != Null
    case TObject => v.Obj?
    case TArray => v.Arr?
    case TOther => v != Undefined && v != Null
  }

  // They are accepted as they are.
  lemma RightTypeStays(env: Env, name: string, spec: PropSpec, v: Value)
    requires Lawful(env) && HasDeclaredType(spec, v)
    ensures ValidateProp(env, name, spec, v) == Ok(v)
  {
  }

  // A present value of another type is rejected as an enum value, an object or an array, each
  // with an error of its own; as a number only if it does not read as one.
  lemma WrongTypeRejected(env: Env, name: string, spec: PropSpec, v: Value)
    requires v != Undefined && v != Null
    ensures spec.typ == TEnum && v !in spec.values ==> ValidateProp(env, name, spec, v) == Err(NotInEnum(name, spec.values))
    ensures spec.typ == TObject && !v.Obj? ==> ValidateProp(env, name, spec, v) == Err(NotAnObject(name))
    ensures spec.typ == TArray && !v.Arr? ==> ValidateProp(env, name, spec, v) == Err(NotAnArray(name))
    ensures spec.typ == TNumber && env.toNumber(v) == NaN ==> ValidateProp(env, name, spec, v) == Err(NotANumber(name, v))
  {
  }

  predicate Falsy(v: Value) {
    v == Undefined || v == Null || v == Bool(false) || v == Num(Finite(0.0)) || v == Num(NaN) || v == Str("")
  }

  // Coercion never fails for a text or a boolean, and gives false for the falsy values only.
  lemma Coerced(env: Env, name: string, spec: PropSpec, v: Value)
    requires v != Undefined && v != Null
    ensures spec.typ == TString ==> ValidateProp(env, name, spec, v) == Ok(Str(env.toText(v)))
    ensures spec.typ == TNumber && env.toNumber(v) != NaN ==> ValidateProp(env, name, spec, v) == Ok(Num(env.toNumber(v)))
    ensures spec.typ == TBoolean && Falsy(v) ==> ValidateProp(env, name, spec, v) == Ok(Bool(false))
    ensures spec.typ == TBoolean && !Falsy(v) ==> ValidateProp(env, name, spec, v) == Ok(Bool(true))
  {
  }

  // The errors of a list of specs are those of its parts, one after the other.
  lemma {:induction false} ErrorsInOrder(env: Env, a: Specs, b: Specs, props: Value)
    ensures PropErrors(env, a + b, props) == PropErrors(env, a, props) + PropErrors(env, b, props)
  {
    if b == [] {
      assert a + b == a && PropErrors(env, a, props) + [] == PropErrors(env, a, props);
    } else {
      var n := |b| - 1;
      assert (a + b)[..|a| + n] == a + b[..n] && (a + b)[|a| + n] == b[n];
      ErrorsInOrder(env, a, b[..n], props);
    }
  }

  lemma OneSpec(env: Env, name: string, spec: PropSpec, props: Value)
    ensures var c := ValidateProp(env, name, spec, Read(env, props, name));
      PropErrors(env, [(name, spec)], props) == if c.Err? then [c.error] else []
  {
    assert [(name, spec)][..0] == [];
    assert PropErrors(env, [], props) == [];
  }

  // ---- Nodes.

  // Nothing, text and numbers may stand anywhere.
  lemma LeafStays(env: Env, reg: Registry, node: Value, path: seq<nat>, parent: Option<Component>)
    requires node == Undefined || node == Null || node.Str? || node.Num?
    ensures Errors(env, reg, node, path, parent) == []
    ensures Repair(env, reg, node, parent) == if node.Str? || node.Num? then node else Null
  {
  }

  // The reasons to drop a node on sight, in the order in which they are looked for.
  datatype Flaw = NoType | NotRegistered(typ: Value) | NotAllowed(parent: string, child: string)

  ghost predicate HasFlaw(reg: Registry, node: Value, parent: Option<Component>, flaw: Flaw) {
    var typ := if node.Obj? && "type" in node.fields then node.fields["type"] else Undefined;
    match flaw
    case NoType => Falsy(typ)
    case NotRegistered(t) => t == typ && !Falsy(typ) && !(typ.Str? && typ.s in reg.defs)
    case NotAllowed(p, c) =>
      && typ == Str(c) && c != "" && c in reg.defs && parent.Some? && p == parent.value.name
      && (parent.value.children == NoChildren || (parent.value.children.Only? && c !in parent.value.children.names))
  }

  function FlawError(flaw: Flaw, path: seq<nat>): TreeError {
    match flaw
    case NoType => Malformed(path)
    case NotRegistered(typ) => UnknownComponent(path, typ)
    case NotAllowed(parent, child) => DisallowedChild(path, parent, child)
  }

  // Such a node is dropped, with one error and nothing about what is below it.
  lemma FlawedNodeIsDropped(env: Env, reg: Registry, node: Value, path: seq<nat>, parent: Option<Component>, flaw: Flaw)
    requires node != Undefined && node != Null && !node.Str? && !node.Num? && HasFlaw(reg, node, parent, flaw)
    ensures Repair(env, reg, node, parent) == Null && Errors(env, reg, node, path, parent) == [FlawError(flaw, path)]
  {
  }

  // A component node that its parent, if there is one, allows.
  ghost predicate Stands(reg: Registry, node: Value, parent: Option<Component>) {
    && node.Obj? && "type" in node.fields && node.fields["type"].Str?
    && node.fields["type"].s != "" && node.fields["type"].s in reg.defs
    && (parent.Some? ==> parent.value.children == AnyChild
                         || (parent.value.children.Only? && node.fields["type"].s in parent.value.children.names))
  }

  // The props as given; none when they are absent or falsy.
  function GivenProps(node: Value): Value
    requires node.Obj?
  {
    if "props" !in node.fields || Falsy(node.fields["props"]) then Obj(map[]) else node.fields["props"]
  }

  // It is dropped if a required prop is absent, and that is among its errors.
  lemma MissingPropDropsNode(env: Env, reg: Registry, node: Value, path: seq<nat>, parent: Option<Component>, i: nat)
    requires Lawful(env) && ValidRegistry(reg) && Stands(reg, node, parent)
    requires var specs := reg.defs[node.fields["type"].s].props;
      && i < |specs| && specs[i].1.required
      && (Read(env, GivenProps(node), specs[i].0) == Undefined || Read(env, GivenProps(node), specs[i].0) == Null)
    ensures Repair(env, reg, node, parent) == Null
    ensures InvalidProp(path, node.fields["type"].s, Required(reg.defs[node.fields["type"].s].props[i].0)) in Errors(env, reg, node, path, parent)
  {
    var def := reg.defs[node.fields["type"].s];
    var k := MissingIsReported(env, def.props, GivenProps(node), i);
    assert InvalidProps(path, def.name, PropErrors(env, def.props, GivenProps(node)))[k]
        == InvalidProp(path, def.name, Required(def.props[i].0));
  }

  lemma MissingIsReported(env: Env, specs: Specs, p: Value, i: nat) returns (k: nat)
    requires Lawful(env) && i < |specs| && specs[i].1.required
    requires Read(env, p, specs[i].0) == Undefined || Read(env, p, specs[i].0) == Null
    ensures k < |PropErrors(env, specs, p)| && PropErrors(env, specs, p)[k] == Required(specs[i].0)
    ensures AnyFatal(env, PropErrors(env, specs, p))
  {
    var errors, e := PropErrors(env, specs, p), Required(specs[i].0);
    PropErrorsMembers(env, specs, p);
    assert CheckAt(env, specs, p, i) == Err(e);
    k :| 0 <= k < |errors| && errors[k] == e;
    assert env.fatal(errors[k]);
  }

  // Else it is kept unless an error of a prop is fatal: its type, its checked props, and its
  // children, repaired, if the component takes any and they are an array.
  lemma StandingNodeIsKept(env: Env, reg: Registry, node: Value, parent: Option<Component>)
    requires ValidRegistry(reg) && Stands(reg, node, parent)
    requires forall e :: e in PropErrors(env, reg.defs[node.fields["type"].s].props, GivenProps(node)) ==> !env.fatal(e)
    ensures var def, r := reg.defs[node.fields["type"].s], Repair(env, reg, node, parent);
      var kept := KeptProps(env, def.props, GivenProps(node));
      && r.Obj? && r.fields.Keys <= {"type", "props", "children"} && "type" in r.fields && r.fields["type"] == node.fields["type"]
      && ("props" in r.fields <==> kept != map[]) && ("props" in r.fields ==> r.fields["props"] == Obj(kept))
      && ("children" in r.fields <==> def.children != NoChildren && "children" in node.fields && node.fields["children"].Arr?)
      && ("children" in r.fields ==> r.fields["children"] == Arr(RepairAll(env, reg, node.fields["children"].items, def)))
  {
  }

  // ---- What the schema accepts is kept as given.

  function PropsIn(node: Value): map<string, Value>
    requires node.Obj?
  {
    if "props" in node.fields && node.fields["props"].Obj? then node.fields["props"].fields else map[]
  }

  ghost predicate IsDefault(specs: Specs, name: string, v: Value) {
    exists i :: 0 <= i < |specs| && specs[i].0 == name && specs[i].1.default == Some(v)
  }

  // r is v with defaults filled in: texts as they are; of a component the type, every given prop
  // with its value, no other prop but a default, and the children one by one.
  ghost predicate Carries(reg: Registry, v: Value, r: Value)
    decreases v, 1
  {
    if v.Str? then r == v
    else
      && v.Obj? && r.Obj? && "type" in v.fields && "type" in r.fields && r.fields["type"] == v.fields["type"]
      && v.fields["type"].Str? && v.fields["type"].s in reg.defs
      && (forall k :: k in PropsIn(v) ==> k in PropsIn(r) && PropsIn(r)[k] == PropsIn(v)[k])
      && (forall k :: k in PropsIn(r) && k !in PropsIn(v) ==> IsDefault(reg.defs[v.fields["type"].s].props, k, PropsIn(r)[k]))
      && ("children" in v.fields <==> "children" in r.fields)
      && ("children" in v.fields ==>
            v.fields["children"].Arr? && r.fields["children"].Arr? && AllCarry(reg, v.fields["children"].items, r.fields["children"].items))
  }

  ghost predicate AllCarry(reg: Registry, vs: seq<Value>, rs: seq<Value>)
    decreases vs, 0
  {
    |vs| == |rs| && (vs != [] ==> Carries(reg, vs[0], rs[0]) && AllCarry(reg, vs[1..], rs[1..]))
  }

  lemma GivenPropStays(env: Env, specs: Specs, p: Value, k: string)
    requires Lawful(env) && DistinctNames(specs) && PropsConform(specs, p) && k in p.fields
    requires forall i :: 0 <= i < |specs| ==> !specs[i].1.typ.TOther?
    ensures k in KeptProps(env, specs, p) && KeptProps(env, specs, p)[k] == p.fields[k]
  {
    assert Specified(specs, k);
    var i :| 0 <= i < |specs| && specs[i].0 == k;
    assert PropConforms(specs[i].1, p.fields[k]);
    RightTypeStays(env, k, specs[i].1, p.fields[k]);
    KeptPropsAt(env, specs, p, i);
  }

  lemma OtherPropIsDefault(env: Env, specs: Specs, p: Value, k: string)
    requires DistinctNames(specs) && p.Obj? && k !in p.fields && k in KeptProps(env, specs, p)
    ensures IsDefault(specs, k, KeptProps(env, specs, p)[k])
  {
    if forall i :: 0 <= i < |specs| ==> specs[i].0 != k {
      UnknownPropsDropped(env, specs, p, k);
    }
    var i :| 0 <= i < |specs| && specs[i].0 == k;
    KeptPropsAt(env, specs, p, i);
    KeptPropsDefined(env, specs, p);
    AbsentProp(env, k, specs[i].1, Undefined);
  }

  lemma PropsAreCarried(env: Env, specs: Specs, p: Value)
    requires Lawful(env) && DistinctNames(specs) && PropsConform(specs, p)
    requires forall i :: 0 <= i < |specs| ==> !specs[i].1.typ.TOther?
    ensures var kept := KeptProps(env, specs, p);
      && (forall k :: k in p.fields ==> k in kept && kept[k] == p.fields[k])
      && (forall k :: k in kept && k !in p.fields ==> IsDefault(specs, k, kept[k]))
  {
    forall k | k in p.fields
      ensures k in KeptProps(env, specs, p) && KeptProps(env, specs, p)[k] == p.fields[k]
    {
      GivenPropStays(env, specs, p, k);
    }
    forall k | k in KeptProps(env, specs, p) && k !in p.fields
      ensures IsDefault(specs, k, KeptProps(env, specs, p)[k])
    {
      OtherPropIsDefault(env, specs, p, k);
    }
  }

  lemma BuiltCarries(reg: Registry, v: Value, kept: map<string, Value>, kids: Option<seq<Value>>)
    requires v.Obj? && "type" in v.fields && v.fields["type"].Str? && v.fields["type"].s in reg.defs
    requires forall k :: k in PropsIn(v) ==> k in kept && kept[k] == PropsIn(v)[k]
    requires forall k :: k in kept && k !in PropsIn(v) ==> IsDefault(reg.defs[v.fields["type"].s].props, k, kept[k])
    requires "children" in v.fields <==> kids.Some?
    requires kids.Some? ==> v.fields["children"].Arr? && AllCarry(reg, v.fields["children"].items, kids.value)
    ensures Carries(reg, v, Build(v.fields["type"].s, kept, kids))
  {
    assert PropsIn(Build(v.fields["type"].s, kept, kids)) == kept;
  }

  lemma {:induction false} ConformingIsCarried(env: Env, reg: Registry, v: Value, parent: Option<Component>)
    requires Lawful(env) && ValidRegistry(reg) && Typed(reg) && Conforms(reg, v) && KidsAllowed(reg, v, parent)
    ensures Carries(reg, v, Repair(env, reg, v, parent))
    decreases v, 1
  {
    if v.Obj? {
      var def := reg.defs[v.fields["type"].s];
      var kids := Kids(v, def);
      ConformingNodeIsKnown(env, reg, v, parent);
      assert PropsOf(v) == Obj(PropsIn(v));
      PropsConformIn(reg, def, v);
      PropsAreCarried(env, def.props, Obj(PropsIn(v)));
      if kids.Some? {
        ConformingAreCarried(env, reg, kids.value, def);
      }
      BuiltCarries(reg, v, KeptProps(env, def.props, Obj(PropsIn(v))),
                   if kids.Some? then Some(RepairAll(env, reg, kids.value, def)) else None);
    }
  }

  lemma PropsConformIn(reg: Registry, def: Component, v: Value)
    requires v.Obj? && ConformsTo(reg, def, v)
    ensures PropsConform(def.props, Obj(PropsIn(v)))
  {
  }

  lemma {:induction false} ConformingAreCarried(env: Env, reg: Registry, nodes: seq<Value>, def: Component)
    requires Lawful(env) && ValidRegistry(reg) && Typed(reg) && AllKidsAllowed(reg, nodes, def)
    requires forall i :: 0 <= i < |nodes| ==> Conforms(reg, nodes[i])
    ensures AllCarry(reg, nodes, RepairAll(env, reg, nodes, def))
    decreases nodes, 0
  {
    if nodes != [] {
      var first := Repair(env, reg, nodes[0], Some(def));
      var rest := RepairAll(env, reg, nodes[1..], def);
      ConformingIsCarried(env, reg, nodes[0], Some(def));
      ConformingAreCarried(env, reg, nodes[1..], def);
      assert ([first] + rest)[1..] == rest;
    }
  }

  // Of an accepted tree that is valid, repairing keeps every text, every component, every given
  // prop with its value and the order of the children; it adds defaults and nothing else.
  lemma AcceptedTreeIsCarried(env: Env, reg: Registry, tree: Value)
    requires Lawful(env) && ValidRegistry(reg) && Typed(reg) && NODE !in reg.defs && SchemaAccepts(reg, tree)
    requires Errors(env, reg, tree, [], None) == []
    ensures Carries(reg, tree, Repair(env, reg, tree, None))
  {
    NodeAccepted(reg, tree);
    AcceptedTreeIsValidIff(env, reg, tree);
    ConformingIsCarried(env, reg, tree, None);
  }
}
