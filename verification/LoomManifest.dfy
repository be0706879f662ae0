// The JSON Schema that loom/src/schema.js and manifest.js compile from the registry, which trees
// it accepts, and what the validator says of those.
module LoomManifest {
  import opened Options
  import opened LoomProps
  import opened LoomRegistry
  import opened LoomValidate

  // The keywords that occur. An absent keyword is None, or empty (`properties`, `required`,
  // `oneOf`); `closed` is additionalProperties: false.
  datatype Schema = Schema(
    typ: Option<string>, constant: Option<Value>, choices: Option<seq<Value>>,
    properties: map<string, Schema>, required: seq<string>, closed: bool,
    items: Option<Schema>, reference: Option<string>, oneOf: seq<Schema>)

  const ANYTHING := Schema(None, None, None, map[], [], false, None, None, [])
  const NODE := "node"
  const NODE_LIST := ANYTHING.(typ := Some("array"), items := Some(Ref(NODE)))

  function PropSchema(spec: PropSpec): Schema {
    match spec.typ
    case TString => ANYTHING.(typ := Some("string"))
    case TNumber => ANYTHING.(typ := Some("number"))
    case TBoolean => ANYTHING.(typ := Some("boolean"))
    case TEnum => ANYTHING.(typ := Some("string"), choices := Some(spec.values))
    case TObject => ANYTHING.(typ := Some("object"))
    case TArray => ANYTHING.(typ := Some("array"))
    case TOther => ANYTHING
  }

  function PropProperties(specs: Specs): map<string, Schema> {
    if specs == [] then map[]
    else PropProperties(specs[..|specs| - 1])[specs[|specs| - 1].0 := PropSchema(specs[|specs| - 1].1)]
  }

  function RequiredNames(specs: Specs): seq<string> {
    if specs == [] then []
    else RequiredNames(specs[..|specs| - 1])
         + if specs[|specs| - 1].1.required then [specs[|specs| - 1].0] else []
  }

  function PropsSchema(specs: Specs): Schema {
    ANYTHING.(typ := Some("object"), properties := PropProperties(specs), required := RequiredNames(specs), closed := true)
  }

  function Ref(name: string): Schema {
    ANYTHING.(reference := Some(name))
  }

  function ComponentSchema(def: Component): Schema {
    var head := map["type" := ANYTHING.(constant := Some(Str(def.name)))];
    var body := if def.props == [] then head else head["props" := PropsSchema(def.props)];
    ANYTHING.(
      typ := Some("object"),
      properties := if TakesChildren(def)
                    then body["children" := NODE_LIST] else body,
      required := ["type"] + (if RequiredNames(def.props) != [] then ["props"] else []),
      closed := true)
  }

  function Variants(order: seq<string>): (r: seq<Schema>)
    ensures |r| == |order|
  {
    seq(|order|, i requires 0 <= i < |order| => Ref(order[i]))
  }

  function NodeSchema(order: seq<string>): Schema {
    ANYTHING.(oneOf := Variants(order) + [ANYTHING.(typ := Some("string"))])
  }

  function ComponentDefinitions(reg: Registry, names: seq<string>): map<string, Schema> {
    map n | n in names && n in reg.defs :: ComponentSchema(reg.defs[n])
  }

  // $defs: one definition a component, and then the node, a oneOf over all of them and text.
  function Definitions(reg: Registry): map<string, Schema> {
    (map n | n in reg.defs :: ComponentSchema(reg.defs[n]))[NODE := NodeSchema(reg.order)]
  }

  // ---- The loops that build it.

  method ComponentNodeSchema(def: Component) returns (s: Schema)
    requires DistinctNames(def.props)
    ensures s == ComponentSchema(def)
  {
    var properties := map["type" := ANYTHING.(constant := Some(Str(def.name)))];
    var required := ["type"];
    var propProps, propRequired := map[], [];
    var i := 0;
    while i < |def.props|
      invariant i <= |def.props|
      invariant propProps == PropProperties(def.props[..i]) && propRequired == RequiredNames(def.props[..i])
    {
      var (name, spec) := def.props[i];
      assert def.props[..i + 1][..i] == def.props[..i];
      propProps := propProps[name := PropSchema(spec)];
      if spec.required {
        propRequired := propRequired + [name];
      }
      i := i + 1;
    }
    assert def.props[..i] == def.props;
    PropertiesAre(def.props);
    assert def.props != [] ==> def.props[0].0 in propProps.Keys;
    if |propProps.Keys| > 0 {
      properties := properties["props" :=
        ANYTHING.(typ := Some("object"), properties := propProps, required := propRequired, closed := true)];
      if |propRequired| > 0 {
        required := required + ["props"];
      }
    }
    if !def.children.NoChildren? {
      properties := properties["children" := ANYTHING.(typ := Some("array"), items := Some(Ref(NODE)))];
    }
    s := ANYTHING.(typ := Some("object"), properties := properties, required := required, closed := true);
  }

  method TreeJsonSchema(reg: Registry) returns (defs: map<string, Schema>, root: Schema)
    requires ValidRegistry(reg)
    ensures defs == Definitions(reg) && root == Ref(NODE)
    ensures root.reference == Some("node") && defs.Keys == reg.defs.Keys + {"node"}
  {
    defs := map[];
    var variants := [];
    var i := 0;
    while i < |reg.order|
      invariant i <= |reg.order|
      invariant variants == Variants(reg.order[..i])
      invariant defs == ComponentDefinitions(reg, reg.order[..i])
    {
      assert reg.order[i] in reg.order;
      var schema := ComponentNodeSchema(reg.defs[reg.order[i]]);
      OneMoreDefinition(reg, i);
      defs := defs[reg.order[i] := schema];
      variants := variants + [Ref(reg.order[i])];
      i := i + 1;
    }
    assert reg.order[..i] == reg.order;
    AllDefinitions(reg);
    defs := defs[NODE := ANYTHING.(oneOf := variants + [ANYTHING.(typ := Some("string"))])];
    root := Ref(NODE);
  }

  lemma OneMoreDefinition(reg: Registry, i: nat)
    requires i < |reg.order| && reg.order[i] in reg.defs
    ensures ComponentDefinitions(reg, reg.order[..i + 1])
         == ComponentDefinitions(reg, reg.order[..i])[reg.order[i] := ComponentSchema(reg.defs[reg.order[i]])]
    ensures Variants(reg.order[..i + 1]) == Variants(reg.order[..i]) + [Ref(reg.order[i])]
  {
    assert reg.order[..i + 1] == reg.order[..i] + [reg.order[i]];
  }

  lemma AllDefinitions(reg: Registry)
    requires ValidRegistry(reg)
    ensures ComponentDefinitions(reg, reg.order) == map n | n in reg.defs :: ComponentSchema(reg.defs[n])
  {
  }

  // ---- Acceptance, as in JSON Schema Core 2020-12.

  predicate HasType(v: Value, typ: string) {
    match v
    case Str(_) => typ == "string"
    case Num(n) => typ == "number" && n.Finite?
    case Bool(_) => typ == "boolean"
    case Obj(_) => typ == "object"
    case Arr(_) => typ == "array"
    case Null => typ == "null"
    case Undefined => false
  }

  // `hops` bounds the chain of references followed on one and the same instance: one longer than
  // the number of definitions repeats itself and never ends. Sections 10.2.1.3 (oneOf) and
  // 10.3.2.3 (additionalProperties).
  ghost predicate Accepts(defs: map<string, Schema>, s: Schema, v: Value, hops: nat)
    decreases v, hops, s, 1
  {
    && (s.typ.Some? ==> HasType(v, s.typ.value))
    && (s.constant.Some? ==> v == s.constant.value)
    && (s.choices.Some? ==> v in s.choices.value)
    && (v.Obj? ==>
          && (forall k :: k in s.properties && k in v.fields ==> Accepts(defs, s.properties[k], v.fields[k], |defs|))
          && (forall k :: k in s.required ==> k in v.fields)
          && (s.closed ==> forall k :: k in v.fields ==> k in s.properties))
    && (v.Arr? && s.items.Some? ==>
          forall i :: 0 <= i < |v.items| ==> Accepts(defs, s.items.value, v.items[i], |defs|))
    && (s.reference.Some? ==>
          hops > 0 && s.reference.value in defs && Accepts(defs, defs[s.reference.value], v, hops - 1))
    && (s.oneOf != [] ==> ExactlyOne(AcceptsEach(defs, s, v, hops)))
  }

  ghost function AcceptsEach(defs: map<string, Schema>, s: Schema, v: Value, hops: nat): seq<bool>
    decreases v, hops, s, 0
  {
    seq(|s.oneOf|, i requires 0 <= i < |s.oneOf| => Accepts(defs, s.oneOf[i], v, hops))
  }

  ghost predicate ExactlyOne(fits: seq<bool>) {
    exists i :: 0 <= i < |fits| && fits[i] && forall j :: 0 <= j < |fits| && j != i ==> !fits[j]
  }

  ghost predicate SchemaAccepts(reg: Registry, v: Value) {
    Accepts(Definitions(reg), Ref(NODE), v, |Definitions(reg)|)
  }

  // ---- The accepted trees, said directly.

  predicate PropConforms(spec: PropSpec, v: Value) {
    match spec.typ
    case TString => v.Str?
    case TNumber => v.Num? && v.n.Finite?
    case TBoolean => v.Bool?
    case TEnum => v.Str? && v in spec.values
    case TObject => v.Obj?
    case TArray => v.Arr?
    case TOther => true
  }

  ghost predicate Specified(specs: Specs, name: string) {
    exists i :: 0 <= i < |specs| && specs[i].0 == name
  }

  ghost predicate PropsConform(specs: Specs, p: Value) {
    && p.Obj?
    && (forall k :: k in p.fields ==> Specified(specs, k))
    && (forall i :: 0 <= i < |specs| && specs[i].0 in p.fields ==> PropConforms(specs[i].1, p.fields[specs[i].0]))
    && (forall i :: 0 <= i < |specs| && specs[i].1.required ==> specs[i].0 in p.fields)
  }

  // A text, or an object that names a registered component and has nothing but its props, where
  // the component has any, and its children, where it takes any.
  ghost predicate Conforms(reg: Registry, v: Value)
    decreases v, 1
  {
    v.Str? || (v.Obj? && "type" in v.fields && v.fields["type"].Str? && v.fields["type"].s in reg.defs
               && ConformsTo(reg, reg.defs[v.fields["type"].s], v))
  }

  ghost predicate ConformsTo(reg: Registry, def: Component, v: Value)
    requires v.Obj?
    decreases v, 0
  {
    && (forall k :: k in v.fields ==> k == "type" || (k == "props" && def.props != []) || (k == "children" && TakesChildren(def)))
    && ("props" in v.fields ==> PropsConform(def.props, v.fields["props"]))
    && ((exists i :: 0 <= i < |def.props| && def.props[i].1.required) ==> "props" in v.fields)
    && ("children" in v.fields ==>
          && v.fields["children"].Arr?
          && forall i :: 0 <= i < |v.fields["children"].items| ==> Conforms(reg, v.fields["children"].items[i]))
  }

  // ---- The schema accepts exactly those.

  lemma {:induction false} PropertyNames(specs: Specs, k: string)
    ensures k in PropProperties(specs) <==> Specified(specs, k)
  {
    if specs != [] {
      var n := |specs| - 1;
      PropertyNames(specs[..n], k);
      assert Specified(specs[..n], k) || specs[n].0 == k <==> Specified(specs, k) by {
        assert forall i :: 0 <= i < n ==> specs[..n][i] == specs[i];
      }
    }
  }

  lemma {:induction false} PropertyAt(specs: Specs, i: nat)
    requires DistinctNames(specs) && i < |specs|
    ensures specs[i].0 in PropProperties(specs) && PropProperties(specs)[specs[i].0] == PropSchema(specs[i].1)
  {
    if i < |specs| - 1 {
      PropertyAt(specs[..|specs| - 1], i);
    }
  }

  lemma PropertiesAre(specs: Specs)
    requires DistinctNames(specs)
    ensures forall k :: k in PropProperties(specs) <==> Specified(specs, k)
    ensures forall i :: 0 <= i < |specs| ==>
      specs[i].0 in PropProperties(specs) && PropProperties(specs)[specs[i].0] == PropSchema(specs[i].1)
  {
    forall k ensures k in PropProperties(specs) <==> Specified(specs, k) {
      PropertyNames(specs, k);
    }
    forall i | 0 <= i < |specs|
      ensures specs[i].0 in PropProperties(specs) && PropProperties(specs)[specs[i].0] == PropSchema(specs[i].1)
    {
      PropertyAt(specs, i);
    }
  }

  lemma {:induction false} RequiredAre(specs: Specs)
    ensures forall k :: k in RequiredNames(specs) <==> exists i :: 0 <= i < |specs| && specs[i].1.required && specs[i].0 == k
  {
    if specs != [] {
      var n := |specs| - 1;
      var front := specs[..n];
      RequiredAre(front);
      assert forall i :: 0 <= i < n ==> front[i] == specs[i];
      forall k ensures k in RequiredNames(specs) <==> exists i :: 0 <= i < |specs| && specs[i].1.required && specs[i].0 == k {
        if specs[n].1.required && specs[n].0 == k {
          assert k in RequiredNames(specs);
        } else {
          assert k in RequiredNames(specs) <==> k in RequiredNames(front);
          assert (exists i :: 0 <= i < |specs| && specs[i].1.required && specs[i].0 == k)
            <==> exists i :: 0 <= i < n && front[i].1.required && front[i].0 == k;
        }
      }
    }
  }

  lemma PropAccepted(defs: map<string, Schema>, spec: PropSpec, v: Value, hops: nat)
    ensures Accepts(defs, PropSchema(spec), v, hops) <==> PropConforms(spec, v)
  {
  }

  lemma PropsAccepted(defs: map<string, Schema>, specs: Specs, p: Value, hops: nat)
    requires DistinctNames(specs)
    ensures Accepts(defs, PropsSchema(specs), p, hops) <==> PropsConform(specs, p)
  {
    PropertiesAre(specs);
    RequiredAre(specs);
    if p.Obj? {
      forall i | 0 <= i < |specs| && specs[i].0 in p.fields
        ensures Accepts(defs, PropProperties(specs)[specs[i].0], p.fields[specs[i].0], |defs|)
           <==> PropConforms(specs[i].1, p.fields[specs[i].0])
      {
        PropAccepted(defs, specs[i].1, p.fields[specs[i].0], |defs|);
      }
      if PropsConform(specs, p) {
        forall k | k in PropProperties(specs) && k in p.fields
          ensures Accepts(defs, PropProperties(specs)[k], p.fields[k], |defs|)
        {
          var i :| 0 <= i < |specs| && specs[i].0 == k;
        }
      }
    }
  }

  lemma RefAccepted(defs: map<string, Schema>, name: string, v: Value, hops: nat)
    requires name in defs && hops > 0
    ensures Accepts(defs, Ref(name), v, hops) <==> Accepts(defs, defs[name], v, hops - 1)
  {
  }

  lemma {:induction false} NodeAccepted(reg: Registry, v: Value)
    requires ValidRegistry(reg) && NODE !in reg.defs
    ensures SchemaAccepts(reg, v) <==> Conforms(reg, v)
    decreases v, 4
  {
    var defs := Definitions(reg);
    assert NODE in defs && |defs| > 0;
    RefAccepted(defs, NODE, v, |defs|);
    OneOfAccepted(reg, v);
  }

  lemma OneOfMeans(defs: map<string, Schema>, order: seq<string>, v: Value, hops: nat, fits: seq<bool>)
    requires |fits| == |order| + 1
    requires forall i :: 0 <= i < |fits| ==> (fits[i] <==> Accepts(defs, NodeSchema(order).oneOf[i], v, hops))
    ensures Accepts(defs, NodeSchema(order), v, hops) <==> ExactlyOne(fits)
  {
    assert fits == AcceptsEach(defs, NodeSchema(order), v, hops);
  }

  lemma {:induction false} VariantMeans(reg: Registry, v: Value, i: nat)
    requires ValidRegistry(reg) && NODE !in reg.defs && i <= |reg.order|
    ensures |Definitions(reg)| > 0
    ensures Accepts(Definitions(reg), NodeSchema(reg.order).oneOf[i], v, |Definitions(reg)| - 1)
       <==> if i == |reg.order| then v.Str? else TypeIs(v, reg.order[i]) && Conforms(reg, v)
    decreases v, 2
  {
    assert NODE in Definitions(reg);
    if i < |reg.order| {
      assert reg.order[i] in reg.order;
      VariantAccepted(reg, reg.order[i], v);
    } else {
      TextAccepted(Definitions(reg), v, |Definitions(reg)| - 1);
    }
  }

  // At most one variant fits, by its `type`, so "exactly one" is "some".
  lemma {:induction false} OneOfAccepted(reg: Registry, v: Value)
    requires ValidRegistry(reg) && NODE !in reg.defs
    ensures |Definitions(reg)| > 0
    ensures Accepts(Definitions(reg), NodeSchema(reg.order), v, |Definitions(reg)| - 1) <==> Conforms(reg, v)
    decreases v, 3
  {
    var defs, n := Definitions(reg), |reg.order|;
    assert NODE in defs;
    var conforms := Conforms(reg, v);
    var fits := seq(n + 1, i requires 0 <= i < n + 1 => if i == n then v.Str? else TypeIs(v, reg.order[i]) && conforms);
    forall i | 0 <= i < n + 1 ensures fits[i] <==> Accepts(defs, NodeSchema(reg.order).oneOf[i], v, |defs| - 1) {
      VariantMeans(reg, v, i);
    }
    OneOfMeans(defs, reg.order, v, |defs| - 1, fits);
    OneVariantFits(reg, v, fits, conforms);
  }

  lemma TextAccepted(defs: map<string, Schema>, v: Value, hops: nat)
    ensures Accepts(defs, ANYTHING.(typ := Some("string")), v, hops) <==> v.Str?
  {
  }

  predicate TypeIs(v: Value, name: string) {
    v.Obj? && "type" in v.fields && v.fields["type"] == Str(name)
  }

  // A node names one registered component only.
  lemma OneName(reg: Registry, v: Value, name: string) returns (i: nat)
    requires ValidRegistry(reg) && name in reg.defs && TypeIs(v, name)
    ensures i < |reg.order| && TypeIs(v, reg.order[i])
    ensures forall j :: 0 <= j < |reg.order| && j != i ==> !TypeIs(v, reg.order[j])
  {
    assert name in reg.order;
    i :| 0 <= i < |reg.order| && reg.order[i] == name;
    forall j | 0 <= j < |reg.order| && TypeIs(v, reg.order[j]) ensures j == i {
      assert Str(reg.order[j]) == Str(name);
    }
  }

  lemma OneVariantFits(reg: Registry, v: Value, fits: seq<bool>, conforms: bool)
    requires ValidRegistry(reg) && |fits| == |reg.order| + 1
    requires fits[|reg.order|] == v.Str?
    requires v.Str? ==> conforms
    requires !v.Str? && conforms ==> exists name :: name in reg.defs && TypeIs(v, name)
    requires forall i :: 0 <= i < |reg.order| ==> fits[i] == (TypeIs(v, reg.order[i]) && conforms)
    ensures ExactlyOne(fits) <==> conforms
  {
    var n := |reg.order|;
    if v.Str? {
      assert fits[n] && forall j :: 0 <= j < n ==> !fits[j];
    } else if conforms {
      var name :| name in reg.defs && TypeIs(v, name);
      var i := OneName(reg, v, name);
      assert fits[i] && forall j :: 0 <= j < n && j != i ==> !fits[j];
    } else {
      assert forall i :: 0 <= i <= n ==> !fits[i];
    }
  }

  // v is a node of the component with this name.
  ghost predicate Fits(reg: Registry, name: string, v: Value)
    requires v.Obj? && name in reg.defs
  {
    "type" in v.fields && v.fields["type"] == Str(name) && ConformsTo(reg, reg.defs[name], v)
  }

  lemma TwoDefinitions(reg: Registry, name: string)
    requires name in reg.defs && NODE !in reg.defs
    ensures |Definitions(reg)| >= 2
  {
    var defs := Definitions(reg);
    assert {name, NODE} <= defs.Keys;
    assert |{name, NODE}| == 2;
    SubsetSize({name, NODE}, defs.Keys);
  }

  lemma {:induction false} SubsetSize<T>(a: set<T>, b: set<T>)
    requires a <= b
    ensures |a| <= |b|
  {
    if a != {} {
      var x :| x in a;
      SubsetSize(a - {x}, b - {x});
    }
  }

  lemma {:induction false} VariantAccepted(reg: Registry, name: string, v: Value)
    requires ValidRegistry(reg) && NODE !in reg.defs && name in reg.defs
    ensures |Definitions(reg)| > 0
    ensures Accepts(Definitions(reg), Ref(name), v, |Definitions(reg)| - 1) <==> v.Obj? && Fits(reg, name, v)
    decreases v, 1
  {
    var defs := Definitions(reg);
    TwoDefinitions(reg, name);
    RefAccepted(defs, name, v, |defs| - 1);
    if v.Obj? {
      ComponentAccepted(reg, reg.defs[name], v, |defs| - 2);
    }
  }

  // The keywords of a component's schema, spelled out.
  lemma ComponentMeans(defs: map<string, Schema>, def: Component, v: Value, hops: nat)
    requires v.Obj?
    ensures Accepts(defs, ComponentSchema(def), v, hops) <==>
      && "type" in v.fields && v.fields["type"] == Str(def.name)
      && (forall k :: k in v.fields ==>
            k == "type" || (k == "props" && def.props != []) || (k == "children" && TakesChildren(def)))
      && ("props" in v.fields && def.props != [] ==> Accepts(defs, PropsSchema(def.props), v.fields["props"], |defs|))
      && ("children" in v.fields && TakesChildren(def) ==> Accepts(defs, NODE_LIST, v.fields["children"], |defs|))
      && (RequiredNames(def.props) != [] ==> "props" in v.fields)
  {
    var s := ComponentSchema(def);
    ComponentKeys(def);
    assert "type" in v.fields ==>
      (Accepts(defs, s.properties["type"], v.fields["type"], |defs|) <==> v.fields["type"] == Str(def.name));
  }

  lemma ComponentKeys(def: Component)
    ensures var s := ComponentSchema(def);
      && (forall k :: k in s.properties <==>
            k == "type" || (k == "props" && def.props != []) || (k == "children" && TakesChildren(def)))
      && s.properties["type"] == ANYTHING.(constant := Some(Str(def.name)))
      && (def.props != [] ==> s.properties["props"] == PropsSchema(def.props))
      && (TakesChildren(def) ==> s.properties["children"] == NODE_LIST)
      && (forall k :: k in s.required <==> k == "type" || (k == "props" && RequiredNames(def.props) != []))
  {
  }

  lemma {:induction false} ComponentAccepted(reg: Registry, def: Component, v: Value, hops: nat)
    requires ValidRegistry(reg) && NODE !in reg.defs && v.Obj? && DistinctNames(def.props)
    ensures Accepts(Definitions(reg), ComponentSchema(def), v, hops)
       <==> "type" in v.fields && v.fields["type"] == Str(def.name) && ConformsTo(reg, def, v)
    decreases v, 0
  {
    var defs := Definitions(reg);
    ComponentMeans(defs, def, v, hops);
    RequiredPropsMean(def.props);
    if "props" in v.fields {
      PropsAccepted(defs, def.props, v.fields["props"], |defs|);
    }
    if "children" in v.fields {
      ChildrenAccepted(reg, v.fields["children"], |defs|);
    }
  }

  lemma RequiredPropsMean(specs: Specs)
    ensures RequiredNames(specs) != [] <==> exists i :: 0 <= i < |specs| && specs[i].1.required
  {
    RequiredAre(specs);
    if RequiredNames(specs) != [] {
      assert RequiredNames(specs)[0] in RequiredNames(specs);
    }
    assert forall i :: 0 <= i < |specs| && specs[i].1.required ==> specs[i].0 in RequiredNames(specs);
  }

  lemma {:induction false} ChildrenAccepted(reg: Registry, list: Value, hops: nat)
    requires ValidRegistry(reg) && NODE !in reg.defs
    ensures Accepts(Definitions(reg), NODE_LIST, list, hops)
       <==> list.Arr? && forall i :: 0 <= i < |list.items| ==> Conforms(reg, list.items[i])
    decreases list, 5
  {
    if list.Arr? {
      forall i | 0 <= i < |list.items| ensures SchemaAccepts(reg, list.items[i]) <==> Conforms(reg, list.items[i]) {
        NodeAccepted(reg, list.items[i]);
      }
    }
  }

  // ---- What the validator says of accepted trees.

  // Every prop spec has one of the six named types.
  ghost predicate Typed(reg: Registry) {
    forall n, i :: n in reg.defs && 0 <= i < |reg.defs[n].props| ==> !reg.defs[n].props[i].1.typ.TOther?
  }

  lemma ConformingPropsPass(env: Env, specs: Specs, p: Value)
    requires Lawful(env) && PropsConform(specs, p)
    requires forall i :: 0 <= i < |specs| ==> !specs[i].1.typ.TOther?
    ensures PropErrors(env, specs, p) == []
  {
    NoPropErrorsIff(env, specs, p);
    forall i | 0 <= i < |specs| ensures CheckAt(env, specs, p, i).Ok? {
      if specs[i].0 in p.fields {
        assert PropConforms(specs[i].1, p.fields[specs[i].0]);
      }
    }
  }

  ghost predicate OnlyDisallowed(errors: seq<TreeError>) {
    forall e :: e in errors ==> e.DisallowedChild?
  }

  lemma ConformingNodeIsKnown(env: Env, reg: Registry, v: Value, parent: Option<Component>)
    requires Lawful(env) && ValidRegistry(reg) && Typed(reg) && Conforms(reg, v) && v.Obj?
    requires parent.Some? ==> ChildAllowed(parent.value, v.fields["type"].s)
    ensures var verdict := Judge(env, reg, v, parent);
      verdict.Known? && verdict.def == reg.defs[v.fields["type"].s] && verdict.errors == []
  {
    var def := reg.defs[v.fields["type"].s];
    if "props" in v.fields {
      ConformingPropsPass(env, def.props, v.fields["props"]);
    } else {
      ConformingPropsPass(env, def.props, Obj(map[]));
    }
  }

  // The rule that the schema does not express: a component stands only below one that allows it.
  ghost predicate KidsAllowed(reg: Registry, v: Value, parent: Option<Component>)
    decreases v, 1
  {
    TypeOf(v).Str? && TypeOf(v).s in reg.defs ==>
      var def := reg.defs[TypeOf(v).s];
      && (parent.Some? ==> ChildAllowed(parent.value, def.name))
      && (Kids(v, def).Some? ==> AllKidsAllowed(reg, Kids(v, def).value, def))
  }

  ghost predicate AllKidsAllowed(reg: Registry, nodes: seq<Value>, def: Component)
    decreases nodes, 0
  {
    nodes == [] || (KidsAllowed(reg, nodes[0], Some(def)) && AllKidsAllowed(reg, nodes[1..], def))
  }

  lemma {:induction false} ConformingErrors(env: Env, reg: Registry, v: Value, path: seq<nat>, parent: Option<Component>)
    requires Lawful(env) && ValidRegistry(reg) && Typed(reg) && Conforms(reg, v)
    ensures OnlyDisallowed(Errors(env, reg, v, path, parent))
    ensures Errors(env, reg, v, path, parent) == [] <==> KidsAllowed(reg, v, parent)
    decreases v, 1
  {
    if v.Obj? && (parent.Some? ==> ChildAllowed(parent.value, v.fields["type"].s)) {
      ConformingNodeIsKnown(env, reg, v, parent);
      var def := reg.defs[v.fields["type"].s];
      assert InvalidProps(path, def.name, []) == [];
      if Kids(v, def).Some? {
        ConformingErrorsAll(env, reg, Kids(v, def).value, path, 0, def);
      }
    }
  }

  lemma {:induction false} ConformingErrorsAll(env: Env, reg: Registry, nodes: seq<Value>, path: seq<nat>, k: nat, def: Component)
    requires Lawful(env) && ValidRegistry(reg) && Typed(reg)
    requires forall i :: 0 <= i < |nodes| ==> Conforms(reg, nodes[i])
    ensures OnlyDisallowed(ErrorsAll(env, reg, nodes, path, k, def))
    ensures ErrorsAll(env, reg, nodes, path, k, def) == [] <==> AllKidsAllowed(reg, nodes, def)
    decreases nodes, 0
  {
    if nodes != [] {
      ConformingErrors(env, reg, nodes[0], path + [k], Some(def));
      ConformingErrorsAll(env, reg, nodes[1..], path, k + 1, def);
    }
  }

  // Trees the schema accepts fail the validator, if at all, only by children their parent does
  // not allow: the one rule that the schema does not express.
  lemma AcceptedTreesOnlyDisallow(env: Env, reg: Registry, tree: Value)
    requires Lawful(env) && ValidRegistry(reg) && Typed(reg) && NODE !in reg.defs && SchemaAccepts(reg, tree)
    ensures OnlyDisallowed(Errors(env, reg, tree, [], None))
  {
    NodeAccepted(reg, tree);
    ConformingErrors(env, reg, tree, [], None);
  }

  // An accepted tree is valid exactly when every component in it stands where it is allowed.
  lemma AcceptedTreeIsValidIff(env: Env, reg: Registry, tree: Value)
    requires Lawful(env) && ValidRegistry(reg) && Typed(reg) && NODE !in reg.defs && SchemaAccepts(reg, tree)
    ensures Errors(env, reg, tree, [], None) == [] <==> KidsAllowed(reg, tree, None)
  {
    NodeAccepted(reg, tree);
    ConformingErrors(env, reg, tree, [], None);
  }

  // ---- For which registries every accepted tree is valid.

  // Some props are accepted: every required enum offers a text.
  predicate Fillable(specs: Specs) {
    forall i :: 0 <= i < |specs| && specs[i].1.required && specs[i].1.typ.TEnum? ==> FirstText(specs[i].1.values).Some?
  }

  function FirstText(values: seq<Value>): (r: Option<Value>)
    ensures r.Some? ==> r.value in values && r.value.Str?
    ensures r.None? ==> forall i :: 0 <= i < |values| ==> !values[i].Str?
  {
    if values == [] then None else if values[0].Str? then Some(values[0]) else FirstText(values[1..])
  }

  // Every component that can occur is allowed below every one that can occur and takes children.
  ghost predicate OpenToAll(reg: Registry) {
    forall p, c ::
      p in reg.defs && c in reg.defs && TakesChildren(reg.defs[p]) && Fillable(reg.defs[p].props) && Fillable(reg.defs[c].props) ==>
        ChildAllowed(reg.defs[p], c)
  }

  lemma ConformingIsFillable(specs: Specs, p: Value)
    requires PropsConform(specs, p)
    ensures Fillable(specs)
  {
    forall i | 0 <= i < |specs| && specs[i].1.required && specs[i].1.typ.TEnum?
      ensures FirstText(specs[i].1.values).Some?
    {
      assert PropConforms(specs[i].1, p.fields[specs[i].0]);
    }
  }

  lemma ConformingNodeIsFillable(reg: Registry, v: Value)
    requires Conforms(reg, v) && v.Obj?
    ensures Fillable(reg.defs[v.fields["type"].s].props)
  {
    if "props" in v.fields {
      ConformingIsFillable(reg.defs[v.fields["type"].s].props, v.fields["props"]);
    }
  }

  lemma {:induction false} OpenKidsAllowed(reg: Registry, v: Value, parent: Option<Component>)
    requires ValidRegistry(reg) && OpenToAll(reg) && Conforms(reg, v)
    requires parent.Some? ==>
      && parent.value.name in reg.defs && reg.defs[parent.value.name] == parent.value
      && TakesChildren(parent.value) && Fillable(parent.value.props)
    ensures KidsAllowed(reg, v, parent)
    decreases v, 1
  {
    if v.Obj? {
      var def := reg.defs[v.fields["type"].s];
      ConformingNodeIsFillable(reg, v);
      if Kids(v, def).Some? {
        OpenAllKidsAllowed(reg, Kids(v, def).value, def);
      }
    }
  }

  lemma {:induction false} OpenAllKidsAllowed(reg: Registry, nodes: seq<Value>, def: Component)
    requires ValidRegistry(reg) && OpenToAll(reg) && forall i :: 0 <= i < |nodes| ==> Conforms(reg, nodes[i])
    requires def.name in reg.defs && reg.defs[def.name] == def && TakesChildren(def) && Fillable(def.props)
    ensures AllKidsAllowed(reg, nodes, def)
    decreases nodes, 0
  {
    if nodes != [] {
      OpenKidsAllowed(reg, nodes[0], Some(def));
      OpenAllKidsAllowed(reg, nodes[1..], def);
    }
  }

  function SampleValue(spec: PropSpec): Value {
    match spec.typ
    case TString => Str("")
    case TNumber => Num(Finite(0.0))
    case TBoolean => Bool(false)
    case TEnum => if FirstText(spec.values).Some? then FirstText(spec.values).value else Null
    case TObject => Obj(map[])
    case TArray => Arr([])
    case TOther => Null
  }

  // Props with the required ones only.
  function SampleProps(specs: Specs): map<string, Value> {
    if specs == [] then map[]
    else
      var n := |specs| - 1;
      if specs[n].1.required then SampleProps(specs[..n])[specs[n].0 := SampleValue(specs[n].1)]
      else SampleProps(specs[..n])
  }

  lemma {:induction false} SamplePropsAt(specs: Specs)
    requires DistinctNames(specs)
    ensures forall k :: k in SampleProps(specs) ==> Specified(specs, k)
    ensures forall i :: 0 <= i < |specs| ==>
      (specs[i].1.required <==> specs[i].0 in SampleProps(specs))
      && (specs[i].1.required ==> SampleProps(specs)[specs[i].0] == SampleValue(specs[i].1))
  {
    if specs != [] {
      var n := |specs| - 1;
      var front := specs[..n];
      SamplePropsAt(front);
      assert forall i :: 0 <= i < n ==> front[i] == specs[i];
      forall k | k in SampleProps(specs) ensures Specified(specs, k) {
        if k in SampleProps(front) {
          var i :| 0 <= i < n && front[i].0 == k;
          assert specs[i].0 == k;
        } else {
          assert specs[n].0 == k;
        }
      }
      assert !Specified(front, specs[n].0);
    }
  }

  lemma SamplePropsConform(specs: Specs)
    requires DistinctNames(specs) && Fillable(specs)
    ensures PropsConform(specs, Obj(SampleProps(specs)))
  {
    SamplePropsAt(specs);
    forall i | 0 <= i < |specs| && specs[i].1.required ensures PropConforms(specs[i].1, SampleValue(specs[i].1)) {
    }
  }

  // A node of a component that can occur, with children if they are given, conforms.
  lemma SampleConforms(reg: Registry, def: Component, kids: Option<seq<Value>>)
    requires ValidRegistry(reg) && def.name in reg.defs && reg.defs[def.name] == def && Fillable(def.props)
    requires kids.Some? ==> TakesChildren(def) && forall i :: 0 <= i < |kids.value| ==> Conforms(reg, kids.value[i])
    ensures Conforms(reg, Build(def.name, SampleProps(def.props), kids))
  {
    SamplePropsConform(def.props);
    SamplePropsAt(def.props);
    var v := Build(def.name, SampleProps(def.props), kids);
    assert "props" in v.fields <==> SampleProps(def.props) != map[];
    assert def.props == [] ==> SampleProps(def.props) == map[];
    assert ConformsTo(reg, def, v);
  }

  // A component below another, with required props only.
  function Pair(parent: Component, child: Component): Value {
    Build(parent.name, SampleProps(parent.props), Some([Build(child.name, SampleProps(child.props), None)]))
  }

  lemma PairIsAccepted(reg: Registry, p: string, c: string)
    requires ValidRegistry(reg) && NODE !in reg.defs && p in reg.defs && c in reg.defs && TakesChildren(reg.defs[p])
    requires Fillable(reg.defs[p].props) && Fillable(reg.defs[c].props)
    ensures Conforms(reg, Pair(reg.defs[p], reg.defs[c])) && SchemaAccepts(reg, Pair(reg.defs[p], reg.defs[c]))
  {
    var child := Build(c, SampleProps(reg.defs[c].props), None);
    SampleConforms(reg, reg.defs[c], None);
    SampleConforms(reg, reg.defs[p], Some([child]));
    NodeAccepted(reg, Pair(reg.defs[p], reg.defs[c]));
  }

  // The schema accepts the pair, and the validator reports the child where it is not allowed.
  lemma PairIsDisallowed(env: Env, reg: Registry, p: string, c: string)
    requires Lawful(env) && ValidRegistry(reg) && Typed(reg) && NODE !in reg.defs && p in reg.defs && c in reg.defs
    requires TakesChildren(reg.defs[p]) && Fillable(reg.defs[p].props) && Fillable(reg.defs[c].props)
    requires !ChildAllowed(reg.defs[p], c)
    ensures SchemaAccepts(reg, Pair(reg.defs[p], reg.defs[c]))
    ensures Errors(env, reg, Pair(reg.defs[p], reg.defs[c]), [], None) == [DisallowedChild([0], p, c)]
  {
    var def, child := reg.defs[p], Build(c, SampleProps(reg.defs[c].props), None);
    PairIsAccepted(reg, p, c);
    ConformingNodeIsKnown(env, reg, Pair(def, reg.defs[c]), None);
    MisplacedChild(env, reg, child, def, reg.defs[c]);
    OnlyChild(env, reg, Pair(def, reg.defs[c]), child, def);
  }

  lemma MisplacedChild(env: Env, reg: Registry, child: Value, parent: Component, def: Component)
    requires def.name in reg.defs && !ChildAllowed(parent, def.name) && def.name != ""
    requires child == Build(def.name, SampleProps(def.props), None)
    ensures Errors(env, reg, child, [0], Some(parent)) == [DisallowedChild([0], parent.name, def.name)]
  {
    assert TypeOf(child) == Str(def.name);
  }

  // A component without prop errors has the errors of its only child.
  lemma OnlyChild(env: Env, reg: Registry, v: Value, child: Value, def: Component)
    requires v.Obj? && Field(v.fields, "children") == Arr([child]) && TakesChildren(def)
    requires Judge(env, reg, v, None).Known? && Judge(env, reg, v, None).def == def && Judge(env, reg, v, None).errors == []
    ensures Errors(env, reg, v, [], None) == Errors(env, reg, child, [0], Some(def))
  {
    assert [child][1..] == [] && [] + [0] == [0];
    assert ErrorsAll(env, reg, [], [], 1, def) == [];
    assert ErrorsAll(env, reg, [child], [], 0, def) == Errors(env, reg, child, [0], Some(def));
    assert InvalidProps([], def.name, []) == [];
  }

  // Two components, of which the first lists only itself: the schema accepts B below A.
  const PICKY := Component("A", [], Only(["A"]))
  const PLAIN := Component("B", [], NoChildren)
  const PICKY_REGISTRY := Registry(["A", "B"], map["A" := PICKY, "B" := PLAIN])

  lemma AcceptedButDisallowed(env: Env)
    requires Lawful(env)
    ensures
      var tree := Build("A", map[], Some([Build("B", map[], None)]));
      && ValidRegistry(PICKY_REGISTRY) && SchemaAccepts(PICKY_REGISTRY, tree)
      && Errors(env, PICKY_REGISTRY, tree, [], None) == [DisallowedChild([0], "A", "B")]
  {
    assert Pair(PICKY, PLAIN) == Build("A", map[], Some([Build("B", map[], None)]));
    PairIsDisallowed(env, PICKY_REGISTRY, "A", "B");
  }

  // The schema rules out every invalid tree exactly when every component that can occur is
  // allowed below every one that takes children.
  lemma AcceptedAlwaysValidIff(env: Env, reg: Registry)
    requires Lawful(env) && ValidRegistry(reg) && Typed(reg) && NODE !in reg.defs
    ensures (forall tree :: SchemaAccepts(reg, tree) ==> Errors(env, reg, tree, [], None) == []) <==> OpenToAll(reg)
  {
    if OpenToAll(reg) {
      forall tree | SchemaAccepts(reg, tree) ensures Errors(env, reg, tree, [], None) == [] {
        NodeAccepted(reg, tree);
        OpenKidsAllowed(reg, tree, None);
        AcceptedTreeIsValidIff(env, reg, tree);
      }
    } else {
      var p, c :| p in reg.defs && c in reg.defs && TakesChildren(reg.defs[p])
        && Fillable(reg.defs[p].props) && Fillable(reg.defs[c].props) && !ChildAllowed(reg.defs[p], c);
      PairIsDisallowed(env, reg, p, c);
      assert Errors(env, reg, Pair(reg.defs[p], reg.defs[c]), [], None) != [];
    }
  }

  // In particular where every children policy is true or false, or lists all there is.
  lemma AcceptedTreesAreValid(env: Env, reg: Registry, tree: Value)
    requires Lawful(env) && ValidRegistry(reg) && Typed(reg) && NODE !in reg.defs && SchemaAccepts(reg, tree)
    requires forall p, c :: p in reg.defs && c in reg.defs && reg.defs[p].children.Only? ==> c in reg.defs[p].children.names
    ensures Errors(env, reg, tree, [], None) == []
  {
    AcceptedAlwaysValidIff(env, reg);
  }

  // Why no component may be named `node`: its own definition is overwritten by the definition of a
  // node, which then refers to itself on one and the same instance, as no instance can settle.
  lemma NodeRefersToItself(reg: Registry)
    requires ValidRegistry(reg) && NODE in reg.defs
    ensures Definitions(reg)[NODE] == NodeSchema(reg.order)
    ensures exists i :: 0 <= i < |NodeSchema(reg.order).oneOf| && NodeSchema(reg.order).oneOf[i] == Ref(NODE)
  {
    assert NODE in reg.order;
    var i :| 0 <= i < |reg.order| && reg.order[i] == NODE;
    assert NodeSchema(reg.order).oneOf[i] == Ref(NODE);
  }
}
