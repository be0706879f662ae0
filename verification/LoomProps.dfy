// Component props: JavaScript values, prop specs, and the check-and-coerce step of
// loom/src/schema.js that validator and renderer share.
module LoomProps {
  import opened Options

  datatype Number = Finite(r: real) | PosInf | NegInf | NaN

  // A JavaScript value as a UI tree holds it.
  datatype Value =
    | Undefined
    | Null
    | Bool(b: bool)
    | Num(n: Number)
    | Str(s: string)
    | Arr(items: seq<Value>)
    | Obj(fields: map<string, Value>)

  predicate Missing(v: Value) {
    v.Undefined? || v.Null?
  }

  predicate Truthy(v: Value) {
    match v
    case Undefined => false
    case Null => false
    case Bool(b) => b
    case Num(n) => n != NaN && n != Finite(0.0)
    case Str(s) => s != ""
    case Arr(_) => true
    case Obj(_) => true
  }

  datatype PropType = TString | TNumber | TBoolean | TEnum | TObject | TArray | TOther

  datatype PropSpec = PropSpec(typ: PropType, required: bool, default: Option<Value>, values: seq<Value>)

  type Specs = seq<(string, PropSpec)>

  datatype PropError =
    | Required(name: string)
    | NotANumber(name: string, value: Value)
    | NotInEnum(name: string, values: seq<Value>)
    | NotAnObject(name: string)
    | NotAnArray(name: string)

  // The parts of the language that stay uninterpreted: String(v), Number(v), the read v[key] of a
  // value that is no plain object, and which error texts contain "is required".
  datatype Env = Env(
    toText: Value -> string,
    toNumber: Value -> Number,
    member: (Value, string) -> Value,
    fatal: PropError -> bool)

  // Coercion leaves a value of the right type alone, and a missing required prop is fatal. The
  // text of other errors quotes names and values, so those may be fatal too.
  ghost predicate Lawful(env: Env) {
    && (forall s :: env.toText(Str(s)) == s)
    && (forall n :: env.toNumber(Num(n)) == n)
    && (forall name :: env.fatal(Required(name)))
  }

  function Field(fields: map<string, Value>, key: string): Value {
    if key in fields then fields[key] else Undefined
  }

  function Read(env: Env, v: Value, key: string): Value {
    if v.Obj? then Field(v.fields, key) else env.member(v, key)
  }

  datatype Checked = Ok(value: Value) | Err(error: PropError)

  function ValidateProp(env: Env, name: string, spec: PropSpec, value: Value): Checked {
    if Missing(value) then
      if spec.required then Err(Required(name))
      else if spec.default.Some? then Ok(spec.default.value)
      else Ok(Undefined)
    else match spec.typ
      case TString => Ok(Str(env.toText(value)))
      case TNumber =>
        var n := env.toNumber(value);
        if n == NaN then Err(NotANumber(name, value)) else Ok(Num(n))
      case TBoolean => Ok(Bool(Truthy(value)))
      case TEnum => if value in spec.values then Ok(value) else Err(NotInEnum(name, spec.values))
      case TObject => if value.Obj? then Ok(value) else Err(NotAnObject(name))
      case TArray => if value.Arr? then Ok(value) else Err(NotAnArray(name))
      case TOther => Ok(value)
  }

  function CheckAt(env: Env, specs: Specs, props: Value, i: nat): Checked
    requires i < |specs|
  {
    ValidateProp(env, specs[i].0, specs[i].1, Read(env, props, specs[i].0))
  }

  // validateProps: the accepted values by name, and the errors in the order of the specs.
  function KeptProps(env: Env, specs: Specs, props: Value): map<string, Value> {
    if specs == [] then map[]
    else
      var n := |specs| - 1;
      var kept := KeptProps(env, specs[..n], props);
      var c := CheckAt(env, specs, props, n);
      if c.Ok? && c.value != Undefined then kept[specs[n].0 := c.value] else kept
  }

  function PropErrors(env: Env, specs: Specs, props: Value): seq<PropError> {
    if specs == [] then []
    else
      var n := |specs| - 1;
      var c := CheckAt(env, specs, props, n);
      PropErrors(env, specs[..n], props) + if c.Err? then [c.error] else []
  }

  predicate AnyFatal(env: Env, errors: seq<PropError>) {
    exists i :: 0 <= i < |errors| && env.fatal(errors[i])
  }

  method ValidateProps(env: Env, specs: Specs, props: Value) returns (kept: map<string, Value>, errors: seq<PropError>)
    ensures kept == KeptProps(env, specs, props) && errors == PropErrors(env, specs, props)
  {
    kept, errors := map[], [];
    var i := 0;
    while i < |specs|
      invariant i <= |specs|
      invariant kept == KeptProps(env, specs[..i], props) && errors == PropErrors(env, specs[..i], props)
    {
      var (name, spec) := specs[i];
      var res := ValidateProp(env, name, spec, Read(env, props, name));
      assert specs[..i + 1][..i] == specs[..i];
      if res.Err? {
        errors := errors + [res.error];
      } else if res.value != Undefined {
        kept := kept[name := res.value];
      }
      i := i + 1;
    }
    assert specs[..i] == specs;
  }

  // Object.entries yields each prop name once.
  ghost predicate DistinctNames(specs: Specs) {
    forall i, j :: 0 <= i < j < |specs| ==> specs[i].0 != specs[j].0
  }

  // Props without a spec are dropped.
  lemma {:induction false} UnknownPropsDropped(env: Env, specs: Specs, props: Value, name: string)
    requires forall i :: 0 <= i < |specs| ==> specs[i].0 != name
    ensures name !in KeptProps(env, specs, props)
  {
    if specs != [] {
      UnknownPropsDropped(env, specs[..|specs| - 1], props, name);
    }
  }

  // A kept prop is the accepted value of its spec; a rejected or undefined one is absent.
  lemma {:induction false} KeptPropsAt(env: Env, specs: Specs, props: Value, i: nat)
    requires DistinctNames(specs) && i < |specs|
    ensures Field(KeptProps(env, specs, props), specs[i].0)
         == if CheckAt(env, specs, props, i).Ok? then CheckAt(env, specs, props, i).value else Undefined
  {
    var n := |specs| - 1;
    if i < n {
      assert CheckAt(env, specs[..n], props, i) == CheckAt(env, specs, props, i);
      KeptPropsAt(env, specs[..n], props, i);
    } else {
      UnknownPropsDropped(env, specs[..n], props, specs[n].0);
    }
  }

  lemma {:induction false} KeptPropsDefined(env: Env, specs: Specs, props: Value)
    ensures forall name :: name in KeptProps(env, specs, props) ==> KeptProps(env, specs, props)[name] != Undefined
  {
    if specs != [] {
      KeptPropsDefined(env, specs[..|specs| - 1], props);
    }
  }

  lemma {:induction false} PropErrorsMembers(env: Env, specs: Specs, props: Value)
    ensures forall e :: e in PropErrors(env, specs, props) <==>
      exists i :: 0 <= i < |specs| && CheckAt(env, specs, props, i) == Err(e)
  {
    if specs != [] {
      var n := |specs| - 1;
      PropErrorsMembers(env, specs[..n], props);
      assert forall i :: 0 <= i < n ==> CheckAt(env, specs[..n], props, i) == CheckAt(env, specs, props, i);
      forall e | e in PropErrors(env, specs, props)
        ensures exists i :: 0 <= i < |specs| && CheckAt(env, specs, props, i) == Err(e)
      {
        if e in PropErrors(env, specs[..n], props) {
          var i :| 0 <= i < n && CheckAt(env, specs[..n], props, i) == Err(e);
          assert CheckAt(env, specs, props, i) == Err(e);
        } else {
          assert CheckAt(env, specs, props, n) == Err(e);
        }
      }
      forall e | exists i :: 0 <= i < |specs| && CheckAt(env, specs, props, i) == Err(e)
        ensures e in PropErrors(env, specs, props)
      {
        var i :| 0 <= i < |specs| && CheckAt(env, specs, props, i) == Err(e);
        if i < n {
          assert CheckAt(env, specs[..n], props, i) == Err(e);
        }
      }
    }
  }

  lemma NoPropErrorsIff(env: Env, specs: Specs, props: Value)
    ensures PropErrors(env, specs, props) == [] <==> forall i :: 0 <= i < |specs| ==> CheckAt(env, specs, props, i).Ok?
  {
    PropErrorsMembers(env, specs, props);
    var errors := PropErrors(env, specs, props);
    assert forall i :: 0 <= i < |specs| && CheckAt(env, specs, props, i).Err? ==>
      CheckAt(env, specs, props, i).error in errors;
    assert errors != [] ==> errors[0] in errors;
  }

  // ---- Checking twice.

  // The default of a prop passes the prop's own check / passes it unchanged.
  ghost predicate DefaultValidates(env: Env, name: string, spec: PropSpec) {
    !spec.required && spec.default.Some? && !Missing(spec.default.value) ==>
      ValidateProp(env, name, spec, spec.default.value).Ok?
  }

  ghost predicate DefaultIsStable(env: Env, name: string, spec: PropSpec) {
    !spec.required && spec.default.Some? && !Missing(spec.default.value) ==>
      ValidateProp(env, name, spec, spec.default.value) == Ok(spec.default.value)
  }

  // Accepted values stay accepted, unchanged, exactly when the default needs no coercion.
  lemma RecheckIsIdentityIff(env: Env, name: string, spec: PropSpec)
    requires Lawful(env)
    ensures (forall v :: ValidateProp(env, name, spec, v).Ok? ==>
               ValidateProp(env, name, spec, ValidateProp(env, name, spec, v).value) == ValidateProp(env, name, spec, v))
       <==> DefaultIsStable(env, name, spec)
  {
    if !spec.required && spec.default.Some? && !Missing(spec.default.value) {
      assert ValidateProp(env, name, spec, Undefined) == Ok(spec.default.value);
    }
    if DefaultIsStable(env, name, spec) {
      forall v | ValidateProp(env, name, spec, v).Ok?
        ensures ValidateProp(env, name, spec, ValidateProp(env, name, spec, v).value) == ValidateProp(env, name, spec, v)
      {
      }
    }
  }

  // What the check makes of its own results, given defaults that validate.
  lemma Recheck(env: Env, name: string, spec: PropSpec, v: Value)
    requires Lawful(env) && DefaultValidates(env, name, spec)
    ensures var first := ValidateProp(env, name, spec, v);
      var second := ValidateProp(env, name, spec, if first.Ok? then first.value else Undefined);
      && (first.Ok? ==> second.Ok?)
      && (first.Ok? && !Missing(v) ==> second == first)
      && (first.Err? && !spec.required ==> second.Ok?)
      && (first.Err? && spec.required ==> second == Err(Required(name)))
  {
  }
}
