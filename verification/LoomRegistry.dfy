// The closed set of components: the map of loom/src/registry.js.
module LoomRegistry {
  import opened Options
  import opened LoomProps

  // The children policy: none, any, or a list of names. An empty list is truthy and allows no child.
  datatype Children = NoChildren | AnyChild | Only(names: seq<string>)

  datatype Component = Component(name: string, props: Specs, children: Children)

  // A Map keyed by name: lookups, and the names in insertion order.
  datatype Registry = Registry(order: seq<string>, defs: map<string, Component>)

  ghost predicate ValidRegistry(reg: Registry) {
    && (forall n :: n in reg.order <==> n in reg.defs)
    && (forall i, j :: 0 <= i < j < |reg.order| ==> reg.order[i] != reg.order[j])
    && (forall n :: n in reg.defs ==> n != "" && reg.defs[n].name == n && DistinctNames(reg.defs[n].props))
  }

  predicate ChildAllowed(parent: Component, childType: string) {
    match parent.children
    case AnyChild => true
    case Only(names) => childType in names
    case NoChildren => false
  }

  predicate TakesChildren(def: Component) {
    !def.children.NoChildren?
  }

  // Map.set: a known name keeps its place and gets the new definition.
  function WithComponent(reg: Registry, def: Component): Registry {
    Registry(if def.name in reg.defs then reg.order else reg.order + [def.name], reg.defs[def.name := def])
  }

  lemma WithComponentValid(reg: Registry, def: Component)
    requires ValidRegistry(reg) && def.name != "" && DistinctNames(def.props)
    ensures ValidRegistry(WithComponent(reg, def))
  {
    var reg' := WithComponent(reg, def);
    forall n ensures n in reg'.order <==> n in reg'.defs {
      assert n in reg.order <==> n in reg.defs;
    }
    assert def.name !in reg.defs ==> def.name !in reg.order;
  }

  class ComponentRegistry {
    var order: seq<string>
    var defs: map<string, Component>

    ghost function Contents(): Registry
      reads this
    {
      Registry(order, defs)
    }

    constructor ()
      ensures ValidRegistry(Contents()) && Contents() == Registry([], map[])
    {
      order, defs := [], map[];
    }

    // Throws, here answers false, without a name or without a render function.
    method DefineComponent(name: string, hasRender: bool, props: Specs, children: Option<Children>) returns (ok: bool)
      requires ValidRegistry(Contents()) && DistinctNames(props)
      modifies this
      ensures ok <==> name != "" && hasRender
      ensures ok ==> Contents() == WithComponent(old(Contents()),
        Component(name, props, if children.Some? then children.value else NoChildren))
      ensures ok ==>
        && order == (if name in old(defs) then old(order) else old(order) + [name])
        && defs == old(defs)[name := Component(name, props, if children.Some? then children.value else NoChildren)]
      ensures !ok ==> Contents() == old(Contents())
      ensures ValidRegistry(Contents())
    {
      if name == "" || !hasRender {
        return false;
      }
      var def := Component(name, props, if children.Some? then children.value else NoChildren);
      WithComponentValid(Contents(), def);
      if name !in defs {
        order := order + [name];
      }
      defs := defs[name := def];
      ok := true;
    }

    method ResetRegistry()
      modifies this
      ensures ValidRegistry(Contents()) && Contents() == Registry([], map[])
    {
      order, defs := [], map[];
    }
  }
}
