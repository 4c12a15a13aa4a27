/** The address algebra of internal/addrs: instance keys, module paths and resources.

    Strings are sequences of Unicode scalar values, so a Go string is modelled when it
    is valid UTF-8. */
module Addresses {

  datatype Option<+T> = None | Some(value: T)

  datatype KeyType = NoKeyType | IntKeyType | StringKeyType | UnknownKeyType

  /** `NoKey` is Go's nil key. `WildcardKey` is the exported placeholder key of an override
      address; `AnyKey` is the private `anyKey` that move patterns put on wildcard steps. */
  datatype InstanceKey =
    | NoKey
    | IntKey(index: int)
    | StringKey(text: string)
    | WildcardKey(expected: KeyType)
    | AnyKey

  datatype Step = Step(name: string, key: InstanceKey)

  type ModuleInstance = seq<Step>
  type Module = seq<string>

  datatype Mode = Managed | Data | Ephemeral

  datatype Resource = Resource(mode: Mode, typeName: string, name: string)

  datatype ResourceInstance = ResourceInstance(resource: Resource, key: InstanceKey)

  datatype AbsResource = AbsResource(path: ModuleInstance, resource: Resource) {
    function Instance(key: InstanceKey): AbsResourceInstance {
      AbsResourceInstance(path, ResourceInstance(resource, key))
    }
  }

  datatype AbsResourceInstance = AbsResourceInstance(path: ModuleInstance, instance: ResourceInstance) {
    function ContainingResource(): AbsResource {
      AbsResource(path, instance.resource)
    }
  }

  /** The static module path an instance path belongs to. */
  function ModuleOf(m: ModuleInstance): (r: Module)
    ensures |r| == |m|
    ensures forall i :: 0 <= i < |m| ==> r[i] == m[i].name
  {
    seq(|m|, i requires 0 <= i < |m| => m[i].name)
  }

  /** No step of the path carries the pattern-only key. */
  predicate ConcretePath(m: ModuleInstance) {
    forall i :: 0 <= i < |m| ==> m[i].key != AnyKey
  }

  /** The scan behind `HasSameModule`. */
  method HasSameModule(m: ModuleInstance, other: ModuleInstance) returns (same: bool)
    ensures same <==> ModuleOf(m) == ModuleOf(other)
  {
    if |m| != |other| {
      return false;
    }
    for i := 0 to |m|
      invariant forall j :: 0 <= j < i ==> m[j].name == other[j].name
    {
      if m[i].name != other[i].name {
        assert ModuleOf(m)[i] != ModuleOf(other)[i];
        return false;
      }
    }
    assert ModuleOf(m) == ModuleOf(other);
    return true;
  }

  /** The scan behind `IsForModule`. */
  method IsForModule(m: ModuleInstance, static_: Module) returns (same: bool)
    ensures same <==> ModuleOf(m) == static_
  {
    if |m| != |static_| {
      return false;
    }
    for i := 0 to |m|
      invariant forall j :: 0 <= j < i ==> m[j].name == static_[j]
    {
      if m[i].name != static_[i] {
        assert ModuleOf(m)[i] != static_[i];
        return false;
      }
    }
    assert ModuleOf(m) == static_;
    return true;
  }
}
