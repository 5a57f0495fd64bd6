/** The generator's lookups of declared components and resources by name. */
module Registry {
  import opened Wrappers
  import opened Components

  /** A declared resource: its name and the path of its type. */
  datatype Resource = Resource(name: string, path: string)

  /** The position of the first name equal to `name`, if any. */
  function FirstNamed(names: seq<string>, name: string): (r: Option<nat>)
    ensures r.Some? ==> r.value < |names| && names[r.value] == name
    ensures r.Some? ==> forall k :: 0 <= k < r.value ==> names[k] != name
    ensures r.None? ==> forall k :: 0 <= k < |names| ==> names[k] != name
    decreases |names|
  {
    if names == [] then None
    else if names[0] == name then Some(0)
    else
      match FirstNamed(names[1..], name)
      case None => None
      case Some(k) => Some(k + 1)
  }

  function ComponentNames(components: seq<Component>): (r: seq<string>)
    ensures |r| == |components| && forall k :: 0 <= k < |r| ==> r[k] == components[k].name
  {
    seq(|components|, k requires 0 <= k < |components| => components[k].name)
  }

  function ResourceNames(resources: seq<Resource>): (r: seq<string>)
    ensures |r| == |resources| && forall k :: 0 <= k < |r| ==> r[k] == resources[k].name
  {
    seq(|resources|, k requires 0 <= k < |resources| => resources[k].name)
  }

  /** `find_component`: the position of the first component with that
      name; panics with "Unknown component" when there is none. */
  method FindComponent(components: seq<Component>, name: string) returns (r: Result<nat, Fault>)
    ensures r.Ok? <==> FirstNamed(ComponentNames(components), name).Some?
    ensures r.Ok? ==> FirstNamed(ComponentNames(components), name) == Some(r.value)
    ensures r.Err? ==> r.error == UnknownComponent(name)
  {
    var k := 0;
    while k < |components|
      invariant k <= |components|
      invariant forall j :: 0 <= j < k ==> components[j].name != name
    {
      if components[k].name == name {
        return Ok(k);
      }
      k := k + 1;
    }
    return Err(UnknownComponent(name));
  }

  /** `find_resource`: the same search over the declared resources. */
  method FindResource(resources: seq<Resource>, name: string) returns (r: Result<nat, Fault>)
    ensures r.Ok? <==> FirstNamed(ResourceNames(resources), name).Some?
    ensures r.Ok? ==> FirstNamed(ResourceNames(resources), name) == Some(r.value)
    ensures r.Err? ==> r.error == UnknownResource(name)
  {
    var k := 0;
    while k < |resources|
      invariant k <= |resources|
      invariant forall j :: 0 <= j < k ==> resources[j].name != name
    {
      if resources[k].name == name {
        return Ok(k);
      }
      k := k + 1;
    }
    return Err(UnknownResource(name));
  }

  /** Names are looked up first match first: a later duplicate is never
      found. */
  lemma {:induction false} FirstMatchWins(names: seq<string>, name: string, k: nat)
    requires k < |names| && names[k] == name
    ensures FirstNamed(names, name).Some? && FirstNamed(names, name).value <= k
  {
  }
}
