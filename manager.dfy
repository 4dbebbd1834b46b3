/**
 The path-variable manager the conversion code is given (`IPathVariableManager`): a table
 from variable name to stored path, enumerated in a stable order, and a resolver that
 expands variable references inside a stored path.
 */
module Manager {
  import opened Paths

  /** `resolvePath`: how nested variables are expanded is not part of this model. */
  type Resolver = (map<string, Path>, Path) -> Path

  /** The manager's state as a value: the bindings and the order `getPathVariableNames` lists them in. */
  datatype Vars = Vars(values: map<string, Path>, names: seq<string>) {

    /** Every defined name is listed exactly once. */
    ghost predicate Valid() {
      && (forall i, j :: 0 <= i < j < |names| ==> names[i] != names[j])
      && (forall n :: n in values <==> n in names)
    }

    /** `setValue(name, value)`: a new name is listed last; an existing one keeps its place. */
    function Define(name: string, value: Path): (r: Vars)
      requires Valid()
      ensures r.Valid()
      ensures r.values == values[name := value]
    {
      Vars(values[name := value], if name in values then names else names + [name])
    }
  }

  class PathVariableManager {
    var values: map<string, Path>
    var names: seq<string>
    const resolver: Resolver

    ghost predicate Valid()
      reads this
    {
      State().Valid()
    }

    function State(): Vars
      reads this
    {
      Vars(values, names)
    }

    constructor (resolver: Resolver)
      ensures Valid() && State() == Vars(map[], []) && this.resolver == resolver
    {
      this.values := map[];
      this.names := [];
      this.resolver := resolver;
    }

    predicate IsDefined(name: string)
      reads this
    {
      name in values
    }

    function GetValue(name: string): Path
      reads this
      requires name in values
    {
      values[name]
    }

    function ResolvePath(p: Path): Path
      reads this
    {
      resolver(values, p)
    }

    function GetPathVariableNames(): seq<string>
      reads this
    {
      names
    }

    method SetValue(name: string, value: Path)
      requires Valid()
      modifies this
      ensures Valid()
      ensures State() == old(State()).Define(name, value)
    {
      if name !in values {
        names := names + [name];
      }
      values := values[name := value];
    }
  }
}
