/**
  Expansion of composite packs into their includes (src/packs/composite_resolver.ts): a depth-capped,
  cycle-checked walk from every composite, flattened with each pack kept at its first occurrence.
*/
module CompositeResolver {
  import opened Wrappers

  const MAX_COMPOSITE_DEPTH := 3

  datatype Kind = Focused | Composite

  datatype Include = Include(packId: string, range: string)

  datatype Pack = Pack(name: string, version: string, kind: Kind, includes: seq<Include>)

  /** The two questions asked of the semver library. */
  datatype Semver = Semver(isRange: string -> bool, satisfies: (string, string) -> bool)

  datatype Cause = DepthExceeded | InvalidSemver | MissingInclude | SemverMismatch | Cycle

  datatype ResolutionError = ResolutionError(compositePack: string, cause: Cause)

  type Registry = map<string, Pack>

  predicate DistinctNames(packs: seq<Pack>) {
    forall i, j | 0 <= i < j < |packs| :: packs[i].name != packs[j].name
  }

  // ---------------------------------------------------------------------------------------------
  // The walk
  // ---------------------------------------------------------------------------------------------

  /** What is wrong with one include, before looking inside it. */
  function IncludeFault(composite: string, root: string, inc: Include, registry: Registry, semver: Semver,
                        visited: set<string>): Option<ResolutionError>
  {
    if !semver.isRange(inc.range) then Some(ResolutionError(composite, InvalidSemver))
    else if inc.packId !in registry then Some(ResolutionError(composite, MissingInclude))
    else if !semver.satisfies(registry[inc.packId].version, inc.range) then
      Some(ResolutionError(composite, SemverMismatch))
    else if registry[inc.packId].name in visited then Some(ResolutionError(root, Cycle))
    else None
  }

  /** The packs met by walking the includes of a composite in order, each followed by its own includes. */
  function Walk(composite: Pack, root: string, registry: Registry, semver: Semver, visited: set<string>, depth: nat)
      : Result<seq<Pack>, ResolutionError>
    requires depth <= MAX_COMPOSITE_DEPTH
    decreases MAX_COMPOSITE_DEPTH - depth, |composite.includes| + 1
  {
    if depth == MAX_COMPOSITE_DEPTH then Err(ResolutionError(root, DepthExceeded))
    else WalkList(composite.name, composite.includes, root, registry, semver, visited, depth)
  }

  function WalkList(composite: string, includes: seq<Include>, root: string, registry: Registry, semver: Semver,
                    visited: set<string>, depth: nat): Result<seq<Pack>, ResolutionError>
    requires depth < MAX_COMPOSITE_DEPTH
    decreases MAX_COMPOSITE_DEPTH - depth, |includes|
  {
    if includes == [] then Ok([])
    else
      var fault := IncludeFault(composite, root, includes[0], registry, semver, visited);
      if fault.Some? then Err(fault.value)
      else
        var found := registry[includes[0].packId];
        var inner := if found.kind.Composite?
          then Walk(found, root, registry, semver, visited + {found.name}, depth + 1) else Ok([]);
        if inner.Err? then inner
        else
          var rest := WalkList(composite, includes[1..], root, registry, semver, visited, depth);
          if rest.Err? then rest else Ok([found] + inner.value + rest.value)
  }

  /** A pack of the list with everything it brings in. */
  function Preorder(pack: Pack, registry: Registry, semver: Semver): Result<seq<Pack>, ResolutionError> {
    if pack.kind.Focused? then Ok([pack])
    else
      match Walk(pack, pack.name, registry, semver, {pack.name}, 0)
      case Err(e) => Err(e)
      case Ok(walked) => Ok([pack] + walked)
  }

  /** All packs with everything they bring in; the first error wins. */
  function Preorders(packs: seq<Pack>, registry: Registry, semver: Semver): Result<seq<Pack>, ResolutionError> {
    if packs == [] then Ok([])
    else
      match Preorders(packs[..|packs| - 1], registry, semver)
      case Err(e) => Err(e)
      case Ok(front) =>
        match Preorder(packs[|packs| - 1], registry, semver)
        case Err(e) => Err(e)
        case Ok(last) => Ok(front + last)
  }

  function Names(packs: seq<Pack>): set<string> {
    set i | 0 <= i < |packs| :: packs[i].name
  }

  /** Appends the packs whose name is not there yet. */
  function AddAll(out: seq<Pack>, packs: seq<Pack>): seq<Pack>
    decreases |packs|
  {
    if packs == [] then out
    else AddAll(if packs[0].name in Names(out) then out else out + [packs[0]], packs[1..])
  }

  function RegistryOf(packs: seq<Pack>): Registry {
    if packs == [] then map[]
    else RegistryOf(packs[..|packs| - 1])[packs[|packs| - 1].name := packs[|packs| - 1]]
  }

  // ---------------------------------------------------------------------------------------------
  // The code
  // ---------------------------------------------------------------------------------------------

  lemma {:induction false} AddAllAppend(out: seq<Pack>, a: seq<Pack>, b: seq<Pack>)
    ensures AddAll(out, a + b) == AddAll(AddAll(out, a), b)
    decreases |a|
  {
    if a == [] {
      assert a + b == b;
    } else {
      assert (a + b)[0] == a[0] && (a + b)[1..] == a[1..] + b;
      AddAllAppend(if a[0].name in Names(out) then out else out + [a[0]], a[1..], b);
    }
  }

  lemma AddOne(out: seq<Pack>, p: Pack)
    ensures AddAll(out, [p]) == if p.name in Names(out) then out else out + [p]
  {
    assert AddAll(if p.name in Names(out) then out else out + [p], []) == AddAll(out, [p]);
  }

  /** The accumulator that the walk shares by reference. */
  class Expansion {
    var out: seq<Pack>
    var seen: set<string>

    constructor ()
      ensures Valid() && out == []
    {
      out, seen := [], {};
    }

    ghost predicate Valid()
      reads this
    {
      seen == Names(out)
    }

    method Add(p: Pack)
      requires Valid()
      modifies this
      ensures Valid() && out == AddAll(old(out), [p])
    {
      AddOne(out, p);
      if p.name !in seen {
        out := out + [p];
        seen := seen + {p.name};
        assert Names(out) == Names(out[..|out| - 1]) + {out[|out| - 1].name};
        assert out[..|out| - 1] == old(out);
      }
    }

    /** Adds what the walk meets, as it meets it; stops at the first error. */
    method WalkIncludes(composite: Pack, root: string, registry: Registry, semver: Semver,
                        visited: set<string>, depth: nat) returns (error: Option<ResolutionError>)
      requires Valid() && depth <= MAX_COMPOSITE_DEPTH
      modifies this
      ensures Valid()
      ensures match Walk(composite, root, registry, semver, visited, depth)
        case Err(e) => error == Some(e)
        case Ok(walked) => error == None && out == AddAll(old(out), walked)
      decreases MAX_COMPOSITE_DEPTH - depth
    {
      hide AddAll, Walk, IncludeFault;
      if depth >= MAX_COMPOSITE_DEPTH {
        assert Walk(composite, root, registry, semver, visited, depth) == Err(ResolutionError(root, DepthExceeded)) by {
          WalkUnfolds(composite, root, registry, semver, visited, depth);
        }
        return Some(ResolutionError(root, DepthExceeded));
      }
      var includes := composite.includes;
      WalkUnfolds(composite, root, registry, semver, visited, depth);
      ghost var added: seq<Pack> := [];
      AddNothing(out);
      assert includes[0..] == includes;
      for i := 0 to |includes|
        invariant Valid() && out == AddAll(old(out), added)
        invariant Walk(composite, root, registry, semver, visited, depth) ==
            Prefixed(added, WalkList(composite.name, includes[i..], root, registry, semver, visited, depth))
      {
        WalkListUnfolds(composite.name, includes, root, registry, semver, visited, depth, i);
        var fault := IncludeFault(composite.name, root, includes[i], registry, semver, visited);
        if fault.Some? { return fault; }
        FaultFreeResolves(composite.name, root, includes[i], registry, semver, visited);
        var found := registry[includes[i].packId];
        ghost var before := added;
        ghost var rest := WalkList(composite.name, includes[i + 1..], root, registry, semver, visited, depth);
        Add(found);
        AddAllAppend(old(out), added, [found]);
        added := added + [found];
        assert found.kind.Focused? ==> [found] + [] == [found];
        PrefixedTwice(before, [found], rest);
        if found.kind.Composite? {
          ghost var inner := Walk(found, root, registry, semver, visited + {found.name}, depth + 1);
          error := WalkIncludes(found, root, registry, semver, visited + {found.name}, depth + 1);
          if error.Some? { return; }
          AddAllAppend(old(out), added, inner.value);
          PrefixedTwice(before, [found] + inner.value, rest);
          assert before + ([found] + inner.value) == added + inner.value;
          added := added + inner.value;
        }
      }
      assert includes[|includes|..] == [] && added + [] == added;
      error := None;
    }
  }

  function Prefixed(added: seq<Pack>, r: Result<seq<Pack>, ResolutionError>): Result<seq<Pack>, ResolutionError> {
    match r
    case Err(e) => Err(e)
    case Ok(rest) => Ok(added + rest)
  }

  lemma PrefixedTwice(a: seq<Pack>, b: seq<Pack>, r: Result<seq<Pack>, ResolutionError>)
    ensures Prefixed(a, Prefixed(b, r)) == Prefixed(a + b, r)
  {
    assert r.Ok? ==> a + (b + r.value) == (a + b) + r.value;
  }

  lemma AddNothing(out: seq<Pack>)
    ensures AddAll(out, []) == out
  {
  }

  lemma FaultFreeResolves(composite: string, root: string, inc: Include, registry: Registry, semver: Semver,
                          visited: set<string>)
    requires IncludeFault(composite, root, inc, registry, semver, visited).None?
    ensures inc.packId in registry
  {
  }

  lemma WalkUnfolds(composite: Pack, root: string, registry: Registry, semver: Semver, visited: set<string>, depth: nat)
    requires depth <= MAX_COMPOSITE_DEPTH
    ensures Walk(composite, root, registry, semver, visited, depth) ==
            if depth == MAX_COMPOSITE_DEPTH then Err(ResolutionError(root, DepthExceeded))
            else Prefixed([], WalkList(composite.name, composite.includes, root, registry, semver, visited, depth))
  {
    if depth < MAX_COMPOSITE_DEPTH {
      var r := WalkList(composite.name, composite.includes, root, registry, semver, visited, depth);
      assert r.Ok? ==> [] + r.value == r.value;
    }
  }

  lemma WalkListUnfolds(composite: string, includes: seq<Include>, root: string, registry: Registry, semver: Semver,
                        visited: set<string>, depth: nat, i: nat)
    requires depth < MAX_COMPOSITE_DEPTH && i < |includes|
    ensures WalkList(composite, includes[i..], root, registry, semver, visited, depth) ==
      var fault := IncludeFault(composite, root, includes[i], registry, semver, visited);
      if fault.Some? then Err(fault.value)
      else
        var found := registry[includes[i].packId];
        var inner := if found.kind.Composite?
          then Walk(found, root, registry, semver, visited + {found.name}, depth + 1) else Ok([]);
        if inner.Err? then inner
        else
          Prefixed([found] + inner.value,
                   WalkList(composite, includes[i + 1..], root, registry, semver, visited, depth))
  {
    assert includes[i..][0] == includes[i] && includes[i..][1..] == includes[i + 1..];
  }

  /** The flat list: every pack and what it brings in, each kept where it first occurs. */
  method ExpandComposites(packs: seq<Pack>, semver: Semver) returns (r: Result<seq<Pack>, ResolutionError>)
    ensures match Preorders(packs, RegistryOf(packs), semver)
      case Err(e) => r == Err(e)
      case Ok(all) => r == Ok(AddAll([], all))
  {
    hide AddAll, Walk, Preorders, RegistryOf, Names;
    var registry: Registry := map[];
    assert packs[..0] == [];
    EmptyStart(packs, semver);
    for i := 0 to |packs|
      invariant registry == RegistryOf(packs[..i])
    {
      NextRegistered(packs, i);
      registry := registry[packs[i].name := packs[i]];
    }
    assert packs[..|packs|] == packs;
    var expansion := new Expansion();
    for i := 0 to |packs|
      invariant expansion.Valid() && fresh(expansion)
      invariant Preorders(packs[..i], registry, semver).Ok?
      invariant expansion.out == AddAll([], Preorders(packs[..i], registry, semver).value)
    {
      var pack := packs[i];
      ghost var front := Preorders(packs[..i], registry, semver).value;
      NextPreorder(packs, registry, semver, i);
      expansion.Add(pack);
      AddAllAppend([], front, [pack]);
      if pack.kind.Composite? {
        var error := expansion.WalkIncludes(pack, pack.name, registry, semver, {pack.name}, 0);
        if error.Some? {
          PreordersStopAt(packs, registry, semver, i);
          return Err(error.value);
        }
        ghost var walked := Walk(pack, pack.name, registry, semver, {pack.name}, 0).value;
        AddAllAppend([], front + [pack], walked);
        assert (front + [pack]) + walked == front + ([pack] + walked);
      }
    }
    return Ok(expansion.out);
  }

  lemma EmptyStart(packs: seq<Pack>, semver: Semver)
    ensures RegistryOf([]) == map[] && Preorders([], RegistryOf(packs), semver) == Ok([]) && AddAll([], []) == []
  {
  }

  lemma NextRegistered(packs: seq<Pack>, i: nat)
    requires i < |packs|
    ensures RegistryOf(packs[..i + 1]) == RegistryOf(packs[..i])[packs[i].name := packs[i]]
  {
    assert packs[..i + 1][..i] == packs[..i];
  }

  lemma NextPreorder(packs: seq<Pack>, registry: Registry, semver: Semver, i: nat)
    requires i < |packs|
    ensures Preorders(packs[..i + 1], registry, semver) ==
      match Preorders(packs[..i], registry, semver)
      case Err(e) => Err(e)
      case Ok(front) => Prefixed(front, Preorder(packs[i], registry, semver))
  {
    hide Walk;
    assert packs[..i + 1][..i] == packs[..i];
  }

  lemma {:induction false} PreordersStopAt(packs: seq<Pack>, registry: Registry, semver: Semver, i: nat)
    requires i < |packs| && Preorders(packs[..i], registry, semver).Ok?
    requires Preorder(packs[i], registry, semver).Err?
    ensures Preorders(packs, registry, semver) == Err(Preorder(packs[i], registry, semver).error)
    decreases |packs|
  {
    hide Walk;
    var n := |packs| - 1;
    if i < n {
      assert packs[..n][..i] == packs[..i];
      PreordersStopAt(packs[..n], registry, semver, i);
    }
  }
}
