/** When composite expansion succeeds, and what it returns, for packs with pairwise distinct names. */
module CompositeLaws {
  import opened CompositeResolver

  // ---------------------------------------------------------------------------------------------
  // The include graph
  // ---------------------------------------------------------------------------------------------

  predicate IsGoodInclude(inc: Include, registry: Registry, semver: Semver) {
    semver.isRange(inc.range) && inc.packId in registry && semver.satisfies(registry[inc.packId].version, inc.range)
  }

  predicate AllGood(p: Pack, registry: Registry, semver: Semver) {
    forall j | 0 <= j < |p.includes| :: IsGoodInclude(p.includes[j], registry, semver)
  }

  /** Every include of every composite has a valid range, resolves, and is satisfied. */
  ghost predicate AllIncludesGood(packs: seq<Pack>, semver: Semver) {
    forall p | p in packs && p.kind.Composite? :: AllGood(p, RegistryOf(packs), semver)
  }

  ghost predicate Brings(p: Pack, q: Pack) {
    exists j | 0 <= j < |p.includes| :: p.includes[j].packId == q.name
  }

  /** Composites of the list, each included by the one before it. */
  ghost predicate IsChain(packs: seq<Pack>, cs: seq<Pack>) {
    && (forall i | 0 <= i < |cs| :: cs[i] in packs && cs[i].kind.Composite?)
    && (forall i | 0 <= i < |cs| - 1 :: Brings(cs[i], cs[i + 1]))
  }

  ghost predicate HasChainOfFour(packs: seq<Pack>) {
    exists cs: seq<Pack> :: |cs| == 4 && IsChain(packs, cs)
  }

  lemma {:induction false} RegistryHas(packs: seq<Pack>, name: string)
    requires DistinctNames(packs)
    ensures name in RegistryOf(packs) <==> exists i | 0 <= i < |packs| :: packs[i].name == name
    ensures forall i | 0 <= i < |packs| && packs[i].name == name :: RegistryOf(packs)[name] == packs[i]
    decreases |packs|
  {
    if packs != [] {
      var n := |packs| - 1;
      RegistryHas(packs[..n], name);
      if packs[n].name == name {
        forall i | 0 <= i < |packs| && packs[i].name == name ensures RegistryOf(packs)[name] == packs[i] {
          assert i == n;
        }
      } else {
        assert forall i | 0 <= i < n :: packs[..n][i] == packs[i];
      }
    }
  }

  lemma FoundIsInPacks(packs: seq<Pack>, name: string)
    requires DistinctNames(packs) && name in RegistryOf(packs)
    ensures RegistryOf(packs)[name] in packs && RegistryOf(packs)[name].name == name
  {
    RegistryHas(packs, name);
  }

  lemma SameNameSamePack(packs: seq<Pack>, p: Pack, q: Pack)
    requires DistinctNames(packs) && p in packs && q in packs && p.name == q.name
    ensures p == q
  {
  }

  /** A composite that is met again closes a cycle, and walking round it gives a chain of any length. */
  lemma CycleGivesChain(packs: seq<Pack>, cs: seq<Pack>, j: nat)
    requires IsChain(packs, cs) && j < |cs| && Brings(cs[|cs| - 1], cs[j])
    ensures HasChainOfFour(packs)
  {
    var n := |cs| - j;
    var around := seq(4, k requires 0 <= k < 4 => cs[j + Turn(n, k)]);
    forall k | 0 <= k < 3 ensures Brings(around[k], around[k + 1]) {
      if Turn(n, k) == n - 1 {
        assert Turn(n, k + 1) == 0;
      } else {
        assert Turn(n, k + 1) == Turn(n, k) + 1;
      }
    }
    assert IsChain(packs, around);
  }

  /** Where one stands after `k` steps round a cycle of `n`. */
  function Turn(n: nat, k: nat): (r: nat)
    requires n > 0
    ensures r < n
  {
    if k == 0 then 0 else if Turn(n, k - 1) == n - 1 then 0 else Turn(n, k - 1) + 1
  }

  // ---------------------------------------------------------------------------------------------
  // When the walk succeeds
  // ---------------------------------------------------------------------------------------------

  /** `cs` is the path from the root of a walk to the composite it is in. */
  ghost predicate IsPath(packs: seq<Pack>, cs: seq<Pack>, composite: Pack, visited: set<string>, depth: nat) {
    cs != [] && IsChain(packs, cs) && cs[|cs| - 1] == composite && visited == Names(cs) && |cs| == depth + 1
  }

  lemma {:induction false} WalkSucceeds(packs: seq<Pack>, semver: Semver, root: string, cs: seq<Pack>, visited: set<string>,
                                        depth: nat)
    requires DistinctNames(packs) && AllIncludesGood(packs, semver) && !HasChainOfFour(packs)
    requires cs != [] && IsPath(packs, cs, cs[|cs| - 1], visited, depth) && depth <= MAX_COMPOSITE_DEPTH
    ensures Walk(cs[|cs| - 1], root, RegistryOf(packs), semver, visited, depth).Ok?
    decreases MAX_COMPOSITE_DEPTH - depth, |cs[|cs| - 1].includes| + 1
  {
    var composite := cs[|cs| - 1];
    assert depth != MAX_COMPOSITE_DEPTH;
    assert composite.includes[0..] == composite.includes;
    WalkListSucceeds(packs, semver, root, cs, visited, depth, 0);
  }

  lemma {:induction false} WalkListSucceeds(packs: seq<Pack>, semver: Semver, root: string, cs: seq<Pack>,
                                            visited: set<string>, depth: nat, i: nat)
    requires DistinctNames(packs) && AllIncludesGood(packs, semver) && !HasChainOfFour(packs)
    requires cs != [] && IsPath(packs, cs, cs[|cs| - 1], visited, depth) && depth < MAX_COMPOSITE_DEPTH
    requires i <= |cs[|cs| - 1].includes|
    ensures WalkList(cs[|cs| - 1].name, cs[|cs| - 1].includes[i..], root, RegistryOf(packs), semver, visited, depth).Ok?
    decreases MAX_COMPOSITE_DEPTH - depth, |cs[|cs| - 1].includes| - i
  {
    hide RegistryOf, DistinctNames, HasChainOfFour;
    var composite := cs[|cs| - 1];
    if i < |composite.includes| {
      hide Walk, WalkList;
      var inc := composite.includes[i];
      assert AllGood(composite, RegistryOf(packs), semver);
      assert IsGoodInclude(inc, RegistryOf(packs), semver);
      FoundIsInPacks(packs, inc.packId);
      var found := RegistryOf(packs)[inc.packId];
      assert Brings(composite, found);
      NotVisitedAgain(packs, cs, found);
      if found.kind.Composite? {
        ExtendPath(packs, cs, found, visited, depth);
        WalkSucceeds(packs, semver, root, cs + [found], visited + {found.name}, depth + 1);
        assert (cs + [found])[|cs|] == found;
      }
      WalkListSucceeds(packs, semver, root, cs, visited, depth, i + 1);
      WalkListUnfolds(composite.name, composite.includes, root, RegistryOf(packs), semver, visited, depth, i);
    }
  }

  lemma NotVisitedAgain(packs: seq<Pack>, cs: seq<Pack>, found: Pack)
    requires DistinctNames(packs) && !HasChainOfFour(packs)
    requires cs != [] && IsChain(packs, cs) && found in packs && Brings(cs[|cs| - 1], found)
    ensures found.name !in Names(cs)
  {
    if found.name in Names(cs) {
      var j :| 0 <= j < |cs| && cs[j].name == found.name;
      SameNameSamePack(packs, cs[j], found);
      CycleGivesChain(packs, cs, j);
    }
  }

  lemma ExtendPath(packs: seq<Pack>, cs: seq<Pack>, found: Pack, visited: set<string>, depth: nat)
    requires cs != [] && IsPath(packs, cs, cs[|cs| - 1], visited, depth)
    requires found in packs && found.kind.Composite? && Brings(cs[|cs| - 1], found)
    ensures IsPath(packs, cs + [found], found, visited + {found.name}, depth + 1)
  {
    var ds := cs + [found];
    assert forall i | 0 <= i < |cs| :: ds[i] == cs[i];
    NamesAppend(cs, found);
  }

  /** A successful list of includes has no fault, and every composite in it was walked successfully. */
  lemma {:induction false} ListSucceededAt(
    composite: string, includes: seq<Include>, root: string, registry: Registry, semver: Semver,
    visited: set<string>, depth: nat, i: nat, j: nat)
    requires depth < MAX_COMPOSITE_DEPTH && i <= j < |includes|
    requires WalkList(composite, includes[i..], root, registry, semver, visited, depth).Ok?
    ensures IsGoodInclude(includes[j], registry, semver)
    ensures var found := registry[includes[j].packId];
            found.kind.Composite? ==> Walk(found, root, registry, semver, visited + {found.name}, depth + 1).Ok?
    decreases j - i
  {
    hide Walk;
    WalkListUnfolds(composite, includes, root, registry, semver, visited, depth, i);
    if i < j {
      ListSucceededAt(composite, includes, root, registry, semver, visited, depth, i + 1, j);
    }
  }

  lemma {:induction false} WalkSucceededAt(
    p: Pack, root: string, registry: Registry, semver: Semver, visited: set<string>, depth: nat, j: nat)
    requires depth <= MAX_COMPOSITE_DEPTH && j < |p.includes|
    requires Walk(p, root, registry, semver, visited, depth).Ok?
    ensures depth < MAX_COMPOSITE_DEPTH && IsGoodInclude(p.includes[j], registry, semver)
    ensures var found := registry[p.includes[j].packId];
            found.kind.Composite? ==> Walk(found, root, registry, semver, visited + {found.name}, depth + 1).Ok?
  {
    assert p.includes[0..] == p.includes;
    ListSucceededAt(p.name, p.includes, root, registry, semver, visited, depth, 0, j);
  }

  /** A walk that succeeds from one composite of a chain succeeds, one level deeper, from the next. */
  lemma NextOfChain(packs: seq<Pack>, semver: Semver, cs: seq<Pack>, i: nat, root: string, visited: set<string>)
    requires DistinctNames(packs) && IsChain(packs, cs) && i + 1 < |cs| && i <= MAX_COMPOSITE_DEPTH
    requires Walk(cs[i], root, RegistryOf(packs), semver, visited, i).Ok?
    ensures i < MAX_COMPOSITE_DEPTH
    ensures Walk(cs[i + 1], root, RegistryOf(packs), semver, visited + {cs[i + 1].name}, i + 1).Ok?
  {
    hide Walk, RegistryOf;
    assert Brings(cs[i], cs[i + 1]);
    var j :| 0 <= j < |cs[i].includes| && cs[i].includes[j].packId == cs[i + 1].name;
    WalkSucceededAt(cs[i], root, RegistryOf(packs), semver, visited, i, j);
    FoundIsInPacks(packs, cs[i + 1].name);
    SameNameSamePack(packs, RegistryOf(packs)[cs[i + 1].name], cs[i + 1]);
  }

  lemma ChainOfFourFails(packs: seq<Pack>, semver: Semver, cs: seq<Pack>)
    requires DistinctNames(packs) && |cs| == 4 && IsChain(packs, cs)
    ensures Walk(cs[0], cs[0].name, RegistryOf(packs), semver, {cs[0].name}, 0).Err?
  {
    hide RegistryOf;
    var root, v := cs[0].name, {cs[0].name};
    if Walk(cs[0], root, RegistryOf(packs), semver, v, 0).Ok? {
      NextOfChain(packs, semver, cs, 0, root, v);
      v := v + {cs[1].name};
      NextOfChain(packs, semver, cs, 1, root, v);
      v := v + {cs[2].name};
      NextOfChain(packs, semver, cs, 2, root, v);
    }
  }

  lemma {:induction false} PreordersSucceedIff(packs: seq<Pack>, registry: Registry, semver: Semver)
    ensures Preorders(packs, registry, semver).Ok? <==>
            forall i | 0 <= i < |packs| :: Preorder(packs[i], registry, semver).Ok?
    decreases |packs|
  {
    hide Walk, Preorder;
    if packs != [] {
      var n := |packs| - 1;
      PreordersSucceedIff(packs[..n], registry, semver);
      assert forall i | 0 <= i < n :: packs[..n][i] == packs[i];
    }
  }

  /**
    Expansion succeeds exactly when every include of every composite is valid, resolves and satisfies its
    range, and no four composites include one another in a row. The last condition covers every cycle.
  */
  lemma {:induction false} ExpansionSucceedsIff(packs: seq<Pack>, semver: Semver)
    requires DistinctNames(packs)
    ensures Preorders(packs, RegistryOf(packs), semver).Ok? <==>
            AllIncludesGood(packs, semver) && !HasChainOfFour(packs)
  {
    hide Walk, RegistryOf, DistinctNames, Preorders;
    PreordersSucceedIff(packs, RegistryOf(packs), semver);
    if AllIncludesGood(packs, semver) && !HasChainOfFour(packs) {
      forall i | 0 <= i < |packs| ensures Preorder(packs[i], RegistryOf(packs), semver).Ok? {
        if packs[i].kind.Composite? {
          assert IsPath(packs, [packs[i]], packs[i], {packs[i].name}, 0);
          WalkSucceeds(packs, semver, packs[i].name, [packs[i]], {packs[i].name}, 0);
        }
      }
    }
    if forall i | 0 <= i < |packs| :: Preorder(packs[i], RegistryOf(packs), semver).Ok? {
      forall p | p in packs && p.kind.Composite? ensures AllGood(p, RegistryOf(packs), semver) {
        forall j | 0 <= j < |p.includes| ensures IsGoodInclude(p.includes[j], RegistryOf(packs), semver) {
          assert Preorder(p, RegistryOf(packs), semver).Ok?;
          WalkSucceededAt(p, p.name, RegistryOf(packs), semver, {p.name}, 0, j);
        }
      }
      if HasChainOfFour(packs) {
        var cs: seq<Pack> :| |cs| == 4 && IsChain(packs, cs);
        assert cs[0] in packs && Preorder(cs[0], RegistryOf(packs), semver).Ok?;
        ChainOfFourFails(packs, semver, cs);
      }
    }
  }

  // ---------------------------------------------------------------------------------------------
  // What it returns
  // ---------------------------------------------------------------------------------------------

  ghost predicate AllIn(some: seq<Pack>, packs: seq<Pack>) {
    forall i | 0 <= i < |some| :: some[i] in packs
  }

  lemma {:induction false} WalkStaysInPacks(p: Pack, root: string, packs: seq<Pack>, semver: Semver,
                                            visited: set<string>, depth: nat)
    requires DistinctNames(packs) && depth <= MAX_COMPOSITE_DEPTH
    requires Walk(p, root, RegistryOf(packs), semver, visited, depth).Ok?
    ensures AllIn(Walk(p, root, RegistryOf(packs), semver, visited, depth).value, packs)
    decreases MAX_COMPOSITE_DEPTH - depth, |p.includes| + 1
  {
    assert p.includes[0..] == p.includes;
    WalkListStaysInPacks(p.name, p.includes, root, packs, semver, visited, depth, 0);
  }

  lemma {:induction false} WalkListStaysInPacks(
    composite: string, includes: seq<Include>, root: string, packs: seq<Pack>, semver: Semver,
    visited: set<string>, depth: nat, i: nat)
    requires DistinctNames(packs) && depth < MAX_COMPOSITE_DEPTH && i <= |includes|
    requires WalkList(composite, includes[i..], root, RegistryOf(packs), semver, visited, depth).Ok?
    ensures AllIn(WalkList(composite, includes[i..], root, RegistryOf(packs), semver, visited, depth).value, packs)
    decreases MAX_COMPOSITE_DEPTH - depth, |includes| - i
  {
    hide RegistryOf, DistinctNames, Walk;
    if i < |includes| {
      WalkListUnfolds(composite, includes, root, RegistryOf(packs), semver, visited, depth, i);
      var found := RegistryOf(packs)[includes[i].packId];
      FoundIsInPacks(packs, includes[i].packId);
      if found.kind.Composite? {
        WalkStaysInPacks(found, root, packs, semver, visited + {found.name}, depth + 1);
      }
      WalkListStaysInPacks(composite, includes, root, packs, semver, visited, depth, i + 1);
    }
  }

  /** Every pack starts its own preorder, and preorders hold packs of the list only. */
  lemma {:induction false} PreordersCover(packs: seq<Pack>, all: seq<Pack>, semver: Semver)
    requires DistinctNames(all) && AllIn(packs, all) && Preorders(packs, RegistryOf(all), semver).Ok?
    ensures AllIn(Preorders(packs, RegistryOf(all), semver).value, all)
    ensures AllIn(packs, Preorders(packs, RegistryOf(all), semver).value)
    decreases |packs|
  {
    hide Walk, RegistryOf, DistinctNames;
    if packs != [] {
      var n := |packs| - 1;
      assert AllIn(packs[..n], all);
      PreordersCover(packs[..n], all, semver);
      if packs[n].kind.Composite? {
        WalkStaysInPacks(packs[n], packs[n].name, all, semver, {packs[n].name}, 0);
      }
      var front := Preorders(packs[..n], RegistryOf(all), semver).value;
      var last := Preorder(packs[n], RegistryOf(all), semver).value;
      assert AllIn(last, all) && last[0] == packs[n];
      forall i | 0 <= i < |packs| ensures packs[i] in front + last {
        if i < n { assert packs[..n][i] in front; }
      }
    }
  }

  /** `at` lists where each kept pack first occurs. */
  ghost predicate IsFirstOccurrences(kept: seq<Pack>, packs: seq<Pack>, at: seq<nat>) {
    && |at| == |kept|
    && (forall k | 0 <= k < |at| :: at[k] < |packs| && packs[at[k]] == kept[k])
    && (forall j, k | 0 <= j < k < |at| :: at[j] < at[k])
    && (forall k, i | 0 <= k < |at| && 0 <= i < at[k] :: packs[i].name != kept[k].name)
    && (forall i | 0 <= i < |packs| :: packs[i].name in Names(kept))
  }

  lemma AddLast(packs: seq<Pack>)
    requires packs != []
    ensures var front := AddAll([], packs[..|packs| - 1]);
            AddAll([], packs) == if packs[|packs| - 1].name in Names(front) then front else front + [packs[|packs| - 1]]
  {
    var n := |packs| - 1;
    assert packs == packs[..n] + [packs[n]];
    AddAllAppend([], packs[..n], [packs[n]]);
    AddOne(AddAll([], packs[..n]), packs[n]);
  }

  /** The accumulator keeps exactly the first occurrence of each name, in the order of occurrence. */
  lemma {:induction false} KeepsFirstOccurrences(packs: seq<Pack>) returns (at: seq<nat>)
    ensures IsFirstOccurrences(AddAll([], packs), packs, at)
    decreases |packs|
  {
    hide AddAll;
    if packs == [] {
      AddNothing([]);
      at := [];
    } else {
      var n := |packs| - 1;
      var front := AddAll([], packs[..n]);
      var before := KeepsFirstOccurrences(packs[..n]);
      AddLast(packs);
      if packs[n].name in Names(front) {
        at := before;
        SkipRepeated(front, packs, at);
      } else {
        at := before + [n];
        AppendNew(front, packs, before);
      }
    }
  }

  lemma SkipRepeated(kept: seq<Pack>, packs: seq<Pack>, at: seq<nat>)
    requires packs != [] && IsFirstOccurrences(kept, packs[..|packs| - 1], at)
    requires packs[|packs| - 1].name in Names(kept)
    ensures IsFirstOccurrences(kept, packs, at)
  {
    hide Names;
    assert forall i | 0 <= i < |packs| - 1 :: packs[..|packs| - 1][i] == packs[i];
  }

  lemma AppendNew(kept: seq<Pack>, packs: seq<Pack>, at: seq<nat>)
    requires packs != [] && IsFirstOccurrences(kept, packs[..|packs| - 1], at)
    requires packs[|packs| - 1].name !in Names(kept)
    ensures IsFirstOccurrences(kept + [packs[|packs| - 1]], packs, at + [|packs| - 1])
  {
    hide Names;
    var n := |packs| - 1;
    assert forall i | 0 <= i < n :: packs[..n][i] == packs[i];
    NamesAppend(kept, packs[n]);
    forall i | 0 <= i < n ensures packs[i].name != packs[n].name {
      assert packs[..n][i].name in Names(kept);
    }
  }

  lemma NamesAppend(s: seq<Pack>, p: Pack)
    ensures Names(s + [p]) == Names(s) + {p.name}
  {
    assert forall i | 0 <= i < |s| :: (s + [p])[i] == s[i];
    assert (s + [p])[|s|] == p;
  }

  lemma {:induction false} CountOnce(s: seq<Pack>, p: Pack)
    requires DistinctNames(s)
    ensures multiset(s)[p] == if p in s then 1 else 0
    decreases |s|
  {
    if s != [] {
      var n := |s| - 1;
      CountOnce(s[..n], p);
      assert s == s[..n] + [s[n]];
    }
  }

  /** A successful expansion returns the given packs in a new order: nothing is lost, added or repeated. */
  lemma {:induction false} ExpansionIsPermutation(packs: seq<Pack>, semver: Semver)
    requires DistinctNames(packs) && Preorders(packs, RegistryOf(packs), semver).Ok?
    ensures multiset(AddAll([], Preorders(packs, RegistryOf(packs), semver).value)) == multiset(packs)
  {
    hide RegistryOf, Preorders, AddAll;
    var all := Preorders(packs, RegistryOf(packs), semver).value;
    var kept := AddAll([], all);
    PreordersCover(packs, packs, semver);
    var at := KeepsFirstOccurrences(all);
    assert DistinctNames(kept) by { KeptAreDistinct(kept, all, at); }
    forall p ensures multiset(kept)[p] == multiset(packs)[p] {
      CountOnce(kept, p);
      CountOnce(packs, p);
      if p in packs {
        var i :| 0 <= i < |packs| && packs[i] == p;
        assert p in all;
        KeptHasAll(kept, all, at, packs, p);
      }
      if p in kept {
        var k :| 0 <= k < |kept| && kept[k] == p;
        assert all[at[k]] in packs;
      }
    }
  }

  lemma KeptAreDistinct(kept: seq<Pack>, all: seq<Pack>, at: seq<nat>)
    requires IsFirstOccurrences(kept, all, at)
    ensures DistinctNames(kept)
  {
    forall j, k | 0 <= j < k < |kept| ensures kept[j].name != kept[k].name {
      assert at[j] < at[k];
      assert all[at[j]] == kept[j];
    }
  }

  lemma KeptHasAll(kept: seq<Pack>, all: seq<Pack>, at: seq<nat>, packs: seq<Pack>, p: Pack)
    requires IsFirstOccurrences(kept, all, at) && DistinctNames(packs) && AllIn(all, packs) && p in all && p in packs
    ensures p in kept
  {
    var i :| 0 <= i < |all| && all[i] == p;
    assert p.name in Names(kept);
    var k :| 0 <= k < |kept| && kept[k].name == p.name;
    assert all[at[k]] == kept[k] && all[at[k]] in packs;
    SameNameSamePack(packs, kept[k], p);
  }
}
