/** Layering a child pack over a parent, and finding packs whose parents never end (src/packs/apply_extends.ts). */
module PackExtends {
  import opened Wrappers

  datatype Skill = Skill(name: string, body: string)

  datatype Pack = Pack(
    name: string,
    version: string,
    scope: string,
    goal: string,
    description: string,
    extendsName: Option<string>,
    evolves: bool,
    needs: seq<string>,
    conflicts: seq<string>,
    skills: seq<Skill>)

  // ---------------------------------------------------------------------------------------------
  // Merging
  // ---------------------------------------------------------------------------------------------

  predicate HasSkill(skills: seq<Skill>, name: string) {
    exists i | 0 <= i < |skills| :: skills[i].name == name
  }

  predicate DistinctSkills(skills: seq<Skill>) {
    forall i, j | 0 <= i < j < |skills| :: skills[i].name != skills[j].name
  }

  /** Setting a key of an insertion-ordered map: an existing key keeps its place. */
  function Put(skills: seq<Skill>, s: Skill): (r: seq<Skill>)
    ensures HasSkill(r, s.name)
  {
    if skills == [] then assert [s][0] == s; [s]
    else if skills[0].name == s.name then
      var r := [s] + skills[1..];
      assert r[0] == s;
      r
    else
      var rest := Put(skills[1..], s);
      var r := [skills[0]] + rest;
      assert forall i | 0 <= i < |rest| :: r[i + 1] == rest[i];
      r
  }

  function PutAll(skills: seq<Skill>, more: seq<Skill>): seq<Skill> {
    if more == [] then skills else Put(PutAll(skills, more[..|more| - 1]), more[|more| - 1])
  }

  /** The skill a name stands for: the last one given. */
  function Lookup(skills: seq<Skill>, name: string): Option<Skill> {
    if skills == [] then None
    else if skills[|skills| - 1].name == name then Some(skills[|skills| - 1])
    else Lookup(skills[..|skills| - 1], name)
  }

  function Layer(child: Pack, parent: Pack): Pack {
    child.(description := if child.description != "" then child.description else parent.description,
           skills := PutAll([], parent.skills + child.skills))
  }

  lemma {:induction false} PutAllAppend(skills: seq<Skill>, a: seq<Skill>, b: seq<Skill>)
    ensures PutAll(skills, a + b) == PutAll(PutAll(skills, a), b)
    decreases |b|
  {
    if b == [] {
      assert a + b == a;
    } else {
      var k := |b| - 1;
      assert (a + b)[..|a| + k] == a + b[..k];
      PutAllAppend(skills, a, b[..k]);
    }
  }

  method ApplyExtends(child: Pack, parent: Pack) returns (merged: Pack)
    ensures merged == Layer(child, parent)
  {
    hide Put;
    merged := parent;
    merged := merged.(name := child.name, version := child.version, scope := child.scope, goal := child.goal);
    merged := merged.(description := if child.description != "" then child.description else merged.description);
    merged := merged.(extendsName := child.extendsName, evolves := child.evolves);
    merged := merged.(needs := child.needs, conflicts := child.conflicts);
    var skillMap: seq<Skill> := [];
    var seeded := merged.skills;
    for i := 0 to |seeded|
      invariant skillMap == PutAll([], seeded[..i])
    {
      assert seeded[..i + 1][..i] == seeded[..i];
      skillMap := Put(skillMap, seeded[i]);
    }
    assert seeded[..|seeded|] == seeded;
    for i := 0 to |child.skills|
      invariant skillMap == PutAll(PutAll([], seeded), child.skills[..i])
    {
      assert child.skills[..i + 1][..i] == child.skills[..i];
      skillMap := Put(skillMap, child.skills[i]);
    }
    assert child.skills[..|child.skills|] == child.skills;
    PutAllAppend([], seeded, child.skills);
    merged := merged.(skills := skillMap);
  }

  // ---------------------------------------------------------------------------------------------
  // Laws of layering
  // ---------------------------------------------------------------------------------------------

  lemma {:induction false} PutNames(skills: seq<Skill>, s: Skill, name: string)
    ensures HasSkill(Put(skills, s), name) <==> HasSkill(skills, name) || name == s.name
    decreases |skills|
  {
    var r := Put(skills, s);
    if skills != [] {
      var rest := skills[1..];
      assert HasSkill(skills, name) <==> skills[0].name == name || HasSkill(rest, name) by { HasHead(skills, name); }
      HasHead(r, name);
      if skills[0].name == s.name {
        assert r[1..] == rest;
      } else {
        PutNames(rest, s, name);
        assert r[1..] == Put(rest, s);
      }
    } else {
      HasHead(r, name);
    }
  }

  lemma HasHead(skills: seq<Skill>, name: string)
    requires skills != []
    ensures HasSkill(skills, name) <==> skills[0].name == name || HasSkill(skills[1..], name)
  {
    if HasSkill(skills, name) && skills[0].name != name {
      var i :| 0 <= i < |skills| && skills[i].name == name;
      assert skills[1..][i - 1].name == name;
    }
    if HasSkill(skills[1..], name) {
      var i :| 0 <= i < |skills| - 1 && skills[1..][i].name == name;
      assert skills[i + 1].name == name;
    }
  }

  lemma {:induction false} PutKeepsDistinct(skills: seq<Skill>, s: Skill)
    requires DistinctSkills(skills)
    ensures DistinctSkills(Put(skills, s))
    decreases |skills|
  {
    if skills != [] && skills[0].name != s.name {
      var rest := skills[1..];
      PutKeepsDistinct(rest, s);
      PutNames(rest, s, skills[0].name);
      HasHeadOnce(skills);
      var r := Put(skills, s);
      assert r[1..] == Put(rest, s);
      forall i, j | 0 <= i < j < |r| ensures r[i].name != r[j].name {
        assert r[j] == Put(rest, s)[j - 1];
        if i > 0 { assert r[i] == Put(rest, s)[i - 1]; }
      }
    }
  }

  lemma HasHeadOnce(skills: seq<Skill>)
    requires skills != [] && DistinctSkills(skills)
    ensures !HasSkill(skills[1..], skills[0].name) && DistinctSkills(skills[1..])
  {
    assert forall i | 0 <= i < |skills| - 1 :: skills[1..][i] == skills[i + 1];
  }

  lemma {:induction false} PutAllDistinct(more: seq<Skill>)
    ensures DistinctSkills(PutAll([], more))
    decreases |more|
  {
    if more != [] {
      PutAllDistinct(more[..|more| - 1]);
      PutKeepsDistinct(PutAll([], more[..|more| - 1]), more[|more| - 1]);
    }
  }

  /** With distinct names, being looked up and being there are the same. */
  lemma {:induction false} PutLookup(skills: seq<Skill>, s: Skill, name: string)
    requires DistinctSkills(skills)
    ensures Lookup(Put(skills, s), name) == if name == s.name then Some(s) else Lookup(skills, name)
    decreases |skills|
  {
    PutKeepsDistinct(skills, s);
    var r := Put(skills, s);
    LookupHead(r, name);
    if skills != [] {
      LookupHead(skills, name);
      HasHeadOnce(skills);
      if skills[0].name == s.name {
        assert r[1..] == skills[1..];
        LookupNone(skills[1..], s.name);
      } else {
        assert r[1..] == Put(skills[1..], s);
        PutLookup(skills[1..], s, name);
      }
    }
  }

  lemma {:induction false} LookupHead(skills: seq<Skill>, name: string)
    requires skills != []
    ensures Lookup(skills, name) ==
            if Lookup(skills[1..], name).Some? then Lookup(skills[1..], name)
            else if skills[0].name == name then Some(skills[0]) else None
    decreases |skills|
  {
    var k := |skills| - 1;
    if k > 0 {
      LookupHead(skills[..k], name);
      assert skills[..k][1..] == skills[1..][..k - 1];
    }
  }

  lemma {:induction false} LookupNone(skills: seq<Skill>, name: string)
    ensures Lookup(skills, name).None? <==> !HasSkill(skills, name)
    decreases |skills|
  {
    if skills != [] {
      var k := |skills| - 1;
      LookupNone(skills[..k], name);
      if HasSkill(skills, name) && skills[k].name != name {
        var i :| 0 <= i < |skills| && skills[i].name == name;
        assert skills[..k][i].name == name;
      }
      if HasSkill(skills[..k], name) {
        var i :| 0 <= i < k && skills[..k][i].name == name;
        assert skills[i].name == name;
      }
    }
  }

  lemma {:induction false} PutAllLookup(more: seq<Skill>, name: string)
    ensures Lookup(PutAll([], more), name) == Lookup(more, name)
    decreases |more|
  {
    if more != [] {
      var k := |more| - 1;
      PutAllLookup(more[..k], name);
      PutAllDistinct(more[..k]);
      PutLookup(PutAll([], more[..k]), more[k], name);
    }
  }

  lemma {:induction false} LookupAppend(a: seq<Skill>, b: seq<Skill>, name: string)
    ensures Lookup(a + b, name) == if Lookup(b, name).Some? then Lookup(b, name) else Lookup(a, name)
    decreases |b|
  {
    if b == [] {
      assert a + b == a;
    } else {
      var k := |b| - 1;
      assert (a + b)[..|a| + k] == a + b[..k];
      LookupAppend(a, b[..k], name);
    }
  }

  /** Child skills override by name, parent-only skills carry through, and no name appears twice. */
  lemma {:induction false} LayeredSkills(child: Pack, parent: Pack, name: string)
    ensures DistinctSkills(Layer(child, parent).skills)
    ensures Lookup(Layer(child, parent).skills, name) ==
            if HasSkill(child.skills, name) then Lookup(child.skills, name) else Lookup(parent.skills, name)
  {
    PutAllDistinct(parent.skills + child.skills);
    PutAllLookup(parent.skills + child.skills, name);
    LookupAppend(parent.skills, child.skills, name);
    LookupNone(child.skills, name);
  }

  lemma {:induction false} PutOverwrites(skills: seq<Skill>, s: Skill, t: Skill)
    requires s.name == t.name
    ensures Put(Put(skills, s), t) == Put(skills, t)
    decreases |skills|
  {
    if skills != [] && skills[0].name != s.name {
      PutOverwrites(skills[1..], s, t);
      assert Put(skills, s)[1..] == Put(skills[1..], s);
    } else if skills != [] {
      assert Put(skills, s)[1..] == skills[1..];
    } else {
      assert [s][1..] == [];
      assert [t] + [] == [t];
    }
  }

  /** Setting a key that is already there commutes with setting another. */
  lemma {:induction false} PutCommutes(skills: seq<Skill>, s: Skill, t: Skill)
    requires s.name != t.name && HasSkill(skills, s.name)
    ensures Put(Put(skills, t), s) == Put(Put(skills, s), t)
    decreases |skills|
  {
    HasHead(skills, s.name);
    var rest := skills[1..];
    if skills[0].name == s.name {
      assert Put(skills, s)[1..] == rest && Put(skills, t)[1..] == Put(rest, t);
    } else if skills[0].name == t.name {
      assert Put(skills, t)[1..] == rest && Put(skills, s)[1..] == Put(rest, s);
    } else {
      PutCommutes(rest, s, t);
      assert Put(skills, t)[1..] == Put(rest, t) && Put(skills, s)[1..] == Put(rest, s);
    }
  }

  lemma {:induction false} PutAllHas(skills: seq<Skill>, more: seq<Skill>, name: string)
    ensures HasSkill(PutAll(skills, more), name) <==> HasSkill(skills, name) || HasSkill(more, name)
    decreases |more|
  {
    if more != [] {
      var k := |more| - 1;
      PutAllHas(skills, more[..k], name);
      PutNames(PutAll(skills, more[..k]), more[k], name);
      LookupNone(more, name);
      LookupNone(more[..k], name);
    }
  }

  /** Setting a key before or after a batch that does not mention it, once it is there, is the same. */
  lemma {:induction false} PutPastBatch(skills: seq<Skill>, more: seq<Skill>, s: Skill)
    requires HasSkill(skills, s.name) && !HasSkill(more, s.name)
    ensures PutAll(Put(skills, s), more) == Put(PutAll(skills, more), s)
    decreases |more|
  {
    if more != [] {
      var k := |more| - 1;
      LookupNone(more, s.name);
      LookupNone(more[..k], s.name);
      PutPastBatch(skills, more[..k], s);
      PutAllHas(skills, more[..k], s.name);
      PutCommutes(PutAll(skills, more[..k]), s, more[k]);
    }
  }

  /** Replacing a skill inside a batch is putting it after the batch. */
  lemma {:induction false} PutInsideBatch(skills: seq<Skill>, more: seq<Skill>, s: Skill)
    requires DistinctSkills(more)
    ensures PutAll(skills, Put(more, s)) == Put(PutAll(skills, more), s)
    decreases |more|
  {
    hide Put, PutAll;
    if more == [] {
      PutAllLast(skills, [], s);
      PutIntoEmpty(s);
    } else {
      var k := |more| - 1;
      var front, last := more[..k], more[k];
      assert front + [last] == more;
      PutAtEnd(front, last, s);
      PutAllLast(skills, front, last);
      if HasSkill(front, s.name) {
        PutAllLast(skills, Put(front, s), last);
        PutInsideBatch(skills, front, s);
        PutAllHas(skills, front, s.name);
        LastIsOther(more, s.name);
        PutCommutes(PutAll(skills, front), s, last);
      } else if last.name == s.name {
        PutAllLast(skills, front, s);
        PutOverwrites(PutAll(skills, front), last, s);
      } else {
        PutAllLast(skills, more, s);
      }
    }
  }

  lemma PutIntoEmpty(s: Skill)
    ensures Put([], s) == [] + [s]
  {
  }

  lemma PutAllLast(skills: seq<Skill>, front: seq<Skill>, s: Skill)
    ensures PutAll(skills, front + [s]) == Put(PutAll(skills, front), s)
  {
    assert (front + [s])[..|front|] == front;
  }

  lemma LastIsOther(more: seq<Skill>, name: string)
    requires more != [] && DistinctSkills(more) && HasSkill(more[..|more| - 1], name)
    ensures more[|more| - 1].name != name
  {
    var i :| 0 <= i < |more| - 1 && more[..|more| - 1][i].name == name;
    assert more[i].name == name;
  }

  lemma {:induction false} PutAtEnd(front: seq<Skill>, last: Skill, s: Skill)
    ensures Put(front + [last], s) ==
            if HasSkill(front, s.name) then Put(front, s) + [last]
            else if last.name == s.name then front + [s]
            else front + [last] + [s]
    decreases |front|
  {
    if front == [] {
      assert front + [last] == [last];
      assert Put([last], s) == if last.name == s.name then [s] + [] else [last] + Put([], s);
    } else {
      HasHead(front, s.name);
      assert (front + [last])[1..] == front[1..] + [last];
      if front[0].name != s.name {
        PutAtEnd(front[1..], last, s);
      }
    }
  }

  /** A batch may be normalised first: only its last values and first positions matter. */
  lemma {:induction false} NormaliseFirst(skills: seq<Skill>, more: seq<Skill>)
    ensures PutAll(skills, PutAll([], more)) == PutAll(skills, more)
    decreases |more|
  {
    if more != [] {
      var k := |more| - 1;
      NormaliseFirst(skills, more[..k]);
      PutAllDistinct(more[..k]);
      PutInsideBatch(skills, PutAll([], more[..k]), more[k]);
    }
  }

  lemma {:induction false} MergeAssociative(g: seq<Skill>, p: seq<Skill>, c: seq<Skill>)
    ensures PutAll([], g + PutAll([], p + c)) == PutAll([], PutAll([], g + p) + c)
  {
    hide Put, PutAll;
    PutAllAppend([], g, PutAll([], p + c));
    NormaliseFirst(PutAll([], g), p + c);
    PutAllAppend([], g, p + c);
    PutAllAppend([], PutAll([], g + p), c);
    NormaliseFirst([], g + p);
    PutAllAppend([], g + p, c);
    assert g + (p + c) == (g + p) + c;
  }

  /** Layering is associative: a chain of packs can be folded from either end. */
  lemma {:induction false} LayeringIsAssociative(child: Pack, parent: Pack, grandparent: Pack)
    ensures Layer(Layer(child, parent), grandparent) == Layer(child, Layer(parent, grandparent))
  {
    hide Put, PutAll;
    MergeAssociative(grandparent.skills, parent.skills, child.skills);
  }

  // ---------------------------------------------------------------------------------------------
  // Parents that never end
  // ---------------------------------------------------------------------------------------------

  predicate DistinctNames(packs: seq<Pack>) {
    forall i, j | 0 <= i < j < |packs| :: packs[i].name != packs[j].name
  }

  /** A pack has a parent to look up when it names one; an empty name counts as none. */
  predicate NamesParent(p: Pack) {
    p.extendsName.Some? && p.extendsName.value != ""
  }

  function ByName(packs: seq<Pack>, name: string): (r: Option<Pack>)
    ensures r.Some? ==> r.value in packs && r.value.name == name
  {
    if packs == [] then None
    else if packs[|packs| - 1].name == name then Some(packs[|packs| - 1])
    else ByName(packs[..|packs| - 1], name)
  }

  /** Where `n` steps from a pack to its parent lead, if that far. */
  function Ancestor(packs: seq<Pack>, start: Pack, n: nat): Option<Pack> {
    if n == 0 then Some(start)
    else
      match Ancestor(packs, start, n - 1)
      case None => None
      case Some(p) => if NamesParent(p) then ByName(packs, p.extendsName.value) else None
  }

  predicate GoesOn(packs: seq<Pack>, start: Pack, n: nat) {
    Ancestor(packs, start, n).Some? && NamesParent(Ancestor(packs, start, n).value)
  }

  /** Following parents never comes to a pack without one, nor to a missing one. */
  ghost predicate NeverEnds(packs: seq<Pack>, start: Pack) {
    forall n: nat :: GoesOn(packs, start, n)
  }

  /** The same pack met twice on the way: from there on the way repeats for ever. */
  lemma {:induction false} RepeatNeverEnds(packs: seq<Pack>, start: Pack, j: nat, k: nat, n: nat)
    requires j < k && Ancestor(packs, start, j) == Ancestor(packs, start, k)
    requires forall i: nat | i <= k :: GoesOn(packs, start, i)
    ensures GoesOn(packs, start, n)
    ensures n >= k ==> Ancestor(packs, start, n) == Ancestor(packs, start, n - (k - j))
    decreases n
  {
    if n > k {
      RepeatNeverEnds(packs, start, j, k, n - 1);
      RepeatNeverEnds(packs, start, j, k, n - (k - j));
    }
  }

  ghost function Endless(packs: seq<Pack>, starts: seq<Pack>): seq<string> {
    if starts == [] then []
    else
      var last := starts[|starts| - 1];
      Endless(packs, starts[..|starts| - 1]) + if NeverEnds(packs, last) then [last.name] else []
  }

  function PackNames(packs: seq<Pack>): set<string> {
    set i | 0 <= i < |packs| :: packs[i].name
  }

  /** `trail` lists the ancestors passed, each naming a parent. */
  ghost predicate Trails(packs: seq<Pack>, start: Pack, trail: seq<Pack>) {
    forall i | 0 <= i < |trail| ::
      trail[i] in packs && NamesParent(trail[i]) && Ancestor(packs, start, i) == Some(trail[i])
  }

  lemma EmptyTrail(packs: seq<Pack>, start: Pack)
    ensures Trails(packs, start, [])
  {
  }

  lemma TrailGrows(packs: seq<Pack>, start: Pack, trail: seq<Pack>, p: Pack)
    requires Trails(packs, start, trail) && p in packs && NamesParent(p) && Ancestor(packs, start, |trail|) == Some(p)
    ensures Trails(packs, start, trail + [p])
  {
    hide Ancestor;
  }

  predicate Passed(trail: seq<Pack>, name: string) {
    exists i | 0 <= i < |trail| :: trail[i].name == name
  }

  lemma PassedMore(trail: seq<Pack>, p: Pack, name: string)
    ensures Passed(trail + [p], name) <==> Passed(trail, name) || p.name == name
    ensures !Passed([], name)
  {
    if i :| 0 <= i < |trail| && trail[i].name == name {
      assert (trail + [p])[i].name == name;
    }
    assert (trail + [p])[|trail|] == p;
  }

  /** Walks up from one pack, remembering the names it has passed; they run out, so it stops. */
  method WalkReenters(packs: seq<Pack>, start: Pack) returns (reenters: bool)
    requires start in packs
    ensures DistinctNames(packs) ==> (reenters <==> NeverEnds(packs, start))
  {
    hide Ancestor, NeverEnds, PackNames, DistinctNames, ByName, Trails, Passed;
    var visited: set<string> := {};
    var cur := Some(start);
    ghost var trail: seq<Pack> := [];
    AncestorZero(packs, start);
    EmptyTrail(packs, start);
    while cur.Some? && NamesParent(cur.value)
      invariant cur == Ancestor(packs, start, |trail|)
      invariant cur.Some? ==> cur.value in packs
      invariant Trails(packs, start, trail)
      invariant forall name | name in visited :: Passed(trail, name)
      invariant visited <= PackNames(packs)
      decreases |PackNames(packs) - visited|
    {
      if cur.value.name in visited {
        if DistinctNames(packs) {
          Reentered(packs, start, trail, cur.value);
        }
        return true;
      }
      NameOf(packs, cur.value);
      Shrinks(PackNames(packs), visited, cur.value.name);
      AncestorNext(packs, start, |trail|);
      TrailGrows(packs, start, trail, cur.value);
      forall name ensures Passed(trail + [cur.value], name) <==> Passed(trail, name) || cur.value.name == name {
        PassedMore(trail, cur.value, name);
      }
      visited := visited + {cur.value.name};
      trail := trail + [cur.value];
      cur := ByName(packs, cur.value.extendsName.value);
    }
    EndsHere(packs, start, |trail|);
    return false;
  }

  lemma AncestorZero(packs: seq<Pack>, start: Pack)
    ensures Ancestor(packs, start, 0) == Some(start)
  {
  }

  lemma AncestorNext(packs: seq<Pack>, start: Pack, n: nat)
    requires Ancestor(packs, start, n).Some? && NamesParent(Ancestor(packs, start, n).value)
    ensures Ancestor(packs, start, n + 1) == ByName(packs, Ancestor(packs, start, n).value.extendsName.value)
  {
  }

  lemma EndsHere(packs: seq<Pack>, start: Pack, n: nat)
    requires !GoesOn(packs, start, n)
    ensures !NeverEnds(packs, start)
  {
  }

  lemma NameOf(packs: seq<Pack>, p: Pack)
    requires p in packs
    ensures p.name in PackNames(packs)
  {
  }

  lemma Shrinks(names: set<string>, visited: set<string>, name: string)
    requires name in names && name !in visited
    ensures |names - (visited + {name})| < |names - visited|
  {
    assert names - (visited + {name}) == (names - visited) - {name};
  }

  lemma Reentered(packs: seq<Pack>, start: Pack, trail: seq<Pack>, cur: Pack)
    requires DistinctNames(packs) && cur in packs && NamesParent(cur) && Ancestor(packs, start, |trail|) == Some(cur)
    requires Trails(packs, start, trail)
    requires Passed(trail, cur.name)
    ensures NeverEnds(packs, start)
  {
    hide Ancestor;
    var i :| 0 <= i < |trail| && trail[i].name == cur.name;
    assert trail[i] == cur;
    forall j: nat | j <= |trail| ensures GoesOn(packs, start, j) {
      if j < |trail| { assert Ancestor(packs, start, j) == Some(trail[j]); }
    }
    forall n: nat ensures GoesOn(packs, start, n) { RepeatNeverEnds(packs, start, i, |trail|, n); }
  }

  /** Reports exactly the packs whose parents never end, each once, in input order: also those that only lead into a cycle. */
  method DetectExtendsCycle(packs: seq<Pack>) returns (cycles: seq<string>)
    ensures DistinctNames(packs) ==> cycles == Endless(packs, packs)
  {
    cycles := [];
    for i := 0 to |packs|
      invariant DistinctNames(packs) ==> cycles == Endless(packs, packs[..i])
    {
      assert packs[..i + 1][..i] == packs[..i];
      var reenters := WalkReenters(packs, packs[i]);
      if reenters { cycles := cycles + [packs[i].name]; }
    }
    assert packs[..|packs|] == packs;
  }

  lemma {:induction false} EndlessMembers(packs: seq<Pack>, starts: seq<Pack>, p: Pack)
    requires DistinctNames(starts) && p in starts
    ensures p.name in Endless(packs, starts) <==> NeverEnds(packs, p)
    ensures multiset(Endless(packs, starts))[p.name] <= 1
    decreases |starts|
  {
    hide NeverEnds;
    var k := |starts| - 1;
    var front := starts[..k];
    assert DistinctNames(front);
    if p == starts[k] {
      forall i | 0 <= i < k ensures front[i].name != p.name { assert starts[i].name != starts[k].name; }
      NotMentioned(packs, front, p.name);
    } else {
      var i :| 0 <= i < k && starts[i] == p;
      assert front[i] == p && starts[i].name != starts[k].name;
      EndlessMembers(packs, front, p);
    }
  }

  lemma {:induction false} NotMentioned(packs: seq<Pack>, starts: seq<Pack>, name: string)
    requires forall i | 0 <= i < |starts| :: starts[i].name != name
    ensures name !in Endless(packs, starts)
    decreases |starts|
  {
    hide NeverEnds;
    if starts != [] { NotMentioned(packs, starts[..|starts| - 1], name); }
  }

  lemma {:induction false} AncestorOfParent(packs: seq<Pack>, p: Pack, parent: Pack, n: nat)
    requires NamesParent(p) && ByName(packs, p.extendsName.value) == Some(parent)
    ensures Ancestor(packs, p, n + 1) == Ancestor(packs, parent, n)
  {
    if n == 0 {
      AncestorZero(packs, p);
      AncestorNext(packs, p, 0);
    } else {
      AncestorOfParent(packs, p, parent, n - 1);
    }
  }

  /** A pack never ends exactly when it has a parent that never ends: leading into a cycle counts as being in one. */
  lemma {:induction false} NeverEndsIffParentDoes(packs: seq<Pack>, p: Pack)
    ensures NeverEnds(packs, p) <==>
            && NamesParent(p) && ByName(packs, p.extendsName.value).Some?
            && NeverEnds(packs, ByName(packs, p.extendsName.value).value)
  {
    hide Ancestor;
    AncestorZero(packs, p);
    if NamesParent(p) {
      var parent := ByName(packs, p.extendsName.value);
      AncestorNext(packs, p, 0);
      if parent.Some? {
        forall n: nat ensures GoesOn(packs, p, n + 1) <==> GoesOn(packs, parent.value, n) {
          AncestorOfParent(packs, p, parent.value, n);
        }
        if NeverEnds(packs, parent.value) {
          forall n: nat ensures GoesOn(packs, p, n) {
            if n > 0 { assert GoesOn(packs, parent.value, n - 1); }
          }
        }
        if NeverEnds(packs, p) {
          forall n: nat ensures GoesOn(packs, parent.value, n) { assert GoesOn(packs, p, n + 1); }
        }
      } else {
        EndsHere(packs, p, 1);
      }
    } else {
      EndsHere(packs, p, 0);
    }
  }

  // ---------------------------------------------------------------------------------------------
  // Cycles
  // ---------------------------------------------------------------------------------------------

  /** Following parents comes back to the pack itself. */
  ghost predicate OnCycle(packs: seq<Pack>, p: Pack) {
    exists n: nat :: n > 0 && Ancestor(packs, p, n) == Some(p)
  }

  lemma {:induction false} AncestorAdds(packs: seq<Pack>, p: Pack, a: Pack, m: nat, n: nat)
    requires Ancestor(packs, p, m) == Some(a)
    ensures Ancestor(packs, p, m + n) == Ancestor(packs, a, n)
    decreases n
  {
    if n > 0 {
      AncestorAdds(packs, p, a, m, n - 1);
    }
  }

  lemma {:induction false} WentOn(packs: seq<Pack>, p: Pack, m: nat, n: nat)
    requires m < n && Ancestor(packs, p, n).Some?
    ensures GoesOn(packs, p, m)
    decreases n
  {
    if m < n - 1 {
      WentOn(packs, p, m, n - 1);
    }
  }

  lemma CycleNeverEnds(packs: seq<Pack>, p: Pack)
    requires OnCycle(packs, p)
    ensures NeverEnds(packs, p)
  {
    hide Ancestor;
    var k: nat :| k > 0 && Ancestor(packs, p, k) == Some(p);
    AncestorZero(packs, p);
    forall i: nat | i <= k ensures GoesOn(packs, p, i) {
      WentOn(packs, p, if i < k then i else 0, k);
    }
    forall n: nat ensures GoesOn(packs, p, n) {
      RepeatNeverEnds(packs, p, 0, k, n);
    }
  }

  /** From the first step on, an ancestor is the pack that its name stands for. */
  lemma AncestorIsNamed(packs: seq<Pack>, p: Pack, n: nat)
    requires n > 0 && Ancestor(packs, p, n).Some?
    ensures ByName(packs, Ancestor(packs, p, n).value.name) == Ancestor(packs, p, n)
  {
  }

  /** Names run out, so a way that never ends meets some pack twice. */
  lemma MeetsTwice(packs: seq<Pack>, p: Pack) returns (i: nat, j: nat)
    requires NeverEnds(packs, p)
    ensures 0 < i < j && Ancestor(packs, p, i) == Ancestor(packs, p, j) && Ancestor(packs, p, i).Some?
  {
    hide Ancestor, ByName, PackNames;
    var visited: set<string> := {};
    j := 1;
    assert GoesOn(packs, p, 1);
    while Ancestor(packs, p, j).value.name !in visited
      invariant j > 0 && GoesOn(packs, p, j)
      invariant visited <= PackNames(packs)
      invariant forall name | name in visited :: exists k: nat :: 0 < k < j && IsNamed(packs, p, k, name)
      decreases |PackNames(packs) - visited|
    {
      var name := Ancestor(packs, p, j).value.name;
      AncestorIsNamed(packs, p, j);
      NameOf(packs, Ancestor(packs, p, j).value);
      Shrinks(PackNames(packs), visited, name);
      assert IsNamed(packs, p, j, name);
      visited := visited + {name};
      j := j + 1;
      assert GoesOn(packs, p, j);
    }
    i :| 0 < i < j && IsNamed(packs, p, i, Ancestor(packs, p, j).value.name);
    AncestorIsNamed(packs, p, i);
    AncestorIsNamed(packs, p, j);
  }

  predicate IsNamed(packs: seq<Pack>, p: Pack, k: nat, name: string) {
    Ancestor(packs, p, k).Some? && Ancestor(packs, p, k).value.name == name
  }

  /** A pack is reported exactly when it is on a cycle or leads into one. */
  lemma {:induction false} NeverEndsIffMeetsCycle(packs: seq<Pack>, p: Pack)
    ensures NeverEnds(packs, p) <==>
            exists n: nat :: Ancestor(packs, p, n).Some? && OnCycle(packs, Ancestor(packs, p, n).value)
  {
    hide Ancestor, NeverEnds;
    if NeverEnds(packs, p) {
      var i, j := MeetsTwice(packs, p);
      var a := Ancestor(packs, p, i).value;
      AncestorAdds(packs, p, a, i, j - i);
      assert OnCycle(packs, a);
    }
    if n: nat :| Ancestor(packs, p, n).Some? && OnCycle(packs, Ancestor(packs, p, n).value) {
      var a := Ancestor(packs, p, n).value;
      CycleNeverEnds(packs, a);
      EndlessFrom(packs, p, a, n);
    }
  }

  lemma EndlessFrom(packs: seq<Pack>, p: Pack, a: Pack, n: nat)
    requires Ancestor(packs, p, n) == Some(a) && NeverEnds(packs, a)
    ensures NeverEnds(packs, p)
  {
    hide Ancestor;
    forall m: nat ensures GoesOn(packs, p, m) {
      if m < n {
        WentOn(packs, p, m, n);
      } else {
        AncestorAdds(packs, p, a, n, m - n);
        assert GoesOn(packs, a, m - n);
      }
    }
  }

  /** For example, when `a` extends `b` and `b` itself, `a` is reported although it is on no cycle. */
  lemma {:induction false} LeadingInIsReported(a: Pack, b: Pack)
    requires a.name != b.name && b.name != "" && a.extendsName == Some(b.name) == b.extendsName
    ensures a.name in Endless([a, b], [a, b]) && !OnCycle([a, b], a)
  {
    hide NeverEnds, Endless;
    var packs := [a, b];
    assert ByName(packs, b.name) == Some(b);
    OneStep(packs, a, b);
    OneStep(packs, b, b);
    assert OnCycle(packs, b);
    NeverEndsIffMeetsCycle(packs, a);
    EndlessMembers(packs, packs, a);
    forall n: nat | n > 0 ensures Ancestor(packs, a, n) == Some(b) {
      StaysAt(packs, a, b, n);
    }
  }

  lemma OneStep(packs: seq<Pack>, p: Pack, parent: Pack)
    requires NamesParent(p) && ByName(packs, p.extendsName.value) == Some(parent)
    ensures Ancestor(packs, p, 1) == Some(parent)
  {
    AncestorZero(packs, p);
    AncestorNext(packs, p, 0);
  }

  lemma {:induction false} StaysAt(packs: seq<Pack>, p: Pack, b: Pack, n: nat)
    requires n > 0 && Ancestor(packs, p, 1) == Some(b) && NamesParent(b) && ByName(packs, b.extendsName.value) == Some(b)
    ensures Ancestor(packs, p, n) == Some(b)
    decreases n
  {
    if n > 1 {
      StaysAt(packs, p, b, n - 1);
      AncestorNext(packs, p, n - 1);
    }
  }
}
