/**
  Parsing a pack configuration that may hold unknown keys (src/packs/tolerant_strict.ts). The JavaScript heap
  is explicit, so that "the caller's value is never mutated" and sharing between values can be stated: objects
  live at addresses, and `Denotes` says which tree a value stands for.
*/
module TolerantStrict {
  import opened Wrappers

  type Key = string

  /** Arrays are objects with index keys and a length that deleting an element leaves alone. */
  datatype Kind = Object | Array(length: nat)

  datatype Tree = Leaf(text: string) | Node(kind: Kind, fields: map<Key, Tree>)

  datatype Val = Prim(text: string) | Ref(addr: nat)

  datatype Cell = Cell(kind: Kind, fields: map<Key, Val>)

  datatype Heap = Heap(cells: map<nat, Cell>, next: nat)

  datatype Issue = UnrecognizedKeys(path: seq<Key>, keys: seq<Key>) | OtherIssue(path: seq<Key>, code: string)

  /** What `safeParse` returns; a failure carries its issues. */
  type Parsed<T> = Result<T, seq<Issue>>

  // ---------------------------------------------------------------------------------------------
  // Heaps
  // ---------------------------------------------------------------------------------------------

  predicate Resolves(h: Heap, v: Val) {
    v.Ref? ==> v.addr in h.cells
  }

  predicate WellFormed(h: Heap) {
    && (forall a | a in h.cells :: a < h.next)
    && (forall a, k | a in h.cells && k in h.cells[a].fields :: Resolves(h, h.cells[a].fields[k]))
  }

  /** The value stands for the tree, and no address in `avoid` is passed on the way. */
  ghost predicate Denotes(h: Heap, v: Val, t: Tree, avoid: set<nat>)
    decreases t, 1
  {
    match v
    case Prim(text) => t == Leaf(text)
    case Ref(a) => a !in avoid && CellDenotes(h, a, t, avoid)
  }

  ghost predicate CellDenotes(h: Heap, a: nat, t: Tree, avoid: set<nat>)
    decreases t, 0
  {
    && a in h.cells && t.Node? && h.cells[a].kind == t.kind && h.cells[a].fields.Keys == t.fields.Keys
    && forall k | k in t.fields :: Denotes(h, h.cells[a].fields[k], t.fields[k], avoid)
  }

  lemma DenotesShape(h: Heap, v: Val, t: Tree, avoid: set<nat>)
    requires Denotes(h, v, t, avoid)
    ensures v.Prim? <==> t.Leaf?
    ensures v.Ref? ==> v.addr !in avoid && CellDenotes(h, v.addr, t, avoid)
  {
  }

  lemma ChildDenotes(h: Heap, a: nat, t: Tree, avoid: set<nat>, k: Key)
    requires CellDenotes(h, a, t, avoid) && k in t.fields
    ensures Denotes(h, h.cells[a].fields[k], t.fields[k], avoid)
  {
  }

  /** Nothing that was on the heap has changed. */
  predicate Keeps(h: Heap, after: Heap, except: set<nat>) {
    forall a | a in h.cells && a !in except :: a in after.cells && after.cells[a] == h.cells[a]
  }

  /** A value is not affected by changes to cells it does not pass through. */
  lemma {:induction false} Frame(h: Heap, after: Heap, v: Val, t: Tree, avoid: set<nat>, avoid2: set<nat>)
    requires Denotes(h, v, t, avoid) && Keeps(h, after, avoid)
    requires forall a | a in avoid2 && a in h.cells :: a in avoid
    ensures Denotes(after, v, t, avoid2)
    decreases t
  {
    if v.Ref? {
      forall k | k in t.fields ensures Denotes(after, h.cells[v.addr].fields[k], t.fields[k], avoid2) {
        Frame(h, after, h.cells[v.addr].fields[k], t.fields[k], avoid, avoid2);
      }
    }
  }

  function Cloned(h: Heap, a: nat): (r: Heap)
    requires WellFormed(h) && a in h.cells
    ensures WellFormed(r)
  {
    Heap(h.cells[h.next := h.cells[a]], h.next + 1)
  }

  function Written(h: Heap, a: nat, k: Key, v: Val): (r: Heap)
    requires WellFormed(h) && a in h.cells && Resolves(h, v)
    ensures WellFormed(r)
  {
    h.(cells := h.cells[a := h.cells[a].(fields := h.cells[a].fields[k := v])])
  }

  function Deleted(h: Heap, a: nat, keys: set<Key>): (r: Heap)
    requires WellFormed(h) && a in h.cells
    ensures WellFormed(r)
  {
    h.(cells := h.cells[a := h.cells[a].(fields := h.cells[a].fields - keys)])
  }

  predicate HasObjectAt(h: Heap, node: nat, k: Key)
    requires node in h.cells
  {
    k in h.cells[node].fields && h.cells[node].fields[k].Ref?
  }

  /** One step of the descent: the child is cloned and the clone put in its place. */
  function Stepped(h: Heap, node: nat, k: Key): (r: Heap)
    requires WellFormed(h) && node in h.cells && HasObjectAt(h, node, k)
    ensures WellFormed(r) && h.next in r.cells
  {
    Written(Cloned(h, h.cells[node].fields[k].addr), node, k, Ref(h.next))
  }

  /** The heap and the container after descending, or no container when the path leaves the objects. */
  function Descended(h: Heap, node: nat, path: seq<Key>): (r: (Heap, Option<nat>))
    requires WellFormed(h) && node in h.cells
    ensures WellFormed(r.0) && (r.1.Some? ==> r.1.value in r.0.cells)
    decreases |path|
  {
    if path == [] then (h, Some(node))
    else if !HasObjectAt(h, node, path[0]) then (h, None)
    else Descended(Stepped(h, node, path[0]), h.next, path[1..])
  }

  function Stripped(h: Heap, node: nat, path: seq<Key>, keys: set<Key>): (r: Heap)
    requires WellFormed(h) && node in h.cells
    ensures WellFormed(r)
  {
    var (after, leaf) := Descended(h, node, path);
    if leaf.Some? then Deleted(after, leaf.value, keys) else after
  }

  function KeySet(keys: seq<Key>): set<Key> {
    set k | k in keys
  }

  /** The allocating store that the methods below run on. */
  class Store {
    var heap: Heap

    constructor (heap: Heap)
      ensures this.heap == heap
    {
      this.heap := heap;
    }

    method ShallowClone(a: nat) returns (b: nat)
      requires WellFormed(heap) && a in heap.cells
      modifies this
      ensures heap == Cloned(old(heap), a) && b == old(heap).next
    {
      b := heap.next;
      heap := Heap(heap.cells[b := heap.cells[a]], b + 1);
    }

    method DescendClone(root: nat, path: seq<Key>) returns (leaf: Option<nat>)
      requires WellFormed(heap) && root in heap.cells
      modifies this
      ensures (heap, leaf) == Descended(old(heap), root, path)
    {
      var node := root;
      for i := 0 to |path|
        invariant WellFormed(heap) && node in heap.cells
        invariant Descended(heap, node, path[i..]) == Descended(old(heap), root, path)
      {
        var seg := path[i];
        assert path[i..][0] == seg && path[i..][1..] == path[i + 1..];
        if seg !in heap.cells[node].fields || heap.cells[node].fields[seg].Prim? {
          return None;
        }
        ghost var before := heap;
        var clone := ShallowClone(heap.cells[node].fields[seg].addr);
        heap := Written(heap, node, seg, Ref(clone));
        assert heap == Stepped(before, node, seg);
        node := clone;
      }
      leaf := Some(node);
    }

    method DeleteKeys(a: nat, keys: seq<Key>)
      requires WellFormed(heap) && a in heap.cells
      modifies this
      ensures heap == Deleted(old(heap), a, KeySet(keys))
    {
      assert heap.cells[a].fields - KeySet(keys[..0]) == heap.cells[a].fields;
      for i := 0 to |keys|
        invariant WellFormed(heap) && a in heap.cells
        invariant heap == Deleted(old(heap), a, KeySet(keys[..i]))
      {
        var cell := heap.cells[a];
        heap := heap.(cells := heap.cells[a := cell.(fields := cell.fields - {keys[i]})]);
        assert KeySet(keys[..i + 1]) == KeySet(keys[..i]) + {keys[i]};
        assert heap.cells[a].fields == old(heap).cells[a].fields - KeySet(keys[..i + 1]);
      }
      assert keys[..|keys|] == keys;
    }

    /**
      Removes the reported keys. Nothing that was on the heap changes, and the result stands for the tree
      with the reported (path, key) pairs removed, whatever the issues' order.
    */
    method StripUnknownKeys(raw: Val, issues: seq<Issue>, ghost t: Tree) returns (r: Val)
      requires WellFormed(heap) && Denotes(heap, raw, t, {})
      modifies this
      ensures WellFormed(heap) && Keeps(old(heap), heap, {})
      ensures Denotes(heap, r, Pruned(t, Pairs(issues), []), {})
    {
      if raw.Prim? {
        return raw;
      }
      var root := ShallowClone(raw.addr);
      CloneDenotes(old(heap), raw.addr, t);
      for i := 0 to |issues|
        invariant WellFormed(heap) && root == old(heap).next && Keeps(old(heap), heap, {})
        invariant CellDenotes(heap, root, StripAll(t, issues[..i]), {root})
      {
        hide CellDenotes, Descended, Deleted, Cloned, TreeStrip, Pairs, Pruned;
        assert issues[..i + 1][..i] == issues[..i];
        match issues[i]
        case OtherIssue(_, _) => continue;
        case UnrecognizedKeys(path, keys) =>
          ghost var before := heap;
          assert {} + {root} == {root};
          StripDenotes(heap, root, path, KeySet(keys), StripAll(t, issues[..i]), {});
          CellExists(heap, root, StripAll(t, issues[..i]), {root});
          var leaf := DescendClone(root, path);
          if leaf.Some? {
            DeleteKeys(leaf.value, keys);
          }
          assert heap == Stripped(before, root, path, KeySet(keys));
      }
      assert issues[..|issues|] == issues;
      StripAllIsPruning(t, issues);
      r := Ref(root);
      RootDenotes(heap, root, Pruned(t, Pairs(issues), []));
    }

    /**
      The whole seam: a valid value passes; a value whose issues are all unknown keys passes without them, with
      one warning naming them; anything else fails with the first parse's own issues.
    */
    method ParseTolerantStrict<T(!new)>(schema: Tree -> Parsed<T>, raw: Val, ghost t: Tree)
      returns (r: Parsed<T>, warned: Option<seq<Key>>)
      requires WellFormed(heap) && Denotes(heap, raw, t, {})
      modifies this
      ensures WellFormed(heap) && Keeps(old(heap), heap, {})
      ensures r == Tolerant(schema, t)
      ensures warned == if schema(t).Err? && AllUnknown(schema(t).error) then Some(KeysOf(schema(t).error)) else None
    {
      var first := schema(Reified(heap, raw, t));
      if first.Ok? {
        return first, None;
      }
      var issues := first.error;
      if !AllUnknown(issues) {
        return first, None;
      }
      var stripped := StripUnknownKeys(raw, issues, t);
      return schema(Reified(heap, stripped, Pruned(t, Pairs(issues), []))), Some(KeysOf(issues));
    }
  }

  /** Reads a value off the heap; the tree it stands for bounds the reading. */
  function Reified(h: Heap, v: Val, ghost t: Tree): (r: Tree)
    requires Denotes(h, v, t, {})
    ensures r == t
    decreases t
  {
    match v
    case Prim(text) => Leaf(text)
    case Ref(a) =>
      DenotesShape(h, v, t, {});
      var cell := h.cells[a];
      Node(cell.kind, map k | k in cell.fields :: ChildDenotes(h, a, t, {}, k); Reified(h, cell.fields[k], t.fields[k]))
  }

  predicate AllUnknown(issues: seq<Issue>) {
    |issues| > 0 && forall i | 0 <= i < |issues| :: issues[i].UnrecognizedKeys?
  }

  function KeysOf(issues: seq<Issue>): seq<Key> {
    if issues == [] then []
    else (if issues[0].UnrecognizedKeys? then issues[0].keys else []) + KeysOf(issues[1..])
  }

  ghost function Tolerant<T>(schema: Tree -> Parsed<T>, t: Tree): Parsed<T> {
    match schema(t)
    case Ok(data) => Ok(data)
    case Err(issues) => if AllUnknown(issues) then schema(Pruned(t, Pairs(issues), [])) else Err(issues)
  }

  // ---------------------------------------------------------------------------------------------
  // What stripping does to the tree
  // ---------------------------------------------------------------------------------------------

  /** Removes keys from the object at one path, if there is one. */
  ghost function TreeStrip(t: Tree, path: seq<Key>, keys: set<Key>): Tree
    decreases |path|
  {
    if t.Leaf? then t
    else if path == [] then t.(fields := t.fields - keys)
    else if path[0] !in t.fields then t
    else t.(fields := t.fields[path[0] := TreeStrip(t.fields[path[0]], path[1..], keys)])
  }

  ghost function StripAll(t: Tree, issues: seq<Issue>): Tree {
    if issues == [] then t
    else
      var before, last := StripAll(t, issues[..|issues| - 1]), issues[|issues| - 1];
      if last.UnrecognizedKeys? then TreeStrip(before, last.path, KeySet(last.keys)) else before
  }

  lemma CloneDenotes(h: Heap, a: nat, t: Tree)
    requires WellFormed(h) && a in h.cells && CellDenotes(h, a, t, {})
    ensures CellDenotes(Cloned(h, a), h.next, t, {h.next}) && Keeps(h, Cloned(h, a), {})
  {
    forall k | k in t.fields ensures Denotes(Cloned(h, a), h.cells[a].fields[k], t.fields[k], {h.next}) {
      Frame(h, Cloned(h, a), h.cells[a].fields[k], t.fields[k], {}, {h.next});
    }
  }

  lemma CellExists(h: Heap, a: nat, t: Tree, avoid: set<nat>)
    requires CellDenotes(h, a, t, avoid)
    ensures a in h.cells
  {
  }

  lemma RootDenotes(h: Heap, root: nat, t: Tree)
    requires CellDenotes(h, root, t, {root})
    ensures Denotes(h, Ref(root), t, {})
  {
    forall k | k in t.fields ensures Denotes(h, h.cells[root].fields[k], t.fields[k], {}) {
      Frame(h, h, h.cells[root].fields[k], t.fields[k], {root}, {});
    }
  }

  /** After a step, the clone stands for the child's tree and is reached from nowhere else. */
  lemma StepDenotes(h: Heap, node: nat, k: Key, t: Tree, others: set<nat>)
    requires WellFormed(h) && node in h.cells && others <= h.cells.Keys
    requires CellDenotes(h, node, t, others + {node}) && HasObjectAt(h, node, k)
    ensures CellDenotes(Stepped(h, node, k), h.next, t.fields[k], others + {node} + {h.next})
    ensures Keeps(h, Stepped(h, node, k), {node})
  {
    var after, child := Stepped(h, node, k), h.cells[node].fields[k];
    var avoid := others + {node};
    ChildDenotes(h, node, t, avoid, k);
    DenotesShape(h, child, t.fields[k], avoid);
    forall j | j in t.fields[k].fields
      ensures Denotes(after, h.cells[child.addr].fields[j], t.fields[k].fields[j], avoid + {h.next})
    {
      Frame(h, after, h.cells[child.addr].fields[j], t.fields[k].fields[j], avoid, avoid + {h.next});
    }
  }

  /** Back at the parent: only the child in question has changed. */
  lemma ParentDenotes(h: Heap, after: Heap, node: nat, k: Key, t: Tree, child: Tree, others: set<nat>)
    requires WellFormed(h) && node in h.cells && others <= h.cells.Keys
    requires CellDenotes(h, node, t, others + {node}) && k in t.fields
    requires Keeps(h, after, {node}) && node in after.cells
    requires after.cells[node] == h.cells[node].(fields := h.cells[node].fields[k := Ref(h.next)])
    requires CellDenotes(after, h.next, child, others + {node} + {h.next})
    ensures CellDenotes(after, node, t.(fields := t.fields[k := child]), others + {node})
  {
    var avoid, next := others + {node}, t.(fields := t.fields[k := child]);
    forall j | j in next.fields ensures Denotes(after, after.cells[node].fields[j], next.fields[j], avoid) {
      if j == k {
        forall i | i in child.fields ensures Denotes(after, after.cells[h.next].fields[i], child.fields[i], avoid) {
          Frame(after, after, after.cells[h.next].fields[i], child.fields[i], avoid + {h.next}, avoid);
        }
      } else {
        Frame(h, after, h.cells[node].fields[j], t.fields[j], avoid, avoid);
      }
    }
  }

  lemma DeleteDenotes(h: Heap, node: nat, keys: set<Key>, t: Tree, others: set<nat>)
    requires WellFormed(h) && node in h.cells && CellDenotes(h, node, t, others + {node})
    ensures CellDenotes(Deleted(h, node, keys), node, t.(fields := t.fields - keys), others + {node})
    ensures Keeps(h, Deleted(h, node, keys), {node})
  {
    var after, avoid := Deleted(h, node, keys), others + {node};
    forall j | j in t.fields && j !in keys ensures Denotes(after, h.cells[node].fields[j], t.fields[j], avoid) {
      Frame(h, after, h.cells[node].fields[j], t.fields[j], avoid, avoid);
    }
  }

  lemma StrippedUnfolds(h: Heap, node: nat, path: seq<Key>, keys: set<Key>)
    requires WellFormed(h) && node in h.cells
    ensures path == [] ==> Stripped(h, node, path, keys) == Deleted(h, node, keys)
    ensures path != [] && !HasObjectAt(h, node, path[0]) ==> Stripped(h, node, path, keys) == h
    ensures path != [] && HasObjectAt(h, node, path[0]) ==>
      Stripped(h, node, path, keys) == Stripped(Stepped(h, node, path[0]), h.next, path[1..], keys)
  {
  }

  lemma LeafOrObject(h: Heap, node: nat, k: Key, t: Tree, avoid: set<nat>)
    requires CellDenotes(h, node, t, avoid)
    ensures HasObjectAt(h, node, k) <==> k in t.fields && t.fields[k].Node?
    ensures HasObjectAt(h, node, k) ==> h.cells[node].fields[k].addr !in avoid
  {
    if k in t.fields {
      ChildDenotes(h, node, t, avoid, k);
      DenotesShape(h, h.cells[node].fields[k], t.fields[k], avoid);
    }
  }

  /**
    Stripping on the heap is stripping the tree: of what was there only the node itself, which the caller has
    just allocated, is written, and no value sharing cells with the stripped one is affected.
  */
  lemma {:induction false} StripDenotes(h: Heap, node: nat, path: seq<Key>, keys: set<Key>, t: Tree, others: set<nat>)
    requires WellFormed(h) && node in h.cells && others <= h.cells.Keys
    requires CellDenotes(h, node, t, others + {node})
    ensures CellDenotes(Stripped(h, node, path, keys), node, TreeStrip(t, path, keys), others + {node})
    ensures Keeps(h, Stripped(h, node, path, keys), {node})
    decreases |path|
  {
    hide CellDenotes, Stripped, Stepped, Deleted, HasObjectAt;
    StrippedUnfolds(h, node, path, keys);
    NodeTree(h, node, t, others + {node});
    if path == [] {
      DeleteDenotes(h, node, keys, t, others);
    } else {
      LeafOrObject(h, node, path[0], t, others + {node});
      if HasObjectAt(h, node, path[0]) {
        var step := Stepped(h, node, path[0]);
        StepDenotes(h, node, path[0], t, others);
        SteppedNode(h, node, path[0]);
        StripDenotes(step, h.next, path[1..], keys, t.fields[path[0]], others + {node});
        ParentDenotes(h, Stripped(step, h.next, path[1..], keys), node, path[0], t,
                      TreeStrip(t.fields[path[0]], path[1..], keys), others);
      } else if path[0] in t.fields {
        assert t.fields == t.fields[path[0] := t.fields[path[0]]];
      }
    }
  }

  lemma NodeTree(h: Heap, node: nat, t: Tree, avoid: set<nat>)
    requires CellDenotes(h, node, t, avoid)
    ensures t.Node?
  {
  }

  lemma SteppedNode(h: Heap, node: nat, k: Key)
    requires WellFormed(h) && node in h.cells && HasObjectAt(h, node, k)
    ensures node != h.next && h.next in Stepped(h, node, k).cells && node in Stepped(h, node, k).cells
    ensures h.cells.Keys <= Stepped(h, node, k).cells.Keys
    ensures Stepped(h, node, k).cells[node] == h.cells[node].(fields := h.cells[node].fields[k := Ref(h.next)])
  {
  }

  // ---------------------------------------------------------------------------------------------
  // Pruning, all reported pairs at once
  // ---------------------------------------------------------------------------------------------

  type Pair = (seq<Key>, Key)

  ghost function Pairs(issues: seq<Issue>): set<Pair> {
    if issues == [] then {}
    else
      var last := issues[|issues| - 1];
      Pairs(issues[..|issues| - 1]) +
      if last.UnrecognizedKeys? then PairsAt(last.path, KeySet(last.keys)) else {}
  }

  ghost function PairsAt(path: seq<Key>, keys: set<Key>): set<Pair> {
    set k | k in keys :: (path, k)
  }

  /** The tree without the reported pairs; `here` is the path of `t` in the whole value. */
  ghost function Pruned(t: Tree, pairs: set<Pair>, here: seq<Key>): Tree {
    if t.Leaf? then t
    else t.(fields := map k | k in t.fields && (here, k) !in pairs :: Pruned(t.fields[k], pairs, here + [k]))
  }

  lemma LongerPrefix(here: seq<Key>, k: Key, path: seq<Key>)
    ensures here + [k] <= path ==> here <= path
  {
    if here + [k] <= path {
      assert here == (here + [k])[..|here|] == path[..|here|];
    }
  }

  /** Pairs reported elsewhere do not matter. */
  lemma {:induction false} PrunedElsewhere(t: Tree, pairs: set<Pair>, more: set<Pair>, here: seq<Key>)
    requires forall p | p in more :: !(here <= p.0)
    ensures Pruned(t, pairs + more, here) == Pruned(t, pairs, here)
    decreases t
  {
    if t.Node? {
      forall k | k in t.fields ensures Pruned(t.fields[k], pairs + more, here + [k]) == Pruned(t.fields[k], pairs, here + [k]) {
        forall p | p in more ensures !(here + [k] <= p.0) {
          LongerPrefix(here, k, p.0);
        }
        PrunedElsewhere(t.fields[k], pairs, more, here + [k]);
      }
      assert forall k :: (here, k) !in more by {
        assert here <= here;
      }
    }
  }

  lemma {:induction false} StripPruned(t: Tree, pairs: set<Pair>, here: seq<Key>, path: seq<Key>, keys: set<Key>)
    ensures TreeStrip(Pruned(t, pairs, here), path, keys) == Pruned(t, pairs + PairsAt(here + path, keys), here)
    decreases |path|
  {
    var more := PairsAt(here + path, keys);
    if t.Node? {
      var before := Pruned(t, pairs, here);
      forall k | k in t.fields && (path == [] || k != path[0])
        ensures Pruned(t.fields[k], pairs + more, here + [k]) == Pruned(t.fields[k], pairs, here + [k])
      {
        assert (here + [k])[|here|] == k;
        PrunedElsewhere(t.fields[k], pairs, more, here + [k]);
      }
      if path == [] {
        assert here + path == here;
        assert before.fields - keys == Pruned(t, pairs + more, here).fields;
      } else {
        assert forall k :: (here, k) !in more by { assert |here + path| != |here|; }
        if path[0] in t.fields {
          StripPruned(t.fields[path[0]], pairs, here + [path[0]], path[1..], keys);
          assert here + [path[0]] + path[1..] == here + path;
        }
        assert TreeStrip(before, path, keys).fields == Pruned(t, pairs + more, here).fields;
      }
    }
  }

  lemma {:induction false} PrunedNothing(t: Tree, here: seq<Key>)
    ensures Pruned(t, {}, here) == t
    decreases t
  {
    if t.Node? {
      forall k | k in t.fields ensures Pruned(t.fields[k], {}, here + [k]) == t.fields[k] {
        PrunedNothing(t.fields[k], here + [k]);
      }
      assert Pruned(t, {}, here).fields == t.fields;
    }
  }

  /** Stripping issue after issue is pruning the set of reported pairs: the issues' order does not matter. */
  lemma {:induction false} StripAllIsPruning(t: Tree, issues: seq<Issue>)
    ensures StripAll(t, issues) == Pruned(t, Pairs(issues), [])
    decreases |issues|
  {
    if issues == [] {
      PrunedNothing(t, []);
    } else {
      var front, last := issues[..|issues| - 1], issues[|issues| - 1];
      StripAllIsPruning(t, front);
      if last.UnrecognizedKeys? {
        StripPruned(t, Pairs(front), [], last.path, KeySet(last.keys));
        assert [] + last.path == last.path;
      } else {
        assert Pairs(front) + {} == Pairs(front);
      }
    }
  }

  lemma {:induction false} PairsAreReports(issues: seq<Issue>, p: Pair)
    ensures p in Pairs(issues) <==> exists i | 0 <= i < |issues| :: Reports(issues[i], p)
    decreases |issues|
  {
    if issues != [] {
      var front, last := issues[..|issues| - 1], issues[|issues| - 1];
      PairsAreReports(front, p);
      assert forall i | 0 <= i < |front| :: front[i] == issues[i];
      assert p in Pairs(issues) <==> p in Pairs(front) || Reports(last, p);
    }
  }

  predicate Reports(issue: Issue, p: Pair) {
    issue.UnrecognizedKeys? && p.0 == issue.path && p.1 in issue.keys
  }

  /** Reordering the issues, or reporting a key twice, gives the same stripped tree. */
  lemma OrderDoesNotMatter(t: Tree, one: seq<Issue>, two: seq<Issue>)
    requires forall issue :: issue in one <==> issue in two
    ensures StripAll(t, one) == StripAll(t, two)
  {
    hide Pairs, Pruned, StripAll;
    StripAllIsPruning(t, one);
    StripAllIsPruning(t, two);
    forall p: Pair ensures p in Pairs(one) <==> p in Pairs(two) {
      PairsAreReports(one, p);
      PairsAreReports(two, p);
      assert forall i | 0 <= i < |one| :: one[i] in two;
      assert forall i | 0 <= i < |two| :: two[i] in one;
    }
    assert Pairs(one) == Pairs(two);
  }

  // ---------------------------------------------------------------------------------------------
  // Position by position
  // ---------------------------------------------------------------------------------------------

  function At(t: Tree, path: seq<Key>): Option<Tree>
    decreases |path|
  {
    if path == [] then Some(t)
    else if t.Leaf? || path[0] !in t.fields then None
    else At(t.fields[path[0]], path[1..])
  }

  /** Some key on the way down the path was reported at its object. */
  ghost predicate CutOff(pairs: set<Pair>, here: seq<Key>, path: seq<Key>) {
    exists i | 0 <= i < |path| :: (here + path[..i], path[i]) in pairs
  }

  lemma CutOffUnfolds(pairs: set<Pair>, here: seq<Key>, path: seq<Key>)
    requires path != []
    ensures CutOff(pairs, here, path) <==> (here, path[0]) in pairs || CutOff(pairs, here + [path[0]], path[1..])
  {
    assert here + path[..0] == here;
    if i :| 0 <= i < |path| && (here + path[..i], path[i]) in pairs {
      if i > 0 {
        assert here + [path[0]] + path[1..][..i - 1] == here + path[..i] && path[1..][i - 1] == path[i];
      }
    }
    if (here, path[0]) !in pairs && CutOff(pairs, here + [path[0]], path[1..]) {
      var i :| 0 <= i < |path| - 1 && (here + [path[0]] + path[1..][..i], path[1..][i]) in pairs;
      assert here + [path[0]] + path[1..][..i] == here + path[..i + 1] && path[1..][i] == path[i + 1];
    }
  }

  /**
    Exactly the reported pairs go: a position survives iff it was there and no reported key lies on the way to
    it, and what survives is of the same kind, with the same text when it is a leaf.
  */
  lemma {:induction false} ExactlyTheReported(t: Tree, pairs: set<Pair>, here: seq<Key>, path: seq<Key>)
    ensures At(Pruned(t, pairs, here), path) ==
            if At(t, path).None? || CutOff(pairs, here, path) then None
            else Some(Pruned(At(t, path).value, pairs, here + path))
    decreases |path|
  {
    hide CutOff;
    if path == [] {
      NotCutOffHere(pairs, here);
      assert here + path == here;
    } else {
      CutOffUnfolds(pairs, here, path);
      if t.Node? && path[0] in t.fields {
        ExactlyTheReported(t.fields[path[0]], pairs, here + [path[0]], path[1..]);
        assert here + [path[0]] + path[1..] == here + path;
      }
    }
  }

  lemma NotCutOffHere(pairs: set<Pair>, here: seq<Key>)
    ensures !CutOff(pairs, here, [])
  {
  }

  // ---------------------------------------------------------------------------------------------
  // Trees of strict objects
  // ---------------------------------------------------------------------------------------------

  datatype Field = Field(schema: Schema, optional: bool)

  datatype Schema =
    | Scalar(accepts: string -> bool)
    | Anything
    | Strict(shape: map<Key, Field>)
    | ListOf(item: Schema)

  /** The value satisfies the schema; with `tolerant`, unknown keys are let pass. */
  ghost predicate Satisfies(s: Schema, t: Tree, tolerant: bool)
    decreases t
  {
    match s
    case Scalar(accepts) => t.Leaf? && accepts(t.text)
    case Anything => true
    case Strict(shape) =>
      && t.Node? && t.kind.Object?
      && (forall k | k in shape :: k in t.fields || shape[k].optional)
      && (forall k | k in t.fields && k in shape :: Satisfies(shape[k].schema, t.fields[k], tolerant))
      && (!tolerant ==> t.fields.Keys <= shape.Keys)
    case ListOf(item) =>
      && t.Node? && t.kind.Array?
      && (forall k | k in t.fields :: Satisfies(item, t.fields[k], tolerant))
  }

  /** The key is not known to the strict object that the schema expects at the path. */
  ghost predicate IsUnknown(s: Schema, t: Tree, path: seq<Key>, key: Key)
    decreases |path|
  {
    if t.Leaf? then false
    else if path == [] then s.Strict? && key in t.fields && key !in s.shape
    else
      && path[0] in t.fields
      && match s
         case Strict(shape) => path[0] in shape && IsUnknown(shape[path[0]].schema, t.fields[path[0]], path[1..], key)
         case ListOf(item) => IsUnknown(item, t.fields[path[0]], path[1..], key)
         case Scalar(_) => false
         case Anything => false
  }

  /** A complete report: every unknown key, and nothing else. */
  ghost predicate IsCompleteReport(s: Schema, t: Tree, pairs: set<Pair>, here: seq<Key>) {
    forall path, key :: (here + path, key) in pairs <==> IsUnknown(s, t, path, key)
  }

  /** The value restricted, at every strict object, to the keys its schema knows. */
  ghost function Known(s: Schema, t: Tree): Tree
    decreases t
  {
    if t.Leaf? then t
    else
      match s
      case Strict(shape) => t.(fields := map k | k in t.fields && k in shape :: Known(shape[k].schema, t.fields[k]))
      case ListOf(item) => t.(fields := map k | k in t.fields :: Known(item, t.fields[k]))
      case Scalar(_) => t
      case Anything => t
  }

  lemma ChildReport(s: Schema, t: Tree, pairs: set<Pair>, here: seq<Key>, k: Key)
    requires t.Node? && k in t.fields && IsCompleteReport(s, t, pairs, here)
    requires s.ListOf? || (s.Strict? && k in s.shape)
    ensures IsCompleteReport(if s.ListOf? then s.item else s.shape[k].schema, t.fields[k], pairs, here + [k])
  {
    var child := if s.ListOf? then s.item else s.shape[k].schema;
    forall path, key ensures (here + [k] + path, key) in pairs <==> IsUnknown(child, t.fields[k], path, key) {
      assert here + ([k] + path) == here + [k] + path;
      assert ([k] + path)[0] == k && ([k] + path)[1..] == path;
      assert IsUnknown(s, t, [k] + path, key) <==> IsUnknown(child, t.fields[k], path, key);
    }
  }

  lemma ReportHere(s: Schema, t: Tree, pairs: set<Pair>, here: seq<Key>, k: Key)
    requires IsCompleteReport(s, t, pairs, here) && t.Node? && k in t.fields
    ensures (here, k) in pairs <==> s.Strict? && k !in s.shape
  {
    assert here + [] == here;
    assert IsUnknown(s, t, [], k) <==> s.Strict? && k !in s.shape;
    assert (here + [], k) in pairs <==> IsUnknown(s, t, [], k);
  }

  lemma ReportBelow(s: Schema, t: Tree, pairs: set<Pair>, here: seq<Key>, p: Pair)
    requires IsCompleteReport(s, t, pairs, here) && p in pairs
    ensures here <= p.0 ==> IsUnknown(s, t, p.0[|here|..], p.1)
  {
    if here <= p.0 {
      assert here + p.0[|here|..] == p.0;
    }
  }

  lemma {:induction false} NothingUnknown(s: Schema, t: Tree, pairs: set<Pair>, here: seq<Key>)
    requires IsCompleteReport(s, t, pairs, here) && (s.Scalar? || s.Anything?)
    ensures Pruned(t, pairs, here) == t
  {
    forall p | p in pairs ensures !(here <= p.0) {
      ReportBelow(s, t, pairs, here, p);
    }
    PrunedElsewhere(t, {}, pairs, here);
    assert {} + pairs == pairs;
    PrunedNothing(t, here);
  }

  /** Stripping a complete report leaves exactly the known part of the value. */
  lemma {:induction false} PrunedIsKnown(s: Schema, t: Tree, pairs: set<Pair>, here: seq<Key>)
    requires IsCompleteReport(s, t, pairs, here)
    ensures Pruned(t, pairs, here) == Known(s, t)
    decreases t
  {
    hide IsCompleteReport;
    if s.Scalar? || s.Anything? {
      NothingUnknown(s, t, pairs, here);
    } else if t.Node? {
      forall k | k in t.fields && (s.ListOf? || k in s.shape)
        ensures Pruned(t.fields[k], pairs, here + [k]) ==
                Known(if s.ListOf? then s.item else s.shape[k].schema, t.fields[k])
      {
        ChildReport(s, t, pairs, here, k);
        PrunedIsKnown(if s.ListOf? then s.item else s.shape[k].schema, t.fields[k], pairs, here + [k]);
      }
      forall k | k in t.fields ensures (here, k) in pairs <==> s.Strict? && k !in s.shape {
        ReportHere(s, t, pairs, here, k);
      }
      assert Pruned(t, pairs, here).fields == Known(s, t).fields;
    }
  }

  lemma {:induction false} KnownSatisfies(s: Schema, t: Tree)
    requires Satisfies(s, t, true)
    ensures Satisfies(s, Known(s, t), false)
    decreases t
  {
    if t.Node? && (s.Strict? || s.ListOf?) {
      forall k | k in t.fields && (s.ListOf? || k in s.shape)
        ensures Satisfies(if s.ListOf? then s.item else s.shape[k].schema, Known(s, t).fields[k], false)
      {
        KnownSatisfies(if s.ListOf? then s.item else s.shape[k].schema, t.fields[k]);
      }
    }
  }

  /**
    For a tree of strict objects that is right but for its unknown keys, and whose report is complete, the
    second parse succeeds, on the known part of the value; whatever the nesting.
  */
  lemma ReparseSucceeds(s: Schema, t: Tree, issues: seq<Issue>)
    requires Satisfies(s, t, true) && IsCompleteReport(s, t, Pairs(issues), [])
    ensures Satisfies(s, Pruned(t, Pairs(issues), []), false)
    ensures Pruned(t, Pairs(issues), []) == Known(s, t)
  {
    hide Satisfies, IsCompleteReport;
    PrunedIsKnown(s, t, Pairs(issues), []);
    KnownSatisfies(s, t);
  }

  /** A value without unknown keys is its own known part. */
  lemma {:induction false} KnownOfStrict(s: Schema, t: Tree)
    requires Satisfies(s, t, false)
    ensures Known(s, t) == t && Satisfies(s, t, true)
    decreases t
  {
    if t.Node? && (s.Strict? || s.ListOf?) {
      forall k | k in t.fields
        ensures var child := if s.ListOf? then s.item else s.shape[k].schema;
          Known(child, t.fields[k]) == t.fields[k] && Satisfies(child, t.fields[k], true)
      {
        KnownOfStrict(if s.ListOf? then s.item else s.shape[k].schema, t.fields[k]);
      }
      assert Known(s, t).fields == t.fields;
    }
  }

  /**
    A parser of the schema: it accepts exactly what satisfies it, and what it rejects has unknown keys for its
    only issues exactly when it would satisfy the schema without them, which it then reports completely.
  */
  ghost predicate IsParserOf<T(!new)>(schema: Tree -> Parsed<T>, s: Schema) {
    && (forall t :: schema(t).Ok? <==> Satisfies(s, t, false))
    && (forall t | schema(t).Err? :: AllUnknown(schema(t).error) <==> Satisfies(s, t, true))
    && (forall t | schema(t).Err? && Satisfies(s, t, true) :: IsCompleteReport(s, t, Pairs(schema(t).error), []))
  }

  /**
    The seam as a whole, for every parser of every such schema: it succeeds exactly on the values that are right
    but for unknown keys, with what the parser makes of their known part; on all others it fails as the parser does.
  */
  lemma TolerantParses<T(!new)>(schema: Tree -> Parsed<T>, s: Schema, t: Tree)
    requires IsParserOf(schema, s)
    ensures Tolerant(schema, t).Ok? <==> Satisfies(s, t, true)
    ensures Tolerant(schema, t) == schema(if Satisfies(s, t, true) then Known(s, t) else t)
  {
    hide Satisfies, IsCompleteReport, Known, Pairs, Pruned, AllUnknown;
    if schema(t).Ok? {
      KnownOfStrict(s, t);
    } else if Satisfies(s, t, true) {
      ReparseSucceeds(s, t, schema(t).error);
    }
  }
}
