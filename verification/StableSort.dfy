/** `Array.prototype.sort` with a comparison function: stable, as ECMAScript requires. */
module StableSort {

  type Less<!T> = (T, T) -> bool

  /** What a comparison must satisfy for sorting to mean anything: a strict weak order. */
  ghost predicate IsOrder<T(!new)>(less: Less<T>) {
    && (forall a, b :: less(a, b) ==> !less(b, a))
    && (forall a, b, c :: !less(b, a) && !less(c, b) ==> !less(c, a))
  }

  ghost predicate Sorted<T>(s: seq<T>, less: Less<T>) {
    forall i, j | 0 <= i < j < |s| :: !less(s[j], s[i])
  }

  /** Puts `x` behind everything that it is not less than, looking from the end. */
  function Insert<T>(x: T, s: seq<T>, less: Less<T>): (r: seq<T>)
    ensures |r| == |s| + 1
    ensures multiset(r) == multiset(s) + multiset{x}
  {
    if s != [] && less(x, s[|s| - 1]) then
      assert s == s[..|s| - 1] + [s[|s| - 1]];
      Insert(x, s[..|s| - 1], less) + [s[|s| - 1]]
    else s + [x]
  }

  function Sort<T>(s: seq<T>, less: Less<T>): (r: seq<T>)
    ensures |r| == |s|
    ensures multiset(r) == multiset(s)
  {
    if s == [] then []
    else
      assert s == s[..|s| - 1] + [s[|s| - 1]];
      Insert(s[|s| - 1], Sort(s[..|s| - 1], less), less)
  }

  lemma LastIsGreatest<T>(s: seq<T>, less: Less<T>, x: T)
    requires Sorted(s, less) && x in s
    ensures s[|s| - 1] == x || !less(s[|s| - 1], x)
  {
  }

  lemma {:induction false} InsertKeepsSorted<T(!new)>(x: T, s: seq<T>, less: Less<T>)
    requires IsOrder(less) && Sorted(s, less)
    ensures Sorted(Insert(x, s, less), less)
    decreases |s|
  {
    if s != [] && less(x, s[|s| - 1]) {
      var front, last := s[..|s| - 1], s[|s| - 1];
      InsertKeepsSorted(x, front, less);
      var r := Insert(x, front, less);
      forall i | 0 <= i < |r| ensures !less(last, r[i]) {
        assert r[i] in multiset(r);
        assert r[i] == x || r[i] in front;
        LastIsGreatest(s, less, if r[i] == x then last else r[i]);
      }
    } else {
      forall i | 0 <= i < |s| ensures !less(x, s[i]) {
        assert i < |s| - 1 ==> !less(s[|s| - 1], s[i]);
      }
    }
  }

  lemma {:induction false} SortSorts<T(!new)>(s: seq<T>, less: Less<T>)
    requires IsOrder(less)
    ensures Sorted(Sort(s, less), less)
    decreases |s|
  {
    if s != [] {
      SortSorts(s[..|s| - 1], less);
      InsertKeepsSorted(s[|s| - 1], Sort(s[..|s| - 1], less), less);
    }
  }

  function Filter<T>(s: seq<T>, keep: T -> bool): seq<T> {
    if s == [] then []
    else Filter(s[..|s| - 1], keep) + if keep(s[|s| - 1]) then [s[|s| - 1]] else []
  }

  /** Elements among which none is less than another. */
  ghost predicate Tied<T(!new)>(keep: T -> bool, less: Less<T>) {
    forall a, b | keep(a) && keep(b) :: !less(a, b)
  }

  lemma FilterOneMore<T>(s: seq<T>, x: T, keep: T -> bool)
    ensures Filter(s + [x], keep) == Filter(s, keep) + if keep(x) then [x] else []
  {
    assert (s + [x])[..|s|] == s;
  }

  lemma {:induction false} InsertIsStable<T(!new)>(x: T, s: seq<T>, less: Less<T>, keep: T -> bool)
    requires Tied(keep, less)
    ensures Filter(Insert(x, s, less), keep) == Filter(s, keep) + if keep(x) then [x] else []
    decreases |s|
  {
    if s != [] && less(x, s[|s| - 1]) {
      var front, last := s[..|s| - 1], s[|s| - 1];
      InsertIsStable(x, front, less, keep);
      FilterOneMore(Insert(x, front, less), last, keep);
      assert !(keep(x) && keep(last));
    } else {
      FilterOneMore(s, x, keep);
    }
  }

  /** Tied elements keep their order. */
  lemma {:induction false} SortIsStable<T(!new)>(s: seq<T>, less: Less<T>, keep: T -> bool)
    requires Tied(keep, less)
    ensures Filter(Sort(s, less), keep) == Filter(s, keep)
    decreases |s|
  {
    if s != [] {
      SortIsStable(s[..|s| - 1], less, keep);
      InsertIsStable(s[|s| - 1], Sort(s[..|s| - 1], less), less, keep);
    }
  }

  lemma SameElements<T>(s: seq<T>, less: Less<T>, x: T)
    ensures x in Sort(s, less) <==> x in s
  {
    assert x in Sort(s, less) <==> x in multiset(Sort(s, less));
    assert x in s <==> x in multiset(s);
  }

  /** Some `x` stands before some `y`. */
  ghost predicate Before<T>(s: seq<T>, x: T, y: T) {
    exists i, j :: 0 <= i < j < |s| && s[i] == x && s[j] == y
  }

  lemma {:induction false} FilterKeepsOrder<T>(s: seq<T>, keep: T -> bool, x: T, y: T)
    requires keep(x) && keep(y)
    ensures x in Filter(s, keep) <==> x in s
    ensures Before(Filter(s, keep), x, y) <==> Before(s, x, y)
    decreases |s|
  {
    if s != [] {
      var front, last := s[..|s| - 1], s[|s| - 1];
      FilterKeepsOrder(front, keep, x, y);
      BeforeLast(front, last, x, y);
      assert s == front + [last];
      BeforeLast(Filter(front, keep), last, x, y);
      assert Filter(front, keep) + [] == Filter(front, keep);
    }
  }

  lemma BeforeLast<T>(s: seq<T>, last: T, x: T, y: T)
    ensures Before(s + [last], x, y) <==> Before(s, x, y) || (x in s && last == y)
  {
    var all := s + [last];
    if Before(s, x, y) {
      var i, j :| 0 <= i < j < |s| && s[i] == x && s[j] == y;
      assert all[i] == x && all[j] == y;
    }
    if x in s && last == y {
      var i :| 0 <= i < |s| && s[i] == x;
      assert all[i] == x && all[|s|] == y;
    }
    if Before(all, x, y) {
      var i, j :| 0 <= i < j < |all| && all[i] == x && all[j] == y;
      assert s[i] == x;
    }
  }

  /** Two tied elements stand after sorting as they stood before it. */
  lemma TiedKeepOrder<T(!new)>(s: seq<T>, less: Less<T>, x: T, y: T)
    requires IsOrder(less) && !less(x, y) && !less(y, x)
    ensures Before(Sort(s, less), x, y) <==> Before(s, x, y)
  {
    var keep: T -> bool := z => !less(z, x) && !less(x, z);
    SortIsStable(s, less, keep);
    FilterKeepsOrder(s, keep, x, y);
    FilterKeepsOrder(Sort(s, less), keep, x, y);
  }

  /** The lesser of two elements comes first. */
  lemma LesserFirst<T(!new)>(s: seq<T>, less: Less<T>, x: T, y: T)
    requires IsOrder(less) && less(x, y) && x in s && y in s
    ensures Before(Sort(s, less), x, y) && !Before(Sort(s, less), y, x)
  {
    SortSorts(s, less);
    SameElements(s, less, x);
    SameElements(s, less, y);
    var r := Sort(s, less);
    var i :| 0 <= i < |r| && r[i] == x;
    var j :| 0 <= j < |r| && r[j] == y;
    assert !less(y, x);
    assert i != j;
  }

  /** No two elements have the same key. */
  ghost predicate DistinctBy<T, K>(s: seq<T>, key: T -> K) {
    forall i, j | 0 <= i < j < |s| :: key(s[i]) != key(s[j])
  }

  /** Rearranging keeps keys distinct. */
  lemma RearrangedIsDistinct<T, K>(s: seq<T>, r: seq<T>, key: T -> K)
    requires multiset(s) == multiset(r) && DistinctBy(s, key)
    ensures DistinctBy(r, key)
  {
    forall i, j | 0 <= i < j < |r| ensures key(r[i]) != key(r[j]) {
      assert r[i] in multiset(s) && r[j] in multiset(s);
      var p :| 0 <= p < |s| && s[p] == r[i];
      var q :| 0 <= q < |s| && s[q] == r[j];
      OnceInMultiset(s, key, p);
      if p == q {
        TwiceInMultiset(r, i, j);
      }
    }
  }

  lemma TwiceInMultiset<T>(r: seq<T>, i: nat, j: nat)
    requires i < j < |r| && r[i] == r[j]
    ensures multiset(r)[r[i]] >= 2
  {
    assert r == r[..i] + [r[i]] + r[i + 1..j] + [r[j]] + r[j + 1..];
  }

  lemma OnceInMultiset<T, K>(s: seq<T>, key: T -> K, p: nat)
    requires p < |s| && DistinctBy(s, key)
    ensures multiset(s)[s[p]] == 1
  {
    assert s == s[..p] + [s[p]] + s[p + 1..];
    assert s[p] !in s[..p] && s[p] !in s[p + 1..];
  }

  lemma MultisetOfFront<T>(s: seq<T>)
    requires s != []
    ensures multiset(s[..|s| - 1]) == multiset(s) - multiset{s[|s| - 1]}
  {
    assert s == s[..|s| - 1] + [s[|s| - 1]];
  }

  lemma FrontIsSorted<T>(s: seq<T>, less: Less<T>)
    requires Sorted(s, less) && s != []
    ensures Sorted(s[..|s| - 1], less)
  {
  }

  /** Only equal elements tie. */
  ghost predicate IsTotal<T(!new)>(less: Less<T>) {
    forall x, y | !less(x, y) && !less(y, x) :: x == y
  }

  lemma TiedAreEqual<T(!new)>(less: Less<T>, x: T, y: T)
    requires IsTotal(less)
    ensures !less(x, y) && !less(y, x) ==> x == y
  {
  }

  /** When only equal elements tie, there is one way to sort: the order of the input does not matter. */
  lemma {:induction false} SortedIsUnique<T(!new)>(s: seq<T>, r: seq<T>, less: Less<T>)
    requires Sorted(s, less) && Sorted(r, less) && multiset(s) == multiset(r)
    requires IsTotal(less)
    ensures s == r
    decreases |s|
  {
    hide Sorted, IsTotal;
    assert |multiset(s)| == |s| && |multiset(r)| == |r|;
    if s != [] {
      var x, y := s[|s| - 1], r[|r| - 1];
      assert x in multiset(r) && y in multiset(s);
      LastIsGreatest(s, less, y);
      LastIsGreatest(r, less, x);
      TiedAreEqual(less, x, y);
      MultisetOfFront(s);
      MultisetOfFront(r);
      FrontIsSorted(s, less);
      FrontIsSorted(r, less);
      SortedIsUnique(s[..|s| - 1], r[..|r| - 1], less);
      assert s == s[..|s| - 1] + [x] && r == r[..|r| - 1] + [y];
    }
  }
}
