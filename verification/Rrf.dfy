/** Reciprocal rank fusion of ranked lists (src/rag/rrf.ts), with scores as exact rationals. */
module Rrf {
  import opened StableSort

  const RRF_K := 60

  datatype Lesson = Lesson(id: string, body: string)

  /** A lesson at its rank in one list, counted from 0. */
  datatype Hit = Hit(lesson: Lesson, rank: nat)

  datatype Fused = Fused(lesson: Lesson, score: real)

  function Inc(rank: nat): (r: real)
    ensures r > 0.0
  {
    1.0 / (RRF_K + rank + 1) as real
  }

  lemma IncDecreases(i: nat, j: nat)
    requires i < j
    ensures Inc(i) > Inc(j)
  {
    var x, y := (RRF_K + i + 1) as real, (RRF_K + j + 1) as real;
    assert x < y && 1.0 / x * x == 1.0 && 1.0 / y * y == 1.0;
    if Inc(i) <= Inc(j) {
      Products(Inc(i), Inc(j), x, y);
    }
  }

  lemma Products(a: real, b: real, x: real, y: real)
    requires 0.0 < a <= b && 0.0 < x < y
    ensures a * x < b * y
  {
    assert a * x < a * y;
    assert a * y <= b * y;
  }

  // ---------------------------------------------------------------------------------------------
  // What the accumulation computes
  // ---------------------------------------------------------------------------------------------

  function Ranked(list: seq<Lesson>): (r: seq<Hit>)
    ensures |r| == |list|
  {
    seq(|list|, i requires 0 <= i < |list| => Hit(list[i], i))
  }

  /** All hits in the order in which they are visited. */
  function Hits(lists: seq<seq<Lesson>>): seq<Hit> {
    if lists == [] then [] else Hits(lists[..|lists| - 1]) + Ranked(lists[|lists| - 1])
  }

  /** Sum of 1/(60 + rank) over the id's occurrences. */
  function Score(hits: seq<Hit>, id: string): real {
    if hits == [] then 0.0
    else
      var last := hits[|hits| - 1];
      Score(hits[..|hits| - 1], id) + if last.lesson.id == id then Inc(last.rank) else 0.0
  }

  /** The ids in the order in which they are first seen. */
  function Order(hits: seq<Hit>): seq<string> {
    if hits == [] then []
    else
      var front, id := Order(hits[..|hits| - 1]), hits[|hits| - 1].lesson.id;
      if id in front then front else front + [id]
  }

  lemma {:induction false} OrderListsEachOnce(hits: seq<Hit>)
    ensures forall i, j | 0 <= i < j < |Order(hits)| :: Order(hits)[i] != Order(hits)[j]
    ensures forall id :: id in Order(hits) <==> exists k | 0 <= k < |hits| :: hits[k].lesson.id == id
    decreases |hits|
  {
    if hits != [] {
      var front, last := hits[..|hits| - 1], hits[|hits| - 1];
      OrderListsEachOnce(front);
      forall id ensures id in Order(hits) <==> exists k | 0 <= k < |hits| :: hits[k].lesson.id == id {
        if k :| 0 <= k < |front| && front[k].lesson.id == id {
          assert hits[k].lesson.id == id;
        }
        assert id == last.lesson.id ==> hits[|hits| - 1].lesson.id == id;
        if k :| 0 <= k < |hits| && hits[k].lesson.id == id {
          assert k < |front| ==> front[k].lesson.id == id;
        }
      }
    }
  }

  /** The first lesson seen under an id. */
  function FirstSeen(hits: seq<Hit>, id: string): (l: Lesson)
    requires id in Order(hits)
    ensures l.id == id
  {
    if id in Order(hits[..|hits| - 1]) then FirstSeen(hits[..|hits| - 1], id) else hits[|hits| - 1].lesson
  }

  function EntryOf(hits: seq<Hit>, id: string): Fused
    requires id in Order(hits)
  {
    Fused(FirstSeen(hits, id), Score(hits, id))
  }

  function Entries(hits: seq<Hit>): (r: seq<Fused>)
    ensures |r| == |Order(hits)|
  {
    seq(|Order(hits)|, i requires 0 <= i < |Order(hits)| => EntryOf(hits, Order(hits)[i]))
  }

  predicate Ahead(a: Fused, b: Fused) {
    b.score < a.score
  }

  lemma AheadIsOrder()
    ensures IsOrder(Ahead)
  {
  }

  /** The whole fused ranking, before it is cut. */
  function Ranking(lists: seq<seq<Lesson>>): seq<Fused> {
    Sort(Entries(Hits(lists)), Ahead)
  }

  /** `s.slice(0, k)`: a negative `k` counts from the end. */
  function Take<T>(s: seq<T>, k: int): seq<T> {
    if k < 0 then (if |s| + k < 0 then [] else s[..|s| + k])
    else if k < |s| then s[..k]
    else s
  }

  /** Accumulates in a map that remembers insertion order, then sorts and cuts. */
  method RrfFuse(lists: seq<seq<Lesson>>, topK: int) returns (out: seq<Fused>)
    ensures out == Take(Ranking(lists), topK)
  {
    hide Holds, Hits, Order, Score, FirstSeen, Entries, EntryOf, Sort, Take, Inc;
    var order: seq<string>, scores: map<string, Fused> := [], map[];
    HoldsAtFirst();
    assert lists[..0] == [];
    for l := 0 to |lists|
      invariant Holds(order, scores, Hits(lists[..l]))
    {
      var list := lists[l];
      ghost var before := Hits(lists[..l]);
      assert before + Ranked(list)[..0] == before;
      for i := 0 to |list|
        invariant Holds(order, scores, before + Ranked(list)[..i])
      {
        var hit := list[i];
        ghost var done := before + Ranked(list)[..i];
        assert before + Ranked(list)[..i + 1] == done + [Hit(hit, i)];
        HoldsAfter(order, scores, done, Hit(hit, i));
        if hit.id in scores {
          scores := scores[hit.id := scores[hit.id].(score := scores[hit.id].score + Inc(i))];
        } else {
          scores := scores[hit.id := Fused(hit, Inc(i))];
          order := order + [hit.id];
        }
      }
      OneMoreList(lists, l);
    }
    assert lists[..|lists|] == lists;
    HoldsAtLast(order, scores, Hits(lists));
    var entries := seq(|order|, i requires 0 <= i < |order| => scores[order[i]]);
    assert entries == Entries(Hits(lists));
    out := Take(Sort(entries, Ahead), topK);
  }

  lemma OneMoreList(lists: seq<seq<Lesson>>, l: nat)
    requires l < |lists|
    ensures Hits(lists[..l + 1]) == Hits(lists[..l]) + Ranked(lists[l])[..|lists[l]|]
  {
    assert lists[..l + 1][..l] == lists[..l];
    assert Ranked(lists[l])[..|lists[l]|] == Ranked(lists[l]);
  }

  lemma HoldsAtFirst()
    ensures Holds([], map[], Hits([]))
  {
  }

  lemma HoldsAtLast(order: seq<string>, scores: map<string, Fused>, hits: seq<Hit>)
    requires Holds(order, scores, hits)
    ensures |Entries(hits)| == |order|
    ensures forall i | 0 <= i < |order| :: order[i] in scores && scores[order[i]] == Entries(hits)[i]
  {
  }

  ghost predicate Holds(order: seq<string>, scores: map<string, Fused>, hits: seq<Hit>) {
    && order == Order(hits)
    && (forall id :: id in scores <==> id in order)
    && (forall id | id in order :: scores[id] == EntryOf(hits, id))
  }

  lemma {:induction false} Unseen(hits: seq<Hit>, id: string)
    requires id !in Order(hits)
    ensures Score(hits, id) == 0.0
    decreases |hits|
  {
    if hits != [] {
      Unseen(hits[..|hits| - 1], id);
    }
  }

  lemma HoldsAfter(order: seq<string>, scores: map<string, Fused>, hits: seq<Hit>, hit: Hit)
    requires Holds(order, scores, hits)
    ensures hit.lesson.id in scores ==>
      Holds(order, scores[hit.lesson.id := scores[hit.lesson.id].(score := scores[hit.lesson.id].score + Inc(hit.rank))],
            hits + [hit])
    ensures hit.lesson.id !in scores ==>
      Holds(order + [hit.lesson.id], scores[hit.lesson.id := Fused(hit.lesson, Inc(hit.rank))], hits + [hit])
  {
    hide Inc;
    assert (hits + [hit])[..|hits|] == hits;
    if hit.lesson.id !in scores {
      Unseen(hits, hit.lesson.id);
    }
  }

  // ---------------------------------------------------------------------------------------------
  // Scores, list by list
  // ---------------------------------------------------------------------------------------------

  lemma {:induction false} ScoreOfTwo(a: seq<Hit>, b: seq<Hit>, id: string)
    ensures Score(a + b, id) == Score(a, id) + Score(b, id)
    decreases |b|
  {
    if b == [] {
      assert a + b == a;
    } else {
      assert (a + b)[..|a + b| - 1] == a + b[..|b| - 1];
      ScoreOfTwo(a, b[..|b| - 1], id);
    }
  }

  /** What one list adds to an id's score. */
  function ListScore(list: seq<Lesson>, id: string): real {
    Score(Ranked(list), id)
  }

  function SumOver(lists: seq<seq<Lesson>>, id: string): real {
    if lists == [] then 0.0 else SumOver(lists[..|lists| - 1], id) + ListScore(lists[|lists| - 1], id)
  }

  lemma {:induction false} ScoreIsSum(lists: seq<seq<Lesson>>, id: string)
    ensures Score(Hits(lists), id) == SumOver(lists, id)
    decreases |lists|
  {
    if lists != [] {
      ScoreIsSum(lists[..|lists| - 1], id);
      ScoreOfTwo(Hits(lists[..|lists| - 1]), Ranked(lists[|lists| - 1]), id);
    }
  }

  lemma {:induction false} SumWithout(lists: seq<seq<Lesson>>, k: nat, id: string)
    requires k < |lists|
    ensures SumOver(lists, id) == SumOver(lists[..k] + lists[k + 1..], id) + ListScore(lists[k], id)
    decreases |lists|
  {
    var n := |lists| - 1;
    var rest := lists[..k] + lists[k + 1..];
    if k == n {
      assert rest == lists[..n];
    } else {
      SumWithout(lists[..n], k, id);
      assert rest[..n - 1] == lists[..n][..k] + lists[..n][k + 1..];
      assert rest[n - 1] == lists[n] && lists[..n][k] == lists[k];
    }
  }

  /** Scores do not depend on the order of the lists. */
  lemma {:induction false} ListOrderKeepsScores(one: seq<seq<Lesson>>, two: seq<seq<Lesson>>, id: string)
    requires multiset(one) == multiset(two)
    ensures Score(Hits(one), id) == Score(Hits(two), id)
  {
    SameSum(one, two, id);
    ScoreIsSum(one, id);
    ScoreIsSum(two, id);
  }

  lemma {:induction false} SameSum(one: seq<seq<Lesson>>, two: seq<seq<Lesson>>, id: string)
    requires multiset(one) == multiset(two)
    ensures SumOver(one, id) == SumOver(two, id)
    decreases |one|
  {
    hide SumOver;
    if one == [] {
      assert |multiset(one)| == |two|;
    } else {
      var n := |one| - 1;
      var k := WhereLast(one, two);
      SameSum(one[..n], two[..k] + two[k + 1..], id);
      SumWithout(one, n, id);
      assert one[..n] + one[n + 1..] == one[..n];
      SumWithout(two, k, id);
    }
  }

  lemma WhereLast<T>(one: seq<T>, two: seq<T>) returns (k: nat)
    requires multiset(one) == multiset(two) && one != []
    ensures k < |two| && two[k] == one[|one| - 1]
    ensures multiset(one[..|one| - 1]) == multiset(two[..k] + two[k + 1..])
  {
    var n := |one| - 1;
    assert one[n] in multiset(two);
    k :| 0 <= k < |two| && two[k] == one[n];
    assert one == one[..n] + [one[n]];
    assert two == two[..k] + [two[k]] + two[k + 1..];
    assert multiset(two) == multiset(two[..k] + two[k + 1..]) + multiset{two[k]};
    assert multiset(one) == multiset(one[..n]) + multiset{one[n]};
    assert multiset(one[..n]) == multiset(one) - multiset{one[n]};
  }

  predicate Occurs(list: seq<Lesson>, id: string) {
    exists i | 0 <= i < |list| :: list[i].id == id
  }

  predicate AtMostOnce(list: seq<Lesson>) {
    forall i, j | 0 <= i < j < |list| :: list[i].id != list[j].id
  }

  /** In this list `a` stands before `b`, or `b` does not stand in it. */
  predicate Leads(list: seq<Lesson>, a: string, b: string) {
    forall j | 0 <= j < |list| && list[j].id == b :: exists i | 0 <= i < j :: list[i].id == a
  }

  lemma {:induction false} OnceScore(list: seq<Lesson>, id: string, k: nat)
    requires AtMostOnce(list) && k <= |list|
    ensures Score(Ranked(list)[..k], id) >= 0.0
    ensures (forall i | 0 <= i < k :: list[i].id != id) ==> Score(Ranked(list)[..k], id) == 0.0
    ensures forall i | 0 <= i < k && list[i].id == id :: Score(Ranked(list)[..k], id) == Inc(i)
    decreases k
  {
    hide Inc;
    if k > 0 {
      OnceScore(list, id, k - 1);
      assert Ranked(list)[..k][..k - 1] == Ranked(list)[..k - 1];
    }
  }

  lemma ListScoreIs(list: seq<Lesson>, id: string)
    requires AtMostOnce(list)
    ensures ListScore(list, id) >= 0.0
    ensures !Occurs(list, id) ==> ListScore(list, id) == 0.0
    ensures forall i | 0 <= i < |list| && list[i].id == id :: ListScore(list, id) == Inc(i)
  {
    OnceScore(list, id, |list|);
    assert Ranked(list)[..|list|] == Ranked(list);
  }

  lemma LeaderScoresMore(list: seq<Lesson>, a: string, b: string)
    requires AtMostOnce(list) && Leads(list, a, b)
    ensures ListScore(list, a) >= ListScore(list, b)
    ensures Occurs(list, b) ==> ListScore(list, a) > ListScore(list, b)
  {
    hide ListScore, Inc;
    ListScoreIs(list, a);
    ListScoreIs(list, b);
    if j :| 0 <= j < |list| && list[j].id == b {
      var i :| 0 <= i < j && list[i].id == a;
      IncDecreases(i, j);
    }
  }

  /** An id ahead of another in every list that holds the other scores more, once some list holds the other. */
  lemma {:induction false} Dominance(lists: seq<seq<Lesson>>, a: string, b: string)
    requires forall l | 0 <= l < |lists| :: AtMostOnce(lists[l]) && Leads(lists[l], a, b)
    ensures SumOver(lists, a) >= SumOver(lists, b)
    ensures (exists l | 0 <= l < |lists| :: Occurs(lists[l], b)) ==> SumOver(lists, a) > SumOver(lists, b)
    decreases |lists|
  {
    hide ListScore, AtMostOnce, Leads, Occurs;
    if lists != [] {
      var n := |lists| - 1;
      Dominance(lists[..n], a, b);
      LeaderScoresMore(lists[n], a, b);
      if l :| 0 <= l < |lists| && Occurs(lists[l], b) {
        assert l < n ==> lists[..n][l] == lists[l];
      }
    }
  }

  // ---------------------------------------------------------------------------------------------
  // The ranking
  // ---------------------------------------------------------------------------------------------

  predicate IsSeen(lists: seq<seq<Lesson>>, id: string) {
    exists l | 0 <= l < |lists| :: Occurs(lists[l], id)
  }

  lemma {:induction false} SeenIsInOrder(lists: seq<seq<Lesson>>, id: string)
    ensures id in Order(Hits(lists)) <==> IsSeen(lists, id)
    decreases |lists|
  {
    hide Order, Occurs;
    if lists == [] {
      OrderListsEachOnce([]);
    } else {
      var n := |lists| - 1;
      SeenIsInOrder(lists[..n], id);
      OrderListsEachOnce(Hits(lists));
      OrderListsEachOnce(Hits(lists[..n]));
      InOneOfTwo(Hits(lists[..n]), Ranked(lists[n]), id);
      RankedOccurs(lists[n], id);
      if l :| 0 <= l < |lists| && Occurs(lists[l], id) {
        assert l < n ==> lists[..n][l] == lists[l];
      }
      if l :| 0 <= l < n && Occurs(lists[..n][l], id) {
        assert lists[l] == lists[..n][l];
      }
    }
  }

  predicate HoldsId(hits: seq<Hit>, id: string) {
    exists k | 0 <= k < |hits| :: hits[k].lesson.id == id
  }

  lemma InOneOfTwo(a: seq<Hit>, b: seq<Hit>, id: string)
    ensures HoldsId(a + b, id) <==> HoldsId(a, id) || HoldsId(b, id)
  {
    if k :| 0 <= k < |a| && a[k].lesson.id == id {
      assert (a + b)[k].lesson.id == id;
    }
    if k :| 0 <= k < |b| && b[k].lesson.id == id {
      assert (a + b)[|a| + k].lesson.id == id;
    }
  }

  lemma RankedOccurs(list: seq<Lesson>, id: string)
    ensures HoldsId(Ranked(list), id) <==> Occurs(list, id)
  {
    if i :| 0 <= i < |list| && list[i].id == id {
      assert Ranked(list)[i].lesson.id == id;
    }
  }

  /**
    The ranking holds each id that was seen exactly once, under the sum over all its occurrences, with
    scores never increasing.
  */
  lemma RankingIsFusion(lists: seq<seq<Lesson>>)
    ensures var r := Ranking(lists);
      && |r| == |Order(Hits(lists))|
      && (forall i, j | 0 <= i < j < |r| :: r[i].score >= r[j].score && r[i].lesson.id != r[j].lesson.id)
      && (forall i | 0 <= i < |r| :: r[i].score == SumOver(lists, r[i].lesson.id) && IsSeen(lists, r[i].lesson.id))
    ensures forall id | IsSeen(lists, id) :: exists i | 0 <= i < |Ranking(lists)| :: Ranking(lists)[i].lesson.id == id
  {
    hide Order, Score, Sort, SumOver, IsSeen, Hits, FirstSeen;
    var hits, r := Hits(lists), Ranking(lists);
    var entries := Entries(hits);
    AheadIsOrder();
    SortSorts(entries, Ahead);
    forall i | 0 <= i < |r| ensures r[i].score == SumOver(lists, r[i].lesson.id) && IsSeen(lists, r[i].lesson.id) {
      SameElements(entries, Ahead, r[i]);
      assert r[i] in entries;
      ScoreIsSum(lists, r[i].lesson.id);
      SeenIsInOrder(lists, r[i].lesson.id);
    }
    SortedIsDistinct(hits);
    forall i, j | 0 <= i < j < |r| ensures r[i].score >= r[j].score {
      assert !Ahead(r[j], r[i]);
    }
    forall id | IsSeen(lists, id) ensures exists i | 0 <= i < |r| :: r[i].lesson.id == id {
      SeenIsInOrder(lists, id);
      var k :| 0 <= k < |Order(hits)| && Order(hits)[k] == id;
      SameElements(entries, Ahead, entries[k]);
      assert entries[k] in r;
    }
  }

  lemma SortedIsDistinct(hits: seq<Hit>)
    ensures forall i, j | 0 <= i < j < |Entries(hits)| ::
      Sort(Entries(hits), Ahead)[i].lesson.id != Sort(Entries(hits), Ahead)[j].lesson.id
  {
    hide Order, Score, Sort, FirstSeen;
    var entries := Entries(hits);
    var r := Sort(entries, Ahead);
    OrderListsEachOnce(hits);
    assert forall i, j | 0 <= i < j < |entries| :: entries[i].lesson.id != entries[j].lesson.id;
    RearrangedIsDistinct(entries, r, (f: Fused) => f.lesson.id);
  }

  /** `a` is ranked before `b`. */
  ghost predicate RankedBefore(lists: seq<seq<Lesson>>, a: string, b: string) {
    exists i, j :: 0 <= i < j < |Ranking(lists)| && Ranking(lists)[i].lesson.id == a && Ranking(lists)[j].lesson.id == b
  }

  ghost predicate SeenBefore(lists: seq<seq<Lesson>>, a: string, b: string) {
    Before(Order(Hits(lists)), a, b)
  }

  /** Higher scores come first, and between equal scores the id that was seen first. */
  lemma RankedByScoreThenSight(lists: seq<seq<Lesson>>, a: string, b: string)
    requires IsSeen(lists, a) && IsSeen(lists, b) && a != b
    ensures RankedBefore(lists, a, b) <==>
      SumOver(lists, a) > SumOver(lists, b) || (SumOver(lists, a) == SumOver(lists, b) && SeenBefore(lists, a, b))
  {
    hide Order, Score, Sort, SumOver, IsSeen, Hits, FirstSeen, Entries;
    SeenIsInOrder(lists, a);
    SeenIsInOrder(lists, b);
    ScoreIsSum(lists, a);
    ScoreIsSum(lists, b);
    var hits := Hits(lists);
    var x, y := EntryOf(hits, a), EntryOf(hits, b);
    EntriesInOrder(hits, a, b);
    RankingOfEntries(lists, a, b);
    AheadIsOrder();
    if x.score > y.score {
      LesserFirst(Entries(hits), Ahead, x, y);
    } else if y.score > x.score {
      LesserFirst(Entries(hits), Ahead, y, x);
    } else {
      TiedKeepOrder(Entries(hits), Ahead, x, y);
    }
  }

  lemma EntriesInOrder(hits: seq<Hit>, a: string, b: string)
    requires a in Order(hits) && b in Order(hits)
    ensures EntryOf(hits, a) in Entries(hits) && EntryOf(hits, b) in Entries(hits)
    ensures Before(Entries(hits), EntryOf(hits, a), EntryOf(hits, b)) <==> Before(Order(hits), a, b)
  {
    hide Order, Score, FirstSeen;
    var order, entries := Order(hits), Entries(hits);
    var p :| 0 <= p < |order| && order[p] == a;
    var q :| 0 <= q < |order| && order[q] == b;
    assert entries[p] == EntryOf(hits, a) && entries[q] == EntryOf(hits, b);
    assert forall i | 0 <= i < |order| :: entries[i].lesson.id == order[i];
    if i, j :| 0 <= i < j < |entries| && entries[i] == EntryOf(hits, a) && entries[j] == EntryOf(hits, b) {
      assert order[i] == a && order[j] == b;
    }
    if i, j :| 0 <= i < j < |order| && order[i] == a && order[j] == b {
      assert entries[i] == EntryOf(hits, a) && entries[j] == EntryOf(hits, b);
    }
  }

  lemma RankingOfEntries(lists: seq<seq<Lesson>>, a: string, b: string)
    requires a in Order(Hits(lists)) && b in Order(Hits(lists))
    ensures RankedBefore(lists, a, b) <==>
      Before(Ranking(lists), EntryOf(Hits(lists), a), EntryOf(Hits(lists), b))
  {
    hide Order, Score, Sort, Hits, FirstSeen;
    var hits, r := Hits(lists), Ranking(lists);
    forall i | 0 <= i < |r| ensures r[i].lesson.id in Order(hits) && r[i] == EntryOf(hits, r[i].lesson.id) {
      SameElements(Entries(hits), Ahead, r[i]);
      assert r[i] in Entries(hits);
    }
  }

  /** The output is the best `topK` of the seen ids, and asking for one more only appends. */
  lemma TopKIsPrefix(lists: seq<seq<Lesson>>, k: nat)
    ensures |Take(Ranking(lists), k)| == if k < |Order(Hits(lists))| then k else |Order(Hits(lists))|
    ensures Take(Ranking(lists), k) <= Take(Ranking(lists), k + 1)
  {
    hide Hits, Order, Sort, Entries;
    assert |Ranking(lists)| == |Entries(Hits(lists))|;
  }

  /** Monotonicity of the fused order: unanimous precedence is kept. */
  lemma UnanimityIsKept(lists: seq<seq<Lesson>>, a: string, b: string)
    requires forall l | 0 <= l < |lists| :: AtMostOnce(lists[l]) && Leads(lists[l], a, b)
    requires IsSeen(lists, b)
    ensures RankedBefore(lists, a, b)
  {
    hide AtMostOnce, SumOver, RankedBefore;
    var l :| 0 <= l < |lists| && Occurs(lists[l], b);
    var j :| 0 <= j < |lists[l]| && lists[l][j].id == b;
    assert Leads(lists[l], a, b);
    var i :| 0 <= i < j && lists[l][i].id == a;
    assert Occurs(lists[l], a) && IsSeen(lists, a);
    Dominance(lists, a, b);
    RankedByScoreThenSight(lists, a, b);
  }

  function ToFront(lists: seq<seq<Lesson>>, k: nat): (r: seq<seq<Lesson>>)
    requires k < |lists|
    ensures multiset(r) == multiset(lists)
  {
    assert lists == lists[..k] + [lists[k]] + lists[k + 1..];
    [lists[k]] + lists[..k] + lists[k + 1..]
  }

  lemma {:induction false} OrderGrows(a: seq<Hit>, b: seq<Hit>)
    ensures Order(a) <= Order(a + b)
    decreases |b|
  {
    if b == [] {
      assert a + b == a;
    } else {
      assert (a + b)[..|a + b| - 1] == a + b[..|b| - 1];
      OrderGrows(a, b[..|b| - 1]);
    }
  }

  lemma {:induction false} HitsOfTwo(a: seq<seq<Lesson>>, b: seq<seq<Lesson>>)
    ensures Hits(a + b) == Hits(a) + Hits(b)
    decreases |b|
  {
    if b == [] {
      assert a + b == a;
    } else {
      assert (a + b)[..|a + b| - 1] == a + b[..|b| - 1];
      HitsOfTwo(a, b[..|b| - 1]);
    }
  }

  /** An id that stands in a prefix of the hits from which another is missing is seen before the other. */
  lemma SeenFirst(hits: seq<Hit>, n: nat, a: string, b: string)
    requires n <= |hits| && a in Order(hits[..n]) && b !in Order(hits[..n]) && b in Order(hits)
    ensures Before(Order(hits), a, b)
  {
    hide Order;
    assert hits == hits[..n] + hits[n..];
    OrderGrows(hits[..n], hits[n..]);
    var i :| 0 <= i < |Order(hits[..n])| && Order(hits[..n])[i] == a;
    var j :| 0 <= j < |Order(hits)| && Order(hits)[j] == b;
    assert Order(hits)[i] == a;
    assert forall x | 0 <= x < |Order(hits[..n])| :: Order(hits)[x] == Order(hits[..n])[x];
  }

  /** With a list at the front in which `b` does not lead `a`, `a` is seen first. */
  lemma FrontListDecides(lists: seq<seq<Lesson>>, k: nat, a: string, b: string)
    requires k < |lists| && !Leads(lists[k], b, a) && IsSeen(lists, b) && a != b
    ensures SeenBefore(ToFront(lists, k), a, b)
  {
    hide Order, Hits, IsSeen, ToFront;
    var list, moved := lists[k], ToFront(lists, k);
    var i :| 0 <= i < |list| && list[i].id == a && !exists h | 0 <= h < i :: list[h].id == b;
    FrontHits(lists, k);
    var hits := Hits(moved);
    var front := hits[..i + 1];
    assert forall h | 0 <= h <= i :: front[h].lesson.id == list[h].id;
    OrderListsEachOnce(front);
    SeenAnyway(lists, moved, b);
    SeenIsInOrder(moved, b);
    SeenFirst(hits, i + 1, a, b);
  }

  lemma FrontHits(lists: seq<seq<Lesson>>, k: nat)
    requires k < |lists|
    ensures Ranked(lists[k]) <= Hits(ToFront(lists, k))
  {
    var list, rest := lists[k], lists[..k] + lists[k + 1..];
    assert ToFront(lists, k) == [list] + rest;
    HitsOfTwo([list], rest);
    assert [list][..0] == [];
    assert Hits([list]) == Ranked(list);
  }

  lemma SeenAnyway(one: seq<seq<Lesson>>, two: seq<seq<Lesson>>, id: string)
    requires multiset(one) == multiset(two) && IsSeen(one, id)
    ensures IsSeen(two, id)
  {
    var l :| 0 <= l < |one| && Occurs(one[l], id);
    assert one[l] in multiset(two);
    var m :| 0 <= m < |two| && two[m] == one[l];
  }

  /**
    The order of the lists decides between two ids exactly when their scores are equal: then each of them is
    ranked first under some order of the lists, and otherwise the same one is under all.
  */
  lemma {:induction false} ListOrderDecidesTiesOnly(lists: seq<seq<Lesson>>, a: string, b: string)
    requires forall l | 0 <= l < |lists| :: AtMostOnce(lists[l])
    requires IsSeen(lists, a) && IsSeen(lists, b) && a != b
    ensures SumOver(lists, a) == SumOver(lists, b) <==>
      (exists one, two | multiset(one) == multiset(lists) == multiset(two) ::
         RankedBefore(one, a, b) && RankedBefore(two, b, a))
  {
    hide AtMostOnce, SumOver, RankedBefore, IsSeen, Leads, Occurs;
    if SumOver(lists, a) == SumOver(lists, b) {
      var one := SomeOrderPrefers(lists, a, b);
      var two := SomeOrderPrefers(lists, b, a);
    }
    forall one, two | multiset(one) == multiset(lists) == multiset(two) && RankedBefore(one, a, b) && RankedBefore(two, b, a)
      ensures SumOver(lists, a) == SumOver(lists, b)
    {
      ScoreDecides(lists, one, a, b);
      ScoreDecides(lists, two, b, a);
    }
  }

  lemma ScoreDecides(lists: seq<seq<Lesson>>, one: seq<seq<Lesson>>, a: string, b: string)
    requires multiset(one) == multiset(lists) && IsSeen(lists, a) && IsSeen(lists, b) && a != b
    requires RankedBefore(one, a, b)
    ensures SumOver(lists, a) >= SumOver(lists, b)
  {
    hide SumOver, RankedBefore, IsSeen;
    SeenAnyway(lists, one, a);
    SeenAnyway(lists, one, b);
    RankedByScoreThenSight(one, a, b);
    SameSum(one, lists, a);
    SameSum(one, lists, b);
  }

  lemma SomeOrderPrefers(lists: seq<seq<Lesson>>, a: string, b: string) returns (one: seq<seq<Lesson>>)
    requires forall l | 0 <= l < |lists| :: AtMostOnce(lists[l])
    requires IsSeen(lists, a) && IsSeen(lists, b) && a != b && SumOver(lists, a) == SumOver(lists, b)
    ensures multiset(one) == multiset(lists) && RankedBefore(one, a, b)
  {
    hide AtMostOnce, SumOver, RankedBefore, Leads, Occurs;
    if forall l | 0 <= l < |lists| :: Leads(lists[l], b, a) {
      Dominance(lists, b, a);
      assert false;
    }
    var k :| 0 <= k < |lists| && !Leads(lists[k], b, a);
    one := ToFront(lists, k);
    FrontListDecides(lists, k, a, b);
    SeenAnyway(lists, one, a);
    SeenAnyway(lists, one, b);
    SameSum(one, lists, a);
    SameSum(one, lists, b);
    RankedByScoreThenSight(one, a, b);
  }

  /** Two lists that rank two ids in opposite ways: the one given first decides. */
  lemma SwappedListsSwapATie()
    ensures var x, y := Lesson("a", ""), Lesson("b", "");
      RankedBefore([[x, y], [y, x]], "a", "b") && RankedBefore([[y, x], [x, y]], "b", "a")
  {
    FirstListDecides(Lesson("a", ""), Lesson("b", ""));
    FirstListDecides(Lesson("b", ""), Lesson("a", ""));
  }

  lemma FirstListDecides(x: Lesson, y: Lesson)
    requires x.id != y.id
    ensures RankedBefore([[x, y], [y, x]], x.id, y.id)
  {
    hide RankedBefore, SeenBefore;
    var lists := [[x, y], [y, x]];
    SumOfTwo(x, y, x.id);
    SumOfTwo(x, y, y.id);
    assert lists[0][0] == x && lists[0][1] == y;
    assert Occurs(lists[0], x.id) && Occurs(lists[0], y.id);
    assert !Leads(lists[0], y.id, x.id);
    FrontListDecides(lists, 0, x.id, y.id);
    assert ToFront(lists, 0) == lists;
    RankedByScoreThenSight(lists, x.id, y.id);
  }

  lemma SumOfTwo(x: Lesson, y: Lesson, id: string)
    requires x.id != y.id && id in {x.id, y.id}
    ensures SumOver([[x, y], [y, x]], id) == Inc(0) + Inc(1)
  {
    hide ListScore, Inc;
    var there, back := [x, y], [y, x];
    var lists, none: seq<seq<Lesson>> := [there, back], [];
    ListScoreIs(there, id);
    ListScoreIs(back, id);
    assert there[0] == x && there[1] == y && back[0] == y && back[1] == x;
    assert lists[..1] == [there] && [there][..0] == none;
    assert SumOver(none, id) == 0.0;
    assert SumOver([there], id) == ListScore(there, id);
    assert SumOver(lists, id) == SumOver([there], id) + ListScore(back, id);
    assert Inc(0) + Inc(1) == Inc(1) + Inc(0);
  }
}
