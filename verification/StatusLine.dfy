/** The one-line views of the loop board (src/cli/loop_status.ts): items cut to a width, the rest counted. */
module StatusLine {
  import opened Wrappers
  import Json
  import opened StableSort
  import Text

  const IDLE_LINE := "🦑 loop idle — no items in flight"
  const PREFIX := "🦑 "
  const GAP := "  "
  const MINUTE_MS := 60000

  datatype Lifecycle = Running | Done | OtherState

  datatype Item = Item(
    wgId: string, stage: string, phase: Option<string>, phaseIndex: Option<nat>, phaseTotal: Option<nat>,
    lifecycle: Lifecycle, lastActivityMs: Option<int>, updatedAt: int)

  /** `s.length`: characters beyond the basic plane count twice. */
  function Units(s: string): nat {
    if s == "" then 0 else Units(s[..|s| - 1]) + if s[|s| - 1] as int > 0xFFFF then 2 else 1
  }

  lemma {:induction false} UnitsOfTwo(a: string, b: string)
    ensures Units(a + b) == Units(a) + Units(b)
    decreases |b|
  {
    if b == "" {
      assert a + b == a;
    } else {
      assert (a + b)[..|a + b| - 1] == a + b[..|b| - 1];
      UnitsOfTwo(a, b[..|b| - 1]);
    }
  }

  function FormatRelativeAge(deltaMs: int): string {
    if deltaMs < MINUTE_MS then "just now"
    else
      var m: nat := deltaMs / MINUTE_MS;
      if m < 60 then Json.Decimal(m) + "m ago" else Json.Decimal(m / 60) + "h ago"
  }

  /** The last sign of life. */
  function Activity(item: Item): int {
    if item.lastActivityMs.Some? then item.lastActivityMs.value else item.updatedAt
  }

  function RenderItem(item: Item, now: int): string {
    var counter := if item.phaseIndex.Some? && item.phaseTotal.Some?
                   then " (" + Json.Decimal(item.phaseIndex.value) + "/" + Json.Decimal(item.phaseTotal.value) + ")"
                   else "";
    var mark := match item.lifecycle case Done => " ✓" case Running => " ⟳" case OtherState => "";
    Text.Join([item.wgId, item.stage]
              + (if item.phase.Some? then [item.phase.value + counter + mark] else [])
              + [FormatRelativeAge(now - Activity(item))], " · ")
  }

  function Rendered(items: seq<Item>, now: int): (r: seq<string>)
    ensures |r| == |items|
  {
    seq(|items|, i requires 0 <= i < |items| => RenderItem(items[i], now))
  }

  predicate Fresher(a: Item, b: Item) {
    Activity(b) < Activity(a)
  }

  // ---------------------------------------------------------------------------------------------
  // Cutting to a width
  // ---------------------------------------------------------------------------------------------

  function More(n: nat): string {
    "+" + Json.Decimal(n) + " more"
  }

  /** The line that shows the first `k` chunks and counts the others. */
  function Shown(chunks: seq<string>, k: nat): string
    requires k <= |chunks|
  {
    PREFIX + Text.Join(chunks[..k] + (if k < |chunks| then [More(|chunks| - k)] else []), GAP)
  }

  /**
    How many chunks a line of this width shows: at least one; each further one as long as the line with it,
    and with the count of what is left, fits; and no more only because that is all or the next does not fit.
  */
  predicate IsCut(chunks: seq<string>, width: int, k: nat) {
    && 1 <= k <= |chunks|
    && (forall j | 1 < j <= k :: Units(Shown(chunks, j)) <= width)
    && (k < |chunks| ==> Units(Shown(chunks, k + 1)) > width)
  }

  /** The line is that of the cut. */
  ghost predicate IsFit(chunks: seq<string>, width: int, line: string) {
    exists k: nat :: IsCut(chunks, width, k) && line == Shown(chunks, k)
  }

  method FitLine(chunks: seq<string>, width: int) returns (line: string)
    requires chunks != []
    ensures IsFit(chunks, width, line)
  {
    hide Units, Text.Join, Shown, IsCut, IsFit, More;
    var out: seq<string> := [];
    var used := Units(PREFIX);
    for i := 0 to |chunks|
      invariant out == chunks[..i] && used == (if i == 0 then Units(PREFIX) else Units(PREFIX + Text.Join(out, GAP)))
      invariant forall j | 1 < j <= i :: Units(Shown(chunks, j)) <= width
    {
      var chunk := chunks[i];
      var sep := if |out| > 0 then GAP else "";
      var remaining := |chunks| - i;
      var suffix := if remaining > 1 then GAP + More(remaining - 1) else "";
      var cost := Units(sep) + Units(chunk);
      WidthOfNext(chunks, i);
      if used + cost + Units(suffix) > width && |out| > 0 {
        out := out + [More(remaining)];
        IsCutHere(chunks, width, i);
        return PREFIX + Text.Join(out, GAP);
      }
      out := out + [chunk];
      used := used + cost;
    }
    assert chunks[..|chunks|] == chunks;
    IsCutHere(chunks, width, |chunks|);
    return PREFIX + Text.Join(out, GAP);
  }

  lemma IsCutHere(chunks: seq<string>, width: int, k: nat)
    requires 1 <= k <= |chunks| && (forall j | 1 < j <= k :: Units(Shown(chunks, j)) <= width)
    requires k < |chunks| ==> Units(Shown(chunks, k + 1)) > width
    ensures IsCut(chunks, width, k)
    ensures IsFit(chunks, width,
                  PREFIX + Text.Join(if k < |chunks| then chunks[..k] + [More(|chunks| - k)] else chunks, GAP))
  {
    hide Units, Text.Join, Shown;
    ShownIs(chunks, k);
  }

  lemma ShownIs(chunks: seq<string>, k: nat)
    requires k <= |chunks|
    ensures Shown(chunks, k) ==
            PREFIX + Text.Join(if k < |chunks| then chunks[..k] + [More(|chunks| - k)] else chunks, GAP)
  {
    hide Text.Join;
    assert chunks[..|chunks|] + [] == chunks;
  }

  lemma JoinOfOne(s: string)
    ensures Text.Join([s], GAP) == s
  {
  }

  /** The width of the joined chunks after one more, and of the line that shows them. */
  lemma WidthOfNext(chunks: seq<string>, i: nat)
    requires i < |chunks|
    ensures var before := if i == 0 then Units(PREFIX) else Units(PREFIX + Text.Join(chunks[..i], GAP));
      var after := before + (if i == 0 then Units("") else Units(GAP)) + Units(chunks[i]);
      && Units(PREFIX + Text.Join(chunks[..i + 1], GAP)) == after
      && Units(Shown(chunks, i + 1)) ==
         after + Units(if |chunks| - i > 1 then GAP + More(|chunks| - i - 1) else "")
  {
    hide Units, Text.Join, More;
    NoUnits();
    assert chunks[..i + 1] == chunks[..i] + [chunks[i]];
    JoinOfOne(chunks[i]);
    UnitsOfTwo(PREFIX, chunks[i]);
    if i == 0 {
      assert chunks[..1] == [chunks[0]];
    } else {
      Text.JoinOfTwo(chunks[..i], [chunks[i]], GAP);
      var joined := Text.Join(chunks[..i], GAP);
      UnitsOfThree(PREFIX + joined, GAP, chunks[i]);
      assert PREFIX + Text.Join(chunks[..i + 1], GAP) == PREFIX + joined + GAP + chunks[i];
    }
    var n := |chunks| - i - 1;
    if n > 0 {
      Text.JoinOfTwo(chunks[..i + 1], [More(n)], GAP);
      JoinOfOne(More(n));
      var joined := Text.Join(chunks[..i + 1], GAP);
      assert Shown(chunks, i + 1) == PREFIX + joined + (GAP + More(n));
      UnitsOfTwo(PREFIX + joined, GAP + More(n));
    } else {
      assert chunks[..i + 1] + [] == chunks[..i + 1];
    }
  }

  lemma NoUnits()
    ensures Units("") == 0
  {
  }

  lemma UnitsOfThree(a: string, b: string, c: string)
    ensures Units(a + b + c) == Units(a) + Units(b) + Units(c)
  {
    UnitsOfTwo(a + b, c);
    UnitsOfTwo(a, b);
  }

  /** There is one such line, since there is one cut. */
  lemma LineIsUnique(chunks: seq<string>, width: int, one: string, two: string)
    requires IsFit(chunks, width, one) && IsFit(chunks, width, two)
    ensures one == two
  {
    hide Shown, Units;
    var k: nat :| IsCut(chunks, width, k) && one == Shown(chunks, k);
    var m: nat :| IsCut(chunks, width, m) && two == Shown(chunks, m);
    CutIsUnique(chunks, width, k, m);
  }

  lemma CutIsUnique(chunks: seq<string>, width: int, k: nat, m: nat)
    requires IsCut(chunks, width, k) && IsCut(chunks, width, m)
    ensures k == m
  {
    hide Shown, Units;
  }

  /** Every chunk is at least as wide as the count `+1 more`, as rendered items are. */
  predicate AreWide(chunks: seq<string>) {
    forall i | 0 <= i < |chunks| :: Units(chunks[i]) >= 7
  }

  lemma {:induction false} AsciiUnits(s: string)
    requires forall i | 0 <= i < |s| :: s[i] as int <= 0xFFFF
    ensures Units(s) == |s|
    decreases |s|
  {
    if s != "" {
      AsciiUnits(s[..|s| - 1]);
    }
  }

  lemma DigitsAreUnits(n: nat)
    ensures Units(Json.Decimal(n)) == |Json.Decimal(n)|
  {
    Json.DecimalDigits(n);
    assert forall c: char | Json.IsDigit(c) :: c as int <= 0xFFFF;
    AsciiUnits(Json.Decimal(n));
  }

  /** Counting one less saves at most one digit. */
  lemma {:induction false} OneLessDigit(n: nat)
    ensures |Json.Decimal(n + 1)| <= |Json.Decimal(n)| + 1
    decreases n
  {
    if n >= 10 && (n + 1) / 10 != n / 10 {
      OneLessDigit(n / 10);
    }
  }

  lemma MoreUnits(n: nat)
    ensures Units(More(n)) == 6 + |Json.Decimal(n)|
  {
    hide Units;
    UnitsOfThree("+", Json.Decimal(n), " more");
    AsciiUnits("+");
    AsciiUnits(" more");
    DigitsAreUnits(n);
  }

  /** A line with two chunks shown is no narrower than that with one. */
  lemma SecondIsNoNarrower(chunks: seq<string>)
    requires |chunks| > 1 && AreWide(chunks)
    ensures Units(Shown(chunks, 1)) <= Units(Shown(chunks, 2))
  {
    hide Shown, Units, More;
    WidthOfNext(chunks, 0);
    WidthOfNext(chunks, 1);
    NoUnits();
    JoinOfOne(chunks[0]);
    assert chunks[..1] == [chunks[0]];
    var n := |chunks| - 1;
    UnitsOfTwo(GAP, More(n));
    MoreUnits(n);
    if n > 1 {
      UnitsOfTwo(GAP, More(n - 1));
      MoreUnits(n - 1);
      OneLessDigit(n - 1);
    } else {
      assert |Json.Decimal(1)| == 1;
    }
  }

  /** For wide chunks the line keeps to its width exactly when the first chunk does, with the count of the others. */
  lemma WithinWidthIff(chunks: seq<string>, width: int, k: nat)
    requires IsCut(chunks, width, k) && AreWide(chunks)
    ensures Units(Shown(chunks, k)) <= width <==> Units(Shown(chunks, 1)) <= width
  {
    hide Shown, Units;
    if k > 1 {
      SecondIsNoNarrower(chunks);
      assert Units(Shown(chunks, 2)) <= width;
    }
  }

  lemma ItemsAreWide(items: seq<Item>, now: int)
    ensures AreWide(Rendered(items, now))
  {
    hide Units, RenderItem;
    forall i | 0 <= i < |items| ensures Units(Rendered(items, now)[i]) >= 7 {
      ItemIsWide(items[i], now);
    }
  }

  lemma ItemIsWide(item: Item, now: int)
    ensures Units(RenderItem(item, now)) >= 12
  {
    hide Units, FormatRelativeAge;
    var age := FormatRelativeAge(now - Activity(item));
    AgeIsWide(now - Activity(item));
    var middle := ItemParts(item, now);
    JoinIsWide(item.wgId, [item.stage] + middle, age);
    assert [item.wgId] + ([item.stage] + middle) + [age] == [item.wgId, item.stage] + middle + [age];
  }

  lemma ItemParts(item: Item, now: int) returns (middle: seq<string>)
    ensures RenderItem(item, now) ==
            Text.Join([item.wgId, item.stage] + middle + [FormatRelativeAge(now - Activity(item))], " · ")
  {
    hide Text.Join, FormatRelativeAge;
    var counter := if item.phaseIndex.Some? && item.phaseTotal.Some?
                   then " (" + Json.Decimal(item.phaseIndex.value) + "/" + Json.Decimal(item.phaseTotal.value) + ")"
                   else "";
    var mark := match item.lifecycle case Done => " ✓" case Running => " ⟳" case OtherState => "";
    middle := if item.phase.Some? then [item.phase.value + counter + mark] else [];
  }

  lemma JoinIsWide(first: string, rest: seq<string>, last: string)
    requires rest != []
    ensures Units(Text.Join([first] + rest + [last], " · ")) >= 6 + Units(last)
  {
    hide Units;
    var dot := " · ";
    Text.JoinOfTwo([first] + rest, [last], dot);
    Text.JoinOfTwo([first], rest, dot);
    hide Text.Join;
    OneJoined(first, dot);
    OneJoined(last, dot);
    UnitsOfThree(Text.Join([first] + rest, dot), dot, last);
    UnitsOfThree(first, dot, Text.Join(rest, dot));
    AsciiUnits(dot);
  }

  lemma OneJoined(s: string, sep: string)
    ensures Text.Join([s], sep) == s
  {
  }

  lemma AgeIsWide(deltaMs: int)
    ensures Units(FormatRelativeAge(deltaMs)) >= 6
  {
    hide Units;
    AsciiUnits("just now");
    if deltaMs >= MINUTE_MS {
      var m := deltaMs / MINUTE_MS;
      DigitsAreUnits(m);
      DigitsAreUnits(m / 60);
      UnitsOfTwo(Json.Decimal(m), "m ago");
      UnitsOfTwo(Json.Decimal(m / 60), "h ago");
      AsciiUnits("m ago");
      AsciiUnits("h ago");
    }
  }

  // ---------------------------------------------------------------------------------------------
  // The two views
  // ---------------------------------------------------------------------------------------------

  method RenderStatusLine(items: seq<Item>, width: int, now: int) returns (line: string)
    ensures if items == [] then line == IDLE_LINE else IsFit(Rendered(Sort(items, Fresher), now), width, line)
  {
    hide IsFit;
    if |items| == 0 {
      return IDLE_LINE;
    }
    line := FitLine(Rendered(Sort(items, Fresher), now), width);
  }

  method RenderStatuslineFragment(items: seq<Item>, width: int, now: int) returns (line: string)
    ensures if items == [] then line == "" else IsFit(Rendered(items, now), width, line)
  {
    hide IsFit;
    if |items| == 0 {
      return "";
    }
    line := FitLine(Rendered(items, now), width);
  }

  lemma FresherIsOrder()
    ensures IsOrder(Fresher)
  {
  }

  /** No counted item is fresher than a shown one, and between equally fresh ones the board's own order decides. */
  ghost predicate AreFreshest(items: seq<Item>, shown: seq<Item>, counted: seq<Item>) {
    forall s, c | s in shown && c in counted ::
      Activity(c) <= Activity(s) && (Activity(c) == Activity(s) ==> Before(items, s, c))
  }

  lemma FreshestSurvive(items: seq<Item>, k: nat)
    requires k <= |items|
    ensures AreFreshest(items, Sort(items, Fresher)[..k], Sort(items, Fresher)[k..])
  {
    hide Sort, Sorted, Before, IsOrder, Activity;
    var order := Sort(items, Fresher);
    FresherIsOrder();
    SortSorts(items, Fresher);
    forall s, c | s in order[..k] && c in order[k..]
      ensures Activity(c) <= Activity(s) && (Activity(c) == Activity(s) ==> Before(items, s, c))
    {
      ShownBeforeCounted(order, k, s, c);
      if Activity(c) == Activity(s) {
        TiedKeepOrder(items, Fresher, s, c);
      }
    }
  }

  lemma ShownBeforeCounted(order: seq<Item>, k: nat, shown: Item, counted: Item)
    requires k <= |order| && Sorted(order, Fresher) && shown in order[..k] && counted in order[k..]
    ensures Before(order, shown, counted) && !Fresher(counted, shown)
  {
    hide Fresher;
    var i :| 0 <= i < k && order[..k][i] == shown;
    var j :| 0 <= j < |order| - k && order[k..][j] == counted;
    assert order[i] == shown && order[k + j] == counted;
  }

  /** The line names the shown items, at least one, and counts the others. */
  predicate IsLineOf(line: string, shown: seq<Item>, counted: seq<Item>, now: int) {
    && shown != []
    && line == PREFIX + Text.Join(Rendered(shown, now) + (if counted == [] then [] else [More(|counted|)]), GAP)
  }

  lemma FrontIsRendered(board: seq<Item>, now: int, k: nat)
    requires k <= |board|
    ensures |Rendered(board, now)| == |board| && Rendered(board[..k], now) == Rendered(board, now)[..k]
  {
    hide RenderItem;
  }

  lemma LineNamesAndCounts(board: seq<Item>, width: int, now: int, line: string) returns (k: nat)
    requires IsFit(Rendered(board, now), width, line)
    ensures 1 <= k <= |board| && IsLineOf(line, board[..k], board[k..], now)
    ensures Units(line) <= width <==> Units(Shown(Rendered(board, now), 1)) <= width
  {
    hide Units, Text.Join, RenderItem, AreWide, Rendered;
    var chunks := Rendered(board, now);
    k :| IsCut(chunks, width, k) && line == Shown(chunks, k);
    ItemsAreWide(board, now);
    WithinWidthIff(chunks, width, k);
    FrontIsRendered(board, now, k);
  }

  /**
    What the status line of a board that is not empty says: the board is split into items it names and items it
    counts, with nothing lost; the named ones are the freshest; and the line keeps to its width exactly when the
    freshest item alone, with the count of the others, does.
  */
  lemma StatusLineIsHonest(items: seq<Item>, width: int, now: int, line: string)
      returns (shown: seq<Item>, counted: seq<Item>)
    requires items != [] && IsFit(Rendered(Sort(items, Fresher), now), width, line)
    ensures IsLineOf(line, shown, counted, now)
    ensures multiset(shown) + multiset(counted) == multiset(items)
    ensures AreFreshest(items, shown, counted)
    ensures Units(line) <= width <==> Units(Shown(Rendered(Sort(items, Fresher), now), 1)) <= width
  {
    hide Sort, Units, IsFit, IsLineOf, AreFreshest, Shown, Rendered;
    var order := Sort(items, Fresher);
    var k := LineNamesAndCounts(order, width, now, line);
    FreshestSurvive(items, k);
    shown, counted := order[..k], order[k..];
    assert order == shown + counted;
  }

  /** The fragment says the same of the board in its own order. */
  lemma FragmentIsHonest(items: seq<Item>, width: int, now: int, line: string)
      returns (shown: seq<Item>, counted: seq<Item>)
    requires items != [] && IsFit(Rendered(items, now), width, line)
    ensures shown + counted == items && IsLineOf(line, shown, counted, now)
    ensures Units(line) <= width <==> Units(Shown(Rendered(items, now), 1)) <= width
  {
    hide Units, IsFit, IsLineOf, Shown, Rendered;
    var k := LineNamesAndCounts(items, width, now, line);
    shown, counted := items[..k], items[k..];
  }
}
