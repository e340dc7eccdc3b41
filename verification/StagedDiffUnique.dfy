/**
  Which lists of untracked files share an artifact. Between two patches stands a boundary, an empty line and the
  start of a header; cut at its boundaries, an artifact falls into one piece per file, unless a binary file's
  path, which is written unquoted and three times, holds boundaries itself.
*/
module StagedDiffUnique {
  import opened Wrappers
  import Json
  import opened StagedDiff
  import Text

  const MIDDLE := " b/"
  const BINARY := "\nnew binary file b/"
  const BOUNDARY := "\n\ndiff --git a/"

  /** What stands between the start of a header and the boundary or the end: all of a patch but both. */
  function Body(f: File): string {
    if IsBinary(f) then f.path + MIDDLE + f.path + BINARY + f.path
    else Text.Join(BodyLines(f), NEWLINE)
  }

  function BodyLines(f: File): seq<string> {
    [Label(f.path) + MIDDLE + Label(f.path)] + TextPatchLines(f.path, f.content)[1..]
  }

  function Bodies(files: seq<File>): (r: seq<string>)
    ensures |r| == |files|
  {
    seq(|files|, i requires 0 <= i < |files| => Body(files[i]))
  }

  lemma BodyLinesAre(f: File)
    ensures |BodyLines(f)| == |TextPatchLines(f.path, f.content)| >= 6
    ensures TextPatchLines(f.path, f.content) == [DIFF_A + BodyLines(f)[0]] + BodyLines(f)[1..]
  {
    hide LinesOf, Label, IsTerminated;
    var lines, name := TextPatchLines(f.path, f.content), Label(f.path);
    assert lines[0] == DIFF_A + name + " b/" + name == DIFF_A + (name + MIDDLE + name);
    assert BodyLines(f)[1..] == lines[1..] && lines == [lines[0]] + lines[1..];
  }

  lemma PatchIsBody(f: File)
    ensures Patch(f) == DIFF_A + Body(f) + NEWLINE
  {
    if IsBinary(f) {
      assert BINARY == "\n" + NEW_BINARY;
    } else {
      hide Text.Join, TextPatchLines, BodyLines;
      var lines, body := TextPatchLines(f.path, f.content), BodyLines(f);
      UntrackedPatchLines(f.path, f.content);
      BodyLinesAre(f);
      Text.JoinOfTwo(lines, [""], NEWLINE);
      Text.JoinOfOne("", NEWLINE);
      Text.JoinOfHead(DIFF_A, body[0], body[1..], NEWLINE);
      assert body == [body[0]] + body[1..];
    }
  }

  /** An artifact is the bodies between boundaries. */
  lemma {:induction false} ArtifactIsBodies(files: seq<File>)
    requires files != []
    ensures Text.Join(Patches(files), NEWLINE) == DIFF_A + Text.Join(Bodies(files), BOUNDARY) + NEWLINE
    decreases |files|
  {
    hide Patch, Body, Text.Join;
    var first, rest := files[0], files[1..];
    PatchIsBody(first);
    Text.JoinOfOne(Patch(first), NEWLINE);
    Text.JoinOfOne(Body(first), BOUNDARY);
    if rest == [] {
      assert Patches(files) == [Patch(first)] && Bodies(files) == [Body(first)];
    } else {
      ArtifactIsBodies(rest);
      assert Patches(files) == [Patch(first)] + Patches(rest) && Bodies(files) == [Body(first)] + Bodies(rest);
      Text.JoinOfTwo([Patch(first)], Patches(rest), NEWLINE);
      Text.JoinOfTwo([Body(first)], Bodies(rest), BOUNDARY);
      assert NEWLINE + NEWLINE + DIFF_A == BOUNDARY;
      assert DIFF_A + Body(first) + NEWLINE + NEWLINE + (DIFF_A + Text.Join(Bodies(rest), BOUNDARY) + NEWLINE)
          == DIFF_A + (Body(first) + (NEWLINE + NEWLINE + DIFF_A) + Text.Join(Bodies(rest), BOUNDARY)) + NEWLINE;
    }
  }

  // ---------------------------------------------------------------------------------------------
  // Cutting at the boundaries
  // ---------------------------------------------------------------------------------------------

  predicate IsWhole(s: string) {
    !Text.Contains(s, BOUNDARY)
  }

  predicate AreWhole(pieces: seq<string>) {
    forall i | 0 <= i < |pieces| :: IsWhole(pieces[i])
  }

  /** The boundary cannot overlap itself. */
  lemma NoOverlap(x: string, rest: string, i: nat)
    requires i < |x| < i + 15
    ensures !Text.OccursAt(x + BOUNDARY + rest, BOUNDARY, i)
  {
    var s, k := x + BOUNDARY + rest, |x| - i;
    assert s[i..i + 15][k] == s[|x|] == '\n';
    if k == 1 {
      assert s[i..i + 15][2] == s[|x| + 1] == '\n';
    }
  }

  lemma NotInside(x: string, rest: string, i: nat)
    requires IsWhole(x) && i + 15 <= |x|
    ensures !Text.OccursAt(x + rest, BOUNDARY, i)
  {
    assert !Text.OccursAt(x, BOUNDARY, i);
    assert (x + rest)[i..i + 15] == x[i..i + 15];
  }

  /** So the first boundary of joined whole pieces is the one behind the first piece. */
  lemma FirstBoundary(x: string, rest: string, i: nat)
    requires IsWhole(x) && Text.OccursAt(x + BOUNDARY + rest, BOUNDARY, i)
    ensures i >= |x|
  {
    hide IsWhole;
    assert x + BOUNDARY + rest == x + (BOUNDARY + rest);
    if i + 15 <= |x| {
      NotInside(x, BOUNDARY + rest, i);
    } else if i < |x| {
      NoOverlap(x, rest, i);
    }
  }

  lemma {:induction false} PiecesAreUnique(xs: seq<string>, ys: seq<string>)
    requires xs != [] && ys != [] && AreWhole(xs) && AreWhole(ys)
    requires Text.Join(xs, BOUNDARY) == Text.Join(ys, BOUNDARY)
    ensures xs == ys
    decreases |xs|
  {
    hide IsWhole;
    var s := Text.Join(xs, BOUNDARY);
    if |xs| == 1 || |ys| == 1 {
      if |xs| > 1 {
        BoundaryAt(xs[0], Text.Join(xs[1..], BOUNDARY));
        Holds(s, |xs[0]|);
      }
      if |ys| > 1 {
        BoundaryAt(ys[0], Text.Join(ys[1..], BOUNDARY));
        Holds(s, |ys[0]|);
      }
    } else {
      var r, t := Text.Join(xs[1..], BOUNDARY), Text.Join(ys[1..], BOUNDARY);
      BoundaryAt(xs[0], r);
      BoundaryAt(ys[0], t);
      FirstBoundary(xs[0], r, |ys[0]|);
      FirstBoundary(ys[0], t, |xs[0]|);
      assert xs[0] == s[..|xs[0]|] && ys[0] == s[..|ys[0]|];
      assert r == s[|xs[0]| + 15..] && t == s[|ys[0]| + 15..];
      PiecesAreUnique(xs[1..], ys[1..]);
    }
  }

  lemma BoundaryAt(x: string, rest: string)
    ensures Text.OccursAt(x + BOUNDARY + rest, BOUNDARY, |x|)
  {
  }

  lemma Holds(s: string, i: nat)
    requires Text.OccursAt(s, BOUNDARY, i)
    ensures !IsWhole(s)
  {
  }

  /** Any text is whole pieces joined by boundaries. */
  lemma {:induction false} Cut(s: string) returns (pieces: seq<string>)
    ensures pieces != [] && AreWhole(pieces) && Text.Join(pieces, BOUNDARY) == s
    decreases |s|
  {
    if IsWhole(s) {
      return [s];
    }
    var last: nat :| last <= |s| && Text.OccursAt(s, BOUNDARY, last);
    var i := FirstOccurrence(s, last);
    var rest := Cut(s[i + 15..]);
    FrontIsWhole(s, i);
    pieces := [s[..i]] + rest;
    Text.JoinOfTwo([s[..i]], rest, BOUNDARY);
    Text.JoinOfOne(s[..i], BOUNDARY);
    assert s == s[..i] + s[i..i + 15] + s[i + 15..];
  }

  lemma FirstOccurrence(s: string, some: nat) returns (i: nat)
    requires Text.OccursAt(s, BOUNDARY, some)
    ensures Text.OccursAt(s, BOUNDARY, i) && forall j: nat | j < i :: !Text.OccursAt(s, BOUNDARY, j)
  {
    i := 0;
    while !Text.OccursAt(s, BOUNDARY, i)
      invariant i <= some && forall j: nat | j < i :: !Text.OccursAt(s, BOUNDARY, j)
      decreases some - i
    {
      i := i + 1;
    }
  }

  lemma FrontIsWhole(s: string, i: nat)
    requires i + 15 <= |s| && forall j: nat | j < i :: !Text.OccursAt(s, BOUNDARY, j)
    ensures IsWhole(s[..i])
  {
    if j: nat :| j <= i && Text.OccursAt(s[..i], BOUNDARY, j) {
      assert s[..i][j..j + 15] == s[j..j + 15];
      assert Text.OccursAt(s, BOUNDARY, j);
    }
  }

  /** Nor is there a boundary at `i` when it would lie behind the mark. */
  lemma NotBehind(front: string, y: string, i: nat)
    requires IsWhole(y) && i >= |front|
    ensures !Text.OccursAt(front + y, BOUNDARY, i)
  {
    var j: nat := i - |front|;
    assert j <= |y| ==> !Text.OccursAt(y, BOUNDARY, j);
    if i + 15 <= |front + y| {
      assert (front + y)[i..i + 15] == y[j..j + 15];
    }
  }

  /** The marks inside a binary patch do not make boundaries. */
  lemma MiddleKeepsWhole(x: string, y: string)
    requires IsWhole(x) && IsWhole(y)
    ensures IsWhole(x + MIDDLE + y)
  {
    var s := x + MIDDLE + y;
    forall i | 0 <= i <= |s| ensures !Text.OccursAt(s, BOUNDARY, i) {
      assert s == x + (MIDDLE + y);
      if i + 15 <= |x| {
        NotInside(x, MIDDLE + y, i);
      } else if i >= |x| + 3 {
        NotBehind(x + MIDDLE, y, i);
      } else if i + 15 <= |s| {
        NotAtMiddle(x, y, i);
      }
    }
  }

  lemma NotAtMiddle(x: string, y: string, i: nat)
    requires |x| < i + 15 <= |x + MIDDLE + y| && i < |x| + 3
    ensures !Text.OccursAt(x + MIDDLE + y, BOUNDARY, i)
  {
    var s := x + MIDDLE + y;
    if i <= |x| {
      var k := |x| - i;
      assert s[i..i + 15][k] == s[|x|] == ' ';
      if k < 14 {
        assert s[i..i + 15][k + 1] == s[|x| + 1] == 'b';
      }
    } else {
      assert s[i..i + 15][0] == s[i] == MIDDLE[i - |x|];
    }
  }

  lemma BinaryKeepsWhole(x: string, y: string)
    requires IsWhole(x) && IsWhole(y)
    ensures IsWhole(x + BINARY + y)
  {
    var s := x + BINARY + y;
    forall i | 0 <= i <= |s| ensures !Text.OccursAt(s, BOUNDARY, i) {
      assert s == x + (BINARY + y);
      if i + 15 <= |x| {
        NotInside(x, BINARY + y, i);
      } else if i >= |x| + 19 {
        NotBehind(x + BINARY, y, i);
      } else if i + 15 <= |s| {
        NotAtBinary(x, y, i);
      }
    }
  }

  lemma NotAtBinary(x: string, y: string, i: nat)
    requires |x| < i + 15 <= |x + BINARY + y| && i < |x| + 19
    ensures !Text.OccursAt(x + BINARY + y, BOUNDARY, i)
  {
    var s := x + BINARY + y;
    if i <= |x| {
      var k := |x| - i;
      assert s[i..i + 15][k] == s[|x|] == '\n';
      assert k > 1 ==> BOUNDARY[k] != '\n';
      if k <= 1 {
        assert s[i..i + 15][k + 1] == s[|x| + 1] == BINARY[1];
      }
    } else {
      assert s[i..i + 15][0] == s[i] == BINARY[i - |x|];
    }
  }

  // ---------------------------------------------------------------------------------------------
  // Text bodies
  // ---------------------------------------------------------------------------------------------

  /** What follows a newline in joined lines starts a line. */
  lemma {:induction false} StartsALine(lines: seq<string>, start: string, i: nat)
    requires lines != [] && (forall t | 0 <= t < |lines| :: '\n' !in lines[t]) && '\n' !in start
    requires Text.OccursAt(Text.Join(lines, NEWLINE), "\n" + start, i)
    ensures exists t | 1 <= t < |lines| :: start <= lines[t]
    decreases |lines|
  {
    var s := Text.Join(lines, NEWLINE);
    var n := 1 + |start|;
    assert s[i..i + n] == "\n" + start;
    assert s[i] == s[i..i + n][0] == '\n';
    if |lines| > 1 {
      var rest := Text.Join(lines[1..], NEWLINE);
      assert s == lines[0] + "\n" + rest;
      if i == |lines[0]| {
        StartOfJoin(lines[1..], start);
        assert rest[..|start|] == s[i + 1..i + n] == s[i..i + n][1..] == start;
      } else {
        assert i > |lines[0]|;
        var j := i - |lines[0]| - 1;
        assert rest[j..j + n] == s[i..i + n];
        StartsALine(lines[1..], start, j);
        var t :| 1 <= t < |lines| - 1 && start <= lines[1..][t];
        assert lines[t + 1] == lines[1..][t];
      }
    }
  }

  lemma StartOfJoin(lines: seq<string>, start: string)
    requires lines != [] && '\n' !in start
    ensures start <= Text.Join(lines, NEWLINE) ==> start <= lines[0]
  {
    var s := Text.Join(lines, NEWLINE);
    if |lines| > 1 {
      assert s == lines[0] + "\n" + Text.Join(lines[1..], NEWLINE);
      assert s[|lines[0]|] == '\n';
      assert |start| > |lines[0]| ==> start[|lines[0]|] != '\n';
    }
  }

  lemma BodyLinesAreLines(f: File)
    ensures forall t | 0 <= t < |BodyLines(f)| :: '\n' !in BodyLines(f)[t]
  {
    hide TextPatchLines, Label;
    var lines := TextPatchLines(f.path, f.content);
    TextLinesAreLines(f.path, f.content);
    LabelIsOneLine(f.path);
    BodyLinesAre(f);
    assert forall t | 1 <= t < |BodyLines(f)| :: BodyLines(f)[t] == lines[t];
  }

  predicate StartsWithOneOf(line: string) {
    DIFF_A <= line || NEW_BINARY <= line
  }

  lemma FirstLetter(line: string)
    ensures StartsWithOneOf(line) ==> line != "" && (line[0] == 'd' || line[0] == 'n')
  {
  }

  /** After its first line, no line of a text's patch starts like a header or like a binary file's. */
  lemma LaterLines(f: File, t: nat)
    requires 1 <= t < |BodyLines(f)|
    ensures !StartsWithOneOf(BodyLines(f)[t])
  {
    hide LinesOf, Label, IsTerminated;
    var n, line := |LinesOf(f.content)|, BodyLines(f)[t];
    FirstLetter(line);
    assert line == TextPatchLines(f.path, f.content)[t];
    if t == 1 {
      assert line == NEW_FILE && NEW_FILE[0] != DIFF_A[0] && NEW_FILE[4] != NEW_BINARY[4];
    } else if t < 5 {
      assert line == Header(Label(f.path), n)[t];
      assert line[0] == '-' || line[0] == '+' || line[0] == '@';
    } else {
      assert line == "" || line == NO_NEWLINE || line[0] == '+';
      assert NO_NEWLINE[0] == '\\';
    }
  }

  lemma TextBodyIsPlain(f: File)
    requires !IsBinary(f)
    ensures IsWhole(Body(f)) && !Text.Contains(Body(f), BINARY)
  {
    hide BodyLines, Text.Join;
    BodyLinesAreLines(f);
    NotNewlines();
    HasBodyLines(f);
    if i: nat :| i <= |Body(f)| && Text.OccursAt(Body(f), BINARY, i) {
      assert BINARY == "\n" + NEW_BINARY;
      StartsALine(BodyLines(f), NEW_BINARY, i);
      var t :| 1 <= t < |BodyLines(f)| && NEW_BINARY <= BodyLines(f)[t];
      LaterLines(f, t);
    }
    if i: nat :| i <= |Body(f)| && Text.OccursAt(Body(f), BOUNDARY, i) {
      assert Body(f)[i + 1..i + 1 + 14] == Body(f)[i..i + 15][1..] == "\n" + DIFF_A;
      StartsALine(BodyLines(f), DIFF_A, i + 1);
      var t :| 1 <= t < |BodyLines(f)| && DIFF_A <= BodyLines(f)[t];
      LaterLines(f, t);
    }
  }

  lemma NotNewlines()
    ensures '\n' !in NEW_BINARY && '\n' !in DIFF_A
  {
  }

  lemma HasBodyLines(f: File)
    ensures BodyLines(f) != []
  {
  }

  lemma BinaryBodyHolds(f: File)
    requires IsBinary(f)
    ensures Text.Contains(Body(f), BINARY)
  {
    var x := f.path + MIDDLE + f.path;
    assert Text.OccursAt(x + BINARY + f.path, BINARY, |x|);
  }

  lemma ContainsInside(x: string, s: string, y: string)
    requires Text.Contains(s, BINARY)
    ensures Text.Contains(x + s + y, BINARY)
  {
    var i: nat :| i <= |s| && Text.OccursAt(s, BINARY, i);
    assert (x + s + y)[|x| + i..|x| + i + 19] == s[i..i + 19];
    assert Text.OccursAt(x + s + y, BINARY, |x| + i);
  }

  // ---------------------------------------------------------------------------------------------
  // A path that holds boundaries does not fit
  // ---------------------------------------------------------------------------------------------

  /** How often a letter occurs. */
  function Count(s: string, c: char): nat {
    if s == "" then 0 else Count(s[..|s| - 1], c) + if s[|s| - 1] == c then 1 else 0
  }

  lemma {:induction false} CountOfTwo(a: string, b: string, c: char)
    ensures Count(a + b, c) == Count(a, c) + Count(b, c)
    decreases |b|
  {
    if b == "" {
      assert a + b == a;
    } else {
      assert (a + b)[..|a + b| - 1] == a + b[..|b| - 1];
      CountOfTwo(a, b[..|b| - 1], c);
    }
  }

  lemma CountOfThree(x: string, m: string, y: string, c: char)
    ensures Count(x + m + y, c) == Count(x, c) + Count(m, c) + Count(y, c)
  {
    CountOfTwo(x + m, y, c);
    CountOfTwo(x, m, c);
  }

  lemma {:induction false} CountIn(s: string, c: char, k: nat)
    requires k <= |s|
    ensures c !in s[..k] ==> Count(s[..k], c) == 0
    ensures k < |s| && s[k] == c && c !in s[..k] ==> Count(s[..k + 1], c) == 1
    decreases k
  {
    if k > 0 {
      assert s[..k][..k - 1] == s[..k - 1] && s[..k][k - 1] == s[k - 1];
      assert c !in s[..k] ==> c !in s[..k - 1];
      CountIn(s, c, k - 1);
    }
    if k < |s| {
      assert s[..k + 1][..k] == s[..k];
    }
  }

  /** The letter `w` occurs in the mark of a binary file once, in the other not at all. */
  lemma MarksCount()
    ensures Count(MIDDLE, 'w') == 0 && Count(BINARY, 'w') == 1
  {
    hide Count;
    CountIn(MIDDLE, 'w', 3);
    assert MIDDLE[..3] == MIDDLE;
    var head, tail := "\nnew", " binary file b/";
    CountIn(head, 'w', 3);
    assert head[..4] == head;
    CountIn(tail, 'w', 15);
    assert tail[..15] == tail;
    assert BINARY == head + tail;
    CountOfTwo(head, tail, 'w');
  }

  lemma BinaryBodyCounts(f: File)
    requires IsBinary(f)
    ensures Count(Body(f), 'w') == 3 * Count(f.path, 'w') + 1
  {
    hide Count;
    MarksCount();
    CountOfThree(f.path, MIDDLE, f.path, 'w');
    CountOfThree(f.path + MIDDLE + f.path, BINARY, f.path, 'w');
  }

  lemma TextBodyLength(f: File)
    ensures var n := |LinesOf(f.content)|; var lines := BodyLines(f);
      && 5 + (if n == 0 then 1 else n) <= |lines| <= 6 + (if n == 0 then 1 else n)
      && lines[4] == HUNK + Json.Decimal(n) + HUNK_END
  {
    hide LinesOf, Label, IsTerminated;
  }

  /** Two texts' bodies glued together are no text's body: the hunk would count too few lines. */
  lemma GluedTextsAreNoText(f: File, g: File, h: File)
    requires !IsBinary(f) && !IsBinary(g) && !IsBinary(h)
    ensures Body(h) != Body(f) + MIDDLE + Body(g)
  {
    hide BodyLines, Text.Join, Text.Split, Json.Decimal, LinesOf;
    var xs, ys, zs := BodyLines(f), BodyLines(g), BodyLines(h);
    TextBodyLength(f);
    TextBodyLength(g);
    TextBodyLength(h);
    Text.JoinGlued(xs, MIDDLE, ys, NEWLINE);
    var glued := Text.Glued(xs, MIDDLE, ys);
    BodyLinesAreLines(f);
    BodyLinesAreLines(g);
    BodyLinesAreLines(h);
    Text.SplitJoin(zs, '\n');
    Text.SplitJoin(glued, '\n');
    assert |glued| == |xs| + |ys| - 1 && glued[4] == xs[4];
    SameCount(|LinesOf(f.content)|, |LinesOf(h.content)|);
  }

  lemma SameCount(m: nat, n: nat)
    ensures HUNK + Json.Decimal(m) + HUNK_END == HUNK + Json.Decimal(n) + HUNK_END ==> m == n
  {
    hide Json.Decimal;
    if HUNK + Json.Decimal(m) + HUNK_END == HUNK + Json.Decimal(n) + HUNK_END {
      assert (HUNK + Json.Decimal(m) + HUNK_END)[|HUNK|..] == Json.Decimal(m) + HUNK_END;
      assert (HUNK + Json.Decimal(n) + HUNK_END)[|HUNK|..] == Json.Decimal(n) + HUNK_END;
      Json.DecimalPrefixFree(m, n, HUNK_END, HUNK_END);
    }
  }

  /**
    The pieces at the ends and middles of a path that holds boundaries, `b`, `a b/b`, `a new binary file b/b` and
    `a`, cannot all be bodies: the letter `w` occurs once more than a multiple of three times in a binary body,
    so the second would have to be a text, and then the first and last would be.
  */
  lemma NoSuchBodies(a: string, b: string, first: File, middle: File, binary: File, last: File)
    requires Body(first) == b && Body(binary) == a + BINARY + b && Body(last) == a
    ensures Body(middle) != a + MIDDLE + b
  {
    hide Body, Count;
    var x := a + BINARY + b;
    assert Text.OccursAt(x, BINARY, |a|);
    if !IsBinary(binary) {
      TextBodyIsPlain(binary);
    }
    BinaryBodyCounts(binary);
    MarksCount();
    CountOfThree(a, BINARY, b, 'w');
    CountOfThree(a, MIDDLE, b, 'w');
    if IsBinary(middle) {
      BinaryBodyCounts(middle);
    } else {
      TextBodyIsPlain(middle);
      assert "" + a + (MIDDLE + b) == a + MIDDLE + b && (a + MIDDLE) + b + "" == a + MIDDLE + b;
      if IsBinary(first) {
        BinaryBodyHolds(first);
        ContainsInside(a + MIDDLE, b, "");
      } else if IsBinary(last) {
        BinaryBodyHolds(last);
        ContainsInside("", a, MIDDLE + b);
      } else {
        GluedTextsAreNoText(last, first, middle);
      }
    }
  }

  // ---------------------------------------------------------------------------------------------
  // The pieces of a body
  // ---------------------------------------------------------------------------------------------

  /** The pieces of a binary body, from those of its path. */
  function BinaryPieces(u: seq<string>): seq<string>
    requires u != []
  {
    var e := |u| - 1;
    if e == 0 then [u[0] + MIDDLE + u[0] + BINARY + u[0]]
    else
      var inner := u[1..e];
      [u[0]] + inner + [u[e] + MIDDLE + u[0]] + inner + [u[e] + BINARY + u[0]] + inner + [u[e]]
  }

  lemma BinaryPiecesAreWhole(u: seq<string>)
    requires u != [] && AreWhole(u)
    ensures AreWhole(BinaryPieces(u))
  {
    hide IsWhole;
    var e := |u| - 1;
    MiddleKeepsWhole(u[e], u[0]);
    BinaryKeepsWhole(u[e], u[0]);
    if e == 0 {
      BinaryKeepsWhole(u[0] + MIDDLE + u[0], u[0]);
    }
  }

  lemma BinaryPiecesJoin(u: seq<string>, path: string)
    requires u != [] && Text.Join(u, BOUNDARY) == path
    ensures Text.Join(BinaryPieces(u), BOUNDARY) == path + MIDDLE + path + BINARY + path
  {
    hide Text.Join;
    var e, two := |u| - 1, Text.Glued(u, MIDDLE, u);
    Text.JoinGlued(u, MIDDLE, u, BOUNDARY);
    Text.JoinGlued(two, BINARY, u, BOUNDARY);
    var three := Text.Glued(two, BINARY, u);
    if e == 0 {
      assert two == [u[0] + MIDDLE + u[0]] && three == BinaryPieces(u);
    } else {
      assert u[..e] == [u[0]] + u[1..e] && u[1..] == u[1..e] + [u[e]];
      assert two == [u[0]] + u[1..e] + [u[e] + MIDDLE + u[0]] + u[1..e] + [u[e]];
      assert two[..|two| - 1] == [u[0]] + u[1..e] + [u[e] + MIDDLE + u[0]] + u[1..e] && two[|two| - 1] == u[e];
      assert three == BinaryPieces(u);
    }
  }

  lemma PiecesOf(f: File) returns (pieces: seq<string>, u: seq<string>)
    ensures pieces != [] && AreWhole(pieces) && Text.Join(pieces, BOUNDARY) == Body(f)
    ensures u != [] && (if IsBinary(f) then pieces == BinaryPieces(u) else pieces == [Body(f)])
    ensures IsBinary(f) && IsWhole(f.path) ==> u == [f.path]
  {
    hide Text.Join, IsWhole;
    if IsBinary(f) {
      u := Cut(f.path);
      BinaryPiecesAreWhole(u);
      BinaryPiecesJoin(u, f.path);
      pieces := BinaryPieces(u);
      Text.JoinOfOne(f.path, BOUNDARY);
      if IsWhole(f.path) {
        PiecesAreUnique(u, [f.path]);
      }
    } else {
      TextBodyIsPlain(f);
      Text.JoinOfOne(Body(f), BOUNDARY);
      pieces, u := [Body(f)], [""];
    }
  }

  // ---------------------------------------------------------------------------------------------
  // Uniqueness
  // ---------------------------------------------------------------------------------------------

  /** A file whose patch is one piece: the path of a binary file holds no boundary. */
  predicate IsOnePiece(f: File) {
    IsBinary(f) ==> IsWhole(f.path)
  }

  lemma OnePieceIsWhole(f: File)
    requires IsOnePiece(f)
    ensures IsWhole(Body(f))
  {
    hide IsWhole;
    if IsBinary(f) {
      MiddleKeepsWhole(f.path, f.path);
      BinaryKeepsWhole(f.path + MIDDLE + f.path, f.path);
    } else {
      TextBodyIsPlain(f);
    }
  }

  /** A body tells its file. */
  lemma BodyTells(f: File, g: File)
    requires Body(f) == Body(g)
    ensures Tell(f) == Tell(g)
  {
    if IsBinary(f) && IsBinary(g) {
      assert |f.path| == |g.path|;
      assert f.path == Body(f)[..|f.path|] && g.path == Body(g)[..|g.path|];
    } else if IsBinary(f) {
      BinaryBodyHolds(f);
      TextBodyIsPlain(g);
    } else if IsBinary(g) {
      BinaryBodyHolds(g);
      TextBodyIsPlain(f);
    } else {
      TextBodyTells(f, g);
    }
  }

  lemma TextBodyTells(f: File, g: File)
    requires !IsBinary(f) && !IsBinary(g) && Body(f) == Body(g)
    ensures Tell(f) == Tell(g)
  {
    hide Text.Join, Text.Split, Label, LinesOf;
    BodyLinesAreLines(f);
    BodyLinesAreLines(g);
    Text.SplitJoin(BodyLines(f), '\n');
    Text.SplitJoin(BodyLines(g), '\n');
    assert BodyLines(f) == BodyLines(g);
    var x, y := TextPatchLines(f.path, f.content), TextPatchLines(g.path, g.content);
    assert x[1..] == BodyLines(f)[1..] && y[1..] == BodyLines(g)[1..];
    assert x[0] == DIFF_A + BodyLines(f)[0] && y[0] == DIFF_A + BodyLines(g)[0];
    assert x == [x[0]] + x[1..] && y == [y[0]] + y[1..];
    TextIsRead(f.path, f.content, []);
    TextIsRead(g.path, g.content, []);
  }

  lemma BinaryPiecesAt(u: seq<string>)
    requires |u| > 1
    ensures var e := |u| - 1; var p := BinaryPieces(u);
      && |p| == 3 * e + 1 && p[0] == u[0] && p[e] == u[e] + MIDDLE + u[0] && p[2 * e] == u[e] + BINARY + u[0]
      && p[3 * e] == u[e]
  {
  }

  lemma HeadPieces(head: seq<string>, u: seq<string>, f: File)
    requires u != [] && (if IsBinary(f) then head == BinaryPieces(u) else head == [Body(f)])
    ensures |head| > 1 ==> |u| > 1 && head == BinaryPieces(u)
  {
    hide Body;
  }

  /** The pieces of an artifact; `head` are those of its first file. */
  lemma {:induction false} AllPieces(files: seq<File>) returns (all: seq<string>, head: seq<string>, u: seq<string>)
    requires files != []
    ensures AreWhole(all) && Text.Join(all, BOUNDARY) == Text.Join(Bodies(files), BOUNDARY)
    ensures head != [] && head <= all && (|files| == 1 ==> all == head) && (|files| > 1 ==> |all| > |head|)
    ensures |head| == 1 ==> head[0] == Body(files[0])
    ensures |head| > 1 ==> |u| > 1 && head == BinaryPieces(u)
    decreases |files|
  {
    hide Text.Join, Body, IsWhole, BinaryPieces;
    head, u := PiecesOf(files[0]);
    Text.JoinOfOne(Body(files[0]), BOUNDARY);
    Text.JoinOfOne(head[0], BOUNDARY);
    HeadPieces(head, u, files[0]);
    assert |head| == 1 ==> head == [head[0]];
    if |files| == 1 {
      all := head;
      assert Bodies(files) == [Body(files[0])];
    } else {
      var rest, _, _ := AllPieces(files[1..]);
      all := head + rest;
      Text.JoinOfTwo(head, rest, BOUNDARY);
      assert Bodies(files) == [Body(files[0])] + Bodies(files[1..]);
      Text.JoinOfTwo([Body(files[0])], Bodies(files[1..]), BOUNDARY);
    }
  }

  lemma RestOfBodies(one: seq<File>, two: seq<File>)
    requires |one| > 1 && |two| > 1 && Body(one[0]) == Body(two[0])
    requires Text.Join(Bodies(one), BOUNDARY) == Text.Join(Bodies(two), BOUNDARY)
    ensures Text.Join(Bodies(one[1..]), BOUNDARY) == Text.Join(Bodies(two[1..]), BOUNDARY)
  {
    hide Text.Join, Body;
    var b, r, t := Body(one[0]), Text.Join(Bodies(one[1..]), BOUNDARY), Text.Join(Bodies(two[1..]), BOUNDARY);
    Text.JoinOfOne(b, BOUNDARY);
    assert Bodies(one) == [b] + Bodies(one[1..]) && Bodies(two) == [b] + Bodies(two[1..]);
    Text.JoinOfTwo([b], Bodies(one[1..]), BOUNDARY);
    Text.JoinOfTwo([b], Bodies(two[1..]), BOUNDARY);
    assert r == (b + BOUNDARY + r)[|b| + 15..] && t == (b + BOUNDARY + t)[|b| + 15..];
  }

  lemma {:induction false} SameBodies(one: seq<File>, two: seq<File>)
    requires forall i | 0 <= i < |one| :: IsOnePiece(one[i])
    requires one != [] && two != [] && Text.Join(Bodies(one), BOUNDARY) == Text.Join(Bodies(two), BOUNDARY)
    ensures TellAll(one) == TellAll(two)
    decreases |two|
  {
    hide Text.Join, Body, IsWhole, IsOnePiece, BinaryPieces, Tell;
    var all, head, u := AllPieces(two);
    forall i | 0 <= i < |one| ensures IsWhole(Bodies(one)[i]) {
      OnePieceIsWhole(one[i]);
    }
    PiecesAreUnique(Bodies(one), all);
    assert |one| == |all| && forall i | 0 <= i < |head| :: Body(one[i]) == head[i];
    if |head| > 1 {
      var e := |u| - 1;
      BinaryPiecesAt(u);
      NoSuchBodies(u[e], u[0], one[0], one[e], one[2 * e], one[3 * e]);
    } else {
      BodyTells(one[0], two[0]);
      if |two| > 1 {
        RestOfBodies(one, two);
        SameBodies(one[1..], two[1..]);
      }
      assert |two| == 1 ==> one[1..] == [] && two[1..] == [];
    }
  }

  // ---------------------------------------------------------------------------------------------
  // Names
  // ---------------------------------------------------------------------------------------------

  /** What a patch calls its file. */
  function Name(f: File): string {
    if IsBinary(f) then f.path else Label(f.path)
  }

  /** No name in one list goes on where a name in the other is followed by ` b/`. */
  predicate NoNameLeads(one: seq<File>, two: seq<File>) {
    forall i, j | 0 <= i < |one| && 0 <= j < |two| ::
      !(Name(one[i]) + MIDDLE <= Name(two[j])) && !(Name(two[j]) + MIDDLE <= Name(one[i]))
  }

  /** What stands behind the names. */
  function Tail(f: File): string {
    if IsBinary(f) then BINARY + f.path else "\n" + Text.Join(BodyLines(f)[1..], NEWLINE)
  }

  lemma NamesAndTail(f: File)
    ensures Body(f) == Name(f) + MIDDLE + Name(f) + Tail(f)
    ensures (if IsBinary(f) then "\nnew b" else "\nnew f") <= Tail(f)
  {
    if IsBinary(f) {
      hide BodyLines, Text.Join;
      assert BINARY == "\nnew b" + BINARY[6..];
    } else {
      hide Name, Text.Join, BodyLines;
      BodyOpens(f);
      OpenLines(BodyLines(f));
      assert Tail(f) == "\n" + Text.Join(BodyLines(f)[1..], NEWLINE);
    }
  }

  lemma OpenLines(lines: seq<string>)
    requires |lines| > 2 && lines == [lines[0]] + lines[1..]
    requires lines[1..] == ["new f" + "ile mode 100644"] + lines[2..]
    ensures Text.Join(lines, NEWLINE) == lines[0] + ("\n" + Text.Join(lines[1..], NEWLINE))
    ensures "\nnew f" <= "\n" + Text.Join(lines[1..], NEWLINE)
  {
    hide Text.Join;
    Text.JoinOfTwo([lines[0]], lines[1..], NEWLINE);
    Text.JoinOfOne(lines[0], NEWLINE);
    Text.JoinOfHead("new f", "ile mode 100644", lines[2..], NEWLINE);
  }

  lemma BodyOpens(f: File)
    requires !IsBinary(f)
    ensures var lines := BodyLines(f);
      && |lines| > 2 && lines == [Name(f) + MIDDLE + Name(f)] + lines[1..] == [lines[0]] + lines[1..]
      && lines[1..] == ["new f" + "ile mode 100644"] + lines[2..]
  {
    hide LinesOf, Label, IsTerminated;
    BodyLinesAre(f);
    assert BodyLines(f)[1] == NEW_FILE == "new f" + "ile mode 100644";
  }

  lemma MarksDoNotOverlap(p: string, x: string, q: string, y: string)
    requires |p| < |q| < |p| + 3
    ensures p + MIDDLE + x != q + MIDDLE + y
  {
    assert (p + MIDDLE + x)[|q|] == MIDDLE[|q| - |p|];
    assert (q + MIDDLE + y)[|q|] == ' ';
  }

  lemma SameNames(p: string, x: string, q: string, y: string)
    requires p + MIDDLE + x == q + MIDDLE + y && |p| <= |q|
    ensures p == q || p + MIDDLE <= q
  {
    var s := p + MIDDLE + x;
    assert p == s[..|p|] && q == s[..|q|];
    if |p| + 3 <= |q| {
      assert p + MIDDLE == s[..|p| + 3] == q[..|p| + 3];
    } else if |p| < |q| {
      MarksDoNotOverlap(p, x, q, y);
    }
  }

  lemma TailTells(f: File, x: string, g: File, y: string)
    requires Tail(f) + x == Tail(g) + y
    ensures IsBinary(f) == IsBinary(g)
  {
    hide Body, Tail;
    NamesAndTail(f);
    NamesAndTail(g);
    assert (Tail(f) + x)[5] == (if IsBinary(f) then "\nnew b" else "\nnew f")[5];
    assert (Tail(g) + y)[5] == (if IsBinary(g) then "\nnew b" else "\nnew f")[5];
  }

  lemma AfterNames(p: string, x: string, q: string, y: string)
    requires p + MIDDLE + p + x == q + MIDDLE + q + y
    requires !(p + MIDDLE <= q) && !(q + MIDDLE <= p)
    ensures p == q && x == y
  {
    assert p + MIDDLE + (p + x) == p + MIDDLE + p + x == q + MIDDLE + (q + y);
    if |p| <= |q| {
      SameNames(p, p + x, q, q + y);
    } else {
      SameNames(q, q + y, p, p + x);
    }
    var front := p + MIDDLE + p;
    assert x == (front + x)[|front|..] && y == (front + y)[|front|..];
  }

  /** Patches that open the same text, as far as the names tell. */
  lemma SameFirst(f: File, x: string, g: File, y: string)
    requires !(Name(f) + MIDDLE <= Name(g)) && !(Name(g) + MIDDLE <= Name(f)) && Body(f) + x == Body(g) + y
    ensures Name(f) == Name(g) && IsBinary(f) == IsBinary(g)
  {
    hide Body, Name, Tail, IsBinary;
    NamesAndTail(f);
    NamesAndTail(g);
    Regroup(Name(f) + MIDDLE + Name(f), Tail(f), x);
    Regroup(Name(g) + MIDDLE + Name(g), Tail(g), y);
    AfterNames(Name(f), Tail(f) + x, Name(g), Tail(g) + y);
    TailTells(f, x, g, y);
  }

  lemma Regroup(a: string, b: string, c: string)
    ensures a + b + c == a + (b + c)
  {
  }

  function Behind(files: seq<File>): string
    requires files != []
  {
    if |files| == 1 then "" else BOUNDARY + Text.Join(Bodies(files[1..]), BOUNDARY)
  }

  lemma FirstAndBehind(files: seq<File>)
    requires files != []
    ensures Text.Join(Bodies(files), BOUNDARY) == Body(files[0]) + Behind(files)
  {
    hide Text.Join, Body;
    Text.JoinOfOne(Body(files[0]), BOUNDARY);
    if |files| == 1 {
      assert Bodies(files) == [Body(files[0])];
    } else {
      assert Bodies(files) == [Body(files[0])] + Bodies(files[1..]);
      Text.JoinOfTwo([Body(files[0])], Bodies(files[1..]), BOUNDARY);
    }
  }

  /** Of two whole pieces at the front of a text, each followed by nothing or a boundary, neither is longer. */
  lemma SameWhole(x: string, after: string, y: string, behind: string)
    requires IsWhole(y) && x + BOUNDARY + after == y + behind
    requires behind != "" ==> BOUNDARY <= behind
    ensures |y| <= |x|
  {
    hide IsWhole;
    BoundaryAt(x, after);
    if behind == "" {
      assert y + behind == y;
      Holds(y, |x|);
    } else {
      assert behind == BOUNDARY + behind[15..];
      assert y + behind == y + BOUNDARY + behind[15..];
      FirstBoundary(y, behind[15..], |x|);
    }
  }

  lemma SameTextFirst(one: seq<File>, two: seq<File>)
    requires one != [] && two != [] && !IsBinary(one[0]) && !IsBinary(two[0])
    requires Body(one[0]) + Behind(one) == Body(two[0]) + Behind(two)
    ensures Body(one[0]) == Body(two[0])
  {
    hide Body, IsWhole, Text.Join;
    var x, y := Body(one[0]), Body(two[0]);
    TextBodyIsPlain(one[0]);
    TextBodyIsPlain(two[0]);
    var s := x + Behind(one);
    if |one| > 1 {
      SameWhole(x, Behind(one)[15..], y, Behind(two));
    }
    if |two| > 1 {
      SameWhole(y, Behind(two)[15..], x, Behind(one));
    }
    assert x == s[..|x|] && y == s[..|y|];
  }

  lemma SameBinaries(f: File, g: File)
    requires IsBinary(f) && IsBinary(g) && Name(f) == Name(g)
    ensures Body(f) == Body(g)
  {
  }

  lemma {:induction false} SameBodiesByName(one: seq<File>, two: seq<File>)
    requires NoNameLeads(one, two)
    requires one != [] && two != [] && Text.Join(Bodies(one), BOUNDARY) == Text.Join(Bodies(two), BOUNDARY)
    ensures TellAll(one) == TellAll(two)
    decreases |two|
  {
    hide Text.Join, Body, Name, Tell;
    var f, g := one[0], two[0];
    FirstAndBehind(one);
    FirstAndBehind(two);
    SameFirst(f, Behind(one), g, Behind(two));
    if IsBinary(f) {
      SameBinaries(f, g);
    } else {
      SameTextFirst(one, two);
    }
    BodyTells(f, g);
    assert Behind(one) == (Body(f) + Behind(one))[|Body(f)|..] == Behind(two);
    if |one| > 1 {
      RestOfBodies(one, two);
      SameBodiesByName(one[1..], two[1..]);
    }
    assert |one| == 1 ==> one[1..] == [] && two[1..] == [];
  }

  lemma SamePatch(f: File, g: File)
    requires f.path == g.path && IsBinary(f) == IsBinary(g) && (!IsBinary(f) ==> f == g)
    ensures Patch(f) == Patch(g)
  {
  }

  /**
    Two lists of untracked files share an artifact, beside the same tracked changes, exactly when they have the
    same paths, in the same order, and the same texts: as soon as one of them has no binary file with a patch
    boundary in its path, and the other may be any list; or, whatever the paths hold, as soon as no name in one
    goes on from a name in the other with ` b/`.
  */
  lemma {:induction false} SameArtifactIffSameFiles(tracked: string, one: seq<File>, two: seq<File>)
    requires (forall i | 0 <= i < |one| :: IsOnePiece(one[i])) || NoNameLeads(one, two)
    ensures Artifact(tracked, one) == Artifact(tracked, two) <==>
      && |one| == |two|
      && (forall i | 0 <= i < |one| :: one[i].path == two[i].path && IsBinary(one[i]) == IsBinary(two[i]))
      && (forall i | 0 <= i < |one| && !IsBinary(one[i]) :: one[i] == two[i])
  {
    hide Artifact, IsBinary, IsOnePiece, NoNameLeads, Text.Join, Body, Patch;
    if Artifact(tracked, one) == Artifact(tracked, two) {
      WithoutTracked(tracked, one);
      WithoutTracked(tracked, two);
      if one != [] && two != [] {
        var skip := |tracked| + if tracked == "" then 0 else 1;
        assert Artifact("", one) == Artifact(tracked, one)[skip..];
        assert Artifact("", two) == Artifact(tracked, two)[skip..];
        ArtifactOfPatches(one);
        ArtifactOfPatches(two);
        ArtifactIsBodies(one);
        ArtifactIsBodies(two);
        SameMiddle(DIFF_A, Text.Join(Bodies(one), BOUNDARY), Text.Join(Bodies(two), BOUNDARY), NEWLINE);
        if NoNameLeads(one, two) {
          SameBodiesByName(one, two);
        } else {
          SameBodies(one, two);
        }
        ToldApart(one, two);
      }
    }
    if |one| == |two| && (forall i | 0 <= i < |one| :: one[i].path == two[i].path && IsBinary(one[i]) == IsBinary(two[i]))
       && (forall i | 0 <= i < |one| && !IsBinary(one[i]) :: one[i] == two[i]) {
      forall i | 0 <= i < |one| ensures Patches(one)[i] == Patches(two)[i] {
        SamePatch(one[i], two[i]);
      }
      assert Patches(one) == Patches(two);
      ArtifactDependsOnPatches(tracked, one, two);
    }
  }

  lemma SameMiddle(front: string, x: string, y: string, back: string)
    requires front + x + back == front + y + back
    ensures x == y
  {
    assert |x| == |y|;
    assert x == (front + x + back)[|front|..|front| + |x|] && y == (front + y + back)[|front|..|front| + |y|];
  }

  lemma ArtifactOfPatches(files: seq<File>)
    ensures Artifact("", files) == Text.Join(Patches(files), NEWLINE)
  {
    hide Text.Join, Patch, NonEmpty;
    NoPatchIsDropped(files, "");
    assert [] + Patches(files) == Patches(files);
  }

  lemma ArtifactDependsOnPatches(tracked: string, one: seq<File>, two: seq<File>)
    requires Patches(one) == Patches(two)
    ensures Artifact(tracked, one) == Artifact(tracked, two)
  {
  }
}
