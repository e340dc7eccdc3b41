/**
  The working-tree diff that an audit reads (src/functions/staged_diff.ts): git's own diff followed by one
  patch for each untracked file. The patches are written so that they can be read back: `Decode` is a reader,
  and every list of files survives writing and reading.
*/
module StagedDiff {
  import opened Wrappers
  import Decimals
  import Json
  import opened StableSort
  import Text

  const NEWLINE := "\n"
  const DIFF_A := "diff --git a/"
  const NEW_FILE := "new file mode 100644"
  const NEW_BINARY := "new binary file b/"
  const DEV_NULL := "--- /dev/null"
  const PLUS_B := "+++ b/"
  const HUNK := "@@ -0,0 +1,"
  const HUNK_END := " @@"
  const NO_NEWLINE := "\\ No newline at end of file"

  /** Paths that hold white space, a quote or a backslash are quoted. */
  predicate NeedsQuoting(path: string) {
    exists i | 0 <= i < |path| :: Text.IsSpace(path[i]) || path[i] == '"' || path[i] == '\\'
  }

  function Label(path: string): string {
    if NeedsQuoting(path) then Json.Stringify(Json.Str(path)) else path
  }

  /** The lines of a text, without the empty one that a final newline leaves. */
  function LinesOf(content: string): seq<string> {
    if content == "" then []
    else
      var lines := Text.Split(content, '\n');
      if content[|content| - 1] == '\n' then lines[..|lines| - 1] else lines
  }

  predicate IsTerminated(content: string) {
    content == "" || content[|content| - 1] == '\n'
  }

  function Plus(lines: seq<string>): (r: seq<string>)
    ensures |r| == |lines|
  {
    seq(|lines|, i requires 0 <= i < |lines| => "+" + lines[i])
  }

  function Header(title: string, count: nat): seq<string> {
    [DIFF_A + title + " b/" + title, NEW_FILE, DEV_NULL, PLUS_B + title, HUNK + Json.Decimal(count) + HUNK_END]
  }

  function UntrackedPatch(path: string, content: string): string {
    var lines := LinesOf(content);
    Text.Join(
      Header(Label(path), |lines|) + [Text.Join(Plus(lines), NEWLINE)]
      + (if IsTerminated(content) then [] else [NO_NEWLINE]) + [""],
      NEWLINE)
  }

  /** An untracked file; git calls it binary when it holds a zero. */
  datatype File = File(path: string, content: string)

  predicate IsBinary(f: File) {
    '\0' in f.content
  }

  function BinaryPatch(path: string): string {
    DIFF_A + path + " b/" + path + "\n" + NEW_BINARY + path + "\n"
  }

  function Patch(f: File): string {
    if IsBinary(f) then BinaryPatch(f.path) else UntrackedPatch(f.path, f.content)
  }

  function Patches(files: seq<File>): (r: seq<string>)
    ensures |r| == |files|
  {
    seq(|files|, i requires 0 <= i < |files| => Patch(files[i]))
  }

  function NonEmpty(patches: seq<string>): seq<string> {
    if patches == [] then []
    else NonEmpty(patches[..|patches| - 1]) + if patches[|patches| - 1] == "" then [] else [patches[|patches| - 1]]
  }

  function Artifact(tracked: string, files: seq<File>): string {
    Text.Join(NonEmpty([tracked] + Patches(files)), NEWLINE)
  }

  /** The UTF-16 code units of a character: one, or a pair of surrogates. */
  function UnitsOf(c: char): seq<int> {
    var n := c as int;
    if n < 0x10000 then [n] else [0xD800 + (n - 0x10000) / 0x400, 0xDC00 + (n - 0x10000) % 0x400]
  }

  function CodeUnits(s: string): seq<int> {
    if s == "" then [] else UnitsOf(s[0]) + CodeUnits(s[1..])
  }

  predicate UnitsLess(a: seq<int>, b: seq<int>) {
    if b == [] then false
    else if a == [] then true
    else a[0] < b[0] || (a[0] == b[0] && UnitsLess(a[1..], b[1..]))
  }

  /** The default order of strings, by UTF-16 code units: not that of the characters. */
  predicate CodeUnitLess(a: string, b: string) {
    UnitsLess(CodeUnits(a), CodeUnits(b))
  }

  function NamesIn(listed: seq<string>): seq<string> {
    if listed == [] then []
    else NamesIn(listed[..|listed| - 1]) + if listed[|listed| - 1] == "" then [] else [listed[|listed| - 1]]
  }

  function FilesAt(paths: seq<string>, read: string -> string): (r: seq<File>)
    ensures |r| == |paths|
  {
    seq(|paths|, i requires 0 <= i < |paths| => File(paths[i], read(paths[i])))
  }

  /** `listed` is what git lists, NUL-separated; `read` is what reading a file gives. */
  method ReadGitWorkingTreeDiff(tracked: string, listed: string, read: string -> string) returns (diff: string)
    ensures diff == Artifact(tracked, FilesAt(Sort(NamesIn(Text.Split(listed, '\0')), CodeUnitLess), read))
  {
    hide NonEmpty, NamesIn, Sort, Patch;
    var paths := Sort(NamesIn(Text.Split(listed, '\0')), CodeUnitLess);
    var patches := [tracked];
    for i := 0 to |paths|
      invariant patches == [tracked] + Patches(FilesAt(paths[..i], read))
    {
      var file := File(paths[i], read(paths[i]));
      ghost var before := patches;
      if IsBinary(file) {
        patches := patches + [BinaryPatch(file.path)];
      } else {
        patches := patches + [UntrackedPatch(file.path, file.content)];
      }
      OneMorePatch(paths, i, read);
      PatchIs(file);
    }
    assert paths[..|paths|] == paths;
    diff := Text.Join(NonEmpty(patches), NEWLINE);
  }

  lemma OneMorePatch(paths: seq<string>, i: nat, read: string -> string)
    requires i < |paths|
    ensures Patches(FilesAt(paths[..i + 1], read)) ==
            Patches(FilesAt(paths[..i], read)) + [Patch(File(paths[i], read(paths[i])))]
  {
    hide Patch;
  }

  lemma PatchIs(f: File)
    ensures Patch(f) == if IsBinary(f) then BinaryPatch(f.path) else UntrackedPatch(f.path, f.content)
  {
  }

  // ---------------------------------------------------------------------------------------------
  // The order of the listing does not matter
  // ---------------------------------------------------------------------------------------------

  lemma {:induction false} UnitsOrder(a: seq<int>, b: seq<int>, c: seq<int>)
    ensures UnitsLess(a, b) ==> !UnitsLess(b, a)
    ensures !UnitsLess(b, a) && !UnitsLess(c, b) ==> !UnitsLess(c, a)
    ensures !UnitsLess(a, b) && !UnitsLess(b, a) ==> a == b
    decreases |a| + |b| + |c|
  {
    if a != [] && b != [] {
      if c != [] {
        UnitsOrder(a[1..], b[1..], c[1..]);
      } else {
        UnitsOrder(a[1..], b[1..], c);
      }
      assert a == [a[0]] + a[1..] && b == [b[0]] + b[1..];
    }
  }

  /** The first unit tells whether a second belongs to it, so the units determine the text. */
  lemma {:induction false} CodeUnitsTellTheText(a: string, b: string)
    requires CodeUnits(a) == CodeUnits(b)
    ensures a == b
    decreases |a|
  {
    if a != "" && b != "" {
      var u, v := UnitsOf(a[0]), UnitsOf(b[0]);
      assert CodeUnits(a)[0] == u[0] && CodeUnits(b)[0] == v[0];
      SameLead(a[0], b[0]);
      assert CodeUnits(a)[..|u|] == u && CodeUnits(b)[..|v|] == v;
      SameUnits(a[0], b[0]);
      assert CodeUnits(a)[|u|..] == CodeUnits(a[1..]) && CodeUnits(b)[|v|..] == CodeUnits(b[1..]);
      CodeUnitsTellTheText(a[1..], b[1..]);
      assert a == [a[0]] + a[1..] && b == [b[0]] + b[1..];
    }
  }

  lemma SameLead(c: char, d: char)
    requires UnitsOf(c)[0] == UnitsOf(d)[0]
    ensures |UnitsOf(c)| == |UnitsOf(d)|
  {
  }

  lemma SameUnits(c: char, d: char)
    requires UnitsOf(c) == UnitsOf(d)
    ensures c == d
  {
    var m, n := c as int, d as int;
    if m >= 0x10000 && n >= 0x10000 {
      assert (m - 0x10000) / 0x400 == (n - 0x10000) / 0x400 && (m - 0x10000) % 0x400 == (n - 0x10000) % 0x400;
    }
  }

  lemma CodeUnitLessIsOrder()
    ensures IsOrder(CodeUnitLess)
    ensures IsTotal(CodeUnitLess)
  {
    hide CodeUnits, UnitsLess;
    forall a: string, b: string
      ensures (CodeUnitLess(a, b) ==> !CodeUnitLess(b, a)) && (!CodeUnitLess(a, b) && !CodeUnitLess(b, a) ==> a == b)
    {
      UnitsOrder(CodeUnits(a), CodeUnits(b), CodeUnits(a));
      if CodeUnits(a) == CodeUnits(b) {
        CodeUnitsTellTheText(a, b);
      }
    }
    forall a: string, b: string, c: string
      ensures !CodeUnitLess(b, a) && !CodeUnitLess(c, b) ==> !CodeUnitLess(c, a)
    {
      UnitsOrder(CodeUnits(a), CodeUnits(b), CodeUnits(c));
    }
  }

  /** The diff is deterministic: in whatever order git lists the untracked files, it comes out the same. */
  lemma ListingOrderDoesNotMatter(tracked: string, one: seq<string>, two: seq<string>, read: string -> string)
    requires multiset(one) == multiset(two)
    ensures Artifact(tracked, FilesAt(Sort(one, CodeUnitLess), read)) ==
            Artifact(tracked, FilesAt(Sort(two, CodeUnitLess), read))
  {
    hide Artifact, CodeUnitLess;
    CodeUnitLessIsOrder();
    SortSorts(one, CodeUnitLess);
    SortSorts(two, CodeUnitLess);
    SortedIsUnique(Sort(one, CodeUnitLess), Sort(two, CodeUnitLess), CodeUnitLess);
  }

  // ---------------------------------------------------------------------------------------------
  // The lines of a patch
  // ---------------------------------------------------------------------------------------------

  lemma {:induction false} EscapesHoldNoNewline(s: string)
    ensures '\n' !in Json.StringTail(s)
    decreases |s|
  {
    hide Json.Escape;
    if s != "" {
      EscapesHoldNoNewline(s[1..]);
      EscapeHoldsNoNewline(s[0]);
    }
  }

  lemma EscapeHoldsNoNewline(c: char)
    ensures '\n' !in Json.Escape(c)
  {
  }

  lemma LabelIsOneLine(path: string)
    ensures '\n' !in Label(path)
  {
    EscapesHoldNoNewline(path);
    if '\n' in path {
      var i :| 0 <= i < |path| && path[i] == '\n';
      assert Text.IsSpace(path[i]);
    }
  }

  /** Different paths have different labels. */
  lemma LabelTellsThePath(p: string, q: string)
    requires Label(p) == Label(q)
    ensures p == q
  {
    QuotedIfNeeded(p);
    QuotedIfNeeded(q);
    if NeedsQuoting(p) {
      Json.StringifyInjective(Json.Str(p), Json.Str(q));
    }
  }

  lemma QuotedIfNeeded(path: string)
    ensures NeedsQuoting(path) <==> Label(path) != "" && Label(path)[0] == '"'
  {
  }

  /** The lines of a text give it back. */
  lemma LinesGiveText(content: string)
    ensures IsTerminated(content) && content != "" ==> Text.Join(LinesOf(content), NEWLINE) + NEWLINE == content
    ensures !IsTerminated(content) ==> Text.Join(LinesOf(content), NEWLINE) == content
    ensures content != "" ==> LinesOf(content) != []
    ensures forall i | 0 <= i < |LinesOf(content)| :: '\n' !in LinesOf(content)[i]
  {
    Text.JoinSplit(content, '\n');
    if content != "" && IsTerminated(content) {
      var front, lines := content[..|content| - 1], Text.Split(content, '\n');
      assert content == front + "\n";
      SplitTerminated(front);
      Text.JoinSplit(front, '\n');
      assert lines[..|lines| - 1] == Text.Split(front, '\n');
    }
  }

  lemma {:induction false} SplitTerminated(front: string)
    ensures Text.Split(front + "\n", '\n') == Text.Split(front, '\n') + [""]
  {
    var parts := Text.Split(front, '\n');
    Text.JoinSplit(front, '\n');
    Text.JoinOfTwo(parts, [""], NEWLINE);
    Text.SplitJoin(parts + [""], '\n');
    assert front + NEWLINE + "" == front + "\n";
  }

  /** The patch of an untracked text, line by line, without the empty line at its end. */
  function TextPatchLines(path: string, content: string): seq<string> {
    var lines := LinesOf(content);
    Header(Label(path), |lines|) + (if lines == [] then [""] else Plus(lines))
    + (if IsTerminated(content) then [] else [NO_NEWLINE])
  }

  function PatchLines(f: File): seq<string> {
    if IsBinary(f) then [DIFF_A + f.path + " b/" + f.path, NEW_BINARY + f.path]
    else TextPatchLines(f.path, f.content)
  }

  /** Joining an inner join is joining all the lines. */
  lemma JoinNested(a: seq<string>, b: seq<string>, c: seq<string>)
    requires a != [] && b != [] && c != []
    ensures Text.Join(a + [Text.Join(b, NEWLINE)] + c, NEWLINE) == Text.Join(a + b + c, NEWLINE)
  {
    var inner := [Text.Join(b, NEWLINE)];
    Text.JoinOfTwo(a + inner, c, NEWLINE);
    Text.JoinOfTwo(a, inner, NEWLINE);
    Text.JoinOfTwo(a + b, c, NEWLINE);
    Text.JoinOfTwo(a, b, NEWLINE);
  }

  lemma UntrackedPatchLines(path: string, content: string)
    ensures UntrackedPatch(path, content) == Text.Join(TextPatchLines(path, content) + [""], NEWLINE)
  {
    hide Text.Join;
    var lines := LinesOf(content);
    var header, body := Header(Label(path), |lines|), Plus(lines);
    var ending := (if IsTerminated(content) then [] else [NO_NEWLINE]) + [""];
    if lines == [] {
      EmptyJoin();
      assert body == [];
      assert header + [""] + ending == TextPatchLines(path, content) + [""];
      assert header + [Text.Join(body, NEWLINE)] + ending == header + [""] + ending;
    } else {
      JoinNested(header, body, ending);
      assert header + body + ending == TextPatchLines(path, content) + [""];
    }
    assert header + [Text.Join(body, NEWLINE)] + ending ==
           header + [Text.Join(body, NEWLINE)] + (if IsTerminated(content) then [] else [NO_NEWLINE]) + [""];
  }

  lemma EmptyJoin()
    ensures Text.Join([], NEWLINE) == ""
  {
  }

  lemma PatchIsItsLines(f: File)
    ensures Patch(f) == Text.Join(PatchLines(f) + [""], NEWLINE)
  {
    if IsBinary(f) {
      var one, two := DIFF_A + f.path + " b/" + f.path, NEW_BINARY + f.path;
      assert PatchLines(f) + [""] == [one, two, ""];
      Text.JoinOfTwo([one], [two, ""], NEWLINE);
      Text.JoinOfTwo([two], [""], NEWLINE);
      assert [one] + [two, ""] == [one, two, ""] && [two] + [""] == [two, ""];
    } else {
      UntrackedPatchLines(f.path, f.content);
    }
  }

  /** Files whose patch can be read: a binary file's path is written as it is, so it must be one line. */
  predicate IsReadable(f: File) {
    IsBinary(f) ==> '\n' !in f.path
  }

  lemma LinesAreLines(f: File)
    requires IsReadable(f)
    ensures forall i | 0 <= i < |PatchLines(f)| :: '\n' !in PatchLines(f)[i]
  {
    hide TextPatchLines;
    if !IsBinary(f) {
      TextLinesAreLines(f.path, f.content);
    }
  }

  lemma CountIsOneLine(n: nat)
    ensures '\n' !in HUNK + Json.Decimal(n) + HUNK_END
  {
    Json.DecimalDigits(n);
    assert !Json.IsDigit('\n');
  }

  /**
    The shape of an untracked text's patch: five header lines, then as many `+` lines as the hunk header
    counts, or one empty line when it counts none, then the marker exactly when the text is not empty and its
    last line is not ended.
  */
  lemma PatchShape(path: string, content: string)
    ensures var n, lines := |LinesOf(content)|, Text.Split(UntrackedPatch(path, content), '\n');
      && |lines| == 6 + (if n == 0 then 1 else n) + (if IsTerminated(content) then 0 else 1)
      && lines[..5] == Header(Label(path), n)
      && (forall i | 5 <= i < 5 + n :: lines[i] == "+" + LinesOf(content)[i - 5])
      && (n == 0 <==> content == "") && (n == 0 ==> lines[5] == "")
      && lines[5 + (if n == 0 then 1 else n)..] ==
         if content != "" && content[|content| - 1] != '\n' then [NO_NEWLINE, ""] else [""]
  {
    hide Text.Split, Text.Join;
    var n, all := |LinesOf(content)|, TextPatchLines(path, content) + [""];
    UntrackedPatchLines(path, content);
    TextLinesAreLines(path, content);
    Text.SplitJoin(all, '\n');
    LinesGiveText(content);
    assert Text.Split(UntrackedPatch(path, content), '\n') == all;
    assert forall i | 5 <= i < 5 + n :: all[i] == Plus(LinesOf(content))[i - 5];
  }

  lemma TextLinesAreLines(path: string, content: string)
    ensures forall i | 0 <= i < |TextPatchLines(path, content)| :: '\n' !in TextPatchLines(path, content)[i]
  {
    hide LinesOf, Label, Text.Join;
    LabelIsOneLine(path);
    LinesGiveText(content);
    CountIsOneLine(|LinesOf(content)|);
    assert forall i | 0 <= i < |LinesOf(content)| :: '\n' !in Plus(LinesOf(content))[i];
    assert forall i | 0 <= i < 5 :: '\n' !in Header(Label(path), |LinesOf(content)|)[i];
  }

  // ---------------------------------------------------------------------------------------------
  // A reader
  // ---------------------------------------------------------------------------------------------

  /** What a patch tells: a file's label and text, or the path of a binary file. */
  datatype Told = TextFile(title: string, content: string) | BinaryFile(path: string)

  function Tell(f: File): Told {
    if IsBinary(f) then BinaryFile(f.path) else TextFile(Label(f.path), f.content)
  }

  function Dropped(lines: seq<string>): seq<string> {
    seq(|lines|, i requires 0 <= i < |lines| => if lines[i] == "" then "" else lines[i][1..])
  }

  /** Reads one patch off the front: the file and the lines that follow its last, empty one. */
  function DecodeOne(lines: seq<string>): (r: Option<(Told, seq<string>)>)
    ensures r.Some? ==> |r.value.1| < |lines|
  {
    if |lines| >= 3 && NEW_BINARY <= lines[1] then Some((BinaryFile(lines[1][|NEW_BINARY|..]), lines[3..]))
    else if |lines| < 7 || !(PLUS_B <= lines[3]) || !(HUNK <= lines[4]) then None
    else
      var title, count := lines[3][|PLUS_B|..], lines[4][|HUNK|..];
      var n := Decimals.Number(count[..Decimals.DigitRun(count)]);
      if n == 0 then Some((TextFile(title, ""), lines[7..]))
      else if |lines| < 6 + n then None
      else
        var text := Text.Join(Dropped(lines[5..5 + n]), NEWLINE);
        if lines[5 + n] != NO_NEWLINE then Some((TextFile(title, text + NEWLINE), lines[6 + n..]))
        else if |lines| < 7 + n then None
        else Some((TextFile(title, text), lines[7 + n..]))
  }

  function DecodeLines(lines: seq<string>): Option<seq<Told>>
    decreases |lines|
  {
    if lines == [] then Some([])
    else
      match DecodeOne(lines)
      case None => None
      case Some(first) =>
        match DecodeLines(first.1)
        case None => None
        case Some(rest) => Some([first.0] + rest)
  }

  /** Reads the patches of an artifact that holds untracked files only. */
  function Decode(artifact: string): Option<seq<Told>> {
    if artifact == "" then Some([]) else DecodeLines(Text.Split(artifact, '\n'))
  }

  lemma DroppedPlus(lines: seq<string>)
    ensures Dropped(Plus(lines)) == lines
  {
  }

  lemma CountIsRead(n: nat)
    ensures var line := HUNK + Json.Decimal(n) + HUNK_END;
      var count := line[|HUNK|..];
      HUNK <= line && Decimals.Number(count[..Decimals.DigitRun(count)]) == n
  {
    hide Decimals.Number, Decimals.DigitRun, Json.Decimal;
    Decimals.DigitsOf(n, HUNK_END);
    assert (HUNK + Json.Decimal(n) + HUNK_END)[|HUNK|..] == Json.Decimal(n) + HUNK_END;
  }

  lemma BinaryIsRead(f: File, rest: seq<string>)
    requires IsBinary(f)
    ensures DecodeOne(PatchLines(f) + [""] + rest) == Some((Tell(f), rest))
  {
    var lines := PatchLines(f) + [""] + rest;
    assert lines[1] == NEW_BINARY + f.path && lines[3..] == rest;
    assert lines[1][|NEW_BINARY|..] == f.path;
  }

  /** How the reader goes on once it has read a text's header. */
  lemma HunkIsRead(lines: seq<string>, n: nat)
    requires |lines| >= 7 + n && !(NEW_BINARY <= lines[1]) && PLUS_B <= lines[3]
    requires lines[4] == HUNK + Json.Decimal(n) + HUNK_END
    ensures n == 0 ==> DecodeOne(lines) == Some((TextFile(lines[3][|PLUS_B|..], ""), lines[7..]))
    ensures n > 0 ==>
      var text := Text.Join(Dropped(lines[5..5 + n]), NEWLINE);
      DecodeOne(lines) ==
      if lines[5 + n] == NO_NEWLINE then Some((TextFile(lines[3][|PLUS_B|..], text), lines[7 + n..]))
      else Some((TextFile(lines[3][|PLUS_B|..], text + NEWLINE), lines[6 + n..]))
  {
    hide Text.Join, Decimals.Number, Decimals.DigitRun, Json.Decimal, Dropped;
    CountIsRead(n);
  }

  lemma TextIsRead(path: string, content: string, rest: seq<string>)
    ensures DecodeOne(TextPatchLines(path, content) + [""] + rest) == Some((TextFile(Label(path), content), rest))
  {
    hide Text.Join, LinesOf, Label, DecodeOne, Json.Decimal;
    var plain, n := LinesOf(content), |LinesOf(content)|;
    var patch := TextPatchLines(path, content);
    var lines := patch + [""] + rest;
    LinesGiveText(content);
    NoLines();
    HeaderIsRead(Label(path), n);
    assert forall i | 0 <= i < 5 :: lines[i] == Header(Label(path), n)[i];
    if n == 0 {
      HunkIsRead(lines, n);
      assert lines[7..] == rest;
    } else {
      DroppedPlus(plain);
      assert forall i | 0 <= i < n :: lines[5 + i] == Plus(plain)[i];
      assert lines[5..5 + n] == Plus(plain);
      if IsTerminated(content) && |rest| == 0 {
        ShortHunkIsRead(lines, n);
      } else {
        HunkIsRead(lines, n);
      }
      if IsTerminated(content) {
        assert lines[5 + n] == "" && lines[6 + n..] == rest;
      } else {
        assert lines[5 + n] == NO_NEWLINE && lines[7 + n..] == rest;
      }
    }
  }

  /** The same at the end of the artifact. */
  lemma ShortHunkIsRead(lines: seq<string>, n: nat)
    requires n > 0 && |lines| == 6 + n && !(NEW_BINARY <= lines[1]) && PLUS_B <= lines[3]
    requires lines[4] == HUNK + Json.Decimal(n) + HUNK_END && lines[5 + n] == ""
    ensures DecodeOne(lines) ==
      Some((TextFile(lines[3][|PLUS_B|..], Text.Join(Dropped(lines[5..5 + n]), NEWLINE) + NEWLINE), []))
  {
    hide Text.Join, Decimals.Number, Decimals.DigitRun, Json.Decimal, Dropped;
    CountIsRead(n);
  }

  lemma HeaderIsRead(title: string, n: nat)
    ensures var h := Header(title, n);
      && !(NEW_BINARY <= h[1]) && PLUS_B <= h[3] && h[3][|PLUS_B|..] == title
      && h[4] == HUNK + Json.Decimal(n) + HUNK_END
  {
    assert NEW_FILE[4] != NEW_BINARY[4];
  }

  lemma NoLines()
    ensures LinesOf("") == []
  {
  }

  lemma PatchIsRead(f: File, rest: seq<string>)
    ensures DecodeOne(PatchLines(f) + [""] + rest) == Some((Tell(f), rest))
  {
    if IsBinary(f) {
      BinaryIsRead(f, rest);
    } else {
      TextIsRead(f.path, f.content, rest);
    }
  }

  // ---------------------------------------------------------------------------------------------
  // Writing and reading
  // ---------------------------------------------------------------------------------------------

  function AllLines(files: seq<File>): seq<string> {
    if files == [] then [] else PatchLines(files[0]) + [""] + AllLines(files[1..])
  }

  function TellAll(files: seq<File>): seq<Told> {
    if files == [] then [] else [Tell(files[0])] + TellAll(files[1..])
  }

  lemma {:induction false} AllAreRead(files: seq<File>)
    ensures DecodeLines(AllLines(files)) == Some(TellAll(files))
    decreases |files|
  {
    hide DecodeOne, PatchLines;
    if files != [] {
      PatchIsRead(files[0], AllLines(files[1..]));
      AllAreRead(files[1..]);
    }
  }

  lemma {:induction false} AllLinesAreLines(files: seq<File>)
    requires forall i | 0 <= i < |files| :: IsReadable(files[i])
    ensures forall i | 0 <= i < |AllLines(files)| :: '\n' !in AllLines(files)[i]
    decreases |files|
  {
    hide PatchLines, IsReadable;
    if files != [] {
      LinesAreLines(files[0]);
      AllLinesAreLines(files[1..]);
    }
  }

  lemma PatchIsNotEmpty(f: File)
    ensures Patch(f) != ""
  {
    if !IsBinary(f) {
      UntrackedPatchLines(f.path, f.content);
      var lines := TextPatchLines(f.path, f.content) + [""];
      assert lines[0] == DIFF_A + Label(f.path) + " b/" + Label(f.path);
    }
  }

  lemma {:induction false} NoPatchIsDropped(files: seq<File>, tracked: string)
    ensures NonEmpty([tracked] + Patches(files)) == (if tracked == "" then [] else [tracked]) + Patches(files)
    decreases |files|
  {
    hide Patch;
    var all := [tracked] + Patches(files);
    if files == [] {
      assert all == [tracked] && all[..0] == [];
    } else {
      var n := |files| - 1;
      NoPatchIsDropped(files[..n], tracked);
      assert all[..|all| - 1] == [tracked] + Patches(files[..n]);
      PatchIsNotEmpty(files[n]);
      assert all[|all| - 1] == Patch(files[n]);
      assert Patches(files) == Patches(files[..n]) + [Patch(files[n])];
    }
  }

  lemma {:induction false} JoinedPatches(files: seq<File>)
    requires files != []
    ensures Text.Join(Patches(files), NEWLINE) == Text.Join(AllLines(files), NEWLINE)
    decreases |files|
  {
    hide Text.Join, Patch, PatchLines;
    var first, rest := Patches(files[..1]), Patches(files[1..]);
    assert Patches(files) == [Patch(files[0])] + rest;
    PatchIsItsLines(files[0]);
    var lines := PatchLines(files[0]) + [""];
    JoinOfOne(Patch(files[0]));
    if |files| == 1 {
      assert AllLines(files[1..]) == [] && lines + [] == lines;
      assert Patches(files) == [Patch(files[0])];
    } else {
      JoinedPatches(files[1..]);
      Text.JoinOfTwo([Patch(files[0])], rest, NEWLINE);
      assert AllLines(files[1..]) != [];
      Text.JoinOfTwo(lines, AllLines(files[1..]), NEWLINE);
    }
  }

  lemma JoinOfOne(s: string)
    ensures Text.Join([s], NEWLINE) == s
  {
  }

  lemma ReadableIsDecoded(files: seq<File>)
    requires forall i | 0 <= i < |files| :: IsReadable(files[i])
    ensures Decode(Artifact("", files)) == Some(TellAll(files))
  {
    hide Text.Join, Text.Split, Patch, PatchLines, DecodeLines, IsReadable, NonEmpty;
    NoPatchIsDropped(files, "");
    assert [] + Patches(files) == Patches(files);
    if files == [] {
      EmptyJoin();
      assert Patches(files) == [];
    } else {
      JoinedPatches(files);
      AllLinesAreLines(files);
      assert AllLines(files) != [];
      Text.SplitJoin(AllLines(files), '\n');
      AllAreRead(files);
      JoinIsNotEmpty(files);
    }
  }

  /** Read from lines, no path of a binary file holds a newline. */
  lemma {:induction false} DecodedPathsAreLines(lines: seq<string>)
    requires forall i | 0 <= i < |lines| :: '\n' !in lines[i]
    requires DecodeLines(lines).Some?
    ensures forall i | 0 <= i < |DecodeLines(lines).value| && DecodeLines(lines).value[i].BinaryFile? ::
      '\n' !in DecodeLines(lines).value[i].path
    decreases |lines|
  {
    if lines != [] {
      var first := DecodeOne(lines).value;
      DecodedIsALine(lines);
      hide DecodeOne;
      DecodedPathsAreLines(first.1);
    }
  }

  lemma DecodedIsALine(lines: seq<string>)
    requires forall i | 0 <= i < |lines| :: '\n' !in lines[i]
    requires DecodeOne(lines).Some?
    ensures DecodeOne(lines).value.0.BinaryFile? ==> '\n' !in DecodeOne(lines).value.0.path
    ensures forall i | 0 <= i < |DecodeOne(lines).value.1| :: '\n' !in DecodeOne(lines).value.1[i]
  {
    hide Text.Join, Decimals.Number, Decimals.DigitRun;
  }

  lemma {:induction false} ToldAt(files: seq<File>, i: nat)
    requires i < |files|
    ensures |TellAll(files)| == |files| && TellAll(files)[i] == Tell(files[i])
    decreases |files|
  {
    hide Tell;
    if i > 0 {
      ToldAt(files[1..], i - 1);
    } else if |files| > 1 {
      ToldAt(files[1..], 0);
    }
  }

  /**
    Round trip: reading the patches of untracked files, empty ones, unterminated ones, and ones that hold text
    that looks like a patch, gives back every label, text and order, exactly when no binary file's path, which is
    written as it is, holds a newline.
  */
  lemma {:induction false} DecodeArtifactIff(files: seq<File>)
    ensures Decode(Artifact("", files)) == Some(TellAll(files)) <==>
            forall i | 0 <= i < |files| :: IsReadable(files[i])
  {
    hide Artifact, DecodeLines, Text.Split, Tell, IsReadable;
    if forall i | 0 <= i < |files| :: IsReadable(files[i]) {
      ReadableIsDecoded(files);
    } else if Decode(Artifact("", files)) == Some(TellAll(files)) {
      var i :| 0 <= i < |files| && !IsReadable(files[i]);
      ToldAt(files, i);
      DecodedPathsAreLines(Text.Split(Artifact("", files), '\n'));
      UnreadableIsTold(files[i]);
    }
  }

  lemma UnreadableIsTold(f: File)
    requires !IsReadable(f)
    ensures Tell(f).BinaryFile? && '\n' in Tell(f).path
  {
  }

  /** A binary file whose path has two lines is not read back. */
  lemma TwoLinePathIsLost()
    ensures var f := File("a\nb", "\0"); Decode(Artifact("", [f])) != Some(TellAll([f]))
  {
    var f := File("a\nb", "\0");
    assert f.content[0] == '\0' && f.path[1] == '\n';
    assert !IsReadable([f][0]);
    DecodeArtifactIff([f]);
  }

  lemma JoinIsNotEmpty(files: seq<File>)
    requires files != []
    ensures Text.Join(Patches(files), NEWLINE) != ""
  {
    hide Patch;
    PatchIsNotEmpty(files[0]);
    assert Patches(files)[0] == Patch(files[0]);
  }

  lemma {:induction false} ToldApart(one: seq<File>, two: seq<File>)
    requires TellAll(one) == TellAll(two)
    ensures |one| == |two|
    ensures forall i | 0 <= i < |one| :: one[i].path == two[i].path && IsBinary(one[i]) == IsBinary(two[i])
    ensures forall i | 0 <= i < |one| && !IsBinary(one[i]) :: one[i] == two[i]
    decreases |one|
  {
    hide Label;
    if one != [] && two != [] {
      assert Tell(one[0]) == TellAll(one)[0] == TellAll(two)[0] == Tell(two[0]);
      assert TellAll(one)[1..] == TellAll(one[1..]) && TellAll(two)[1..] == TellAll(two[1..]);
      ToldApart(one[1..], two[1..]);
      if !IsBinary(one[0]) {
        LabelTellsThePath(one[0].path, two[0].path);
      }
      forall i | 0 < i < |one|
        ensures one[i].path == two[i].path && IsBinary(one[i]) == IsBinary(two[i]) && (!IsBinary(one[i]) ==> one[i] == two[i])
      {
        assert one[i] == one[1..][i - 1] && two[i] == two[1..][i - 1];
      }
    }
  }

  lemma WithoutTracked(tracked: string, files: seq<File>)
    ensures Artifact(tracked, files) ==
            tracked + (if tracked == "" || files == [] then "" else NEWLINE) + Artifact("", files)
    ensures Artifact("", files) == "" <==> files == []
  {
    hide Text.Join, Patch, NonEmpty;
    NoPatchIsDropped(files, tracked);
    NoPatchIsDropped(files, "");
    assert [] + Patches(files) == Patches(files);
    EmptyJoin();
    JoinOfOne(tracked);
    if files == [] {
      assert [tracked] + Patches(files) == [tracked] && Patches(files) == [];
    } else {
      JoinIsNotEmpty(files);
      Text.JoinOfTwo([tracked], Patches(files), NEWLINE);
    }
  }
}
