/** `commandInvokes` (src/functions/shell_parse.ts): does some real segment of a command invoke a program? */
module ShellQuery {
  import opened Wrappers
  import opened Text
  import opened ShellLexer
  import opened ShellLaws

  datatype InvokeQuery = InvokeQuery(
    program: string,
    subcommand: Option<string>,
    flagAny: Option<seq<string>>,
    argAny: Option<seq<string>>)

  predicate IsDash(a: string) {
    StartsWith(a, "-")
  }

  /** The global options whose value is the next word. */
  predicate TakesValue(a: string) {
    a == "-C" || a == "-c"
  }

  function Basename(p: string): string {
    AfterLast(p, '/')
  }

  /** The branch a push positional refers to: after the last `:`, without a leading `+`, after the last `/`. */
  function RefTarget(a: string): (r: string)
    ensures '/' !in r && ':' !in r
  {
    var dst := AfterLast(a, ':');
    AfterLast(if StartsWith(dst, "+") then dst[1..] else dst, '/')
  }

  predicate IsLetter(c: char) {
    'A' <= c <= 'Z' || 'a' <= c <= 'z'
  }

  predicate IsShortFlag(flag: string) {
    |flag| == 2 && flag[0] == '-' && IsLetter(flag[1])
  }

  predicate IsShortCluster(a: string) {
    |a| >= 2 && a[0] == '-' && forall i | 1 <= i < |a| :: IsLetter(a[i])
  }

  predicate FlagMatches(a: string, flag: string) {
    if StartsWith(flag, "--") then a == flag || StartsWith(a, flag + "=")
    else if IsShortFlag(flag) then a == flag || (IsShortCluster(a) && flag[1] in a)
    else a == flag
  }

  method FlagPresent(args: seq<string>, flag: string) returns (present: bool)
    ensures present <==> exists a | a in args :: FlagMatches(a, flag)
  {
    for i := 0 to |args|
      invariant forall k | 0 <= k < i :: !FlagMatches(args[k], flag)
    {
      if FlagMatches(args[i], flag) { return true; }
    }
    return false;
  }

  /** Leading global options: each is a dash word, and `-C`/`-c` carry the next word along whatever it is. */
  predicate IsOptionRun(words: seq<string>) {
    if words == [] then true
    else if TakesValue(words[0]) then |words| >= 2 && IsOptionRun(words[2..])
    else IsDash(words[0]) && IsOptionRun(words[1..])
  }

  /** Word `k` is the subcommand: everything between the program and it is options. */
  predicate IsSubcommandAt(argv: seq<string>, k: nat) {
    1 <= k < |argv| && IsOptionRun(argv[1..k]) && !IsDash(argv[k])
  }

  predicate RestMatches(rest: seq<string>, q: InvokeQuery) {
    && (q.flagAny.Some? ==> exists f | f in q.flagAny.value :: exists a | a in rest :: FlagMatches(a, f))
    && (q.argAny.Some? ==>
          exists v | v in q.argAny.value :: exists a | a in rest :: !IsDash(a) && RefTarget(a) == v)
  }

  /** One segment is an invocation the query asks for. */
  predicate SegmentInvokes(argv: seq<string>, q: InvokeQuery) {
    && argv != []
    && Basename(argv[0]) == q.program
    && (q.subcommand.None?
        || exists k | 1 <= k < |argv| ::
             IsSubcommandAt(argv, k) && argv[k] == q.subcommand.value && RestMatches(argv[k + 1..], q))
  }

  predicate Invokes(command: string, q: InvokeQuery) {
    var segments := Tokenize(command);
    exists i | 0 <= i < |segments| :: SegmentInvokes(segments[i], q)
  }

  lemma {:induction false} OptionRunAppend(a: seq<string>, b: seq<string>)
    requires IsOptionRun(a) && IsOptionRun(b)
    ensures IsOptionRun(a + b)
    decreases |a|
  {
    if a == [] {
      assert a + b == b;
    } else if TakesValue(a[0]) {
      OptionRunAppend(a[2..], b);
      assert (a + b)[2..] == a[2..] + b;
    } else {
      OptionRunAppend(a[1..], b);
      assert (a + b)[1..] == a[1..] + b;
    }
  }

  /** Two option runs from the same place cannot stop at different words unless the shorter stops at a dash word. */
  lemma {:induction false} OptionRunMaximal(words: seq<string>, i: nat, j: nat)
    requires i < j <= |words|
    requires IsOptionRun(words[..i]) && IsOptionRun(words[..j])
    ensures IsDash(words[i])
    decreases i
  {
    if i == 0 {
      assert words[..j][0] == words[0];
    } else {
      var n := if TakesValue(words[0]) then 2 else 1;
      assert words[..i][0] == words[0] && words[..j][0] == words[0];
      assert words[..i][n..] == words[n..][..i - n] && words[..j][n..] == words[n..][..j - n];
      OptionRunMaximal(words[n..], i - n, j - n);
    }
  }

  /** A segment has at most one subcommand. */
  lemma SubcommandUnique(argv: seq<string>, k: nat, k': nat)
    requires IsSubcommandAt(argv, k) && IsSubcommandAt(argv, k')
    ensures k == k'
  {
    if k < k' {
      assert argv[1..][..k - 1] == argv[1..k] && argv[1..][..k' - 1] == argv[1..k'];
      OptionRunMaximal(argv[1..], k - 1, k' - 1);
    } else if k' < k {
      assert argv[1..][..k - 1] == argv[1..k] && argv[1..][..k' - 1] == argv[1..k'];
      OptionRunMaximal(argv[1..], k' - 1, k - 1);
    }
  }

  lemma OptionRunStep(argv: seq<string>, j: nat)
    requires 1 <= j < |argv| && IsOptionRun(argv[1..j]) && IsDash(argv[j])
    ensures TakesValue(argv[j]) && j + 2 <= |argv| ==> IsOptionRun(argv[1..j + 2])
    ensures !TakesValue(argv[j]) ==> IsOptionRun(argv[1..j + 1])
  {
    if TakesValue(argv[j]) {
      if j + 2 <= |argv| {
        assert argv[j..j + 2][2..] == [];
        OptionRunAppend(argv[1..j], argv[j..j + 2]);
        assert argv[1..j] + argv[j..j + 2] == argv[1..j + 2];
      }
    } else {
      assert [argv[j]][1..] == [];
      OptionRunAppend(argv[1..j], [argv[j]]);
      assert argv[1..j] + [argv[j]] == argv[1..j + 1];
    }
  }

  /** A last word that takes a value and has none leaves no subcommand. */
  lemma DanglingOptionHasNoSubcommand(argv: seq<string>, k: nat)
    requires |argv| >= 2 && IsOptionRun(argv[1..|argv| - 1]) && TakesValue(argv[|argv| - 1])
    ensures !IsSubcommandAt(argv, k)
  {
    var j := |argv| - 1;
    if IsSubcommandAt(argv, k) {
      assert argv[1..][..k - 1] == argv[1..k] && argv[1..][..j - 1] == argv[1..j];
      if k < j { OptionRunMaximal(argv[1..], k - 1, j - 1); }
    }
  }

  /** Skips leading options two or one at a time, exactly to the subcommand when there is one. */
  method FindSubcommand(argv: seq<string>) returns (k: nat)
    requires argv != []
    ensures k < |argv| ==> IsSubcommandAt(argv, k)
    ensures k >= |argv| ==> forall i: nat :: !IsSubcommandAt(argv, i)
  {
    var j := 1;
    while j < |argv| && IsDash(argv[j])
      invariant 1 <= j
      invariant j <= |argv| ==> IsOptionRun(argv[1..j])
      invariant j > |argv| ==> forall i: nat :: !IsSubcommandAt(argv, i)
      decreases |argv| - j
    {
      OptionRunStep(argv, j);
      if TakesValue(argv[j]) && j + 2 > |argv| {
        forall i: nat ensures !IsSubcommandAt(argv, i) { DanglingOptionHasNoSubcommand(argv, i); }
      }
      j := j + if TakesValue(argv[j]) then 2 else 1;
    }
    k := j;
    if k == |argv| {
      forall i: nat ensures !IsSubcommandAt(argv, i) {
        if IsSubcommandAt(argv, i) {
          assert argv[1..][..i - 1] == argv[1..i] && argv[1..][..k - 1] == argv[1..k];
          OptionRunMaximal(argv[1..], i - 1, k - 1);
        }
      }
    }
  }

  /** Is some listed value the target of a positional? */
  method TargetPresent(rest: seq<string>, values: seq<string>) returns (present: bool)
    ensures present <==> exists v | v in values :: exists a | a in rest :: !IsDash(a) && RefTarget(a) == v
  {
    var targets: seq<string> := [];
    for i := 0 to |rest|
      invariant forall v :: v in targets <==> exists a | a in rest[..i] :: !IsDash(a) && RefTarget(a) == v
    {
      assert rest[..i + 1] == rest[..i] + [rest[i]];
      if !IsDash(rest[i]) { targets := targets + [RefTarget(rest[i])]; }
    }
    assert rest[..|rest|] == rest;
    present := exists v | v in values :: v in targets;
  }

  method AnyFlagPresent(rest: seq<string>, flags: seq<string>) returns (present: bool)
    ensures present <==> exists f | f in flags :: exists a | a in rest :: FlagMatches(a, f)
  {
    for i := 0 to |flags|
      invariant forall k | 0 <= k < i :: !exists a | a in rest :: FlagMatches(a, flags[k])
    {
      var here := FlagPresent(rest, flags[i]);
      if here {
        assert flags[i] in flags;
        return true;
      }
    }
    return false;
  }

  method CommandInvokes(command: string, q: InvokeQuery) returns (invokes: bool)
    ensures invokes <==> Invokes(command, q)
  {
    var segments := TokenizeShell(command);
    for i := 0 to |segments|
      invariant forall k | 0 <= k < i :: !SegmentInvokes(segments[k], q)
    {
      var argv := segments[i];
      if argv == [] || Basename(argv[0]) != q.program { continue; }
      if q.subcommand.None? { return true; }
      var j := FindSubcommand(argv);
      if j >= |argv| || argv[j] != q.subcommand.value {
        if j < |argv| { OnlySubcommand(argv, j); }
        continue;
      }
      OnlySubcommand(argv, j);
      var rest := argv[j + 1..];
      if q.flagAny.Some? {
        var flag := AnyFlagPresent(rest, q.flagAny.value);
        if !flag { continue; }
      }
      if q.argAny.Some? {
        var target := TargetPresent(rest, q.argAny.value);
        if !target { continue; }
      }
      return true;
    }
    return false;
  }

  lemma OnlySubcommand(argv: seq<string>, j: nat)
    requires IsSubcommandAt(argv, j)
    ensures forall k | 1 <= k < |argv| && IsSubcommandAt(argv, k) :: k == j
  {
    forall k | 1 <= k < |argv| && IsSubcommandAt(argv, k) ensures k == j { SubcommandUnique(argv, k, j); }
  }

  // ---------------------------------------------------------------------------------------------
  // Laws
  // ---------------------------------------------------------------------------------------------

  /** A compound command invokes exactly what one of its parts invokes. */
  lemma {:induction false} InvokesJoined(c1: string, sep: string, c2: string, q: InvokeQuery)
    requires IsSeparator(sep) && EndsPlain(c1)
    requires |c1 + sep + c2| <= MAX_LEN
    ensures Invokes(c1 + sep + c2, q) <==> Invokes(c1, q) || Invokes(c2, q)
  {
    hide SegmentInvokes, Tokenize;
    TokenizeJoined(c1, sep, c2);
    var s1, s2, s := Tokenize(c1), Tokenize(c2), Tokenize(c1 + sep + c2);
    if Invokes(c1, q) {
      var i :| 0 <= i < |s1| && SegmentInvokes(s1[i], q);
      assert SegmentInvokes(s[i], q);
    }
    if Invokes(c2, q) {
      var i :| 0 <= i < |s2| && SegmentInvokes(s2[i], q);
      assert SegmentInvokes(s[|s1| + i], q);
    }
  }

  /** Quoting neither hides a real invocation nor creates one: only the words of a segment count. */
  lemma {:induction false} InvokesPrinted(segments: seq<seq<string>>, seps: seq<string>, q: InvokeQuery)
    requires AllNonEmpty(segments) && AllSeparators(seps)
    requires segments != [] ==> |seps| == |segments| - 1
    requires |PrintScript(segments, seps)| <= MAX_LEN
    ensures Invokes(PrintScript(segments, seps), q) <==>
            exists i | 0 <= i < |segments| :: SegmentInvokes(segments[i], q)
  {
    PrintThenTokenize(segments, seps);
  }

  /** Text that mentions a program, passed as a quoted argument of another, never counts as invoking it. */
  lemma {:induction false} QuotedMentionIsNoInvocation(program: string, args: seq<string>, q: InvokeQuery)
    requires |PrintSegment([program] + args)| <= MAX_LEN
    requires Basename(program) != q.program
    ensures !Invokes(PrintSegment([program] + args), q)
  {
    var segments := [[program] + args];
    assert PrintScript(segments, []) == PrintSegment([program] + args);
    InvokesPrinted(segments, [], q);
  }
}
