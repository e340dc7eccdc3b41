/**
  Block-guards of a project's context file (src/packs/project_context.ts), given their meaning by the
  invocation query they compile to: a guard fires on a command exactly when the command invokes it.
*/
module ProjectGuards {
  import opened Wrappers
  import opened Text
  import opened ShellLexer
  import opened ShellLaws
  import opened ShellQuery

  datatype PackageManager = Npm | Yarn | Pnpm | Bun

  /** Declaration order of the verb table. */
  const MANAGERS := [Npm, Yarn, Pnpm, Bun]

  function ManagerName(m: PackageManager): string {
    match m
    case Npm => "npm"
    case Yarn => "yarn"
    case Pnpm => "pnpm"
    case Bun => "bun"
  }

  /** Each manager's install verbs. */
  function InstallVerbs(m: PackageManager): seq<string> {
    match m
    case Npm => ["install", "i", "ci", "add"]
    case Yarn => ["add", "install"]
    case Pnpm => ["add", "install", "i"]
    case Bun => ["add", "install", "i"]
  }

  /** What a guard that the author wrote in full blocks; it may be anything. */
  type Rule = string -> bool

  /** An authored guard is passed on untouched; the other two kinds detect an invocation. */
  datatype Guard = Detect(query: InvokeQuery) | Authored(rule: Rule)

  datatype Frontmatter = Frontmatter(
    packageManager: Option<PackageManager>, forbid: seq<string>, rules: seq<Rule>)

  ghost predicate Fires(g: Guard, command: string) {
    match g
    case Detect(query) => Invokes(command, query)
    case Authored(rule) => rule(command)
  }

  ghost predicate Blocks(guards: seq<Guard>, command: string) {
    exists g | g in guards :: Fires(g, command)
  }

  function Query(program: string, subcommand: Option<string>): InvokeQuery {
    InvokeQuery(program, subcommand, None, None)
  }

  // ---------------------------------------------------------------------------------------------
  // Forbidden commands
  // ---------------------------------------------------------------------------------------------

  predicate SpaceFree(s: string) {
    forall i | 0 <= i < |s| :: !IsSpace(s[i])
  }

  /** `word` is what has been read of the current word. */
  function WordsFrom(s: string, word: string): (words: seq<string>)
    requires SpaceFree(word)
    ensures forall i | 0 <= i < |words| :: words[i] != "" && SpaceFree(words[i])
    decreases |s|
  {
    var pending := if word == "" then [] else [word];
    if s == "" then pending
    else if IsSpace(s[0]) then pending + WordsFrom(s[1..], "")
    else WordsFrom(s[1..], word + [s[0]])
  }

  /** `command.trim().split(/\s+/)`: a blank command still yields one, empty, token. */
  function SplitWords(command: string): (words: seq<string>)
    ensures words != [] && forall i | 0 <= i < |words| :: SpaceFree(words[i])
  {
    var words := WordsFrom(command, "");
    if words == [] then [""] else words
  }

  /** The first word of `words` that is not a flag. */
  function FirstPositional(words: seq<string>): (r: Option<string>)
    ensures r.Some? ==> exists k | 0 <= k < |words| ::
        words[k] == r.value && !IsDash(words[k]) && forall i | 0 <= i < k :: IsDash(words[i])
    ensures r.None? ==> forall i | 0 <= i < |words| :: IsDash(words[i])
  {
    if words == [] then None
    else if !IsDash(words[0]) then Some(words[0])
    else
      var r := FirstPositional(words[1..]);
      assert forall i | 1 <= i < |words| :: words[i] == words[1..][i - 1];
      assert forall k | 0 <= k < |words| - 1 :: words[1..][k] == words[k + 1];
      r
  }

  function ForbidToGuard(command: string): Guard {
    var tokens := SplitWords(command);
    Detect(Query(tokens[0], FirstPositional(tokens[1..])))
  }

  // ---------------------------------------------------------------------------------------------
  // The union of the three surfaces
  // ---------------------------------------------------------------------------------------------

  function VerbGuards(m: PackageManager): (guards: seq<Guard>)
    ensures |guards| == |InstallVerbs(m)|
    ensures forall k | 0 <= k < |guards| :: guards[k] == Detect(Query(ManagerName(m), Some(InstallVerbs(m)[k])))
  {
    seq(|InstallVerbs(m)|, k requires 0 <= k < |InstallVerbs(m)| =>
      Detect(Query(ManagerName(m), Some(InstallVerbs(m)[k]))))
  }

  /** The guards against every listed manager but the declared one, in table order. */
  function ManagerGuards(declared: PackageManager, managers: seq<PackageManager>): seq<Guard> {
    if managers == [] then []
    else
      var m := managers[|managers| - 1];
      ManagerGuards(declared, managers[..|managers| - 1]) + if m == declared then [] else VerbGuards(m)
  }

  /** The three surfaces, one after the other. */
  function Guards(fm: Frontmatter): seq<Guard> {
    (if fm.packageManager.Some? then ManagerGuards(fm.packageManager.value, MANAGERS) else [])
    + seq(|fm.forbid|, i requires 0 <= i < |fm.forbid| => ForbidToGuard(fm.forbid[i]))
    + seq(|fm.rules|, i requires 0 <= i < |fm.rules| => Authored(fm.rules[i]))
  }

  lemma NextManager(declared: PackageManager, managers: seq<PackageManager>, m: nat)
    requires m < |managers|
    ensures ManagerGuards(declared, managers[..0]) == []
    ensures ManagerGuards(declared, managers[..m + 1]) ==
            ManagerGuards(declared, managers[..m]) + if managers[m] == declared then [] else VerbGuards(managers[m])
  {
    assert managers[..m + 1][..m] == managers[..m];
  }

  method SettingsToGuards(fm: Frontmatter) returns (guards: seq<Guard>)
    ensures guards == Guards(fm)
  {
    hide ManagerGuards, ForbidToGuard, InstallVerbs, ManagerName;
    guards := [];
    if fm.packageManager.Some? {
      var pm := fm.packageManager.value;
      NextManager(pm, MANAGERS, 0);
      for m := 0 to |MANAGERS|
        invariant guards == ManagerGuards(pm, MANAGERS[..m])
      {
        var other := MANAGERS[m];
        NextManager(pm, MANAGERS, m);
        if other == pm { continue; }
        var verbs := InstallVerbs(other);
        for v := 0 to |verbs|
          invariant guards == ManagerGuards(pm, MANAGERS[..m]) + VerbGuards(other)[..v]
        {
          guards := guards + [Detect(Query(ManagerName(other), Some(verbs[v])))];
        }
      }
      assert MANAGERS[..|MANAGERS|] == MANAGERS;
    }
    ghost var managers := guards;
    for i := 0 to |fm.forbid|
      invariant guards == managers + seq(i, k requires 0 <= k < i => ForbidToGuard(fm.forbid[k]))
    {
      guards := guards + [ForbidToGuard(fm.forbid[i])];
    }
    guards := guards + seq(|fm.rules|, i requires 0 <= i < |fm.rules| => Authored(fm.rules[i]));
  }

  // ---------------------------------------------------------------------------------------------
  // What the guards block
  // ---------------------------------------------------------------------------------------------

  /** The segment runs an install verb of a manager that is not the declared one. */
  ghost predicate UsesOtherManager(argv: seq<string>, declared: PackageManager) {
    && argv != []
    && exists m: PackageManager :: m != declared && Basename(argv[0]) == ManagerName(m)
         && exists k | 1 <= k < |argv| :: IsSubcommandAt(argv, k) && argv[k] in InstallVerbs(m)
  }

  lemma {:induction false} InManagerGuards(g: Guard, declared: PackageManager, managers: seq<PackageManager>)
    ensures g in ManagerGuards(declared, managers) <==>
            exists m | m in managers :: m != declared && g in VerbGuards(m)
    decreases |managers|
  {
    if managers != [] {
      var front, m := managers[..|managers| - 1], managers[|managers| - 1];
      InManagerGuards(g, declared, front);
      assert managers == front + [m];
    }
  }

  lemma VerbGuardFires(argv: seq<string>, m: PackageManager)
    ensures (exists g | g in VerbGuards(m) :: SegmentInvokes(argv, g.query)) <==>
            (argv != [] && Basename(argv[0]) == ManagerName(m)
             && exists k | 1 <= k < |argv| :: IsSubcommandAt(argv, k) && argv[k] in InstallVerbs(m))
  {
    if exists k | 1 <= k < |argv| :: IsSubcommandAt(argv, k) && argv[k] in InstallVerbs(m) {
      var k :| 1 <= k < |argv| && IsSubcommandAt(argv, k) && argv[k] in InstallVerbs(m);
      var v :| 0 <= v < |InstallVerbs(m)| && InstallVerbs(m)[v] == argv[k];
      assert VerbGuards(m)[v] in VerbGuards(m);
    }
  }

  /**
    Declaring a package manager blocks exactly the commands with some segment that runs another
    manager's install verb: a quoted mention never fires, and no real use slips through.
  */
  lemma {:induction false} ManagerGuardsBlockExactly(declared: PackageManager, command: string)
    ensures Blocks(ManagerGuards(declared, MANAGERS), command) <==>
            exists i | 0 <= i < |Tokenize(command)| :: UsesOtherManager(Tokenize(command)[i], declared)
  {
    hide ManagerGuards, SegmentInvokes, IsSubcommandAt, Tokenize, Basename, InstallVerbs, ManagerName;
    var guards, segments := ManagerGuards(declared, MANAGERS), Tokenize(command);
    forall m: PackageManager ensures m in MANAGERS {
      assert MANAGERS[if m.Npm? then 0 else if m.Yarn? then 1 else if m.Pnpm? then 2 else 3] == m;
    }
    if Blocks(guards, command) {
      var g :| g in guards && Fires(g, command);
      InManagerGuards(g, declared, MANAGERS);
      var m :| m in MANAGERS && m != declared && g in VerbGuards(m);
      var i :| 0 <= i < |segments| && SegmentInvokes(segments[i], g.query);
      VerbGuardFires(segments[i], m);
      assert UsesOtherManager(segments[i], declared);
    }
    if exists i | 0 <= i < |segments| :: UsesOtherManager(segments[i], declared) {
      var i :| 0 <= i < |segments| && UsesOtherManager(segments[i], declared);
      var argv := segments[i];
      var m: PackageManager :| m != declared && Basename(argv[0]) == ManagerName(m)
        && exists k | 1 <= k < |argv| :: IsSubcommandAt(argv, k) && argv[k] in InstallVerbs(m);
      VerbGuardFires(argv, m);
      var g :| g in VerbGuards(m) && SegmentInvokes(argv, g.query);
      InManagerGuards(g, declared, MANAGERS);
      assert Fires(g, command);
    }
  }

  /** The guards of all three surfaces block what the declared manager, some forbidden entry or some rule blocks. */
  lemma {:induction false} SettingsBlock(fm: Frontmatter, command: string)
    ensures Blocks(Guards(fm), command) <==>
        || (fm.packageManager.Some? && Blocks(ManagerGuards(fm.packageManager.value, MANAGERS), command))
        || (exists i | 0 <= i < |fm.forbid| :: Fires(ForbidToGuard(fm.forbid[i]), command))
        || (exists i | 0 <= i < |fm.rules| :: fm.rules[i](command))
  {
    hide ManagerGuards, ForbidToGuard, Fires;
    var managers := if fm.packageManager.Some? then ManagerGuards(fm.packageManager.value, MANAGERS) else [];
    var forbidden := seq(|fm.forbid|, i requires 0 <= i < |fm.forbid| => ForbidToGuard(fm.forbid[i]));
    var authored := seq(|fm.rules|, i requires 0 <= i < |fm.rules| => Authored(fm.rules[i]));
    assert Guards(fm) == managers + forbidden + authored;
    BlockedByOneOf(managers + forbidden, authored, command);
    BlockedByOneOf(managers, forbidden, command);
    forall i | 0 <= i < |fm.rules| ensures Fires(authored[i], command) <==> fm.rules[i](command) {
      AuthoredFires(fm.rules[i], command);
    }
    BlockedAt(forbidden, command);
    BlockedAt(authored, command);
    assert forall i | 0 <= i < |fm.forbid| :: forbidden[i] == ForbidToGuard(fm.forbid[i]);
    assert forall i | 0 <= i < |fm.rules| :: Fires(authored[i], command) <==> fm.rules[i](command);
  }

  lemma AuthoredFires(rule: Rule, command: string)
    ensures Fires(Authored(rule), command) <==> rule(command)
  {
  }

  lemma BlockedAt(guards: seq<Guard>, command: string)
    ensures Blocks(guards, command) <==> exists i | 0 <= i < |guards| :: Fires(guards[i], command)
  {
    hide Fires;
    if i :| 0 <= i < |guards| && Fires(guards[i], command) {
      assert guards[i] in guards;
    }
  }

  lemma BlockedByOneOf(a: seq<Guard>, b: seq<Guard>, command: string)
    ensures Blocks(a + b, command) <==> Blocks(a, command) || Blocks(b, command)
  {
    hide Fires;
  }

  /** The command line that spells out a forbidden entry: its program and, if any, its subcommand. */
  function Spelled(command: string): seq<string> {
    var tokens := SplitWords(command);
    var sub := FirstPositional(tokens[1..]);
    if sub.Some? then [tokens[0], sub.value] else [tokens[0]]
  }

  /**
    A forbidden entry can block something only when its program is a bare name. The query is compared
    with the base name of the program that runs, so an entry such as `/usr/bin/git push` is inert.
  */
  lemma {:induction false} ForbidCanFireIff(entry: string)
    ensures '/' in SplitWords(entry)[0] ==> forall command :: !Fires(ForbidToGuard(entry), command)
    ensures |PrintSegment(Spelled(entry))| <= MAX_LEN ==>
      ((exists command :: Fires(ForbidToGuard(entry), command)) <==> '/' !in SplitWords(entry)[0])
  {
    hide Tokenize, PrintSegment;
    var g := ForbidToGuard(entry);
    var argv := Spelled(entry);
    if '/' !in argv[0] && |PrintSegment(argv)| <= MAX_LEN {
      assert argv[1..1] == [];
      assert |argv| == 2 ==> IsSubcommandAt(argv, 1);
      assert SegmentInvokes(argv, g.query);
      assert PrintScript([argv], []) == PrintSegment(argv);
      InvokesPrinted([argv], [], g.query);
      assert Fires(g, PrintSegment(argv));
    }
  }

  /** Words that are all flags: their options pair up unless an odd run of `-C`/`-c` ends them. */
  function TrailingValueOptions(flags: seq<string>): nat {
    if flags == [] || !TakesValue(flags[|flags| - 1]) then 0
    else 1 + TrailingValueOptions(flags[..|flags| - 1])
  }

  lemma {:induction false} FlagsAreOptionRunIff(flags: seq<string>)
    requires forall i | 0 <= i < |flags| :: IsDash(flags[i])
    ensures IsOptionRun(flags) <==> TrailingValueOptions(flags) % 2 == 0
    decreases |flags|
  {
    if flags != [] {
      var n := if TakesValue(flags[0]) then 2 else 1;
      if n <= |flags| {
        FlagsAreOptionRunIff(flags[n..]);
        TrailingAfterFront(flags[..n], flags[n..]);
        assert flags == flags[..n] + flags[n..];
      } else {
        assert flags[..0] == [];
        assert TrailingValueOptions(flags) == 1 + TrailingValueOptions(flags[..0]);
      }
    }
  }

  lemma {:induction false} TrailingAfterFront(front: seq<string>, rest: seq<string>)
    ensures TrailingValueOptions(front + rest) ==
            if TrailingValueOptions(rest) == |rest| then |rest| + TrailingValueOptions(front)
            else TrailingValueOptions(rest)
    ensures TrailingValueOptions(rest) <= |rest|
    decreases |rest|
  {
    if rest == [] {
      assert front + rest == front;
    } else {
      var k := |rest| - 1;
      TrailingAfterFront(front, rest[..k]);
      assert (front + rest)[..|front| + k] == front + rest[..k];
    }
  }

  /**
    An entry that is itself a plain command (its words are its only segment) with a bare program blocks
    itself as soon as an even run of `-C`/`-c` stands before its first positional. After an odd run the
    scanner takes that positional for the value of the option, and the guard asks for a subcommand the
    command does not have unless a later word repeats it.
  */
  lemma {:induction false} ForbidBlocksItselfIff(entry: string, k: nat)
    requires Tokenize(entry) == [SplitWords(entry)] && '/' !in SplitWords(entry)[0]
    requires 1 <= k < |SplitWords(entry)| && !IsDash(SplitWords(entry)[k])
    requires forall i | 1 <= i < k :: IsDash(SplitWords(entry)[i])
    ensures Fires(ForbidToGuard(entry), entry) <==>
        || TrailingValueOptions(SplitWords(entry)[1..k]) % 2 == 0
        || exists j | k < j < |SplitWords(entry)| ::
             IsSubcommandAt(SplitWords(entry), j) && SplitWords(entry)[j] == SplitWords(entry)[k]
  {
    hide Tokenize, SplitWords;
    var words := SplitWords(entry);
    assert FirstPositional(words[1..]) == Some(words[k]) by { FirstPositionalAt(words[1..], k - 1); }
    FlagsAreOptionRunIff(words[1..k]);
    assert ForbidToGuard(entry).query.subcommand == Some(words[k]);
    assert Fires(ForbidToGuard(entry), entry) <==> SegmentInvokes(words, ForbidToGuard(entry).query) by {
      assert Tokenize(entry)[0] == words;
    }
    forall j | 1 <= j < k ensures !IsSubcommandAt(words, j) {}
  }

  lemma {:induction false} FirstPositionalAt(words: seq<string>, k: nat)
    requires k < |words| && !IsDash(words[k]) && forall i | 0 <= i < k :: IsDash(words[i])
    ensures FirstPositional(words) == Some(words[k])
  {
    if k > 0 { FirstPositionalAt(words[1..], k - 1); }
  }

  // ---------------------------------------------------------------------------------------------
  // Two entries that miss what they spell
  // ---------------------------------------------------------------------------------------------

  lemma {:induction false} WordsAfter(s: string, t: string, word: string)
    requires SpaceFree(s) && SpaceFree(word)
    ensures SpaceFree(word + s) && WordsFrom(s + t, word) == WordsFrom(t, word + s)
    decreases |s|
  {
    if s == "" {
      assert s + t == t && word + s == word;
    } else {
      assert (s + t)[0] == s[0] && (s + t)[1..] == s[1..] + t;
      WordsAfter(s[1..], t, word + [s[0]]);
      assert (word + [s[0]]) + s[1..] == word + s;
    }
  }

  /** Plain words with one space between them are split into those words. */
  lemma {:induction false} PlainWordsSplit(words: seq<string>)
    requires words != [] && forall i | 0 <= i < |words| :: IsPlainWord(words[i])
    ensures WordsFrom(Join(words, " "), "") == words && SplitWords(Join(words, " ")) == words
    decreases |words|
  {
    var w := words[0];
    if |words| == 1 {
      WordsAfter(w, "", "");
      assert w + "" == w && "" + w == w;
    } else {
      var rest := Join(words[1..], " ");
      assert Join(words, " ") == w + (" " + rest);
      WordsAfter(w, " " + rest, "");
      assert "" + w == w && (" " + rest)[0] == ' ' && (" " + rest)[1..] == rest;
      PlainWordsSplit(words[1..]);
      assert words == [w] + words[1..];
    }
  }

  /** A program written with its path is never what the tokenizer finds running. */
  lemma SlashedEntryIsInert()
    ensures forall command :: !Fires(ForbidToGuard("/usr/bin/git push"), command)
  {
    hide SplitWords, Fires, ForbidToGuard;
    var words := ["/usr/bin/git", "push"];
    assert Join(["push"], " ") == "push" && words[1..] == ["push"];
    assert Join(words, " ") == "/usr/bin/git push";
    assert IsPlainWord(words[0]) && IsPlainWord(words[1]);
    PlainWordsSplit(words);
    assert words[0][0] == '/';
    ForbidCanFireIff("/usr/bin/git push");
  }

  const DASH_C := ["git", "-C", "push"]

  lemma DashCWords()
    ensures Join(DASH_C, " ") == "git -C push"
    ensures forall i | 0 <= i < 3 :: IsPlainWord(DASH_C[i])
  {
    assert DASH_C[1..] == ["-C", "push"] && DASH_C[1..][1..] == ["push"];
    assert Join(DASH_C[1..], " ") == "-C" + " " + Join(["push"], " ") == "-C push";
  }

  lemma OneTrailingOption()
    ensures DASH_C[1..2] == ["-C"] && TrailingValueOptions(["-C"]) == 1
  {
    assert ["-C"][..0] == [];
  }

  /** After `-C` the guard asks for a subcommand that the scanner takes for the value of the option. */
  lemma DashCEntryMissesItself()
    ensures !Fires(ForbidToGuard("git -C push"), "git -C push")
  {
    hide SplitWords, Fires, ForbidToGuard, Tokenize, Join, IsPlainWord, TrailingValueOptions, WordsFrom, IsSubcommandAt;
    DashCWords();
    OneTrailingOption();
    PlainWordsSplit(DASH_C);
    PlainCommand(DASH_C);
    assert '/' !in DASH_C[0] && DASH_C[1][0] == '-' && DASH_C[2][0] == 'p';
    ForbidBlocksItselfIff("git -C push", 2);
  }
}
