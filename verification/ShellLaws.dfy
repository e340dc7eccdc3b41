/**
  What the tokenizer guarantees: commands joined by a control operator tokenize separately, and
  printing words with single quotes then tokenizing gives the words back, whatever they contain.
*/
module ShellLaws {
  import opened ShellLexer
  import Text

  // ---------------------------------------------------------------------------------------------
  // Composition
  // ---------------------------------------------------------------------------------------------

  predicate IsSeparator(sep: string) {
    sep in {"&&", "||", "|", ";", "&", "\n"}
  }

  /** The command ends outside quotes and not on a backslash that still waits for its character. */
  predicate EndsPlain(command: string) {
    FeedAll(START, command).mode.Plain?
  }

  function Prepend(done: seq<seq<string>>, l: Lexer): Lexer {
    l.(segments := done + l.segments)
  }

  lemma FeedAfter(done: seq<seq<string>>, l: Lexer, c: char)
    ensures Feed(Prepend(done, l), c) == Prepend(done, Feed(l, c))
  {
    assert forall x: seq<string> :: (done + l.segments) + [x] == done + (l.segments + [x]);
  }

  /** Segments already collected never influence the rest of the scan. */
  lemma {:induction false} FeedAllAfter(done: seq<seq<string>>, l: Lexer, s: string)
    ensures FeedAll(Prepend(done, l), s) == Prepend(done, FeedAll(l, s))
    decreases |s|
  {
    if s != "" {
      hide Feed, Prepend;
      FeedAfter(done, l, s[0]);
      FeedAllAfter(done, Feed(l, s[0]), s[1..]);
    }
  }

  lemma FinishAfterSegments(done: seq<seq<string>>, s: string)
    ensures Finish(FeedAll(START.(segments := done), s)) == done + Finish(FeedAll(START, s))
  {
    hide FeedAll;
    assert Prepend(done, START) == START.(segments := done);
    FeedAllAfter(done, START, s);
    var l := FeedAll(START, s).Settle().EndWord();
    assert (done + l.segments) + [l.argv] == done + (l.segments + [l.argv]);
  }

  lemma SeparatorEndsSegment(l: Lexer, sep: string)
    requires IsSeparator(sep) && l.mode.Plain? && (!l.hasWord ==> l.word == "")
    ensures FeedAll(l, sep) == START.(segments := l.EndSegment().segments)
  {
    assert |sep| == 1 || |sep| == 2;
    assert FeedAll(l, sep) == FeedAll(Feed(l, sep[0]), sep[1..]);
    var m := Feed(l, sep[0]);
    assert m == l.EndSegment();
    if |sep| == 2 {
      assert sep[1..] == [sep[1]];
      assert FeedAll(m, [sep[1]]) == FeedAll(Feed(m, sep[1]), []);
    }
  }

  lemma {:induction false} WordOnlyWhenPresent(l: Lexer, s: string)
    requires !l.hasWord ==> l.word == "" && (l.mode.Plain? || l.mode.PlainEscape?)
    ensures !FeedAll(l, s).hasWord ==> FeedAll(l, s).word == ""
    decreases |s|
  {
    if s != "" {
      WordOnlyWhenPresent(Feed(l, s[0]), s[1..]);
    }
  }

  lemma PlainEndJoins(c1: string, sep: string, c2: string)
    requires IsSeparator(sep) && EndsPlain(c1)
    ensures Finish(FeedAll(START, c1 + sep + c2)) == Finish(FeedAll(START, c1)) + Finish(FeedAll(START, c2))
  {
    hide FeedAll;
    var l := FeedAll(START, c1);
    FeedAllAppend(START, c1 + sep, c2);
    FeedAllAppend(START, c1, sep);
    WordOnlyWhenPresent(START, c1);
    SeparatorEndsSegment(l, sep);
    FinishAfterSegments(l.EndSegment().segments, c2);
  }

  /** What has been read so far fixes that word `a` of segment `k` starts with `w`. */
  predicate Starts(l: Lexer, k: nat, a: nat, w: string) {
    if k < |l.segments| then a < |l.segments[k]| && w <= l.segments[k][a]
    else k == |l.segments| && if a < |l.argv| then w <= l.argv[a] else a == |l.argv| && l.hasWord && w <= l.word
  }

  lemma StartsAfterEnd(l: Lexer, k: nat, a: nat, w: string)
    requires Starts(l, k, a, w)
    ensures Starts(l.EndWord(), k, a, w) && Starts(l.EndSegment(), k, a, w)
    ensures k < |l.EndSegment().segments|
  {
  }

  lemma StartsAfterPush(l: Lexer, k: nat, a: nat, w: string, s: string)
    requires Starts(l, k, a, w)
    ensures Starts(l.Push(s), k, a, w)
  {
  }

  /** Nothing read later takes it back. */
  lemma {:induction false} StartsForGood(l: Lexer, k: nat, a: nat, w: string, s: string)
    requires Starts(l, k, a, w)
    ensures Starts(FeedAll(l, s), k, a, w)
    decreases |s|
  {
    if s != "" {
      StartsAfterFeed(l, k, a, w, s[0]);
      hide Feed, Starts;
      StartsForGood(Feed(l, s[0]), k, a, w, s[1..]);
    }
  }

  lemma StartsAfterFeed(l: Lexer, k: nat, a: nat, w: string, c: char)
    requires Starts(l, k, a, w)
    ensures Starts(Feed(l, c), k, a, w)
  {
    StartsAfterEnd(l, k, a, w);
    StartsAfterPush(l, k, a, w, [c]);
    StartsAfterPush(l, k, a, w, ['\\', c]);
  }

  lemma StartsInTheEnd(l: Lexer, k: nat, a: nat, w: string)
    requires Starts(l, k, a, w)
    ensures k < |Finish(l)| && a < |Finish(l)[k]| && w <= Finish(l)[k][a]
  {
    StartsAfterPush(l, k, a, w, "\\");
    StartsAfterEnd(l.Settle(), k, a, w);
  }

  lemma {:induction false} QuotesHoldAWord(l: Lexer, s: string)
    requires (l.mode.Single? || l.mode.Double? || l.mode.DoubleEscape?) ==> l.hasWord
    ensures var m := FeedAll(l, s); (m.mode.Single? || m.mode.Double? || m.mode.DoubleEscape?) ==> m.hasWord
    decreases |s|
  {
    if s != "" {
      QuotesHoldAWord(Feed(l, s[0]), s[1..]);
    }
  }

  /** Not in plain text, the separator's first character goes into the word that the command alone would end. */
  lemma SeparatorIsSwallowed(l: Lexer, c: char)
    requires IsOperator(c) && !l.mode.Plain?
    requires l.mode.PlainEscape? || l.hasWord
    ensures Starts(Feed(l, c), |l.segments|, |l.argv|, Feed(l, c).word)
    ensures |Finish(l)| == |l.segments| + 1 && |Finish(l)[|l.segments|]| == |l.argv| + 1
    ensures Finish(l)[|l.segments|][|l.argv|] == l.Settle().word && !(Feed(l, c).word <= l.Settle().word)
  {
    var m := l.Settle();
    assert m.EndWord().argv == l.argv + [m.word];
    assert Feed(l, c).word[|Feed(l, c).word| - 1] == c;
  }

  /**
    Joining two commands by a control operator joins their segment lists exactly when the first ends outside
    quotes and not on a backslash that still waits: otherwise its last word goes on into the separator.
  */
  lemma {:induction false} TokenizeJoined(c1: string, sep: string, c2: string)
    requires IsSeparator(sep) && |c1 + sep + c2| <= MAX_LEN
    ensures Tokenize(c1 + sep + c2) == Tokenize(c1) + Tokenize(c2) <==> EndsPlain(c1)
  {
    hide FeedAll, Finish;
    if EndsPlain(c1) {
      PlainEndJoins(c1, sep, c2);
    } else {
      var l := FeedAll(START, c1);
      var k, a, w := |l.segments|, |l.argv|, Feed(l, sep[0]).word;
      QuotesHoldAWord(START, c1);
      SeparatorIsSwallowed(l, sep[0]);
      FeedAllAppend(START, c1, sep + c2);
      assert c1 + sep + c2 == c1 + (sep + c2);
      FeedFirst(l, sep + c2);
      StartsForGood(Feed(l, sep[0]), k, a, w, (sep + c2)[1..]);
      StartsInTheEnd(FeedAll(START, c1 + sep + c2), k, a, w);
      assert (Tokenize(c1) + Tokenize(c2))[k] == Tokenize(c1)[k];
    }
  }

  lemma FeedFirst(l: Lexer, s: string)
    requires s != ""
    ensures FeedAll(l, s) == FeedAll(Feed(l, s[0]), s[1..])
  {
  }

  /** Left inside quotes, a command swallows the separator and what follows it. */
  lemma OpenQuoteSwallowsTheRest()
    ensures !EndsPlain("a'") && Tokenize("a'" + ";" + "b") != Tokenize("a'") + Tokenize("b")
  {
    var l := Feed(Feed(START, 'a'), '\'');
    assert FeedAll(START, "a'") == FeedAll(Feed(START, 'a'), "'") == FeedAll(l, "") == l;
    TokenizeJoined("a'", ";", "b");
  }

  /** Left on a backslash, it takes the separator for a character of its last word. */
  lemma DanglingBackslashTakesTheSeparator()
    ensures !EndsPlain("a\\") && Tokenize("a\\" + ";" + "b") != Tokenize("a\\") + Tokenize("b")
  {
    var l := Feed(Feed(START, 'a'), '\\');
    assert FeedAll(START, "a\\") == FeedAll(Feed(START, 'a'), "\\") == FeedAll(l, "") == l;
    TokenizeJoined("a\\", ";", "b");
  }

  // ---------------------------------------------------------------------------------------------
  // Printing
  // ---------------------------------------------------------------------------------------------

  /** Inside single quotes a quote is written by closing, escaping one, and opening again. */
  function EscapeSingle(w: string): string {
    if w == "" then "" else (if w[0] == '\'' then "'\\''" else [w[0]]) + EscapeSingle(w[1..])
  }

  function QuoteWord(w: string): string {
    "'" + EscapeSingle(w) + "'"
  }

  predicate AllNonEmpty(segments: seq<seq<string>>) {
    forall i | 0 <= i < |segments| :: segments[i] != []
  }

  predicate AllSeparators(seps: seq<string>) {
    forall i | 0 <= i < |seps| :: IsSeparator(seps[i])
  }

  function PrintSegment(argv: seq<string>): string
    requires argv != []
  {
    if |argv| == 1 then QuoteWord(argv[0]) else PrintSegment(argv[..|argv| - 1]) + " " + QuoteWord(argv[|argv| - 1])
  }

  function PrintScript(segments: seq<seq<string>>, seps: seq<string>): string
    requires AllNonEmpty(segments)
    requires segments != [] ==> |seps| == |segments| - 1
  {
    if segments == [] then ""
    else if |segments| == 1 then PrintSegment(segments[0])
    else
      var k := |segments| - 1;
      PrintScript(segments[..k], seps[..k - 1]) + seps[k - 1] + PrintSegment(segments[k])
  }

  lemma FeedOne(l: Lexer, c: char)
    ensures FeedAll(l, [c]) == Feed(l, c)
  {
    assert FeedAll(l, [c]) == FeedAll(Feed(l, c), []);
  }

  lemma QuoteIdiom(l: Lexer)
    requires l.mode.Single? && l.hasWord
    ensures FeedAll(l, "'\\''") == l.Push("'")
  {
    var a := Feed(l, '\'');
    var b := Feed(a, '\\');
    var c := Feed(b, '\'');
    FeedAllAppend(l, "'", "\\''");
    FeedAllAppend(a, "\\", "''");
    FeedAllAppend(b, "'", "'");
    FeedOne(l, '\'');
    FeedOne(a, '\\');
    FeedOne(b, '\'');
    FeedOne(c, '\'');
    assert "'" + "\\''" == "'\\''" && "\\" + "''" == "\\''" && "'" + "'" == "''";
  }

  lemma {:induction false} InsideSingleQuotes(l: Lexer, w: string)
    requires l.mode.Single? && l.hasWord
    ensures FeedAll(l, EscapeSingle(w) + "'") == l.Push(w).(mode := Plain)
    decreases |w|
  {
    if w == "" {
      assert EscapeSingle(w) + "'" == "'";
      FeedOne(l, '\'');
    } else {
      var head := if w[0] == '\'' then "'\\''" else [w[0]];
      assert EscapeSingle(w) + "'" == head + (EscapeSingle(w[1..]) + "'");
      FeedAllAppend(l, head, EscapeSingle(w[1..]) + "'");
      if w[0] == '\'' { QuoteIdiom(l); } else { FeedOne(l, w[0]); }
      InsideSingleQuotes(l.Push([w[0]]), w[1..]);
      assert (l.word + [w[0]]) + w[1..] == l.word + w;
    }
  }

  /** A quoted word is read back verbatim, whatever characters it holds. */
  lemma {:induction false} QuotedWordIsVerbatim(l: Lexer, w: string)
    requires l.mode.Plain?
    ensures FeedAll(l, QuoteWord(w)) == l.Push(w)
  {
    hide FeedAll;
    var q := l.(mode := Single, hasWord := true);
    assert QuoteWord(w) == "'" + (EscapeSingle(w) + "'");
    FeedAllAppend(l, "'", EscapeSingle(w) + "'");
    FeedOne(l, '\'');
    InsideSingleQuotes(q, w);
  }

  /** After the words of a segment: all but the last are collected, the last is pending. */
  function Reading(done: seq<seq<string>>, argv: seq<string>): Lexer
    requires argv != []
  {
    Lexer(Plain, argv[|argv| - 1], true, argv[..|argv| - 1], done)
  }

  lemma BlankEndsWord(l: Lexer)
    requires l.mode.Plain?
    ensures FeedAll(l, " ") == l.EndWord()
  {
    FeedOne(l, ' ');
  }

  lemma {:induction false} SegmentReadsBack(done: seq<seq<string>>, argv: seq<string>)
    requires argv != []
    ensures FeedAll(START.(segments := done), PrintSegment(argv)) == Reading(done, argv)
    decreases |argv|
  {
    hide FeedAll, Feed, QuoteWord, EscapeSingle;
    var k := |argv| - 1;
    var blank := START.(segments := done);
    if k == 0 {
      QuotedWordIsVerbatim(blank, argv[0]);
    } else {
      var front := argv[..k];
      SegmentReadsBack(done, front);
      FeedAllAppend(blank, PrintSegment(front) + " ", QuoteWord(argv[k]));
      FeedAllAppend(blank, PrintSegment(front), " ");
      var l := Reading(done, front);
      BlankEndsWord(l);
      assert front[..k - 1] + [front[k - 1]] == front;
      QuotedWordIsVerbatim(l.EndWord(), argv[k]);
    }
  }

  lemma {:induction false} ScriptReadsBack(segments: seq<seq<string>>, seps: seq<string>)
    requires segments != [] && AllNonEmpty(segments)
    requires |seps| == |segments| - 1 && AllSeparators(seps)
    ensures FeedAll(START, PrintScript(segments, seps)) ==
            Reading(segments[..|segments| - 1], segments[|segments| - 1])
    decreases |segments|
  {
    hide FeedAll;
    var k := |segments| - 1;
    if k == 0 {
      SegmentReadsBack([], segments[0]);
    } else {
      var front := segments[..k];
      var printed := PrintScript(front, seps[..k - 1]);
      ScriptReadsBack(front, seps[..k - 1]);
      FeedAllAppend(START, printed + seps[k - 1], PrintSegment(segments[k]));
      FeedAllAppend(START, printed, seps[k - 1]);
      var l := Reading(front[..k - 1], front[k - 1]);
      SeparatorEndsSegment(l, seps[k - 1]);
      assert front[..k - 1] + [front[k - 1]] == front;
      assert front[k - 1][..|front[k - 1]| - 1] + [front[k - 1][|front[k - 1]| - 1]] == front[k - 1];
      SegmentReadsBack(front, segments[k]);
    }
  }

  /**
    The round trip: any non-empty segments of arbitrary words, including empty words, quotes,
    operators and newlines, survive printing and tokenizing.
  */
  lemma {:induction false} PrintThenTokenize(segments: seq<seq<string>>, seps: seq<string>)
    requires AllNonEmpty(segments)
    requires segments != [] ==> |seps| == |segments| - 1
    requires AllSeparators(seps)
    requires |PrintScript(segments, seps)| <= MAX_LEN
    ensures Tokenize(PrintScript(segments, seps)) == segments
  {
    if segments == [] {
      EmptyFeed(START);
    } else {
      hide FeedAll;
      var k := |segments| - 1;
      ScriptReadsBack(segments, seps);
      assert segments[k][..|segments[k]| - 1] + [segments[k][|segments[k]| - 1]] == segments[k];
      assert segments[..k] + [segments[k]] == segments;
    }
  }

  // ---------------------------------------------------------------------------------------------
  // Plain commands
  // ---------------------------------------------------------------------------------------------

  /** A word that needs no quoting. */
  predicate IsPlainWord(w: string) {
    w != "" && forall i | 0 <= i < |w| ::
      w[i] !in {'\'', '"', '\\'} && !IsOperator(w[i]) && !IsBlank(w[i]) && !Text.IsSpace(w[i])
  }

  lemma {:induction false} PlainWordIsVerbatim(l: Lexer, w: string)
    requires l.mode.Plain? && IsPlainWord(w)
    ensures FeedAll(l, w) == l.Push(w)
    decreases |w|
  {
    var m := l.Push([w[0]]);
    assert Feed(l, w[0]) == m;
    FeedFirst(l, w);
    if |w| > 1 {
      hide Feed, FeedAll;
      PlainWordIsVerbatim(m, w[1..]);
      assert (l.word + [w[0]]) + w[1..] == l.word + w;
    } else {
      EmptyFeed(m);
      assert w == [w[0]] && w[1..] == "";
    }
  }

  lemma {:induction false} PlainWordsRead(words: seq<string>)
    requires words != [] && forall i | 0 <= i < |words| :: IsPlainWord(words[i])
    ensures FeedAll(START, Text.Join(words, " ")) == Reading([], words)
    decreases |words|
  {
    hide FeedAll, IsPlainWord, Text.Join;
    var k := |words| - 1;
    Text.JoinOfOne(words[k], " ");
    assert words == words[..k] + [words[k]];
    if k == 0 {
      PlainWordIsVerbatim(START, words[0]);
    } else {
      var front := words[..k];
      PlainWordsRead(front);
      Text.JoinOfTwo(front, [words[k]], " ");
      FeedAllAppend(START, Text.Join(front, " ") + " ", words[k]);
      FeedAllAppend(START, Text.Join(front, " "), " ");
      BlankEndsWord(Reading([], front));
      assert front[..k - 1] + [front[k - 1]] == front;
      PlainWordIsVerbatim(Reading([], front).EndWord(), words[k]);
    }
  }

  /** A command of plain words is its own only segment. */
  lemma PlainCommand(words: seq<string>)
    requires words != [] && forall i | 0 <= i < |words| :: IsPlainWord(words[i])
    requires |Text.Join(words, " ")| <= MAX_LEN
    ensures Tokenize(Text.Join(words, " ")) == [words]
  {
    hide FeedAll;
    PlainWordsRead(words);
    assert words[..|words| - 1] + [words[|words| - 1]] == words;
  }
}
