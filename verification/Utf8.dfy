/** UTF-8 sizes of text, and the byte-bounded truncation of src/runtime/subagents/supervisor.ts. */
module Utf8 {

  function CharBytes(c: char): (n: nat)
    ensures 1 <= n <= 4
  {
    if c < '\U{80}' then 1 else if c < '\U{800}' then 2 else if c < '\U{10000}' then 3 else 4
  }

  /** `Buffer.byteLength(s, 'utf8')`. */
  function ByteLength(s: string): (n: nat)
    ensures |s| <= n <= 4 * |s|
  {
    if s == "" then 0 else ByteLength(s[..|s| - 1]) + CharBytes(s[|s| - 1])
  }

  lemma {:induction false} ByteLengthAppend(s: string, t: string)
    ensures ByteLength(s + t) == ByteLength(s) + ByteLength(t)
    decreases |t|
  {
    if t == "" {
      assert s + t == s;
    } else {
      var k := |t| - 1;
      assert (s + t)[..|s| + k] == s + t[..k];
      ByteLengthAppend(s, t[..k]);
    }
  }

  lemma {:induction false} AsciiBytes(s: string)
    requires forall i | 0 <= i < |s| :: s[i] < '\U{80}'
    ensures ByteLength(s) == |s|
  {
    if s != "" { AsciiBytes(s[..|s| - 1]); }
  }

  const SUFFIX := "\n\n[truncated]"

  /** The longest prefix of at most `budget` bytes; it is what dropping characters from the end one by one leaves. */
  function PrefixWithin(s: string, budget: nat): (p: string)
    ensures p <= s && ByteLength(p) <= budget
  {
    if ByteLength(s) <= budget then s else PrefixWithin(s[..|s| - 1], budget)
  }

  /** The longest: any longer prefix is over the budget. */
  lemma {:induction false} PrefixWithinIsLongest(s: string, budget: nat, k: nat)
    requires |PrefixWithin(s, budget)| < k <= |s|
    ensures ByteLength(s[..k]) > budget
    decreases |s|
  {
    if k == |s| {
      assert s[..k] == s;
    } else {
      assert s[..|s| - 1][..k] == s[..k];
      PrefixWithinIsLongest(s[..|s| - 1], budget, k);
    }
  }

  lemma PrefixWithinKeeps(s: string, budget: nat)
    ensures PrefixWithin(s, budget) == s || ByteLength(PrefixWithin(s, budget)) + 4 > budget
  {
    var p := PrefixWithin(s, budget);
    if p != s {
      PrefixWithinIsLongest(s, budget, |p| + 1);
      assert s[..|p| + 1][..|p|] == p;
    }
  }

  function TruncateUtf8(text: string, maxBytes: nat): string {
    if ByteLength(text) <= maxBytes then text
    else if ByteLength(SUFFIX) >= maxBytes then
      if maxBytes <= |SUFFIX| then SUFFIX[..maxBytes] else SUFFIX
    else PrefixWithin(text, maxBytes - ByteLength(SUFFIX)) + SUFFIX
  }

  /** The loop of `truncateUtf8`: drop characters until body and suffix fit. */
  method TruncateByDropping(text: string, maxBytes: nat) returns (r: string)
    ensures r == TruncateUtf8(text, maxBytes)
  {
    if ByteLength(text) <= maxBytes { return text; }
    if ByteLength(SUFFIX) >= maxBytes {
      return if maxBytes <= |SUFFIX| then SUFFIX[..maxBytes] else SUFFIX;
    }
    var body := text;
    while ByteLength(body) + ByteLength(SUFFIX) > maxBytes && |body| > 0
      invariant body <= text
      invariant PrefixWithin(text, maxBytes - ByteLength(SUFFIX)) == PrefixWithin(body, maxBytes - ByteLength(SUFFIX))
      decreases |body|
    {
      body := body[..|body| - 1];
    }
    r := body + SUFFIX;
  }

  lemma SuffixBytes()
    ensures ByteLength(SUFFIX) == |SUFFIX| == 13
  {
    AsciiBytes(SUFFIX);
  }

  /** What a truncation at any limit looks like: the text, a prefix of it with the mark, or part of the mark. */
  ghost predicate IsCutOf(out: string, raw: string) {
    out == raw || out <= SUFFIX || exists k | 0 <= k <= |raw| :: out == raw[..k] + SUFFIX
  }

  /** At every limit the result is within it, and is a cut of the text; a text within the limit is kept. */
  lemma {:induction false} TruncateFits(text: string, maxBytes: nat)
    ensures ByteLength(TruncateUtf8(text, maxBytes)) <= maxBytes
    ensures IsCutOf(TruncateUtf8(text, maxBytes), text)
    ensures TruncateUtf8(text, maxBytes) == text <==> ByteLength(text) <= maxBytes
  {
    hide ByteLength;
    SuffixBytes();
    if ByteLength(text) > maxBytes {
      if maxBytes <= |SUFFIX| {
        AsciiBytes(SUFFIX[..maxBytes]);
      } else {
        var p := PrefixWithin(text, maxBytes - 13);
        ByteLengthAppend(p, SUFFIX);
        assert text[..|p|] == p;
      }
    }
  }

  /** At every limit, cutting a cut again leaves a cut of the original: the first mark goes whole. */
  lemma {:induction false} CutAgain(raw: string, out: string, maxBytes: nat)
    requires IsCutOf(out, raw)
    ensures IsCutOf(TruncateUtf8(out, maxBytes), raw)
  {
    hide ByteLength, TruncateUtf8;
    TruncateCases(out, maxBytes);
    if out != raw && ByteLength(out) > maxBytes > 13 {
      NoMoreThanTheMark(out, maxBytes);
      var k :| 0 <= k <= |raw| && out == raw[..k] + SUFFIX;
      var p := PrefixWithin(out, maxBytes - 13);
      MarkGoesWhole(raw[..k], p, maxBytes);
      assert p == raw[..|p|];
    } else if out == raw {
      TruncateFits(out, maxBytes);
    }
  }

  lemma TruncateCases(text: string, maxBytes: nat)
    ensures ByteLength(text) <= maxBytes ==> TruncateUtf8(text, maxBytes) == text
    ensures ByteLength(text) > maxBytes && maxBytes <= 13 ==> TruncateUtf8(text, maxBytes) <= SUFFIX
    ensures ByteLength(text) > maxBytes > 13 ==> TruncateUtf8(text, maxBytes) == PrefixWithin(text, maxBytes - 13) + SUFFIX
  {
    hide ByteLength;
    SuffixBytes();
  }

  lemma NoMoreThanTheMark(out: string, maxBytes: nat)
    requires ByteLength(out) > maxBytes > 13
    ensures !(out <= SUFFIX)
  {
    hide ByteLength;
    SuffixBytes();
    if out <= SUFFIX {
      PrefixIsNoLonger(out, SUFFIX);
    }
  }

  lemma MarkGoesWhole(body: string, p: string, maxBytes: nat)
    requires p <= body + SUFFIX && ByteLength(p) + 13 <= maxBytes < ByteLength(body + SUFFIX)
    ensures |p| <= |body|
  {
    hide ByteLength;
    SuffixBytes();
    ByteLengthAppend(body, SUFFIX);
    if |p| > |body| {
      PrefixIsNoLonger(body, p);
    }
  }

  /** No limit in the audit store is below 1024 bytes, so a cut text keeps at least this many characters. */
  const LEAST_KEPT := 100

  /** What truncation may do to a text: nothing, or keep a long enough prefix and mark the cut. */
  ghost predicate IsTruncationOf(out: string, raw: string) {
    out == raw || exists k | LEAST_KEPT <= k <= |raw| :: out == raw[..k] + SUFFIX
  }

  /** At the limits of the audit store a cut keeps enough of the text to show its verdict line. */
  lemma {:induction false} TruncateBounds(text: string, maxBytes: nat)
    requires maxBytes >= 1_024
    ensures ByteLength(TruncateUtf8(text, maxBytes)) <= maxBytes
    ensures IsTruncationOf(TruncateUtf8(text, maxBytes), text)
    ensures text != "" ==> TruncateUtf8(text, maxBytes) != ""
  {
    hide ByteLength;
    SuffixBytes();
    if ByteLength(text) > maxBytes {
      var p := PrefixWithin(text, maxBytes - 13);
      PrefixWithinKeeps(text, maxBytes - 13);
      ByteLengthAppend(p, SUFFIX);
      assert text[..|p|] == p;
    }
  }

  lemma {:induction false} PrefixIsNoLonger(p: string, s: string)
    requires p <= s
    ensures ByteLength(p) <= ByteLength(s)
  {
    assert s == p + s[|p|..];
    ByteLengthAppend(p, s[|p|..]);
  }

  /** Truncating a truncation is still a truncation of the original: the first marker is cut away whole. */
  lemma {:induction false} TruncateAgain(raw: string, out: string, maxBytes: nat)
    requires maxBytes >= 1_024 && IsTruncationOf(out, raw)
    ensures IsTruncationOf(TruncateUtf8(out, maxBytes), raw)
  {
    TruncateBounds(out, maxBytes);
    var again := TruncateUtf8(out, maxBytes);
    if out != raw && again != out {
      hide ByteLength;
      var k :| LEAST_KEPT <= k <= |raw| && out == raw[..k] + SUFFIX;
      SuffixBytes();
      var p := PrefixWithin(out, maxBytes - 13);
      if |p| > k {
        PrefixIsNoLonger(raw[..k], p);
        ByteLengthAppend(raw[..k], SUFFIX);
        assert false;
      }
      assert p == raw[..|p|];
    }
  }

  // ---------------------------------------------------------------------------------------------
  // Verdict lines
  // ---------------------------------------------------------------------------------------------

  /** `output.split(/\r?\n/, 1)[0]`: up to the first line break, without the carriage return before it. */
  function FirstLine(s: string): (line: string)
    ensures '\n' !in line
  {
    if s == "" || s[0] == '\n' then ""
    else if |s| >= 2 && s[0] == '\r' && s[1] == '\n' then ""
    else [s[0]] + FirstLine(s[1..])
  }

  lemma {:induction false} FirstLineDependsOnPrefix(s: string, t: string, line: string)
    requires FirstLine(s) == line
    requires '\r' !in line
    requires |s| >= |line| + 2 && |t| >= |line| + 2 && s[..|line| + 2] == t[..|line| + 2]
    ensures FirstLine(t) == line
    decreases |line|
  {
    assert s[0] == s[..|line| + 2][0] == t[..|line| + 2][0] == t[0];
    assert s[1] == s[..|line| + 2][1] == t[..|line| + 2][1] == t[1];
    if line != "" {
      assert s[1..][..|line| + 1] == s[..|line| + 2][1..] == t[..|line| + 2][1..] == t[1..][..|line| + 1];
      FirstLineDependsOnPrefix(s[1..], t[1..], line[1..]);
    }
  }

  /**
    Cutting never manufactures a verdict. If a truncation at a limit far above the line's length shows
    a given first line, the untruncated text has that very first line.
  */
  lemma {:induction false} TruncationKeepsFirstLine(raw: string, out: string, line: string)
    requires IsTruncationOf(out, raw)
    requires FirstLine(out) == line && '\r' !in line
    requires |line| + 2 <= LEAST_KEPT
    ensures FirstLine(raw) == line
  {
    if out != raw {
      var k :| LEAST_KEPT <= k <= |raw| && out == raw[..k] + SUFFIX;
      assert out[..|line| + 2] == raw[..|line| + 2];
      FirstLineDependsOnPrefix(out, raw, line);
    }
  }
}
