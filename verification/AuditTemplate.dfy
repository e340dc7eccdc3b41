/**
  Materialising an audit policy (src/functions/audit_policy.ts): the one-pass expansion of the two
  placeholders, and the byte count projected before anything is allocated.
*/
module AuditTemplate {
  import opened Wrappers
  import opened Text
  import opened Utf8

  const RUBRIC := "{{rubric}}"
  const DIFF := "{{diff}}"

  predicate IsToken(token: string) {
    token == RUBRIC || token == DIFF
  }

  // ---------------------------------------------------------------------------------------------
  // What a template is made of
  // ---------------------------------------------------------------------------------------------

  datatype Piece = Literal(c: char) | RubricHole | DiffHole

  /** What a non-empty template starts with. */
  function NextPiece(template: string): Piece
    requires template != ""
  {
    if OccursAt(template, RUBRIC, 0) then RubricHole
    else if OccursAt(template, DIFF, 0) then DiffHole
    else Literal(template[0])
  }

  function AfterPiece(template: string): (rest: string)
    requires template != ""
    ensures |rest| < |template|
  {
    match NextPiece(template)
    case Literal(_) => template[1..]
    case RubricHole => template[|RUBRIC|..]
    case DiffHole => template[|DIFF|..]
  }

  /** The placeholders of a template, read once from left to right. */
  function Parse(template: string): seq<Piece>
    decreases |template|
  {
    if template == "" then [] else [NextPiece(template)] + Parse(AfterPiece(template))
  }

  function RenderPiece(p: Piece, rubric: string, diff: string): string {
    match p
    case Literal(c) => [c]
    case RubricHole => rubric
    case DiffHole => diff
  }

  /** The pieces with their holes filled; what fills them is never looked at. */
  function Render(pieces: seq<Piece>, rubric: string, diff: string): string {
    if pieces == [] then "" else RenderPiece(pieces[0], rubric, diff) + Render(pieces[1..], rubric, diff)
  }

  /** Positions at which the token stands, overlapping or not. */
  function Occurrences(s: string, token: string): nat {
    if s == "" then 0 else (if OccursAt(s, token, 0) then 1 else 0) + Occurrences(s[1..], token)
  }

  function Holes(pieces: seq<Piece>, hole: Piece): nat {
    if pieces == [] then 0 else (if pieces[0] == hole then 1 else 0) + Holes(pieces[1..], hole)
  }

  /** `template.replace(/\{\{rubric\}\}|\{\{diff\}\}/gu, …)`: the leftmost token first, then on from its end. */
  function Expand(template: string, rubric: string, diff: string): string
    decreases |template|
  {
    if template == "" then ""
    else if OccursAt(template, RUBRIC, 0) then rubric + Expand(template[|RUBRIC|..], rubric, diff)
    else if OccursAt(template, DIFF, 0) then diff + Expand(template[|DIFF|..], rubric, diff)
    else [template[0]] + Expand(template[1..], rubric, diff)
  }

  /** `s.replaceAll(token, '')`. */
  function RemoveAll(s: string, token: string): string
    requires token != ""
    decreases |s|
  {
    if s == "" then ""
    else if OccursAt(s, token, 0) then RemoveAll(s[|token|..], token)
    else [s[0]] + RemoveAll(s[1..], token)
  }

  // ---------------------------------------------------------------------------------------------
  // Tokens never overlap
  // ---------------------------------------------------------------------------------------------

  lemma TokenAt(s: string, t: string, i: nat)
    requires IsToken(t) && OccursAt(s, t, i)
    ensures forall k | 0 <= k < |t| :: s[i + k] == t[k]
  {
    assert forall k | 0 <= k < |t| :: t[k] == s[i..i + |t|][k];
  }

  lemma TokensDoNotOverlap(s: string, t: string, u: string, i: nat, j: nat)
    requires IsToken(t) && IsToken(u)
    requires OccursAt(s, t, i) && i < j < i + |t|
    ensures !OccursAt(s, u, j)
  {
    TokenAt(s, t, i);
    var d := j - i;
    assert s[i + d] == t[d] && (d + 1 < |t| ==> s[i + (d + 1)] == t[d + 1]);
    assert t[d] != '{' || (d + 1 < |t| && t[d + 1] != '{');
    if OccursAt(s, u, j) {
      TokenOpens(s, u, j);
    }
  }

  lemma TokenOpens(s: string, t: string, i: nat)
    requires IsToken(t) && OccursAt(s, t, i)
    ensures s[i] == '{' && s[i + 1] == '{'
  {
    TokenAt(s, t, i);
    assert s[i + 0] == t[0] && s[i + 1] == t[1];
  }

  lemma {:induction false} SkipWithoutOccurrence(s: string, token: string, n: nat)
    requires n <= |s| && forall i | 0 <= i < n :: !OccursAt(s, token, i)
    ensures Occurrences(s, token) == Occurrences(s[n..], token)
  {
    if n > 0 {
      forall i | 0 <= i < n - 1 ensures !OccursAt(s[1..], token, i) {
        OccursShift(s, token, 1, i);
      }
      SkipWithoutOccurrence(s[1..], token, n - 1);
      assert s[1..][n - 1..] == s[n..];
      assert !OccursAt(s, token, 0);
    }
  }

  /** After a token at the front, the rest of its text holds no further occurrence of either token. */
  lemma SkipToken(s: string, t: string, u: string)
    requires IsToken(t) && IsToken(u) && OccursAt(s, t, 0)
    ensures Occurrences(s, u) == (if t == u then 1 else 0) + Occurrences(s[|t|..], u)
  {
    TokenAt(s, t, 0);
    if OccursAt(s, u, 0) { TokenAt(s, u, 0); }
    assert OccursAt(s, u, 0) <==> t == u by { assert s[0 + 2] == t[2]; }
    forall i | 0 <= i < |t| - 1 ensures !OccursAt(s[1..], u, i) {
      TokensDoNotOverlap(s, t, u, 0, i + 1);
      OccursShift(s, u, 1, i);
    }
    SkipWithoutOccurrence(s[1..], u, |t| - 1);
    assert s[1..][|t| - 1..] == s[|t|..];
  }

  // ---------------------------------------------------------------------------------------------
  // The expansion means what the pieces say
  // ---------------------------------------------------------------------------------------------

  /** One pass over the template is filling its holes: nothing inside the rubric or the diff is read. */
  lemma {:induction false} ExpandFillsHoles(template: string, rubric: string, diff: string)
    ensures Expand(template, rubric, diff) == Render(Parse(template), rubric, diff)
    decreases |template|
  {
    if template != "" {
      ExpandFillsHoles(AfterPiece(template), rubric, diff);
    }
  }

  /** The pieces are the template itself: putting the tokens back gives it back. */
  lemma {:induction false} ParseIsFaithful(template: string)
    ensures Render(Parse(template), RUBRIC, DIFF) == template
    decreases |template|
  {
    if template != "" {
      ParseIsFaithful(AfterPiece(template));
      assert template == RenderPiece(NextPiece(template), RUBRIC, DIFF) + AfterPiece(template);
    }
  }

  /** Every occurrence of a token is a hole, so the scan that counts them counts exactly the replacements. */
  lemma {:induction false} EveryOccurrenceIsAHole(template: string)
    ensures Holes(Parse(template), RubricHole) == Occurrences(template, RUBRIC)
    ensures Holes(Parse(template), DiffHole) == Occurrences(template, DIFF)
    decreases |template|
  {
    if template != "" {
      EveryOccurrenceIsAHole(AfterPiece(template));
      if NextPiece(template).RubricHole? {
        SkipToken(template, RUBRIC, RUBRIC);
        SkipToken(template, RUBRIC, DIFF);
      } else if NextPiece(template).DiffHole? {
        SkipToken(template, DIFF, RUBRIC);
        SkipToken(template, DIFF, DIFF);
      }
    }
  }

  function Projection(template: string, rubric: string, diff: string): int {
    ByteLength(template)
    + Occurrences(template, RUBRIC) * (ByteLength(rubric) - ByteLength(RUBRIC))
    + Occurrences(template, DIFF) * (ByteLength(diff) - ByteLength(DIFF))
  }

  lemma {:induction false} RenderedBytes(pieces: seq<Piece>, rubric: string, diff: string)
    ensures ByteLength(Render(pieces, rubric, diff)) ==
            ByteLength(Render(pieces, RUBRIC, DIFF))
            + Holes(pieces, RubricHole) * (ByteLength(rubric) - ByteLength(RUBRIC))
            + Holes(pieces, DiffHole) * (ByteLength(diff) - ByteLength(DIFF))
  {
    hide ByteLength;
    if pieces != [] {
      RenderedBytes(pieces[1..], rubric, diff);
      ByteLengthAppend(RenderPiece(pieces[0], rubric, diff), Render(pieces[1..], rubric, diff));
      ByteLengthAppend(RenderPiece(pieces[0], RUBRIC, DIFF), Render(pieces[1..], RUBRIC, DIFF));
      OneMore(Holes(pieces[1..], RubricHole), ByteLength(rubric) - ByteLength(RUBRIC));
      OneMore(Holes(pieces[1..], DiffHole), ByteLength(diff) - ByteLength(DIFF));
    }
  }

  lemma OneMore(n: nat, d: int)
    ensures (1 + n) * d == d + n * d && (0 + n) * d == n * d
  {
  }

  /** The projection is exact: it is the byte length of the expansion, for every template and input. */
  lemma {:induction false} ProjectionIsExact(template: string, rubric: string, diff: string)
    ensures Projection(template, rubric, diff) == ByteLength(Expand(template, rubric, diff))
  {
    hide ByteLength, Expand, Parse;
    ExpandFillsHoles(template, rubric, diff);
    ParseIsFaithful(template);
    EveryOccurrenceIsAHole(template);
    RenderedBytes(Parse(template), rubric, diff);
  }

  /** Replacing one token after the other would read the first replacement; the single pass does not. */
  lemma SequentialReplacementDiffers()
    ensures Expand(RUBRIC, DIFF, "x") == DIFF
    ensures Expand(Expand(RUBRIC, DIFF, DIFF), RUBRIC, "x") == "x"
  {
    assert RUBRIC[0..|RUBRIC|] == RUBRIC && OccursAt(RUBRIC, RUBRIC, 0) && RUBRIC[|RUBRIC|..] == "";
    assert DIFF[0..|DIFF|] == DIFF && OccursAt(DIFF, DIFF, 0) && DIFF[|DIFF|..] == "";
    assert DIFF + "" == DIFF && "x" + "" == "x";
    assert !OccursAt(DIFF, RUBRIC, 0);
  }

  // ---------------------------------------------------------------------------------------------
  // The code
  // ---------------------------------------------------------------------------------------------

  /** `s.indexOf(token, from)`. */
  method FindFrom(s: string, token: string, from: nat) returns (at: Option<nat>)
    requires token != "" && from <= |s|
    ensures at.Some? ==> from <= at.value && OccursAt(s, token, at.value)
    ensures at.Some? ==> forall i | from <= i < at.value :: !OccursAt(s, token, i)
    ensures at.None? ==> forall i | from <= i <= |s| :: !OccursAt(s, token, i)
  {
    var i := from;
    while i < |s|
      invariant from <= i <= |s|
      invariant forall k | from <= k < i :: !OccursAt(s, token, k)
    {
      if OccursAt(s, token, i) { return Some(i); }
      i := i + 1;
    }
    return None;
  }

  /** The counting loop: on from the end of each match. */
  method CountToken(template: string, token: string) returns (count: nat)
    requires IsToken(token)
    ensures count == Occurrences(template, token)
  {
    hide Occurrences;
    count := 0;
    assert template[0..] == template;
    var at := FindFrom(template, token, 0);
    NoneLeft(template, token, 0, at);
    while at.Some?
      invariant at.Some? ==> OccursAt(template, token, at.value)
      invariant at.Some? ==> Occurrences(template, token) == count + Occurrences(template[at.value..], token)
      invariant at.None? ==> Occurrences(template, token) == count
      decreases if at.Some? then |template| - at.value else -1
    {
      count := count + 1;
      var next := at.value + |token|;
      var rest := template[at.value..];
      assert OccursAt(rest, token, 0) by { assert rest[0..|token|] == template[at.value..next]; }
      SkipToken(rest, token, token);
      assert rest[|token|..] == template[next..];
      at := FindFrom(template, token, next);
      NoneLeft(template, token, next, at);
    }
  }

  /** Up to the next match, or to the end, there is nothing to count. */
  lemma NoneLeft(s: string, token: string, from: nat, at: Option<nat>)
    requires token != "" && from <= |s|
    requires at.Some? ==> from <= at.value <= |s| && forall i | from <= i < at.value :: !OccursAt(s, token, i)
    requires at.None? ==> forall i | from <= i <= |s| :: !OccursAt(s, token, i)
    ensures at.Some? ==> Occurrences(s[from..], token) == Occurrences(s[at.value..], token)
    ensures at.None? ==> Occurrences(s[from..], token) == 0
  {
    var to := if at.Some? then at.value else |s|;
    forall i | 0 <= i < to - from ensures !OccursAt(s[from..], token, i) {
      OccursShift(s, token, from, i);
    }
    SkipWithoutOccurrence(s[from..], token, to - from);
    assert s[from..][to - from..] == s[to..];
  }

  /** The two guards: required placeholders are present, and nothing brace-like is left without the tokens. */
  predicate Admissible(template: string, requireInputs: bool) {
    && (requireInputs ==> Contains(template, RUBRIC) && Contains(template, DIFF))
    && var remainder := RemoveAll(RemoveAll(template, RUBRIC), DIFF);
       !Contains(remainder, "{{") && !Contains(remainder, "}}")
  }

  /** Fails exactly for an inadmissible template or an expansion over the cap; otherwise it is the expansion. */
  function Materialized(
    template: string, rubric: string, diff: string, requireInputs: bool, maxBytes: nat): Option<string>
  {
    if Admissible(template, requireInputs) && ByteLength(Expand(template, rubric, diff)) <= maxBytes
    then Some(Expand(template, rubric, diff))
    else None
  }

  method MaterializeTemplate(
    template: string, rubric: string, diff: string, requireInputs: bool, maxBytes: nat)
      returns (r: Option<string>)
    ensures r == Materialized(template, rubric, diff, requireInputs, maxBytes)
  {
    hide ByteLength, Contains, RemoveAll, Occurrences, Expand;
    if requireInputs && (!Contains(template, RUBRIC) || !Contains(template, DIFF)) { return None; }
    var remainder := RemoveAll(RemoveAll(template, RUBRIC), DIFF);
    if Contains(remainder, "{{") || Contains(remainder, "}}") { return None; }
    var replacements := [(RUBRIC, rubric), (DIFF, diff)];
    var projectedBytes: int := ByteLength(template);
    for i := 0 to 2
      invariant i == 0 ==> projectedBytes == ByteLength(template)
      invariant i == 1 ==> projectedBytes == Projection(template, rubric, DIFF)
      invariant i == 2 ==> projectedBytes == Projection(template, rubric, diff)
    {
      var (token, replacement) := replacements[i];
      var count := CountToken(template, token);
      projectedBytes := projectedBytes + count * (ByteLength(replacement) - ByteLength(token));
    }
    ProjectionIsExact(template, rubric, diff);
    if projectedBytes > maxBytes { return None; }
    return Some(Expand(template, rubric, diff));
  }
}
