/**
  Persisted audit evidence and its aggregation (src/runtime/loop/audit_evidence.ts): what an entry may
  hold, and how the outputs of the lenses become one verdict.
*/
module AuditEvidence {
  import opened Wrappers
  import opened Text
  import opened Utf8
  import opened AuditTypes
  import opened AuditIdentity
  import Json

  datatype LensVerdict = LensVerdict(id: string, promptHash: Digest, output: string)
  datatype Failure = Failure(id: string, error: string)

  /** The schema admits exactly these two shapes: a single verdict, or a fan-out with no verdict of its own. */
  datatype Entry =
    | Single(hash: Digest, verdict: string, subjectHash: Option<Digest>)
    | Fanout(
        hash: Digest,
        complete: bool,
        lenses: seq<LensVerdict>,
        failures: seq<Failure>,
        passVerdict: string,
        failVerdict: string,
        subjectHash: Option<Digest>)

  function TotalBytes(lenses: seq<LensVerdict>): nat {
    if lenses == [] then 0 else TotalBytes(lenses[..|lenses| - 1]) + ByteLength(lenses[|lenses| - 1].output)
  }

  function EvidenceIds(lenses: seq<LensVerdict>, failures: seq<Failure>): (ids: seq<string>)
    ensures |ids| == |lenses| + |failures|
  {
    seq(|lenses|, i requires 0 <= i < |lenses| => lenses[i].id)
    + seq(|failures|, i requires 0 <= i < |failures| => failures[i].id)
  }

  predicate Distinct(ids: seq<string>) {
    forall i, j | 0 <= i < j < |ids| :: ids[i] != ids[j]
  }

  predicate WithinBytes(s: string, most: nat) {
    s != "" && ByteLength(s) <= most
  }

  /** What the store accepts and what it reads back. */
  predicate IsEntry(e: Entry) {
    match e
    case Single(_, verdict, _) => WithinBytes(verdict, MAX_RESULT_BYTES)
    case Fanout(_, complete, lenses, failures, pass, fail, _) =>
      && |lenses| <= LENS_MAX && |failures| <= LENS_MAX
      && (forall i | 0 <= i < |lenses| :: IsLensId(lenses[i].id) && WithinBytes(lenses[i].output, MAX_RESULT_BYTES))
      && (forall i | 0 <= i < |failures| :: IsLensId(failures[i].id) && WithinBytes(failures[i].error, 4_096))
      && IsVerdictToken(pass) && IsVerdictToken(fail) && pass != fail
      && TotalBytes(lenses) <= MAX_AGGREGATE_BYTES
      && Distinct(EvidenceIds(lenses, failures))
      && (if complete then |lenses| >= LENS_MIN && failures == []
          else failures != [] && LENS_MIN <= |lenses| + |failures| <= LENS_MAX)
  }

  // ---------------------------------------------------------------------------------------------
  // Aggregation
  // ---------------------------------------------------------------------------------------------

  function VerdictLine(token: string): string {
    "VERDICT: " + token
  }

  function SkipSpaces(s: string): (r: string)
    ensures |r| <= |s|
  {
    if s != "" && IsSpace(s[0]) then SkipSpaces(s[1..]) else s
  }

  function SkipToken(s: string): (r: string)
    ensures |r| <= |s|
  {
    if s != "" && (IsUpper(s[0]) || s[0] == '_') then SkipToken(s[1..]) else s
  }

  const MARK := "VERDICT:"

  /** Every `VERDICT:` followed by optional white space and an upper-case token is removed. */
  function StripVerdicts(s: string): string
    decreases |s|
  {
    if s == "" then ""
    else
      var after := if OccursAt(s, MARK, 0) then SkipSpaces(s[|MARK|..]) else "";
      if after != "" && IsUpper(after[0]) then StripVerdicts(SkipToken(after)) else [s[0]] + StripVerdicts(s[1..])
  }

  function TrimEnd(s: string): string {
    if s != "" && IsSpace(s[|s| - 1]) then TrimEnd(s[..|s| - 1]) else s
  }

  /** The id a row is filed under: its own, or its position when that is not a legal id. */
  function AttributionId(lenses: seq<LensVerdict>, i: nat): string
    requires i < |lenses|
  {
    if IsLensId(lenses[i].id) then lenses[i].id else "lens-" + Json.Decimal(i + 1)
  }

  function FindingRow(lenses: seq<LensVerdict>, i: nat, passLine: string): string
    requires i < |lenses|
  {
    "- [" + AttributionId(lenses, i) + "] " +
    if FirstLine(lenses[i].output) == passLine then "PASS"
    else
      var body := TrimEnd(SkipSpaces(StripVerdicts(lenses[i].output)));
      if body == "" then "review did not return the exact pass verdict" else body
  }

  function FindingRows(lenses: seq<LensVerdict>, passLine: string): seq<string> {
    seq(|lenses|, i requires 0 <= i < |lenses| => FindingRow(lenses, i, passLine))
  }

  /** One row per lens with the same remark. */
  function RemarkRows(lenses: seq<LensVerdict>, remark: string): (rows: seq<string>)
    ensures |rows| == |lenses|
    ensures forall i | 0 <= i < |lenses| :: rows[i] == "- [" + AttributionId(lenses, i) + "] " + remark
  {
    seq(|lenses|, i requires 0 <= i < |lenses| => "- [" + AttributionId(lenses, i) + "] " + remark)
  }

  function FailureText(fail: string, rows: seq<string>): string {
    Join([VerdictLine(fail)] + rows, "\n")
  }

  function BoundedFailure(fail: string, rows: seq<string>, fallback: seq<string>): string {
    if ByteLength(FailureText(fail, rows)) <= MAX_RESULT_BYTES then FailureText(fail, rows)
    else FailureText(fail, fallback)
  }

  function LensIds(lenses: seq<LensVerdict>): (ids: seq<string>)
    ensures |ids| == |lenses| && forall i | 0 <= i < |ids| :: ids[i] == lenses[i].id
  {
    seq(|lenses|, i requires 0 <= i < |lenses| => lenses[i].id)
  }

  /** Two to four lenses, with legal distinct ids, within the aggregate budget. */
  predicate IsSoundSet(lenses: seq<LensVerdict>) {
    && LENS_MIN <= |lenses| <= LENS_MAX
    && (forall i | 0 <= i < |lenses| :: IsLensId(lenses[i].id))
    && Distinct(LensIds(lenses))
    && TotalBytes(lenses) <= MAX_AGGREGATE_BYTES
  }

  predicate AllPass(lenses: seq<LensVerdict>, pass: string) {
    forall i | 0 <= i < |lenses| :: FirstLine(lenses[i].output) == VerdictLine(pass)
  }

  function PassText(lenses: seq<LensVerdict>, pass: string): string {
    var n := Json.Decimal(|lenses|);
    VerdictLine(pass) + "\n" + "AUDIT FAN-OUT: " + Join(LensIds(lenses), ", ") + " (" + n + "/" + n + ")"
  }

  function CountRows(lenses: seq<LensVerdict>, pass: string, fail: string): string {
    if lenses == [] then
      FailureText(fail, ["- [audit] invalid lens evidence count (0 completed; expected 2-4)"])
    else
      var attributed := if |lenses| <= 256 then lenses else lenses[..256];
      var suffix := if |lenses| <= 256 then []
        else ["- [audit] " + Json.Decimal(|lenses| - 256) + " additional invalid lenses omitted"];
      var fallback := RemarkRows(attributed, "invalid lens-set evidence (expected 2-4)") + suffix;
      if TotalBytes(attributed) > MAX_AGGREGATE_BYTES then FailureText(fail, fallback)
      else BoundedFailure(fail, FindingRows(attributed, VerdictLine(pass)) + suffix, fallback)
  }

  const UNRESOLVED := "UNRESOLVED"

  predicate IsVerdictPolicy(pass: string, fail: string) {
    IsVerdictToken(pass) && IsVerdictToken(fail) && pass != fail
  }

  /** One verdict for all lenses. */
  function Aggregate(lenses: seq<LensVerdict>, pass: string, fail: string): string {
    if !IsVerdictPolicy(pass, fail) then
      FailureText(UNRESOLVED, ["- [audit] invalid pass/fail verdict policy"])
    else if !(LENS_MIN <= |lenses| <= LENS_MAX) then CountRows(lenses, pass, fail)
    else if (exists i | 0 <= i < |lenses| :: !IsLensId(lenses[i].id)) || !Distinct(LensIds(lenses)) then
      FailureText(fail, RemarkRows(lenses, "invalid or duplicate lens id"))
    else if TotalBytes(lenses) > MAX_AGGREGATE_BYTES then
      FailureText(fail, RemarkRows(lenses, "audit output exceeded aggregate evidence bound"))
    else if AllPass(lenses, pass) then PassText(lenses, pass)
    else
      BoundedFailure(fail, FindingRows(lenses, VerdictLine(pass)),
                     RemarkRows(lenses, "audit output exceeded aggregate evidence bound"))
  }

  lemma {:induction false} FirstLineOf(line: string, rest: string)
    requires forall i | 0 <= i < |line| :: line[i] != '\n' && line[i] != '\r'
    requires rest == "" || rest[0] == '\n'
    ensures FirstLine(line + rest) == line
    decreases |line|
  {
    if line == "" {
      assert line + rest == rest;
    } else {
      assert (line + rest)[1..] == line[1..] + rest;
      FirstLineOf(line[1..], rest);
    }
  }

  lemma VerdictLineIsPlain(token: string)
    requires IsVerdictToken(token)
    ensures forall i | 0 <= i < |VerdictLine(token)| ::
              VerdictLine(token)[i] != '\n' && VerdictLine(token)[i] != '\r'
    ensures |VerdictLine(token)| <= 73
  {
    var line := VerdictLine(token);
    assert forall i | 0 <= i < |token| :: IsUpper(token[i]) || token[i] == '_';
    assert forall i | 9 <= i < |line| :: line[i] == token[i - 9];
  }

  lemma FailureTextVerdict(fail: string, rows: seq<string>)
    requires IsVerdictToken(fail)
    ensures FirstLine(FailureText(fail, rows)) == VerdictLine(fail)
  {
    VerdictLineIsPlain(fail);
    var parts := [VerdictLine(fail)] + rows;
    assert parts[1..] == rows;
    var rest := if rows == [] then "" else "\n" + Join(rows, "\n");
    assert FailureText(fail, rows) == VerdictLine(fail) + rest;
    FirstLineOf(VerdictLine(fail), rest);
  }

  lemma BoundedFailureVerdict(fail: string, rows: seq<string>, fallback: seq<string>)
    requires IsVerdictToken(fail)
    ensures FirstLine(BoundedFailure(fail, rows, fallback)) == VerdictLine(fail)
  {
    hide FirstLine, FailureText;
    FailureTextVerdict(fail, rows);
    FailureTextVerdict(fail, fallback);
  }

  lemma CountRowsVerdict(lenses: seq<LensVerdict>, pass: string, fail: string)
    requires IsVerdictToken(fail)
    ensures FirstLine(CountRows(lenses, pass, fail)) == VerdictLine(fail)
  {
    hide FirstLine, FailureText, BoundedFailure, TotalBytes, FindingRow, FindingRows;
    if lenses == [] {
      FailureTextVerdict(fail, ["- [audit] invalid lens evidence count (0 completed; expected 2-4)"]);
    } else {
      var attributed := if |lenses| <= 256 then lenses else lenses[..256];
      var suffix := if |lenses| <= 256 then []
        else ["- [audit] " + Json.Decimal(|lenses| - 256) + " additional invalid lenses omitted"];
      var fallback := RemarkRows(attributed, "invalid lens-set evidence (expected 2-4)") + suffix;
      FailureTextVerdict(fail, fallback);
      BoundedFailureVerdict(fail, FindingRows(attributed, VerdictLine(pass)) + suffix, fallback);
    }
  }

  lemma {:induction false} PassTextVerdict(lenses: seq<LensVerdict>, pass: string)
    requires IsVerdictToken(pass)
    ensures FirstLine(PassText(lenses, pass)) == VerdictLine(pass)
  {
    VerdictLineIsPlain(pass);
    var n := Json.Decimal(|lenses|);
    var rest := "\n" + "AUDIT FAN-OUT: " + Join(LensIds(lenses), ", ") + " (" + n + "/" + n + ")";
    assert PassText(lenses, pass) == VerdictLine(pass) + rest;
    FirstLineOf(VerdictLine(pass), rest);
  }

  /**
    Under a valid verdict policy the aggregate shows the pass verdict exactly when the evidence is a sound set
    and every lens passed: empty, reduced, duplicated or oversized evidence can never pass. Under an invalid one
    the verdict is `UNRESOLVED`, which is the pass verdict only for a policy that calls it so.
  */
  lemma {:induction false} AggregatePassesIff(lenses: seq<LensVerdict>, pass: string, fail: string)
    ensures FirstLine(Aggregate(lenses, pass, fail)) == VerdictLine(pass) <==>
            if IsVerdictPolicy(pass, fail) then IsSoundSet(lenses) && AllPass(lenses, pass) else pass == UNRESOLVED
    ensures FirstLine(Aggregate(lenses, pass, fail)) in
            if IsVerdictPolicy(pass, fail) then {VerdictLine(pass), VerdictLine(fail)} else {VerdictLine(UNRESOLVED)}
  {
    hide FirstLine, FailureText, PassText, TotalBytes, CountRows, BoundedFailure;
    assert VerdictLine(pass)[9..] == pass && VerdictLine(fail)[9..] == fail && VerdictLine(UNRESOLVED)[9..] == UNRESOLVED;
    if IsVerdictPolicy(pass, fail) {
      ValidPolicyVerdict(lenses, pass, fail);
    } else {
      FailureTextVerdict(UNRESOLVED, ["- [audit] invalid pass/fail verdict policy"]);
    }
  }

  /** The invalid branch is real: a policy that calls both verdicts `UNRESOLVED` passes without any evidence. */
  lemma UnresolvedPassesVacuously()
    ensures FirstLine(Aggregate([], UNRESOLVED, UNRESOLVED)) == VerdictLine(UNRESOLVED) && !IsSoundSet([])
  {
    AggregatePassesIff([], UNRESOLVED, UNRESOLVED);
  }

  lemma ValidPolicyVerdict(lenses: seq<LensVerdict>, pass: string, fail: string)
    requires IsVerdictPolicy(pass, fail)
    ensures FirstLine(Aggregate(lenses, pass, fail)) ==
            VerdictLine(if IsSoundSet(lenses) && AllPass(lenses, pass) then pass else fail)
  {
    hide FirstLine, FailureText, PassText, TotalBytes, CountRows, BoundedFailure;
    PassTextVerdict(lenses, pass);
    CountRowsVerdict(lenses, pass, fail);
    FailureTextVerdict(fail, RemarkRows(lenses, "invalid or duplicate lens id"));
    FailureTextVerdict(fail, RemarkRows(lenses, "audit output exceeded aggregate evidence bound"));
    BoundedFailureVerdict(fail, FindingRows(lenses, VerdictLine(pass)),
                          RemarkRows(lenses, "audit output exceeded aggregate evidence bound"));
  }

  // ---------------------------------------------------------------------------------------------
  // The aggregate of a sound set always fits
  // ---------------------------------------------------------------------------------------------

  lemma {:induction false} JoinLength(parts: seq<string>, sep: string, most: nat)
    requires forall i | 0 <= i < |parts| :: |parts[i]| <= most
    ensures |Join(parts, sep)| <= |parts| * (most + |sep|)
  {
    if |parts| > 1 {
      JoinLength(parts[1..], sep, most);
      assert |parts| * (most + |sep|) == (|parts| - 1) * (most + |sep|) + (most + |sep|);
    }
  }

  lemma {:induction false} AggregateFits(lenses: seq<LensVerdict>, pass: string, fail: string)
    requires IsVerdictToken(pass) && IsVerdictToken(fail) && pass != fail && IsSoundSet(lenses)
    ensures ByteLength(Aggregate(lenses, pass, fail)) <= MAX_RESULT_BYTES
  {
    hide ByteLength, TotalBytes, IsLensId, IsVerdictToken, FindingRows;
    if AllPass(lenses, pass) {
      PassTextFits(lenses, pass);
    } else {
      RemarksFit(lenses, fail);
    }
  }

  lemma PassTextFits(lenses: seq<LensVerdict>, pass: string)
    requires IsVerdictToken(pass) && IsSoundSet(lenses)
    ensures ByteLength(PassText(lenses, pass)) <= MAX_RESULT_BYTES
  {
    hide ByteLength, TotalBytes;
    JoinLength(LensIds(lenses), ", ", 64);
    assert |Json.Decimal(|lenses|)| == 1;
    assert ByteLength(PassText(lenses, pass)) <= 4 * |PassText(lenses, pass)| by { ByteLengthBound(PassText(lenses, pass)); }
  }

  lemma RemarksFit(lenses: seq<LensVerdict>, fail: string)
    requires IsVerdictToken(fail) && IsSoundSet(lenses)
    ensures ByteLength(FailureText(fail, RemarkRows(lenses, "audit output exceeded aggregate evidence bound")))
            <= MAX_RESULT_BYTES
  {
    hide ByteLength, TotalBytes;
    var rows := RemarkRows(lenses, "audit output exceeded aggregate evidence bound");
    assert forall i | 0 <= i < |rows| :: |rows[i]| <= 200;
    assert |VerdictLine(fail)| <= 200;
    JoinLength([VerdictLine(fail)] + rows, "\n", 200);
    ByteLengthBound(FailureText(fail, rows));
  }

  lemma ByteLengthBound(s: string)
    ensures ByteLength(s) <= 4 * |s|
  {
  }
}
