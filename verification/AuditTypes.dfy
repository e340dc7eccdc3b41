/** The audit declarations and their bounds (src/runtime/audit_schema.ts, src/functions/audit_fanout.ts). */
module AuditTypes {
  import opened Wrappers
  import opened Text
  import opened Utf8

  const LENS_MIN := 2
  const LENS_MAX := 4
  const MAX_TEXT_BYTES := 300_000
  const MAX_CRITERIA := 16
  const MAX_CRITERION_BYTES := 4_096
  const MAX_RESULT_BYTES := 50 * 1024
  const MAX_AGGREGATE_BYTES := MAX_RESULT_BYTES - 1_024

  /** One declared reviewer. */
  datatype Lens = Lens(id: string, prompt: string, criteria: Option<seq<string>>)

  predicate IsIdStart(c: char) {
    'a' <= c <= 'z' || '0' <= c <= '9'
  }

  /** `^[a-z0-9][a-z0-9._-]{0,63}$` */
  predicate IsLensId(id: string) {
    && 1 <= |id| <= 64 && IsIdStart(id[0])
    && forall i | 1 <= i < |id| :: IsIdStart(id[i]) || id[i] == '.' || id[i] == '_' || id[i] == '-'
  }

  predicate IsUpper(c: char) {
    'A' <= c <= 'Z'
  }

  /** `^[A-Z][A-Z_]{0,63}$` */
  predicate IsVerdictToken(t: string) {
    1 <= |t| <= 64 && IsUpper(t[0]) && forall i | 1 <= i < |t| :: IsUpper(t[i]) || t[i] == '_'
  }

  function Bulleted(criteria: seq<string>): seq<string> {
    seq(|criteria|, i requires 0 <= i < |criteria| => "- " + criteria[i])
  }

  /** The exact prompt sent to the model: criteria are part of it. */
  function RenderPrompt(lens: Lens): string {
    match lens.criteria
    case None => lens.prompt
    case Some(criteria) => lens.prompt + "\n\nCriteria:\n" + Join(Bulleted(criteria), "\n")
  }

  predicate IsAuditText(s: string) {
    ByteLength(s) <= MAX_TEXT_BYTES
  }

  predicate IsLens(lens: Lens) {
    && IsLensId(lens.id)
    && lens.prompt != "" && IsAuditText(lens.prompt)
    && (lens.criteria.Some? ==>
          && 1 <= |lens.criteria.value| <= MAX_CRITERIA
          && forall i | 0 <= i < |lens.criteria.value| ::
               lens.criteria.value[i] != "" && ByteLength(lens.criteria.value[i]) <= MAX_CRITERION_BYTES)
    && IsAuditText(RenderPrompt(lens))
  }

  predicate UniqueIds(lenses: seq<Lens>) {
    forall i, j | 0 <= i < j < |lenses| :: lenses[i].id != lenses[j].id
  }

  /** Two to four lenses with distinct ids, each within its bounds. */
  predicate IsLensSet(lenses: seq<Lens>) {
    && LENS_MIN <= |lenses| <= LENS_MAX
    && (forall i | 0 <= i < |lenses| :: IsLens(lenses[i]))
    && UniqueIds(lenses)
  }
}
