/** The JavaScript string operations the modelled code uses, each with the property that defines it. */
module Text {
  import opened Wrappers

  predicate StartsWith(s: string, prefix: string) {
    prefix <= s
  }

  predicate OccursAt(s: string, t: string, i: nat) {
    i + |t| <= |s| && s[i..i + |t|] == t
  }

  lemma OccursShift(s: string, t: string, n: nat, i: nat)
    requires n <= |s|
    ensures OccursAt(s[n..], t, i) <==> OccursAt(s, t, n + i)
  {
    if n + i + |t| <= |s| {
      assert s[n..][i..i + |t|] == s[n + i..n + i + |t|];
    }
  }

  /** `s.includes(t)`. */
  predicate Contains(s: string, t: string) {
    exists i | 0 <= i <= |s| :: OccursAt(s, t, i)
  }

  /** `s.indexOf(c)`: the first index, or `None`. */
  function IndexOf(s: string, c: char): (r: Option<nat>)
    ensures r.None? <==> c !in s
    ensures r.Some? ==> r.value < |s| && s[r.value] == c && c !in s[..r.value]
  {
    if s == "" then None
    else if s[0] == c then Some(0)
    else
      match IndexOf(s[1..], c)
      case None => None
      case Some(i) => assert s[..i + 1] == [s[0]] + s[1..][..i]; Some(i + 1)
  }

  /** `s.lastIndexOf(c)`: the last index, or `None`. */
  function LastIndexOf(s: string, c: char): (r: Option<nat>)
    ensures r.None? <==> c !in s
    ensures r.Some? ==> r.value < |s| && s[r.value] == c && c !in s[r.value + 1..]
  {
    if s == "" then None
    else if s[|s| - 1] == c then Some(|s| - 1)
    else
      match LastIndexOf(s[..|s| - 1], c)
      case None => None
      case Some(i) => assert s[i + 1..] == s[..|s| - 1][i + 1..] + [s[|s| - 1]]; Some(i)
  }

  /** What `trim` and `\s` treat as white space. */
  predicate IsSpace(c: char) {
    || c == ' ' || c == '\t' || c == '\n' || c == '\r' || c == '\U{0B}' || c == '\U{0C}'
    || c == '\U{A0}' || c == '\U{1680}' || '\U{2000}' <= c <= '\U{200A}' || c == '\U{2028}' || c == '\U{2029}'
    || c == '\U{202F}' || c == '\U{205F}' || c == '\U{3000}' || c == '\U{FEFF}'
  }

  /** What follows the last `c`, or the whole string. */
  function AfterLast(s: string, c: char): (r: string)
    ensures c !in r
    ensures c !in s ==> r == s
    ensures c in s ==> exists i | 0 <= i < |s| :: s[i] == c && r == s[i + 1..]
  {
    match LastIndexOf(s, c)
    case None => s
    case Some(i) => s[i + 1..]
  }

  /** `parts.join(sep)`. */
  function Join(parts: seq<string>, sep: string): string {
    if parts == [] then ""
    else if |parts| == 1 then parts[0]
    else parts[0] + sep + Join(parts[1..], sep)
  }

  /** `s.split(c)` for a single character: always at least one part. */
  function Split(s: string, c: char): (parts: seq<string>)
    ensures parts != []
    ensures forall i | 0 <= i < |parts| :: c !in parts[i]
  {
    match IndexOf(s, c)
    case None => [s]
    case Some(i) => [s[..i]] + Split(s[i + 1..], c)
  }

  /** Joining what was split gives the text back. */
  lemma {:induction false} JoinSplit(s: string, c: char)
    ensures Join(Split(s, c), [c]) == s
    decreases |s|
  {
    match IndexOf(s, c)
    case None =>
    case Some(i) =>
      JoinSplit(s[i + 1..], c);
      assert s == s[..i] + [c] + s[i + 1..];
  }

  /** Splitting what was joined gives the parts back, as long as no part holds the separator. */
  lemma {:induction false} SplitJoin(parts: seq<string>, c: char)
    requires parts != [] && forall i | 0 <= i < |parts| :: c !in parts[i]
    ensures Split(Join(parts, [c]), c) == parts
    decreases |parts|
  {
    var s := Join(parts, [c]);
    if |parts| > 1 {
      var tail := Join(parts[1..], [c]);
      SplitJoin(parts[1..], c);
      assert s == parts[0] + [c] + tail && s[|parts[0]|] == c;
      var i := IndexOf(s, c).value;
      assert forall k | 0 <= k < |parts[0]| :: s[k] == parts[0][k];
      assert forall k | 0 <= k < i :: s[..i][k] == s[k];
      assert i == |parts[0]|;
      assert s[..i] == parts[0] && s[i + 1..] == tail;
    }
  }

  /** Joining in two halves. */
  lemma {:induction false} JoinOfTwo(a: seq<string>, b: seq<string>, sep: string)
    requires a != [] && b != []
    ensures Join(a + b, sep) == Join(a, sep) + sep + Join(b, sep)
    decreases |a|
  {
    var all := a + b;
    assert all[0] == a[0] && all[1..] == a[1..] + b;
    if |a| > 1 {
      JoinOfTwo(a[1..], b, sep);
      assert Join(all, sep) == a[0] + sep + (Join(a[1..], sep) + sep + Join(b, sep));
      assert Join(a, sep) == a[0] + sep + Join(a[1..], sep);
    } else {
      assert a[1..] + b == b;
    }
  }

  lemma JoinOfOne(s: string, sep: string)
    ensures Join([s], sep) == s
  {
  }

  /** Text before the first part stands before the whole. */
  lemma JoinOfHead(front: string, head: string, rest: seq<string>, sep: string)
    ensures Join([front + head] + rest, sep) == front + Join([head] + rest, sep)
  {
    assert ([front + head] + rest)[1..] == rest && ([head] + rest)[1..] == rest;
    if rest != [] {
      assert (front + head) + sep + Join(rest, sep) == front + (head + sep + Join(rest, sep));
    }
  }

  /** The parts of one text, then `mark`, then those of another: the last of one is glued to the first of the other. */
  function Glued(xs: seq<string>, mark: string, ys: seq<string>): seq<string>
    requires xs != [] && ys != []
  {
    xs[..|xs| - 1] + ([xs[|xs| - 1] + mark + ys[0]] + ys[1..])
  }

  lemma JoinGlued(xs: seq<string>, mark: string, ys: seq<string>, sep: string)
    requires xs != [] && ys != []
    ensures Join(xs, sep) + mark + Join(ys, sep) == Join(Glued(xs, mark, ys), sep)
  {
    hide Join;
    var front, last, rest := xs[..|xs| - 1], xs[|xs| - 1], ys[1..];
    assert ys == [ys[0]] + rest && xs == front + [last];
    JoinOfHead(last + mark, ys[0], rest, sep);
    JoinOfOne(last, sep);
    var glued := [last + mark + ys[0]] + rest;
    if front == [] {
      assert xs == [last] && front + glued == glued;
    } else {
      JoinOfTwo(front, [last], sep);
      JoinOfTwo(front, glued, sep);
      Regroup(Join(front, sep) + sep, last, mark, Join(ys, sep));
    }
  }

  lemma Regroup(a: string, b: string, c: string, d: string)
    ensures (a + b) + c + d == a + (b + c + d)
  {
  }
}
