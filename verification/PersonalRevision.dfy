/**
  The lessons a pack has learnt (src/packs/personal_revision.ts) as a directory that survives crashes: every
  write goes to a temporary file that is then renamed. A write is two steps, of which a crash can leave only
  the first, a torn file; a rename is one.
*/
module PersonalRevision {
  import opened Wrappers
  import opened Decimals
  import Json
  import opened StableSort

  datatype Version = Version(baseVersion: string, revision: nat, lastMerged: Option<string>)

  /** What a file holds: a whole version, a whole lesson, or what a crash left of a write. */
  datatype File = VersionText(version: Version) | LessonText(body: string) | Torn

  type Disk = map<string, File>

  datatype Failure = Missing | Malformed | Crashed

  datatype LessonFile = LessonFile(id: nat, body: string, hasConflict: bool)

  // ---------------------------------------------------------------------------------------------
  // File names
  // ---------------------------------------------------------------------------------------------

  const VERSION_FILE := "version.json"
  const LESSON := "lesson_"

  function LessonName(n: nat): string {
    LESSON + Json.Decimal(n) + ".yaml"
  }

  /** Beside the file itself, with process id and time appended. */
  function TempName(path: string, token: string): string {
    path + ".tmp." + token
  }

  /** The pattern lesson_<digits>.yaml or lesson_<digits>.conflict.yaml. */
  function ParseLessonName(name: string): Option<(nat, bool)> {
    if !(LESSON <= name) then None
    else
      var rest := name[|LESSON|..];
      var k := DigitRun(rest);
      if k == 0 then None
      else if rest[k..] == ".yaml" then Some((Number(rest[..k]), false))
      else if rest[k..] == ".conflict.yaml" then Some((Number(rest[..k]), true))
      else None
  }

  /** How a name made from a lesson number and some tail reads. */
  lemma ParseNumbered(n: nat, tail: string)
    requires tail != "" && !Json.IsDigit(tail[0])
    ensures ParseLessonName(LESSON + Json.Decimal(n) + tail) ==
            if tail == ".yaml" then Some((n, false)) else if tail == ".conflict.yaml" then Some((n, true)) else None
  {
    var d := Json.Decimal(n);
    assert (LESSON + d + tail)[|LESSON|..] == d + tail;
    DigitsOf(n, tail);
  }

  lemma NotALesson(name: string)
    ensures name != "" && name[0] != 'l' ==> ParseLessonName(name) == None
  {
    assert LESSON[0] == 'l';
  }

  /** Lesson names read back; temporary names and the version file are never taken for lessons. */
  lemma NamesReadBack(n: nat, token: string)
    ensures ParseLessonName(LessonName(n)) == Some((n, false))
    ensures ParseLessonName(TempName(LessonName(n), token)) == None
    ensures ParseLessonName(VERSION_FILE) == None && ParseLessonName(TempName(VERSION_FILE, token)) == None
    ensures TempName(VERSION_FILE, token) != VERSION_FILE && TempName(LessonName(n), token) != VERSION_FILE
  {
    hide ParseLessonName, Json.Decimal;
    NotALesson(VERSION_FILE);
    NotALesson(TempName(VERSION_FILE, token));
    ParseNumbered(n, ".yaml");
    var tail := ".yaml" + ".tmp." + token;
    assert tail[1] == 'y' && ".conflict.yaml"[1] == 'c';
    ParseNumbered(n, tail);
    assert TempName(LessonName(n), token) == LESSON + Json.Decimal(n) + tail;
    assert TempName(VERSION_FILE, token)[0] == 'v';
    assert VERSION_FILE[0] == 'v' && TempName(LessonName(n), token)[0] == 'l';
    assert |TempName(VERSION_FILE, token)| > |VERSION_FILE|;
  }

  // ---------------------------------------------------------------------------------------------
  // Steps and crashes
  // ---------------------------------------------------------------------------------------------

  /** The disks that writing a file passes through: a torn and a whole temporary file, then the renamed one. */
  function WriteTrace(d: Disk, path: string, token: string, content: File): (r: seq<Disk>)
    ensures |r| == 3
  {
    var tmp := TempName(path, token);
    [d[tmp := Torn], d[tmp := content], (d - {tmp})[path := content]]
  }

  /** The lesson first, the version that counts it second. */
  function AppendTrace(d: Disk, v: Version, body: string, token1: string, token2: string): (r: seq<Disk>)
    ensures |r| == 6
  {
    var lesson := WriteTrace(d, LessonName(v.revision + 1), token1, LessonText(body));
    lesson + WriteTrace(lesson[2], VERSION_FILE, token2, VersionText(v.(revision := v.revision + 1)))
  }

  function InitTrace(d: Disk, baseVersion: string, token: string): (r: seq<Disk>)
    ensures |r| == 3
  {
    WriteTrace(d, VERSION_FILE, token, VersionText(Version(baseVersion, 0, None)))
  }

  /** The disk after `steps` steps of a trace that starts from `d`. */
  function After(d: Disk, trace: seq<Disk>, steps: nat): Disk {
    if steps == 0 || trace == [] then d
    else if steps <= |trace| then trace[steps - 1]
    else trace[|trace| - 1]
  }

  function Read(d: Disk): Result<Option<Version>, Failure> {
    if VERSION_FILE !in d then Ok(None)
    else
      match d[VERSION_FILE]
      case VersionText(v) => Ok(Some(v))
      case LessonText(_) => Err(Malformed)
      case Torn => Err(Malformed)
  }

  /** The directory of one pack, and how many more steps the machine takes before it crashes. */
  class RevisionDir {
    var disk: Disk
    var left: nat

    constructor (disk: Disk, left: nat)
      ensures this.disk == disk && this.left == left
    {
      this.disk, this.left := disk, left;
    }

    method WriteFile(name: string, content: File) returns (alive: bool)
      modifies this
      ensures disk == After(old(disk), [old(disk)[name := Torn], old(disk)[name := content]], old(left))
      ensures alive <==> old(left) >= 2
      ensures left == if alive then old(left) - 2 else 0
    {
      if left == 0 {
        return false;
      }
      disk := disk[name := Torn];
      left := left - 1;
      if left == 0 {
        return false;
      }
      disk := disk[name := content];
      left := left - 1;
      return true;
    }

    method Rename(from: string, to: string) returns (alive: bool)
      requires from in disk
      modifies this
      ensures disk == if alive then (old(disk) - {from})[to := old(disk)[from]] else old(disk)
      ensures alive <==> old(left) >= 1
      ensures left == if alive then old(left) - 1 else 0
    {
      if left == 0 {
        return false;
      }
      disk := (disk - {from})[to := disk[from]];
      left := left - 1;
      return true;
    }

    method WriteVersionJson(state: Version, token: string) returns (alive: bool)
      modifies this
      ensures disk == After(old(disk), WriteTrace(old(disk), VERSION_FILE, token, VersionText(state)), old(left))
      ensures alive <==> old(left) >= 3
      ensures left == if alive then old(left) - 3 else 0
    {
      var tmp := TempName(VERSION_FILE, token);
      alive := WriteFile(tmp, VersionText(state));
      if !alive {
        return;
      }
      assert disk - {tmp} == old(disk) - {tmp};
      alive := Rename(tmp, VERSION_FILE);
    }

    /** Fails when there is no version; otherwise appends, unless a crash comes first. */
    method AppendLessonFile(body: string, token1: string, token2: string) returns (r: Result<nat, Failure>)
      modifies this
      ensures match Read(old(disk))
        case Err(e) => r == Err(e) && disk == old(disk)
        case Ok(None) => r == Err(Missing) && disk == old(disk)
        case Ok(Some(v)) =>
          && disk == After(old(disk), AppendTrace(old(disk), v, body, token1, token2), old(left))
          && r == if old(left) >= 6 then Ok(v.revision + 1) else Err(Crashed)
    {
      match Read(disk)
      case Err(e) => return Err(e);
      case Ok(None) => return Err(Missing);
      case Ok(Some(current)) =>
        var nextId := current.revision + 1;
        var path := LessonName(nextId);
        var tmp := TempName(path, token1);
        var alive := WriteFile(tmp, LessonText(body));
        if !alive {
          return Err(Crashed);
        }
        assert disk - {tmp} == old(disk) - {tmp};
        alive := Rename(tmp, path);
        if !alive {
          return Err(Crashed);
        }
        alive := WriteVersionJson(current.(revision := nextId), token2);
        r := if alive then Ok(nextId) else Err(Crashed);
    }

    /** Writes a first version unless there is one. */
    method InitPersonalRevision(baseVersion: string, token: string) returns (r: Result<Version, Failure>)
      modifies this
      ensures match Read(old(disk))
        case Err(e) => r == Err(e) && disk == old(disk)
        case Ok(Some(v)) => r == Ok(v) && disk == old(disk)
        case Ok(None) =>
          && disk == After(old(disk), InitTrace(old(disk), baseVersion, token), old(left))
          && r == if old(left) >= 3 then Ok(Version(baseVersion, 0, None)) else Err(Crashed)
    {
      match Read(disk)
      case Err(e) => return Err(e);
      case Ok(Some(existing)) => return Ok(existing);
      case Ok(None) =>
        var state := Version(baseVersion, 0, None);
        var alive := WriteVersionJson(state, token);
        r := if alive then Ok(state) else Err(Crashed);
    }

    /** Reads the lessons in the order of their numbers, whatever the order of the listing. */
    method ReadLessonFiles(listing: seq<string>) returns (r: Result<seq<LessonFile>, Failure>)
      requires forall name | name in listing :: name in disk
      ensures r == ReadAll(disk, listing)
    {
      var matched: seq<LessonFile> := [];
      for i := 0 to |listing|
        invariant Matched(disk, listing[..i]) == Ok(matched)
      {
        var entry := listing[i];
        assert listing[..i + 1][..i] == listing[..i];
        match ParseLessonName(entry)
        case None => continue;
        case Some(m) =>
          if !disk[entry].LessonText? {
            MatchedFails(disk, listing, i + 1);
            return Err(Malformed);
          }
          matched := matched + [LessonFile(m.0, disk[entry].body, m.1)];
      }
      assert listing[..|listing|] == listing;
      r := Ok(Sort(matched, ById));
    }
  }

  predicate ById(a: LessonFile, b: LessonFile) {
    a.id < b.id
  }

  function Matched(d: Disk, listing: seq<string>): Result<seq<LessonFile>, Failure>
    requires forall name | name in listing :: name in d
  {
    if listing == [] then Ok([])
    else
      var entry := listing[|listing| - 1];
      match Matched(d, listing[..|listing| - 1])
      case Err(e) => Err(e)
      case Ok(before) =>
        match ParseLessonName(entry)
        case None => Ok(before)
        case Some(m) =>
          if d[entry].LessonText? then Ok(before + [LessonFile(m.0, d[entry].body, m.1)]) else Err(Malformed)
  }

  lemma {:induction false} MatchedFails(d: Disk, listing: seq<string>, i: nat)
    requires (forall name | name in listing :: name in d) && i <= |listing|
    requires forall name | name in listing[..i] :: name in d
    requires Matched(d, listing[..i]).Err?
    ensures Matched(d, listing) == Matched(d, listing[..i])
    decreases |listing|
  {
    if i == |listing| {
      assert listing[..i] == listing;
    } else {
      assert listing[..|listing| - 1][..i] == listing[..i];
      MatchedFails(d, listing[..|listing| - 1], i);
    }
  }

  function ReadAll(d: Disk, listing: seq<string>): Result<seq<LessonFile>, Failure>
    requires forall name | name in listing :: name in d
  {
    match Matched(d, listing)
    case Err(e) => Err(Malformed)
    case Ok(matched) => Ok(Sort(matched, ById))
  }

  // ---------------------------------------------------------------------------------------------
  // Consistency
  // ---------------------------------------------------------------------------------------------

  /**
    The version, if there, is whole and counts k lessons; lessons 1..k are there and whole; besides them at
    most lesson k+1, whole too; and no other file could be taken for a lesson.
  */
  ghost predicate Consistent(d: Disk) {
    && Read(d).Ok?
    && (forall n: nat | LessonName(n) in d :: d[LessonName(n)].LessonText? && 1 <= n <= Revision(d) + 1)
    && (forall n: nat | 1 <= n <= Revision(d) :: LessonName(n) in d)
    && (VERSION_FILE !in d ==> forall n: nat :: LessonName(n) !in d)
    && (forall name | name in d && ParseLessonName(name).Some? :: name == LessonName(ParseLessonName(name).value.0))
  }

  /** How many lessons count. */
  function Revision(d: Disk): nat
    requires Read(d).Ok?
  {
    match Read(d).value
    case None => 0
    case Some(v) => v.revision
  }

  /** The lessons that count, in order. */
  ghost function Log(d: Disk): (r: seq<string>)
    requires Consistent(d)
    ensures |r| == Revision(d)
  {
    seq(Revision(d), i requires 0 <= i < Revision(d) => d[LessonName(i + 1)].body)
  }

  lemma LessonNamesDiffer(m: nat, n: nat)
    ensures LessonName(m) == LessonName(n) ==> m == n
    ensures LessonName(m) != VERSION_FILE
  {
    NamesReadBack(m, "");
    NamesReadBack(n, "");
  }

  /** Files that are neither the version nor a lesson do not matter. */
  lemma Bystander(d: Disk, tmp: string, after: Disk)
    requires Consistent(d) && tmp != VERSION_FILE && ParseLessonName(tmp) == None
    requires forall name :: name != tmp ==> (name in after <==> name in d) && (name in d ==> after[name] == d[name])
    ensures Consistent(after) && Read(after) == Read(d) && Log(after) == Log(d)
  {
    hide ParseLessonName, LessonName;
    forall n: nat ensures LessonName(n) != tmp {
      NamesReadBack(n, "");
    }
    assert Read(after) == Read(d);
  }

  /** Putting lesson k+1 in place, over an orphan or not, leaves what counts as it was. */
  lemma OrphanDoesNotCount(d: Disk, body: string, after: Disk)
    requires Consistent(d) && VERSION_FILE in d
    requires after == d[LessonName(Revision(d) + 1) := LessonText(body)]
    ensures Consistent(after) && Read(after) == Read(d) && Log(after) == Log(d)
  {
    hide ParseLessonName, LessonName;
    var k := Revision(d) + 1;
    NamesReadBack(k, "");
    assert Read(after) == Read(d);
    forall n: nat ensures n != k ==> LessonName(n) != LessonName(k) {
      LessonNamesDiffer(n, k);
    }
  }

  /** Replacing the version by one that counts one more lesson, which is in place, appends that lesson. */
  lemma CountingAppends(d: Disk, v: Version, after: Disk)
    requires Consistent(d) && Read(d) == Ok(Some(v)) && LessonName(v.revision + 1) in d
    requires after == d[VERSION_FILE := VersionText(v.(revision := v.revision + 1))]
    ensures Consistent(after) && Read(after) == Ok(Some(v.(revision := v.revision + 1)))
    ensures Log(after) == Log(d) + [d[LessonName(v.revision + 1)].body]
  {
    hide ParseLessonName, LessonName;
    assert Revision(d) == v.revision;
    NamesReadBack(0, "");
    forall n: nat ensures LessonName(n) != VERSION_FILE {
      LessonNamesDiffer(n, n);
    }
    assert Read(after) == Ok(Some(v.(revision := v.revision + 1)));
    assert forall n: nat | 1 <= n <= v.revision + 1 :: LessonName(n) in after;
  }

  /** A file written through a temporary one: until the rename nothing counts; then only the file has changed. */
  lemma WriteIsAtomic(d: Disk, path: string, token: string, content: File)
    requires Consistent(d) && (path == VERSION_FILE || exists n: nat :: path == LessonName(n))
    ensures var trace := WriteTrace(d, path, token, content);
      && (forall i | 0 <= i < 2 :: Consistent(trace[i]) && Read(trace[i]) == Read(d) && Log(trace[i]) == Log(d))
      && trace[2] == (d - {TempName(path, token)})[path := content]
      && Consistent(d - {TempName(path, token)}) && Read(d - {TempName(path, token)}) == Read(d)
      && Log(d - {TempName(path, token)}) == Log(d)
  {
    hide ParseLessonName, LessonName, Consistent, Log, Read, TempName;
    var tmp := TempName(path, token);
    if path == VERSION_FILE {
      NamesReadBack(0, token);
    } else {
      var n: nat :| path == LessonName(n);
      NamesReadBack(n, token);
    }
    Bystander(d, tmp, d[tmp := Torn]);
    Bystander(d, tmp, d[tmp := content]);
    Bystander(d, tmp, d - {tmp});
  }

  /**
    Appending is atomic: after every step but the last the lessons that count, and the version, are the old
    ones; after the last they are the old ones and the new one, an orphan in its place being replaced.
  */
  lemma AppendIsAtomic(d: Disk, v: Version, body: string, token1: string, token2: string, steps: nat)
    requires Consistent(d) && Read(d) == Ok(Some(v))
    ensures var after := After(d, AppendTrace(d, v, body, token1, token2), steps);
      && Consistent(after)
      && Read(after) == Ok(Some(if steps >= 6 then v.(revision := v.revision + 1) else v))
      && Log(after) == if steps >= 6 then Log(d) + [body] else Log(d)
  {
    hide LessonName, ParseLessonName, Consistent, Log, TempName;
    var lesson := LessonName(v.revision + 1);
    LessonNamesDiffer(v.revision + 1, 0);
    HasVersion(d, v);
    var first := WriteTrace(d, lesson, token1, LessonText(body));
    var cleared := d - {TempName(lesson, token1)};
    WriteIsAtomic(d, lesson, token1, LessonText(body));
    HasVersion(cleared, v);
    OrphanDoesNotCount(cleared, body, first[2]);
    var cleared2 := first[2] - {TempName(VERSION_FILE, token2)};
    WriteIsAtomic(first[2], VERSION_FILE, token2, VersionText(v.(revision := v.revision + 1)));
    NamesReadBack(v.revision + 1, token2);
    assert cleared2[lesson] == LessonText(body);
    CountingAppends(cleared2, v, cleared2[VERSION_FILE := VersionText(v.(revision := v.revision + 1))]);
    assert forall i | 0 <= i < 3 :: AppendTrace(d, v, body, token1, token2)[i] == first[i];
  }

  lemma HasVersion(d: Disk, v: Version)
    requires Read(d) == Ok(Some(v))
    ensures VERSION_FILE in d && Revision(d) == v.revision
  {
  }

  /** A first version appears whole or not at all, and counts no lesson. */
  lemma InitIsAtomic(d: Disk, baseVersion: string, token: string, steps: nat)
    requires Consistent(d) && Read(d) == Ok(None)
    ensures var after := After(d, InitTrace(d, baseVersion, token), steps);
      && Consistent(after) && Log(after) == [] == Log(d)
      && Read(after) == Ok(if steps >= 3 then Some(Version(baseVersion, 0, None)) else None)
  {
    hide LessonName, ParseLessonName, TempName;
    WriteIsAtomic(d, VERSION_FILE, token, VersionText(Version(baseVersion, 0, None)));
    FirstVersion(d - {TempName(VERSION_FILE, token)}, Version(baseVersion, 0, None));
    assert |Log(d)| == 0;
  }

  lemma FirstVersion(d: Disk, v: Version)
    requires Consistent(d) && Read(d) == Ok(None) && v.revision == 0
    ensures Consistent(d[VERSION_FILE := VersionText(v)]) && Read(d[VERSION_FILE := VersionText(v)]) == Ok(Some(v))
    ensures Log(d[VERSION_FILE := VersionText(v)]) == []
  {
    hide LessonName, ParseLessonName;
    NamesReadBack(0, "");
    forall n: nat ensures LessonName(n) != VERSION_FILE {
      LessonNamesDiffer(n, n);
    }
    var after := d[VERSION_FILE := VersionText(v)];
    assert Read(after) == Ok(Some(v));
    assert forall n: nat :: LessonName(n) !in after;
    assert |Log(after)| == 0;
  }

  // ---------------------------------------------------------------------------------------------
  // Every run
  // ---------------------------------------------------------------------------------------------

  /** A call, and how many steps the machine takes before it crashes, if it does; it is then started again. */
  datatype Call =
    | Init(baseVersion: string, token: string, steps: nat)
    | Append(body: string, token1: string, token2: string, steps: nat)

  function Step(d: Disk, c: Call): Disk {
    match (Read(d), c)
    case (Ok(None), Init(baseVersion, token, steps)) => After(d, InitTrace(d, baseVersion, token), steps)
    case (Ok(Some(v)), Append(body, token1, token2, steps)) => After(d, AppendTrace(d, v, body, token1, token2), steps)
    case _ => d
  }

  ghost predicate IsRun(disks: seq<Disk>, calls: seq<Call>) {
    && |disks| == |calls| + 1 && disks[0] == map[]
    && forall k | 0 <= k < |calls| :: disks[k + 1] == Step(disks[k], calls[k])
  }

  lemma EmptyIsConsistent()
    ensures Consistent(map[])
  {
    hide LessonName, ParseLessonName;
  }

  lemma StepKeeps(d: Disk, c: Call)
    requires Consistent(d)
    ensures Consistent(Step(d, c)) && Log(d) <= Log(Step(d, c))
    ensures Read(d).value.Some? ==>
      && Read(Step(d, c)).value.Some?
      && Read(Step(d, c)).value.value.baseVersion == Read(d).value.value.baseVersion
      && Read(Step(d, c)).value.value.lastMerged == Read(d).value.value.lastMerged
  {
    hide Consistent, Log, AppendTrace, InitTrace;
    ReadsWell(d);
    match c
    case Init(baseVersion, token, steps) =>
      if Read(d).value.None? {
        InitIsAtomic(d, baseVersion, token, steps);
      }
    case Append(body, token1, token2, steps) =>
      if Read(d).value.Some? {
        AppendIsAtomic(d, Read(d).value.value, body, token1, token2, steps);
      }
  }

  lemma ReadsWell(d: Disk)
    requires Consistent(d)
    ensures Read(d).Ok?
  {
  }

  lemma {:induction false} RunIsConsistent(disks: seq<Disk>, calls: seq<Call>, k: nat)
    requires IsRun(disks, calls) && k < |disks|
    ensures Consistent(disks[k])
  {
    hide Consistent, Step;
    if k == 0 {
      EmptyIsConsistent();
    } else {
      RunIsConsistent(disks, calls, k - 1);
      StepKeeps(disks[k - 1], calls[k - 1]);
      assert disks[k - 1 + 1] == Step(disks[k - 1], calls[k - 1]);
    }
  }

  /**
    In every run, with a crash allowed after any step of any call: the directory is consistent at every
    moment, lessons that count stay, unchanged and in place, and neither the revision goes back nor is the
    version the directory was initialised with overwritten.
  */
  lemma {:induction false} LogOnlyGrows(disks: seq<Disk>, calls: seq<Call>, j: nat, k: nat)
    requires IsRun(disks, calls) && j <= k < |disks|
    ensures Consistent(disks[j]) && Consistent(disks[k]) && Log(disks[j]) <= Log(disks[k])
    ensures Revision(disks[j]) <= Revision(disks[k])
    ensures Read(disks[j]).value.Some? ==>
      && Read(disks[k]).value.Some?
      && Read(disks[k]).value.value.baseVersion == Read(disks[j]).value.value.baseVersion
    decreases k
  {
    hide Consistent, Step, Log, Read;
    RunIsConsistent(disks, calls, j);
    RunIsConsistent(disks, calls, k);
    LogLength(disks[j]);
    LogLength(disks[k]);
    if j < k {
      LogOnlyGrows(disks, calls, j, k - 1);
      StepKeeps(disks[k - 1], calls[k - 1]);
      assert disks[k - 1 + 1] == Step(disks[k - 1], calls[k - 1]);
    }
  }

  lemma LogLength(d: Disk)
    requires Consistent(d)
    ensures Read(d).Ok? && |Log(d)| == Revision(d)
  {
  }

  /** An append that returned is never lost: its lesson keeps the number returned, in every later state. */
  lemma AcknowledgedAppendStays(disks: seq<Disk>, calls: seq<Call>, j: nat, k: nat)
    requires IsRun(disks, calls) && j < k < |disks|
    requires calls[j].Append? && calls[j].steps >= 6 && Read(disks[j]).Ok? && Read(disks[j]).value.Some?
    ensures var id := Read(disks[j]).value.value.revision + 1;
      && Consistent(disks[k]) && id <= Revision(disks[k]) && Log(disks[k])[id - 1] == calls[j].body
  {
    hide Consistent, Log, AppendTrace;
    var v, c := Read(disks[j]).value.value, calls[j];
    RunIsConsistent(disks, calls, j);
    AppendIsAtomic(disks[j], v, c.body, c.token1, c.token2, c.steps);
    assert disks[j + 1] == Step(disks[j], c);
    LogLength(disks[j]);
    LogOnlyGrows(disks, calls, j + 1, k);
    LogLength(disks[k]);
    assert Log(disks[j + 1])[v.revision] == c.body;
  }

  // ---------------------------------------------------------------------------------------------
  // Reading
  // ---------------------------------------------------------------------------------------------

  /** A directory listing: every name once, in any order. */
  ghost predicate Lists(d: Disk, listing: seq<string>) {
    && (forall name :: name in listing <==> name in d)
    && forall i, j | 0 <= i < j < |listing| :: listing[i] != listing[j]
  }

  ghost predicate HasOrphan(d: Disk)
    requires Read(d).Ok?
  {
    LessonName(Revision(d) + 1) in d
  }

  ghost predicate HasId(files: seq<LessonFile>, n: nat) {
    exists i | 0 <= i < |files| :: files[i].id == n
  }

  lemma {:induction false} MatchedAreTheLessons(d: Disk, listing: seq<string>)
    requires Consistent(d) && (forall name | name in listing :: name in d)
    requires forall i, j | 0 <= i < j < |listing| :: listing[i] != listing[j]
    ensures Matched(d, listing).Ok?
    ensures forall f | f in Matched(d, listing).value ::
      LessonName(f.id) in listing && f == LessonFile(f.id, d[LessonName(f.id)].body, false)
    ensures forall n: nat | LessonName(n) in listing ::
      HasId(Matched(d, listing).value, n)
    ensures forall i, j | 0 <= i < j < |Matched(d, listing).value| ::
      Matched(d, listing).value[i].id != Matched(d, listing).value[j].id
    decreases |listing|
  {
    hide ParseLessonName, LessonName;
    if listing != [] {
      var front, entry := listing[..|listing| - 1], listing[|listing| - 1];
      MatchedAreTheLessons(d, front);
      var before, all := Matched(d, front).value, Matched(d, listing);
      assert entry in listing && entry !in front;
      forall n: nat ensures ParseLessonName(LessonName(n)) == Some((n, false)) {
        NamesReadBack(n, "");
      }
      forall n: nat | LessonName(n) in listing ensures HasId(all.value, n) {
        if LessonName(n) == entry {
          assert all.value[|before|].id == n;
        } else {
          assert LessonName(n) in front;
          assert HasId(before, n);
          var i :| 0 <= i < |before| && before[i].id == n;
          assert all.value[i].id == n;
        }
      }
    }
  }

  lemma ReadsTheLessons(d: Disk, listing: seq<string>)
    requires Consistent(d) && Lists(d, listing)
    ensures ReadAll(d, listing).Ok?
    ensures var files := ReadAll(d, listing).value;
      && Sorted(files, ById) && DistinctBy(files, (f: LessonFile) => f.id)
      && (forall i | 0 <= i < |files| ::
            LessonName(files[i].id) in d && files[i] == LessonFile(files[i].id, d[LessonName(files[i].id)].body, false))
      && (forall n: nat | LessonName(n) in d :: HasId(files, n))
  {
    hide LessonName, ParseLessonName, Matched, Sort, Consistent;
    MatchedAreTheLessons(d, listing);
    var matched := Matched(d, listing).value;
    var files := Sort(matched, ById);
    SortSorts(matched, ById);
    RearrangedIsDistinct(matched, files, (f: LessonFile) => f.id);
    forall i | 0 <= i < |files| ensures files[i] in matched {
      SameElements(matched, ById, files[i]);
    }
    forall n: nat | LessonName(n) in d ensures HasId(files, n) {
      assert LessonName(n) in listing;
      var i :| 0 <= i < |matched| && matched[i].id == n;
      SameElements(matched, ById, matched[i]);
      var j :| 0 <= j < |files| && files[j] == matched[i];
      assert files[j].id == n;
    }
  }

  /** The number of the last lesson on disk, counted or not. */
  ghost function Last(d: Disk): nat
    requires Read(d).Ok?
  {
    Revision(d) + if HasOrphan(d) then 1 else 0
  }

  lemma LessonsOnDisk(d: Disk, n: nat)
    requires Consistent(d)
    ensures LessonName(n) in d <==> 1 <= n <= Last(d)
  {
    hide LessonName, ParseLessonName;
  }

  /** `f` is what lesson `n` on disk reads as. */
  predicate IsLessonAt(d: Disk, n: nat, f: LessonFile) {
    LessonName(n) in d && d[LessonName(n)].LessonText? && f == LessonFile(n, d[LessonName(n)].body, false)
  }

  function Bodies(files: seq<LessonFile>): (r: seq<string>)
    ensures |r| == |files|
  {
    seq(|files|, i requires 0 <= i < |files| => files[i].body)
  }

  /**
    Reading a directory, listed in any order, gives the lessons that count, in order and whole, and after
    them the one that a crashed append left uncounted, if there is one: so it reads exactly what counts
    if and only if there is no such orphan.
  */
  lemma ReadsTheLog(d: Disk, listing: seq<string>)
    requires Consistent(d) && Lists(d, listing)
    ensures ReadAll(d, listing).Ok?
    ensures var files := ReadAll(d, listing).value;
      && |files| == Revision(d) + (if HasOrphan(d) then 1 else 0)
      && (forall i | 0 <= i < |files| :: IsLessonAt(d, i + 1, files[i]))
      && (forall i | 0 <= i < Revision(d) :: files[i].body == Log(d)[i])
    ensures Bodies(ReadAll(d, listing).value) == Log(d) <==> !HasOrphan(d)
  {
    hide LessonName, ReadAll, Consistent, Last;
    ReadsWell(d);
    ReadsTheLessons(d, listing);
    var files := ReadAll(d, listing).value;
    forall n: nat | 1 <= n <= Last(d) ensures HasId(files, n) {
      LessonsOnDisk(d, n);
    }
    forall i | 0 <= i < |files| ensures 1 <= files[i].id <= Last(d) {
      LessonsOnDisk(d, files[i].id);
    }
    Consecutive(files, Last(d));
    LastIs(d);
    forall i | 0 <= i < |files| ensures IsLessonAt(d, i + 1, files[i]) {
      LessonIsText(d, files[i].id);
    }
    forall i | 0 <= i < Revision(d) ensures files[i].body == Log(d)[i] {
      LogAt(d, i);
    }
    assert |Bodies(files)| == |files| && |Log(d)| == Revision(d);
  }

  lemma LessonIsText(d: Disk, n: nat)
    requires Consistent(d) && LessonName(n) in d
    ensures d[LessonName(n)].LessonText?
  {
    hide LessonName;
  }

  lemma LogAt(d: Disk, i: nat)
    requires Consistent(d) && i < Revision(d)
    ensures LessonName(i + 1) in d && d[LessonName(i + 1)].LessonText? && Log(d)[i] == d[LessonName(i + 1)].body
  {
    hide LessonName;
  }

  lemma LastIs(d: Disk)
    requires Consistent(d)
    ensures Last(d) == Revision(d) + if HasOrphan(d) then 1 else 0
  {
  }

  /** Orphans do arise: an append that crashes between its two renames leaves one. */
  lemma CrashLeavesAnOrphan(baseVersion: string, body: string, token: string)
    ensures exists disks: seq<Disk>, calls: seq<Call> ::
      IsRun(disks, calls) && Read(disks[|calls|]).Ok? && HasOrphan(disks[|calls|])
  {
    hide LessonName, ParseLessonName, TempName;
    var empty: Disk := map[];
    var init := Init(baseVersion, token, 3);
    var one := Step(empty, init);
    EmptyIsConsistent();
    InitIsAtomic(empty, baseVersion, token, 3);
    var v := Version(baseVersion, 0, None);
    assert Read(one) == Ok(Some(v));
    var append := Append(body, token, token, 3);
    var two := Step(one, append);
    AppendIsAtomic(one, v, body, token, token, 3);
    assert two == WriteTrace(one, LessonName(1), token, LessonText(body))[2];
    assert IsRun([empty, one, two], [init, append]);
    assert HasOrphan([empty, one, two][2]);
  }

  /** Sorted distinct numbers that are exactly 1..last are 1..last. */
  lemma {:induction false} Consecutive(files: seq<LessonFile>, last: nat)
    requires Sorted(files, ById) && DistinctBy(files, (f: LessonFile) => f.id)
    requires forall i | 0 <= i < |files| :: 1 <= files[i].id <= last
    requires forall n: nat | 1 <= n <= last :: HasId(files, n)
    ensures |files| == last && forall i | 0 <= i < last :: files[i].id == i + 1
  {
    forall i, j | 0 <= i < j < |files| ensures files[i].id < files[j].id {
      assert !ById(files[j], files[i]);
    }
    for i := 0 to last
      invariant i <= |files| && forall h | 0 <= h < i :: files[h].id == h + 1
      invariant forall h | i <= h < |files| :: files[h].id > i
    {
      assert HasId(files, i + 1);
      var p :| 0 <= p < |files| && files[p].id == i + 1;
      assert p >= i && files[i].id <= files[p].id;
    }
  }
}
