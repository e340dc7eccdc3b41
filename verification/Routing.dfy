/**
  Which session a chat message belongs to, and where its answer goes (src/channels/routing.ts), up to the
  address that the gateway parses out of the wire form (src/channels/gateway.ts).
*/
module Routing {
  import opened Wrappers
  import Json
  import Text

  const GENERAL := "general"

  datatype Platform = Telegram | Discord | Slack

  datatype Target = Target(chatId: string, topicId: Option<int>)

  datatype Umbrella = Umbrella(id: string, members: seq<string>, telegram: Option<Target>)

  datatype General = General(chatId: string, dmUserIds: seq<string>, ownsGeneralThread: bool)

  datatype Config = Config(umbrellas: seq<Umbrella>, general: Option<General>, platform: Option<Platform>)

  /** What a resolver needs of an inbound message. */
  datatype Inbound = Inbound(chatId: string, topicId: Option<int>, senderId: string, direct: bool)

  /** What the schema guarantees of every configuration. */
  predicate IsConfig(cfg: Config) {
    forall i | 0 <= i < |cfg.umbrellas| :: cfg.umbrellas[i].id != GENERAL
  }

  // ---------------------------------------------------------------------------------------------
  // Resolution
  // ---------------------------------------------------------------------------------------------

  /** The first row bound to exactly this chat and topic. */
  function RowOf(rows: seq<Umbrella>, target: Target): Option<string> {
    if rows == [] then None
    else if rows[0].telegram == Some(target) then Some(rows[0].id)
    else RowOf(rows[1..], target)
  }

  function ResolveInbound(cfg: Config, key: Inbound): Option<string> {
    if key.direct then
      if cfg.general.Some? && key.senderId in cfg.general.value.dmUserIds then Some(GENERAL) else None
    else
      match RowOf(cfg.umbrellas, Target(key.chatId, key.topicId))
      case Some(id) => Some(id)
      case None =>
        if cfg.general.Some? && cfg.general.value.ownsGeneralThread
           && cfg.general.value.chatId == key.chatId && key.topicId == None
        then Some(GENERAL)
        else None
  }

  function TargetOf(rows: seq<Umbrella>, id: string): Option<Target> {
    if rows == [] then None
    else if rows[0].id == id then rows[0].telegram
    else TargetOf(rows[1..], id)
  }

  function ResolveOutbound(cfg: Config, id: string): Option<Target> {
    if id == GENERAL then
      if cfg.general.Some? then Some(Target(cfg.general.value.chatId, None)) else None
    else TargetOf(cfg.umbrellas, id)
  }

  /** No two rows have the same id. */
  predicate DistinctIds(rows: seq<Umbrella>) {
    forall i, j | 0 <= i < j < |rows| :: rows[i].id != rows[j].id
  }

  /** No two rows are bound to the same chat and topic. */
  predicate DistinctBindings(rows: seq<Umbrella>) {
    forall i, j | 0 <= i < j < |rows| && rows[i].telegram.Some? :: rows[i].telegram != rows[j].telegram
  }

  lemma {:induction false} RowOfIsFirst(rows: seq<Umbrella>, target: Target)
    ensures RowOf(rows, target).None? <==> forall i | 0 <= i < |rows| :: rows[i].telegram != Some(target)
    ensures RowOf(rows, target).Some? ==>
      exists i | 0 <= i < |rows| :: IsFirstBound(rows, target, i) && RowOf(rows, target).value == rows[i].id
    decreases |rows|
  {
    if rows != [] && rows[0].telegram == Some(target) {
      assert IsFirstBound(rows, target, 0);
    } else if rows != [] {
      RowOfIsFirst(rows[1..], target);
      if RowOf(rows, target).Some? {
        var i :| 0 <= i < |rows| - 1 && IsFirstBound(rows[1..], target, i) && RowOf(rows[1..], target).value == rows[1..][i].id;
        assert forall h | 0 <= h < i + 1 :: h > 0 ==> rows[h] == rows[1..][h - 1];
        assert IsFirstBound(rows, target, i + 1);
      } else {
        assert forall i | 0 < i < |rows| :: rows[i] == rows[1..][i - 1];
      }
    }
  }

  predicate IsFirstBound(rows: seq<Umbrella>, target: Target, i: nat) {
    && i < |rows| && rows[i].telegram == Some(target)
    && forall h | 0 <= h < i :: rows[h].telegram != Some(target)
  }

  lemma {:induction false} TargetOfRow(rows: seq<Umbrella>, i: nat)
    requires i < |rows| && DistinctIds(rows)
    ensures TargetOf(rows, rows[i].id) == rows[i].telegram
    decreases |rows|
  {
    if i > 0 {
      assert rows[1..][i - 1] == rows[i] && rows[0].id != rows[i].id;
      TargetOfRow(rows[1..], i - 1);
    }
  }

  /** A message that is not direct, at the place a row is bound to. */
  function MessageAt(target: Target, sender: string): Inbound {
    Inbound(target.chatId, target.topicId, sender, false)
  }

  /**
    Inbound and outbound are inverse on all rows exactly when no two rows share a chat and topic: then a
    message where an umbrella's answers go belongs to that umbrella.
  */
  lemma InverseIffDistinctBindings(cfg: Config, sender: string)
    requires DistinctIds(cfg.umbrellas)
    ensures DistinctBindings(cfg.umbrellas) <==>
      forall i | 0 <= i < |cfg.umbrellas| && cfg.umbrellas[i].telegram.Some? ::
        ResolveInbound(cfg, MessageAt(cfg.umbrellas[i].telegram.value, sender)) == Some(cfg.umbrellas[i].id)
  {
    var rows := cfg.umbrellas;
    forall i | 0 <= i < |rows| && rows[i].telegram.Some? && DistinctBindings(rows)
      ensures ResolveInbound(cfg, MessageAt(rows[i].telegram.value, sender)) == Some(rows[i].id)
    {
      RowOfIsFirst(rows, rows[i].telegram.value);
    }
    if i, j :| 0 <= i < j < |rows| && rows[i].telegram.Some? && rows[i].telegram == rows[j].telegram {
      RowOfIsFirst(rows, rows[i].telegram.value);
      assert ResolveInbound(cfg, MessageAt(rows[i].telegram.value, sender))
          == ResolveInbound(cfg, MessageAt(rows[j].telegram.value, sender));
      assert rows[i].id != rows[j].id;
    }
  }

  /**
    Reply to source: the answer to a resolved message goes to the chat and topic it came from, unless it was
    direct; the answer to a direct message goes to the general chat, whichever chat it came from.
  */
  lemma ReplyGoesToSource(cfg: Config, key: Inbound)
    requires IsConfig(cfg) && DistinctIds(cfg.umbrellas) && ResolveInbound(cfg, key).Some?
    ensures ResolveOutbound(cfg, ResolveInbound(cfg, key).value) == Some(Target(key.chatId, key.topicId)) <==>
            !key.direct || (cfg.general.value.chatId == key.chatId && key.topicId == None)
    ensures key.direct ==>
            cfg.general.Some? &&
            ResolveOutbound(cfg, ResolveInbound(cfg, key).value) == Some(Target(cfg.general.value.chatId, None))
  {
    var rows := cfg.umbrellas;
    if !key.direct {
      var target := Target(key.chatId, key.topicId);
      RowOfIsFirst(rows, target);
      if RowOf(rows, target).Some? {
        var i :| 0 <= i < |rows| && IsFirstBound(rows, target, i) && RowOf(rows, target).value == rows[i].id;
        TargetOfRow(rows, i);
      }
    }
  }

  /** An answer to a direct message goes to the general chat, not to the chat the message came from. */
  lemma DirectAnswerGoesToGeneral()
    ensures var cfg := Config([], Some(General("office", ["ann"], true)), Some(Telegram));
      var key := Inbound("ann's chat", None, "ann", true);
      && IsConfig(cfg) && ResolveInbound(cfg, key) == Some(GENERAL)
      && ResolveOutbound(cfg, GENERAL) == Some(Target("office", None))
  {
  }

  // ---------------------------------------------------------------------------------------------
  // The wire
  // ---------------------------------------------------------------------------------------------

  function PlatformName(p: Platform): string {
    match p
    case Telegram => "telegram"
    case Discord => "discord"
    case Slack => "slack"
  }

  /** `String(n)` for an integer. */
  function IntText(n: int): (s: string)
    ensures s != ""
  {
    if n < 0 then "-" + Json.Decimal(-n) else Json.Decimal(n)
  }

  datatype Channel = Channel(channel: string, threadId: Option<string>)

  function ThreadOf(topicId: Option<int>): Option<string> {
    match topicId
    case None => None
    case Some(t) => Some(IntText(t))
  }

  function ResolvePlatformChannel(cfg: Config, id: string, p: Platform): Option<Channel> {
    match ResolveOutbound(cfg, id)
    case None => None
    case Some(t) => Some(Channel(PlatformName(p) + ":" + t.chatId, ThreadOf(t.topicId)))
  }

  function ResolveConfiguredChannel(cfg: Config, id: string): Option<Channel> {
    ResolvePlatformChannel(cfg, id, if cfg.platform.Some? then cfg.platform.value else Telegram)
  }

  datatype GatewayError = MalformedChannel | UnknownPlatform(name: string)

  datatype Address = Address(platform: Platform, uri: string)

  function TelegramUri(chat: string, thread: Option<string>): string {
    "telegram://" + chat + if thread.Some? && thread.value != "" then "/" + thread.value else ""
  }

  function ParseChannel(channel: string, threadId: Option<string>): Result<Address, GatewayError> {
    match Text.IndexOf(channel, ':')
    case None => Err(MalformedChannel)
    case Some(i) =>
      var name, rest := channel[..i], channel[i + 1..];
      if name == "telegram" then
        var (chat, embedded) := match Text.IndexOf(rest, ':')
          case None => (rest, None)
          case Some(j) => (rest[..j], Some(rest[j + 1..]));
        Ok(Address(Telegram, TelegramUri(chat, if threadId.Some? then threadId else embedded)))
      else if name == "discord" then Ok(Address(Discord, "discord://" + rest))
      else if name == "slack" then Ok(Address(Slack, "slack://" + rest))
      else Err(UnknownPlatform(name))
  }

  lemma FirstColon(name: string, rest: string)
    requires ':' !in name
    ensures Text.IndexOf(name + ":" + rest, ':') == Some(|name|)
    ensures (name + ":" + rest)[..|name|] == name && (name + ":" + rest)[|name| + 1..] == rest
  {
    var s := name + ":" + rest;
    assert s[|name|] == ':' && forall i | 0 <= i < |name| :: s[i] == name[i];
    var i := Text.IndexOf(s, ':').value;
    assert forall k | 0 <= k < i :: s[k] == s[..i][k];
  }

  /**
    What the gateway makes of a formatted channel: on telegram, the address names the bound chat and topic
    exactly when the chat id holds no colon; on the other platforms the topic is dropped.
  */
  lemma FormattedChannelParses(t: Target, p: Platform)
    ensures var r := ParseChannel(PlatformName(p) + ":" + t.chatId, ThreadOf(t.topicId));
      && r.Ok? && r.value.platform == p
      && (p == Telegram ==> (r.value.uri == TelegramUri(t.chatId, ThreadOf(t.topicId)) <==> ':' !in t.chatId))
      && (p != Telegram ==> r.value.uri == PlatformName(p) + "://" + t.chatId)
  {
    hide Text.IndexOf, TelegramUri, IntText;
    FirstColon(PlatformName(p), t.chatId);
    if p == Telegram && ':' in t.chatId {
      ColonIsCutOff(t.chatId, ThreadOf(t.topicId));
    }
  }

  /**
    A colon in a telegram chat id is read as the start of a topic, so that two targets share an address; on
    discord two topics of one chat share it.
  */
  lemma TwoTargetsShareAnAddress()
    ensures ParseChannel(PlatformName(Telegram) + ":" + "a:7", ThreadOf(None))
         == ParseChannel(PlatformName(Telegram) + ":" + "a", ThreadOf(Some(7)))
    ensures ParseChannel(PlatformName(Discord) + ":" + "a", ThreadOf(Some(7)))
         == ParseChannel(PlatformName(Discord) + ":" + "a", ThreadOf(Some(8)))
  {
    hide Text.IndexOf;
    FirstColon("telegram", "a:7");
    FirstColon("telegram", "a");
    FirstColon("a", "7");
    FirstColon("discord", "a");
    assert "a:7" == "a" + ":" + "7";
    assert IntText(7) == "7";
  }

  lemma ColonIsCutOff(chat: string, thread: Option<string>)
    requires ':' in chat && (thread.Some? ==> thread.value != "")
    ensures var j := Text.IndexOf(chat, ':').value;
      TelegramUri(chat[..j], if thread.Some? then thread else Some(chat[j + 1..])) != TelegramUri(chat, thread)
  {
    var j := Text.IndexOf(chat, ':').value;
    var k := |"telegram://"| + j;
    var cut := TelegramUri(chat[..j], if thread.Some? then thread else Some(chat[j + 1..]));
    var whole := TelegramUri(chat, thread);
    assert whole[k] == ':';
    assert |cut| <= k || cut[k] == '/';
  }

  /**
    The whole way: the answer to a message in a group is sent to an address that names the chat and topic the
    message came from.
  */
  lemma AnswerReachesTheSource(cfg: Config, key: Inbound)
    requires IsConfig(cfg) && DistinctIds(cfg.umbrellas) && ResolveInbound(cfg, key).Some? && !key.direct
    requires ':' !in key.chatId && cfg.platform in {None, Some(Telegram)}
    ensures var out := ResolveConfiguredChannel(cfg, ResolveInbound(cfg, key).value);
      && out.Some?
      && ParseChannel(out.value.channel, out.value.threadId)
         == Ok(Address(Telegram, TelegramUri(key.chatId, ThreadOf(key.topicId))))
  {
    hide ParseChannel, TelegramUri, ResolveInbound, ResolveOutbound;
    ReplyGoesToSource(cfg, key);
    FormattedChannelParses(Target(key.chatId, key.topicId), Telegram);
  }

  // ---------------------------------------------------------------------------------------------
  // Directories
  // ---------------------------------------------------------------------------------------------

  /** The directory is the member, or lies below it. */
  predicate Claims(member: string, cwd: string) {
    cwd == member || Text.StartsWith(cwd, member + "/")
  }

  /** Row `i` has a longest claiming member, and rows before it have only shorter ones. */
  predicate IsOwner(rows: seq<Umbrella>, cwd: string, i: nat, j: nat) {
    && i < |rows| && j < |rows[i].members| && Claims(rows[i].members[j], cwd)
    && (forall h, k | 0 <= h < |rows| && 0 <= k < |rows[h].members| && Claims(rows[h].members[k], cwd) ::
          |rows[h].members[k]| <= |rows[i].members[j]| && (h < i ==> |rows[h].members[k]| < |rows[i].members[j]|))
  }

  /** The umbrella with the longest claiming member, the first such row deciding; none when nothing claims. */
  ghost predicate Resolves(rows: seq<Umbrella>, cwd: string, r: Option<string>) {
    match r
    case None =>
      forall h, k | 0 <= h < |rows| && 0 <= k < |rows[h].members| :: !Claims(rows[h].members[k], cwd)
    case Some(id) => exists i: nat, j: nat :: IsOwner(rows, cwd, i, j) && rows[i].id == id
  }

  method ResolveUmbrellaForCwd(cfg: Config, cwd: string) returns (r: Option<string>)
    ensures Resolves(cfg.umbrellas, cwd, r)
  {
    var rows := cfg.umbrellas;
    var best: Option<(string, nat)> := None;
    ghost var bi: nat, bj: nat := 0, 0;
    for h := 0 to |rows|
      invariant Leading(rows, cwd, h, 0, best, bi, bj)
    {
      for k := 0 to |rows[h].members|
        invariant Leading(rows, cwd, h, k, best, bi, bj)
      {
        var member := rows[h].members[k];
        if (cwd == member || Text.StartsWith(cwd, member + "/")) && (best.None? || |member| > best.value.1) {
          best := Some((rows[h].id, |member|));
          bi, bj := h, k;
        }
      }
    }
    if best.None? {
      return None;
    }
    assert IsOwner(rows, cwd, bi, bj);
    r := Some(best.value.0);
  }

  /** Position (h, k) lies before (i, j) in the order in which members are looked at. */
  predicate IsSeen(rows: seq<Umbrella>, h: nat, k: nat, i: nat, j: nat) {
    h < |rows| && k < |rows[h].members| && (h < i || (h == i && k < j))
  }

  /** `best` is the first longest claim among the members looked at. */
  ghost predicate Leading(
    rows: seq<Umbrella>, cwd: string, i: nat, j: nat, best: Option<(string, nat)>, bi: nat, bj: nat)
  {
    match best
    case None => forall h: nat, k: nat | IsSeen(rows, h, k, i, j) :: !Claims(rows[h].members[k], cwd)
    case Some((id, len)) =>
      && IsSeen(rows, bi, bj, i, j) && rows[bi].id == id && |rows[bi].members[bj]| == len
      && Claims(rows[bi].members[bj], cwd)
      && (forall h: nat, k: nat | IsSeen(rows, h, k, i, j) && Claims(rows[h].members[k], cwd) ::
            |rows[h].members[k]| <= len && (h < bi ==> |rows[h].members[k]| < len))
  }

  /** Claiming members of the same length are the same: both are how the directory's path begins. */
  lemma SameLengthSameMember(one: string, two: string, cwd: string)
    requires Claims(one, cwd) && Claims(two, cwd) && |one| == |two|
    ensures one == two
  {
    assert one == cwd[..|one|] by {
      if cwd != one {
        assert cwd[..|one|] == (one + "/")[..|one|];
      }
    }
    assert two == cwd[..|two|] by {
      if cwd != two {
        assert cwd[..|two|] == (two + "/")[..|two|];
      }
    }
  }

  /** The member is the longest that claims the directory. */
  ghost predicate IsLongest(rows: seq<Umbrella>, cwd: string, member: string) {
    && Claims(member, cwd)
    && forall h, k | 0 <= h < |rows| && 0 <= k < |rows[h].members| && Claims(rows[h].members[k], cwd) ::
         |rows[h].members[k]| <= |member|
  }

  /** The result is the id of a row with the longest claiming member. */
  lemma OwnerHasLongest(rows: seq<Umbrella>, cwd: string, r: Option<string>, row: Umbrella, member: string)
    requires Resolves(rows, cwd, r) && row in rows && member in row.members && IsLongest(rows, cwd, member)
    ensures r.Some? && exists o | o in rows :: member in o.members && o.id == r.value
  {
    var h :| 0 <= h < |rows| && rows[h] == row;
    var k :| 0 <= k < |row.members| && row.members[k] == member;
    assert Claims(rows[h].members[k], cwd);
    var i: nat, j: nat :| IsOwner(rows, cwd, i, j) && rows[i].id == r.value;
    SameLengthSameMember(rows[i].members[j], member, cwd);
    assert rows[i].members[j] in rows[i].members;
  }

  /** Longest claims do not depend on the order of the rows. */
  lemma LongestAnyOrder(one: seq<Umbrella>, two: seq<Umbrella>, cwd: string, member: string)
    requires multiset(one) == multiset(two) && IsLongest(one, cwd, member)
    ensures IsLongest(two, cwd, member)
  {
    forall h, k | 0 <= h < |two| && 0 <= k < |two[h].members| && Claims(two[h].members[k], cwd)
      ensures |two[h].members[k]| <= |member|
    {
      assert two[h] in multiset(one);
      var g :| 0 <= g < |one| && one[g] == two[h];
      assert Claims(one[g].members[k], cwd);
    }
  }

  lemma FrontRowWins(rows: seq<Umbrella>, row: Umbrella, cwd: string, member: string, r: Option<string>)
    requires rows != [] && rows[0] == row && member in row.members && IsLongest(rows, cwd, member)
    requires Resolves(rows, cwd, r)
    ensures r == Some(row.id)
  {
    var k :| 0 <= k < |row.members| && row.members[k] == member;
    assert Claims(rows[0].members[k], cwd);
    var i: nat, j: nat :| IsOwner(rows, cwd, i, j) && rows[i].id == r.value;
    assert |rows[i].members[j]| == |member|;
  }

  /** All rows that have the longest claiming member are the same umbrella. */
  ghost predicate LongestIsNotShared(rows: seq<Umbrella>, cwd: string) {
    forall a, b, m | a in rows && b in rows && m in a.members && m in b.members && IsLongest(rows, cwd, m) ::
      a.id == b.id
  }

  ghost predicate AnyOrderResolvesTo(rows: seq<Umbrella>, cwd: string, r: Option<string>) {
    forall other, s | multiset(other) == multiset(rows) && Resolves(other, cwd, s) :: s == r
  }

  function ToFront(rows: seq<Umbrella>, k: nat): (r: seq<Umbrella>)
    requires k < |rows|
    ensures multiset(r) == multiset(rows) && r[0] == rows[k]
  {
    assert rows == rows[..k] + [rows[k]] + rows[k + 1..];
    [rows[k]] + rows[..k] + rows[k + 1..]
  }

  lemma {:induction false} SomethingResolves(rows: seq<Umbrella>, cwd: string) returns (r: Option<string>)
    ensures Resolves(rows, cwd, r)
    decreases |rows|
  {
    if rows == [] {
      return None;
    }
    var n := |rows| - 1;
    var before := SomethingResolves(rows[..n], cwd);
    var best := LongestIn(rows[n].members, cwd);
    if before.None? {
      if best.None? {
        r := None;
      } else {
        assert IsOwner(rows, cwd, n, best.value);
        r := Some(rows[n].id);
      }
    } else {
      var i: nat, j: nat :| IsOwner(rows[..n], cwd, i, j) && rows[..n][i].id == before.value;
      if best.Some? && |rows[n].members[best.value]| > |rows[i].members[j]| {
        assert IsOwner(rows, cwd, n, best.value) by { assert forall h | 0 <= h < n :: rows[h] == rows[..n][h]; }
        r := Some(rows[n].id);
      } else {
        assert IsOwner(rows, cwd, i, j) by { assert forall h | 0 <= h < n :: rows[h] == rows[..n][h]; }
        r := before;
      }
    }
  }

  lemma {:induction false} LongestIn(members: seq<string>, cwd: string) returns (best: Option<nat>)
    ensures best.None? ==> forall k | 0 <= k < |members| :: !Claims(members[k], cwd)
    ensures best.Some? ==> best.value < |members| && Claims(members[best.value], cwd)
    ensures best.Some? ==> forall k | 0 <= k < |members| && Claims(members[k], cwd) :: |members[k]| <= |members[best.value]|
    decreases |members|
  {
    if members == [] {
      return None;
    }
    var n := |members| - 1;
    best := LongestIn(members[..n], cwd);
    assert forall k | 0 <= k < n :: members[k] == members[..n][k];
    if Claims(members[n], cwd) && (best.None? || |members[n]| > |members[best.value]|) {
      best := Some(n);
    }
  }

  /**
    The order of the rows matters exactly when the longest member that claims the directory stands in rows of
    different umbrellas.
  */
  lemma {:induction false} RowOrderMattersOnlyWhenShared(rows: seq<Umbrella>, cwd: string)
    ensures LongestIsNotShared(rows, cwd) <==> exists r :: AnyOrderResolvesTo(rows, cwd, r)
  {
    hide Claims;
    if LongestIsNotShared(rows, cwd) {
      var r := SomethingResolves(rows, cwd);
      forall other, s | multiset(other) == multiset(rows) && Resolves(other, cwd, s) ensures s == r {
        SameOwner(rows, other, cwd, r, s);
      }
      assert AnyOrderResolvesTo(rows, cwd, r);
    }
    if r :| AnyOrderResolvesTo(rows, cwd, r) {
      forall a, b, m | a in rows && b in rows && m in a.members && m in b.members && IsLongest(rows, cwd, m)
        ensures a.id == b.id
      {
        FrontGives(rows, a, cwd, m, r);
        FrontGives(rows, b, cwd, m, r);
      }
    }
  }

  lemma FrontGives(rows: seq<Umbrella>, a: Umbrella, cwd: string, m: string, r: Option<string>)
    requires AnyOrderResolvesTo(rows, cwd, r) && a in rows && m in a.members && IsLongest(rows, cwd, m)
    ensures r == Some(a.id)
  {
    hide Claims, IsLongest, Resolves;
    var k :| 0 <= k < |rows| && rows[k] == a;
    var front := ToFront(rows, k);
    LongestAnyOrder(rows, front, cwd, m);
    var s := SomethingResolves(front, cwd);
    FrontRowWins(front, a, cwd, m, s);
  }

  lemma SameOwner(rows: seq<Umbrella>, other: seq<Umbrella>, cwd: string, r: Option<string>, s: Option<string>)
    requires LongestIsNotShared(rows, cwd) && multiset(other) == multiset(rows)
    requires Resolves(rows, cwd, r) && Resolves(other, cwd, s)
    ensures r == s
  {
    hide Claims;
    if r.Some? {
      var row, m := LongestOf(rows, cwd, r);
      LongestAnyOrder(rows, other, cwd, m);
      assert row in multiset(other);
      OwnerHasLongest(other, cwd, s, row, m);
      var o :| o in other && m in o.members && o.id == s.value;
      assert o in multiset(rows);
    } else if s.Some? {
      var row, m := LongestOf(other, cwd, s);
      LongestAnyOrder(other, rows, cwd, m);
      assert row in multiset(rows);
      OwnerHasLongest(rows, cwd, r, row, m);
    }
  }

  lemma LongestOf(rows: seq<Umbrella>, cwd: string, r: Option<string>) returns (row: Umbrella, m: string)
    requires Resolves(rows, cwd, r) && r.Some?
    ensures row in rows && m in row.members && IsLongest(rows, cwd, m) && row.id == r.value
  {
    var i: nat, j: nat :| IsOwner(rows, cwd, i, j) && rows[i].id == r.value;
    row, m := rows[i], rows[i].members[j];
  }
}
