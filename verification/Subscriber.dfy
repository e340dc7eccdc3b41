/**
  The chat-bridge client (src/mcp/chat_bridge_subscriber.ts): newline framing over a socket that closes and
  reopens, with exponential backoff. Each handler runs to completion, as in the event loop that calls it;
  the world around it (open sockets, pending timers) is ghost state.
*/
module Subscriber {
  import opened Wrappers
  import Text

  const RECONNECT_BASE_MS := 1000
  const RECONNECT_MAX_MS := 60000
  const SHUTDOWN_BACKOFF_MS := 5000

  datatype Message = Message(text: string, receivedAt: string)

  /** What a line means to the client: JSON parsing and the shape tests of dispatchLine. */
  datatype Frame = Malformed | Inbound(deliveryId: string, message: Message) | Shutdown | Other

  type Parser = string -> Frame

  /** What dispatching lines can change. */
  datatype Effects = Effects(reconnectMs: int, buffer: map<string, Message>)

  function Max(a: int, b: int): int { if a < b then b else a }

  function Min(a: int, b: int): int { if a < b then a else b }

  function Dispatch(parse: Parser, e: Effects, line: string): Effects {
    match parse(line)
    case Inbound(id, message) => e.(buffer := e.buffer[id := message])
    case Shutdown => e.(reconnectMs := Max(e.reconnectMs, SHUTDOWN_BACKOFF_MS))
    case Malformed => e
    case Other => e
  }

  function DispatchAll(parse: Parser, e: Effects, lines: seq<string>): Effects
    decreases |lines|
  {
    if lines == [] then e else DispatchAll(parse, Dispatch(parse, e, lines[0]), lines[1..])
  }

  // ---------------------------------------------------------------------------------------------
  // Framing: a text is its complete lines and a residue
  // ---------------------------------------------------------------------------------------------

  function NonEmpty(lines: seq<string>): seq<string> {
    if lines == [] then [] else (if lines[0] == "" then [] else [lines[0]]) + NonEmpty(lines[1..])
  }

  /** The non-empty lines that a newline has ended. */
  function Complete(text: string): seq<string> {
    var parts := Text.Split(text, '\n');
    NonEmpty(parts[..|parts| - 1])
  }

  /** What follows the last newline. */
  function Residue(text: string): (r: string)
    ensures '\n' !in r
  {
    var parts := Text.Split(text, '\n');
    parts[|parts| - 1]
  }

  lemma FirstLine(text: string)
    ensures '\n' !in text ==> Complete(text) == [] && Residue(text) == text
    ensures '\n' in text ==>
      var i := Text.IndexOf(text, '\n').value;
      Complete(text) == (if i == 0 then [] else [text[..i]]) + Complete(text[i + 1..]) &&
      Residue(text) == Residue(text[i + 1..])
  {
    if '\n' in text {
      var i := Text.IndexOf(text, '\n').value;
      var parts, rest := Text.Split(text, '\n'), Text.Split(text[i + 1..], '\n');
      assert parts == [text[..i]] + rest;
      assert parts[..|parts| - 1] == [text[..i]] + rest[..|rest| - 1];
      assert parts[..|parts| - 1][1..] == rest[..|rest| - 1];
    }
  }

  /** More text only adds lines, and what it adds depends on the residue alone. */
  lemma {:induction false} MoreText(a: string, b: string)
    ensures Complete(a + b) == Complete(a) + Complete(Residue(a) + b)
    ensures Residue(a + b) == Residue(Residue(a) + b)
    decreases |a|
  {
    hide Complete, Residue;
    FirstLine(a);
    if '\n' in a {
      var i := Text.IndexOf(a, '\n').value;
      FirstLine(a + b);
      FirstIndexStays(a, b);
      MoreText(a[i + 1..], b);
      assert (a + b)[i + 1..] == a[i + 1..] + b && (a + b)[..i] == a[..i];
    }
  }

  lemma FirstIndexStays(a: string, b: string)
    requires '\n' in a
    ensures Text.IndexOf(a + b, '\n') == Text.IndexOf(a, '\n')
  {
    var i, j := Text.IndexOf(a, '\n').value, Text.IndexOf(a + b, '\n').value;
    assert (a + b)[i] == '\n' && (j < |a| ==> (a + b)[j] == a[j]);
    assert forall k | 0 <= k < i :: (a + b)[k] == a[..i][k];
    assert forall k | 0 <= k < j :: (a + b)[k] == (a + b)[..j][k];
  }

  lemma {:induction false} DispatchInTurn(parse: Parser, e: Effects, a: seq<string>, b: seq<string>)
    ensures DispatchAll(parse, e, a + b) == DispatchAll(parse, DispatchAll(parse, e, a), b)
    decreases |a|
  {
    if a == [] {
      assert a + b == b;
    } else {
      assert (a + b)[1..] == a[1..] + b;
      DispatchInTurn(parse, Dispatch(parse, e, a[0]), a[1..], b);
    }
  }

  lemma NothingToDispatch(parse: Parser, e: Effects)
    ensures DispatchAll(parse, e, []) == e
  {
  }

  lemma DispatchFirst(parse: Parser, e: Effects, line: string, rest: seq<string>)
    ensures DispatchAll(parse, e, [line] + rest) == DispatchAll(parse, Dispatch(parse, e, line), rest)
  {
    assert ([line] + rest)[1..] == rest;
  }

  /** What a buffered text will come to: effects, lines dispatched in all, and residue. */
  ghost function Pending(parse: Parser, e: Effects, done: seq<string>, text: string): (Effects, seq<string>, string) {
    (DispatchAll(parse, e, Complete(text)), done + Complete(text), Residue(text))
  }

  lemma PendingIs(parse: Parser, e: Effects, done: seq<string>, text: string)
    ensures Pending(parse, e, done, text) == (DispatchAll(parse, e, Complete(text)), done + Complete(text), Residue(text))
  {
  }

  /** Taking the first line off the text and dispatching it, unless it is empty, leaves the outcome the same. */
  lemma PendingAfterLine(parse: Parser, e: Effects, done: seq<string>, text: string)
    requires '\n' in text
    ensures var i := Text.IndexOf(text, '\n').value;
      Pending(parse, e, done, text) ==
      if i == 0 then Pending(parse, e, done, text[i + 1..])
      else Pending(parse, Dispatch(parse, e, text[..i]), done + [text[..i]], text[i + 1..])
  {
    hide Complete, Residue, DispatchAll, Dispatch;
    FirstLine(text);
    var i := Text.IndexOf(text, '\n').value;
    var rest := Complete(text[i + 1..]);
    if i == 0 {
      assert [] + rest == rest;
    } else {
      DispatchFirst(parse, e, text[..i], rest);
      assert done + ([text[..i]] + rest) == done + [text[..i]] + rest;
    }
  }

  lemma NothingPending(parse: Parser, e: Effects, done: seq<string>, text: string)
    requires '\n' !in text
    ensures Pending(parse, e, done, text) == (e, done, text)
  {
    hide Complete, Residue;
    FirstLine(text);
    assert done + [] == done;
  }

  // ---------------------------------------------------------------------------------------------
  // The client and its world
  // ---------------------------------------------------------------------------------------------

  /**
    The world: sockets that have not closed, delays of timers that have not fired, how often a connection
    was attempted and `start` called, the text received since the last socket was opened and the lines
    dispatched from it. A socket is known by the number of the attempt that opened it.
  */
  datatype World = World(
    open: set<nat>, timers: seq<int>, connects: nat, starts: nat, received: string, lines: seq<string>)

  datatype State = State(
    socket: Option<nat>, buf: string, closed: bool, subscribes: nat, effects: Effects, world: World)

  const INITIAL: State :=
    State(None, "", false, 0, Effects(RECONNECT_BASE_MS, map[]), World({}, [], 0, 0, "", []))

  /** What can happen to a client; `opens` and `writes` say whether the connect or write call succeeds. */
  datatype Event =
    | Start(opens: bool)
    | Fire(timer: nat, opens: bool)
    | Connected(sock: nat, writes: bool)
    | Data(sock: nat, chunk: string)
    | Closed(sock: nat)
    | Stop

  /** Only open sockets have events, and only pending timers fire. */
  predicate CanHappen(s: State, e: Event) {
    match e
    case Start(_) => true
    case Fire(timer, _) => timer < |s.world.timers|
    case Connected(sock, _) => sock in s.world.open
    case Data(sock, _) => sock in s.world.open
    case Closed(sock) => sock in s.world.open
    case Stop => true
  }

  function Rescheduled(s: State): State {
    if s.closed then s
    else
      var delay := s.effects.reconnectMs;
      s.(effects := s.effects.(reconnectMs := Min(2 * delay, RECONNECT_MAX_MS)),
         world := s.world.(timers := s.world.timers + [delay]))
  }

  function Attempted(s: State, opens: bool): State {
    var id := s.world.connects;
    if s.closed then s
    else if !opens then Rescheduled(s.(world := s.world.(connects := id + 1)))
    else s.(socket := Some(id), buf := "",
            world := s.world.(open := s.world.open + {id}, connects := id + 1, received := "", lines := []))
  }

  /** Data is handled as its complete lines; the residue waits for more. */
  function Fed(parse: Parser, s: State, chunk: string): State {
    var text := s.buf + chunk;
    s.(buf := Residue(text), effects := DispatchAll(parse, s.effects, Complete(text)),
       world := s.world.(received := s.world.received + chunk, lines := s.world.lines + Complete(text)))
  }

  function Step(parse: Parser, s: State, e: Event): State
    requires CanHappen(s, e)
  {
    match e
    case Start(opens) => Attempted(s.(world := s.world.(starts := s.world.starts + 1)), opens)
    case Fire(timer, opens) => Attempted(s.(world := s.world.(timers := Without(s.world.timers, timer))), opens)
    case Connected(_, writes) =>
      if s.socket.None? then s
      else if !writes then s.(subscribes := s.subscribes + 1)
      else s.(subscribes := s.subscribes + 1, effects := s.effects.(reconnectMs := RECONNECT_BASE_MS))
    case Data(_, chunk) => Fed(parse, s, chunk)
    case Closed(sock) => Rescheduled(s.(socket := None, world := s.world.(open := s.world.open - {sock})))
    case Stop => s.(closed := true, socket := None)
  }

  function Without<T>(s: seq<T>, i: nat): seq<T>
    requires i < |s|
  {
    s[..i] + s[i + 1..]
  }

  class ChatBridgeSubscriber {
    const parse: Parser
    var socket: Option<nat>
    var buf: string
    var reconnectMs: int
    var closed: bool
    var subscribeId: nat
    var buffer: map<string, Message>
    ghost var world: World

    ghost function View(): State
      reads this
    {
      State(socket, buf, closed, subscribeId, Effects(reconnectMs, buffer), world)
    }

    constructor (parse: Parser)
      ensures View() == INITIAL && this.parse == parse
    {
      this.parse := parse;
      socket, buf, reconnectMs, closed := None, "", RECONNECT_BASE_MS, false;
      subscribeId, buffer, world := 0, map[], INITIAL.world;
    }

    method Start(sock: nat, opens: bool)
      requires sock == world.connects
      modifies this
      ensures View() == Step(parse, old(View()), Event.Start(opens))
    {
      world := world.(starts := world.starts + 1);
      ConnectAndSubscribe(sock, opens);
    }

    method OnTimer(ghost timer: nat, sock: nat, opens: bool)
      requires CanHappen(View(), Fire(timer, opens)) && sock == world.connects
      modifies this
      ensures View() == Step(parse, old(View()), Fire(timer, opens))
    {
      world := world.(timers := Without(world.timers, timer));
      ConnectAndSubscribe(sock, opens);
    }

    method OnConnected(ghost sock: nat, writes: bool)
      requires CanHappen(View(), Connected(sock, writes))
      modifies this
      ensures View() == Step(parse, old(View()), Connected(sock, writes))
    {
      if socket.None? {
        return;
      }
      subscribeId := subscribeId + 1;
      if writes {
        reconnectMs := RECONNECT_BASE_MS;
      }
    }

    method OnData(ghost sock: nat, chunk: string)
      requires CanHappen(View(), Data(sock, chunk))
      modifies this
      ensures View() == Step(parse, old(View()), Data(sock, chunk))
    {
      hide Pending, Dispatch, DispatchAll, Complete, Residue, Text.IndexOf;
      buf := buf + chunk;
      ghost var text, before, done := buf, View().effects, [];
      var nl := Text.IndexOf(buf, '\n');
      while nl.Some?
        invariant nl == Text.IndexOf(buf, '\n')
        invariant View() == old(View()).(buf := buf, effects := View().effects)
        invariant Pending(parse, View().effects, done, buf) == Pending(parse, before, [], text)
        decreases |buf|
      {
        PendingAfterLine(parse, View().effects, done, buf);
        var line := buf[..nl.value];
        buf := buf[nl.value + 1..];
        if line == "" {
          nl := Text.IndexOf(buf, '\n');
          continue;
        }
        DispatchLine(line);
        done := done + [line];
        nl := Text.IndexOf(buf, '\n');
      }
      NothingPending(parse, View().effects, done, buf);
      PendingIs(parse, before, [], text);
      world := world.(received := world.received + chunk, lines := world.lines + done);
    }

    method OnClose(ghost sock: nat)
      requires CanHappen(View(), Closed(sock))
      modifies this
      ensures View() == Step(parse, old(View()), Closed(sock))
    {
      world := world.(open := world.open - {sock});
      socket := None;
      ScheduleReconnect();
    }

    method Stop()
      modifies this
      ensures View() == Step(parse, old(View()), Event.Stop)
    {
      closed := true;
      socket := None;
    }

    method ConnectAndSubscribe(sock: nat, opens: bool)
      requires sock == world.connects
      modifies this
      ensures View() == Attempted(old(View()), opens)
    {
      if closed {
        return;
      }
      world := world.(connects := world.connects + 1);
      if !opens {
        ScheduleReconnect();
        return;
      }
      socket, buf := Some(sock), "";
      world := world.(open := world.open + {sock}, received := "", lines := []);
    }

    method DispatchLine(line: string)
      modifies this`reconnectMs, this`buffer
      ensures View().effects == Dispatch(parse, old(View().effects), line)
    {
      match parse(line)
      case Inbound(id, message) => buffer := buffer[id := message];
      case Shutdown => reconnectMs := Max(reconnectMs, SHUTDOWN_BACKOFF_MS);
      case Malformed => return;
      case Other => return;
    }

    method ScheduleReconnect()
      modifies this`reconnectMs, this`world
      ensures View() == Rescheduled(old(View()))
    {
      if closed {
        return;
      }
      world := world.(timers := world.timers + [reconnectMs]);
      reconnectMs := Min(2 * reconnectMs, RECONNECT_MAX_MS);
    }
  }

  // ---------------------------------------------------------------------------------------------
  // Every run
  // ---------------------------------------------------------------------------------------------

  ghost predicate IsRun(parse: Parser, states: seq<State>, events: seq<Event>) {
    && |states| == |events| + 1 && states[0] == INITIAL
    && forall k | 0 <= k < |events| ::
         CanHappen(states[k], events[k]) && states[k + 1] == Step(parse, states[k], events[k])
  }

  predicate InRange(delay: int) {
    RECONNECT_BASE_MS <= delay <= RECONNECT_MAX_MS
  }

  /**
    What every state satisfies: delays in range; each `start` keeps exactly one open socket or pending
    timer until the client is stopped; the lines and the residue are those of the text received.
  */
  ghost predicate Invariant(s: State) {
    && InRange(s.effects.reconnectMs)
    && (forall i | 0 <= i < |s.world.timers| :: InRange(s.world.timers[i]))
    && (forall k | k in s.world.open :: k < s.world.connects)
    && (!s.closed ==> |s.world.open| + |s.world.timers| == s.world.starts)
    && (s.closed ==> s.socket == None)
    && (s.world.starts <= 1 && !s.closed ==> s.world.open == if s.socket.Some? then {s.socket.value} else {})
    && s.buf == Residue(s.world.received) && s.world.lines == Complete(s.world.received)
  }

  lemma {:induction false} DelaysStayInRange(parse: Parser, e: Effects, lines: seq<string>)
    requires InRange(e.reconnectMs)
    ensures InRange(DispatchAll(parse, e, lines).reconnectMs)
    ensures DispatchAll(parse, e, lines).reconnectMs >= e.reconnectMs
    ensures (exists i | 0 <= i < |lines| :: parse(lines[i]).Shutdown?) ==>
      DispatchAll(parse, e, lines).reconnectMs >= SHUTDOWN_BACKOFF_MS
    decreases |lines|
  {
    if lines != [] {
      DelaysStayInRange(parse, Dispatch(parse, e, lines[0]), lines[1..]);
      if i :| 0 <= i < |lines| && parse(lines[i]).Shutdown? {
        assert i > 0 ==> lines[1..][i - 1] == lines[i];
      }
    }
  }

  lemma AttemptKeeps(s: State, opens: bool)
    requires Invariant(s.(world := s.world.(timers := s.world.timers + [RECONNECT_BASE_MS])))
    ensures Invariant(Attempted(s, opens))
  {
    hide Residue, Complete;
    assert forall i | 0 <= i < |s.world.timers| ::
        s.world.timers[i] == (s.world.timers + [RECONNECT_BASE_MS])[i];
    EmptyText();
    assert !s.closed && s.world.starts <= 1 ==> |s.world.open| == 0;
  }

  lemma EmptyText()
    ensures Residue("") == "" && Complete("") == []
  {
  }

  lemma CloseKeeps(s: State, sock: nat)
    requires Invariant(s) && sock in s.world.open
    ensures Invariant(Rescheduled(s.(socket := None, world := s.world.(open := s.world.open - {sock}))))
  {
    hide Residue, Complete;
    assert |s.world.open - {sock}| == |s.world.open| - 1;
  }

  lemma StepKeeps(parse: Parser, s: State, e: Event)
    requires Invariant(s) && CanHappen(s, e)
    ensures Invariant(Step(parse, s, e))
  {
    hide Invariant, Residue, Complete, DispatchAll;
    match e
    case Start(opens) =>
      var t := s.(world := s.world.(starts := s.world.starts + 1));
      StartMakesRoom(s);
      AttemptKeeps(t, opens);
    case Fire(timer, opens) =>
      var t := s.(world := s.world.(timers := Without(s.world.timers, timer)));
      FiringMakesRoom(s, timer);
      AttemptKeeps(t, opens);
    case Connected(_, _) => ConnectedKeeps(parse, s, e);
    case Data(_, chunk) => FeedKeeps(parse, s, chunk);
    case Closed(sock) => CloseKeeps(s, sock);
    case Stop => StopKeeps(s);
  }

  lemma StartMakesRoom(s: State)
    requires Invariant(s)
    ensures Invariant(s.(world := s.world.(starts := s.world.starts + 1, timers := s.world.timers + [RECONNECT_BASE_MS])))
  {
    hide Residue, Complete;
  }

  lemma FiringMakesRoom(s: State, timer: nat)
    requires Invariant(s) && timer < |s.world.timers|
    ensures Invariant(s.(world := s.world.(timers := Without(s.world.timers, timer) + [RECONNECT_BASE_MS])))
  {
    hide Residue, Complete;
  }

  lemma ConnectedKeeps(parse: Parser, s: State, e: Event)
    requires Invariant(s) && CanHappen(s, e) && e.Connected?
    ensures Invariant(Step(parse, s, e))
  {
    hide Residue, Complete;
  }

  lemma StopKeeps(s: State)
    requires Invariant(s)
    ensures Invariant(s.(closed := true, socket := None))
  {
    hide Residue, Complete;
  }

  lemma FeedKeeps(parse: Parser, s: State, chunk: string)
    requires Invariant(s)
    ensures Invariant(Fed(parse, s, chunk))
  {
    hide Residue, Complete, DispatchAll;
    MoreText(s.world.received, chunk);
    DelaysStayInRange(parse, s.effects, Complete(s.buf + chunk));
  }

  lemma {:induction false} RunKeeps(parse: Parser, states: seq<State>, events: seq<Event>, k: nat)
    requires IsRun(parse, states, events) && k < |states|
    ensures Invariant(states[k])
  {
    if k == 0 {
      EmptyText();
    } else {
      RunKeeps(parse, states, events, k - 1);
      StepKeeps(parse, states[k - 1], events[k - 1]);
      assert states[k - 1 + 1] == Step(parse, states[k - 1], events[k - 1]);
    }
  }

  /** One open socket, the one the client holds, with nothing pending; or none, and exactly one timer. */
  predicate IsOnItsWay(s: State) {
    match s.socket
    case Some(id) => s.world.open == {id} && s.world.timers == []
    case None => s.world.open == {} && |s.world.timers| == 1
  }

  /**
    Until `stop`, sockets and timers together number the calls of `start`. So in every reachable state the
    client is on its one socket or one timer will bring it back exactly when `start` was called once; and
    all delays are within bounds.
  */
  lemma OnItsWayIffOneStart(parse: Parser, states: seq<State>, events: seq<Event>, k: nat)
    requires IsRun(parse, states, events) && k < |states|
    ensures InRange(states[k].effects.reconnectMs)
    ensures forall i | 0 <= i < |states[k].world.timers| :: InRange(states[k].world.timers[i])
    ensures !states[k].closed ==> |states[k].world.open| + |states[k].world.timers| == states[k].world.starts
    ensures !states[k].closed ==> (IsOnItsWay(states[k]) <==> states[k].world.starts == 1)
  {
    hide Residue, Complete;
    RunKeeps(parse, states, events, k);
  }

  /** Two calls of `start` break this: closing the first socket makes the client forget the second, which stays open. */
  lemma SecondStartLosesASocket(parse: Parser)
    ensures exists states: seq<State>, events: seq<Event> ::
      && IsRun(parse, states, events) && states[|events|].socket == None
      && states[|events|].world.open != {} && states[|events|].world.timers != []
  {
    var events := [Event.Start(true), Event.Start(true), Closed(0)];
    var s1 := Step(parse, INITIAL, events[0]);
    var s2 := Step(parse, s1, events[1]);
    assert 0 in s2.world.open && 1 in s2.world.open;
    var s3 := Step(parse, s2, events[2]);
    assert 1 in s3.world.open;
    var states := [INITIAL, s1, s2, s3];
    assert IsRun(parse, states, events);
  }

  /** Once stopped, stopped for good: no connection is attempted, nothing is sent and no timer is set again. */
  lemma {:induction false} NothingAfterStop(parse: Parser, states: seq<State>, events: seq<Event>, j: nat, k: nat)
    requires IsRun(parse, states, events) && j <= k < |states| && states[j].closed
    ensures states[k].closed && states[k].world.connects == states[j].world.connects
    ensures states[k].subscribes == states[j].subscribes
    ensures |states[k].world.timers| <= |states[j].world.timers| && states[k].world.open <= states[j].world.open
    decreases k
  {
    if j < k {
      hide Residue, Complete, DispatchAll, Invariant;
      NothingAfterStop(parse, states, events, j, k - 1);
      RunKeeps(parse, states, events, k - 1);
      ClosedHoldsNoSocket(states[k - 1]);
      assert states[k - 1 + 1] == Step(parse, states[k - 1], events[k - 1]);
    }
  }

  lemma ClosedHoldsNoSocket(s: State)
    requires Invariant(s)
    ensures s.closed ==> s.socket == None
  {
  }

  /** In every state the lines dispatched since the last socket opened are those of the text it received. */
  lemma LinesAreThoseOfTheText(parse: Parser, states: seq<State>, events: seq<Event>, k: nat)
    requires IsRun(parse, states, events) && k < |states|
    ensures states[k].world.lines == Complete(states[k].world.received)
    ensures states[k].buf == Residue(states[k].world.received) && '\n' !in states[k].buf
  {
    hide Residue, Complete;
    RunKeeps(parse, states, events, k);
  }

  function Concat(chunks: seq<string>): string {
    if chunks == [] then "" else chunks[0] + Concat(chunks[1..])
  }

  function FedAll(parse: Parser, s: State, chunks: seq<string>): State
    decreases |chunks|
  {
    if chunks == [] then s else FedAll(parse, Fed(parse, s, chunks[0]), chunks[1..])
  }

  /** Chunking does not matter: handling the chunks one by one is handling their concatenation at once. */
  lemma {:induction false} ChunkingDoesNotMatter(parse: Parser, s: State, chunks: seq<string>)
    requires '\n' !in s.buf
    ensures FedAll(parse, s, chunks) == Fed(parse, s, Concat(chunks))
    decreases |chunks|
  {
    hide Residue, Complete, DispatchAll;
    if chunks == [] {
      FirstLine(s.buf);
      assert s.buf + "" == s.buf && s.world.received + "" == s.world.received;
      NothingToDispatch(parse, s.effects);
    } else {
      var t, rest := Fed(parse, s, chunks[0]), Concat(chunks[1..]);
      ChunkingDoesNotMatter(parse, t, chunks[1..]);
      MoreText(s.buf + chunks[0], rest);
      assert s.buf + Concat(chunks) == s.buf + chunks[0] + rest;
      assert s.world.received + Concat(chunks) == s.world.received + chunks[0] + rest;
      DispatchInTurn(parse, s.effects, Complete(s.buf + chunks[0]), Complete(t.buf + rest));
    }
  }

  /** So two deliveries of the same text, however chunked, leave the client in the same state. */
  lemma SameTextSameState(parse: Parser, s: State, one: seq<string>, two: seq<string>)
    requires '\n' !in s.buf && Concat(one) == Concat(two)
    ensures FedAll(parse, s, one) == FedAll(parse, s, two)
  {
    hide Fed;
    ChunkingDoesNotMatter(parse, s, one);
    ChunkingDoesNotMatter(parse, s, two);
  }

  /** After a run of chunks with a shutdown notice among their lines, the close waits at least five seconds. */
  lemma ShutdownBacksOff(parse: Parser, s: State, chunks: seq<string>, sock: nat, i: nat)
    requires Invariant(s) && !s.closed && sock in s.world.open
    requires i < |Complete(s.buf + Concat(chunks))| && parse(Complete(s.buf + Concat(chunks))[i]).Shutdown?
    ensures CanHappen(FedAll(parse, s, chunks), Closed(sock))
    ensures var t := Step(parse, FedAll(parse, s, chunks), Closed(sock));
      t.world.timers != [] && t.world.timers[|t.world.timers| - 1] >= SHUTDOWN_BACKOFF_MS
  {
    hide Residue, Complete, DispatchAll, FedAll;
    NoNewlineHeld(s);
    ChunkingDoesNotMatter(parse, s, chunks);
    DelaysStayInRange(parse, s.effects, Complete(s.buf + Concat(chunks)));
  }

  lemma NoNewlineHeld(s: State)
    requires Invariant(s)
    ensures '\n' !in s.buf
  {
  }

  function Doubled(base: int, k: nat): int {
    if k == 0 then base else 2 * Doubled(base, k - 1)
  }

  function Failed(s: State, k: nat): State {
    if k == 0 then s else Attempted(Failed(s, k - 1), false)
  }

  /** The k-th attempt in a row that fails waits twice as long as the one before, up to a minute. */
  lemma {:induction false} ExponentialBackoff(s: State, k: nat)
    requires !s.closed && s.effects.reconnectMs == RECONNECT_BASE_MS
    ensures Doubled(RECONNECT_BASE_MS, k) >= RECONNECT_BASE_MS
    ensures !Failed(s, k).closed
    ensures Failed(s, k).effects.reconnectMs == Min(Doubled(RECONNECT_BASE_MS, k), RECONNECT_MAX_MS)
    ensures k > 0 ==> var timers := Failed(s, k).world.timers;
      timers != [] && timers[|timers| - 1] == Min(Doubled(RECONNECT_BASE_MS, k - 1), RECONNECT_MAX_MS)
  {
    if k > 0 {
      ExponentialBackoff(s, k - 1);
    }
  }
}
