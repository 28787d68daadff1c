/**
 The Discord gateway client, src/channels/discord/gateway.rs: one session's event
 loop as a class, its every run as a fold over what the socket and the timer
 deliver, and the trace of what it did. The trace is the history the laws speak of.
 */
module Gateway {
  import opened Chars

  const DISPATCH := 0
  const HEARTBEAT := 1
  const RECONNECT := 7
  const INVALID_SESSION := 9
  const HEARTBEAT_ACK := 11

  // ---- frames ----------------------------------------------------------------------

  datatype Author = Author(bot: Option<bool>, id: Option<string>, username: Option<string>)

  /**
   The fields read from a `MESSAGE_CREATE`. A field that is absent or of another type is
   `None`, except `guildId`, which is `None` when absent or null.
   */
  datatype MessageData = MessageData(
    author: Option<Author>, content: Option<string>, channelId: Option<string>, id: Option<string>,
    guildId: Option<string>, mentions: seq<Option<string>>, referencedAuthor: Option<string>)

  /** A parsed JSON text frame: `op`, `s`, `t`, and the two payloads read from `d`. */
  datatype Frame = Frame(op: Option<nat>, sequence: Option<nat>, event: Option<string>, userId: Option<string>,
      data: Option<MessageData>)

  datatype Incoming = Incoming(
    senderId: string, senderName: Option<string>, body: string, conversationId: string, messageId: string,
    direct: bool, addressed: bool)

  function Or<T>(o: Option<T>, default: T): T {
    match o case Some(v) => v case None => default
  }

  function Opcode(f: Frame): nat {
    Or(f.op, DISPATCH)
  }

  predicate IsDirect(data: MessageData) {
    data.guildId.None?
  }

  predicate Addressed(data: MessageData, bot: Option<string>) {
    IsDirect(data) || (bot.Some? && (bot in data.mentions || data.referencedAuthor == bot))
  }

  function ParseMessageCreate(data: MessageData, bot: Option<string>): Option<Incoming> {
    match data.author
    case None => None
    case Some(author) =>
      if Or(author.bot, false) || author.id.None? || bot == author.id || Or(data.content, "") == "" then None
      else Some(Incoming(author.id.value, author.username, Or(data.content, ""), Or(data.channelId, ""),
                         Or(data.id, "0"), IsDirect(data), Addressed(data, bot)))
  }

  /**
   A message is forwarded exactly when someone other than a bot wrote a non-empty one; it is direct
   outside any guild, and addressed to the bot if direct, or if it mentions or answers it.
   */
  lemma ForwardedExactlyFromOthers(data: MessageData, bot: Option<string>)
    ensures ParseMessageCreate(data, bot).Some? <==>
            && data.author.Some? && data.author.value.bot != Some(true)
            && data.author.value.id.Some? && data.author.value.id != bot
            && data.content.Some? && data.content.value != ""
    ensures ParseMessageCreate(data, bot).Some? ==>
              var m := ParseMessageCreate(data, bot).value;
              && bot != Some(m.senderId) && data.author.value.id == Some(m.senderId)
              && m.senderName == data.author.value.username && data.content == Some(m.body)
              && m.conversationId == (if data.channelId.Some? then data.channelId.value else "")
              && m.messageId == (if data.id.Some? then data.id.value else "0")
              && (m.direct <==> data.guildId.None?)
              && (m.addressed <==> data.guildId.None? ||
                                   (bot.Some? && (bot in data.mentions || data.referencedAuthor == bot)))
  {
  }

  // ---- one session -------------------------------------------------------------------

  datatype Reason = ConnectionLost | ReceiverDropped

  /** What `select!` picks next, with the outcome of any send it leads to. */
  datatype Input =
    | Tick(writeOk: bool)
    | TextFrame(frame: Option<Frame>, writeOk: bool, receiverAlive: bool)  // `None`: not JSON
    | OtherFrame
    | CloseFrame
    | ReadError
    | StreamEnd

  datatype Event =
    | Received(frame: Frame)
    | TimerBeat(d: Option<nat>)
    | RequestedBeat(d: Option<nat>)
    | Forwarded(message: Incoming)

  datatype State = State(lastSequence: Option<nat>, ackPending: bool, bot: Option<string>, trace: seq<Event>)

  function Opening(bot: Option<string>): State {
    State(None, false, bot, [])
  }

  function Logged(s: State, e: Event): State {
    s.(trace := s.trace + [e])
  }

  function OnTick(s: State, writeOk: bool): (State, Option<Reason>) {
    if s.ackPending || !writeOk then (s, Some(ConnectionLost))
    else (Logged(s, TimerBeat(s.lastSequence)).(ackPending := true), None)
  }

  function OnDispatch(s: State, f: Frame, receiverAlive: bool): (State, Option<Reason>) {
    if f.event == Some("READY") then
      (if f.userId.Some? then s.(bot := f.userId) else s, None)
    else if f.event == Some("MESSAGE_CREATE") && f.data.Some? then
      match ParseMessageCreate(f.data.value, s.bot)
      case None => (s, None)
      case Some(m) => if receiverAlive then (Logged(s, Forwarded(m)), None) else (s, Some(ReceiverDropped))
    else (s, None)
  }

  function Noted(s: State, f: Frame): State {
    var read := Logged(s, Received(f));
    if f.sequence.Some? then read.(lastSequence := f.sequence) else read
  }

  function OnFrame(before: State, f: Frame, writeOk: bool, receiverAlive: bool): (State, Option<Reason>) {
    var s := Noted(before, f);
    var op := Opcode(f);
    if op == DISPATCH then OnDispatch(s, f, receiverAlive)
    else if op == HEARTBEAT_ACK then (s.(ackPending := false), None)
    else if op == HEARTBEAT then
      if writeOk then (Logged(s, RequestedBeat(s.lastSequence)), None) else (s, Some(ConnectionLost))
    else if op == RECONNECT || op == INVALID_SESSION then (s, Some(ConnectionLost))
    else (s, None)
  }

  function Step(s: State, input: Input): (State, Option<Reason>) {
    match input
    case Tick(writeOk) => OnTick(s, writeOk)
    case TextFrame(None, _, _) => (s, None)
    case TextFrame(Some(f), writeOk, alive) => OnFrame(s, f, writeOk, alive)
    case OtherFrame => (s, None)
    case CloseFrame => (s, Some(ConnectionLost))
    case ReadError => (s, Some(ConnectionLost))
    case StreamEnd => (s, Some(ConnectionLost))
  }

  /** The event loop over a list of inputs: where it stands, and why it ended if it did. */
  function Run(s: State, inputs: seq<Input>): (State, Option<Reason>)
    decreases |inputs|
  {
    if inputs == [] then (s, None)
    else
      var (next, reason) := Step(s, inputs[0]);
      if reason.Some? then (next, reason) else Run(next, inputs[1..])
  }

  class Session {
    var lastSequence: Option<nat>
    var ackPending: bool
    var bot: Option<string>
    ghost var trace: seq<Event>

    ghost function View(): State
      reads this
    {
      State(lastSequence, ackPending, bot, trace)
    }

    constructor (bot: Option<string>)
      ensures View() == Opening(bot)
    {
      lastSequence, ackPending, this.bot, trace := None, false, bot, [];
    }

    method HeartbeatTick(writeOk: bool) returns (reason: Option<Reason>)
      modifies this
      ensures (View(), reason) == OnTick(old(View()), writeOk)
    {
      if ackPending {
        return Some(ConnectionLost);
      }
      if !writeOk {
        return Some(ConnectionLost);
      }
      trace := trace + [TimerBeat(lastSequence)];
      ackPending := true;
      return None;
    }

    method HandleText(f: Frame, writeOk: bool, receiverAlive: bool) returns (reason: Option<Reason>)
      modifies this
      ensures (View(), reason) == OnFrame(old(View()), f, writeOk, receiverAlive)
    {
      trace := trace + [Received(f)];
      var op := Or(f.op, DISPATCH);
      if f.sequence.Some? {
        lastSequence := f.sequence;
      }
      if op == DISPATCH {
        if f.event == Some("READY") {
          if f.userId.Some? {
            bot := f.userId;
          }
        } else if f.event == Some("MESSAGE_CREATE") && f.data.Some? {
          var m := ParseMessageCreate(f.data.value, bot);
          if m.Some? {
            if !receiverAlive {
              return Some(ReceiverDropped);
            }
            trace := trace + [Forwarded(m.value)];
          }
        }
      } else if op == HEARTBEAT_ACK {
        ackPending := false;
      } else if op == HEARTBEAT {
        if !writeOk {
          return Some(ConnectionLost);
        }
        trace := trace + [RequestedBeat(lastSequence)];
      } else if op == RECONNECT || op == INVALID_SESSION {
        return Some(ConnectionLost);
      }
      return None;
    }

    method RunEventLoop(inputs: seq<Input>) returns (reason: Option<Reason>)
      modifies this
      ensures (View(), reason) == Run(old(View()), inputs)
    {
      ghost var start := View();
      for i := 0 to |inputs|
        invariant Run(View(), inputs[i..]) == Run(start, inputs)
      {
        assert inputs[i..][1..] == inputs[i + 1..];
        reason := None;
        match inputs[i] {
          case Tick(writeOk) => reason := HeartbeatTick(writeOk);
          case TextFrame(Some(f), writeOk, alive) => reason := HandleText(f, writeOk, alive);
          case TextFrame(None, _, _) =>
          case OtherFrame =>
          case _ => reason := Some(ConnectionLost);
        }
        if reason.Some? {
          return;
        }
      }
      reason := None;
    }
  }

  // ---- the heartbeat protocol -----------------------------------------------------------

  predicate IsAck(e: Event) {
    e.Received? && Opcode(e.frame) == HEARTBEAT_ACK
  }

  /** A timer heartbeat is waiting for its ACK. */
  predicate Outstanding(trace: seq<Event>) {
    trace != [] &&
    var last := trace[|trace| - 1];
    (last.TimerBeat? || (!IsAck(last) && Outstanding(trace[..|trace| - 1])))
  }

  function LastSequence(trace: seq<Event>): Option<nat> {
    if trace == [] then None
    else
      var last := trace[|trace| - 1];
      if last.Received? && last.frame.sequence.Some? then last.frame.sequence else LastSequence(trace[..|trace| - 1])
  }

  /** A READY dispatch that carries a user id. */
  predicate Named(f: Frame) {
    Opcode(f) == DISPATCH && f.event == Some("READY") && f.userId.Some?
  }

  /** The message a frame calls for under a bot id: none or one. */
  function Called(f: Frame, bot: Option<string>): seq<Incoming> {
    if Opcode(f) == DISPATCH && f.event == Some("MESSAGE_CREATE") && f.data.Some?
       && ParseMessageCreate(f.data.value, bot).Some?
    then [ParseMessageCreate(f.data.value, bot).value] else []
  }

  /** The bot id in force after a trace: the latest READY with one, else the id from before. */
  function BotAfter(trace: seq<Event>, bot: Option<string>): Option<string> {
    if trace == [] then bot
    else
      var last := trace[|trace| - 1];
      if last.Received? && Named(last.frame) then last.frame.userId else BotAfter(trace[..|trace| - 1], bot)
  }

  /** Between any two timer heartbeats there is an ACK. */
  ghost predicate AckedBetween(trace: seq<Event>) {
    forall i, j :: 0 <= i < j < |trace| && trace[i].TimerBeat? && trace[j].TimerBeat? ==>
      exists k :: i < k < j && IsAck(trace[k])
  }

  /** Every heartbeat, asked for or not, carries the last sequence number received before it. */
  ghost predicate BeatsCarryLast(trace: seq<Event>) {
    forall i :: 0 <= i < |trace| && (trace[i].TimerBeat? || trace[i].RequestedBeat?) ==>
      trace[i].d == LastSequence(trace[..i])
  }

  /** The messages the received frames call for, each read under the bot id then in force. */
  function Due(trace: seq<Event>, bot: Option<string>): seq<Incoming> {
    if trace == [] then []
    else
      var front, last := trace[..|trace| - 1], trace[|trace| - 1];
      Due(front, bot) + if last.Received? then Called(last.frame, BotAfter(front, bot)) else []
  }

  function Sent(trace: seq<Event>): seq<Incoming> {
    if trace == [] then []
    else Sent(trace[..|trace| - 1]) + if trace[|trace| - 1].Forwarded? then [trace[|trace| - 1].message] else []
  }

  /** What holds of a session's state and trace after every step. */
  ghost predicate Lawful(s: State, bot: Option<string>) {
    && s.ackPending == Outstanding(s.trace)
    && s.lastSequence == LastSequence(s.trace)
    && s.bot == BotAfter(s.trace, bot)
    && AckedBetween(s.trace)
    && BeatsCarryLast(s.trace)
  }

  lemma {:induction false} OutstandingMeans(trace: seq<Event>, i: nat)
    requires !Outstanding(trace) && i < |trace| && trace[i].TimerBeat?
    ensures exists k :: i < k < |trace| && IsAck(trace[k])
  {
    var n := |trace| - 1;
    if !IsAck(trace[n]) {
      OutstandingMeans(trace[..n], i);
      var k :| i < k < n && IsAck(trace[..n][k]);
      assert IsAck(trace[k]);
    }
  }

  lemma LoggedKeeps(s: State, bot: Option<string>, e: Event)
    requires Lawful(s, bot)
    requires e.TimerBeat? ==> !s.ackPending && e.d == s.lastSequence
    requires e.RequestedBeat? ==> e.d == s.lastSequence
    ensures AckedBetween(s.trace + [e]) && BeatsCarryLast(s.trace + [e])
  {
    var t := s.trace + [e];
    forall i, j | 0 <= i < j < |t| && t[i].TimerBeat? && t[j].TimerBeat?
      ensures exists k :: i < k < j && IsAck(t[k])
    {
      if j == |s.trace| {
        OutstandingMeans(s.trace, i);
        var k :| i < k < |s.trace| && IsAck(s.trace[k]);
        assert IsAck(t[k]);
      } else {
        var k :| i < k < j && IsAck(s.trace[k]);
        assert IsAck(t[k]);
      }
    }
    forall i | 0 <= i < |t| && (t[i].TimerBeat? || t[i].RequestedBeat?) ensures t[i].d == LastSequence(t[..i]) {
      assert t[..i] == s.trace[..i];
      assert s.trace[..|s.trace|] == s.trace;
    }
  }

  lemma LastEvent(s: State, bot: Option<string>, e: Event)
    ensures var t := s.trace + [e];
            && Outstanding(t) == (e.TimerBeat? || (!IsAck(e) && Outstanding(s.trace)))
            && LastSequence(t) ==
               (if e.Received? && e.frame.sequence.Some? then e.frame.sequence else LastSequence(s.trace))
            && BotAfter(t, bot) == (if e.Received? && Named(e.frame) then e.frame.userId else BotAfter(s.trace, bot))
            && Sent(t) == Sent(s.trace) + (if e.Forwarded? then [e.message] else [])
            && Due(t, bot) == Due(s.trace, bot) + (if e.Received? then Called(e.frame, BotAfter(s.trace, bot)) else [])
  {
    assert (s.trace + [e])[..|s.trace|] == s.trace;
  }

  /** A frame taken note of: logged, its sequence kept, its READY or ACK applied. */
  function Settled(s: State, f: Frame): State {
    var noted := Noted(s, f);
    if Named(f) then noted.(bot := f.userId)
    else if Opcode(f) == HEARTBEAT_ACK then noted.(ackPending := false)
    else noted
  }

  lemma SettledIsLawful(s: State, bot: Option<string>, f: Frame)
    requires Lawful(s, bot)
    ensures Lawful(Settled(s, f), bot)
  {
    LoggedKeeps(s, bot, Received(f));
    LastEvent(s, bot, Received(f));
    hide AckedBetween, BeatsCarryLast, Outstanding, LastSequence, BotAfter, Sent, Due, Called;
  }

  /** A frame settles and then leads to at most one send. */
  lemma FrameIsSettledThenSent(s: State, f: Frame, writeOk: bool, alive: bool)
    ensures var (next, reason) := OnFrame(s, f, writeOk, alive);
            var settled := Settled(s, f);
            var called := Called(f, settled.bot);
            && |called| <= 1
            && (called != [] && alive ==> next == Logged(settled, Forwarded(called[0])) && reason == None)
            && (called != [] && !alive ==> next == settled && reason == Some(ReceiverDropped))
            && (called == [] ==> reason != Some(ReceiverDropped)
                                 && (next == settled || next == Logged(settled, RequestedBeat(settled.lastSequence))))
  {
    hide ParseMessageCreate;
  }

  lemma LoggedIsLawful(s: State, bot: Option<string>, e: Event)
    requires Lawful(s, bot) && !e.Received?
    requires e.TimerBeat? ==> !s.ackPending && e.d == s.lastSequence
    requires e.RequestedBeat? ==> e.d == s.lastSequence
    ensures Lawful(Logged(s, e).(ackPending := s.ackPending || e.TimerBeat?), bot)
  {
    LoggedKeeps(s, bot, e);
    LastEvent(s, bot, e);
    hide AckedBetween, BeatsCarryLast, Outstanding, LastSequence, BotAfter, Sent, Due, Called;
  }

  lemma LawfulStep(s: State, bot: Option<string>, input: Input)
    requires Lawful(s, bot)
    ensures Lawful(Step(s, input).0, bot)
  {
    match input {
      case Tick(writeOk) =>
        if !s.ackPending && writeOk {
          LoggedIsLawful(s, bot, TimerBeat(s.lastSequence));
        }
      case TextFrame(Some(f), writeOk, alive) =>
        SettledIsLawful(s, bot, f);
        FrameIsSettledThenSent(s, f, writeOk, alive);
        var settled := Settled(s, f);
        var called := Called(f, settled.bot);
        hide Lawful, Settled, Called, OnFrame;
        var e := if called != [] then Forwarded(called[0]) else RequestedBeat(settled.lastSequence);
        assert settled.(ackPending := settled.ackPending) == settled;
        LoggedIsLawful(settled, bot, e);
      case _ =>
    }
  }

  /** Forwarding keeps pace with the frames; only a dropped receiver leaves one message behind. */
  lemma DueStep(s: State, bot: Option<string>, input: Input)
    requires Lawful(s, bot) && Sent(s.trace) == Due(s.trace, bot)
    ensures var (next, reason) := Step(s, input);
            if reason == Some(ReceiverDropped) then exists m :: Due(next.trace, bot) == Sent(next.trace) + [m]
            else Sent(next.trace) == Due(next.trace, bot)
  {
    match input {
      case Tick(writeOk) => LastEvent(s, bot, TimerBeat(s.lastSequence));
      case TextFrame(Some(f), writeOk, alive) => DueFrame(s, bot, f, writeOk, alive);
      case _ =>
    }
  }

  lemma SettledCalls(s: State, f: Frame)
    ensures Settled(s, f).trace == s.trace + [Received(f)]
    ensures Called(f, Settled(s, f).bot) == Called(f, s.bot)
  {
  }

  lemma LoggedTrace(s: State, e: Event)
    ensures Logged(s, e).trace == s.trace + [e]
  {
  }

  lemma DueFrame(s: State, bot: Option<string>, f: Frame, writeOk: bool, alive: bool)
    requires s.bot == BotAfter(s.trace, bot) && Sent(s.trace) == Due(s.trace, bot)
    ensures var (next, reason) := OnFrame(s, f, writeOk, alive);
            if reason == Some(ReceiverDropped) then exists m :: Due(next.trace, bot) == Sent(next.trace) + [m]
            else Sent(next.trace) == Due(next.trace, bot)
  {
    hide *;
    var settled := Settled(s, f);
    var called := Called(f, settled.bot);
    SettledCalls(s, f);
    FrameIsSettledThenSent(s, f, writeOk, alive);
    LastEvent(s, bot, Received(f));
    assert Due(settled.trace, bot) == Sent(settled.trace) + called;
    if called == [] {
      LastEvent(settled, bot, RequestedBeat(settled.lastSequence));
      LoggedTrace(settled, RequestedBeat(settled.lastSequence));
    } else {
      LastEvent(settled, bot, Forwarded(called[0]));
      LoggedTrace(settled, Forwarded(called[0]));
      assert called == [called[0]];
    }
  }

  lemma {:induction false} RunIsLawful(s: State, bot: Option<string>, inputs: seq<Input>)
    requires Lawful(s, bot) && Sent(s.trace) == Due(s.trace, bot)
    ensures var (end, reason) := Run(s, inputs);
            && Lawful(end, bot)
            && if reason == Some(ReceiverDropped) then exists m :: Due(end.trace, bot) == Sent(end.trace) + [m]
               else Sent(end.trace) == Due(end.trace, bot)
    decreases |inputs|
  {
    if inputs != [] {
      LawfulStep(s, bot, inputs[0]);
      DueStep(s, bot, inputs[0]);
      hide Lawful, Sent, Due, Step;
      if Step(s, inputs[0]).1.None? {
        RunIsLawful(Step(s, inputs[0]).0, bot, inputs[1..]);
      }
    }
  }

  // ---- the trace is what arrived -----------------------------------------------------------

  function ReceivedFrames(trace: seq<Event>): seq<Frame> {
    if trace == [] then []
    else ReceivedFrames(trace[..|trace| - 1])
         + if trace[|trace| - 1].Received? then [trace[|trace| - 1].frame] else []
  }

  function ParsedFrames(inputs: seq<Input>): seq<Frame> {
    if inputs == [] then []
    else (if inputs[0].TextFrame? && inputs[0].frame.Some? then [inputs[0].frame.value] else [])
         + ParsedFrames(inputs[1..])
  }

  lemma ReceivedAppend(trace: seq<Event>, e: Event)
    ensures ReceivedFrames(trace + [e]) == ReceivedFrames(trace) + if e.Received? then [e.frame] else []
  {
    assert (trace + [e])[..|trace|] == trace;
  }

  lemma StepReceives(s: State, input: Input)
    ensures ReceivedFrames(Step(s, input).0.trace) == ReceivedFrames(s.trace) + ParsedFrames([input])
  {
    assert [input][1..] == [];
    match input {
      case Tick(_) => ReceivedAppend(s.trace, TimerBeat(s.lastSequence));
      case TextFrame(Some(f), writeOk, alive) => FrameReceives(s, f, writeOk, alive);
      case _ =>
    }
    hide ReceivedFrames, OnFrame;
  }

  lemma FrameReceives(s: State, f: Frame, writeOk: bool, alive: bool)
    ensures ReceivedFrames(OnFrame(s, f, writeOk, alive).0.trace) == ReceivedFrames(s.trace) + [f]
  {
    hide *;
    var settled := Settled(s, f);
    var called := Called(f, settled.bot);
    FrameIsSettledThenSent(s, f, writeOk, alive);
    SettledCalls(s, f);
    ReceivedAppend(s.trace, Received(f));
    ReceivedAppend(settled.trace, RequestedBeat(settled.lastSequence));
    LoggedTrace(settled, RequestedBeat(settled.lastSequence));
    if called != [] {
      ReceivedAppend(settled.trace, Forwarded(called[0]));
      LoggedTrace(settled, Forwarded(called[0]));
    }
  }

  /** How many inputs the loop takes, the one that ends it included. */
  function Consumed(s: State, inputs: seq<Input>): (n: nat)
    ensures n <= |inputs|
    decreases |inputs|
  {
    if inputs == [] then 0
    else if Step(s, inputs[0]).1.Some? then 1
    else 1 + Consumed(Step(s, inputs[0]).0, inputs[1..])
  }

  /** A session is decided by the inputs it takes, and is open until the last of them. */
  lemma {:induction false} DecidedByConsumed(s: State, inputs: seq<Input>)
    ensures var n := Consumed(s, inputs);
            && Run(s, inputs[..n]) == Run(s, inputs)
            && (Run(s, inputs).1.None? ==> n == |inputs|)
            && (Run(s, inputs).1.Some? ==> n > 0 && Run(s, inputs[..n - 1]).1.None?)
    decreases |inputs|
  {
    hide Step;
    if inputs != [] {
      var n := Consumed(s, inputs);
      assert inputs[..n][1..] == inputs[1..][..n - 1];
      if Step(s, inputs[0]).1.None? {
        DecidedByConsumed(Step(s, inputs[0]).0, inputs[1..]);
        if n > 1 { assert inputs[..n - 1][1..] == inputs[1..][..n - 2]; }
      }
    }
  }

  /**
   Whether a session runs or has ended, its trace records every text frame that parsed among
   the inputs it took, in order, the one that ended it included.
   */
  lemma {:induction false} TraceIsComplete(s: State, inputs: seq<Input>)
    ensures ReceivedFrames(Run(s, inputs).0.trace) ==
            ReceivedFrames(s.trace) + ParsedFrames(inputs[..Consumed(s, inputs)])
    ensures Run(s, inputs).1.None? ==> Consumed(s, inputs) == |inputs|
    decreases |inputs|
  {
    if inputs != [] {
      var n := Consumed(s, inputs);
      StepReceives(s, inputs[0]);
      assert inputs[..n][0] == inputs[0] && inputs[..n][1..] == inputs[1..][..n - 1];
      assert [inputs[0]][1..] == [];
      hide Step, ReceivedFrames;
      if Step(s, inputs[0]).1.None? {
        TraceIsComplete(Step(s, inputs[0]).0, inputs[1..]);
      }
    }
  }

  // ---- requested heartbeats --------------------------------------------------------------

  predicate IsRequest(e: Event) {
    e.Received? && Opcode(e.frame) == HEARTBEAT
  }

  /** A requested heartbeat follows each request at once, and nothing else. */
  ghost predicate Answered(trace: seq<Event>) {
    forall i: nat :: i < |trace| ==> AnsweredAt(trace, i)
  }

  predicate AnsweredAt(trace: seq<Event>, i: nat)
    requires i < |trace|
  {
    trace[i].RequestedBeat? <==> i > 0 && IsRequest(trace[i - 1])
  }

  predicate NoneWaiting(trace: seq<Event>) {
    trace == [] || !IsRequest(trace[|trace| - 1])
  }

  lemma AnsweredAppend(trace: seq<Event>, e: Event)
    requires Answered(trace) && (e.RequestedBeat? <==> !NoneWaiting(trace))
    ensures Answered(trace + [e]) && (NoneWaiting(trace + [e]) <==> !IsRequest(e))
  {
    var all := trace + [e];
    forall i: nat | i < |all| ensures AnsweredAt(all, i) {
      if i < |trace| { assert AnsweredAt(trace, i); }
    }
  }

  lemma FrameAnswers(s: State, f: Frame, writeOk: bool, alive: bool)
    requires Answered(s.trace) && NoneWaiting(s.trace)
    ensures var (next, reason) := OnFrame(s, f, writeOk, alive);
            Answered(next.trace) && (reason.None? ==> NoneWaiting(next.trace))
  {
    var noted := Noted(s, f);
    AnsweredAppend(s.trace, Received(f));
    assert noted.trace == s.trace + [Received(f)];
    var m := if f.data.Some? then ParseMessageCreate(f.data.value, noted.bot) else None;
    hide Answered, NoneWaiting, ParseMessageCreate;
    if Opcode(f) == HEARTBEAT {
      AnsweredAppend(noted.trace, RequestedBeat(noted.lastSequence));
    } else if m.Some? {
      AnsweredAppend(noted.trace, Forwarded(m.value));
    }
  }

  lemma {:induction false} RunAnswers(s: State, inputs: seq<Input>)
    requires Answered(s.trace) && NoneWaiting(s.trace)
    ensures var (end, reason) := Run(s, inputs);
            Answered(end.trace) && (reason.None? ==> NoneWaiting(end.trace))
    decreases |inputs|
  {
    if inputs != [] {
      match inputs[0] {
        case Tick(_) => AnsweredAppend(s.trace, TimerBeat(s.lastSequence));
        case TextFrame(Some(f), writeOk, alive) => FrameAnswers(s, f, writeOk, alive);
        case _ =>
      }
      hide Answered, NoneWaiting, OnFrame;
      if Step(s, inputs[0]).1.None? {
        RunAnswers(Step(s, inputs[0]).0, inputs[1..]);
      }
    }
  }

  // ---- the laws of every session -------------------------------------------------------

  /** Over any run of a session two timer heartbeats always have an ACK between them. */
  lemma HeartbeatsAreAcked(bot: Option<string>, inputs: seq<Input>)
    ensures var trace := Run(Opening(bot), inputs).0.trace;
            forall i, j :: 0 <= i < j < |trace| && trace[i].TimerBeat? && trace[j].TimerBeat? ==>
              exists k :: i < k < j && IsAck(trace[k])
  {
    RunIsLawful(Opening(bot), bot, inputs);
  }

  /** Every heartbeat, timed or requested, carries the last sequence number received. */
  lemma HeartbeatsCarryLastSequence(bot: Option<string>, inputs: seq<Input>)
    ensures var trace := Run(Opening(bot), inputs).0.trace;
            forall i :: 0 <= i < |trace| && (trace[i].TimerBeat? || trace[i].RequestedBeat?) ==>
              trace[i].d == LastSequence(trace[..i])
  {
    RunIsLawful(Opening(bot), bot, inputs);
  }

  /** The server's heartbeat requests, and only they, are answered outside the timer, each at once. */
  lemma RequestsAreAnswered(bot: Option<string>, inputs: seq<Input>)
    ensures var (end, reason) := Run(Opening(bot), inputs);
            && (forall i: nat :: i < |end.trace| ==> AnsweredAt(end.trace, i))
            && (reason.None? && end.trace != [] ==> !IsRequest(end.trace[|end.trace| - 1]))
  {
    RunAnswers(Opening(bot), inputs);
  }

  /**
   At the timer's next tick the session ends when its last beat is unanswered or the new one
   cannot be sent, and otherwise a beat goes out with the last sequence number.
   */
  lemma TickBeatsOrEnds(bot: Option<string>, inputs: seq<Input>, writeOk: bool)
    requires Run(Opening(bot), inputs).1.None?
    ensures var s := Run(Opening(bot), inputs).0;
            var (next, reason) := Step(s, Tick(writeOk));
            if Outstanding(s.trace) || !writeOk then reason == Some(ConnectionLost) && next.trace == s.trace
            else reason == None && next.trace == s.trace + [TimerBeat(LastSequence(s.trace))]
  {
    RunIsLawful(Opening(bot), bot, inputs);
  }

  /** A text frame ends a session exactly when it asks for that, or what it calls for cannot be done. */
  lemma FramesThatEndASession(s: State, f: Frame, writeOk: bool, alive: bool)
    ensures var reason := OnFrame(s, f, writeOk, alive).1;
            && (reason == Some(ReceiverDropped) <==> Called(f, s.bot) != [] && !alive)
            && (reason == Some(ConnectionLost) <==>
                  Opcode(f) in {RECONNECT, INVALID_SESSION} || (Opcode(f) == HEARTBEAT && !writeOk))
  {
    hide ParseMessageCreate;
  }

  /**
   The messages forwarded are those the received frames call for, in order, each judged
   under the bot id of the latest READY; only a dropped receiver can cost the last one.
   */
  lemma ForwardedAreDue(bot: Option<string>, inputs: seq<Input>)
    ensures var (end, reason) := Run(Opening(bot), inputs);
            if reason == Some(ReceiverDropped) then exists m :: Due(end.trace, bot) == Sent(end.trace) + [m]
            else Sent(end.trace) == Due(end.trace, bot)
  {
    RunIsLawful(Opening(bot), bot, inputs);
  }

  // ---- from the inputs to the messages ----------------------------------------------------------

  /** The bot id in force after some frames. */
  function BotOf(frames: seq<Frame>, bot: Option<string>): Option<string> {
    if frames == [] then bot
    else
      var last := frames[|frames| - 1];
      if Named(last) then last.userId else BotOf(frames[..|frames| - 1], bot)
  }

  /** The messages some frames call for, each read under the bot id of the latest READY before it. */
  function DueOf(frames: seq<Frame>, bot: Option<string>): seq<Incoming> {
    if frames == [] then []
    else
      var front := frames[..|frames| - 1];
      DueOf(front, bot) + Called(frames[|frames| - 1], BotOf(front, bot))
  }

  /** A trace calls for what its received frames call for. */
  lemma {:induction false} DueIsOfFrames(trace: seq<Event>, bot: Option<string>)
    ensures BotAfter(trace, bot) == BotOf(ReceivedFrames(trace), bot)
    ensures Due(trace, bot) == DueOf(ReceivedFrames(trace), bot)
  {
    hide Called, Named;
    if trace != [] {
      var front, last := trace[..|trace| - 1], trace[|trace| - 1];
      DueIsOfFrames(front, bot);
      var before, frames := ReceivedFrames(front), ReceivedFrames(trace);
      if last.Received? {
        assert frames == before + [last.frame];
        assert frames[..|frames| - 1] == before;
      } else {
        assert frames == before + [] == before;
      }
    }
  }

  /**
   A session forwards what the frames it took call for: of the text frames that parsed, among
   the inputs up to the one that ended it, every message due, in order, and no other; only a
   dropped receiver costs the last.
   */
  lemma ForwardedAreOfInputs(bot: Option<string>, inputs: seq<Input>)
    ensures var (end, reason) := Run(Opening(bot), inputs);
            var due := DueOf(ParsedFrames(inputs[..Consumed(Opening(bot), inputs)]), bot);
            if reason == Some(ReceiverDropped) then exists m :: due == Sent(end.trace) + [m]
            else Sent(end.trace) == due
  {
    NothingReceived(bot);
    hide *;
    ForwardedAreDue(bot, inputs);
    TraceIsComplete(Opening(bot), inputs);
    DueIsOfFrames(Run(Opening(bot), inputs).0.trace, bot);
    var frames := ParsedFrames(inputs[..Consumed(Opening(bot), inputs)]);
    assert [] + frames == frames;
  }

  lemma NothingReceived(bot: Option<string>)
    ensures ReceivedFrames(Opening(bot).trace) == []
  {
  }
}
