/**
 The Discord gateway with its opcodes and event names written out: what every input does to a
 session, and how a session ends the reconnect loop.
 */
module WrittenGateway {
  import opened Chars
  import G = Gateway
  import R = Reconnect

  /** A dispatch: opcode 0, or none. */
  predicate Dispatched(f: G.Frame) {
    f.op == None || f.op == Some(0)
  }

  /** The message a `MESSAGE_CREATE` dispatch carries, if it is one to forward. */
  function Carried(f: G.Frame, bot: Option<string>): Option<G.Incoming> {
    if Dispatched(f) && f.event == Some("MESSAGE_CREATE") && f.data.Some? then G.ParseMessageCreate(f.data.value, bot)
    else None
  }

  /**
   A frame's sequence number is kept, opcode 11 acknowledges, opcode 1 asks for a beat, opcodes 7
   and 9 end the session, a `READY` dispatch names the bot and a `MESSAGE_CREATE` dispatch is forwarded.
   */
  lemma FrameWrittenOut(s: G.State, f: G.Frame, writeOk: bool, alive: bool)
    ensures var (next, reason) := G.OnFrame(s, f, writeOk, alive);
            var m := Carried(f, s.bot);
            && next.lastSequence == (if f.sequence.Some? then f.sequence else s.lastSequence)
            && (next.ackPending <==> s.ackPending && f.op != Some(11))
            && next.bot == (if Dispatched(f) && f.event == Some("READY") && f.userId.Some? then f.userId else s.bot)
            && (reason == Some(G.ReceiverDropped) <==> m.Some? && !alive)
            && (reason == Some(G.ConnectionLost) <==>
                  f.op == Some(7) || f.op == Some(9) || (f.op == Some(1) && !writeOk))
            && next.trace == s.trace + [G.Received(f)] +
                             (if f.op == Some(1) && writeOk then [G.RequestedBeat(next.lastSequence)]
                              else if m.Some? && alive then [G.Forwarded(m.value)] else [])
  {
    hide G.ParseMessageCreate;
    assert s.trace + [G.Received(f)] + [] == s.trace + [G.Received(f)];
  }

  /** A tick beats, or ends the session if a beat is unanswered or cannot be sent; so does the end of the connection. */
  lemma InputsWrittenOut(s: G.State, f: Option<G.Frame>, writeOk: bool, alive: bool)
    ensures G.Step(s, G.Tick(writeOk)) ==
            if s.ackPending || !writeOk then (s, Some(G.ConnectionLost))
            else (s.(ackPending := true, trace := s.trace + [G.TimerBeat(s.lastSequence)]), None)
    ensures G.Step(s, G.TextFrame(f, writeOk, alive)) ==
            if f.Some? then G.OnFrame(s, f.value, writeOk, alive) else (s, None)
    ensures G.Step(s, G.OtherFrame) == (s, None)
    ensures G.Step(s, G.CloseFrame) == G.Step(s, G.ReadError) == G.Step(s, G.StreamEnd) == (s, Some(G.ConnectionLost))
  {
    hide G.OnFrame;
  }

  /** A session opens with nothing received or pending, and runs until an input ends it. */
  lemma RunWrittenOut(bot: Option<string>, s: G.State, input: G.Input, rest: seq<G.Input>)
    ensures G.Opening(bot) == G.State(None, false, bot, [])
    ensures G.Run(s, []) == (s, None)
    ensures G.Run(s, [input] + rest) ==
            if G.Step(s, input).1.Some? then G.Step(s, input) else G.Run(G.Step(s, input).0, rest)
  {
    hide G.Step;
    assert ([input] + rest)[1..] == rest;
  }

  // ---- how sessions end -----------------------------------------------------------------------------

  /**
   A session that got to its event loop reports what ended that loop, a lost connection if nothing
   did, and is ready if a bot id is known; one that did not lost its connection and is not.
   */
  lemma SessionWrittenOut(bot: Option<string>, session: R.Session)
    ensures var (kept, outcome) := R.RunSession(bot, session);
            match session
            case Ran(inputs) =>
              var (end, reason) := G.Run(G.Opening(bot), inputs);
              && kept == end.bot && (outcome.reachedReady <==> end.bot.Some?)
              && (outcome.reason == G.ReceiverDropped <==> reason == Some(G.ReceiverDropped))
              && (outcome.reason == G.ConnectionLost <==> reason != Some(G.ReceiverDropped))
            case _ => kept == bot && outcome == R.Outcome(G.ConnectionLost, false)
  {
    hide G.Run;
  }

  /** The event loop of session `i` ended because no one takes its messages any more. */
  ghost predicate LostReceiver(sessions: seq<R.Session>, i: nat) {
    && i < |sessions| && sessions[i].Ran?
    && G.Run(G.Opening(R.BotAfterSessions(sessions[..i])), sessions[i].inputs).1 == Some(G.ReceiverDropped)
  }

  lemma LostIsDropped(sessions: seq<R.Session>, i: nat)
    requires i < |sessions|
    ensures LostReceiver(sessions, i) <==> R.Dropped(R.OutcomesOf(sessions)[i])
  {
    R.OutcomeAt(sessions, i);
    SessionWrittenOut(R.BotAfterSessions(sessions[..i]), sessions[i]);
    hide G.Run, R.RunSession, R.BotAfterSessions;
  }

  /**
   The reconnect loop stops with the first session that lost its receiver, and with no other but
   the eleventh in a row that was not ready.
   */
  lemma StopsWrittenOut(sessions: seq<R.Session>)
    requires sessions != []
    ensures R.Goes(R.OutcomesOf(sessions)) ==> forall i: nat :: !LostReceiver(sessions, i)
    ensures R.Stops(R.OutcomesOf(sessions)) ==>
              && (forall i: nat :: i < |sessions| - 1 ==> !LostReceiver(sessions, i))
              && (LostReceiver(sessions, |sessions| - 1) || R.Streak(R.OutcomesOf(sessions)) == 11)
    ensures R.Goes(R.OutcomesOf(sessions[..|sessions| - 1])) && LostReceiver(sessions, |sessions| - 1) ==>
              R.Stops(R.OutcomesOf(sessions))
  {
    var n := |sessions| - 1;
    var outcomes := R.OutcomesOf(sessions);
    forall i: nat | i < |sessions| ensures LostReceiver(sessions, i) <==> R.Dropped(outcomes[i]) {
      LostIsDropped(sessions, i);
    }
    assert outcomes[..n] == R.OutcomesOf(sessions[..n]);
    if R.Stops(outcomes) && !R.Dropped(outcomes[n]) { R.StopsAtTheEleventh(outcomes); }
    hide R.OutcomesOf, R.Streak;
    assert forall i: nat :: LostReceiver(sessions, i) ==> i < |sessions|;
    hide LostReceiver;
    if R.Goes(outcomes) {
      forall i: nat | i < |sessions| ensures !LostReceiver(sessions, i) { assert R.GoesAt(outcomes, i); }
    }
    if R.Stops(outcomes) {
      forall i: nat | i < n ensures !LostReceiver(sessions, i) { assert R.GoesAt(outcomes[..n], i); }
    }
  }

  /** The waits double from two seconds to thirty-two and are a minute from then on. */
  lemma DelaysWrittenOut(n: nat)
    ensures R.Delay(0) == 1000 && R.Delay(1) == 2000 && R.Delay(2) == 4000 && R.Delay(3) == 8000
    ensures R.Delay(4) == 16_000 && R.Delay(5) == 32_000 && (n >= 6 ==> R.Delay(n) == 60_000)
  {
    R.DelayValues();
    hide R.Delay;
  }

  /** A streak is the sessions at the end of the list that were not ready, up to the last that was. */
  lemma StreakWrittenOut(outcomes: seq<R.Outcome>, n: nat)
    ensures R.Streak(outcomes) == n <==>
            && n <= |outcomes| && (forall i :: |outcomes| - n <= i < |outcomes| ==> !outcomes[i].reachedReady)
            && (n < |outcomes| ==> outcomes[|outcomes| - n - 1].reachedReady)
  {
    R.StreakIsTail(outcomes);
    hide R.Streak;
    var k := R.Streak(outcomes);
    if n < k && n <= |outcomes| { assert !outcomes[|outcomes| - n - 1].reachedReady; }
    if k < n <= |outcomes| { assert outcomes[|outcomes| - k - 1].reachedReady; }
  }

  /** After each session but the one that ends it the loop waits, by the streak there is then. */
  lemma {:induction false} WaitsWrittenOut(outcomes: seq<R.Outcome>, i: nat)
    requires i < |outcomes|
    ensures |R.Waits(outcomes)| == |outcomes| && R.Waits(outcomes)[i] == R.Delay(R.Streak(outcomes[..i + 1]))
  {
    hide R.Delay, R.Streak;
    var n := |outcomes| - 1;
    if i < n {
      WaitsWrittenOut(outcomes[..n], i);
      assert outcomes[..n][..i + 1] == outcomes[..i + 1];
    } else {
      assert outcomes[..i + 1] == outcomes;
      if n > 0 { WaitsWrittenOut(outcomes[..n], n - 1); }
    }
  }
}
