/**
 Reconnecting: `start_gateway`, `calculate_backoff_delay` and the readiness of a
 session in src/channels/discord/gateway.rs.
 */
module Reconnect {
  import opened Chars
  import G = Gateway

  const MAX_RECONNECT_ATTEMPTS := 10
  const BASE_MS := 1000
  const MAX_MS := 60_000
  const U64_LIMIT := 0x1_0000_0000_0000_0000

  function Shift(n: nat): (r: nat)
    ensures r > 0
  {
    if n == 0 then 1 else 2 * Shift(n - 1)
  }

  function SaturatingMul(a: nat, b: nat): nat {
    if a * b < U64_LIMIT then a * b else U64_LIMIT - 1
  }

  /** `calculate_backoff_delay` in milliseconds. */
  function Delay(attempt: nat): nat {
    var product := SaturatingMul(BASE_MS, Shift(if attempt < 31 then attempt else 31));
    if product < MAX_MS then product else MAX_MS
  }

  lemma {:induction false} ShiftGrows(m: nat, n: nat)
    requires m <= n
    ensures Shift(m) <= Shift(n)
  {
    if m < n { ShiftGrows(m, n - 1); }
  }

  lemma ShiftSmall()
    ensures Shift(5) == 32 && Shift(6) == 64 && Shift(31) == 0x8000_0000
  {
    assert Shift(6) == 64;
    assert Shift(11) == 2048;
    assert Shift(16) == 0x1_0000;
    assert Shift(21) == 0x20_0000;
    assert Shift(26) == 0x400_0000;
  }

  /** Delays stay within one second and one minute, never shrink, and never saturate the multiply. */
  lemma DelayBounds(m: nat, n: nat)
    requires m <= n
    ensures 1000 <= Delay(m) <= Delay(n) <= 60_000
    ensures BASE_MS * Shift(if n < 31 then n else 31) < U64_LIMIT
  {
    ShiftSmall();
    var a, b := if m < 31 then m else 31, if n < 31 then n else 31;
    ShiftGrows(0, a);
    ShiftGrows(a, b);
    ShiftGrows(b, 31);
  }

  lemma DelayValues()
    ensures Delay(0) == 1000 && Delay(1) == 2000 && Delay(2) == 4000 && Delay(3) == 8000
    ensures Delay(4) == 16_000 && Delay(5) == 32_000
    ensures forall n :: n >= 6 ==> Delay(n) == 60_000
  {
    ShiftSmall();
    assert Shift(1) == 2 && Shift(2) == 4 && Shift(3) == 8 && Shift(4) == 16;
    forall n | n >= 6 ensures Delay(n) == 60_000 {
      DelayBounds(6, n);
    }
  }

  // ---- one session after another --------------------------------------------------------

  datatype Outcome = Outcome(reason: G.Reason, reachedReady: bool)

  /** How far a session got: three ways to fail before the event loop, or its inputs. */
  datatype Session = ConnectFailed | NoHello | IdentifyFailed | Ran(inputs: seq<G.Input>)

  /** `run_gateway_session` under the bot id kept from before: the id kept after, and the outcome. */
  function RunSession(bot: Option<string>, session: Session): (Option<string>, Outcome) {
    match session
    case Ran(inputs) =>
      var (end, reason) := G.Run(G.Opening(bot), inputs);
      // A finished session has a reason; an input list that runs out is a stream that ends.
      (end.bot, Outcome(G.Or(reason, G.ConnectionLost), end.bot.Some?))
    case _ => (bot, Outcome(G.ConnectionLost, false))
  }

  function BotAfterSessions(sessions: seq<Session>): Option<string> {
    if sessions == [] then None
    else RunSession(BotAfterSessions(sessions[..|sessions| - 1]), sessions[|sessions| - 1]).0
  }

  /** The outcomes of sessions run one after the other, each under the bot id the last one left. */
  function OutcomesOf(sessions: seq<Session>): (r: seq<Outcome>)
    ensures |r| == |sessions|
  {
    if sessions == [] then []
    else
      var front := sessions[..|sessions| - 1];
      OutcomesOf(front) + [RunSession(BotAfterSessions(front), sessions[|sessions| - 1]).1]
  }

  /** `run_gateway_session`: a fresh session under the id kept so far. */
  method RunGatewaySession(bot: Option<string>, session: Session) returns (kept: Option<string>, outcome: Outcome)
    ensures (kept, outcome) == RunSession(bot, session)
  {
    if !session.Ran? {
      return bot, Outcome(G.ConnectionLost, false);
    }
    var live := new G.Session(bot);
    var reason := live.RunEventLoop(session.inputs);
    kept, outcome := live.bot, Outcome(G.Or(reason, G.ConnectionLost), live.bot.Some?);
  }

  // ---- the reconnect loop --------------------------------------------------------------

  /** How many outcomes at the end of the list did not reach READY. */
  function Streak(outcomes: seq<Outcome>): (r: nat)
    ensures r <= |outcomes|
  {
    if outcomes == [] || outcomes[|outcomes| - 1].reachedReady then 0
    else 1 + Streak(outcomes[..|outcomes| - 1])
  }

  predicate Dropped(o: Outcome) {
    o.reason == G.ReceiverDropped
  }

  /** The loop is still going after these sessions. */
  ghost predicate Goes(outcomes: seq<Outcome>) {
    forall i: nat :: i < |outcomes| ==> GoesAt(outcomes, i)
  }

  predicate GoesAt(outcomes: seq<Outcome>, i: nat)
    requires i < |outcomes|
  {
    !Dropped(outcomes[i]) && Streak(outcomes[..i + 1]) <= MAX_RECONNECT_ATTEMPTS
  }

  /** The loop ends with the last of these sessions. */
  ghost predicate Stops(outcomes: seq<Outcome>) {
    && outcomes != [] && Goes(outcomes[..|outcomes| - 1])
    && (Dropped(outcomes[|outcomes| - 1]) || Streak(outcomes) > MAX_RECONNECT_ATTEMPTS)
  }

  /** The waits after each session of a run that goes on. */
  function Waits(outcomes: seq<Outcome>): seq<nat> {
    if outcomes == [] then [] else Waits(outcomes[..|outcomes| - 1]) + [Delay(Streak(outcomes))]
  }

  function Total(waits: seq<nat>): nat {
    if waits == [] then 0 else Total(waits[..|waits| - 1]) + waits[|waits| - 1]
  }

  /** The loop over the sessions it will have: how many it ran, and what it slept. */
  method StartGateway(sessions: seq<Session>) returns (stopped: bool, used: nat, slept: seq<nat>)
    ensures used <= |sessions|
    ensures stopped ==>
              used > 0 && Stops(OutcomesOf(sessions[..used])) && slept == Waits(OutcomesOf(sessions[..used - 1]))
    ensures !stopped ==> used == |sessions| && Goes(OutcomesOf(sessions)) && slept == Waits(OutcomesOf(sessions))
  {
    hide *;
    NoneYet();
    var bot: Option<string> := None;
    var consecutiveFailures := 0;
    used, slept := 0, [];
    assert sessions[..0] == [];
    while used < |sessions|
      invariant used <= |sessions|
      invariant bot == BotAfterSessions(sessions[..used])
      invariant Goes(OutcomesOf(sessions[..used])) && slept == Waits(OutcomesOf(sessions[..used]))
      invariant consecutiveFailures == Streak(OutcomesOf(sessions[..used]))
    {
      ghost var front := sessions[..used];
      assert sessions[..used + 1] == front + [sessions[used]];
      OneMore(front, sessions[used]);
      var outcome;
      bot, outcome := RunGatewaySession(bot, sessions[used]);
      AfterOne(OutcomesOf(front), outcome);
      used := used + 1;
      if outcome.reason.ReceiverDropped? {
        return true, used, slept;
      }
      if outcome.reachedReady {
        consecutiveFailures := 0;
      } else {
        consecutiveFailures := consecutiveFailures + 1;
      }
      if consecutiveFailures > MAX_RECONNECT_ATTEMPTS {
        return true, used, slept;
      }
      slept := slept + [Delay(consecutiveFailures)];
    }
    stopped := false;
    assert sessions[..used] == sessions;
  }

  lemma OneMore(front: seq<Session>, session: Session)
    ensures var (bot, outcome) := RunSession(BotAfterSessions(front), session);
            && BotAfterSessions(front + [session]) == bot
            && OutcomesOf(front + [session]) == OutcomesOf(front) + [outcome]
  {
    assert (front + [session])[..|front|] == front;
    hide RunSession;
  }

  lemma NoneYet()
    ensures Goes(OutcomesOf([])) && Waits(OutcomesOf([])) == [] && Streak(OutcomesOf([])) == 0
    ensures BotAfterSessions([]) == None
  {
  }

  lemma AfterOne(front: seq<Outcome>, o: Outcome)
    requires Goes(front)
    ensures var all := front + [o];
            && Streak(all) == (if o.reachedReady then 0 else Streak(front) + 1)
            && Waits(all) == Waits(front) + [Delay(Streak(all))]
            && (o.reason.ReceiverDropped? || Streak(all) > MAX_RECONNECT_ATTEMPTS ==> Stops(all))
            && (!o.reason.ReceiverDropped? && Streak(all) <= MAX_RECONNECT_ATTEMPTS ==> Goes(all))
  {
    assert (front + [o])[..|front|] == front;
    if !Dropped(o) && Streak(front + [o]) <= MAX_RECONNECT_ATTEMPTS { GoesOn(front, o); }
    hide Delay, Goes;
  }

  lemma GoesOn(front: seq<Outcome>, o: Outcome)
    requires Goes(front) && !Dropped(o) && Streak(front + [o]) <= MAX_RECONNECT_ATTEMPTS
    ensures Goes(front + [o])
  {
    var all := front + [o];
    forall i: nat | i < |all| ensures GoesAt(all, i) {
      if i < |front| {
        assert all[..i + 1] == front[..i + 1];
        assert GoesAt(front, i);
      } else {
        assert all[..i + 1] == all;
      }
    }
  }

  // ---- the bound -------------------------------------------------------------------------

  lemma {:induction false} StreakIsTail(outcomes: seq<Outcome>)
    ensures var n := Streak(outcomes);
            && (forall i :: |outcomes| - n <= i < |outcomes| ==> !outcomes[i].reachedReady)
            && (n < |outcomes| ==> outcomes[|outcomes| - n - 1].reachedReady)
  {
    if outcomes != [] && !outcomes[|outcomes| - 1].reachedReady {
      StreakIsTail(outcomes[..|outcomes| - 1]);
    }
  }

  /**
   The loop stops by itself exactly with the eleventh session in a row that did not reach
   READY: eleven are needed and no twelfth is tried.
   */
  lemma StopsAtTheEleventh(outcomes: seq<Outcome>)
    requires Stops(outcomes) && !Dropped(outcomes[|outcomes| - 1])
    ensures Streak(outcomes) == 11
    ensures |outcomes| >= 11 && forall i :: |outcomes| - 11 <= i < |outcomes| ==> !outcomes[i].reachedReady
  {
    var front := outcomes[..|outcomes| - 1];
    if front != [] {
      assert front[..(|front| - 1) + 1] == front;
      assert GoesAt(front, |front| - 1);
    }
    StreakIsTail(outcomes);
  }

  /** The time slept since the streak began, when the loop goes on. */
  function SleptInStreak(outcomes: seq<Outcome>): nat
    decreases |outcomes|
  {
    if outcomes == [] || outcomes[|outcomes| - 1].reachedReady then 0
    else SleptInStreak(outcomes[..|outcomes| - 1]) + Delay(Streak(outcomes))
  }

  /** `Delay(1) + ... + Delay(n)`. */
  function Backoff(n: nat): nat {
    if n == 0 then 0 else Backoff(n - 1) + Delay(n)
  }

  lemma {:induction false} SleptIsBackoff(outcomes: seq<Outcome>)
    ensures SleptInStreak(outcomes) == Backoff(Streak(outcomes))
    decreases |outcomes|
  {
    hide Delay;
    if outcomes != [] && !outcomes[|outcomes| - 1].reachedReady {
      SleptIsBackoff(outcomes[..|outcomes| - 1]);
    }
  }

  lemma {:induction false} WaitsEndInStreak(outcomes: seq<Outcome>)
    ensures |Waits(outcomes)| == |outcomes|
    ensures Total(Waits(outcomes)) >= SleptInStreak(outcomes)
    ensures Total(Waits(outcomes)) - Total(Waits(outcomes[..|outcomes| - Streak(outcomes)])) == SleptInStreak(outcomes)
    decreases |outcomes|
  {
    hide Delay;
    if outcomes == [] {
    } else {
      var front := outcomes[..|outcomes| - 1];
      WaitsEndInStreak(front);
      assert Waits(outcomes) == Waits(front) + [Delay(Streak(outcomes))];
      assert Waits(outcomes)[..|front|] == Waits(front);
      if outcomes[|outcomes| - 1].reachedReady {
        assert outcomes[..|outcomes|] == outcomes;
      } else {
        assert outcomes[..|outcomes| - Streak(outcomes)] == front[..|front| - Streak(front)];
      }
    }
  }

  lemma {:induction false} BackoffBounded(n: nat)
    requires n <= 10
    ensures Backoff(n) <= 362_000 && (n == 10 ==> Backoff(n) == 362_000)
  {
    DelayValues();
    hide Delay;
    assert Backoff(3) == 14_000;
    assert Backoff(6) == 122_000;
    assert Backoff(8) == 242_000;
    assert Backoff(10) == 362_000;
    BackoffGrows(n, 10);
  }

  lemma {:induction false} BackoffGrows(m: nat, n: nat)
    requires m <= n
    ensures Backoff(m) <= Backoff(n)
  {
    if m < n { BackoffGrows(m, n - 1); }
  }

  /** No streak of failures sleeps more than 362 seconds, and one that ends the loop slept exactly that. */
  lemma StreakSleepsAtMost362Seconds(outcomes: seq<Outcome>)
    requires Goes(outcomes)
    ensures Total(Waits(outcomes)) - Total(Waits(outcomes[..|outcomes| - Streak(outcomes)])) <= 362_000
    ensures Streak(outcomes) == 10 ==>
              Total(Waits(outcomes)) - Total(Waits(outcomes[..|outcomes| - 10])) == 362_000
  {
    StreakWhileGoing(outcomes);
    hide *;
    WaitsEndInStreak(outcomes);
    SleptIsBackoff(outcomes);
    BackoffBounded(Streak(outcomes));
  }

  lemma StreakWhileGoing(outcomes: seq<Outcome>)
    requires Goes(outcomes)
    ensures Streak(outcomes) <= 10
  {
    if outcomes != [] {
      assert outcomes[..(|outcomes| - 1) + 1] == outcomes;
      assert GoesAt(outcomes, |outcomes| - 1);
    }
  }

  // ---- readiness ------------------------------------------------------------------------------

  /** READY arrived with a user id in this trace. */
  ghost predicate SawReady(trace: seq<G.Event>) {
    exists i :: 0 <= i < |trace| && trace[i].Received? && G.Named(trace[i].frame)
  }

  ghost predicate ReadyIn(sessions: seq<Session>, k: nat) {
    && k < |sessions| && sessions[k].Ran?
    && SawReady(G.Run(G.Opening(BotAfterSessions(sessions[..k])), sessions[k].inputs).0.trace)
  }

  lemma {:induction false} BotKnownIff(trace: seq<G.Event>, bot: Option<string>)
    ensures G.BotAfter(trace, bot).Some? <==> bot.Some? || SawReady(trace)
  {
    if trace != [] {
      var front := trace[..|trace| - 1];
      BotKnownIff(front, bot);
      if SawReady(front) {
        var i :| 0 <= i < |front| && front[i].Received? && G.Named(front[i].frame);
        assert trace[i] == front[i];
      }
      if SawReady(trace) {
        var i :| 0 <= i < |trace| && trace[i].Received? && G.Named(trace[i].frame);
        assert i < |front| ==> front[i] == trace[i];
      }
    }
  }

  lemma SessionKnows(bot: Option<string>, session: Session)
    ensures RunSession(bot, session).0.Some? <==>
            bot.Some? || (session.Ran? && SawReady(G.Run(G.Opening(bot), session.inputs).0.trace))
  {
    if session.Ran? {
      G.RunIsLawful(G.Opening(bot), bot, session.inputs);
      BotKnownIff(G.Run(G.Opening(bot), session.inputs).0.trace, bot);
      hide G.Run, SawReady, G.Due, G.Sent;
    }
  }

  lemma {:induction false} BotKnownAfter(sessions: seq<Session>)
    ensures BotAfterSessions(sessions).Some? <==> exists k: nat :: ReadyIn(sessions, k)
  {
    if sessions == [] {
      assert forall k: nat :: !ReadyIn(sessions, k);
    } else {
      var last := |sessions| - 1;
      BotKnownAfter(sessions[..last]);
      SessionKnows(BotAfterSessions(sessions[..last]), sessions[last]);
      assert BotAfterSessions(sessions).Some? <==> BotAfterSessions(sessions[..last]).Some? || ReadyIn(sessions, last);
      hide *;
      forall k: nat
        ensures ReadyIn(sessions, k) <==> ReadyIn(sessions[..last], k) || (k == last && ReadyIn(sessions, last))
      {
        ReadyInFront(sessions, k);
      }
    }
  }

  lemma ReadyInFront(sessions: seq<Session>, k: nat)
    requires sessions != []
    ensures ReadyIn(sessions[..|sessions| - 1], k) <==> k < |sessions| - 1 && ReadyIn(sessions, k)
    ensures ReadyIn(sessions, k) ==> k < |sessions|
  {
    hide BotAfterSessions, SawReady;
    if k < |sessions| - 1 { assert sessions[..|sessions| - 1][..k] == sessions[..k]; }
  }

  /**
   A session counts as ready exactly when it got past IDENTIFY and some session so far, not
   necessarily this one, saw READY with a user id: the id is never cleared.
   */
  lemma ReadinessIsSticky(sessions: seq<Session>, session: Session)
    ensures RunSession(BotAfterSessions(sessions), session).1.reachedReady <==>
            session.Ran? && exists k: nat :: ReadyIn(sessions + [session], k)
  {
    var all := sessions + [session];
    assert all[..|sessions|] == sessions;
    BotKnownAfter(all);
  }

  /** So after one READY a session that never sees READY still resets the failure count. */
  lemma IdleSessionCountsAsReady(sessions: seq<Session>, k: nat)
    requires ReadyIn(sessions, k)
    ensures RunSession(BotAfterSessions(sessions), Ran([G.StreamEnd])).1 == Outcome(G.ConnectionLost, true)
    ensures !ReadyIn(sessions + [Ran([G.StreamEnd])], |sessions|)
  {
    BotKnownAfter(sessions);
    var idle := Ran([G.StreamEnd]);
    var bot := BotAfterSessions(sessions);
    assert (sessions + [idle])[..|sessions|] == sessions;
    assert G.Run(G.Opening(bot), [G.StreamEnd]) == (G.Opening(bot), Some(G.ConnectionLost));
  }

  lemma {:induction false} OutcomeAt(sessions: seq<Session>, i: nat)
    requires i < |sessions|
    ensures OutcomesOf(sessions)[i] == RunSession(BotAfterSessions(sessions[..i]), sessions[i]).1
  {
    hide RunSession, BotAfterSessions;
    if i < |sessions| - 1 {
      OutcomeAt(sessions[..|sessions| - 1], i);
      assert sessions[..|sessions| - 1][..i] == sessions[..i];
    }
  }

  /** Once READY was seen, a session counts as failed only if it ended before its event loop. */
  lemma FailsOnlyEarly(sessions: seq<Session>, k: nat, i: nat)
    requires ReadyIn(sessions, k) && k <= i < |sessions|
    ensures OutcomesOf(sessions)[i].reachedReady <==> sessions[i].Ran?
  {
    var front := sessions[..i];
    OutcomeAt(sessions, i);
    ReadinessIsSticky(front, sessions[i]);
    assert (front + [sessions[i]])[..k] == sessions[..k];
    assert ReadyIn(front + [sessions[i]], k);
    hide RunSession, BotAfterSessions, ReadyIn;
  }

  /**
   So after one READY the loop gives up only on eleven sessions in a row that never got to
   their event loop, whatever the sessions before them did.
   */
  lemma GivesUpOnlyOnDeadConnections(sessions: seq<Session>, k: nat)
    requires Stops(OutcomesOf(sessions)) && !Dropped(OutcomesOf(sessions)[|sessions| - 1]) && ReadyIn(sessions, k)
    ensures k < |sessions| - 11
    ensures forall i :: |sessions| - 11 <= i < |sessions| ==> !sessions[i].Ran?
  {
    hide *;
    var outcomes := OutcomesOf(sessions);
    StopsAtTheEleventh(outcomes);
    ReadyRan(sessions, k);
    FailsOnlyEarly(sessions, k, k);
    assert outcomes[k].reachedReady;
    assert k < |outcomes| - 11;
    forall i: nat | |sessions| - 11 <= i < |sessions| ensures !sessions[i].Ran? {
      FailsOnlyEarly(sessions, k, i);
      assert !outcomes[i].reachedReady;
    }
  }

  lemma ReadyRan(sessions: seq<Session>, k: nat)
    requires ReadyIn(sessions, k)
    ensures k < |sessions| && sessions[k].Ran?
  {
  }
}
