/**
 The bridge with its words, letters, channel names and gate in full: which replies are
 verdicts, who gets into the event channel and as what, and where prompts go.
 */
module WrittenBridge {
  import opened Chars
  import opened Permission
  import opened Bridge

  // ---- channels and verdicts ---------------------------------------------------------------

  /** The five channel names, read in any case and written in lower case. */
  lemma ChannelsWrittenOut(s: string)
    ensures ParseChannel(s) == Some(WhatsAppChannel) <==> Lower(s) == "whatsapp"
    ensures ParseChannel(s) == Some(MessengerChannel) <==> Lower(s) == "messenger"
    ensures ParseChannel(s) == Some(DiscordChannel) <==> Lower(s) == "discord"
    ensures ParseChannel(s) == Some(SlackChannel) <==> Lower(s) == "slack"
    ensures ParseChannel(s) == Some(TelegramChannel) <==> Lower(s) == "telegram"
    ensures Display(WhatsAppChannel) == "whatsapp" && Display(MessengerChannel) == "messenger"
    ensures Display(DiscordChannel) == "discord" && Display(SlackChannel) == "slack"
    ensures Display(TelegramChannel) == "telegram"
  {
  }

  /** `text` is a word, white space and an id of five letters, with white space round them or not. */
  ghost predicate Reply(text: string, word: string, id: string) {
    && (Lower(word) == "y" || Lower(word) == "yes" || Lower(word) == "n" || Lower(word) == "no")
    && |id| == 5 && (forall c :: c in Lower(id) ==> c in "abcdefghijkmnopqrstuvwxyz")
    && exists s0, s1, s2 ::
         && text == s0 + word + s1 + id + s2 && s1 != []
         && forall c :: c in s0 + s1 + s2 ==> IsWhitespace(c)
  }

  lemma IdWrittenOut(id: string)
    ensures RequestId(id) <==> |id| == 5 && forall c :: c in id ==> c in "abcdefghijkmnopqrstuvwxyz"
  {
    var letters := "abcdefghijkmnopqrstuvwxyz";
    assert forall k :: 0 <= k < 11 ==> letters[k] as int == 'a' as int + k;
    assert forall k :: 11 <= k < 25 ==> letters[k] as int == 'a' as int + k + 1;
    forall c: char ensures c in letters <==> 'a' <= c <= 'z' && c != 'l' {
      if 'a' <= c < 'l' { assert letters[c as int - 'a' as int] == c; }
      if 'l' < c <= 'z' { assert letters[c as int - 'a' as int - 1] == c; }
    }
    hide *;
    IdByLetters(id, letters);
  }

  lemma IdByLetters(id: string, letters: string)
    requires forall c: char :: c in letters <==> 'a' <= c <= 'z' && c != 'l'
    ensures RequestId(id) <==> |id| == 5 && forall c :: c in id ==> c in letters
  {
    if |id| == 5 && forall c :: c in id ==> c in letters {
      assert forall i :: 0 <= i < 5 ==> id[i] in id;
    }
  }

  lemma ReplyIsPattern(text: string, word: string, id: string)
    ensures Reply(text, word, id) <==> VerdictPattern(text, word, id)
  {
    IdWrittenOut(Lower(id));
    hide Lower, RequestId, IsWhitespace;
    if Reply(text, word, id) {
      var s0, s1, s2 :|
        text == s0 + word + s1 + id + s2 && s1 != [] && forall c :: c in s0 + s1 + s2 ==> IsWhitespace(c);
      SpacesApart(s0, s1, s2);
    }
    if VerdictPattern(text, word, id) {
      var s0, s1, s2 :| AllSpace(s0) && AllSpace(s1) && s1 != [] && AllSpace(s2) && text == s0 + word + s1 + id + s2;
      SpacesApart(s0, s1, s2);
    }
  }

  lemma SpacesApart(s0: string, s1: string, s2: string)
    ensures (forall c :: c in s0 + s1 + s2 ==> IsWhitespace(c)) <==> AllSpace(s0) && AllSpace(s1) && AllSpace(s2)
  {
    hide IsWhitespace;
    if forall c :: c in s0 + s1 + s2 ==> IsWhitespace(c) {
      assert forall i :: 0 <= i < |s0| ==> s0[i] in s0;
      assert forall i :: 0 <= i < |s1| ==> s1[i] in s1;
      assert forall i :: 0 <= i < |s2| ==> s2[i] in s2;
    }
  }

  /** A text is a verdict exactly when it is such a reply, on the id in lower case, and allows for `y` and `yes`. */
  lemma VerdictWrittenOut(text: string, id: string, allow: bool)
    ensures ParseVerdict(text) == Some(Verdict(id, allow)) <==>
            exists word, typed :: && Reply(text, word, typed) && id == Lower(typed)
                                  && (allow <==> Lower(word) == "y" || Lower(word) == "yes")
  {
    VerdictIsPattern(text);
    forall word, typed ensures Reply(text, word, typed) <==> VerdictPattern(text, word, typed) {
      ReplyIsPattern(text, word, typed);
    }
    forall word, typed | Reply(text, word, typed)
      ensures Lower(word)[0] == 'y' <==> Lower(word) == "y" || Lower(word) == "yes"
    {
    }
    hide ParseVerdict, VerdictPattern, Reply, Lower;
  }

  /** A verdict is accepted exactly when its id is pending on the route it came by, and then it is pending no more. */
  lemma ConsumeWrittenOut(r: Relay, text: string, from: Route)
    ensures var (next, accepted) := Consume(r, text, from);
            var v := ParseVerdict(text);
            if v.Some? && v.value.requestId in r.pending && r.pending[v.value.requestId] == from then
              accepted == v && next.pending == r.pending - {v.value.requestId}
            else accepted == None && next == r
  {
    hide ParseVerdict;
  }

  /** A request is pending on its route from when it is made, unless its id is empty or its channel unknown. */
  lemma RequestWrittenOut(r: Relay, id: string, channelType: string, chatId: string)
    ensures var next := Request(r, id, Route(channelType, chatId));
            if id != "" && Lower(channelType) in ["whatsapp", "messenger", "discord", "slack", "telegram"] then
              next.pending == r.pending[id := Route(channelType, chatId)]
            else next == r
  {
    ChannelsWrittenOut(channelType);
    hide Lower;
  }

  /** A history's registrations and accepted verdicts of an id, counted entry by entry. */
  lemma CountsWrittenOut(log: seq<Entry>, e: Entry, id: string)
    ensures Registrations([], id) == 0 && Acceptances([], id) == 0
    ensures Registrations(log + [e], id) == Registrations(log, id) + if e.Registered? && e.id == id then 1 else 0
    ensures Acceptances(log + [e], id) == Acceptances(log, id) + if e.Accepted? && e.id == id then 1 else 0
  {
    assert (log + [e])[..|log|] == log;
  }

  // ---- the gate -------------------------------------------------------------------------------------

  /** `e` is what `m` becomes: its sender's name or id, the channel's name, its chat or sender, and its text. */
  predicate Becomes(e: ChannelEvent, channel: ChannelType, m: Message) {
    && e.sender == (if m.senderName.Some? then m.senderName.value else m.senderId)
    && e.channelType == (match channel
                         case WhatsAppChannel => "whatsapp" case MessengerChannel => "messenger"
                         case DiscordChannel => "discord" case SlackChannel => "slack"
                         case TelegramChannel => "telegram")
    && e.chatId == (if m.conversationId.Some? then m.conversationId.value else m.senderId)
    && e.content == m.content && e.turnId == m.turnId
  }

  lemma EventBecomes(channel: ChannelType, m: Message)
    ensures Becomes(EventOf(channel, m), channel, m)
  {
  }

  /** The gate lets the message in. */
  predicate LetIn(gate: Gate, m: Message) {
    (gate.allowAll || m.senderId in gate.allowed) && m.senderId != ""
  }

  /** `at` lists, in order, the messages of senders who are let in and named, and `events` is what they become. */
  ghost predicate Selects(events: seq<ChannelEvent>, at: seq<nat>, gate: Gate, channel: ChannelType,
      messages: seq<Message>) {
    && |at| == |events|
    && (forall j, k :: 0 <= j < k < |at| ==> at[j] < at[k])
    && (forall k :: 0 <= k < |at| ==> at[k] < |messages| && Becomes(events[k], channel, messages[at[k]]))
    && (forall i: nat :: i < |messages| ==>
          (i in at <==> LetIn(gate, messages[i])))
  }

  lemma OneMore(events: seq<ChannelEvent>, at: seq<nat>, gate: Gate, channel: ChannelType, front: seq<Message>,
      m: Message, e: ChannelEvent)
    requires Selects(events, at, gate, channel, front) && LetIn(gate, m) && Becomes(e, channel, m)
    ensures Selects(events + [e], at + [|front|], gate, channel, front + [m])
  {
    hide Becomes;
    var n, at', all := |front|, at + [|front|], front + [m];
    assert forall k :: 0 <= k < |at| ==> at'[k] == at[k] && at[k] < n && all[at[k]] == front[at[k]];
    forall i: nat | i < |all| ensures i in at' <==> LetIn(gate, all[i]) {
      if i < n {
        assert all[i] == front[i] && (i in at <==> LetIn(gate, front[i]));
        assert i in at' <==> i in at;
      } else {
        assert at'[|at|] == n;
      }
    }
  }

  lemma NoneMore(events: seq<ChannelEvent>, at: seq<nat>, gate: Gate, channel: ChannelType, front: seq<Message>,
      m: Message)
    requires Selects(events, at, gate, channel, front) && !LetIn(gate, m)
    ensures Selects(events, at, gate, channel, front + [m])
  {
    hide Becomes;
    var n, all := |front|, front + [m];
    assert forall k :: 0 <= k < |at| ==> at[k] < n && all[at[k]] == front[at[k]];
    forall i: nat | i < |all| ensures i in at <==> LetIn(gate, all[i]) {
      if i < n { assert all[i] == front[i] && (i in at <==> LetIn(gate, front[i])); }
    }
  }

  lemma {:induction false} GatedSelects(gate: Gate, channel: ChannelType, messages: seq<Message>) returns (at: seq<nat>)
    ensures Selects(Gated(gate, channel, messages), at, gate, channel, messages)
  {
    if messages == [] {
      at := [];
    } else {
      var front, m := messages[..|messages| - 1], messages[|messages| - 1];
      at := GatedSelects(gate, channel, front);
      EventBecomes(channel, m);
      hide Selects, EventOf, Becomes;
      assert messages == front + [m];
      if LetIn(gate, m) {
        OneMore(Gated(gate, channel, front), at, gate, channel, front, m, EventOf(channel, m));
        at := at + [|front|];
      } else {
        NoneMore(Gated(gate, channel, front), at, gate, channel, front, m);
        assert Gated(gate, channel, front) + [] == Gated(gate, channel, front);
      }
    }
  }

  /** Who is in the channel: in every run each event sent is that of an allowed, named sender of its call. */
  lemma SentIsLetIn(c: Bounds, actions: seq<Action>, i: nat) returns (m: Message)
    requires i < |RunAll(c, actions).sent|
    ensures var w := RunAll(c, actions);
            var s := w.sent[i];
            && s.batch in w.batches && m in w.batches[s.batch].messages
            && (c.gate.allowAll || m.senderId in c.gate.allowed) && m.senderId != ""
            && Becomes(s.event, w.batches[s.batch].channel, m)
  {
    EveryRunIsLawful(c, actions);
    var w := RunAll(c, actions);
    var s := w.sent[i];
    var b := w.batches[s.batch];
    assert BatchLawful(c, w.sent, s.batch, b);
    FromMembers(w.sent, i);
    hide RunAll;
    var at := GatedSelects(c.gate, b.channel, b.messages[..b.next]);
    var seen := b.messages[..b.next];
    m := OneSelected(Gated(c.gate, b.channel, seen), at, c.gate, b.channel, seen, s.event);
  }

  lemma OneSelected(events: seq<ChannelEvent>, at: seq<nat>, gate: Gate, channel: ChannelType, messages: seq<Message>,
      e: ChannelEvent) returns (m: Message)
    requires Selects(events, at, gate, channel, messages) && e in events
    ensures m in messages && (gate.allowAll || m.senderId in gate.allowed) && m.senderId != "" && Becomes(e, channel, m)
  {
    hide Becomes;
    var k :| 0 <= k < |events| && events[k] == e;
    assert at[k] in at;
    m := messages[at[k]];
  }

  /** A call answered 200 has sent one event for each message of a sender let in and named, in order, and no other. */
  lemma OkSentAll(c: Bounds, actions: seq<Action>, p: nat) returns (at: seq<nat>)
    requires p in RunAll(c, actions).batches && RunAll(c, actions).batches[p].status == Some(Ok200)
    ensures var w := RunAll(c, actions);
            var b := w.batches[p];
            Selects(From(w.sent, p), at, c.gate, b.channel, b.messages)
  {
    AnswerTellsWhatWasEnqueued(c, actions, p);
    hide RunAll, Gated, From, Selects;
    var b := RunAll(c, actions).batches[p];
    at := GatedSelects(c.gate, b.channel, b.messages);
  }

  /** A call none of whose senders is on the list, where the list is in force, sends nothing and is answered 200. */
  lemma OutsidersSendNothing(c: Bounds, actions: seq<Action>, p: nat, open: bool, room: int)
    requires p in RunAll(c, actions).batches && !c.gate.allowAll
    requires forall m :: m in RunAll(c, actions).batches[p].messages ==> m.senderId !in c.gate.allowed
    ensures var w := RunAll(c, actions);
            var b := w.batches[p];
            && From(w.sent, p) == [] && (b.status.Some? ==> b.status == Some(Ok200))
            && Forwarding(c.gate, b.channel, b.messages, open, room) == (Ok200, [])
  {
    EveryRunIsLawful(c, actions);
    var w := RunAll(c, actions);
    var b := w.batches[p];
    assert BatchLawful(c, w.sent, p, b);
    hide RunAll;
    NobodyForwarded(c.gate, b.channel, b.messages, open, room);
    NobodyGated(c.gate, b.channel, b.messages[..b.next]);
  }

  lemma {:induction false} NobodyForwarded(gate: Gate, channel: ChannelType, messages: seq<Message>, open: bool,
      room: int)
    requires !gate.allowAll && forall m :: m in messages ==> m.senderId !in gate.allowed
    ensures Forwarding(gate, channel, messages, open, room) == (Ok200, [])
  {
    if messages != [] {
      assert messages[0] in messages;
      NobodyForwarded(gate, channel, messages[1..], open, room);
    }
  }

  lemma {:induction false} NobodyGated(gate: Gate, channel: ChannelType, messages: seq<Message>)
    requires !gate.allowAll && forall m :: m in messages ==> m.senderId !in gate.allowed
    ensures Gated(gate, channel, messages) == []
  {
    if messages != [] {
      assert messages[|messages| - 1] in messages;
      NobodyGated(gate, channel, messages[..|messages| - 1]);
    }
  }

  /** An undisturbed call that answers 200 enqueued the same; one that does not found the channel full or closed. */
  lemma UndisturbedSelects(gate: Gate, channel: ChannelType, messages: seq<Message>, open: bool, room: int)
    returns (at: seq<nat>, wanted: seq<ChannelEvent>)
    ensures Selects(wanted, at, gate, channel, messages)
    ensures var (status, events) := Forwarding(gate, channel, messages, open, room);
            && events <= wanted && (status == Ok200 <==> events == wanted)
            && (events != [] ==> open && |events| <= room)
            && (status == Unavailable503 ==> open && |events| >= room)
            && (status == Internal500 ==> !open && events == [])
  {
    wanted := Gated(gate, channel, messages);
    at := GatedSelects(gate, channel, messages);
    UndisturbedTells(gate, channel, messages, open, room);
    ClosedTakesNone(gate, channel, messages, open, room);
    hide Forwarding, Gated, Selects;
  }

  lemma {:induction false} ClosedTakesNone(gate: Gate, channel: ChannelType, messages: seq<Message>, open: bool,
      room: int)
    ensures Forwarding(gate, channel, messages, open, room).1 != [] ==> open
  {
    hide EventOf, Forwardable;
    if messages != [] { ClosedTakesNone(gate, channel, messages[1..], open, room); }
  }

  // ---- the loop ------------------------------------------------------------------------------------------

  /**
   An event is a verdict for the route it came by or is said; either way its sender is the last one
   once it is written, and a verdict is used up even if stdout does not take it.
   */
  lemma LoopWrittenOut(m: Mcp, e: ChannelEvent)
    ensures var (relay, verdict) := Consume(m.relay, e.content, Route(e.channelType, e.chatId));
            && OnEvent(m, e, true) ==
               Mcp(Some(Context(e.channelType, e.chatId, e.turnId)), relay,
                   m.output + [if verdict.Some? then Ruled(verdict.value) else Said(e)])
            && OnEvent(m, e, false).relay == relay && OnEvent(m, e, false).output == m.output
  {
    hide Consume;
  }

  /** A permission request goes to the last sender's chat, and nowhere without one. */
  lemma AskWrittenOut(m: Mcp, id: string, ctx: Context)
    ensures OnPermissionRequest(m.(lastSender := None), id) == m.(lastSender := None)
    ensures OnPermissionRequest(m.(lastSender := Some(ctx)), id) ==
            m.(lastSender := Some(ctx), relay := Request(m.relay, id, Route(ctx.channelType, ctx.chatId)))
  {
  }

  /** In every run each prompt went to the channel and chat of the event completed last before it. */
  lemma PromptsWrittenOut(c: Bounds, actions: seq<Action>, i: nat)
    requires i < |RunAll(c, actions).prompts|
    ensures var w := RunAll(c, actions);
            var n := w.prompts[i].after;
            && 0 < n <= |w.completed|
            && w.prompts[i].route == Route(w.completed[n - 1].event.channelType, w.completed[n - 1].event.chatId)
  {
    EveryRunIsLawful(c, actions);
    hide RunAll;
  }

  // ---- the steps -------------------------------------------------------------------------------------------

  /** A call begins at its first message, and nothing starts it again; it moves on by one message at a time. */
  lemma CallStepsWrittenOut(c: Bounds, w: World, p: nat, b: Batch, channel: ChannelType, messages: seq<Message>)
    ensures Next(c, w, Begin(p, channel, messages)) ==
            if p in w.batches then w else w.(batches := w.batches[p := Batch(channel, messages, 0, None)])
    ensures p !in w.batches || w.batches[p].status.Some? ==> Next(c, w, Advance(p)) == w
    ensures p in w.batches && w.batches[p] == b && b.status.None? ==>
              var next := Next(c, w, Advance(p));
              if b.next >= |b.messages| then next == w.(batches := w.batches[p := b.(status := Some(Ok200))])
              else if !LetIn(c.gate, b.messages[b.next]) then
                next == w.(batches := w.batches[p := b.(next := b.next + 1)])
              else if !w.open then next == w.(batches := w.batches[p := b.(status := Some(Internal500))])
              else if |w.queue| >= c.capacity then
                next == w.(batches := w.batches[p := b.(status := Some(Unavailable503))])
              else
                && |next.queue| == |w.queue| + 1 && w.queue <= next.queue && next.queue[|w.queue|].batch == p
                && Becomes(next.queue[|w.queue|].event, b.channel, b.messages[b.next])
                && next == w.(queue := next.queue, sent := w.sent + [next.queue[|w.queue|]],
                              batches := w.batches[p := b.(next := b.next + 1)])
  {
    if p in w.batches && b.next < |b.messages| { EventBecomes(b.channel, b.messages[b.next]); }
    hide EventOf, Becomes;
  }

  /** The loop takes the oldest event when it has none in hand, and finishes it; between two it reads stdin. */
  lemma LoopStepsWrittenOut(c: Bounds, w: World, e: Sent, rest: seq<Sent>, id: string)
    requires w.open
    ensures w.handling.None? ==>
              && Next(c, w.(queue := [e] + rest), Take) == w.(handling := Some(e), queue := rest)
              && Next(c, w, CloseStdin) == w.(open := false, queue := [], lost := w.queue)
    ensures w.handling.Some? ==>
              && Next(c, w, Take) == w && Next(c, w, AskPermission(id)) == w && Next(c, w, CloseStdin) == w
    ensures Next(c, w.(handling := Some(e)), Finish(true)) ==
            w.(mcp := OnEvent(w.mcp, e.event, true), handling := None, completed := w.completed + [e])
    ensures Next(c, w.(handling := Some(e)), Finish(false)) ==
            w.(mcp := OnEvent(w.mcp, e.event, false), handling := None, queue := [], open := false,
               lost := [e] + w.queue)
    ensures w.handling.None? ==>
              var next := Next(c, w, AskPermission(id));
              && next.mcp == OnPermissionRequest(w.mcp, id)
              && (next.mcp == w.mcp ==> next.prompts == w.prompts)
              && (next.mcp != w.mcp ==>
                    && w.mcp.lastSender.Some?
                    && next.prompts == w.prompts + [Prompt(id, Route(w.mcp.lastSender.value.channelType,
                                                                     w.mcp.lastSender.value.chatId), |w.completed|)])
              && next == w.(mcp := next.mcp, prompts := next.prompts)
  {
    assert ([e] + rest)[1..] == rest;
    hide OnEvent, Request;
  }

  /** An ended loop takes, handles and asks nothing, and a run is its steps one after the other. */
  lemma RunStepsWrittenOut(c: Bounds, w: World, writeOk: bool, id: string, actions: seq<Action>, a: Action)
    requires !w.open
    ensures Next(c, w, Take) == w && Next(c, w, Finish(writeOk)) == w
    ensures Next(c, w, AskPermission(id)) == w && Next(c, w, CloseStdin) == w
    ensures RunAll(c, []) == World([], None, true, map[], Mcp(None, Relay(map[], []), []), [], [], [], [])
    ensures RunAll(c, actions + [a]) == Next(c, RunAll(c, actions), a)
  {
    RunSnoc(c, actions, a);
  }
}
