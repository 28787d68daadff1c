/**
 The Claude channel bridge: webhook batches (webhook.rs) feed a bounded event channel,
 one MCP loop (mcp.rs) drains it, and permission prompts follow the last sender.
 All in crates/dravr-canot-claude-channel/src.
 */
module Bridge {
  import opened Chars
  import opened Permission

  // ---- the sender gate and the event a message becomes -----------------------------

  datatype Gate = Gate(allowed: set<string>, allowAll: bool)

  /** An inbound message after parsing; `content` is its extracted text. */
  datatype Message = Message(senderId: string, senderName: Option<string>, conversationId: Option<string>,
      content: string, turnId: nat)

  datatype ChannelEvent = ChannelEvent(sender: string, channelType: string, chatId: string, content: string,
      turnId: nat)

  predicate Forwardable(gate: Gate, m: Message) {
    (gate.allowAll || m.senderId in gate.allowed) && m.senderId != ""
  }

  function EventOf(channel: ChannelType, m: Message): ChannelEvent {
    ChannelEvent(
      if m.senderName.Some? then m.senderName.value else m.senderId,
      Display(channel),
      if m.conversationId.Some? then m.conversationId.value else m.senderId,
      m.content, m.turnId)
  }

  /** The events a batch should become: its forwardable messages, in order. */
  function Gated(gate: Gate, channel: ChannelType, messages: seq<Message>): seq<ChannelEvent> {
    if messages == [] then []
    else Gated(gate, channel, messages[..|messages| - 1])
         + if Forwardable(gate, messages[|messages| - 1]) then [EventOf(channel, messages[|messages| - 1])] else []
  }

  datatype Status = Ok200 | Unavailable503 | Internal500

  datatype SendResult = Delivered | Full | Closed

  /** The bounded channel between the webhook and the loop. */
  class EventQueue {
    var items: seq<ChannelEvent>
    var open: bool
    const capacity: nat

    constructor (capacity: nat)
      ensures items == [] && open && this.capacity == capacity
    {
      items, open, this.capacity := [], true, capacity;
    }

    method TrySend(e: ChannelEvent) returns (r: SendResult)
      modifies this
      ensures r == if !old(open) then Closed else if |old(items)| >= capacity then Full else Delivered
      ensures items == (if r.Delivered? then old(items) + [e] else old(items)) && open == old(open)
    {
      if !open {
        return Closed;
      }
      if |items| >= capacity {
        return Full;
      }
      items := items + [e];
      return Delivered;
    }
  }

  /** What an undisturbed call enqueues into `room` places, and its answer. */
  function Forwarding(gate: Gate, channel: ChannelType, messages: seq<Message>, open: bool, room: int): (Status,
      seq<ChannelEvent>)
  {
    if messages == [] then (Ok200, [])
    else if !Forwardable(gate, messages[0]) then Forwarding(gate, channel, messages[1..], open, room)
    else if !open then (Internal500, [])
    else if room <= 0 then (Unavailable503, [])
    else
      var (status, events) := Forwarding(gate, channel, messages[1..], open, room - 1);
      (status, [EventOf(channel, messages[0])] + events)
  }

  lemma ForwardingAt(gate: Gate, channel: ChannelType, messages: seq<Message>, i: nat, open: bool, room: int)
    requires i <= |messages|
    ensures Forwarding(gate, channel, messages[i..], open, room) ==
            if i == |messages| then (Ok200, [])
            else if !Forwardable(gate, messages[i]) then Forwarding(gate, channel, messages[i + 1..], open, room)
            else if !open then (Internal500, [])
            else if room <= 0 then (Unavailable503, [])
            else
              var (status, events) := Forwarding(gate, channel, messages[i + 1..], open, room - 1);
              (status, [EventOf(channel, messages[i])] + events)
  {
    hide Forwardable, EventOf;
    if i < |messages| { assert messages[i..][1..] == messages[i + 1..]; }
  }

  /**
   What a call enqueues is a prefix of what it wanted to, all of it exactly when it answers 200,
   and within its room; 503 says that it filled the channel, 500 that the channel was closed.
   */
  predicate Tells(wanted: seq<ChannelEvent>, open: bool, room: int, status: Status, events: seq<ChannelEvent>) {
    && events <= wanted && (status == Ok200 <==> events == wanted)
    && (events != [] ==> |events| <= room)
    && (status == Unavailable503 ==> open && |events| >= room)
    && (status == Internal500 ==> !open && events == [])
  }

  lemma {:induction false} ForwardingTells(gate: Gate, channel: ChannelType, messages: seq<Message>, i: nat,
      open: bool, room: int)
    requires i <= |messages|
    ensures var (status, events) := Forwarding(gate, channel, messages[i..], open, room);
            var before, wanted := Gated(gate, channel, messages[..i]), Gated(gate, channel, messages);
            before <= wanted && Tells(wanted[|before|..], open, room, status, events)
    decreases |messages| - i
  {
    hide Forwarding, Gated, Forwardable, EventOf;
    ForwardingAt(gate, channel, messages, i, open, room);
    GatedGrows(gate, channel, messages, i);
    if i == |messages| {
      assert messages[..i] == messages;
    } else {
      GatedStep(gate, channel, messages, i);
      GatedGrows(gate, channel, messages, i + 1);
      if !Forwardable(gate, messages[i]) {
        ForwardingTells(gate, channel, messages, i + 1, open, room);
      } else if open && room > 0 {
        ForwardingTells(gate, channel, messages, i + 1, open, room - 1);
      }
    }
  }

  lemma UndisturbedTells(gate: Gate, channel: ChannelType, messages: seq<Message>, open: bool, room: int)
    ensures var (status, events) := Forwarding(gate, channel, messages, open, room);
            Tells(Gated(gate, channel, messages), open, room, status, events)
  {
    ForwardingTells(gate, channel, messages, 0, open, room);
    GatedNothing(gate, channel);
    assert messages[0..] == messages && messages[..0] == [];
    hide *;
    var wanted := Gated(gate, channel, messages);
    assert wanted[0..] == wanted;
  }

  lemma GatedNothing(gate: Gate, channel: ChannelType)
    ensures Gated(gate, channel, []) == []
  {
  }

  lemma GatedStep(gate: Gate, channel: ChannelType, messages: seq<Message>, i: nat)
    requires i < |messages|
    ensures Gated(gate, channel, messages[..i + 1]) ==
            Gated(gate, channel, messages[..i])
            + if Forwardable(gate, messages[i]) then [EventOf(channel, messages[i])] else []
  {
    assert messages[..i + 1][..i] == messages[..i];
  }

  lemma {:induction false} GatedGrows(gate: Gate, channel: ChannelType, messages: seq<Message>, i: nat)
    requires i <= |messages|
    ensures Gated(gate, channel, messages[..i]) <= Gated(gate, channel, messages)
    decreases |messages| - i
  {
    if i == |messages| {
      assert messages[..i] == messages;
    } else {
      GatedStep(gate, channel, messages, i);
      GatedGrows(gate, channel, messages, i + 1);
    }
  }

  /** A call that has enqueued `enqueued` before message `i` is on its way to `whole`. */
  predicate OnTheWay(whole: (Status, seq<ChannelEvent>), enqueued: seq<ChannelEvent>,
                     gate: Gate, channel: ChannelType, messages: seq<Message>, i: nat, open: bool, room: int)
    requires i <= |messages|
  {
    var (status, rest) := Forwarding(gate, channel, messages[i..], open, room);
    whole == (status, enqueued + rest)
  }

  lemma OneMessage(whole: (Status, seq<ChannelEvent>), enqueued: seq<ChannelEvent>,
                   gate: Gate, channel: ChannelType, messages: seq<Message>, i: nat, open: bool, room: int)
    requires i <= |messages| && OnTheWay(whole, enqueued, gate, channel, messages, i, open, room)
    ensures if i == |messages| then whole == (Ok200, enqueued)
            else if !Forwardable(gate, messages[i]) then
              OnTheWay(whole, enqueued, gate, channel, messages, i + 1, open, room)
            else if !open then whole == (Internal500, enqueued)
            else if room <= 0 then whole == (Unavailable503, enqueued)
            else
              var sent := enqueued + [EventOf(channel, messages[i])];
              OnTheWay(whole, sent, gate, channel, messages, i + 1, open, room - 1)
  {
    ForwardingAt(gate, channel, messages, i, open, room);
    hide Forwardable, EventOf, Forwarding;
    assert enqueued + [] == enqueued;
    if i < |messages| && Forwardable(gate, messages[i]) && open && room > 0 {
      var rest := Forwarding(gate, channel, messages[i + 1..], open, room - 1).1;
      Appended(enqueued, EventOf(channel, messages[i]), rest);
    }
  }

  lemma SettingOut(gate: Gate, channel: ChannelType, messages: seq<Message>, open: bool, room: int)
    ensures OnTheWay(Forwarding(gate, channel, messages, open, room), [], gate, channel, messages, 0, open, room)
  {
    hide Forwarding;
    var events := Forwarding(gate, channel, messages, open, room).1;
    assert messages[0..] == messages && [] + events == events;
  }

  lemma Grown(a: seq<ChannelEvent>, b: seq<ChannelEvent>, x: ChannelEvent)
    ensures a + b + [x] == a + (b + [x]) && |a + b + [x]| == |a + b| + 1
  {
  }

  /** The forwarding loop of one webhook call, undisturbed: the events it enqueues and its answer. */
  method HandleWebhook(gate: Gate, channel: ChannelType, messages: seq<Message>, queue: EventQueue)
    returns (status: Status, ghost enqueued: seq<ChannelEvent>)
    modifies queue
    ensures (status, enqueued) ==
            Forwarding(gate, channel, messages, old(queue.open), queue.capacity - |old(queue.items)|)
    ensures queue.items == old(queue.items) + enqueued && queue.open == old(queue.open)
    ensures var room := queue.capacity - |old(queue.items)|;
            Tells(Gated(gate, channel, messages), old(queue.open), room, status, enqueued)
  {
    hide EventOf, Forwarding, Gated, Tells, OnTheWay;
    UndisturbedTells(gate, channel, messages, queue.open, queue.capacity - |queue.items|);
    SettingOut(gate, channel, messages, queue.open, queue.capacity - |queue.items|);
    enqueued := [];
    ghost var whole := Forwarding(gate, channel, messages, queue.open, queue.capacity - |queue.items|);
    for i := 0 to |messages|
      invariant queue.items == old(queue.items) + enqueued && queue.open == old(queue.open)
      invariant OnTheWay(whole, enqueued, gate, channel, messages, i, queue.open, queue.capacity - |queue.items|)
    {
      var msg := messages[i];
      OneMessage(whole, enqueued, gate, channel, messages, i, queue.open, queue.capacity - |queue.items|);
      if !(gate.allowAll || msg.senderId in gate.allowed) {
        continue;
      }
      if msg.senderId == "" {
        continue;
      }
      var event := EventOf(channel, msg);
      Grown(old(queue.items), enqueued, event);
      var sent := queue.TrySend(event);
      match sent {
        case Delivered => enqueued := enqueued + [event];
        case Full => return Unavailable503, enqueued;
        case Closed => return Internal500, enqueued;
      }
    }
    OneMessage(whole, enqueued, gate, channel, messages, |messages|, queue.open, queue.capacity - |queue.items|);
    status := Ok200;
  }

  // ---- the MCP loop -----------------------------------------------------------------------

  datatype Context = Context(channelType: string, chatId: string, turnId: nat)

  datatype Notification = Said(event: ChannelEvent) | Ruled(verdict: Verdict)

  datatype Mcp = Mcp(lastSender: Option<Context>, relay: Relay, output: seq<Notification>)

  function ContextOf(e: ChannelEvent): Context {
    Context(e.channelType, e.chatId, e.turnId)
  }

  function RouteOf(e: ChannelEvent): Route {
    Route(e.channelType, e.chatId)
  }

  /** `handle_channel_event`; `writeOk` is whether stdout took the notification. */
  function OnEvent(m: Mcp, e: ChannelEvent, writeOk: bool): Mcp {
    var (relay, verdict) := Consume(m.relay, e.content, RouteOf(e));
    if verdict.Some? then
      if writeOk then Mcp(Some(ContextOf(e)), relay, m.output + [Ruled(verdict.value)])
      else m.(relay := relay)
    else
      Mcp(Some(ContextOf(e)), relay, if writeOk then m.output + [Said(e)] else m.output)
  }

  /** The permission branch of `handle_stdin_message`. */
  function OnPermissionRequest(m: Mcp, id: string): Mcp {
    match m.lastSender
    case None => m
    case Some(ctx) => m.(relay := Request(m.relay, id, Route(ctx.channelType, ctx.chatId)))
  }

  class McpLoop {
    var lastSender: Option<Context>
    var output: seq<Notification>
    const relay: PermissionRelay

    ghost function View(): Mcp
      reads this, relay
    {
      Mcp(lastSender, relay.View(), output)
    }

    constructor (relay: PermissionRelay)
      ensures View() == Mcp(None, relay.View(), []) && this.relay == relay
    {
      lastSender, output, this.relay := None, [], relay;
    }

    method HandleChannelEvent(e: ChannelEvent, writeOk: bool) returns (ok: bool)
      modifies this, relay
      ensures View() == OnEvent(old(View()), e, writeOk) && ok == writeOk
    {
      var verdict := relay.TryConsumeVerdict(e.content, e.channelType, e.chatId);
      if verdict.Some? {
        if !writeOk {
          return false;
        }
        output := output + [Ruled(verdict.value)];
        lastSender := Some(Context(e.channelType, e.chatId, e.turnId));
        return true;
      }
      lastSender := Some(Context(e.channelType, e.chatId, e.turnId));
      if !writeOk {
        return false;
      }
      output := output + [Said(e)];
      return true;
    }

    method HandlePermissionRequest(id: string) returns (prompted: Option<Route>)
      modifies relay
      ensures View() == OnPermissionRequest(old(View()), id)
      ensures prompted.Some? ==>
                && lastSender.Some?
                && prompted.value == Route(lastSender.value.channelType, lastSender.value.chatId)
    {
      if lastSender.None? {
        return None;
      }
      var ctx := lastSender.value;
      var sent := relay.HandleRequest(id, ctx.channelType, ctx.chatId);
      return if sent then Some(Route(ctx.channelType, ctx.chatId)) else None;
    }
  }

  // ---- the whole bridge, one step at a time ---------------------------------------------

  /** An event on its way, with the webhook call it came from. */
  datatype Sent = Sent(batch: nat, event: ChannelEvent)

  /** A webhook call in progress: `next` is the message it looks at next. */
  datatype Batch = Batch(channel: ChannelType, messages: seq<Message>, next: nat, status: Option<Status>)

  /** A permission prompt, and how many events had been completed when it went out. */
  datatype Prompt = Prompt(id: string, route: Route, after: nat)

  /**
   The running system. `handling` is the event the loop has taken and not finished. `sent`,
   `completed`, `lost` and `prompts` are history: what every `try_send` put in, what the loop
   fully handled, what died with the loop, what was asked.
   */
  datatype World = World(
    queue: seq<Sent>, handling: Option<Sent>, open: bool, batches: map<nat, Batch>, mcp: Mcp,
    sent: seq<Sent>, completed: seq<Sent>, lost: seq<Sent>, prompts: seq<Prompt>)

  datatype Bounds = Bounds(gate: Gate, capacity: nat)

  datatype Action =
    | Begin(batch: nat, channel: ChannelType, messages: seq<Message>)
    | Advance(batch: nat)
    | Take
    | Finish(writeOk: bool)
    | AskPermission(id: string)
    | CloseStdin

  const START := World([], None, true, map[], Mcp(None, IDLE, []), [], [], [], [])

  function AdvanceBatch(c: Bounds, w: World, p: nat, b: Batch): World {
    if b.next >= |b.messages| then w.(batches := w.batches[p := b.(status := Some(Ok200))])
    else if !Forwardable(c.gate, b.messages[b.next]) then w.(batches := w.batches[p := b.(next := b.next + 1)])
    else if !w.open then w.(batches := w.batches[p := b.(status := Some(Internal500))])
    else if |w.queue| >= c.capacity then w.(batches := w.batches[p := b.(status := Some(Unavailable503))])
    else
      var s := Sent(p, EventOf(b.channel, b.messages[b.next]));
      w.(queue := w.queue + [s], sent := w.sent + [s], batches := w.batches[p := b.(next := b.next + 1)])
  }

  /** The loop takes the oldest event out of the channel: its place is free at once. */
  function TakeNext(w: World): World
    requires w.queue != []
  {
    w.(handling := Some(w.queue[0]), queue := w.queue[1..])
  }

  /** It handles the event; if stdout fails, the loop ends and its receiver is dropped. */
  function FinishEvent(w: World, writeOk: bool): World
    requires w.handling.Some?
  {
    var e := w.handling.value;
    var mcp := OnEvent(w.mcp, e.event, writeOk);
    if writeOk then w.(mcp := mcp, handling := None, completed := w.completed + [e])
    else w.(mcp := mcp, handling := None, queue := [], open := false, lost := [e] + w.queue)
  }

  function Prompted(w: World, id: string): World {
    var mcp := OnPermissionRequest(w.mcp, id);
    if mcp == w.mcp || w.mcp.lastSender.None? then w
    else
      var ctx := w.mcp.lastSender.value;
      w.(mcp := mcp, prompts := w.prompts + [Prompt(id, Route(ctx.channelType, ctx.chatId), |w.completed|)])
  }

  /**
   One step; an action that does not apply changes nothing. While the loop handles an event only
   the webhook calls move: the same task reads stdin.
   */
  function Next(c: Bounds, w: World, a: Action): World {
    match a
    case Begin(p, channel, messages) =>
      if p in w.batches then w else w.(batches := w.batches[p := Batch(channel, messages, 0, None)])
    case Advance(p) =>
      if p in w.batches && w.batches[p].status.None? then AdvanceBatch(c, w, p, w.batches[p]) else w
    case Take => if w.open && w.handling.None? && w.queue != [] then TakeNext(w) else w
    case Finish(writeOk) => if w.open && w.handling.Some? then FinishEvent(w, writeOk) else w
    case AskPermission(id) => if w.open && w.handling.None? then Prompted(w, id) else w
    case CloseStdin => if w.open && w.handling.None? then w.(open := false, queue := [], lost := w.queue) else w
  }

  function RunAll(c: Bounds, actions: seq<Action>): World {
    if actions == [] then START else Next(c, RunAll(c, actions[..|actions| - 1]), actions[|actions| - 1])
  }

  // ---- what every step keeps ----------------------------------------------------------------

  /** The events of one batch, in order. */
  function From(sent: seq<Sent>, p: nat): seq<ChannelEvent> {
    if sent == [] then []
    else From(sent[..|sent| - 1], p) + if sent[|sent| - 1].batch == p then [sent[|sent| - 1].event] else []
  }

  function InHand(handling: Option<Sent>): seq<Sent> {
    if handling.Some? then [handling.value] else []
  }

  ghost predicate Conserved(capacity: nat, open: bool, done: seq<Sent>, queue: seq<Sent>, lost: seq<Sent>,
      sent: seq<Sent>) {
    && done + queue + lost == sent
    && (open ==> lost == []) && (!open ==> queue == [])
    && |queue| <= capacity
  }

  /** What has left the channel: handled events and the one in hand. */
  function Taken(w: World): seq<Sent> {
    w.completed + InHand(w.handling)
  }

  ghost predicate BatchLawful(c: Bounds, sent: seq<Sent>, p: nat, b: Batch) {
    && b.next <= |b.messages|
    && From(sent, p) == Gated(c.gate, b.channel, b.messages[..b.next])
    && (b.status == Some(Ok200) ==> b.next == |b.messages|)
    && (b.status.Some? && b.status != Some(Ok200) ==> b.next < |b.messages| && Forwardable(c.gate, b.messages[b.next]))
  }

  ghost predicate BatchesLawful(c: Bounds, sent: seq<Sent>, batches: map<nat, Batch>) {
    && (forall p :: p in batches ==> BatchLawful(c, sent, p, batches[p]))
    && (forall i :: 0 <= i < |sent| ==> sent[i].batch in batches)
  }

  ghost predicate Notified(open: bool, output: seq<Notification>, lastSender: Option<Context>, completed: seq<Sent>) {
    && |output| == |completed|
    && (open ==> lastSender == LastContext(completed))
  }

  function LastContext(completed: seq<Sent>): Option<Context> {
    if completed == [] then None else Some(ContextOf(completed[|completed| - 1].event))
  }

  /** The ids ruled on in a history, in order. */
  function AcceptedIds(log: seq<Entry>): seq<string> {
    if log == [] then []
    else AcceptedIds(log[..|log| - 1]) + if log[|log| - 1].Accepted? then [log[|log| - 1].id] else []
  }

  /** The ids ruled on in the output, in order. */
  function RuledIds(output: seq<Notification>): seq<string> {
    if output == [] then []
    else RuledIds(output[..|output| - 1])
         + if output[|output| - 1].Ruled? then [output[|output| - 1].verdict.requestId] else []
  }

  /**
   Every accepted verdict has reached stdout, once and in order; only the one whose own write
   failed, which ended the loop, has not.
   */
  ghost predicate Reported(open: bool, output: seq<Notification>, log: seq<Entry>) {
    RuledIds(output) == AcceptedIds(log) || (!open && exists id :: AcceptedIds(log) == RuledIds(output) + [id])
  }

  /** The latest prompt for `id` among those sent when at most `n` events were completed. */
  function LatestPrompt(prompts: seq<Prompt>, id: string, n: nat): Option<Prompt> {
    if prompts == [] then None
    else
      var last := prompts[|prompts| - 1];
      if last.id == id && last.after <= n then Some(last) else LatestPrompt(prompts[..|prompts| - 1], id, n)
  }

  predicate RulesOn(n: Notification, id: string) {
    n.Ruled? && n.verdict.requestId == id
  }

  /** After `n` events `id` was last prompted for on `route`, and nothing has ruled on it since. */
  ghost predicate Outstanding(output: seq<Notification>, prompts: seq<Prompt>, id: string, route: Route, n: nat)
    requires n <= |output|
  {
    var p := LatestPrompt(prompts, id, n);
    p.Some? && p.value.route == route && forall j: nat :: p.value.after <= j < n ==> !RulesOn(output[j], id)
  }

  /** What event `n` should be announced as: a ruling if it answers an outstanding prompt in its chat, else itself. */
  ghost function NoticeDue(output: seq<Notification>, prompts: seq<Prompt>, e: ChannelEvent, n: nat): Notification
    requires n <= |output|
  {
    match ParseVerdict(e.content)
    case Some(v) => if Outstanding(output, prompts, v.requestId, RouteOf(e), n) then Ruled(v) else Said(e)
    case None => Said(e)
  }

  /** Every completed event was announced as it should be. */
  ghost predicate NoticesDue(output: seq<Notification>, completed: seq<Sent>, prompts: seq<Prompt>) {
    forall i: nat :: i < |output| && i < |completed| ==> output[i] == NoticeDue(output, prompts, completed[i].event, i)
  }

  /** What is pending is what is outstanding. */
  ghost predicate PendingOutstanding(pending: map<string, Route>, output: seq<Notification>, prompts: seq<Prompt>) {
    forall id, route :: Pends(pending, id, route) <==> Outstanding(output, prompts, id, route, |output|)
  }

  /** Every prompt went to the chat of the event completed last before it. */
  ghost predicate PromptsRouted(prompts: seq<Prompt>, completed: seq<Sent>) {
    forall i :: 0 <= i < |prompts| ==>
      && 0 < prompts[i].after <= |completed|
      && prompts[i].route == RouteOf(completed[prompts[i].after - 1].event)
  }

  /** What the loop keeps, by itself. */
  ghost predicate LoopLawful(open: bool, mcp: Mcp, completed: seq<Sent>, prompts: seq<Prompt>) {
    && Notified(open, mcp.output, mcp.lastSender, completed)
    && PromptsRouted(prompts, completed)
    && Reported(open, mcp.output, mcp.relay.log)
    && NoticesDue(mcp.output, completed, prompts)
    && (open ==> PendingOutstanding(mcp.relay.pending, mcp.output, prompts))
    && Permission.Lawful(mcp.relay)
  }

  ghost predicate WorldLawful(c: Bounds, w: World) {
    && Conserved(c.capacity, w.open, Taken(w), w.queue, w.lost, w.sent)
    && (w.handling.Some? ==> w.open)
    && BatchesLawful(c, w.sent, w.batches)
    && LoopLawful(w.open, w.mcp, w.completed, w.prompts)
  }

  lemma FromAppend(sent: seq<Sent>, s: Sent, p: nat)
    ensures From(sent + [s], p) == From(sent, p) + if s.batch == p then [s.event] else []
  {
    assert (sent + [s])[..|sent|] == sent;
  }

  lemma {:induction false} FromNone(sent: seq<Sent>, p: nat)
    requires forall i :: 0 <= i < |sent| ==> sent[i].batch != p
    ensures From(sent, p) == []
  {
    if sent != [] { FromNone(sent[..|sent| - 1], p); }
  }

  lemma BeginKeeps(c: Bounds, w: World, p: nat, channel: ChannelType, messages: seq<Message>)
    requires WorldLawful(c, w) && p !in w.batches
    ensures WorldLawful(c, w.(batches := w.batches[p := Batch(channel, messages, 0, None)]))
  {
    FromNone(w.sent, p);
    hide LoopLawful, Conserved;
    assert messages[..0] == [];
  }

  /** A batch moved on without sending, or sent the event of its next message. */
  lemma BatchMoves(c: Bounds, sent: seq<Sent>, p: nat, b: Batch)
    requires BatchLawful(c, sent, p, b) && b.status.None? && b.next < |b.messages|
    ensures !Forwardable(c.gate, b.messages[b.next]) ==> BatchLawful(c, sent, p, b.(next := b.next + 1))
    ensures Forwardable(c.gate, b.messages[b.next]) ==>
              && BatchLawful(c, sent + [Sent(p, EventOf(b.channel, b.messages[b.next]))], p, b.(next := b.next + 1))
              && BatchLawful(c, sent, p, b.(status := Some(Internal500)))
              && BatchLawful(c, sent, p, b.(status := Some(Unavailable503)))
  {
    GatedStep(c.gate, b.channel, b.messages, b.next);
    FromAppend(sent, Sent(p, EventOf(b.channel, b.messages[b.next])), p);
    hide Gated, From, Forwardable, EventOf;
  }

  lemma OthersStay(c: Bounds, sent: seq<Sent>, s: Sent, q: nat, b: Batch)
    requires BatchLawful(c, sent, q, b) && s.batch != q
    ensures BatchLawful(c, sent + [s], q, b)
  {
    FromAppend(sent, s, q);
    hide Gated, From, Forwardable, EventOf;
  }

  lemma BatchUpdated(c: Bounds, sent: seq<Sent>, batches: map<nat, Batch>, p: nat, b: Batch)
    requires BatchesLawful(c, sent, batches) && BatchLawful(c, sent, p, b)
    ensures BatchesLawful(c, sent, batches[p := b])
  {
    hide BatchLawful;
  }

  lemma BatchSent(c: Bounds, sent: seq<Sent>, batches: map<nat, Batch>, s: Sent, b: Batch)
    requires BatchesLawful(c, sent, batches) && s.batch in batches && BatchLawful(c, sent + [s], s.batch, b)
    ensures BatchesLawful(c, sent + [s], batches[s.batch := b])
  {
    hide BatchLawful;
    var sent', batches' := sent + [s], batches[s.batch := b];
    forall q | q in batches' ensures BatchLawful(c, sent', q, batches'[q]) {
      if q != s.batch { OthersStay(c, sent, s, q, batches[q]); }
    }
    forall i | 0 <= i < |sent'| ensures sent'[i].batch in batches' {
      if i < |sent| { assert sent'[i] == sent[i]; }
    }
  }

  lemma ConservedSend(capacity: nat, done: seq<Sent>, queue: seq<Sent>, sent: seq<Sent>, s: Sent)
    requires Conserved(capacity, true, done, queue, [], sent) && |queue| < capacity
    ensures Conserved(capacity, true, done, queue + [s], [], sent + [s])
  {
    assert done + (queue + [s]) + [] == done + queue + [] + [s];
  }

  lemma AdvanceKeeps(c: Bounds, w: World, p: nat)
    requires WorldLawful(c, w) && p in w.batches && w.batches[p].status.None?
    ensures WorldLawful(c, AdvanceBatch(c, w, p, w.batches[p]))
  {
    var b := w.batches[p];
    assert BatchLawful(c, w.sent, p, b);
    assert w.open ==> w.lost == [];
    if b.next >= |b.messages| {
      BatchUpdated(c, w.sent, w.batches, p, b.(status := Some(Ok200)));
    } else {
      BatchMoves(c, w.sent, p, b);
      hide BatchLawful, BatchesLawful, Conserved, LoopLawful, Forwardable, EventOf;
      var s := Sent(p, EventOf(b.channel, b.messages[b.next]));
      if !Forwardable(c.gate, b.messages[b.next]) {
        BatchUpdated(c, w.sent, w.batches, p, b.(next := b.next + 1));
      } else if !w.open {
        BatchUpdated(c, w.sent, w.batches, p, b.(status := Some(Internal500)));
      } else if |w.queue| >= c.capacity {
        BatchUpdated(c, w.sent, w.batches, p, b.(status := Some(Unavailable503)));
      } else {
        BatchSent(c, w.sent, w.batches, s, b.(next := b.next + 1));
        ConservedSend(c.capacity, Taken(w), w.queue, w.sent, s);
      }
    }
  }

  lemma ConsumeReports(r: Relay, text: string, from: Route)
    ensures var (next, v) := Consume(r, text, from);
            AcceptedIds(next.log) == AcceptedIds(r.log) + if v.Some? then [v.value.requestId] else []
  {
    var (next, v) := Consume(r, text, from);
    if v.Some? {
      assert next.log[..|r.log|] == r.log;
    }
  }

  lemma RuledAppend(output: seq<Notification>, n: Notification)
    ensures RuledIds(output + [n]) == RuledIds(output) + if n.Ruled? then [n.verdict.requestId] else []
  {
    assert (output + [n])[..|output|] == output;
  }

  // ---- the loop's own part -----------------------------------------------------------------

  /** What a completed event writes: its verdict, or itself. */
  function Notice(m: Mcp, e: ChannelEvent): Notification {
    var verdict := Consume(m.relay, e.content, RouteOf(e)).1;
    if verdict.Some? then Ruled(verdict.value) else Said(e)
  }

  lemma EventNotifies(m: Mcp, e: ChannelEvent)
    ensures OnEvent(m, e, true) ==
            Mcp(Some(ContextOf(e)), Consume(m.relay, e.content, RouteOf(e)).0, m.output + [Notice(m, e)])
    ensures var failed := OnEvent(m, e, false);
            failed.relay == Consume(m.relay, e.content, RouteOf(e)).0 && failed.output == m.output
  {
    hide ParseVerdict;
  }

  lemma NotifiedGrows(output: seq<Notification>, completed: seq<Sent>, last: Option<Context>, n: Notification, e: Sent)
    requires Notified(true, output, last, completed)
    ensures Notified(true, output + [n], Some(ContextOf(e.event)), completed + [e])
  {
  }

  lemma NotifiedClosed(output: seq<Notification>, completed: seq<Sent>, last: Option<Context>, other: Option<Context>)
    requires Notified(true, output, last, completed)
    ensures Notified(false, output, other, completed)
  {
  }

  lemma EventReports(m: Mcp, e: ChannelEvent)
    requires Reported(true, m.output, m.relay.log)
    ensures var relay := Consume(m.relay, e.content, RouteOf(e)).0;
            Reported(true, m.output + [Notice(m, e)], relay.log) && Reported(false, m.output, relay.log)
  {
    ConsumeReports(m.relay, e.content, RouteOf(e));
    RuledAppend(m.output, Notice(m, e));
    hide RuledIds, AcceptedIds, ParseVerdict;
    assert RuledIds(m.output) + [] == RuledIds(m.output);
  }

  lemma PromptsStay(prompts: seq<Prompt>, completed: seq<Sent>, e: Sent)
    requires PromptsRouted(prompts, completed)
    ensures PromptsRouted(prompts, completed + [e])
  {
  }

  lemma LatestAppend(prompts: seq<Prompt>, p: Prompt, id: string, n: nat)
    ensures LatestPrompt(prompts + [p], id, n) ==
            if p.id == id && p.after <= n then Some(p) else LatestPrompt(prompts, id, n)
  {
    assert (prompts + [p])[..|prompts|] == prompts;
  }

  lemma {:induction false} LatestLater(prompts: seq<Prompt>, id: string, m: nat, n: nat)
    requires m <= n && forall i :: 0 <= i < |prompts| ==> prompts[i].after <= m
    ensures LatestPrompt(prompts, id, m) == LatestPrompt(prompts, id, n)
  {
    if prompts != [] { LatestLater(prompts[..|prompts| - 1], id, m, n); }
  }

  lemma {:induction false} LatestIsEarly(prompts: seq<Prompt>, id: string, n: nat)
    ensures LatestPrompt(prompts, id, n).Some? ==> LatestPrompt(prompts, id, n).value.after <= n
  {
    if prompts != [] { LatestIsEarly(prompts[..|prompts| - 1], id, n); }
  }

  /** One event more rules on at most one prompt. */
  lemma OutstandingLater(output: seq<Notification>, x: Notification, prompts: seq<Prompt>, id: string, route: Route)
    requires forall i :: 0 <= i < |prompts| ==> prompts[i].after <= |output|
    ensures Outstanding(output + [x], prompts, id, route, |output| + 1) <==>
            Outstanding(output, prompts, id, route, |output|) && !RulesOn(x, id)
  {
    var n := |output|;
    LatestLater(prompts, id, n, n + 1);
    LatestIsEarly(prompts, id, n);
    hide LatestPrompt, RulesOn;
    assert (output + [x])[n] == x;
    assert forall j: nat :: j < n ==> (output + [x])[j] == output[j];
  }

  lemma OutstandingBefore(output: seq<Notification>, x: Notification, prompts: seq<Prompt>, id: string, route: Route,
      n: nat)
    requires n <= |output|
    ensures Outstanding(output + [x], prompts, id, route, n) <==> Outstanding(output, prompts, id, route, n)
  {
    hide LatestPrompt, RulesOn;
    assert forall j: nat :: j < n ==> (output + [x])[j] == output[j];
  }

  /** A prompt sent now is outstanding on its own route; before it, and for other ids, all is as it was. */
  lemma OutstandingPrompted(output: seq<Notification>, prompts: seq<Prompt>, p: Prompt, id: string, route: Route,
      n: nat)
    requires n <= |output| && p.after == |output|
    ensures Outstanding(output, prompts + [p], id, route, n) <==>
            if n == |output| && id == p.id then route == p.route else Outstanding(output, prompts, id, route, n)
  {
    LatestAppend(prompts, p, id, n);
    hide LatestPrompt, RulesOn;
  }

  lemma NoticeBefore(output: seq<Notification>, x: Notification, prompts: seq<Prompt>, e: ChannelEvent, n: nat)
    requires n <= |output|
    ensures NoticeDue(output + [x], prompts, e, n) == NoticeDue(output, prompts, e, n)
  {
    var v := ParseVerdict(e.content);
    hide ParseVerdict, Outstanding, RouteOf;
    if v.Some? { OutstandingBefore(output, x, prompts, v.value.requestId, RouteOf(e), n); }
  }

  lemma NoticePrompted(output: seq<Notification>, prompts: seq<Prompt>, p: Prompt, e: ChannelEvent, n: nat)
    requires n < |output| && p.after == |output|
    ensures NoticeDue(output, prompts + [p], e, n) == NoticeDue(output, prompts, e, n)
  {
    var v := ParseVerdict(e.content);
    hide ParseVerdict, Outstanding, RouteOf;
    if v.Some? { OutstandingPrompted(output, prompts, p, v.value.requestId, RouteOf(e), n); }
  }

  /** What the loop writes for an event is what it should. */
  lemma NoticeIsDue(m: Mcp, e: ChannelEvent, prompts: seq<Prompt>)
    requires PendingOutstanding(m.relay.pending, m.output, prompts)
    ensures Notice(m, e) == NoticeDue(m.output, prompts, e, |m.output|)
  {
    var v := ParseVerdict(e.content);
    hide ParseVerdict, Outstanding, RouteOf;
    if v.Some? {
      assert Pends(m.relay.pending, v.value.requestId, RouteOf(e)) <==>
             Outstanding(m.output, prompts, v.value.requestId, RouteOf(e), |m.output|);
    }
  }

  lemma NoticesGrow(output: seq<Notification>, completed: seq<Sent>, prompts: seq<Prompt>, n: Notification, e: Sent)
    requires NoticesDue(output, completed, prompts) && |output| == |completed|
    requires n == NoticeDue(output, prompts, e.event, |output|)
    ensures NoticesDue(output + [n], completed + [e], prompts)
  {
    hide NoticeDue;
    var output', completed' := output + [n], completed + [e];
    forall i: nat | i < |output'| ensures output'[i] == NoticeDue(output', prompts, completed'[i].event, i) {
      NoticeBefore(output, n, prompts, completed'[i].event, i);
      if i < |output| { assert output'[i] == output[i] && completed'[i] == completed[i]; }
    }
  }

  lemma ConsumeTakes(m: Mcp, e: ChannelEvent, id: string, route: Route)
    ensures Pends(Consume(m.relay, e.content, RouteOf(e)).0.pending, id, route) <==>
            Pends(m.relay.pending, id, route) && !RulesOn(Notice(m, e), id)
  {
    hide ParseVerdict, RouteOf;
  }

  lemma PendingAfterEvent(m: Mcp, e: ChannelEvent, prompts: seq<Prompt>)
    requires PendingOutstanding(m.relay.pending, m.output, prompts)
    requires forall i :: 0 <= i < |prompts| ==> prompts[i].after <= |m.output|
    ensures PendingOutstanding(Consume(m.relay, e.content, RouteOf(e)).0.pending, m.output + [Notice(m, e)], prompts)
  {
    hide Consume, Outstanding, Notice, RouteOf, Pends, RulesOn;
    var pending, output := Consume(m.relay, e.content, RouteOf(e)).0.pending, m.output + [Notice(m, e)];
    forall id, route ensures Pends(pending, id, route) <==> Outstanding(output, prompts, id, route, |output|) {
      ConsumeTakes(m, e, id, route);
      OutstandingLater(m.output, Notice(m, e), prompts, id, route);
    }
  }

  lemma EventKeeps(m: Mcp, completed: seq<Sent>, prompts: seq<Prompt>, e: Sent)
    requires LoopLawful(true, m, completed, prompts)
    ensures LoopLawful(true, OnEvent(m, e.event, true), completed + [e], prompts)
    ensures LoopLawful(false, OnEvent(m, e.event, false), completed, prompts)
  {
    EventNotifies(m, e.event);
    var n, ok, failed := Notice(m, e.event), OnEvent(m, e.event, true), OnEvent(m, e.event, false);
    NotifiedGrows(m.output, completed, m.lastSender, n, e);
    NotifiedClosed(m.output, completed, m.lastSender, failed.lastSender);
    EventReports(m, e.event);
    PromptsStay(prompts, completed, e);
    NoticeIsDue(m, e.event, prompts);
    NoticesGrow(m.output, completed, prompts, n, e);
    PendingAfterEvent(m, e.event, prompts);
    ConsumeIsLawful(m.relay, e.event.content, RouteOf(e.event));
    hide Notified, PromptsRouted, Reported, NoticesDue, PendingOutstanding, Permission.Lawful, OnEvent, Consume, Notice;
  }

  lemma RequestReportsNothing(r: Relay, id: string, route: Route)
    ensures AcceptedIds(Request(r, id, route).log) == AcceptedIds(r.log)
  {
    var next := Request(r, id, route);
    if next != r { assert next.log[..|r.log|] == r.log; }
  }

  /** A prompt for the last sender goes to the chat of the event completed last, and to nothing before it. */
  lemma PromptAdded(m: Mcp, completed: seq<Sent>, prompts: seq<Prompt>, id: string, p: Prompt)
    requires LoopLawful(true, m, completed, prompts) && m.lastSender.Some?
    requires p == Prompt(id, Route(m.lastSender.value.channelType, m.lastSender.value.chatId), |completed|)
    ensures PromptsRouted(prompts + [p], completed)
    ensures NoticesDue(m.output, completed, prompts + [p])
    ensures PendingOutstanding(m.relay.pending[id := p.route], m.output, prompts + [p])
  {
    hide Outstanding, NoticeDue, Reported, Permission.Lawful;
    var n, pending := |completed|, m.relay.pending[id := p.route];
    forall i: nat | i < n ensures m.output[i] == NoticeDue(m.output, prompts + [p], completed[i].event, i) {
      NoticePrompted(m.output, prompts, p, completed[i].event, i);
    }
    forall other, route
      ensures Pends(pending, other, route) <==> Outstanding(m.output, prompts + [p], other, route, n)
    {
      OutstandingPrompted(m.output, prompts, p, other, route, n);
      assert Pends(m.relay.pending, other, route) <==> Outstanding(m.output, prompts, other, route, n);
    }
  }

  lemma PromptedKeeps(c: Bounds, w: World, id: string)
    requires WorldLawful(c, w) && w.open
    ensures WorldLawful(c, Prompted(w, id))
  {
    if w.mcp.lastSender.Some? {
      var ctx := w.mcp.lastSender.value;
      var route := Route(ctx.channelType, ctx.chatId);
      var next := OnPermissionRequest(w.mcp, id);
      RequestIsLawful(w.mcp.relay, id, route);
      RequestReportsNothing(w.mcp.relay, id, route);
      PromptAdded(w.mcp, w.completed, w.prompts, id, Prompt(id, route, |w.completed|));
      assert next != w.mcp ==> next.relay.pending == w.mcp.relay.pending[id := route];
    }
    hide BatchesLawful, Conserved, Notified, PromptsRouted, NoticesDue, PendingOutstanding, Permission.Lawful, Request,
      RuledIds, AcceptedIds;
  }

  // ---- the channel's part ------------------------------------------------------------------

  lemma Conserves(capacity: nat, done: seq<Sent>, queue: seq<Sent>, sent: seq<Sent>)
    requires Conserved(capacity, true, done, queue, [], sent)
    ensures queue != [] ==> Conserved(capacity, true, done + [queue[0]], queue[1..], [], sent)
    ensures Conserved(capacity, false, done, [], queue, sent)
  {
    if queue != [] {
      assert done + [queue[0]] + queue[1..] + [] == done + queue + [];
    }
    assert done + [] + queue == done + queue + [];
  }

  lemma TakeKeeps(c: Bounds, w: World)
    requires WorldLawful(c, w) && w.open && w.handling.None? && w.queue != []
    ensures WorldLawful(c, TakeNext(w))
  {
    assert w.lost == [] && w.completed + [] == w.completed;
    Conserves(c.capacity, w.completed, w.queue, w.sent);
    hide BatchesLawful, Conserved, LoopLawful;
  }

  lemma FinishKeeps(c: Bounds, w: World, writeOk: bool)
    requires WorldLawful(c, w) && w.handling.Some?
    ensures WorldLawful(c, FinishEvent(w, writeOk))
  {
    var e := w.handling.value;
    assert w.lost == [];
    EventKeeps(w.mcp, w.completed, w.prompts, e);
    FinishConserves(c.capacity, w.completed, e, w.queue, w.sent);
    hide BatchesLawful, LoopLawful, OnEvent, Conserved;
  }

  lemma FinishConserves(capacity: nat, completed: seq<Sent>, e: Sent, queue: seq<Sent>, sent: seq<Sent>)
    requires Conserved(capacity, true, completed + [e], queue, [], sent)
    ensures Conserved(capacity, true, completed + [e] + [], queue, [], sent)
    ensures Conserved(capacity, false, completed + [], [], [e] + queue, sent)
  {
    assert completed + [e] + [] == completed + [e];
    assert completed + [] + [] + ([e] + queue) == completed + [e] + queue + [];
  }

  lemma CloseKeeps(c: Bounds, w: World)
    requires WorldLawful(c, w) && w.open && w.handling.None?
    ensures WorldLawful(c, w.(open := false, queue := [], lost := w.queue))
  {
    assert w.lost == [];
    Conserves(c.capacity, Taken(w), w.queue, w.sent);
    NotifiedClosed(w.mcp.output, w.completed, w.mcp.lastSender, w.mcp.lastSender);
    hide BatchesLawful, Conserved, Notified, PromptsRouted, NoticesDue, PendingOutstanding, Permission.Lawful;
  }

  lemma NextKeeps(c: Bounds, w: World, a: Action)
    requires WorldLawful(c, w)
    ensures WorldLawful(c, Next(c, w, a))
  {
    hide WorldLawful, AdvanceBatch, TakeNext, FinishEvent, Prompted;
    match a {
      case Begin(p, channel, messages) => if p !in w.batches { BeginKeeps(c, w, p, channel, messages); }
      case Advance(p) => if p in w.batches && w.batches[p].status.None? { AdvanceKeeps(c, w, p); }
      case Take => if w.open && w.handling.None? && w.queue != [] { TakeKeeps(c, w); }
      case Finish(writeOk) => if w.open && w.handling.Some? { FinishKeeps(c, w, writeOk); }
      case AskPermission(id) => if w.open && w.handling.None? { PromptedKeeps(c, w, id); }
      case CloseStdin => if w.open && w.handling.None? { CloseKeeps(c, w); }
    }
  }

  lemma {:induction false} EveryRunIsLawful(c: Bounds, actions: seq<Action>)
    ensures WorldLawful(c, RunAll(c, actions))
  {
    if actions == [] {
      PlayIsLawful([]);
    } else {
      EveryRunIsLawful(c, actions[..|actions| - 1]);
      hide WorldLawful, Next;
      NextKeeps(c, RunAll(c, actions[..|actions| - 1]), actions[|actions| - 1]);
    }
  }

  // ---- the laws of every interleaving ------------------------------------------------------

  /** First in, first out, and nothing lost while the loop runs. */
  lemma FifoConservation(c: Bounds, actions: seq<Action>)
    ensures var w := RunAll(c, actions);
            && w.completed + InHand(w.handling) + w.queue + w.lost == w.sent
            && (w.open ==> w.completed + InHand(w.handling) + w.queue == w.sent)
            && |w.queue| <= c.capacity
  {
    EveryRunIsLawful(c, actions);
    var w := RunAll(c, actions);
    assert Taken(w) + w.queue + [] == Taken(w) + w.queue;
  }

  lemma {:induction false} GatedMembers(gate: Gate, channel: ChannelType, messages: seq<Message>, e: ChannelEvent)
    requires e in Gated(gate, channel, messages)
    ensures exists m :: m in messages && Forwardable(gate, m) && e == EventOf(channel, m)
  {
    var n := |messages| - 1;
    if e in Gated(gate, channel, messages[..n]) {
      GatedMembers(gate, channel, messages[..n], e);
    } else {
      assert messages[n] in messages;
    }
  }

  lemma {:induction false} FromMembers(sent: seq<Sent>, i: nat)
    requires i < |sent|
    ensures sent[i].event in From(sent, sent[i].batch)
  {
    if i < |sent| - 1 { FromMembers(sent[..|sent| - 1], i); }
  }

  /** `e` is what `m` says, with where to answer it: its conversation, or else its sender. */
  predicate Carries(e: ChannelEvent, channel: ChannelType, m: Message) {
    && e.content == m.content && e.turnId == m.turnId
    && ParseChannel(e.channelType) == Some(channel)
    && (if m.conversationId.Some? then Some(e.chatId) == m.conversationId else e.chatId == m.senderId)
    && (m.senderName.Some? ==> Some(e.sender) == m.senderName)
  }

  lemma ChannelNamesParse(channel: ChannelType)
    ensures ParseChannel(Display(channel)) == Some(channel)
  {
    assert Lower(Display(channel)) == Display(channel);
  }

  /** Every event that ever entered the channel carries a message of an allowed sender with a name. */
  lemma OnlyGatedMessagesEnter(c: Bounds, actions: seq<Action>, i: nat)
    requires i < |RunAll(c, actions).sent|
    ensures var w := RunAll(c, actions);
            var s := w.sent[i];
            && s.batch in w.batches
            && exists m :: m in w.batches[s.batch].messages && Forwardable(c.gate, m)
                           && Carries(s.event, w.batches[s.batch].channel, m)
  {
    EveryRunIsLawful(c, actions);
    var w := RunAll(c, actions);
    var s := w.sent[i];
    var b := w.batches[s.batch];
    assert BatchLawful(c, w.sent, s.batch, b);
    FromMembers(w.sent, i);
    GatedMembers(c.gate, b.channel, b.messages[..b.next], s.event);
    var m :| m in b.messages[..b.next] && Forwardable(c.gate, m) && s.event == EventOf(b.channel, m);
    ChannelNamesParse(b.channel);
    hide ParseChannel, Display, RunAll, Forwardable;
    assert Carries(s.event, b.channel, m);
  }

  /**
   Whatever runs beside it, a webhook call enqueues a prefix of its gated messages, and the
   answer tells: 200 means all of them, 503 and 500 mean some are missing.
   */
  lemma AnswerTellsWhatWasEnqueued(c: Bounds, actions: seq<Action>, p: nat)
    requires p in RunAll(c, actions).batches
    ensures var w := RunAll(c, actions);
            var b := w.batches[p];
            var wanted := Gated(c.gate, b.channel, b.messages);
            && From(w.sent, p) <= wanted
            && (b.status.Some? ==> (b.status == Some(Ok200) <==> From(w.sent, p) == wanted))
  {
    EveryRunIsLawful(c, actions);
    var w := RunAll(c, actions);
    assert BatchLawful(c, w.sent, p, w.batches[p]);
    hide *;
    BatchTells(c, w.sent, p, w.batches[p]);
  }

  lemma BatchTells(c: Bounds, sent: seq<Sent>, p: nat, b: Batch)
    requires BatchLawful(c, sent, p, b)
    ensures var wanted := Gated(c.gate, b.channel, b.messages);
            && From(sent, p) <= wanted
            && (b.status.Some? ==> (b.status == Some(Ok200) <==> From(sent, p) == wanted))
  {
    hide Gated, From, Forwardable, EventOf;
    GatedGrows(c.gate, b.channel, b.messages, b.next);
    if b.next < |b.messages| {
      GatedStep(c.gate, b.channel, b.messages, b.next);
      GatedGrows(c.gate, b.channel, b.messages, b.next + 1);
    } else {
      assert b.messages[..b.next] == b.messages;
    }
  }

  /**
   Every fully handled event emits one notification: a ruling exactly when it answers, from the
   chat it was last prompted in, a request nothing has ruled on since, and else the event itself.
   Prompts go where the event completed last came from.
   */
  lemma EventsAreAnsweredAndRouted(c: Bounds, actions: seq<Action>)
    ensures var w := RunAll(c, actions);
            var output, ruled, accepted := w.mcp.output, RuledIds(w.mcp.output), AcceptedIds(w.mcp.relay.log);
            && |output| == |w.completed|
            && (forall i: nat :: i < |w.completed| ==>
                  output[i] == NoticeDue(output, w.prompts, w.completed[i].event, i))
            && (w.open ==> ruled == accepted)
            && (ruled == accepted || exists id :: accepted == ruled + [id])
            && (forall i :: 0 <= i < |w.prompts| ==>
                  && 0 < w.prompts[i].after <= |w.completed|
                  && w.prompts[i].route == RouteOf(w.completed[w.prompts[i].after - 1].event))
  {
    EveryRunIsLawful(c, actions);
    hide RunAll, NoticeDue, RuledIds, AcceptedIds, RouteOf, Permission.Lawful;
  }

  /** While the loop runs, what is pending is what is outstanding. */
  lemma PendingIsOutstanding(c: Bounds, actions: seq<Action>, id: string, route: Route)
    requires RunAll(c, actions).open
    ensures var w := RunAll(c, actions);
            Pends(w.mcp.relay.pending, id, route) <==>
            Outstanding(w.mcp.output, w.prompts, id, route, |w.mcp.output|)
  {
    EveryRunIsLawful(c, actions);
    hide RunAll, Outstanding, Permission.Lawful;
  }

  /** And in every run the pending permissions are what the history says. */
  lemma BridgePendingIsHistory(c: Bounds, actions: seq<Action>)
    ensures Permission.Lawful(RunAll(c, actions).mcp.relay)
  {
    EveryRunIsLawful(c, actions);
  }

  // ---- a call by itself, and one that outlives the loop ---------------------------------------

  /** One webhook call advanced until it answers, nothing else moving. */
  function Alone(c: Bounds, w: World, p: nat): World
    requires p in w.batches && w.batches[p].next <= |w.batches[p].messages|
    decreases |w.batches[p].messages| - w.batches[p].next, if w.batches[p].status.None? then 1 else 0
  {
    if w.batches[p].status.Some? then w else Alone(c, AdvanceBatch(c, w, p, w.batches[p]), p)
  }

  function Tagged(p: nat, events: seq<ChannelEvent>): (r: seq<Sent>)
    ensures |r| == |events| && forall i :: 0 <= i < |r| ==> r[i] == Sent(p, events[i])
  {
    seq(|events|, i requires 0 <= i < |events| => Sent(p, events[i]))
  }

  /** Between `w` and `end` call `p` did nothing but enqueue `events` and answer `status`. */
  predicate Did(w: World, end: World, p: nat, status: Status, events: seq<ChannelEvent>) {
    && p in end.batches && end.batches[p].status == Some(status)
    && end == w.(queue := w.queue + Tagged(p, events), sent := w.sent + Tagged(p, events),
                 batches := w.batches[p := end.batches[p]])
  }

  lemma DidNothing(w: World, p: nat, b: Batch, status: Status)
    requires b.status == Some(status)
    ensures Did(w, w.(batches := w.batches[p := b]), p, status, [])
  {
    assert Tagged(p, []) == [] && w.queue + [] == w.queue && w.sent + [] == w.sent;
  }

  lemma DidLater(w: World, b: Batch, end: World, p: nat, status: Status, events: seq<ChannelEvent>)
    requires Did(w.(batches := w.batches[p := b]), end, p, status, events)
    ensures Did(w, end, p, status, events)
  {
    hide Tagged;
    assert w.batches[p := b][p := end.batches[p]] == w.batches[p := end.batches[p]];
  }

  lemma DidMore(w: World, e: ChannelEvent, end: World, p: nat, status: Status, events: seq<ChannelEvent>)
    requires Did(w.(queue := w.queue + [Sent(p, e)], sent := w.sent + [Sent(p, e)]), end, p, status, events)
    ensures Did(w, end, p, status, [e] + events)
  {
    TaggedCons(p, e, events);
    hide Tagged;
    Appended(w.queue, Sent(p, e), Tagged(p, events));
    Appended(w.sent, Sent(p, e), Tagged(p, events));
  }

  /** The steps of a call nothing disturbs are the forwarding loop: the same events and the same answer. */
  lemma {:induction false} AloneIsForwarding(c: Bounds, w: World, p: nat)
    requires p in w.batches && w.batches[p].next <= |w.batches[p].messages| && w.batches[p].status.None?
    ensures var b := w.batches[p];
            var (status, events) := Forwarding(c.gate, b.channel, b.messages[b.next..], w.open, c.capacity - |w.queue|);
            Did(w, Alone(c, w, p), p, status, events)
    decreases |w.batches[p].messages| - w.batches[p].next
  {
    hide Forwardable, EventOf, Forwarding, Did;
    var b := w.batches[p];
    var room := c.capacity - |w.queue|;
    ForwardingAt(c.gate, b.channel, b.messages, b.next, w.open, room);
    var next := AdvanceBatch(c, w, p, b);
    if next.batches[p].status.Some? {
      DidNothing(w, p, next.batches[p], next.batches[p].status.value);
    } else {
      AloneIsForwarding(c, next, p);
      var end := Alone(c, next, p);
      if !Forwardable(c.gate, b.messages[b.next]) {
        var (status, events) := Forwarding(c.gate, b.channel, b.messages[b.next + 1..], w.open, room);
        DidLater(w, next.batches[p], end, p, status, events);
      } else {
        var (status, events) := Forwarding(c.gate, b.channel, b.messages[b.next + 1..], w.open, room - 1);
        var e := EventOf(b.channel, b.messages[b.next]);
        var placed := w.(queue := w.queue + [Sent(p, e)], sent := w.sent + [Sent(p, e)]);
        DidLater(placed, next.batches[p], end, p, status, events);
        DidMore(w, e, end, p, status, events);
      }
    }
  }

  lemma TaggedCons(p: nat, e: ChannelEvent, events: seq<ChannelEvent>)
    ensures Tagged(p, [e] + events) == [Sent(p, e)] + Tagged(p, events)
  {
  }

  lemma RunSnoc(c: Bounds, actions: seq<Action>, a: Action)
    ensures RunAll(c, actions + [a]) == Next(c, RunAll(c, actions), a)
  {
    assert (actions + [a])[..|actions|] == actions;
    hide Next;
  }

  /**
   An answer of 200 promises no more than a place in the channel, whatever its capacity: while one
   event is in hand another takes a place, its call answers 200, and a failing write loses both.
   */
  lemma AnsweredEventCanDie(c: Bounds, channel: ChannelType, m1: Message, m2: Message)
    returns (actions: seq<Action>)
    requires 1 <= c.capacity && Forwardable(c.gate, m1) && Forwardable(c.gate, m2)
    ensures var w := RunAll(c, actions);
            && 1 in w.batches && w.batches[1] == Batch(channel, [m2], 1, Some(Ok200)) && w.completed == []
            && w.lost == [Sent(0, EventOf(channel, m1)), Sent(1, EventOf(channel, m2))]
  {
    var e1, e2 := EventOf(channel, m1), EventOf(channel, m2);
    hide *;
    Started(c);
    actions := [];
    actions := Began(c, actions, 0, channel, m1);
    Enqueued(c, actions, 0, channel, m1);
    actions := actions + [Advance(0)];
    RunSnoc(c, actions, Take);
    TakeStep(c, RunAll(c, actions));
    actions := actions + [Take];
    actions := Began(c, actions, 1, channel, m2);
    Enqueued(c, actions, 1, channel, m2);
    actions := actions + [Advance(1)];
    RunSnoc(c, actions, Advance(1));
    AnswerStep(c, RunAll(c, actions), 1);
    actions := actions + [Advance(1)];
    RunSnoc(c, actions, Finish(false));
    FailStep(c, RunAll(c, actions));
    actions := actions + [Finish(false)];
  }

  lemma Began(c: Bounds, actions: seq<Action>, p: nat, channel: ChannelType, m: Message) returns (next: seq<Action>)
    requires p !in RunAll(c, actions).batches
    ensures var w := RunAll(c, actions);
            RunAll(c, next) == w.(batches := w.batches[p := Batch(channel, [m], 0, None)])
  {
    next := actions + [Begin(p, channel, [m])];
    RunSnoc(c, actions, Begin(p, channel, [m]));
    hide RunAll;
  }

  lemma Enqueued(c: Bounds, actions: seq<Action>, p: nat, channel: ChannelType, m: Message)
    requires var w := RunAll(c, actions);
             p in w.batches && w.batches[p] == Batch(channel, [m], 0, None) && w.open && |w.queue| < c.capacity
    requires Forwardable(c.gate, m)
    ensures var w, s := RunAll(c, actions), Sent(p, EventOf(channel, m));
            RunAll(c, actions + [Advance(p)]) ==
            w.(queue := w.queue + [s], sent := w.sent + [s], batches := w.batches[p := Batch(channel, [m], 1, None)])
  {
    RunSnoc(c, actions, Advance(p));
    hide RunAll, Forwardable, EventOf;
  }

  lemma TakeStep(c: Bounds, w: World)
    requires w.open && w.handling.None? && w.queue != []
    ensures Next(c, w, Take) == w.(handling := Some(w.queue[0]), queue := w.queue[1..])
  {
  }

  lemma AnswerStep(c: Bounds, w: World, p: nat)
    requires p in w.batches && w.batches[p].status.None? && w.batches[p].next == |w.batches[p].messages|
    ensures Next(c, w, Advance(p)) == w.(batches := w.batches[p := w.batches[p].(status := Some(Ok200))])
  {
  }

  lemma FailStep(c: Bounds, w: World)
    requires w.open && w.handling.Some?
    ensures var end := Next(c, w, Finish(false));
            end.lost == [w.handling.value] + w.queue && end.completed == w.completed && end.batches == w.batches
  {
    hide OnEvent;
  }

  lemma Started(c: Bounds)
    ensures RunAll(c, []) == World([], None, true, map[], Mcp(None, IDLE, []), [], [], [], [])
  {
  }
}
