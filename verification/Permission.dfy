/**
 The permission relay: crates/dravr-canot-claude-channel/src/permission.rs. Case is
 ASCII case; `log` is the history of registrations and accepted verdicts.
 */
module Permission {
  import opened Chars

  // ---- channel names (src/models.rs) ---------------------------------------------

  datatype ChannelType = WhatsAppChannel | MessengerChannel | DiscordChannel | SlackChannel | TelegramChannel

  function Display(c: ChannelType): string {
    match c
    case WhatsAppChannel => "whatsapp"
    case MessengerChannel => "messenger"
    case DiscordChannel => "discord"
    case SlackChannel => "slack"
    case TelegramChannel => "telegram"
  }

  function ParseChannel(s: string): Option<ChannelType> {
    var name := Lower(s);
    if name == "whatsapp" then Some(WhatsAppChannel)
    else if name == "messenger" then Some(MessengerChannel)
    else if name == "discord" then Some(DiscordChannel)
    else if name == "slack" then Some(SlackChannel)
    else if name == "telegram" then Some(TelegramChannel)
    else None
  }

  // ---- verdict texts ----------------------------------------------------------------

  datatype Verdict = Verdict(requestId: string, allow: bool)

  predicate VerdictWord(w: string) {
    w == "y" || w == "yes" || w == "n" || w == "no"
  }

  /** Five letters of the id alphabet: lower case without `l`. */
  predicate RequestId(s: string) {
    |s| == 5 && forall i :: 0 <= i < 5 ==> 'a' <= s[i] <= 'z' && s[i] != 'l'
  }

  function ParseVerdict(text: string): Option<Verdict> {
    var words := SplitWhitespace(text);
    if |words| == 2 && VerdictWord(Lower(words[0])) && RequestId(Lower(words[1]))
    then Some(Verdict(Lower(words[1]), Lower(words[0])[0] == 'y'))
    else None
  }

  /** The pattern `^\s*(y|yes|n|no)\s+([a-km-z]{5})\s*$`, case aside. */
  ghost predicate VerdictPattern(text: string, word: string, id: string) {
    && VerdictWord(Lower(word)) && RequestId(Lower(id))
    && exists s0, s1, s2 :: AllSpace(s0) && AllSpace(s1) && s1 != [] && AllSpace(s2) && text == s0 + word + s1 + id + s2
  }

  lemma NotSpaceLowered(s: string)
    requires forall i :: 0 <= i < |s| ==> 'a' <= Lower(s)[i] <= 'z'
    ensures NoSpace(s)
  {
    forall i | 0 <= i < |s| ensures !IsWhitespace(s[i]) {
      assert Lower(s)[i] == LowerChar(s[i]);
    }
  }

  lemma WordsAreSpaceless(word: string, id: string)
    requires VerdictWord(Lower(word)) && RequestId(Lower(id))
    ensures NoSpace(word) && NoSpace(id) && word != [] && id != []
  {
    assert forall i :: 0 <= i < |word| ==> 'a' <= Lower(word)[i] <= 'z';
    NotSpaceLowered(word);
    NotSpaceLowered(id);
  }

  lemma TwoWords(s0: string, word: string, s1: string, id: string, s2: string)
    requires AllSpace(s0) && AllSpace(s1) && s1 != [] && AllSpace(s2)
    requires NoSpace(word) && NoSpace(id) && word != [] && id != []
    ensures SplitWhitespace(s0 + word + s1 + id + s2) == [word, id]
  {
    var tail := id + s2;
    assert s0 + word + s1 + id + s2 == s0 + (word + (s1 + tail));
    WordsSkipSpace(s0, word + (s1 + tail));
    assert (s1 + tail)[0] == s1[0];
    WordsTakeWord(word, s1 + tail, []);
    WordsSkipSpace(s1, tail);
    WordsTakeWord(id, s2, []);
    assert s2 + [] == s2;
    WordsSkipSpace(s2, []);
    assert [] + word == word && [] + id == id;
  }

  lemma PatternIsVerdict(text: string, word: string, id: string)
    requires VerdictPattern(text, word, id)
    ensures ParseVerdict(text) == Some(Verdict(Lower(id), Lower(word)[0] == 'y'))
  {
    hide AllSpace, VerdictWord, RequestId, SplitWhitespace, Lower;
    var s0, s1, s2 :| AllSpace(s0) && AllSpace(s1) && s1 != [] && AllSpace(s2) && text == s0 + word + s1 + id + s2;
    WordsAreSpaceless(word, id);
    TwoWords(s0, word, s1, id, s2);
  }

  lemma SpaceLeads(s: string, space: string, word: string, rest: string)
    requires s == space + word + rest && s != [] && IsWhitespace(s[0]) && word != [] && NoSpace(word)
    ensures space != []
  {
    assert s[|space|] == word[0];
  }

  lemma TwoWordText(text: string) returns (s0: string, word: string, s1: string, id: string, s2: string)
    requires |SplitWhitespace(text)| == 2
    ensures text == s0 + word + s1 + id + s2 && SplitWhitespace(text) == [word, id]
    ensures AllSpace(s0) && AllSpace(s1) && s1 != [] && AllSpace(s2)
  {
    hide *;
    var more, rest, rest', end;
    s0, word, rest := FirstWord(text);
    s1, id, rest' := FirstWord(rest);
    assert word != [] && id != [];
    s2, more, end := FirstWord(rest');
    assert more == [] && end == [];
    assert rest' == s2;
    SpaceLeads(rest, s1, id, rest');
    Reassociate(s0 + word, s1 + id, s2);
    Reassociate(s0 + word, s1, id);
  }

  lemma VerdictHasPattern(text: string) returns (word: string, id: string)
    requires ParseVerdict(text).Some?
    ensures VerdictPattern(text, word, id)
  {
    hide AllSpace, VerdictWord, RequestId, SplitWhitespace, Lower;
    var s0, s1, s2;
    s0, word, s1, id, s2 := TwoWordText(text);
  }

  /** A reply is a verdict exactly when it matches the pattern, and then for the id and word matched. */
  lemma VerdictIsPattern(text: string)
    ensures forall word, id :: VerdictPattern(text, word, id) ==>
              ParseVerdict(text) == Some(Verdict(Lower(id), Lower(word)[0] == 'y'))
    ensures ParseVerdict(text).Some? ==> exists word, id :: VerdictPattern(text, word, id)
  {
    hide SplitWhitespace, AllSpace;
    forall word, id | VerdictPattern(text, word, id)
      ensures ParseVerdict(text) == Some(Verdict(Lower(id), Lower(word)[0] == 'y'))
    {
      PatternIsVerdict(text, word, id);
    }
    if ParseVerdict(text).Some? {
      var word, id := VerdictHasPattern(text);
    }
  }

  // ---- the pending map ---------------------------------------------------------------

  datatype Route = Route(channelType: string, chatId: string)

  datatype Entry = Registered(id: string, route: Route) | Accepted(id: string)

  datatype Relay = Relay(pending: map<string, Route>, log: seq<Entry>)

  const IDLE := Relay(map[], [])

  function Consume(r: Relay, text: string, from: Route): (Relay, Option<Verdict>) {
    match ParseVerdict(text)
    case None => (r, None)
    case Some(v) =>
      if v.requestId in r.pending && r.pending[v.requestId] == from
      then (Relay(r.pending - {v.requestId}, r.log + [Accepted(v.requestId)]), Some(v))
      else (r, None)
  }

  function Request(r: Relay, id: string, route: Route): Relay {
    if id == "" || ParseChannel(route.channelType).None? then r
    else Relay(r.pending[id := route], r.log + [Registered(id, route)])
  }

  class PermissionRelay {
    var pendingRequests: map<string, Route>
    ghost var log: seq<Entry>

    ghost function View(): Relay
      reads this
    {
      Relay(pendingRequests, log)
    }

    constructor ()
      ensures View() == IDLE
    {
      pendingRequests, log := map[], [];
    }

    method TryConsumeVerdict(text: string, channelType: string, chatId: string) returns (verdict: Option<Verdict>)
      modifies this
      ensures (View(), verdict) == Consume(old(View()), text, Route(channelType, chatId))
    {
      var parsed := ParseVerdict(text);
      if parsed.None? {
        return None;
      }
      var id := parsed.value.requestId;
      if id !in pendingRequests {
        return None;
      }
      var entry := pendingRequests[id];
      pendingRequests := pendingRequests - {id};
      if entry.channelType != channelType || entry.chatId != chatId {
        pendingRequests := pendingRequests[id := entry];
        assert pendingRequests == old(pendingRequests);
        return None;
      }
      log := log + [Accepted(id)];
      return parsed;
    }

    /** Registers the request; whether a prompt then goes out is the adapter's affair. */
    method HandleRequest(id: string, channelType: string, chatId: string) returns (prompted: bool)
      modifies this
      ensures View() == Request(old(View()), id, Route(channelType, chatId))
      ensures prompted <==> id != "" && ParseChannel(channelType).Some?
    {
      if id == "" || ParseChannel(channelType).None? {
        return false;
      }
      pendingRequests := pendingRequests[id := Route(channelType, chatId)];
      log := log + [Registered(id, Route(channelType, chatId))];
      return true;
    }
  }

  // ---- pending is a fact about history ---------------------------------------------------

  /** The latest entry about `id` is its registration for `route`. */
  ghost predicate Awaits(log: seq<Entry>, id: string, route: Route) {
    exists i :: 0 <= i < |log| && log[i] == Registered(id, route) && forall j :: i < j < |log| ==> log[j].id != id
  }

  /** Every accepted verdict answers a registration nothing has answered since. */
  ghost predicate Earned(log: seq<Entry>) {
    forall j: nat :: j < |log| ==> EarnedAt(log, j)
  }

  ghost predicate EarnedAt(log: seq<Entry>, j: nat)
    requires j < |log|
  {
    log[j].Accepted? ==> exists route :: Awaits(log[..j], log[j].id, route)
  }

  /** `id` is pending with `route`. */
  predicate Pends(pending: map<string, Route>, id: string, route: Route) {
    id in pending && pending[id] == route
  }

  ghost predicate Lawful(r: Relay) {
    && (forall id, route :: Pends(r.pending, id, route) <==> Awaits(r.log, id, route))
    && Earned(r.log)
  }

  lemma AwaitsAfter(log: seq<Entry>, e: Entry, id: string, route: Route)
    ensures Awaits(log + [e], id, route) <==> if e.id == id then e == Registered(id, route) else Awaits(log, id, route)
  {
    var all := log + [e];
    if e.id == id {
      assert all[|log|] == e;
      if Awaits(all, id, route) {
        var i :| 0 <= i < |all| && all[i] == Registered(id, route) && forall j :: i < j < |all| ==> all[j].id != id;
        assert !(i < |log|);
      }
    } else {
      if Awaits(log, id, route) {
        var i :| 0 <= i < |log| && log[i] == Registered(id, route) && forall j :: i < j < |log| ==> log[j].id != id;
        assert all[i] == Registered(id, route);
      }
      if Awaits(all, id, route) {
        var i :| 0 <= i < |all| && all[i] == Registered(id, route) && forall j :: i < j < |all| ==> all[j].id != id;
        assert log[i] == all[i];
        assert forall j :: i < j < |log| ==> log[j] == all[j];
      }
    }
  }

  lemma LawfulAppend(r: Relay, pending: map<string, Route>, e: Entry)
    requires Lawful(r)
    requires forall id, route :: Pends(pending, id, route) <==>
               if e.id == id then e == Registered(id, route) else Pends(r.pending, id, route)
    requires e.Accepted? ==> e.id in r.pending
    ensures Lawful(Relay(pending, r.log + [e]))
  {
    var log := r.log + [e];
    if e.Accepted? { assert Pends(r.pending, e.id, r.pending[e.id]); }
    hide Awaits, Pends;
    forall id, route ensures Pends(pending, id, route) <==> Awaits(log, id, route) {
      AwaitsAfter(r.log, e, id, route);
    }
    forall j: nat | j < |log| ensures EarnedAt(log, j) {
      if j == |r.log| {
        assert log[..j] == r.log;
      } else {
        assert log[..j] == r.log[..j];
        assert EarnedAt(r.log, j);
      }
    }
  }

  lemma ConsumeIsLawful(r: Relay, text: string, from: Route)
    requires Lawful(r)
    ensures Lawful(Consume(r, text, from).0)
  {
    var (next, v) := Consume(r, text, from);
    if v.Some? { LawfulAppend(r, next.pending, Accepted(v.value.requestId)); }
  }

  lemma RequestIsLawful(r: Relay, id: string, route: Route)
    requires Lawful(r)
    ensures Lawful(Request(r, id, route))
  {
    var next := Request(r, id, route);
    if next != r { LawfulAppend(r, next.pending, Registered(id, route)); }
  }

  /** What may happen to a relay. */
  datatype Act = Reply(text: string, from: Route) | Ask(id: string, route: Route)

  function Play(acts: seq<Act>): Relay {
    if acts == [] then IDLE
    else
      var r := Play(acts[..|acts| - 1]);
      match acts[|acts| - 1]
      case Reply(text, from) => Consume(r, text, from).0
      case Ask(id, route) => Request(r, id, route)
  }

  lemma {:induction false} PlayIsLawful(acts: seq<Act>)
    ensures Lawful(Play(acts))
  {
    if acts != [] {
      hide Lawful;
      PlayIsLawful(acts[..|acts| - 1]);
      var r := Play(acts[..|acts| - 1]);
      match acts[|acts| - 1] {
        case Reply(text, from) => ConsumeIsLawful(r, text, from);
        case Ask(id, route) => RequestIsLawful(r, id, route);
      }
    }
  }

  /**
   After any acts an id is pending with a route exactly when its latest registration came
   after its latest accepted verdict and carried that route; and every accepted verdict
   answered such a registration, so none is accepted twice.
   */
  lemma PendingIsHistory(acts: seq<Act>)
    ensures var r := Play(acts);
            && (forall id, route :: Pends(r.pending, id, route) <==> Awaits(r.log, id, route))
            && (forall j: nat :: j < |r.log| ==> EarnedAt(r.log, j))
  {
    PlayIsLawful(acts);
  }

  function Registrations(log: seq<Entry>, id: string): nat {
    if log == [] then 0
    else Registrations(log[..|log| - 1], id) + if log[|log| - 1].Registered? && log[|log| - 1].id == id then 1 else 0
  }

  function Acceptances(log: seq<Entry>, id: string): nat {
    if log == [] then 0
    else Acceptances(log[..|log| - 1], id) + if log[|log| - 1] == Accepted(id) then 1 else 0
  }

  lemma {:induction false} VerdictsAreEarned(log: seq<Entry>, id: string)
    requires Earned(log)
    ensures Acceptances(log, id) <= Registrations(log, id)
    ensures (exists route :: Awaits(log, id, route)) ==> Acceptances(log, id) < Registrations(log, id)
  {
    if log != [] {
      var n := |log| - 1;
      var front, e := log[..n], log[n];
      forall j: nat | j < |front| ensures EarnedAt(front, j) {
        assert front[..j] == log[..j] && front[j] == log[j];
        assert EarnedAt(log, j);
      }
      VerdictsAreEarned(front, id);
      assert log == front + [e];
      forall route
        ensures Awaits(log, id, route) <==>
                if e.id == id then e == Registered(id, route) else Awaits(front, id, route)
      {
        AwaitsAfter(front, e, id, route);
      }
      assert EarnedAt(log, n);
    }
  }

  /** Accepted verdicts never outnumber registrations. */
  lemma NoVerdictWithoutRequest(acts: seq<Act>, id: string)
    ensures Acceptances(Play(acts).log, id) <= Registrations(Play(acts).log, id)
  {
    PlayIsLawful(acts);
    VerdictsAreEarned(Play(acts).log, id);
  }

  /** A pending id can be answered from its chat exactly when it is written in the id alphabet. */
  lemma AnswerableIds(r: Relay, id: string)
    requires id in r.pending
    ensures (exists text, v :: Consume(r, text, r.pending[id]).1 == Some(v) && v.requestId == id) <==> RequestId(id)
  {
    if RequestId(id) {
      var yes := "yes";
      assert Lower(yes) == yes && Lower(id) == id;
      WordsAreSpaceless(yes, id);
      TwoWords("", yes, " ", id, "");
      var text := "" + yes + " " + id + "";
      assert ParseVerdict(text) == Some(Verdict(id, true));
      assert Consume(r, text, r.pending[id]).1 == Some(Verdict(id, true));
    }
  }

  /**
   A reply changes nothing unless it is accepted; an accepted one takes its id, and no other,
   off the map, so that the same words are no verdict again until the id is asked anew.
   */
  lemma VerdictsAreNotReplayed(r: Relay, text: string, from: Route, later: Route)
    ensures var (next, v) := Consume(r, text, from);
            && (v.None? ==> next == r)
            && (v.Some? ==> && v.value.requestId in r.pending && r.pending[v.value.requestId] == from
                            && next.pending == r.pending - {v.value.requestId}
                            && Consume(next, text, later) == (next, None))
  {
    hide ParseVerdict;
  }
}
