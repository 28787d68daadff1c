/**
 WhatsApp cards: src/channels/whatsapp/renderer.rs chooses a widget under the
 Cloud API caps and keeps control titles distinct; a tap comes back through
 src/channels/whatsapp/transport.rs.
 */
module Cards {
  import opened Chars

  const MAX_REPLY_BUTTONS := 3
  const MAX_LIST_ROWS := 10
  const MAX_BUTTON_TITLE := 20
  const MAX_ROW_TITLE := 24
  const MAX_BUTTON_ID := 256
  const MAX_ROW_ID := 200
  const MAX_LIST_OPEN_LABEL := 20
  const MAX_HEADER_TEXT := 60

  datatype CardAction = CardAction(caption: string, actionType: string, value: string)

  function Take(s: string, n: nat): (r: string)
    ensures r <= s && |r| == if n < |s| then n else |s|
  {
    if n < |s| then s[..n] else s
  }

  // ---- decimal ordinals --------------------------------------------------------

  function Digit(d: nat): char
    requires d < 10
  {
    ('0' as int + d) as char
  }

  function Decimal(n: nat): (r: string)
    ensures r != [] && forall i :: 0 <= i < |r| ==> r[i] != ' '
  {
    if n < 10 then [Digit(n)] else Decimal(n / 10) + [Digit(n % 10)]
  }

  lemma {:induction false} DecimalIsInjective(m: nat, n: nat)
    requires Decimal(m) == Decimal(n)
    ensures m == n
  {
    var a, b := Decimal(m), Decimal(n);
    assert a[|a| - 1] == Digit(m % 10) && b[|b| - 1] == Digit(n % 10);
    assert m % 10 == n % 10;
    if m >= 10 && n >= 10 {
      assert a[..|a| - 1] == Decimal(m / 10) && b[..|b| - 1] == Decimal(n / 10);
      DecimalIsInjective(m / 10, n / 10);
    }
  }

  lemma DecimalBelow100(n: nat)
    requires n < 100
    ensures |Decimal(n)| <= 2
  {
  }

  // ---- distinct titles -------------------------------------------------------------

  function Tag(ordinal: nat): string {
    " " + Decimal(ordinal)
  }

  /** `base` cut to leave room for the ordinal, as far as there is room. */
  function Candidate(base: string, ordinal: nat, max: nat): string {
    var tag := Tag(ordinal);
    Take(base, if |tag| < max then max - |tag| else 0) + tag
  }

  /** The end of a string, from after its last space. */
  ghost function LastWord(s: string): string {
    if s == [] || s[|s| - 1] == ' ' then [] else LastWord(s[..|s| - 1]) + [s[|s| - 1]]
  }

  lemma {:induction false} LastWordIs(s: string, word: string)
    requires forall i :: 0 <= i < |word| ==> word[i] != ' '
    ensures LastWord(s + " " + word) == word
    decreases |word|
  {
    var all := s + " " + word;
    if word == [] {
      assert all[|all| - 1] == ' ';
    } else {
      var front, last := word[..|word| - 1], word[|word| - 1];
      LastWordIs(s, front);
      assert all[..|all| - 1] == s + " " + front;
      assert all[|all| - 1] == last;
    }
  }

  /** Different ordinals make different candidates: the last word is the ordinal. */
  lemma CandidatesDiffer(base: string, m: nat, n: nat, max: nat)
    requires Candidate(base, m, max) == Candidate(base, n, max)
    ensures m == n
  {
    CandidateEnds(base, m, max);
    CandidateEnds(base, n, max);
    DecimalIsInjective(m, n);
  }

  lemma CandidateEnds(base: string, k: nat, max: nat)
    ensures LastWord(Candidate(base, k, max)) == Decimal(k)
  {
    var s := Take(base, if |Tag(k)| < max then max - |Tag(k)| else 0);
    LastWordIs(s, Decimal(k));
    Reassociate(s, " ", Decimal(k));
    hide LastWord, Take, Decimal;
  }

  ghost function Tried(base: string, max: nat, upTo: nat): set<string> {
    if upTo <= 2 then {} else Tried(base, max, upTo - 1) + {Candidate(base, upTo - 1, max)}
  }

  lemma {:induction false} TriedMembers(base: string, max: nat, upTo: nat, c: string)
    ensures c in Tried(base, max, upTo) <==> exists n :: 2 <= n < upTo && Candidate(base, n, max) == c
  {
    hide Candidate;
    if upTo > 2 { TriedMembers(base, max, upTo - 1, c); }
  }

  lemma {:induction false} TriedCount(base: string, max: nat, upTo: nat)
    requires 2 <= upTo
    ensures |Tried(base, max, upTo)| == upTo - 2
  {
    hide Candidate;
    if upTo > 2 {
      TriedCount(base, max, upTo - 1);
      var last := Candidate(base, upTo - 1, max);
      TriedMembers(base, max, upTo - 1, last);
      forall n | 2 <= n < upTo - 1 ensures Candidate(base, n, max) != last {
        if Candidate(base, n, max) == last { CandidatesDiffer(base, n, upTo - 1, max); }
      }
    }
  }

  lemma {:induction false} ElementsBounded(s: seq<string>, among: set<string>)
    requires forall c :: c in among ==> c in s
    ensures |among| <= |s|
  {
    if s == [] {
      assert among == {};
    } else {
      ElementsBounded(s[1..], among - {s[0]});
      assert |among| <= |among - {s[0]}| + 1;
    }
  }

  /** Only as many ordinals can be taken as there are titles. */
  lemma Pigeonhole(titles: seq<string>, base: string, max: nat, upTo: nat)
    requires 2 <= upTo && forall n :: 2 <= n < upTo ==> Candidate(base, n, max) in titles
    ensures upTo <= |titles| + 2
  {
    TriedCount(base, max, upTo);
    forall c | c in Tried(base, max, upTo) ensures c in titles { TriedMembers(base, max, upTo, c); }
    ElementsBounded(titles, Tried(base, max, upTo));
  }

  /** The least ordinal from `n` on whose candidate is free. */
  function FreeOrdinal(titles: seq<string>, base: string, max: nat, n: nat): (r: nat)
    requires 2 <= n && forall m :: 2 <= m < n ==> Candidate(base, m, max) in titles
    ensures n <= r <= |titles| + 2 && Candidate(base, r, max) !in titles
    ensures forall m :: 2 <= m < r ==> Candidate(base, m, max) in titles
    decreases |titles| + 3 - n
  {
    Pigeonhole(titles, base, max, n);
    if Candidate(base, n, max) in titles then
      Pigeonhole(titles, base, max, n + 1);
      FreeOrdinal(titles, base, max, n + 1)
    else n
  }

  function Title(titles: seq<string>, base: string, max: nat): (r: string)
    ensures r !in titles
  {
    if base in titles then Candidate(base, FreeOrdinal(titles, base, max, 2), max) else base
  }

  function Base(action: CardAction, max: nat): string {
    Take(Trim(action.caption), max)
  }

  function Titles(actions: seq<CardAction>, max: nat): (r: seq<string>)
    ensures |r| == |actions|
  {
    if actions == [] then []
    else
      var before := Titles(actions[..|actions| - 1], max);
      before + [Title(before, Base(actions[|actions| - 1], max), max)]
  }

  /** The disambiguation loop for one label; it ends because the ordinals run out of takers. */
  method UniqueTitle(titles: seq<string>, base: string, max: nat) returns (candidate: string)
    ensures candidate == Title(titles, base, max)
  {
    hide Take, Decimal, Tag, FreeOrdinal, Candidate;
    candidate := base;
    var ordinal := 2;
    ghost var free := if base in titles then FreeOrdinal(titles, base, max, 2) else 1;
    while candidate in titles
      invariant 2 <= ordinal <= free + 1
      invariant candidate == if ordinal == 2 then base else Candidate(base, ordinal - 1, max)
      decreases free + 1 - ordinal
    {
      assert ordinal - 1 != free;
      var tag := Tag(ordinal);
      var keep := if |tag| < max then max - |tag| else 0;
      candidate := Take(base, keep) + tag;
      CandidateIs(base, ordinal, max, tag, keep);
      ordinal := ordinal + 1;
    }
    assert base in titles ==> forall m :: 2 <= m < free ==> Candidate(base, m, max) in titles;
  }

  lemma CandidateIs(base: string, n: nat, max: nat, tag: string, keep: nat)
    requires 2 <= n && tag == Tag(n) && keep == if |tag| < max then max - |tag| else 0
    ensures Candidate(base, n, max) == Take(base, keep) + tag
  {
    hide Take, Tag;
  }

  method UniqueTitles(actions: seq<CardAction>, max: nat) returns (titles: seq<string>)
    ensures titles == Titles(actions, max)
  {
    hide Title, Base;
    titles := [];
    for i := 0 to |actions|
      invariant titles == Titles(actions[..i], max)
    {
      var candidate := UniqueTitle(titles, Base(actions[i], max), max);
      assert actions[..i + 1][..i] == actions[..i];
      titles := titles + [candidate];
    }
    assert actions[..|actions|] == actions;
  }

  ghost predicate Distinct(s: seq<string>) {
    forall i, j :: 0 <= i < j < |s| ==> s[i] != s[j]
  }

  lemma DistinctAppend(s: seq<string>, x: string)
    requires Distinct(s) && x !in s
    ensures Distinct(s + [x])
  {
    var r := s + [x];
    assert forall i :: 0 <= i < |s| ==> r[i] == s[i] && s[i] in s;
  }

  /** Titles come one per action in order, and no two are the same. */
  lemma {:induction false} TitlesAreDistinct(actions: seq<CardAction>, max: nat)
    ensures Distinct(Titles(actions, max))
  {
    if actions != [] {
      var front := actions[..|actions| - 1];
      TitlesAreDistinct(front, max);
      DistinctAppend(Titles(front, max), Title(Titles(front, max), Base(actions[|actions| - 1], max), max));
    }
  }

  /** A title is its label cut to size, or that cut again with the first ordinal that is free. */
  lemma {:induction false} TitleShape(actions: seq<CardAction>, max: nat, i: nat)
    requires i < |actions|
    ensures var t, base := Titles(actions, max), Base(actions[i], max);
            if base !in t[..i] then t[i] == base
            else exists n :: 2 <= n <= i + 2 && t[i] == Candidate(base, n, max)
                             && forall m :: 2 <= m < n ==> Candidate(base, m, max) in t[..i]
  {
    var last := |actions| - 1;
    var before := Titles(actions[..last], max);
    var t := Titles(actions, max);
    assert t[..last] == before;
    if i < last {
      TitleShape(actions[..last], max, i);
      assert t[..i] == before[..i];
    } else {
      assert t[..i] == before;
    }
  }

  /** A candidate keeps to the cap exactly when its ordinal tag does. */
  lemma CandidateFits(base: string, ordinal: nat, max: nat)
    ensures |Candidate(base, ordinal, max)| <= max <==> |Tag(ordinal)| <= max
    ensures Tag(ordinal) <= Candidate(base, ordinal, max)[|Candidate(base, ordinal, max)| - |Tag(ordinal)|..]
  {
  }

  /** Up to ten titles of at least three characters all fit, and none is empty unless its label is blank. */
  lemma TitlesFit(actions: seq<CardAction>, max: nat, i: nat)
    requires i < |actions| <= MAX_LIST_ROWS && 3 <= max
    ensures |Titles(actions, max)[i]| <= max
    ensures Trim(actions[i].caption) != [] ==> Titles(actions, max)[i] != []
  {
    TitleShape(actions, max, i);
    forall n: nat | 2 <= n <= i + 2
      ensures 0 < |Candidate(Base(actions[i], max), n, max)| <= max
    {
      DecimalBelow100(n);
    }
  }

  // ---- the card ------------------------------------------------------------------------

  datatype Control = Control(id: string, title: string)

  /** The three payload shapes a card becomes; the JSON envelope around them is left out. */
  datatype Payload =
    | ReplyButtons(header: Option<string>, text: string, buttons: seq<Control>)
    | ListMenu(header: Option<string>, text: string, open: string, rows: seq<Control>)
    | TextBody(text: string)

  predicate Blank(s: string) {
    Trim(s) == []
  }

  predicate IdsFit(actions: seq<CardAction>, max: nat) {
    forall a :: a in actions ==> |a.value| <= max
  }

  predicate InteractiveEligible(actions: seq<CardAction>) {
    actions != [] && forall a :: a in actions ==> a.actionType != "url" && !Blank(a.caption)
  }

  function CardBodyText(title: string, body: string): string {
    if Blank(body) then title else body
  }

  function Header(title: string, body: string): Option<string> {
    if Blank(title) || Blank(body) then None else Some(Take(title, MAX_HEADER_TEXT))
  }

  function Controls(actions: seq<CardAction>, max: nat): (r: seq<Control>)
    ensures |r| == |actions|
    ensures forall i :: 0 <= i < |r| ==> r[i] == Control(actions[i].value, Titles(actions, max)[i])
  {
    var titles := Titles(actions, max);
    seq(|actions|, i requires 0 <= i < |actions| => Control(actions[i].value, titles[i]))
  }

  function OpenLabel(title: string): string {
    if Blank(title) then "Menu" else Take(title, MAX_LIST_OPEN_LABEL)
  }

  function Line(a: CardAction): string {
    "\n- " + a.caption + ": " + a.value
  }

  function Lines(actions: seq<CardAction>): string {
    if actions == [] then [] else Line(actions[0]) + Lines(actions[1..])
  }

  function CardText(title: string, body: string, actions: seq<CardAction>): string {
    "*" + title + "*\n\n" + body + Lines(actions)
  }

  function Card(title: string, body: string, actions: seq<CardAction>): Payload {
    if InteractiveEligible(actions) && |actions| <= MAX_REPLY_BUTTONS && IdsFit(actions, MAX_BUTTON_ID) then
      ReplyButtons(Header(title, body), CardBodyText(title, body), Controls(actions, MAX_BUTTON_TITLE))
    else if InteractiveEligible(actions) && |actions| <= MAX_LIST_ROWS && IdsFit(actions, MAX_ROW_ID) then
      ListMenu(Header(title, body), CardBodyText(title, body), OpenLabel(title), Controls(actions, MAX_ROW_TITLE))
    else TextBody(CardText(title, body, actions))
  }

  method CardAsText(title: string, body: string, actions: seq<CardAction>) returns (text: string)
    ensures text == CardText(title, body, actions)
  {
    hide Line;
    text := "*" + title + "*\n\n" + body;
    ghost var head := text;
    for i := 0 to |actions|
      invariant text + Lines(actions[i..]) == head + Lines(actions)
    {
      assert actions[i..][1..] == actions[i + 1..];
      Reassociate(text, Line(actions[i]), Lines(actions[i + 1..]));
      text := text + Line(actions[i]);
    }
  }

  method RenderCard(title: string, body: string, actions: seq<CardAction>) returns (payload: Payload)
    ensures payload == Card(title, body, actions)
  {
    hide Titles, Blank, Take, Lines;
    if InteractiveEligible(actions) {
      if |actions| <= MAX_REPLY_BUTTONS && IdsFit(actions, MAX_BUTTON_ID) {
        var titles := UniqueTitles(actions, MAX_BUTTON_TITLE);
        var buttons := seq(|actions|, i requires 0 <= i < |actions| => Control(actions[i].value, titles[i]));
        return ReplyButtons(Header(title, body), CardBodyText(title, body), buttons);
      }
      if |actions| <= MAX_LIST_ROWS && IdsFit(actions, MAX_ROW_ID) {
        var titles := UniqueTitles(actions, MAX_ROW_TITLE);
        var rows := seq(|actions|, i requires 0 <= i < |actions| => Control(actions[i].value, titles[i]));
        return ListMenu(Header(title, body), CardBodyText(title, body), OpenLabel(title), rows);
      }
    }
    var text := CardAsText(title, body, actions);
    return TextBody(text);
  }

  // ---- what every card keeps ---------------------------------------------------------------

  /** The controls stand for the actions, in order, within the caps Meta rejects a message over. */
  ghost predicate Faithful(controls: seq<Control>, actions: seq<CardAction>, maxTitle: nat, maxId: nat) {
    && |controls| == |actions|
    && (forall i :: 0 <= i < |actions| ==>
          && controls[i].id == actions[i].value && |controls[i].id| <= maxId
          && 0 < |controls[i].title| <= maxTitle && actions[i].actionType != "url")
    && Distinct(seq(|controls|, i requires 0 <= i < |controls| => controls[i].title))
  }

  lemma ControlsAreFaithful(actions: seq<CardAction>, maxTitle: nat, maxId: nat)
    requires InteractiveEligible(actions) && |actions| <= MAX_LIST_ROWS && IdsFit(actions, maxId) && 3 <= maxTitle
    ensures Faithful(Controls(actions, maxTitle), actions, maxTitle, maxId)
  {
    TitlesAreDistinct(actions, maxTitle);
    forall i | 0 <= i < |actions|
      ensures 0 < |Titles(actions, maxTitle)[i]| <= maxTitle
      ensures actions[i].actionType != "url" && |actions[i].value| <= maxId
    {
      assert actions[i] in actions;
      TitlesFit(actions, maxTitle, i);
    }
    var c := Controls(actions, maxTitle);
    assert seq(|c|, i requires 0 <= i < |c| => c[i].title) == Titles(actions, maxTitle);
    hide Titles, InteractiveEligible, IdsFit, Controls, Distinct;
  }

  /**
   Which widget a card becomes, and that none loses an action: buttons for one to three
   actions, a list only for four to ten, and otherwise text.
   */
  lemma CardKeepsEveryAction(title: string, body: string, actions: seq<CardAction>)
    ensures match Card(title, body, actions)
            case ReplyButtons(_, _, buttons) =>
              1 <= |actions| <= 3 && Faithful(buttons, actions, 20, 256)
            case ListMenu(_, _, open, rows) =>
              4 <= |actions| <= 10 && Faithful(rows, actions, 24, 200) && 0 < |open| <= 20
            case TextBody(text) =>
              && (!InteractiveEligible(actions) || |actions| > 10
                  || !IdsFit(actions, if |actions| <= 3 then 256 else 200))
              && text == CardText(title, body, actions)
              && forall i :: 0 <= i < |actions| ==> Contains(text, Line(actions[i]))
  {
    if InteractiveEligible(actions) && |actions| <= MAX_LIST_ROWS {
      if IdsFit(actions, MAX_BUTTON_ID) { ControlsAreFaithful(actions, MAX_BUTTON_TITLE, MAX_BUTTON_ID); }
      if IdsFit(actions, MAX_ROW_ID) { ControlsAreFaithful(actions, MAX_ROW_TITLE, MAX_ROW_ID); }
    }
    TitleFitsOpenLabel(title);
    forall i | 0 <= i < |actions| ensures Contains(CardText(title, body, actions), Line(actions[i])) {
      LineListed("*" + title + "*\n\n" + body, actions, i);
    }
    hide Faithful, Controls, Line, Lines, CardText, OpenLabel, InteractiveEligible, Contains;
  }

  lemma TitleFitsOpenLabel(title: string)
    ensures 0 < |OpenLabel(title)| <= 20
  {
    assert title == [] ==> Blank(title);
  }

  lemma {:induction false} LineListed(head: string, actions: seq<CardAction>, i: nat)
    requires i < |actions|
    ensures Contains(head + Lines(actions), Line(actions[i]))
    decreases actions
  {
    hide Line;
    var line, rest := Line(actions[0]), Lines(actions[1..]);
    var all := head + Lines(actions);
    Reassociate(head, line, rest);
    if i == 0 {
      AtInRight(head, line + rest, line, 0);
      assert (line + rest)[..|line|] == line;
    } else {
      LineListed(head + line, actions[1..], i - 1);
    }
  }

  /** A card's title and body both reach the reader, and no widget has an empty body unless the card is blank. */
  lemma CardTextsReachTheReader(title: string, body: string, actions: seq<CardAction>)
    ensures var p := Card(title, body, actions);
            !p.TextBody? ==>
              var header := p.header;
              && (Blank(p.text) <==> Blank(title) && Blank(body))
              && (!Blank(body) ==> p.text == body)
              && (!Blank(title) && Blank(body) ==> p.text == title && header == None)
              && (!Blank(title) && !Blank(body) ==> header.Some? && 0 < |header.value| <= 60 && header.value <= title)
  {
    assert title == [] ==> Blank(title);
    hide Titles, Controls, InteractiveEligible;
  }

  // ---- the tap that comes back ---------------------------------------------------------------

  /** The ids an inbound `interactive` message may carry. */
  datatype Tap = Tap(buttonReply: Option<string>, listReply: Option<string>)

  /** `parse_whatsapp_content` on a tap: the id, verbatim, is the text. */
  function TapText(tap: Tap): string {
    match tap.buttonReply
    case Some(id) => id
    case None => match tap.listReply case Some(id) => id case None => ""
  }

  /** WhatsApp echoing control `i` of a card. */
  function Echo(payload: Payload, i: nat): Tap
    requires !payload.TextBody? && i < |if payload.ReplyButtons? then payload.buttons else payload.rows|
  {
    if payload.ReplyButtons? then Tap(Some(payload.buttons[i].id), None) else Tap(None, Some(payload.rows[i].id))
  }

  /** A tap on control `i` reads as exactly the text action `i` stands for. */
  lemma TapIsTheCommand(title: string, body: string, actions: seq<CardAction>, i: nat)
    requires !Card(title, body, actions).TextBody? && i < |actions|
    ensures TapText(Echo(Card(title, body, actions), i)) == actions[i].value
  {
    CardKeepsEveryAction(title, body, actions);
  }
}
