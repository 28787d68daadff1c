/**
 Cards with their caps, labels and line formats in letters and numbers: which widget a card
 becomes, what each of its fields holds, and what the text degradation says.
 */
module WrittenCards {
  import opened Chars
  import opened Cards
  import opened WrittenStrings

  /** Nothing but white space. */
  ghost predicate White(s: string) {
    forall c :: c in s ==> IsWhitespace(c)
  }

  /** The head of a string, at most `n` characters of it. */
  ghost predicate Head(r: string, s: string, n: nat) {
    r <= s && |r| == if |s| <= n then |s| else n
  }

  /** Every action is a postback with a label that shows, and there is one. */
  ghost predicate Pressable(actions: seq<CardAction>) {
    && actions != []
    && forall i :: 0 <= i < |actions| ==> actions[i].actionType != "url" && !White(actions[i].caption)
  }

  ghost predicate Values(actions: seq<CardAction>, max: nat) {
    forall i :: 0 <= i < |actions| ==> |actions[i].value| <= max
  }

  lemma BlankIsWhite(s: string)
    ensures Blank(s) <==> White(s)
  {
    var before, after := TrimWrittenOut(s);
    hide Trim;
    if Trim(s) != [] {
      assert s[|before|] == Trim(s)[0] && s[|before|] in s;
    } else {
      assert s == before + after;
    }
  }

  lemma EligibleIsPressable(actions: seq<CardAction>)
    ensures InteractiveEligible(actions) <==> Pressable(actions)
  {
    forall a: CardAction ensures Blank(a.caption) <==> White(a.caption) { BlankIsWhite(a.caption); }
    hide Blank, White;
    if Pressable(actions) {
      forall a | a in actions ensures a.actionType != "url" && !White(a.caption) {
        var i :| 0 <= i < |actions| && actions[i] == a;
      }
    }
  }

  lemma IdsFitIsValues(actions: seq<CardAction>, max: nat)
    ensures IdsFit(actions, max) <==> Values(actions, max)
  {
    if Values(actions, max) {
      forall a | a in actions ensures |a.value| <= max { var i :| 0 <= i < |actions| && actions[i] == a; }
    }
  }

  /**
   Buttons for up to three pressable actions with values of up to 256 characters, a list for up
   to ten with values of up to 200, and text for every other card.
   */
  lemma WidgetWrittenOut(title: string, body: string, actions: seq<CardAction>)
    ensures var p := Card(title, body, actions);
            var buttons := Pressable(actions) && |actions| <= 3 && Values(actions, 256);
            && (p.ReplyButtons? <==> buttons)
            && (p.ListMenu? <==> !buttons && Pressable(actions) && |actions| <= 10 && Values(actions, 200))
  {
    EligibleIsPressable(actions);
    IdsFitIsValues(actions, 256);
    IdsFitIsValues(actions, 200);
    hide Pressable, Values, InteractiveEligible, IdsFit, Controls, Header, CardText, OpenLabel, CardBodyText;
  }

  /**
   A widget's body is the card's, or its title if that is blank; its header the first sixty
   characters of the title, unless title or body is blank; and a list opens with the first twenty, or `Menu`.
   */
  lemma WidgetTextsWrittenOut(title: string, body: string, actions: seq<CardAction>)
    ensures var p := Card(title, body, actions);
            !p.TextBody? ==>
              && p.text == (if White(body) then title else body)
              && (if White(title) || White(body) then p.header == None
                  else p.header.Some? && Head(p.header.value, title, 60))
              && (p.ListMenu? ==> if White(title) then p.open == "Menu" else Head(p.open, title, 20))
  {
    BlankIsWhite(title);
    BlankIsWhite(body);
    hide White, Blank, InteractiveEligible, IdsFit, Controls, CardText;
  }

  /** The titles of the two widgets are cut at twenty and at twenty-four characters, and the ids are the values. */
  lemma WidgetControlsWrittenOut(title: string, body: string, actions: seq<CardAction>, i: nat)
    requires i < |actions|
    ensures match Card(title, body, actions)
            case ReplyButtons(_, _, buttons) =>
              |buttons| == |actions| && buttons[i] == Control(actions[i].value, Titles(actions, 20)[i])
            case ListMenu(_, _, _, rows) =>
              |rows| == |actions| && rows[i] == Control(actions[i].value, Titles(actions, 24)[i])
            case TextBody(_) => true
  {
    hide Titles, InteractiveEligible, IdsFit, Header, CardText, OpenLabel, CardBodyText;
  }

  /** `tag` is a space and `n` in decimal digits. */
  ghost predicate OrdinalTag(tag: string, n: nat) {
    tag != [] && tag[0] == ' ' && Numeral(tag[1..], n)
  }

  ghost predicate Numeral(digits: string, n: nat)
    decreases |digits|
  {
    && digits != [] && n % 10 < |"0123456789"| && digits[|digits| - 1] == "0123456789"[n % 10]
    && if n < 10 then |digits| == 1 else Numeral(digits[..|digits| - 1], n / 10)
  }

  lemma {:induction false} DecimalIsNumeral(n: nat)
    ensures Numeral(Decimal(n), n)
  {
    var table := "0123456789";
    assert forall d :: 0 <= d < 10 ==> table[d] as int == '0' as int + d;
    var digits := Decimal(n);
    assert digits[|digits| - 1] == Digit(n % 10) == table[n % 10];
    if n >= 10 {
      DecimalIsNumeral(n / 10);
      assert digits[..|digits| - 1] == Decimal(n / 10);
    }
  }

  /** `base` is the label without white space at its ends, cut to `max` characters. */
  ghost predicate Label(base: string, caption: string, max: nat) {
    exists before, shown, after ::
      && caption == before + shown + after && White(before) && White(after)
      && (shown != [] ==> !IsWhitespace(shown[0]) && !IsWhitespace(shown[|shown| - 1])) && Head(base, shown, max)
  }

  lemma BaseIsLabel(a: CardAction, max: nat)
    ensures Label(Base(a, max), a.caption, max)
  {
    var before, after := TrimWrittenOut(a.caption);
    assert Head(Base(a, max), Trim(a.caption), max);
    hide Base, Trim;
    assert a.caption == before + Trim(a.caption) + after;
  }

  /**
   A title is its label cut to size if no earlier title is the same, and otherwise that cut again
   to leave room for a space and the least number from 2 on that makes it new.
   */
  lemma TitlesWrittenOut(actions: seq<CardAction>, max: nat, i: nat) returns (base: string)
    requires i < |actions|
    ensures Label(base, actions[i].caption, max)
    ensures var t := Titles(actions, max);
            if base !in t[..i] then t[i] == base
            else exists n: nat :: 2 <= n <= i + 2 && Tagged(t[i], base, n, max)
                                  && forall m: nat :: 2 <= m < n ==> Taken(t[..i], base, m, max)
  {
    base := Base(actions[i], max);
    BaseIsLabel(actions[i], max);
    TitleShape(actions, max, i);
    hide Tagged, Candidate, Base, Label, Titles, Taken;
    var t := Titles(actions, max);
    if base in t[..i] {
      var n: nat :| 2 <= n <= i + 2 && t[i] == Candidate(base, n, max)
                    && forall m :: 2 <= m < n ==> Candidate(base, m, max) in t[..i];
      CandidateIsTagged(base, n, max);
      forall m: nat | 2 <= m < n ensures Taken(t[..i], base, m, max) { CandidateTaken(t[..i], base, m, max); }
    }
  }

  /** `title` is a head of `base` and the tag of `n`, cut so that both keep to `max` if the tag does. */
  ghost predicate Tagged(title: string, base: string, n: nat, max: nat) {
    exists kept, tag ::
      && title == kept + tag && OrdinalTag(tag, n)
      && Head(kept, base, if |tag| < max then max - |tag| else 0)
  }

  /** An earlier title has that tag already. */
  ghost predicate Taken(earlier: seq<string>, base: string, n: nat, max: nat) {
    exists u :: u in earlier && Tagged(u, base, n, max)
  }

  lemma CandidateTaken(earlier: seq<string>, base: string, n: nat, max: nat)
    requires Candidate(base, n, max) in earlier
    ensures Taken(earlier, base, n, max)
  {
    CandidateIsTagged(base, n, max);
    hide Tagged, Candidate;
  }

  lemma CandidateIsTagged(base: string, n: nat, max: nat)
    ensures Tagged(Candidate(base, n, max), base, n, max)
  {
    DecimalIsNumeral(n);
    var tag := Tag(n);
    assert tag[1..] == Decimal(n);
    hide Decimal, Numeral;
    var kept := Take(base, if |tag| < max then max - |tag| else 0);
    assert Candidate(base, n, max) == kept + tag;
  }

  // ---- the text ------------------------------------------------------------------------------------

  function Flat(parts: seq<string>): string {
    if parts == [] then [] else parts[0] + Flat(parts[1..])
  }

  /**
   A card no widget can carry is its title between asterisks, an empty line, its body, and a line
   for every action, in order: a dash, the label, a colon and the value.
   */
  lemma TextWrittenOut(title: string, body: string, actions: seq<CardAction>)
    requires Card(title, body, actions).TextBody?
    ensures Card(title, body, actions).text ==
            "*" + title + "*\n\n" + body +
            Flat(seq(|actions|, i requires 0 <= i < |actions| => "\n- " + actions[i].caption + ": " + actions[i].value))
  {
    hide InteractiveEligible, IdsFit, Controls, Header, OpenLabel, CardBodyText;
    FlatIsLines(actions);
    assert Card(title, body, actions).text == CardText(title, body, actions);
    hide Card;
  }

  lemma {:induction false} FlatIsLines(actions: seq<CardAction>)
    ensures Lines(actions) ==
            Flat(seq(|actions|, i requires 0 <= i < |actions| => "\n- " + actions[i].caption + ": " + actions[i].value))
  {
    if actions != [] {
      var parts :=
        seq(|actions|, i requires 0 <= i < |actions| => "\n- " + actions[i].caption + ": " + actions[i].value);
      var tail := actions[1..];
      FlatIsLines(tail);
      assert parts[1..] == seq(|tail|, i requires 0 <= i < |tail| => "\n- " + tail[i].caption + ": " + tail[i].value);
    }
  }

  /** A tap is read from the button's id, or else from the row's. */
  lemma TapWrittenOut(id: string, other: Option<string>)
    ensures TapText(Tap(Some(id), other)) == id
    ensures TapText(Tap(None, Some(id))) == id
    ensures TapText(Tap(None, None)) == ""
  {
  }
}
