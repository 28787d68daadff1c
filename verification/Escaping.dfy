/**
 Entity escaping on the way out: the Telegram and Slack renderers of
 src/rich_text.rs lose no character of any content.
 */
module Escaping {
  import opened Chars
  import opened RichText

  /** `html_escape::encode_text` and, in one pass, `escape_slack`. */
  function Entity(c: char): string {
    if c == '&' then "&amp;" else if c == '<' then "&lt;" else if c == '>' then "&gt;" else [c]
  }

  function Encoded(text: string): string {
    if text == [] then [] else Entity(text[0]) + Encoded(text[1..])
  }

  /** Reading the three entities back. */
  function Decoded(text: string): string {
    if text == [] then []
    else if "&amp;" <= text then "&" + Decoded(text[5..])
    else if "&lt;" <= text then "<" + Decoded(text[4..])
    else if "&gt;" <= text then ">" + Decoded(text[4..])
    else [text[0]] + Decoded(text[1..])
  }

  /** `str::replace` with a single-character pattern. */
  function Replace(text: string, c: char, sub: string): string {
    if text == [] then [] else (if text[0] == c then sub else [text[0]]) + Replace(text[1..], c, sub)
  }

  // ---- one character at a time --------------------------------------------------

  lemma {:induction false} ReplaceConcat(a: string, b: string, c: char, sub: string)
    ensures Replace(a + b, c, sub) == Replace(a, c, sub) + Replace(b, c, sub)
  {
    if a == [] {
      assert a + b == b;
    } else {
      assert (a + b)[1..] == a[1..] + b;
      ReplaceConcat(a[1..], b, c, sub);
      Reassociate(if a[0] == c then sub else [a[0]], Replace(a[1..], c, sub), Replace(b, c, sub));
    }
  }

  lemma {:induction false} ReplaceAbsent(text: string, c: char, sub: string)
    requires c !in text
    ensures Replace(text, c, sub) == text
  {
    if text != [] { ReplaceAbsent(text[1..], c, sub); }
  }

  lemma ReplaceOne(x: char, c: char, sub: string)
    ensures Replace([x], c, sub) == if x == c then sub else [x]
  {
    assert [x][1..] == [];
    assert Replace([x][1..], c, sub) == [];
  }

  /** The three replaces of `escape_slack`, ampersands first, are the one-pass map. */
  lemma {:induction false} ThreeReplaces(text: string)
    ensures Replace(Replace(Replace(text, '&', "&amp;"), '<', "&lt;"), '>', "&gt;") == Encoded(text)
  {
    if text != [] {
      var x, tail := [text[0]], text[1..];
      assert text == x + tail;
      ThreeReplaces(tail);
      ReplaceConcat(x, tail, '&', "&amp;");
      ReplaceConcat(Replace(x, '&', "&amp;"), Replace(tail, '&', "&amp;"), '<', "&lt;");
      ReplaceConcat(Replace(Replace(x, '&', "&amp;"), '<', "&lt;"),
                    Replace(Replace(tail, '&', "&amp;"), '<', "&lt;"), '>', "&gt;");
      EntityByReplaces(text[0]);
    }
  }

  lemma EntityByReplaces(x: char)
    ensures Replace(Replace(Replace([x], '&', "&amp;"), '<', "&lt;"), '>', "&gt;") == Entity(x)
  {
    hide Replace;
    ReplaceOne(x, '&', "&amp;");
    if x == '&' {
      ReplaceAbsent("&amp;", '<', "&lt;");
      ReplaceAbsent("&amp;", '>', "&gt;");
    } else {
      ReplaceOne(x, '<', "&lt;");
      if x == '<' {
        ReplaceAbsent("&lt;", '>', "&gt;");
      } else {
        ReplaceOne(x, '>', "&gt;");
      }
    }
  }

  method EscapeSlack(text: string) returns (out: string)
    ensures out == Encoded(text)
  {
    out := Replace(text, '&', "&amp;");
    out := Replace(out, '<', "&lt;");
    out := Replace(out, '>', "&gt;");
    ThreeReplaces(text);
  }

  lemma {:induction false} NoAngles(text: string)
    ensures '<' !in Encoded(text) && '>' !in Encoded(text)
  {
    if text != [] { NoAngles(text[1..]); }
  }

  lemma DecodedEntity(c: char, tail: string)
    ensures Decoded(Entity(c) + tail) == [c] + Decoded(tail)
  {
    var s := Entity(c) + tail;
    assert s[|Entity(c)|..] == tail;
    assert s[..|Entity(c)|] == Entity(c);
    assert s[0] == Entity(c)[0];
    if c == '<' || c == '>' { assert s[1] == Entity(c)[1]; }
  }

  /** Decoding undoes encoding, whatever follows. */
  lemma {:induction false} DecodeAfterEncode(text: string, tail: string)
    ensures Decoded(Encoded(text) + tail) == text + Decoded(tail)
  {
    if text == [] {
      assert Encoded(text) + tail == tail;
    } else {
      hide Decoded, Entity;
      var rest := Encoded(text[1..]) + tail;
      DecodeAfterEncode(text[1..], tail);
      Reassociate(Entity(text[0]), Encoded(text[1..]), tail);
      DecodedEntity(text[0], rest);
      HeadTail(text);
      Reassociate([text[0]], text[1..], Decoded(tail));
    }
  }

  /** `escape_slack` is invertible and its output cannot open a link or an entity of its own. */
  lemma EscapeIsLossless(text: string)
    ensures Decoded(Encoded(text)) == text
    ensures '<' !in Encoded(text) && '>' !in Encoded(text)
  {
    NoAngles(text);
    DecodeAfterEncode(text, []);
    assert Encoded(text) + [] == Encoded(text) && Decoded([]) == [] && text + [] == text;
  }

  // ---- Telegram ---------------------------------------------------------------------

  function EncodedSpan(span: Span): Span {
    match span
    case Text(t) => Text(Encoded(t))
    case Bold(t) => Bold(Encoded(t))
    case Italic(t) => Italic(Encoded(t))
    case Code(t) => Code(Encoded(t))
  }

  function DecodedSpan(span: Span): Span {
    match span
    case Text(t) => Text(Decoded(t))
    case Bold(t) => Bold(Decoded(t))
    case Italic(t) => Italic(Decoded(t))
    case Code(t) => Code(Decoded(t))
  }

  function EncodedSpans(spans: seq<Span>): (r: seq<Span>)
    ensures |r| == |spans| && forall i :: 0 <= i < |r| ==> r[i] == EncodedSpan(spans[i])
  {
    seq(|spans|, i requires 0 <= i < |spans| => EncodedSpan(spans[i]))
  }

  function DecodedSpans(spans: seq<Span>): (r: seq<Span>)
    ensures |r| == |spans| && forall i :: 0 <= i < |r| ==> r[i] == DecodedSpan(spans[i])
  {
    seq(|spans|, i requires 0 <= i < |spans| => DecodedSpan(spans[i]))
  }

  /** What the Telegram renderer prints: the subset with every content encoded. */
  function Telegram(spans: seq<Span>): string {
    Rich(EncodedSpans(spans))
  }

  method RenderTelegramHtml(spans: seq<Span>) returns (out: string)
    ensures out == Telegram(spans)
  {
    out := "";
    ghost var encoded := EncodedSpans(spans);
    assert encoded[0..] == encoded;
    for i := 0 to |spans|
      invariant out + Rich(encoded[i..]) == Telegram(spans)
    {
      ghost var before := out;
      var content := Encoded(spans[i].body);
      match spans[i] {
        case Text(_) => out := out + content;
        case Bold(_) => out := out + "<b>"; out := out + content; out := out + "</b>";
        case Italic(_) => out := out + "<i>"; out := out + content; out := out + "</i>";
        case Code(_) => out := out + "<code>"; out := out + content; out := out + "</code>";
      }
      RichStep(encoded, i, before, out);
    }
  }

  /** No empty text and no two texts side by side. */
  predicate Joined(spans: seq<Span>) {
    && (forall i :: 0 <= i < |spans| && spans[i].Text? ==> spans[i].body != [])
    && (forall i :: 0 < i < |spans| ==> !(spans[i - 1].Text? && spans[i].Text?))
  }

  lemma {:induction false} ReadableIsJoined(spans: seq<Span>)
    requires Readable(spans)
    ensures Joined(spans)
  {
    if spans != [] {
      var tail := spans[1..];
      ReadableIsJoined(tail);
      assert spans == [spans[0]] + tail;
      forall i | 0 < i < |spans| ensures !(spans[i - 1].Text? && spans[i].Text?) {
        assert i > 1 ==> !(tail[i - 2].Text? && tail[i - 1].Text?);
      }
    }
  }

  /** Contents without `<` spell no tag. */
  lemma {:induction false} AngleFreeIsReadable(spans: seq<Span>)
    requires Joined(spans)
    requires forall i :: 0 <= i < |spans| ==> '<' !in spans[i].body
    ensures Readable(spans)
  {
    if spans != [] {
      var tail := spans[1..];
      forall i | 0 < i < |tail| ensures !(tail[i - 1].Text? && tail[i].Text?) {
        assert !(spans[i].Text? && spans[i + 1].Text?);
      }
      AngleFreeIsReadable(tail);
      AngleFreeSpellsNothing(spans[0].body, Rich(tail));
      hide SpellsTag, Contains, Open, Close;
    }
  }

  lemma AngleFreeSpellsNothing(t: string, tail: string)
    requires '<' !in t
    ensures forall j: nat, kind :: !SpellsTag(t, j, tail, kind)
    ensures forall kind :: !Contains(t, Close(kind))
  {
    forall j: nat, kind ensures !At(t, Open(kind), j) && !At(t, Close(kind), j) {
      AtMeans(t, Open(kind), j);
      AtMeans(t, Close(kind), j);
      TagsSelfDelimiting(kind);
    }
  }

  lemma {:induction false} NonEmptyCodes(text: string)
    ensures Encoded(text) == [] <==> text == []
    ensures Decoded(text) == [] <==> text == []
  {
  }

  lemma EncodedKeepsShape(spans: seq<Span>)
    ensures Joined(EncodedSpans(spans)) <==> Joined(spans)
    ensures Joined(DecodedSpans(spans)) <==> Joined(spans)
    ensures DecodedSpans(EncodedSpans(spans)) == spans
  {
    hide Encoded, Decoded;
    forall i | 0 <= i < |spans|
      ensures DecodedSpan(EncodedSpan(spans[i])) == spans[i]
    {
      EscapeIsLossless(spans[i].body);
    }
    forall i | 0 <= i < |spans|
      ensures EncodedSpan(spans[i]).body == [] <==> spans[i].body == []
      ensures DecodedSpan(spans[i]).body == [] <==> spans[i].body == []
    {
      NonEmptyCodes(spans[i].body);
    }
    var e, d := EncodedSpans(spans), DecodedSpans(spans);
    forall i | 0 <= i < |spans|
      ensures (e[i].Text? <==> spans[i].Text?) && (d[i].Text? <==> spans[i].Text?)
    {
    }
    SameShape(e, spans);
    SameShape(d, spans);
  }

  lemma SameShape(a: seq<Span>, b: seq<Span>)
    requires |a| == |b|
    requires forall i :: 0 <= i < |a| ==> (a[i].Text? <==> b[i].Text?) && (a[i].body == [] <==> b[i].body == [])
    ensures Joined(a) <==> Joined(b)
  {
  }

  /**
   Reading the Telegram HTML gives the tree with its contents encoded, and decoding those
   gives the tree back, whatever characters it holds: exactly when its texts are joined.
   */
  lemma TelegramIsLossless(spans: seq<Span>)
    ensures Joined(spans) ==> Parsing(Telegram(spans)) == EncodedSpans(spans)
    ensures DecodedSpans(Parsing(Telegram(spans))) == spans <==> Joined(spans)
  {
    var e := EncodedSpans(spans);
    EncodedKeepsShape(spans);
    if Joined(spans) {
      forall i | 0 <= i < |e| ensures '<' !in e[i].body { NoAngles(spans[i].body); }
      AngleFreeIsReadable(e);
      ParseAfterRender(e);
    }
    var read := Parsing(Telegram(spans));
    ParseIsReadable(Telegram(spans));
    ReadableIsJoined(read);
    EncodedKeepsShape(read);
  }

  // ---- Slack and WhatsApp ---------------------------------------------------------------

  function Mark(span: Span): string {
    match span case Text(_) => "" case Bold(_) => "*" case Italic(_) => "_" case Code(_) => "`"
  }

  function WhatsApp(spans: seq<Span>): string {
    if spans == [] then []
    else Mark(spans[0]) + spans[0].body + Mark(spans[0]) + WhatsApp(spans[1..])
  }

  function Slack(spans: seq<Span>): string {
    if spans == [] then []
    else Mark(spans[0]) + Encoded(spans[0].body) + Mark(spans[0]) + Slack(spans[1..])
  }

  method RenderSlackMrkdwn(spans: seq<Span>) returns (out: string)
    ensures out == Slack(spans)
  {
    hide Encoded, Slack;
    out := "";
    assert spans[0..] == spans && "" + Slack(spans) == Slack(spans);
    for i := 0 to |spans|
      invariant out + Slack(spans[i..]) == Slack(spans)
    {
      ghost var before := out;
      var content := EscapeSlack(spans[i].body);
      match spans[i] {
        case Text(_) => out := out + content;
        case Bold(_) => out := out + "*"; out := out + content; out := out + "*";
        case Italic(_) => out := out + "_"; out := out + content; out := out + "_";
        case Code(_) => out := out + "`"; out := out + content; out := out + "`";
      }
      SlackStep(spans, i, before, out);
    }
    assert spans[|spans|..] == [] && out + Slack([]) == out by { SlackOfNone(); }
  }

  lemma SlackOfNone()
    ensures Slack([]) == []
  {
  }

  method RenderWhatsAppText(spans: seq<Span>) returns (out: string)
    ensures out == WhatsApp(spans)
  {
    hide WhatsApp;
    out := "";
    assert spans[0..] == spans && "" + WhatsApp(spans) == WhatsApp(spans);
    for i := 0 to |spans|
      invariant out + WhatsApp(spans[i..]) == WhatsApp(spans)
    {
      ghost var before := out;
      match spans[i] {
        case Text(t) => out := out + t;
        case Bold(t) => out := out + "*"; out := out + t; out := out + "*";
        case Italic(t) => out := out + "_"; out := out + t; out := out + "_";
        case Code(t) => out := out + "`"; out := out + t; out := out + "`";
      }
      WhatsAppStep(spans, i, before, out);
    }
    assert spans[|spans|..] == [] && out + WhatsApp([]) == out by { WhatsAppOfNone(); }
  }

  lemma WhatsAppOfNone()
    ensures WhatsApp([]) == []
  {
  }

  lemma WhatsAppStep(spans: seq<Span>, i: nat, before: string, out: string)
    requires i < |spans|
    requires out == if spans[i].Text? then before + spans[i].body
                    else before + Mark(spans[i]) + spans[i].body + Mark(spans[i])
    ensures out + WhatsApp(spans[i + 1..]) == before + WhatsApp(spans[i..])
  {
    var m, e, tail := Mark(spans[i]), spans[i].body, WhatsApp(spans[i + 1..]);
    assert spans[i..][1..] == spans[i + 1..];
    assert WhatsApp(spans[i..]) == m + e + m + tail;
    if spans[i].Text? {
      assert m + e + m == e;
    }
    hide *;
    Reassociate(before, m + e + m, tail);
    Reassociate(before, m + e, m);
    Reassociate(before, m, e);
  }

  lemma SlackStep(spans: seq<Span>, i: nat, before: string, out: string)
    requires i < |spans|
    requires out == if spans[i].Text? then before + Encoded(spans[i].body)
                    else before + Mark(spans[i]) + Encoded(spans[i].body) + Mark(spans[i])
    ensures out + Slack(spans[i + 1..]) == before + Slack(spans[i..])
  {
    var m, e, tail := Mark(spans[i]), Encoded(spans[i].body), Slack(spans[i + 1..]);
    assert spans[i..][1..] == spans[i + 1..];
    assert Slack(spans[i..]) == m + e + m + tail;
    if spans[i].Text? {
      assert m + e + m == e;
    }
    hide *;
    Reassociate(before, m + e + m, tail);
    Reassociate(before, m + e, m);
    Reassociate(before, m, e);
  }

  lemma DecodedMark(span: Span, tail: string)
    ensures Decoded(Mark(span) + tail) == Mark(span) + Decoded(tail)
  {
    if span.Text? {
      assert Mark(span) + tail == tail;
      assert Mark(span) + Decoded(tail) == Decoded(tail);
    } else {
      DecodedEntity(Mark(span)[0], tail);
    }
  }

  /** Slack receives the text WhatsApp receives, under entities that decode to it, and no bare angle. */
  lemma {:induction false} SlackDecodesToWhatsApp(spans: seq<Span>)
    ensures Decoded(Slack(spans)) == WhatsApp(spans)
    ensures '<' !in Slack(spans) && '>' !in Slack(spans)
  {
    if spans != [] {
      var head, tail := spans[0], spans[1..];
      SlackDecodesToWhatsApp(tail);
      NoAngles(head.body);
      DecodedPiece(head, Slack(tail));
      hide Encoded, Decoded;
      assert '<' !in Mark(head) && '>' !in Mark(head);
    }
  }

  lemma DecodedPiece(span: Span, tail: string)
    ensures Decoded(Mark(span) + Encoded(span.body) + Mark(span) + tail) ==
            Mark(span) + span.body + Mark(span) + Decoded(tail)
  {
    hide *;
    var m, e := Mark(span), Encoded(span.body);
    DecodedMark(span, e + (m + tail));
    DecodeAfterEncode(span.body, m + tail);
    DecodedMark(span, tail);
    Bracketed(m, e, m, tail);
    Bracketed(m, span.body, m, Decoded(tail));
  }

  lemma Bracketed(a: string, b: string, c: string, d: string)
    ensures a + b + c + d == a + (b + (c + d))
  {
  }
}
