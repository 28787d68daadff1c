/**
 The text operations with every tag, mark, entity and escaped character in letters. What is
 said here names no constant or table the operations share.
 */
module WrittenText {
  import opened Chars
  import opened RichText
  import opened Markdown
  import opened Escaping

  // ---- the HTML subset ---------------------------------------------------------------------

  /** The three tags are `b`, `i` and `code`, and everything else is printed as it is. */
  lemma TagsPrinted(t: string)
    ensures Rich([]) == "" && Rich([Text(t)]) == t
    ensures Rich([Bold(t)]) == "<b>" + t + "</b>"
    ensures Rich([Italic(t)]) == "<i>" + t + "</i>"
    ensures Rich([Code(t)]) == "<code>" + t + "</code>"
  {
    RichOne(Text(t));
    RichOne(Bold(t));
    RichOne(Italic(t));
    RichOne(Code(t));
  }

  lemma {:induction false} RichConcat(a: seq<Span>, b: seq<Span>)
    ensures Rich(a + b) == Rich(a) + Rich(b)
  {
    if a == [] {
      assert a + b == b;
    } else {
      assert (a + b)[1..] == a[1..] + b;
      RichConcat(a[1..], b);
      hide RichPiece;
      Reassociate(RichPiece(a[0]), Rich(a[1..]), Rich(b));
    }
  }

  /** A text between an opener and its closer is one span exactly when the closer is not in it already. */
  lemma TagsRead(t: string)
    ensures Parsing("<b>" + t + "</b>") == [Bold(t)] <==> !Contains(t, "</b>")
    ensures Parsing("<i>" + t + "</i>") == [Italic(t)] <==> !Contains(t, "</i>")
    ensures Parsing("<code>" + t + "</code>") == [Code(t)] <==> !Contains(t, "</code>")
  {
    TagsPrinted(t);
    OneReadable(Bold(t));
    OneReadable(Italic(t));
    OneReadable(Code(t));
    ParseAfterRender([Bold(t)]);
    ParseAfterRender([Italic(t)]);
    ParseAfterRender([Code(t)]);
    hide Parsing, Rich, Readable, Contains;
  }

  lemma OneReadable(span: Span)
    requires !span.Text?
    ensures Readable([span]) <==> !Contains(span.body, Close(KindOf(span)))
  {
    hide Contains, Close;
    assert [span][1..] == [] && Readable([]);
  }

  /** Where no opener is spelled there is nothing but text. */
  lemma NoOpenerIsText(t: string)
    requires !Contains(t, "<b>") && !Contains(t, "<i>") && !Contains(t, "<code>")
    ensures Parsing(t) == if t == [] then [] else [Text(t)]
  {
    LiteralExactly(t);
    forall j: nat, kind ensures !SpellsTag(t, j, [], kind) {
      assert !At(t, "<b>", j) && !At(t, "<i>", j) && !At(t, "<code>", j);
    }
  }

  /** Messenger gets the contents one behind the other. */
  lemma {:induction false} PlainWrittenOut(spans: seq<Span>, t: string)
    ensures Plain([]) == ""
    ensures Plain(spans + [Text(t)]) == Plain(spans + [Bold(t)]) == Plain(spans) + t
    ensures Plain(spans + [Italic(t)]) == Plain(spans + [Code(t)]) == Plain(spans) + t
  {
    PlainSnoc(spans, Text(t));
    PlainSnoc(spans, Bold(t));
    PlainSnoc(spans, Italic(t));
    PlainSnoc(spans, Code(t));
  }

  lemma {:induction false} PlainSnoc(spans: seq<Span>, span: Span)
    ensures Plain(spans + [span]) == Plain(spans) + span.body
  {
    if spans == [] {
      assert spans + [span] == [span] && [span][1..] == [];
    } else {
      assert (spans + [span])[1..] == spans[1..] + [span];
      PlainSnoc(spans[1..], span);
      Reassociate(spans[0].body, Plain(spans[1..]), span.body);
    }
  }

  // ---- entities ---------------------------------------------------------------------------------

  /** `&`, `<` and `>` become entities and nothing else changes, character by character. */
  lemma EntitiesWrittenOut(c: char, a: string, b: string)
    ensures Encoded([c]) == if c == '&' then "&amp;" else if c == '<' then "&lt;" else if c == '>' then "&gt;" else [c]
    ensures Encoded([]) == "" && Encoded(a + b) == Encoded(a) + Encoded(b)
  {
    assert [c][1..] == [] && Encoded([]) == [];
    EncodedConcat(a, b);
  }

  lemma {:induction false} EncodedConcat(a: string, b: string)
    ensures Encoded(a + b) == Encoded(a) + Encoded(b)
  {
    if a == [] {
      assert a + b == b;
    } else {
      assert (a + b)[1..] == a[1..] + b;
      EncodedConcat(a[1..], b);
      Reassociate(Entity(a[0]), Encoded(a[1..]), Encoded(b));
    }
  }

  /** Telegram gets the same tags round the encoded contents. */
  lemma TelegramPrinted(t: string, a: seq<Span>, b: seq<Span>)
    ensures Telegram([Text(t)]) == Encoded(t)
    ensures Telegram([Bold(t)]) == "<b>" + Encoded(t) + "</b>"
    ensures Telegram([Italic(t)]) == "<i>" + Encoded(t) + "</i>"
    ensures Telegram([Code(t)]) == "<code>" + Encoded(t) + "</code>"
    ensures Telegram([]) == "" && Telegram(a + b) == Telegram(a) + Telegram(b)
  {
    TagsPrinted(Encoded(t));
    assert EncodedSpans([Text(t)]) == [Text(Encoded(t))] && EncodedSpans([Bold(t)]) == [Bold(Encoded(t))];
    assert EncodedSpans([Italic(t)]) == [Italic(Encoded(t))] && EncodedSpans([Code(t)]) == [Code(Encoded(t))];
    assert EncodedSpans(a + b) == EncodedSpans(a) + EncodedSpans(b) && EncodedSpans([]) == [];
    RichConcat(EncodedSpans(a), EncodedSpans(b));
  }

  /** Slack's marks are one asterisk, one underscore and one backtick, round escaped contents. */
  lemma SlackPrinted(t: string, a: seq<Span>, b: seq<Span>)
    ensures Slack([Text(t)]) == Encoded(t)
    ensures Slack([Bold(t)]) == "*" + Encoded(t) + "*"
    ensures Slack([Italic(t)]) == "_" + Encoded(t) + "_"
    ensures Slack([Code(t)]) == "`" + Encoded(t) + "`"
    ensures Slack([]) == "" && Slack(a + b) == Slack(a) + Slack(b)
  {
    SlackOne(Text(t));
    SlackOne(Bold(t));
    SlackOne(Italic(t));
    SlackOne(Code(t));
    SlackConcat(a, b);
    assert "" + Encoded(t) + "" == Encoded(t);
  }

  lemma SlackOne(span: Span)
    ensures Slack([span]) == Mark(span) + Encoded(span.body) + Mark(span)
  {
    assert [span][1..] == [] && Slack([]) == [];
    hide Encoded, Mark;
    assert Mark(span) + Encoded(span.body) + Mark(span) + [] == Mark(span) + Encoded(span.body) + Mark(span);
  }

  lemma {:induction false} SlackConcat(a: seq<Span>, b: seq<Span>)
    ensures Slack(a + b) == Slack(a) + Slack(b)
  {
    hide Encoded, Mark;
    if a == [] {
      assert a + b == b;
    } else {
      assert (a + b)[1..] == a[1..] + b;
      SlackConcat(a[1..], b);
      Reassociate(Mark(a[0]) + Encoded(a[0].body) + Mark(a[0]), Slack(a[1..]), Slack(b));
    }
  }

  /** WhatsApp's are the same, round the contents as they are. */
  lemma WhatsAppPrinted(t: string, a: seq<Span>, b: seq<Span>)
    ensures WhatsApp([Text(t)]) == t
    ensures WhatsApp([Bold(t)]) == "*" + t + "*"
    ensures WhatsApp([Italic(t)]) == "_" + t + "_"
    ensures WhatsApp([Code(t)]) == "`" + t + "`"
    ensures WhatsApp([]) == "" && WhatsApp(a + b) == WhatsApp(a) + WhatsApp(b)
  {
    WhatsAppOne(Text(t));
    WhatsAppOne(Bold(t));
    WhatsAppOne(Italic(t));
    WhatsAppOne(Code(t));
    WhatsAppConcat(a, b);
    assert "" + t + "" == t;
  }

  lemma WhatsAppOne(span: Span)
    ensures WhatsApp([span]) == Mark(span) + span.body + Mark(span)
  {
    assert [span][1..] == [] && WhatsApp([]) == [];
    hide Mark;
    assert Mark(span) + span.body + Mark(span) + [] == Mark(span) + span.body + Mark(span);
  }

  lemma {:induction false} WhatsAppConcat(a: seq<Span>, b: seq<Span>)
    ensures WhatsApp(a + b) == WhatsApp(a) + WhatsApp(b)
  {
    hide Mark;
    if a == [] {
      assert a + b == b;
    } else {
      assert (a + b)[1..] == a[1..] + b;
      WhatsAppConcat(a[1..], b);
      Reassociate(Mark(a[0]) + a[0].body + Mark(a[0]), WhatsApp(a[1..]), WhatsApp(b));
    }
  }

  // ---- markdown -----------------------------------------------------------------------------------

  /** The characters markdown escapes are `\`, `*`, `_` and the backtick, and no fifth. */
  lemma EscapesWrittenOut(c: char, a: string, b: string)
    ensures Escaped([c]) == if c == '\\' || c == '*' || c == '_' || c == '`' then ['\\', c] else [c]
    ensures Escaped([]) == "" && Escaped(a + b) == Escaped(a) + Escaped(b)
  {
    assert [c][1..] == [] && Escaped([]) == [];
    EscapedConcat(a, b);
  }

  lemma {:induction false} EscapedConcat(a: string, b: string)
    ensures Escaped(a + b) == Escaped(a) + Escaped(b)
  {
    if a == [] {
      assert a + b == b;
    } else {
      hide Escapable;
      assert (a + b)[1..] == a[1..] + b;
      EscapedConcat(a[1..], b);
      Reassociate(if Escapable(a[0]) then ['\\', a[0]] else [a[0]], Escaped(a[1..]), Escaped(b));
    }
  }

  /** A backslash is dropped before exactly those four. */
  lemma UnescapesWrittenOut(c: char, rest: string)
    ensures Unescaped([]) == "" && Unescaped(['\\']) == ['\\']
    ensures c != '\\' ==> Unescaped([c] + rest) == [c] + Unescaped(rest)
    ensures Unescaped(['\\', c] + rest) ==
            if c == '\\' || c == '*' || c == '_' || c == '`' then [c] + Unescaped(rest)
            else ['\\', c] + Unescaped(rest)
  {
    var pair := ['\\', c] + rest;
    assert pair[2..] == rest && pair[1..] == [c] + rest && ([c] + rest)[1..] == rest && ['\\'][1..] == [];
    if c != '\\' && c != '*' && c != '_' && c != '`' {
      assert Unescaped(pair) == ['\\'] + Unescaped([c] + rest);
      assert ['\\', c] + Unescaped(rest) == ['\\'] + ([c] + Unescaped(rest));
    }
  }

  /** Typed after a backslash, those four are text without it, and every other character keeps it. */
  lemma BackslashWrittenOut(c: char)
    ensures ParsingMd(['\\', c]) ==
            if c == '\\' || c == '*' || c == '_' || c == '`' then [Text([c])] else [Text(['\\', c])]
  {
    if c == '\\' || c == '*' || c == '_' || c == '`' {
      EscapesWrittenOut(c, [], []);
      EscapedTextIsText([c]);
    } else {
      var s := ['\\', c];
      assert MatchMarkdown(s).None? && !EscapePair(s) && s[1..] == [c] && [c][1..] == [];
      assert MatchMarkdown([c]).None? && !EscapePair([c]);
      assert ScanMd(s, []) == ScanMd([c], [] + ['\\']) && ScanMd([c], ['\\']) == ScanMd([], ['\\'] + [c]);
      assert [] + ['\\'] == ['\\'] && ['\\'] + [c] == s;
    }
  }

  /** Discord's delimiters: two asterisks, one, and the backtick, round escaped contents but for code. */
  lemma DiscordPrinted(t: string, a: seq<Span>, b: seq<Span>)
    ensures Discord([Text(t)]) == Escaped(t)
    ensures Discord([Bold(t)]) == "**" + Escaped(t) + "**"
    ensures Discord([Italic(t)]) == "*" + Escaped(t) + "*"
    ensures Discord([Code(t)]) == "`" + t + "`"
    ensures Discord([]) == "" && Discord(a + b) == Discord(a) + Discord(b)
  {
    DiscordOne(Text(t));
    DiscordOne(Bold(t));
    DiscordOne(Italic(t));
    DiscordOne(Code(t));
    DiscordConcat(a, b);
  }

  lemma DiscordOne(span: Span)
    ensures Discord([span]) == DiscordPiece(span)
  {
    assert [span][1..] == [] && DiscordPiece(span) + [] == DiscordPiece(span);
  }

  lemma {:induction false} DiscordConcat(a: seq<Span>, b: seq<Span>)
    ensures Discord(a + b) == Discord(a) + Discord(b)
  {
    hide DiscordPiece;
    if a == [] {
      assert a + b == b;
    } else {
      assert (a + b)[1..] == a[1..] + b;
      DiscordConcat(a[1..], b);
      Reassociate(DiscordPiece(a[0]), Discord(a[1..]), Discord(b));
    }
  }

  /** When a delimited content is read back as the one run it was written as. */
  lemma RunsWrittenOut(t: string)
    ensures ParsingMd("**" + Escaped(t) + "**") == [Bold(t)] <==>
            t != [] && !IsWhitespace(t[0]) && !IsWhitespace(t[|t| - 1]) && t[|t| - 1] != '*' && t[|t| - 1] != '\\'
    ensures ParsingMd("*" + Escaped(t) + "*") == [Italic(t)] <==>
            t != [] && !IsWhitespace(t[0]) && !IsWhitespace(t[|t| - 1]) && t[|t| - 1] != '*' && t[|t| - 1] != '\\'
    ensures ParsingMd("`" + t + "`") == [Code(t)] <==>
            t != [] && t[|t| - 1] != '\\' && forall i :: 0 < i < |t| && t[i] == '`' ==> t[i - 1] == '\\'
  {
    DiscordPrinted(t, [], []);
    ParseAfterDiscord([Bold(t)]);
    ParseAfterDiscord([Italic(t)]);
    ParseAfterDiscord([Code(t)]);
    OneCanonical(Bold(t));
    OneCanonical(Italic(t));
    OneCanonical(Code(t));
    hide ParsingMd, Discord, Canonical, Escaped, IsWhitespace;
  }

  lemma OneCanonical(span: Span)
    ensures Canonical([span]) <==> CanonicalSpan(span)
  {
    hide CanonicalSpan;
    assert [span][0] == span;
  }

  // ---- nothing is lost --------------------------------------------------------------------------------

  /** `raw` is `t` with a backslash before some of its `\`, `*`, `_` and backticks. */
  ghost predicate Spells(raw: string, t: string) {
    if t == [] then raw == []
    else
      || (raw != [] && raw[0] == t[0] && Spells(raw[1..], t[1..]))
      || (|raw| > 1 && raw[0] == '\\' && raw[1] == t[0] && t[0] in "\\*_`" && Spells(raw[2..], t[1..]))
  }

  /** What was typed for a span, given what was typed for its content. */
  function Typed(span: Span, raw: string): string {
    match span
    case Text(_) => raw
    case Bold(_) => "**" + raw + "**"
    case Italic(_) => "*" + raw + "*"
    case Code(_) => "`" + raw + "`"
  }

  function TypedAll(spans: seq<Span>, raws: seq<string>): string
    requires |spans| == |raws|
  {
    if spans == [] then [] else Typed(spans[0], raws[0]) + TypedAll(spans[1..], raws[1..])
  }

  /** Contents typed as `raws` are what the spans hold: verbatim in code, and else up to backslashes. */
  ghost predicate Reads(spans: seq<Span>, raws: seq<string>) {
    && |spans| == |raws|
    && forall i :: 0 <= i < |spans| ==>
         if spans[i].Code? then raws[i] == spans[i].body else Spells(raws[i], spans[i].body)
  }

  lemma {:induction false} SpellsMore(raw: string, t: string, more: string, u: string)
    requires Spells(raw, t) && Spells(more, u)
    ensures Spells(raw + more, t + u)
    decreases |t|
  {
    if t == [] {
      assert raw + more == more && t + u == u;
    } else {
      assert (t + u)[1..] == t[1..] + u;
      if raw != [] && raw[0] == t[0] && Spells(raw[1..], t[1..]) {
        assert (raw + more)[1..] == raw[1..] + more;
        SpellsMore(raw[1..], t[1..], more, u);
      } else {
        assert (raw + more)[2..] == raw[2..] + more;
        SpellsMore(raw[2..], t[1..], more, u);
      }
    }
  }

  lemma SpellsOne(c: char)
    ensures Spells([c], [c]) && (c in "\\*_`" ==> Spells(['\\', c], [c]))
  {
    assert [c][1..] == [] && ['\\', c][2..] == [] && Spells([], []);
  }

  lemma {:induction false} UnescapedSpells(raw: string)
    ensures Spells(raw, Unescaped(raw))
    decreases |raw|
  {
    if raw != [] {
      if EscapePair(raw) {
        UnescapedSpells(raw[2..]);
        assert ([raw[1]] + Unescaped(raw[2..]))[1..] == Unescaped(raw[2..]);
      } else {
        UnescapedSpells(raw[1..]);
        assert ([raw[0]] + Unescaped(raw[1..]))[1..] == Unescaped(raw[1..]);
      }
    }
  }

  /** A run at the head of the rest, as it was typed. */
  lemma RunTyped(rest: string) returns (raw: string)
    requires MatchMarkdown(rest).Some?
    ensures var p := MatchMarkdown(rest).value;
            && rest == Typed(p.span, raw) + rest[p.consumed..] && !p.span.Text?
            && if p.span.Code? then raw == p.span.body else Spells(raw, p.span.body)
  {
    hide MatchRun, Spells;
    if MatchRun(rest, BoldTag).Some? {
      raw := KindTyped(rest, BoldTag);
    } else if MatchRun(rest, ItalicTag).Some? {
      raw := KindTyped(rest, ItalicTag);
    } else {
      raw := KindTyped(rest, CodeTag);
    }
  }

  lemma KindTyped(rest: string, kind: TagKind) returns (raw: string)
    requires MatchRun(rest, kind).Some?
    ensures var p := MatchRun(rest, kind).value;
            && rest == Typed(p.span, raw) + rest[p.consumed..] && !p.span.Text?
            && if p.span.Code? then raw == p.span.body else Spells(raw, p.span.body)
  {
    hide CloserFrom, Unescaped, Detaches, Spells;
    var d, p := Delim(kind), MatchRun(rest, kind).value;
    var after := rest[|d|..];
    raw := after[..Closer(after, kind).value];
    assert Closes(after, kind, |raw|);
    UnescapedSpells(raw);
    Framed(rest, d, d, |raw|);
  }

  lemma {:induction false} ScanReads(rest: string, buf: string, bufRaw: string) returns (raws: seq<string>)
    requires Spells(bufRaw, buf)
    ensures Reads(ScanMd(rest, buf), raws) && TypedAll(ScanMd(rest, buf), raws) == bufRaw + rest
    decreases |rest|
  {
    hide MatchMarkdown, Spells, Typed;
    if rest == [] {
      raws := FlushReads(buf, bufRaw, [], []);
      assert Flush(buf) + [] == Flush(buf) && bufRaw + [] == bufRaw;
    } else if EscapePair(rest) {
      SpellsOne(rest[1]);
      SpellsMore(bufRaw, buf, ['\\', rest[1]], [rest[1]]);
      raws := ScanReads(rest[2..], buf + [rest[1]], bufRaw + ['\\', rest[1]]);
      assert bufRaw + ['\\', rest[1]] + rest[2..] == bufRaw + rest;
    } else if MatchMarkdown(rest).Some? {
      var p := MatchMarkdown(rest).value;
      var raw := RunTyped(rest);
      SpellsNothing();
      var more := ScanReads(rest[p.consumed..], [], []);
      assert [] + rest[p.consumed..] == rest[p.consumed..];
      var tail := ScanMd(rest[p.consumed..], []);
      hide ScanMd;
      ConsReads(p.span, raw, tail, more);
      raws := FlushReads(buf, bufRaw, [p.span] + tail, [raw] + more);
      assert Flush(buf) + [p.span] + tail == Flush(buf) + ([p.span] + tail);
    } else {
      SpellsOne(rest[0]);
      SpellsMore(bufRaw, buf, [rest[0]], [rest[0]]);
      raws := ScanReads(rest[1..], buf + [rest[0]], bufRaw + [rest[0]]);
      assert bufRaw + [rest[0]] + rest[1..] == bufRaw + rest;
    }
  }

  lemma SpellsNothing()
    ensures Spells([], [])
  {
  }

  lemma ConsReads(span: Span, raw: string, spans: seq<Span>, raws: seq<string>)
    requires Reads(spans, raws) && if span.Code? then raw == span.body else Spells(raw, span.body)
    ensures Reads([span] + spans, [raw] + raws)
    ensures TypedAll([span] + spans, [raw] + raws) == Typed(span, raw) + TypedAll(spans, raws)
  {
    hide Spells;
    assert ([span] + spans)[1..] == spans && ([raw] + raws)[1..] == raws;
  }

  lemma FlushReads(buf: string, bufRaw: string, spans: seq<Span>, raws: seq<string>) returns (all: seq<string>)
    requires Reads(spans, raws) && Spells(bufRaw, buf)
    ensures Reads(Flush(buf) + spans, all)
    ensures TypedAll(Flush(buf) + spans, all) == bufRaw + TypedAll(spans, raws)
  {
    if buf == [] {
      all := raws;
      assert Flush(buf) + spans == spans && bufRaw == [];
    } else {
      all := [bufRaw] + raws;
      ConsReads(Text(buf), bufRaw, spans, raws);
    }
  }

  /**
   Nothing typed is lost or made up: the input is its spans in order, each between its
   delimiters, code as typed and the rest with backslashes before `\`, `*`, `_` and backticks only.
   */
  lemma MarkdownKeepsInput(input: string)
    ensures exists raws :: Reads(ParsingMd(input), raws) && TypedAll(ParsingMd(input), raws) == input
  {
    SpellsNothing();
    var raws := ScanReads(input, [], []);
    hide *;
    assert [] + input == input;
    ParsingIsScan(input);
  }

  lemma ParsingIsScan(input: string)
    ensures ParsingMd(input) == ScanMd(input, [])
  {
  }
}
