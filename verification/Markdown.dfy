/**
 The inline-markdown twin of the HTML subset: `parse_markdown`, `escape_markdown`
 and `render_discord_markdown` of src/rich_text.rs. The source calls the parser and
 the printer inverses "for a well-formed tree"; `Canonical` is what that has to mean.
 */
module Markdown {
  import opened Chars
  import opened RichText

  predicate Escapable(c: char) {
    c == '\\' || c == '*' || c == '_' || c == '`'
  }

  function Delim(kind: TagKind): string {
    match kind case BoldTag => "**" case ItalicTag => "*" case CodeTag => "`"
  }

  /** The delimiters in the order they are tried: `**` before `*`, which it starts with. */
  const MARKDOWN_TABLE: seq<TagKind> := [BoldTag, ItalicTag, CodeTag]

  // ---- the reader, as functions ----------------------------------------------

  /** `c` may not touch an emphasis delimiter from inside the run. */
  predicate Detaches(c: char) {
    IsWhitespace(c) || c == '*'
  }

  /** The delimiter at `i` closes a run that began at the head of `hay`. */
  predicate Closes(hay: string, kind: TagKind, i: nat) {
    var d := Delim(kind);
    && 0 < i && At(hay, d, i) && hay[i - 1] != '\\'
    && (!kind.CodeTag? ==> !Detaches(hay[i - 1]) && (i + |d| < |hay| ==> hay[i + |d|] != '*'))
  }

  /** The least closing index at or after `from`. */
  function CloserFrom(hay: string, kind: TagKind, from: nat): (r: Option<nat>)
    requires from <= |hay|
    ensures r.Some? ==>
              && from <= r.value && Closes(hay, kind, r.value)
              && forall j: nat :: from <= j < r.value ==> !Closes(hay, kind, j)
    ensures r.None? ==> forall j: nat :: from <= j ==> !Closes(hay, kind, j)
    decreases |hay| - from
  {
    if Closes(hay, kind, from) then Some(from)
    else if from < |hay| then CloserFrom(hay, kind, from + 1)
    else None
  }

  function Closer(hay: string, kind: TagKind): Option<nat> {
    CloserFrom(hay, kind, 0)
  }

  lemma CloserIsLeast(hay: string, kind: TagKind, i: nat)
    requires Closes(hay, kind, i)
    requires forall j: nat :: j < i ==> !Closes(hay, kind, j)
    ensures Closer(hay, kind) == Some(i)
  {
    hide Closes;
    var r := CloserFrom(hay, kind, 0);
    assert r.Some? && !(i < r.value);
    assert !(r.value < i);
  }

  function Unescaped(text: string): string {
    if text == [] then []
    else if EscapePair(text) then [text[1]] + Unescaped(text[2..])
    else [text[0]] + Unescaped(text[1..])
  }

  function Escaped(text: string): string {
    if text == [] then []
    else (if Escapable(text[0]) then ['\\', text[0]] else [text[0]]) + Escaped(text[1..])
  }

  function Body(kind: TagKind, raw: string): string {
    if kind.CodeTag? then raw else Unescaped(raw)
  }

  function MatchRun(rest: string, kind: TagKind): (r: Option<Parsed>)
    ensures r.Some? ==> 0 < r.value.consumed <= |rest|
  {
    var d := Delim(kind);
    if !(d <= rest) then None
    else
      var after := rest[|d|..];
      if !kind.CodeTag? && after != [] && Detaches(after[0]) then None
      else match Closer(after, kind)
           case Some(end) => Some(Parsed(Wrap(kind, Body(kind, after[..end])), |d| + end + |d|))
           case None => None
  }

  function MatchMarkdown(rest: string): (r: Option<Parsed>)
    ensures r.Some? ==> 0 < r.value.consumed <= |rest|
  {
    if MatchRun(rest, BoldTag).Some? then MatchRun(rest, BoldTag)
    else if MatchRun(rest, ItalicTag).Some? then MatchRun(rest, ItalicTag)
    else MatchRun(rest, CodeTag)
  }

  predicate EscapePair(rest: string) {
    |rest| > 1 && rest[0] == '\\' && Escapable(rest[1])
  }

  /** What is still to be emitted when `buf` is pending and `rest` unread. */
  function ScanMd(rest: string, buf: string): seq<Span>
    decreases |rest|
  {
    if rest == [] then Flush(buf)
    else if EscapePair(rest) then ScanMd(rest[2..], buf + [rest[1]])
    else if MatchMarkdown(rest).Some? then
      var p := MatchMarkdown(rest).value;
      Flush(buf) + [p.span] + ScanMd(rest[p.consumed..], [])
    else ScanMd(rest[1..], buf + [rest[0]])
  }

  function ParsingMd(input: string): seq<Span> {
    ScanMd(input, [])
  }

  function DiscordPiece(span: Span): string {
    if span.Text? then Escaped(span.body)
    else Delim(KindOf(span)) + (if span.Code? then span.body else Escaped(span.body)) + Delim(KindOf(span))
  }

  function Discord(spans: seq<Span>): string {
    if spans == [] then [] else DiscordPiece(spans[0]) + Discord(spans[1..])
  }

  // ---- the code ------------------------------------------------------------------

  /** The inner positions of a delimiter, which the search jumps over, close nothing. */
  lemma NothingSkipped(hay: string, kind: TagKind, idx: nat)
    requires At(hay, Delim(kind), idx)
    ensures forall j :: idx < j < idx + |Delim(kind)| ==> !Closes(hay, kind, j)
  {
    AtMeans(hay, Delim(kind), idx);
    assert hay[idx + 0] == Delim(kind)[0];
  }

  method FindCloser(hay: string, kind: TagKind) returns (r: Option<nat>)
    ensures r == Closer(hay, kind)
  {
    hide FindFrom, CloserFrom, IsWhitespace;
    var from: nat, d := 0, Delim(kind);
    r := FindFrom(hay, d, from);
    while r.Some?
      invariant from <= |hay|
      invariant r == FindFrom(hay, d, from)
      invariant forall j: nat :: j < from ==> !Closes(hay, kind, j)
      decreases |hay| - from
    {
      var idx := r.value;
      var escaped := idx > 0 && hay[idx - 1] == '\\';
      var notFlanking :=
        !kind.CodeTag?
        && ((idx > 0 && Detaches(hay[idx - 1])) || (idx + |d| < |hay| && hay[idx + |d|] == '*'));
      if idx > 0 && !escaped && !notFlanking {
        CloserIsLeast(hay, kind, idx);
        return;
      }
      NothingSkipped(hay, kind, idx);
      assert !Closes(hay, kind, idx);
      from := idx + |d|;
      r := FindFrom(hay, d, from);
    }
  }

  method UnescapeMarkdown(text: string) returns (out: string)
    ensures out == Unescaped(text)
  {
    assert Unescaped([]) == [] && text[0..] == text;
    hide Escapable, Escaped, Unescaped;
    out := [];
    var i := 0;
    while i < |text|
      invariant i <= |text|
      invariant out + Unescaped(text[i..]) == Unescaped(text)
    {
      if text[i] == '\\' && i + 1 < |text| && Escapable(text[i + 1]) {
        UnescapedPair(text, i);
        Reassociate(out, [text[i + 1]], Unescaped(text[i + 2..]));
        out := out + [text[i + 1]];
        i := i + 2;
      } else {
        UnescapedPlain(text, i);
        Reassociate(out, [text[i]], Unescaped(text[i + 1..]));
        out := out + [text[i]];
        i := i + 1;
      }
    }
    assert text[|text|..] == [] && out + [] == out;
  }

  lemma UnescapedPair(text: string, i: nat)
    requires i + 1 < |text| && text[i] == '\\' && Escapable(text[i + 1])
    ensures Unescaped(text[i..]) == [text[i + 1]] + Unescaped(text[i + 2..])
  {
    assert text[i..][2..] == text[i + 2..];
  }

  lemma UnescapedPlain(text: string, i: nat)
    requires i < |text| && !(i + 1 < |text| && text[i] == '\\' && Escapable(text[i + 1]))
    ensures Unescaped(text[i..]) == [text[i]] + Unescaped(text[i + 1..])
  {
    assert text[i..][1..] == text[i + 1..];
  }

  method EscapeMarkdown(text: string) returns (out: string)
    ensures out == Escaped(text)
  {
    assert Escaped([]) == [] && text[0..] == text;
    hide Escapable, Escaped, Unescaped;
    out := [];
    for i := 0 to |text|
      invariant out + Escaped(text[i..]) == Escaped(text)
    {
      EscapedStep(text, i);
      ghost var before := out;
      if Escapable(text[i]) {
        out := out + ['\\'];
      }
      out := out + [text[i]];
      assert out == before + EscapedChar(text[i]);
      Reassociate(before, EscapedChar(text[i]), Escaped(text[i + 1..]));
    }
    assert text[|text|..] == [] && out + [] == out;
  }

  function EscapedChar(c: char): string {
    if Escapable(c) then ['\\', c] else [c]
  }

  lemma EscapedStep(text: string, i: nat)
    requires i < |text|
    ensures Escaped(text[i..]) == EscapedChar(text[i]) + Escaped(text[i + 1..])
  {
    assert text[i..][1..] == text[i + 1..];
  }

  method TryMatchMarkdown(rest: string) returns (r: Option<Parsed>)
    ensures r == MatchMarkdown(rest)
  {
    hide CloserFrom, Delim, Wrap, Unescaped, Detaches;
    assert MARKDOWN_TABLE[0] == BoldTag && MARKDOWN_TABLE[1] == ItalicTag && MARKDOWN_TABLE[2] == CodeTag;
    for k := 0 to |MARKDOWN_TABLE|
      invariant forall j :: 0 <= j < k ==> MatchRun(rest, MARKDOWN_TABLE[j]).None?
    {
      var kind := MARKDOWN_TABLE[k];
      var d := Delim(kind);
      if d <= rest {
        var after := rest[|d|..];
        if kind.CodeTag? || after == [] || !Detaches(after[0]) {
          var end := FindCloser(after, kind);
          if end.Some? {
            var body := after[..end.value];
            if !kind.CodeTag? {
              body := UnescapeMarkdown(body);
            }
            assert MatchRun(rest, kind).Some?;
            return Some(Parsed(Wrap(kind, body), |d| + end.value + |d|));
          }
        }
      }
    }
    r := None;
  }

  method ParseMarkdown(input: string) returns (spans: seq<Span>)
    ensures spans == ParsingMd(input)
  {
    hide MatchMarkdown;
    spans := [];
    var buf, rest := [], input;
    while rest != []
      invariant spans + ScanMd(rest, buf) == ParsingMd(input)
      decreases |rest|
    {
      if rest[0] == '\\' && |rest| > 1 && Escapable(rest[1]) {
        buf := buf + [rest[1]];
        rest := rest[2..];
        continue;
      }
      var parsed := TryMatchMarkdown(rest);
      if parsed.Some? {
        Spliced(spans, Flush(buf), parsed.value.span, ScanMd(rest[parsed.value.consumed..], []));
        if buf != [] {
          spans := spans + [Text(buf)];
          buf := [];
        }
        spans := spans + [parsed.value.span];
        rest := rest[parsed.value.consumed..];
        continue;
      }
      buf := buf + [rest[0]];
      rest := rest[1..];
    }
    if buf != [] {
      spans := spans + [Text(buf)];
    }
  }

  method RenderDiscordMarkdown(spans: seq<Span>) returns (out: string)
    ensures out == Discord(spans)
  {
    out := "";
    for i := 0 to |spans|
      invariant out + Discord(spans[i..]) == Discord(spans)
    {
      ghost var before := out;
      var piece := spans[i].body;
      if !spans[i].Code? {
        piece := EscapeMarkdown(piece);
      }
      match spans[i] {
        case Text(_) => out := out + piece;
        case Bold(_) => out := out + "**"; out := out + piece; out := out + "**";
        case Italic(_) => out := out + "*"; out := out + piece; out := out + "*";
        case Code(_) => out := out + "`"; out := out + piece; out := out + "`";
      }
      DiscordStep(spans, i, piece, before, out);
    }
  }

  lemma DiscordStep(spans: seq<Span>, i: nat, piece: string, before: string, out: string)
    requires i < |spans|
    requires piece == if spans[i].Code? then spans[i].body else Escaped(spans[i].body)
    requires if spans[i].Text? then out == before + piece
             else out == before + Delim(KindOf(spans[i])) + piece + Delim(KindOf(spans[i]))
    ensures out + Discord(spans[i + 1..]) == before + Discord(spans[i..])
  {
    hide Escaped, Delim;
    assert spans[i..][1..] == spans[i + 1..];
    assert out == before + DiscordPiece(spans[i]);
  }

  // ---- well-formed trees ----------------------------------------------------------

  predicate Emphasis(span: Span) {
    span.Bold? || span.Italic?
  }

  /** A body `**` and `*` can touch on both sides. */
  predicate EmphasisBody(b: string) {
    && b != []
    && !IsWhitespace(b[0])
    && !Detaches(b[|b| - 1]) && b[|b| - 1] != '\\'
  }

  /** A body whose every backtick is shielded from closing the run. */
  predicate CodeBody(b: string) {
    && b != []
    && b[|b| - 1] != '\\'
    && forall i :: 0 < i < |b| && b[i] == '`' ==> b[i - 1] == '\\'
  }

  predicate CanonicalSpan(span: Span) {
    match span
    case Text(t) => t != []
    case Code(t) => CodeBody(t)
    case emphasis => EmphasisBody(span.body)
  }

  predicate MayFollow(a: Span, b: Span) {
    !(a.Text? && b.Text?) && !(Emphasis(a) && Emphasis(b))
  }

  /** The trees `parse_markdown` builds. */
  predicate Canonical(spans: seq<Span>) {
    && (forall i :: 0 <= i < |spans| ==> CanonicalSpan(spans[i]))
    && (forall i :: 0 < i < |spans| ==> MayFollow(spans[i - 1], spans[i]))
  }

  // ---- escaping ---------------------------------------------------------------------

  lemma {:induction false} UnescapeOfEscape(t: string)
    ensures Unescaped(Escaped(t)) == t
  {
    if t != [] {
      UnescapeOfEscape(t[1..]);
      var tail := Escaped(t[1..]);
      var e := Escaped(t);
      assert e[|e| - |tail|..] == tail;
    }
  }

  /** What escaping leaves of a body: no bare asterisk, and the two ends. */
  lemma {:induction false} EscapedShape(t: string)
    requires t != []
    ensures var e := Escaped(t);
            && e != [] && e[|e| - 1] == t[|t| - 1]
            && e[0] == (if Escapable(t[0]) then '\\' else t[0])
            && forall j :: 0 <= j < |e| && e[j] == '*' ==> 0 < j && e[j - 1] == '\\'
  {
    if |t| > 1 {
      EscapedShape(t[1..]);
    }
    var head := if Escapable(t[0]) then ['\\', t[0]] else [t[0]];
    var tail := Escaped(t[1..]);
    var e := Escaped(t);
    assert e == head + tail;
    forall j | 0 <= j < |e| && e[j] == '*' ensures 0 < j && e[j - 1] == '\\' {
      if j >= |head| { assert tail[j - |head|] == '*'; }
    }
  }

  /** The ends of an emphasis body survive unescaping. */
  lemma {:induction false} UnescapedShape(raw: string)
    requires raw != [] && raw[|raw| - 1] != '\\'
    ensures var u := Unescaped(raw);
            && u != [] && u[|u| - 1] == raw[|raw| - 1]
            && (u[0] == raw[0] || Escapable(u[0]))
    decreases |raw|
  {
    if EscapePair(raw) {
      if |raw| > 2 { UnescapedShape(raw[2..]); }
    } else if |raw| > 1 {
      UnescapedShape(raw[1..]);
    }
  }

  // ---- reading back what was printed ------------------------------------------------

  lemma ScanPair(c: char, next: string, buf: string)
    requires Escapable(c)
    ensures ScanMd(['\\', c] + next, buf) == ScanMd(next, buf + [c])
  {
    assert (['\\', c] + next)[2..] == next;
  }

  lemma ScanChar(c: char, next: string, buf: string)
    requires !Escapable(c)
    ensures ScanMd([c] + next, buf) == ScanMd(next, buf + [c])
  {
    NothingOpens([c] + next);
    hide MatchMarkdown;
    assert ([c] + next)[1..] == next;
  }

  lemma {:induction false} ScanEscaped(t: string, tail: string, buf: string)
    ensures ScanMd(Escaped(t) + tail, buf) == ScanMd(tail, buf + t)
    decreases |t|
  {
    hide ScanMd, Escapable;
    if t == [] {
      assert Escaped(t) + tail == tail && buf + t == buf;
    } else {
      var next := Escaped(t[1..]) + tail;
      ScanEscaped(t[1..], tail, buf + [t[0]]);
      assert (buf + [t[0]]) + t[1..] == buf + t;
      if Escapable(t[0]) {
        assert Escaped(t) + tail == ['\\', t[0]] + next;
        ScanPair(t[0], next, buf);
      } else {
        assert Escaped(t) + tail == [t[0]] + next;
        ScanChar(t[0], next, buf);
      }
    }
  }

  lemma NothingOpens(rest: string)
    requires rest != [] && rest[0] != '*' && rest[0] != '`'
    ensures MatchMarkdown(rest).None?
  {
    forall kind ensures MatchRun(rest, kind).None? {
      assert Delim(kind)[0] == '*' || Delim(kind)[0] == '`';
    }
  }

  lemma EmphasisCloses(b: string, tail: string, kind: TagKind)
    requires EmphasisBody(b) && !kind.CodeTag? && (tail != [] ==> tail[0] != '*')
    ensures Closer(Escaped(b) + Delim(kind) + tail, kind) == Some(|Escaped(b)|)
  {
    EscapedShape(b);
    var e, d := Escaped(b), Delim(kind);
    var hay := e + d + tail;
    assert hay[|e|..|e| + |d|] == d;
    assert Closes(hay, kind, |e|);
    forall j: nat | j < |e| ensures !Closes(hay, kind, j) {
      assert hay[j] == e[j];
      AtMeans(hay, d, j);
      assert d[0] == '*';
    }
    CloserIsLeast(hay, kind, |e|);
  }

  lemma CodeCloses(b: string, tail: string)
    requires CodeBody(b)
    ensures Closer(b + Delim(CodeTag) + tail, CodeTag) == Some(|b|)
  {
    var d := Delim(CodeTag);
    var hay := b + d + tail;
    assert hay[|b|..|b| + |d|] == d;
    forall j: nat | j < |b| ensures !Closes(hay, CodeTag, j) {
      AtMeans(hay, d, j);
      assert hay[j] == b[j];
    }
    CloserIsLeast(hay, CodeTag, |b|);
  }

  lemma MatchOfPiece(span: Span, tail: string)
    requires !span.Text? && CanonicalSpan(span)
    requires Emphasis(span) && tail != [] ==> tail[0] != '*'
    ensures MatchRun(DiscordPiece(span) + tail, KindOf(span)) == Some(Parsed(span, |DiscordPiece(span)|))
  {
    var kind, b := KindOf(span), span.body;
    var raw := if span.Code? then b else Escaped(b);
    if span.Code? {
      CodeCloses(b, tail);
    } else {
      EscapedShape(b);
      EmphasisCloses(b, tail, kind);
      UnescapeOfEscape(b);
    }
    assert raw != [] && (!span.Code? ==> !Detaches(raw[0])) && Body(kind, raw) == b;
    assert Wrap(kind, b) == span;
    DelimitedMatches(raw, tail, kind);
  }

  lemma DelimitedMatches(raw: string, tail: string, kind: TagKind)
    requires raw != [] && (!kind.CodeTag? ==> !Detaches(raw[0]))
    requires Closer(raw + Delim(kind) + tail, kind) == Some(|raw|)
    ensures var piece := Delim(kind) + raw + Delim(kind);
            MatchRun(piece + tail, kind) == Some(Parsed(Wrap(kind, Body(kind, raw)), |piece|))
  {
    hide Delim, Closer, Detaches, Wrap, Body;
    Sandwich(Delim(kind), raw, Delim(kind), tail);
    assert (raw + Delim(kind) + tail)[0] == raw[0];
  }

  /** Only one delimiter opens at the head of a printed span. */
  lemma MatchIsUnique(rest: string, kind: TagKind)
    requires MatchRun(rest, kind).Some?
    ensures MatchMarkdown(rest) == MatchRun(rest, kind)
  {
    hide CloserFrom, Wrap, Body;
    assert MatchRun(rest, BoldTag).Some? ==> rest[1] == '*' && rest[1..][0] == '*';
  }

  lemma ScanPiece(span: Span, tail: string, buf: string)
    requires !span.Text? && CanonicalSpan(span)
    requires Emphasis(span) && tail != [] ==> tail[0] != '*'
    ensures ScanMd(DiscordPiece(span) + tail, buf) == Flush(buf) + [span] + ScanMd(tail, [])
  {
    var rest := DiscordPiece(span) + tail;
    MatchOfPiece(span, tail);
    MatchIsUnique(rest, KindOf(span));
    assert rest[0] == Delim(KindOf(span))[0];
    assert rest[|DiscordPiece(span)|..] == tail;
    hide MatchMarkdown, DiscordPiece;
  }

  lemma CanonicalTail(spans: seq<Span>)
    requires Canonical(spans) && spans != []
    ensures Canonical(spans[1..]) && CanonicalSpan(spans[0]) && (|spans| > 1 ==> MayFollow(spans[0], spans[1]))
  {
    hide CanonicalSpan, MayFollow;
    var tail := spans[1..];
    forall i | 0 < i < |tail| ensures MayFollow(tail[i - 1], tail[i]) {
      assert MayFollow(spans[i], spans[i + 1]);
    }
  }

  /** What follows an emphasis in print does not start with an asterisk. */
  lemma PrintedHead(spans: seq<Span>)
    requires Canonical(spans) && (spans != [] ==> !Emphasis(spans[0]))
    ensures Discord(spans) != [] ==> Discord(spans)[0] != '*'
  {
    if spans != [] {
      assert CanonicalSpan(spans[0]);
      if spans[0].Text? { EscapedShape(spans[0].body); }
    }
  }

  lemma {:induction false} ParseOfCanonical(spans: seq<Span>)
    requires Canonical(spans)
    ensures ParsingMd(Discord(spans)) == spans
  {
    if spans != [] {
      CanonicalTail(spans);
      var head, tail := spans[0], spans[1..];
      ParseOfCanonical(tail);
      assert spans == [head] + tail;
      if !head.Text? {
        if Emphasis(head) { PrintedHead(tail); }
        ScanPiece(head, Discord(tail), []);
      } else {
        ScanEscaped(head.body, Discord(tail), []);
        assert [] + head.body == head.body;
        if tail != [] {
          CanonicalTail(tail);
          if Emphasis(tail[0]) { PrintedHead(tail[1..]); }
          ScanPiece(tail[0], Discord(tail[1..]), head.body);
          ScanPiece(tail[0], Discord(tail[1..]), []);
        }
      }
    }
  }

  // ---- everything the parser builds is canonical ---------------------------------------

  lemma CodeBeforeCloser(hay: string, end: nat)
    requires Closer(hay, CodeTag) == Some(end)
    ensures end < |hay| && CodeBody(hay[..end])
  {
    var raw := hay[..end];
    forall i | 0 < i < |raw| && raw[i] == '`' ensures raw[i - 1] == '\\' {
      assert !Closes(hay, CodeTag, i);
      assert hay[i..i + 1] == [hay[i]];
    }
  }

  lemma EmphasisBeforeCloser(hay: string, end: nat, kind: TagKind)
    requires !kind.CodeTag? && Closer(hay, kind) == Some(end) && !Detaches(hay[0])
    ensures end < |hay| && EmphasisBody(Unescaped(hay[..end]))
  {
    assert Closes(hay, kind, end);
    UnescapedShape(hay[..end]);
  }

  lemma MatchIsCanonical(rest: string, kind: TagKind)
    requires MatchRun(rest, kind).Some?
    ensures var p := MatchRun(rest, kind).value;
            && CanonicalSpan(p.span) && !p.span.Text? && KindOf(p.span) == kind && rest[0] == Delim(kind)[0]
            && (Emphasis(p.span) && p.consumed < |rest| ==> rest[p.consumed] != '*')
  {
    var d := Delim(kind);
    var after := rest[|d|..];
    var end := Closer(after, kind).value;
    assert Closes(after, kind, end);
    if kind.CodeTag? {
      CodeBeforeCloser(after, end);
    } else {
      EmphasisBeforeCloser(after, end, kind);
    }
    hide Unescaped, EmphasisBody, CodeBody, Detaches;
  }

  lemma MatchMarkdownIsCanonical(rest: string)
    requires MatchMarkdown(rest).Some?
    ensures var p := MatchMarkdown(rest).value;
            && CanonicalSpan(p.span) && !p.span.Text? && (Emphasis(p.span) ==> rest[0] == '*')
            && (Emphasis(p.span) && p.consumed < |rest| ==> rest[p.consumed] != '*')
  {
    hide MatchRun, CanonicalSpan;
    forall kind | MatchRun(rest, kind).Some?
      ensures var p := MatchRun(rest, kind).value;
              && CanonicalSpan(p.span) && !p.span.Text? && (Emphasis(p.span) ==> rest[0] == '*')
              && (Emphasis(p.span) && p.consumed < |rest| ==> rest[p.consumed] != '*')
    {
      MatchIsCanonical(rest, kind);
    }
  }

  lemma CanonicalFlush(buf: string, spans: seq<Span>)
    requires Canonical(spans) && (spans != [] ==> !spans[0].Text?)
    ensures Canonical(Flush(buf) + spans)
  {
    if buf == [] { assert Flush(buf) + spans == spans; }
  }

  lemma CanonicalCons(span: Span, tail: seq<Span>)
    requires CanonicalSpan(span) && !span.Text? && Canonical(tail)
    requires Emphasis(span) && tail != [] ==> !Emphasis(tail[0])
    ensures Canonical([span] + tail)
  {
    hide CanonicalSpan;
    var spans := [span] + tail;
    forall i | 0 < i < |spans| ensures MayFollow(spans[i - 1], spans[i]) {
      assert i > 1 ==> MayFollow(tail[i - 2], tail[i - 1]);
    }
  }

  lemma {:induction false} ScanIsCanonical(rest: string, buf: string)
    ensures var spans := ScanMd(rest, buf);
            && Canonical(spans)
            && (buf != [] ==> spans != [] && spans[0].Text?)
            && (spans != [] && Emphasis(spans[0]) ==> rest != [] && rest[0] == '*')
    decreases |rest|
  {
    hide MatchMarkdown, CanonicalSpan, MayFollow, Escapable;
    if rest == [] {
      CanonicalFlush(buf, []);
      assert Flush(buf) + [] == Flush(buf);
    } else if EscapePair(rest) {
      ScanIsCanonical(rest[2..], buf + [rest[1]]);
    } else if MatchMarkdown(rest).Some? {
      var p := MatchMarkdown(rest).value;
      MatchMarkdownIsCanonical(rest);
      var tail := ScanMd(rest[p.consumed..], []);
      ScanIsCanonical(rest[p.consumed..], []);
      hide ScanMd, Canonical;
      CanonicalCons(p.span, tail);
      CanonicalFlush(buf, [p.span] + tail);
      assert Flush(buf) + [p.span] + tail == Flush(buf) + ([p.span] + tail);
    } else {
      ScanIsCanonical(rest[1..], buf + [rest[0]]);
    }
  }

  // ---- the laws ---------------------------------------------------------------------------

  /** Every output of `parse_markdown` is canonical. */
  lemma ParseIsCanonical(input: string)
    ensures Canonical(ParsingMd(input))
  {
    ScanIsCanonical(input, []);
  }

  /** Printing for Discord and parsing back is the identity on exactly the canonical trees. */
  lemma ParseAfterDiscord(spans: seq<Span>)
    ensures ParsingMd(Discord(spans)) == spans <==> Canonical(spans)
  {
    if Canonical(spans) { ParseOfCanonical(spans); }
    ParseIsCanonical(Discord(spans));
  }

  /** Print-then-parse is a normal form: once parsed, a tree survives any number of round trips. */
  lemma NormalForm(input: string)
    ensures ParsingMd(Discord(ParsingMd(input))) == ParsingMd(input)
  {
    ParseIsCanonical(input);
    ParseOfCanonical(ParsingMd(input));
  }

  /** Escaped free text reads back as itself and nothing else, whatever it holds. */
  lemma EscapedTextIsText(text: string)
    ensures ParsingMd(Escaped(text)) == Flush(text)
  {
    ScanEscaped(text, [], []);
    assert Escaped(text) + [] == Escaped(text) && [] + text == text;
  }

  /**
   The documented use `**{name}**` with an escaped name gives back one bold span exactly
   when the name neither starts nor ends with white space and does not end in `*` or `\`.
   */
  lemma EscapedNameInBold(name: string)
    ensures ParsingMd("**" + Escaped(name) + "**") == [Bold(name)] <==> EmphasisBody(name)
  {
    ParseAfterDiscord([Bold(name)]);
    assert [Bold(name)][1..] == [];
    assert DiscordPiece(Bold(name)) + [] == DiscordPiece(Bold(name));
    assert Canonical([Bold(name)]) <==> CanonicalSpan([Bold(name)][0]);
  }
}
