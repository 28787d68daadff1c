/**
 The span tree and its HTML-subset dialect: `parse` and `render_rich_text`
 of src/rich_text.rs, and when the two are inverse.
 */
module RichText {
  import opened Chars

  datatype Span = Text(body: string) | Bold(body: string) | Italic(body: string) | Code(body: string)

  datatype TagKind = BoldTag | ItalicTag | CodeTag

  function Open(kind: TagKind): string {
    match kind case BoldTag => "<b>" case ItalicTag => "<i>" case CodeTag => "<code>"
  }

  function Close(kind: TagKind): string {
    match kind case BoldTag => "</b>" case ItalicTag => "</i>" case CodeTag => "</code>"
  }

  function Wrap(kind: TagKind, body: string): Span {
    match kind case BoldTag => Bold(body) case ItalicTag => Italic(body) case CodeTag => Code(body)
  }

  function KindOf(span: Span): TagKind
    requires !span.Text?
  {
    match span case Bold(_) => BoldTag case Italic(_) => ItalicTag case Code(_) => CodeTag
  }

  const TAG_TABLE: seq<TagKind> := [BoldTag, ItalicTag, CodeTag]

  // ---- the reader, as a function ---------------------------------------------

  /** A span read at the head of a string, and how many characters it took. */
  datatype Parsed = Parsed(span: Span, consumed: nat)

  /** One row of the tag table tried at the head of `rest`. */
  function MatchKind(rest: string, kind: TagKind): (r: Option<Parsed>)
    ensures r.Some? ==> 0 < r.value.consumed <= |rest|
  {
    if Open(kind) <= rest then
      var after := rest[|Open(kind)|..];
      match Find(after, Close(kind))
      case Some(end) => Some(Parsed(Wrap(kind, after[..end]), |Open(kind)| + end + |Close(kind)|))
      case None => None
    else None
  }

  function MatchTag(rest: string): (r: Option<Parsed>)
    ensures r.Some? ==> 0 < r.value.consumed <= |rest|
  {
    if MatchKind(rest, BoldTag).Some? then MatchKind(rest, BoldTag)
    else if MatchKind(rest, ItalicTag).Some? then MatchKind(rest, ItalicTag)
    else MatchKind(rest, CodeTag)
  }

  function Flush(buf: string): seq<Span> {
    if buf == [] then [] else [Text(buf)]
  }

  /** What the parser still has to emit when `buf` is the pending text and `rest` is unread. */
  function Scan(rest: string, buf: string): seq<Span>
    decreases |rest|
  {
    if rest == [] then Flush(buf)
    else if MatchTag(rest).Some? then
      var p := MatchTag(rest).value;
      Flush(buf) + [p.span] + Scan(rest[p.consumed..], [])
    else Scan(rest[1..], buf + [rest[0]])
  }

  function Parsing(input: string): seq<Span> {
    Scan(input, [])
  }

  function RichPiece(span: Span): string {
    if span.Text? then span.body else Open(KindOf(span)) + span.body + Close(KindOf(span))
  }

  function Rich(spans: seq<Span>): string {
    if spans == [] then [] else RichPiece(spans[0]) + Rich(spans[1..])
  }

  // ---- the code -----------------------------------------------------------------

  method TryMatchTag(rest: string) returns (r: Option<Parsed>)
    ensures r == MatchTag(rest)
  {
    hide FindFrom, Open, Close, Wrap;
    for k := 0 to |TAG_TABLE|
      invariant forall j :: 0 <= j < k ==> MatchKind(rest, TAG_TABLE[j]).None?
    {
      var kind := TAG_TABLE[k];
      if Open(kind) <= rest {
        var after := rest[|Open(kind)|..];
        var end := Find(after, Close(kind));
        if end.Some? {
          assert TAG_TABLE[0] == BoldTag && TAG_TABLE[1] == ItalicTag && TAG_TABLE[2] == CodeTag;
          assert MatchKind(rest, kind).Some?;
          return Some(Parsed(Wrap(kind, after[..end.value]), |Open(kind)| + end.value + |Close(kind)|));
        }
      }
    }
    assert TAG_TABLE[0] == BoldTag && TAG_TABLE[1] == ItalicTag && TAG_TABLE[2] == CodeTag;
    r := None;
  }

  lemma ScanStep(input: string, cursor: nat, buf: string)
    requires cursor < |input|
    ensures var m := MatchTag(input[cursor..]);
            Scan(input[cursor..], buf) ==
            if m.Some? then Flush(buf) + [m.value.span] + Scan(input[cursor + m.value.consumed..], [])
            else Scan(input[cursor + 1..], buf + [input[cursor]])
  {
    hide MatchTag;
    var m := MatchTag(input[cursor..]);
    if m.Some? {
      assert input[cursor..][m.value.consumed..] == input[cursor + m.value.consumed..];
    } else {
      assert input[cursor..][1..] == input[cursor + 1..];
    }
  }

  lemma TagStartsWithAngle(rest: string)
    ensures rest == [] || rest[0] != '<' ==> MatchTag(rest).None?
  {
    hide FindFrom;
  }

  lemma Spliced(a: seq<Span>, b: seq<Span>, x: Span, c: seq<Span>)
    ensures a + (b + [x] + c) == a + b + [x] + c
  {
  }

  method Parse(input: string) returns (spans: seq<Span>)
    ensures spans == Parsing(input)
  {
    hide MatchTag, FindFrom, Scan;
    spans := [];
    var buf, cursor: nat := [], 0;
    assert input[cursor..] == input && spans + Scan(input, []) == Scan(input, []);
    while cursor < |input|
      invariant cursor <= |input|
      invariant spans + Scan(input[cursor..], buf) == Parsing(input)
    {
      if input[cursor] == '<' {
        var parsed := TryMatchTag(input[cursor..]);
        if parsed.Some? {
          ScanStep(input, cursor, buf);
          Spliced(spans, Flush(buf), parsed.value.span, Scan(input[cursor + parsed.value.consumed..], []));
          if buf != [] {
            spans := spans + [Text(buf)];
            buf := [];
          }
          spans := spans + [parsed.value.span];
          cursor := cursor + parsed.value.consumed;
          continue;
        }
      }
      TagStartsWithAngle(input[cursor..]);
      ScanStep(input, cursor, buf);
      buf := buf + [input[cursor]];
      cursor := cursor + 1;
    }
    ScanEnds(input[cursor..], buf);
    if buf != [] {
      spans := spans + [Text(buf)];
    }
  }

  lemma ScanEnds(rest: string, buf: string)
    ensures rest == [] ==> Scan(rest, buf) == Flush(buf)
  {
  }

  lemma RichStep(spans: seq<Span>, i: nat, before: string, out: string)
    requires i < |spans|
    requires if spans[i].Text? then out == before + spans[i].body
             else out == before + Open(KindOf(spans[i])) + spans[i].body + Close(KindOf(spans[i]))
    ensures out + Rich(spans[i + 1..]) == before + Rich(spans[i..])
  {
    hide Open, Close;
    assert out == before + RichPiece(spans[i]);
    hide RichPiece;
    assert spans[i..] == [spans[i]] + spans[i + 1..];
    RichCons(spans[i], spans[i + 1..]);
    Reassociate(before, RichPiece(spans[i]), Rich(spans[i + 1..]));
  }

  method RenderRichText(spans: seq<Span>) returns (out: string)
    ensures out == Rich(spans)
  {
    out := "";
    for i := 0 to |spans|
      invariant out + Rich(spans[i..]) == Rich(spans)
    {
      ghost var before := out;
      match spans[i] {
        case Text(t) => out := out + t;
        case Bold(t) => out := out + "<b>"; out := out + t; out := out + "</b>";
        case Italic(t) => out := out + "<i>"; out := out + t; out := out + "</i>";
        case Code(t) => out := out + "<code>"; out := out + t; out := out + "</code>";
      }
      RichStep(spans, i, before, out);
    }
  }

  // ---- printing what was parsed gives the input back --------------------------

  lemma {:induction false} RichOfFlush(buf: string, spans: seq<Span>)
    ensures Rich(Flush(buf) + spans) == buf + Rich(spans)
    ensures Rich(Flush(buf)) == buf
  {
    if buf != [] {
      assert (Flush(buf) + spans)[1..] == spans;
    } else {
      assert Flush(buf) + spans == spans;
    }
  }

  lemma {:induction false} RichOfScan(rest: string, buf: string)
    ensures Rich(Scan(rest, buf)) == buf + rest
    decreases |rest|
  {
    hide MatchTag, RichPiece, Rich, Flush;
    if rest == [] {
      RichOfFlush(buf, []);
    } else if MatchTag(rest).Some? {
      var p := MatchTag(rest).value;
      RichOfScan(rest[p.consumed..], []);
      MatchIsRich(rest);
      hide Scan;
      RichOfTagged(buf, p.span, Scan(rest[p.consumed..], []), rest[p.consumed..]);
    } else {
      RichOfScan(rest[1..], buf + [rest[0]]);
      assert buf + [rest[0]] + rest[1..] == buf + rest;
    }
  }

  lemma RichOfTagged(buf: string, span: Span, tail: seq<Span>, text: string)
    requires Rich(tail) == [] + text
    ensures Rich(Flush(buf) + [span] + tail) == buf + (RichPiece(span) + text)
  {
    hide *;
    assert Flush(buf) + [span] + tail == Flush(buf) + ([span] + tail) && [] + text == text;
    RichOfFlush(buf, [span] + tail);
    RichCons(span, tail);
  }

  lemma RichOne(span: Span)
    ensures Rich([span]) == RichPiece(span)
  {
    assert [span][1..] == [] && RichPiece(span) + [] == RichPiece(span);
  }

  lemma RichCons(span: Span, tail: seq<Span>)
    ensures Rich([span] + tail) == RichPiece(span) + Rich(tail)
  {
    assert ([span] + tail)[1..] == tail;
  }

  lemma MatchKindIsRich(rest: string, kind: TagKind)
    requires MatchKind(rest, kind).Some?
    ensures var p := MatchKind(rest, kind).value;
            !p.span.Text? && KindOf(p.span) == kind && rest == RichPiece(p.span) + rest[p.consumed..]
  {
    hide Open, Close, FindFrom;
    var o, c, p := Open(kind), Close(kind), MatchKind(rest, kind).value;
    var end := Find(rest[|o|..], c).value;
    Framed(rest, o, c, end);
  }

  lemma Framed(rest: string, o: string, c: string, end: nat)
    requires o <= rest && At(rest[|o|..], c, end)
    ensures rest == o + rest[|o|..][..end] + c + rest[|o| + end + |c|..]
  {
    var after := rest[|o|..];
    assert rest == o + after;
    assert after == after[..end] + c + after[end + |c|..];
  }

  /** A tag match takes exactly the characters its span prints. */
  lemma MatchIsRich(rest: string)
    requires MatchTag(rest).Some?
    ensures var p := MatchTag(rest).value;
            && !p.span.Text? && MatchKind(rest, KindOf(p.span)) == Some(p)
            && rest == RichPiece(p.span) + rest[p.consumed..]
  {
    hide MatchKind, RichPiece;
    forall kind | MatchKind(rest, kind).Some?
      ensures var p := MatchKind(rest, kind).value;
              !p.span.Text? && KindOf(p.span) == kind && rest == RichPiece(p.span) + rest[p.consumed..]
    {
      MatchKindIsRich(rest, kind);
    }
  }

  /** `render_rich_text` after `parse` is the identity, on every string. */
  lemma RenderAfterParse(input: string)
    ensures Rich(Parsing(input)) == input
  {
    RichOfScan(input, []);
  }

  // ---- parsing what was printed, and exactly when it gives the tree back ----

  /** `t` at `j` spells an opener whose closer comes somewhere after it in `t + tail`. */
  ghost predicate SpellsTag(t: string, j: nat, tail: string, kind: TagKind) {
    At(t, Open(kind), j) && Contains(t[j + |Open(kind)|..] + tail, Close(kind))
  }

  /** Spans no text can be misread in: what `parse` builds, and all it builds. */
  ghost predicate Readable(spans: seq<Span>) {
    spans == [] ||
    (&& Readable(spans[1..])
     && match spans[0]
        case Text(t) =>
          && t != []
          && (|spans| > 1 ==> !spans[1].Text?)
          && forall j: nat, kind :: j < |t| ==> !SpellsTag(t, j, Rich(spans[1..]), kind)
        case tagged => !Contains(tagged.body, Close(KindOf(tagged))))
  }

  lemma MatchKindIff(rest: string, kind: TagKind)
    ensures MatchKind(rest, kind).Some? <==>
            Open(kind) <= rest && Contains(rest[|Open(kind)|..], Close(kind))
  {
  }

  lemma OpenersDiffer(rest: string, k1: TagKind, k2: TagKind)
    requires Open(k1) <= rest && Open(k2) <= rest
    ensures k1 == k2
  {
    assert rest[1] == Open(k1)[1] == Open(k2)[1];
  }

  /** The rest of a list after a text starts with `<` or not at all. */
  lemma TaggedHead(spans: seq<Span>)
    requires spans != [] ==> !spans[0].Text?
    ensures Rich(spans) != [] ==> Rich(spans)[0] == '<'
  {
  }

  lemma TagsSelfDelimiting(kind: TagKind)
    ensures SelfDelimiting(Open(kind)) && SelfDelimiting(Close(kind))
    ensures Open(kind)[0] == Close(kind)[0] == '<'
  {
  }

  /** An opener that starts inside a text ends inside it: `<` is only ever its first character. */
  lemma OpenerStaysInText(t: string, j: nat, tail: string, kind: TagKind)
    requires j < |t| && (tail != [] ==> tail[0] == '<')
    ensures Open(kind) <= t[j..] + tail <==> At(t, Open(kind), j)
  {
    TagsSelfDelimiting(kind);
    hide Open;
    NoStraddle(t, tail, Open(kind), j);
    assert (t + tail)[j..] == t[j..] + tail;
    AtIsPrefix(t + tail, Open(kind), j);
  }

  lemma NoTagInText(t: string, j: nat, tail: string)
    requires j < |t| && (tail != [] ==> tail[0] == '<')
    ensures MatchTag(t[j..] + tail).None? <==> forall kind :: !SpellsTag(t, j, tail, kind)
  {
    forall kind
      ensures MatchKind(t[j..] + tail, kind).None? <==> !SpellsTag(t, j, tail, kind)
    {
      OpenerStaysInText(t, j, tail, kind);
      MatchKindIff(t[j..] + tail, kind);
      if At(t, Open(kind), j) {
        assert (t[j..] + tail)[|Open(kind)|..] == t[j + |Open(kind)|..] + tail;
      }
    }
    forall kind ensures MatchTag(t[j..] + tail).None? ==> MatchKind(t[j..] + tail, kind).None? {}
    if forall kind :: !SpellsTag(t, j, tail, kind) {
      assert !SpellsTag(t, j, tail, BoldTag) && !SpellsTag(t, j, tail, ItalicTag) && !SpellsTag(t, j, tail, CodeTag);
    }
  }

  /** A closer is found at the end of a body that does not contain it: closers do not overlap themselves. */
  lemma CloserAtEnd(body: string, tail: string, kind: TagKind)
    requires !Contains(body, Close(kind))
    ensures Find(body + Close(kind) + tail, Close(kind)) == Some(|body|)
  {
    TagsSelfDelimiting(kind);
    hide Close;
    var c := Close(kind);
    assert body + c + tail == body + (c + tail);
    assert At(body + (c + tail), c, |body|);
    forall j: nat | j < |body|
      ensures !At(body + (c + tail), c, j)
    {
      NoStraddle(body, c + tail, c, j);
    }
    FindIsLeast(body + (c + tail), c, |body|);
  }

  lemma MatchKindOfPiece(span: Span, tail: string)
    requires !span.Text? && !Contains(span.body, Close(KindOf(span)))
    ensures MatchKind(RichPiece(span) + tail, KindOf(span)) == Some(Parsed(span, |RichPiece(span)|))
    ensures Open(KindOf(span)) <= RichPiece(span) + tail
  {
    CloserAtEnd(span.body, tail, KindOf(span));
    hide Open, Close, FindFrom;
    var o, c := Open(KindOf(span)), Close(KindOf(span));
    var rest := RichPiece(span) + tail;
    Sandwich(o, span.body, c, tail);
    assert Wrap(KindOf(span), span.body) == span;
  }

  lemma ScanTagged(span: Span, tail: string, buf: string)
    requires !span.Text? && !Contains(span.body, Close(KindOf(span)))
    ensures Scan(RichPiece(span) + tail, buf) == Flush(buf) + [span] + Scan(tail, [])
  {
    MatchKindOfPiece(span, tail);
    var rest := RichPiece(span) + tail;
    forall k | MatchKind(rest, k).Some? ensures k == KindOf(span) {
      OpenersDiffer(rest, k, KindOf(span));
    }
    hide MatchKind, RichPiece;
    assert MatchTag(rest) == Some(Parsed(span, |RichPiece(span)|));
    hide MatchTag;
    assert rest[|RichPiece(span)|..] == tail;
  }

  lemma {:induction false} ScanText(t: string, tail: string, buf: string)
    requires forall j: nat :: j < |t| ==> MatchTag(t[j..] + tail).None?
    ensures Scan(t + tail, buf) == Scan(tail, buf + t)
    decreases |t|
  {
    if t == [] {
      assert t + tail == tail && buf + t == buf;
    } else {
      assert t[0..] + tail == t + tail;
      assert (t + tail)[1..] == t[1..] + tail;
      assert (buf + [t[0]]) + t[1..] == buf + t;
      forall j: nat | j < |t[1..]| ensures MatchTag(t[1..][j..] + tail).None? {
        assert t[1..][j..] == t[j + 1..];
      }
      ScanText(t[1..], tail, buf + [t[0]]);
    }
  }

  lemma {:induction false} ParseOfReadable(spans: seq<Span>)
    requires Readable(spans)
    ensures Parsing(Rich(spans)) == spans
  {
    if spans != [] {
      var head, tail := spans[0], spans[1..];
      ParseOfReadable(tail);
      assert spans == [head] + tail;
      if head.Text? {
        var t := head.body;
        TaggedHead(tail);
        forall j: nat | j < |t| ensures MatchTag(t[j..] + Rich(tail)).None? {
          NoTagInText(t, j, Rich(tail));
        }
        ScanText(t, Rich(tail), []);
        assert [] + t == t;
        if tail != [] {
          assert tail[0] == spans[1];
          ScanTagged(tail[0], Rich(tail[1..]), t);
          ScanTagged(tail[0], Rich(tail[1..]), []);
        }
      } else {
        ScanTagged(head, Rich(tail), []);
      }
    }
  }

  lemma {:induction false} ScanIsReadable(rest: string, buf: string)
    requires forall j: nat :: j < |buf| ==> MatchTag(buf[j..] + rest).None?
    ensures Readable(Scan(rest, buf))
    decreases |rest|
  {
    hide MatchTag, RichPiece;
    if rest == [] {
      FlushIsReadable(buf, [], rest);
      assert Flush(buf) + [] == Flush(buf);
    } else if MatchTag(rest).Some? {
      var p := MatchTag(rest).value;
      ScanIsReadable(rest[p.consumed..], []);
      TaggedIsReadable(rest);
      var spans := [p.span] + Scan(rest[p.consumed..], []);
      FlushIsReadable(buf, spans, rest);
      assert Flush(buf) + [p.span] + spans[1..] == Flush(buf) + spans;
    } else {
      PushKeeps(rest, buf);
      ScanIsReadable(rest[1..], buf + [rest[0]]);
    }
  }

  lemma PushKeeps(rest: string, buf: string)
    requires rest != [] && MatchTag(rest).None?
    requires forall j: nat :: j < |buf| ==> MatchTag(buf[j..] + rest).None?
    ensures forall j: nat :: j < |buf| + 1 ==> MatchTag((buf + [rest[0]])[j..] + rest[1..]).None?
  {
    hide MatchTag;
    var buf' := buf + [rest[0]];
    forall j: nat | j < |buf'| ensures MatchTag(buf'[j..] + rest[1..]).None? {
      assert buf'[j..] + rest[1..] == if j < |buf| then buf[j..] + rest else rest;
    }
  }

  lemma ReadableCons(span: Span, tail: seq<Span>)
    requires !span.Text? && !Contains(span.body, Close(KindOf(span))) && Readable(tail)
    ensures Readable([span] + tail)
  {
    hide SpellsTag, Close, Contains;
    assert ([span] + tail)[1..] == tail;
  }

  lemma TaggedIsReadable(rest: string)
    requires MatchTag(rest).Some?
    requires Readable(Scan(rest[MatchTag(rest).value.consumed..], []))
    ensures var p := MatchTag(rest).value;
            var spans := [p.span] + Scan(rest[p.consumed..], []);
            Readable(spans) && Rich(spans) == rest && !p.span.Text?
  {
    hide *;
    MatchIsRich(rest);
    BodyHasNoCloser(rest);
    var p := MatchTag(rest).value;
    var tail := Scan(rest[p.consumed..], []);
    RichOfScan(rest[p.consumed..], []);
    RichCons(p.span, tail);
    ReadableCons(p.span, tail);
    assert [] + rest[p.consumed..] == rest[p.consumed..];
  }

  lemma FlushIsReadable(buf: string, spans: seq<Span>, rest: string)
    requires forall j: nat :: j < |buf| ==> MatchTag(buf[j..] + rest).None?
    requires Readable(spans) && (spans != [] ==> !spans[0].Text?)
    requires Rich(spans) == rest
    ensures Readable(Flush(buf) + spans)
  {
    var all := Flush(buf) + spans;
    if buf == [] {
      assert all == spans;
    } else {
      assert all[1..] == spans;
      TaggedHead(spans);
      forall j: nat, kind | j < |buf| ensures !SpellsTag(buf, j, rest, kind) {
        NoTagInText(buf, j, rest);
      }
    }
  }

  lemma BodyHasNoCloser(rest: string)
    requires MatchTag(rest).Some?
    ensures var span := MatchTag(rest).value.span;
            !span.Text? && !Contains(span.body, Close(KindOf(span)))
  {
    MatchIsRich(rest);
    var span := MatchTag(rest).value.span;
    var kind := KindOf(span);
    TagsSelfDelimiting(kind);
    hide MatchTag, Close, Open, RichPiece;
    var after := rest[|Open(kind)|..];
    var end := Find(after, Close(kind)).value;
    assert span.body == after[..end];
    forall j: nat ensures !At(span.body, Close(kind), j) {
      TakeKeepsAt(after, end, Close(kind), j);
    }
  }

  /** Every tree `parse` builds is readable, whatever the input. */
  lemma ParseIsReadable(input: string)
    ensures Readable(Parsing(input))
  {
    ScanIsReadable(input, []);
  }

  /** `parse` after `render_rich_text` gives the tree back exactly when the tree is readable. */
  lemma ParseAfterRender(spans: seq<Span>)
    ensures Parsing(Rich(spans)) == spans <==> Readable(spans)
  {
    if Readable(spans) {
      ParseOfReadable(spans);
    }
    ParseIsReadable(Rich(spans));
  }

  /** One nesting level: an inner tag is body text, its closing form included. */
  lemma InnerTagIsText(outer: string, inner: string)
    requires !Contains(outer + "<i>" + inner + "</i>", "</b>")
    ensures Parsing("<b>" + outer + "<i>" + inner + "</i>" + "</b>") == [Bold(outer + "<i>" + inner + "</i>")]
  {
    var bold := Bold(outer + "<i>" + inner + "</i>");
    ReadableCons(bold, []);
    RichOne(bold);
    assert [bold] + [] == [bold];
    ParseAfterRender([bold]);
    assert RichPiece(bold) == "<b>" + outer + "<i>" + inner + "</i>" + "</b>" by {
      Reassociate("<b>", outer, "<i>");
      Reassociate("<b>", outer + "<i>", inner);
      Reassociate("<b>", outer + "<i>" + inner, "</i>");
    }
    hide Contains, Rich, Parsing, Readable;
  }

  /** Text stays literal exactly when no opener in it finds its closer: stray and unclosed tags survive. */
  lemma LiteralExactly(input: string)
    ensures Parsing(input) == Flush(input) <==> forall j: nat, kind :: !SpellsTag(input, j, [], kind)
  {
    forall j: nat, kind | j >= |input| ensures !SpellsTag(input, j, [], kind) {}
    if input != [] {
      var one := [Text(input)];
      RichOne(Text(input));
      ParseAfterRender(one);
      assert one[1..] == [] && Rich([]) == [] && Readable([]);
      hide SpellsTag, Rich, Parsing, Contains, Open, Close, MatchTag;
      assert Readable(one) <==> forall j: nat, kind :: j < |input| ==> !SpellsTag(input, j, [], kind);
    }
  }

  // ---- plain text -------------------------------------------------------------------

  function Plain(spans: seq<Span>): string {
    if spans == [] then [] else spans[0].body + Plain(spans[1..])
  }

  method RenderPlain(spans: seq<Span>) returns (out: string)
    ensures out == Plain(spans)
  {
    out := "";
    for i := 0 to |spans|
      invariant out + Plain(spans[i..]) == Plain(spans)
    {
      assert spans[i..][1..] == spans[i + 1..];
      out := out + spans[i].body;
    }
  }

  /** How many characters the markers of a tree take. */
  function Markers(spans: seq<Span>): nat {
    if spans == [] then 0
    else (if spans[0].Text? then 0 else |Open(KindOf(spans[0]))| + |Close(KindOf(spans[0]))|) + Markers(spans[1..])
  }

  lemma {:induction false} PlainDropsMarkers(spans: seq<Span>)
    ensures |Rich(spans)| == |Plain(spans)| + Markers(spans)
    ensures Markers(spans) == 0 ==> Plain(spans) == Rich(spans) && forall span :: span in spans ==> span.Text?
  {
    hide Open, Close;
    if spans != [] {
      TagsSelfDelimiting(if spans[0].Text? then BoldTag else KindOf(spans[0]));
      PlainDropsMarkers(spans[1..]);
    }
  }

  /** Messenger's plain text is what was typed exactly when nothing in it is read as a tag. */
  lemma PlainIsVerbatimExactly(input: string)
    ensures Plain(Parsing(input)) == input <==> forall j: nat, kind :: !SpellsTag(input, j, [], kind)
  {
    var spans := Parsing(input);
    RenderAfterParse(input);
    PlainDropsMarkers(spans);
    ParseIsReadable(input);
    LiteralExactly(input);
    hide SpellsTag, Parsing, Contains;
    if spans != [] {
      RichOne(spans[0]);
      assert spans[0] in spans && (|spans| > 1 ==> spans[1] in spans);
      assert |spans| == 1 ==> spans == [spans[0]];
    }
  }
}
