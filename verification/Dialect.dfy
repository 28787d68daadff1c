/**
 From markdown to the channels: a tree read from markdown, printed in the HTML
 subset and read again by a channel renderer, and the entity escaping the
 Telegram and Slack renderers apply on the way out (src/rich_text.rs).
 */
module Dialect {
  import opened Chars
  import opened RichText
  import opened Markdown

  // ---- compiling markdown to the HTML subset ------------------------------------

  /** Neither an opening nor a closing tag of the subset is spelled in `s`. */
  ghost predicate TagFree(s: string) {
    forall kind :: !Contains(s, Open(kind)) && !Contains(s, Close(kind))
  }

  predicate NoEscapable(pat: string) {
    pat != [] && forall k :: 0 <= k < |pat| ==> !Escapable(pat[k])
  }

  /** An occurrence of such a pattern stays clear of an escaped character. */
  lemma ClearOfEscaped(s: string, tail: string, pat: string, j: nat)
    requires tail != [] && Escapable(tail[0]) && NoEscapable(pat)
    ensures At(s + tail, pat, j) ==> j + |pat| <= |s| || |s| < j
  {
    hide Escapable;
    AtMeans(s + tail, pat, j);
    assert (s + tail)[j + (|s| - j)] == tail[0];
  }

  /** Dropping a backslash before an escapable character spells no new pattern without one. */
  lemma DropBackslash(s: string, tail: string, pat: string)
    requires tail != [] && Escapable(tail[0]) && NoEscapable(pat)
    requires !Contains(s + ['\\'] + tail, pat)
    ensures !Contains(s + tail, pat)
  {
    hide NoEscapable, Escapable;
    PartsContain(s, ['\\'], tail, pat);
    assert (s + tail)[..|s|] == s;
    forall j: nat ensures !At(s + tail, pat, j) {
      ClearOfEscaped(s, tail, pat, j);
      TakeKeepsAt(s + tail, |s|, pat, j);
      AtInRight(s, tail, pat, if |s| < j then j - |s| else 0);
    }
  }

  lemma UnescapedStep(raw: string)
    requires raw != []
    ensures Unescaped(raw) == if EscapePair(raw) then [raw[1]] + Unescaped(raw[2..]) else [raw[0]] + Unescaped(raw[1..])
  {
  }

  lemma {:induction false} UnescapedContains(buf: string, raw: string, pat: string)
    requires NoEscapable(pat) && !Contains(buf + raw, pat)
    ensures !Contains(buf + Unescaped(raw), pat)
    decreases |raw|
  {
    if raw != [] {
      hide Contains, NoEscapable, Escapable, Unescaped;
      UnescapedStep(raw);
      HeadTail(raw);
      Reassociate(buf, [raw[0]], raw[1..]);
      if EscapePair(raw) {
        DropBackslash(buf, raw[1..], pat);
        HeadTail(raw[1..]);
        Reassociate(buf, [raw[1]], raw[2..]);
        Reassociate(buf, [raw[1]], Unescaped(raw[2..]));
        UnescapedContains(buf + [raw[1]], raw[2..], pat);
      } else {
        Reassociate(buf, [raw[0]], Unescaped(raw[1..]));
        UnescapedContains(buf + [raw[0]], raw[1..], pat);
      }
    }
  }

  lemma MatchBodyContains(rest: string, pat: string)
    requires NoEscapable(pat) && !Contains(rest, pat) && MatchMarkdown(rest).Some?
    ensures var p := MatchMarkdown(rest).value;
            !Contains(p.span.body, pat) && !Contains(rest[p.consumed..], pat)
  {
    forall kind | MatchRun(rest, kind).Some?
      ensures var p := MatchRun(rest, kind).value;
              !Contains(p.span.body, pat) && !Contains(rest[p.consumed..], pat)
    {
      RunBodyContains(rest, kind, pat);
    }
  }

  lemma RunBodyContains(rest: string, kind: TagKind, pat: string)
    requires NoEscapable(pat) && !Contains(rest, pat) && MatchRun(rest, kind).Some?
    ensures var p := MatchRun(rest, kind).value;
            !Contains(p.span.body, pat) && !Contains(rest[p.consumed..], pat)
  {
    hide Contains, CloserFrom, Unescaped, Delim, Detaches;
    var d, p := Delim(kind), MatchRun(rest, kind).value;
    var after := rest[|d|..];
    var raw := after[..Closer(after, kind).value];
    assert rest == (d + raw) + d + rest[p.consumed..] by {
      assert Closes(after, kind, |raw|);
    }
    PartsContain(d + raw, d, rest[p.consumed..], pat);
    assert d + raw == d + raw + [];
    PartsContain(d, raw, [], pat);
    assert [] + raw == raw && [] + Unescaped(raw) == Unescaped(raw);
    UnescapedContains([], raw, pat);
  }

  lemma {:induction false} ScanContains(rest: string, buf: string, pat: string)
    requires NoEscapable(pat) && !Contains(buf + rest, pat)
    ensures forall span :: span in ScanMd(rest, buf) ==> !Contains(span.body, pat)
    decreases |rest|
  {
    hide Contains, MatchMarkdown, Escapable;
    if rest == [] {
      assert buf + rest == buf;
    } else if EscapePair(rest) {
      assert buf + rest == buf + ['\\'] + rest[1..];
      DropBackslash(buf, rest[1..], pat);
      assert buf + rest[1..] == (buf + [rest[1]]) + rest[2..];
      ScanContains(rest[2..], buf + [rest[1]], pat);
    } else if MatchMarkdown(rest).Some? {
      var p := MatchMarkdown(rest).value;
      assert buf + rest == buf + rest + [];
      PartsContain(buf, rest, [], pat);
      MatchBodyContains(rest, pat);
      assert [] + rest[p.consumed..] == rest[p.consumed..];
      ScanContains(rest[p.consumed..], [], pat);
    } else {
      assert buf + rest == (buf + [rest[0]]) + rest[1..];
      ScanContains(rest[1..], buf + [rest[0]], pat);
    }
  }

  lemma TagFreeSpellsNone(t: string, tail: string)
    requires TagFree(t)
    ensures forall j: nat, kind :: !SpellsTag(t, j, tail, kind)
  {
    forall j: nat, kind ensures !SpellsTag(t, j, tail, kind) {
      assert !Contains(t, Open(kind));
    }
  }

  lemma {:induction false} CanonicalTagFreeIsReadable(spans: seq<Span>)
    requires Canonical(spans)
    requires forall span :: span in spans ==> TagFree(span.body)
    ensures Readable(spans)
  {
    if spans != [] {
      CanonicalTail(spans);
      hide Contains, At, EmphasisBody, CodeBody, SpellsTag, Canonical, Open, Close;
      assert spans[0] in spans;
      CanonicalTagFreeIsReadable(spans[1..]);
      TagFreeSpellsNone(spans[0].body, Rich(spans[1..]));
    }
  }

  /**
   A channel that reads the compiled string sees the tree the author wrote in markdown
   exactly when no content of that tree is read as a tag, and so whenever the markdown
   spells none.
   */
  lemma MarkdownCompiles(markdown: string)
    ensures Parsing(Rich(ParsingMd(markdown))) == ParsingMd(markdown) <==> Readable(ParsingMd(markdown))
    ensures TagFree(markdown) ==> Readable(ParsingMd(markdown))
  {
    var spans := ParsingMd(markdown);
    ParseAfterRender(spans);
    if TagFree(markdown) {
      hide Contains, Readable, Open, Close;
      assert [] + markdown == markdown;
      forall kind
        ensures forall span :: span in spans ==> !Contains(span.body, Open(kind)) && !Contains(span.body, Close(kind))
      {
        TagsSelfDelimiting(kind);
        TagsNeedNoEscape(kind);
        ScanContains(markdown, [], Open(kind));
        ScanContains(markdown, [], Close(kind));
      }
      ParseIsCanonical(markdown);
      CanonicalTagFreeIsReadable(spans);
    }
  }

  lemma TagsNeedNoEscape(kind: TagKind)
    ensures NoEscapable(Open(kind)) && NoEscapable(Close(kind))
  {
  }

  /**
   A tag typed in markdown, round a body without metacharacters that does not close it, is text
   to the author and a tag to the channel.
   */
  lemma TypedTagIsReread(span: Span)
    requires !span.Text? && !Contains(span.body, Close(KindOf(span)))
    requires forall k :: 0 <= k < |span.body| ==> !Escapable(span.body[k])
    ensures var typed := Open(KindOf(span)) + span.body + Close(KindOf(span));
            ParsingMd(typed) == [Text(typed)] && Parsing(Rich(ParsingMd(typed))) == [span]
  {
    var typed := Open(KindOf(span)) + span.body + Close(KindOf(span));
    TagsNeedNoEscape(KindOf(span));
    assert RichPiece(span) == typed && typed != [];
    assert forall k :: 0 <= k < |typed| ==> !Escapable(typed[k]);
    PlainIsUnescaped(typed);
    ReadableCons(span, []);
    hide *;
    EscapedTextIsText(typed);
    FlushText(typed);
    RichOne(Text(typed));
    RichOne(span);
    assert [span] + [] == [span];
    ParseAfterRender([span]);
    TextPiece(typed);
  }

  lemma FlushText(t: string)
    requires t != []
    ensures Flush(t) == [Text(t)]
  {
  }

  lemma TextPiece(t: string)
    ensures RichPiece(Text(t)) == t
  {
  }

  lemma {:induction false} PlainIsUnescaped(t: string)
    requires forall k :: 0 <= k < |t| ==> !Escapable(t[k])
    ensures Escaped(t) == t
  {
    if t != [] { PlainIsUnescaped(t[1..]); }
  }
}
