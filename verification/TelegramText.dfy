/**
 Reading a bot's name in Telegram text: `text_mentions_username` and
 `strip_command_bot_suffix` of src/channels/telegram/transport.rs, with ASCII case.
 */
module TelegramText {
  import opened Chars

  predicate WordChar(c: char) {
    'a' <= c <= 'z' || 'A' <= c <= 'Z' || '0' <= c <= '9' || c == '_'
  }

  function Needle(username: string): string {
    ['@'] + Lower(username)
  }

  /** `needle` at `p`, not running on into a longer word. */
  predicate MentionAt(hay: string, needle: string, p: nat) {
    At(hay, needle, p) && (p + |needle| < |hay| ==> !WordChar(hay[p + |needle|]))
  }

  ghost predicate Mentioned(text: string, username: string) {
    exists p: nat :: MentionAt(Lower(text), Needle(username), p)
  }

  /** The search as the code makes it: on a miss it goes on behind the occurrence. */
  predicate MentionFrom(hay: string, needle: string, from: nat)
    requires needle != [] && from <= |hay|
    decreases |hay| - from
  {
    match FindFrom(hay, needle, from)
    case None => false
    case Some(pos) => MentionAt(hay, needle, pos) || MentionFrom(hay, needle, pos + |needle|)
  }

  method TextMentionsUsername(text: string, username: string) returns (found: bool)
    ensures found == MentionFrom(Lower(text), Needle(username), 0)
  {
    hide FindFrom;
    var needle, haystack := Needle(username), Lower(text);
    var searchFrom: nat := 0;
    var pos := FindFrom(haystack, needle, searchFrom);
    while pos.Some?
      invariant searchFrom <= |haystack| && pos == FindFrom(haystack, needle, searchFrom)
      invariant MentionFrom(haystack, needle, searchFrom) == MentionFrom(haystack, needle, 0)
      decreases |haystack| - searchFrom
    {
      var end := pos.value + |needle|;
      var boundary := end == |haystack| || !WordChar(haystack[end]);
      if boundary {
        return true;
      }
      searchFrom := end;
      pos := FindFrom(haystack, needle, searchFrom);
    }
    found := false;
  }

  /** The needle can begin again over its own last `b` characters. */
  predicate Border(needle: string, b: nat) {
    0 < b < |needle| && needle[..b] == needle[|needle| - b..]
  }

  /** Wherever the needle overlaps itself, the first of the two ends at a word boundary. */
  ghost predicate Unskippable(needle: string) {
    forall b: nat :: Border(needle, b) ==> !WordChar(needle[b])
  }

  lemma OverlapIsBorder(hay: string, needle: string, i: nat, j: nat)
    requires At(hay, needle, i) && At(hay, needle, j) && i < j < i + |needle|
    ensures Border(needle, i + |needle| - j) && i + |needle| < |hay| && hay[i + |needle|] == needle[i + |needle| - j]
  {
    var b := i + |needle| - j;
    AtMeans(hay, needle, i);
    AtMeans(hay, needle, j);
    forall k: nat | k < b ensures needle[..b][k] == needle[|needle| - b..][k] {
      assert hay[j + k] == needle[k];
      assert hay[i + (j - i + k)] == needle[j - i + k];
    }
    assert hay[j + b] == needle[b];
  }

  /** What jumping leaves out is no mention, for such a needle. */
  lemma JumpSkipsNothing(hay: string, needle: string, i: nat, j: nat)
    requires Unskippable(needle) && At(hay, needle, i) && !MentionAt(hay, needle, i) && i < j < i + |needle|
    ensures !MentionAt(hay, needle, j)
  {
    if At(hay, needle, j) { OverlapIsBorder(hay, needle, i, j); }
  }

  lemma {:induction false} MentionFromFinds(hay: string, needle: string, from: nat)
    requires needle != [] && from <= |hay|
    ensures MentionFrom(hay, needle, from) ==> exists p: nat :: MentionAt(hay, needle, p)
    ensures Unskippable(needle) ==>
              (MentionFrom(hay, needle, from) <==> exists p: nat :: from <= p && MentionAt(hay, needle, p))
    decreases |hay| - from
  {
    var r := FindFrom(hay, needle, from);
    hide FindFrom, At, WordChar, Unskippable;
    if r.Some? && !MentionAt(hay, needle, r.value) {
      var end := r.value + |needle|;
      assert end <= |hay| by { AtMeans(hay, needle, r.value); }
      MentionFromFinds(hay, needle, end);
      if Unskippable(needle) {
        forall p: nat | from <= p < end ensures !MentionAt(hay, needle, p) {
          if r.value < p { JumpSkipsNothing(hay, needle, r.value, p); }
        }
      }
    }
  }

  /** A text the search fails on, for a needle that can be skipped. */
  lemma SkippedText(needle: string, b: nat) returns (hay: string)
    requires Border(needle, b) && WordChar(needle[b])
    ensures hay == needle[..|needle| - b] + needle
    ensures MentionAt(hay, needle, |needle| - b) && !MentionFrom(hay, needle, 0)
  {
    var n, d := |needle|, |needle| - b;
    hay := needle[..d] + needle;
    assert hay[d..d + n] == needle;
    assert hay[..n] == needle by {
      assert hay[..n] == needle[..d] + needle[..b];
      assert needle == needle[..d] + needle[d..];
    }
    assert hay[n] == needle[b];
    assert At(hay, needle, 0);
    assert FindFrom(hay, needle, 0) == Some(0);
    assert FindFrom(hay, needle, n) == None;
  }

  /** The search finds a mention in exactly the texts that hold one. */
  ghost predicate SearchIsExact(username: string) {
    forall text :: MentionFrom(Lower(text), Needle(username), 0) <==> Mentioned(text, username)
  }

  /**
   What the search reports is a mention. It overlooks none, in any text, exactly when no
   overlap of the needle with itself hides a boundary, as it does for `ab@a`; and a name without `@`, as every
   Telegram name is, has no overlap at all.
   */
  lemma MentionIsExact(username: string)
    ensures forall text :: MentionFrom(Lower(text), Needle(username), 0) ==> Mentioned(text, username)
    ensures SearchIsExact(username) <==> Unskippable(Needle(username))
    ensures '@' !in username ==> Unskippable(Needle(username))
  {
    var needle := Needle(username);
    forall text
      ensures MentionFrom(Lower(text), needle, 0) ==> Mentioned(text, username)
      ensures Unskippable(needle) ==> (MentionFrom(Lower(text), needle, 0) <==> Mentioned(text, username))
    {
      MentionFromFinds(Lower(text), needle, 0);
      hide MentionFrom, Lower, Needle, MentionAt;
    }
    if !Unskippable(needle) {
      var b: nat :| Border(needle, b) && WordChar(needle[b]);
      SkippedIsLower(username, b);
    }
    if '@' !in username { NoBorder(username); }
  }

  lemma SkippedIsLower(username: string, b: nat)
    requires Border(Needle(username), b) && WordChar(Needle(username)[b])
    ensures !SearchIsExact(username)
  {
    var needle := Needle(username);
    var hay := SkippedText(needle, b);
    LowerConcat(username, []);
    assert forall i :: 0 <= i < |hay| ==> LowerChar(hay[i]) == hay[i];
    assert Lower(hay) == hay;
    assert Mentioned(hay, username);
  }

  lemma BorderHoldsAt(username: string, b: nat)
    ensures Border(Needle(username), b) ==> '@' in username
  {
    var needle := Needle(username);
    if Border(needle, b) {
      var i := |needle| - b - 1;
      assert needle[..b][0] == needle[|needle| - b..][0];
      assert Lower(username)[i] == LowerChar(username[i]) && username[i] in username;
    }
  }

  lemma NoBorder(username: string)
    requires '@' !in username
    ensures Unskippable(Needle(username))
  {
    forall b: nat ensures !Border(Needle(username), b) { BorderHoldsAt(username, b); }
  }

  // ---- the command suffix ----------------------------------------------------------

  function StripCommandBotSuffix(text: string, username: string): Option<string> {
    if text == [] || text[0] != '/' then None
    else
      var end := FirstSpace(text);
      var first, rest := text[..end], text[end..];
      match Find(first, "@")
      case None => None
      case Some(i) => if Lower(first[i + 1..]) != Lower(username) then None else Some(first[..i] + rest)
  }

  /** `text` is `command@suffix` followed by nothing or white space, the suffix naming the bot. */
  ghost predicate Suffixed(text: string, username: string, command: string, suffix: string, rest: string) {
    && text == command + "@" + suffix + rest
    && command != [] && command[0] == '/' && '@' !in command
    && (forall i :: 0 <= i < |command| ==> !IsWhitespace(command[i]))
    && (forall i :: 0 <= i < |suffix| ==> !IsWhitespace(suffix[i]))
    && (rest != [] ==> IsWhitespace(rest[0]))
    && Lower(suffix) == Lower(username)
  }

  lemma FindChar(s: string, c: char, i: nat)
    requires i < |s| && s[i] == c && c !in s[..i]
    ensures Find(s, [c]) == Some(i)
  {
    assert s[i..i + 1] == [c];
    forall j: nat | j < i ensures !At(s, [c], j) {
      AtMeans(s, [c], j);
      assert s[..i][j] == s[j] && s[..i][j] in s[..i];
    }
    FindIsLeast(s, [c], i);
  }

  lemma CharAt(s: string, c: char, j: nat)
    ensures At(s, [c], j) ==> c in s
  {
    if At(s, [c], j) { assert s[j..j + 1][0] == s[j]; }
  }

  lemma NoCharNoFind(s: string, c: char)
    requires c !in s
    ensures Find(s, [c]).None?
  {
    forall j: nat ensures !At(s, [c], j) { CharAt(s, c, j); }
  }

  /** The suffix is dropped exactly from a command that carries this bot's name, and nothing else is. */
  lemma StripIsExact(text: string, username: string)
    ensures forall command, suffix, rest :: Suffixed(text, username, command, suffix, rest) ==>
              StripCommandBotSuffix(text, username) == Some(command + rest)
    ensures StripCommandBotSuffix(text, username).Some? ==>
              exists command, suffix, rest :: Suffixed(text, username, command, suffix, rest)
  {
    forall command, suffix, rest | Suffixed(text, username, command, suffix, rest)
      ensures StripCommandBotSuffix(text, username) == Some(command + rest)
    {
      StripSuffixed(text, username, command, suffix, rest);
    }
    if StripCommandBotSuffix(text, username).Some? {
      var first, rest := text[..FirstSpace(text)], text[FirstSpace(text)..];
      var i := Find(first, "@").value;
      var command, suffix := first[..i], first[i + 1..];
      assert first[i..i + 1] == "@";
      assert first == command + "@" + suffix;
      assert text == first + rest;
      forall j | 0 <= j < i ensures first[j] != '@' {
        assert !At(first, "@", j);
        assert first[j..j + 1] == [first[j]];
      }
      assert command[0] == '/';
      assert Suffixed(text, username, command, suffix, rest);
    }
  }

  lemma StripSuffixed(text: string, username: string, command: string, suffix: string, rest: string)
    requires Suffixed(text, username, command, suffix, rest)
    ensures StripCommandBotSuffix(text, username) == Some(command + rest)
  {
    var first := command + "@" + suffix;
    var end := FirstSpace(text);
    assert forall i :: 0 <= i < |first| ==> !IsWhitespace(first[i]) && text[i] == first[i];
    assert rest != [] ==> text[|first|] == rest[0];
    assert end == |first|;
    assert text[..end] == first && text[end..] == rest;
    assert first[..|command|] == command && first[|command| + 1..] == suffix;
    FindChar(first, '@', |command|);
  }

  /** A command addressed to this bot is a mention of it, and once stripped it is bare. */
  lemma StrippedWasMention(text: string, username: string)
    requires StripCommandBotSuffix(text, username).Some?
    ensures Mentioned(text, username)
    ensures StripCommandBotSuffix(StripCommandBotSuffix(text, username).value, username).None?
  {
    StripIsExact(text, username);
    var command, suffix, rest :| Suffixed(text, username, command, suffix, rest);
    SuffixIsMention(text, username, command, suffix, rest);
    BareIsNotStripped(command, rest, username);
  }

  lemma SuffixIsMention(text: string, username: string, command: string, suffix: string, rest: string)
    requires Suffixed(text, username, command, suffix, rest)
    ensures MentionAt(Lower(text), Needle(username), |command|)
  {
    var c, n, hay := |command|, Needle(username), Lower(text);
    LowerConcat(command + "@" + suffix, rest);
    LowerConcat(command + "@", suffix);
    LowerConcat(command, "@");
    hide LowerChar;
    assert Lower("@") == "@" by { AtSignIsLower(); }
    assert hay[c..c + |n|] == n;
    assert rest != [] ==> hay[c + |n|] == LowerChar(rest[0]) by { assert |n| == 1 + |suffix|; }
    if rest != [] { SpaceEndsWord(rest[0]); }
  }

  lemma AtSignIsLower()
    ensures Lower("@") == "@"
  {
  }

  lemma SpaceEndsWord(c: char)
    requires IsWhitespace(c)
    ensures !WordChar(LowerChar(c))
  {
  }

  lemma BareIsNotStripped(command: string, rest: string, username: string)
    requires '@' !in command && (rest != [] ==> IsWhitespace(rest[0]))
    requires forall i :: 0 <= i < |command| ==> !IsWhitespace(command[i])
    ensures StripCommandBotSuffix(command + rest, username).None?
  {
    var text := command + rest;
    assert forall i :: 0 <= i < |command| ==> text[i] == command[i];
    assert rest != [] ==> text[|command|] == rest[0];
    assert FirstSpace(text) == |command|;
    assert text[..|command|] == command;
    assert Find(command, "@").None? by { NoCharNoFind(command, '@'); }
  }
}
