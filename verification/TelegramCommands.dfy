/**
 Why the bot's name is stripped from a command (src/channels/telegram/transport.rs): what the
 matcher of src/commands/matcher.rs makes of a text before and after.
 */
module TelegramCommands {
  import opened Chars
  import opened Commands
  import opened TelegramText

  /** A command whose first word holds an at sign, at `i`. */
  predicate SuffixAt(text: string, i: nat) {
    i < |text| && text[0] == '/' && text[i] == '@' && NoSpace(text[..i])
  }

  /** `command_text_without_bot_suffix`: the username is asked for only when it can matter, and may be unknown. */
  function CommandText(text: string, username: Option<string>): Option<string> {
    if text == [] || text[0] != '/' then None
    else
      var words := SplitWhitespace(text);
      if words == [] || '@' !in words[0] || username.None? then None
      else StripCommandBotSuffix(text, username.value)
  }

  /** What a bot makes of a text: stripped if it can be, then matched. */
  function Heard(cmds: seq<string>, t: Table, text: string, username: Option<string>): Option<ParsedCommand> {
    match CommandText(text, username)
    case Some(stripped) => TryMatch(cmds, t, stripped)
    case None => TryMatch(cmds, t, text)
  }

  // ---- the first word --------------------------------------------------------------------------

  lemma FirstWordOf(text: string)
    requires text != [] && !IsWhitespace(text[0])
    ensures SplitWhitespace(text) != [] && SplitWhitespace(text)[0] == text[..FirstSpace(text)]
  {
    var n := FirstSpace(text);
    assert text == text[..n] + text[n..] && text[..n] != [] && [] + text[..n] == text[..n];
    WordsTakeWord(text[..n], text[n..], []);
  }

  /** Asking first whether there is a suffix loses nothing. */
  lemma PrecheckLosesNothing(text: string, username: string)
    ensures CommandText(text, Some(username)) == StripCommandBotSuffix(text, username)
    ensures CommandText(text, None) == None
  {
    if text != [] && text[0] == '/' {
      FirstWordOf(text);
      var first := text[..FirstSpace(text)];
      if '@' !in first { NoCharNoFind(first, '@'); }
    }
  }

  // ---- the matcher ---------------------------------------------------------------------------------

  /** A key that fits a suffixed text holds the at sign itself. */
  lemma FittingKeyIsSuffixed(t: Table, text: string, key: string, i: nat)
    requires SuffixAt(text, i) && Fits(t, text, key)
    ensures SuffixAt(key, i)
  {
    var lower := Lower(text);
    assert forall j :: 0 <= j < i ==> text[..i][j] == text[j];
    assert forall j :: 0 <= j <= i ==> lower[j] == LowerChar(text[j]) != ' ';
    assert key == lower[..|key|] && |key| > i;
    assert key[0] == lower[0] && key[i] == lower[i];
    forall j | 0 <= j < i ensures !IsWhitespace(key[..i][j]) {
      assert key[j] == lower[j] == LowerChar(text[j]);
    }
  }

  lemma TrimKeepsSuffix(text: string, i: nat)
    requires SuffixAt(text, i)
    ensures SuffixAt(Trim(text), i)
  {
    var head, tail := text[..i + 1], text[i + 1..];
    assert text == head + tail && head[|head| - 1] == '@';
    TrimEndConcat(head, tail);
    assert Trim(text)[..i] == text[..i] && Trim(text)[0] == head[0] && Trim(text)[i] == head[i];
  }

  lemma SuffixedIsUnknown(cmds: seq<string>, t: Table, text: string, i: nat)
    requires Consistent(t) && GreedyOrder(cmds, t) && SuffixAt(text, i)
    requires forall k, j: nat :: k in t.lookup ==> !SuffixAt(k, j)
    ensures TryMatch(cmds, t, text) == None
  {
    TrimKeepsSuffix(text, i);
    var s := Trim(text);
    LongestMatch(cmds, t, s);
    hide LongestPrefix, GreedyOrder, Consistent, SuffixAt, Trim, EndsWord;
    forall k ensures !Fits(t, s, k) {
      if Fits(t, s, k) { FittingKeyIsSuffixed(t, s, k, i); }
    }
  }

  /** A key with an at sign in its first word is met by a text with one. */
  lemma SuffixedKeyIsKnown(cmds: seq<string>, t: Table, key: string, i: nat) returns (text: string)
    requires Consistent(t) && GreedyOrder(cmds, t) && key in t.lookup && SuffixAt(key, i)
    ensures SuffixAt(text, i) && TryMatch(cmds, t, text) != None
  {
    text := key + " x";
    assert text[..i] == key[..i];
    KeysAreLower(t, key);
    LowerConcat(key, " x");
    TrimEndConcat(text, []);
    assert text + [] == text && Trim(text) == text;
    assert Fits(t, text, key) by { assert Lower(text)[..|key|] == key && Lower(text)[|key|] == ' '; }
    LongestMatch(cmds, t, text);
    hide LongestPrefix, Fits, Consistent, GreedyOrder, Trim, Canonicalise, SplitWhitespace;
  }

  /**
   Unstripped, every command with a suffix is unknown to the matcher, exactly when no key holds
   an at sign in its first word.
   */
  lemma SuffixIsUnknownExactly(cmds: seq<string>, t: Table)
    requires Consistent(t) && GreedyOrder(cmds, t)
    ensures (forall text, i: nat :: SuffixAt(text, i) ==> TryMatch(cmds, t, text) == None) <==>
            (forall k, j: nat :: k in t.lookup ==> !SuffixAt(k, j))
  {
    hide *;
    if forall k, j: nat :: k in t.lookup ==> !SuffixAt(k, j) {
      forall text, i: nat | SuffixAt(text, i) ensures TryMatch(cmds, t, text) == None {
        SuffixedIsUnknown(cmds, t, text, i);
      }
    } else {
      var k, j: nat :| k in t.lookup && SuffixAt(k, j);
      var text := SuffixedKeyIsKnown(cmds, t, k, j);
    }
  }

  /**
   So on such a table a command that names this bot is heard as the bare command with the same
   rest, and one that names another, or that no name is known for, is not heard at all.
   */
  lemma SuffixIsHeardExactly(cmds: seq<string>, t: Table, text: string, username: string)
    requires Consistent(t) && GreedyOrder(cmds, t)
    requires forall k, j: nat :: k in t.lookup ==> !SuffixAt(k, j)
    ensures forall command, suffix, rest :: Suffixed(text, username, command, suffix, rest) ==>
              && Heard(cmds, t, text, Some(username)) == TryMatch(cmds, t, command + rest)
              && Heard(cmds, t, command + rest, Some(username)) == TryMatch(cmds, t, command + rest)
    ensures (exists i: nat :: SuffixAt(text, i)) ==>
              && Heard(cmds, t, text, None) == None
              && (StripCommandBotSuffix(text, username).None? ==> Heard(cmds, t, text, Some(username)) == None)
  {
    PrecheckLosesNothing(text, username);
    StripIsExact(text, username);
    forall command, suffix, rest | Suffixed(text, username, command, suffix, rest)
      ensures Heard(cmds, t, command + rest, Some(username)) == TryMatch(cmds, t, command + rest)
    {
      BareIsNotStripped(command, rest, username);
      PrecheckLosesNothing(command + rest, username);
    }
    if exists i: nat :: SuffixAt(text, i) {
      var i: nat :| SuffixAt(text, i);
      SuffixedIsUnknown(cmds, t, text, i);
    }
  }
}
