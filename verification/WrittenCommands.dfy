/**
 Slash commands with their separators in letters: what a registration answers to, what the
 matcher does with a text, what the menu lists and what a template's holes become.
 */
module WrittenCommands {
  import opened Chars
  import opened Commands
  import opened Menu
  import F = Formatter

  // ---- the registry -----------------------------------------------------------------------

  /** A new definition answers to its command and aliases in any case; a known name changes nothing. */
  lemma RegisterWrittenOut(t: Table, def: CommandDefinition, s: string)
    requires Consistent(t)
    ensures def.name in t.definitions ==> Registered(t, def) == t
    ensures def.name !in t.definitions ==>
              && Registered(t, def).definitions == t.definitions[def.name := def]
              && GetByCommand(Registered(t, def), s) ==
                 if Lower(s) == Lower(def.command) || exists a :: a in def.aliases && Lower(a) == Lower(s)
                 then Some(def)
                 else GetByCommand(t, s)
  {
    hide Lower;
    WithAliasesMaps(t.lookup[Lower(def.command) := def.name], def.aliases, def.name);
  }

  /** A registry starts empty and grows by one registration after the other. */
  lemma BuildWrittenOut(defs: seq<CommandDefinition>, def: CommandDefinition, s: string)
    ensures Build([]).definitions == map[] && GetByCommand(Build([]), s) == None
    ensures Build(defs + [def]) == Registered(Build(defs), def)
  {
    assert (defs + [def])[..|defs|] == defs;
  }

  // ---- the matcher ----------------------------------------------------------------------------

  /** `typed` heads `text`, answers to a command, and is followed by a space or nothing. */
  ghost predicate Leads(t: Table, text: string, typed: string) {
    && typed <= text && (|typed| < |text| ==> text[|typed|] == ' ') && GetByCommand(t, typed).Some?
  }

  lemma LeadsFits(t: Table, text: string, typed: string)
    requires Consistent(t)
    ensures Leads(t, text, typed) ==> Fits(t, text, Lower(typed))
    ensures typed <= text && Fits(t, text, Lower(typed)) ==> Leads(t, text, typed)
  {
    if typed <= text {
      assert text == typed + text[|typed|..];
      LowerConcat(typed, text[|typed|..]);
      assert |typed| < |text| ==> (Lower(text)[|typed|] == ' ' <==> text[|typed|] == ' ');
    }
  }

  /** The match is the longest head of the text that answers to a command and ends at a space or the end. */
  lemma PrefixWrittenOut(cmds: seq<string>, t: Table, text: string)
    requires Consistent(t) && GreedyOrder(cmds, t)
    ensures match LongestPrefix(cmds, t, text)
            case None => forall typed :: !Leads(t, text, typed)
            case Some(m) =>
              && |m.key| <= |text| && m.key == Lower(text[..|m.key|]) && m.rest == text[|m.key|..]
              && Leads(t, text, text[..|m.key|]) && Some(m.definition) == GetByCommand(t, m.key)
              && forall typed :: Leads(t, text, typed) ==> |typed| <= |m.key|
  {
    LongestMatch(cmds, t, text);
    var r := LongestPrefix(cmds, t, text);
    forall typed | Leads(t, text, typed) ensures Fits(t, text, Lower(typed)) { LeadsFits(t, text, typed); }
    hide LongestPrefix, GreedyOrder;
    if r.Some? {
      var m := r.value;
      KeyTyped(t, text, m);
      LeadsFits(t, text, text[..|m.key|]);
    }
  }

  lemma KeyTyped(t: Table, text: string, m: PrefixMatch)
    requires Consistent(t) && IsLongest(t, text, m)
    ensures |m.key| <= |text| && m.key == Lower(text[..|m.key|]) && Some(m.definition) == GetByCommand(t, m.key)
  {
    KeysAreLower(t, m.key);
    assert text == text[..|m.key|] + text[|m.key|..];
    LowerConcat(text[..|m.key|], text[|m.key|..]);
    assert m.key == Lower(text)[..|m.key|];
  }

  /** White space round a text does not matter, and what does not start with a slash is no command. */
  lemma BlanksAndSlashes(cmds: seq<string>, t: Table, before: string, text: string, after: string)
    requires (forall c :: c in before ==> IsWhitespace(c)) && (forall c :: c in after ==> IsWhitespace(c))
    ensures TryMatch(cmds, t, before + text + after) == TryMatch(cmds, t, text)
    ensures TryMatch(cmds, t, []) == None
    ensures text != [] && !IsWhitespace(text[0]) && text[0] != '/' ==> TryMatch(cmds, t, text) == None
  {
    TrimAround(before, text, after);
    if text != [] && !IsWhitespace(text[0]) && text[0] != '/' {
      assert TrimStart(text) == text && TrimEnd(text) <= text;
    }
    hide Trim, LongestPrefix, Canonicalise, SplitWhitespace;
    assert Trim([]) == [] by { TrimOfNothing(); }
  }

  lemma TrimOfNothing()
    ensures Trim([]) == []
  {
  }

  lemma {:induction false} TrimAround(before: string, text: string, after: string)
    requires (forall c :: c in before ==> IsWhitespace(c)) && (forall c :: c in after ==> IsWhitespace(c))
    ensures Trim(before + text + after) == Trim(text)
  {
    if before == [] {
      assert [] + text + after == text + after;
      TrimBehind(text, after);
    } else {
      assert (before + text + after)[1..] == before[1..] + text + after && before[0] in before;
      TrimAround(before[1..], text, after);
    }
  }

  lemma {:induction false} TrimBehind(text: string, after: string)
    requires forall c :: c in after ==> IsWhitespace(c)
    ensures Trim(text + after) == Trim(text)
  {
    if text == [] {
      assert text + after == after;
      AllTrimmed(after);
    } else if IsWhitespace(text[0]) {
      assert (text + after)[1..] == text[1..] + after;
      TrimBehind(text[1..], after);
    } else {
      EndTrimmed(after);
      TrimEndSplit(text, after);
    }
  }

  lemma {:induction false} AllTrimmed(s: string)
    requires forall c :: c in s ==> IsWhitespace(c)
    ensures TrimStart(s) == []
  {
    if s != [] {
      assert s[0] in s;
      AllTrimmed(s[1..]);
    }
  }

  lemma {:induction false} EndTrimmed(s: string)
    requires forall c :: c in s ==> IsWhitespace(c)
    ensures TrimEnd(s) == []
    decreases |s|
  {
    if s != [] {
      assert s[|s| - 1] in s;
      EndTrimmed(s[..|s| - 1]);
    }
  }

  /**
   A trimmed request runs its match, with the words behind it as arguments; but a match under
   another spelling than the command's, with something behind it, gives way to that of the text
   under the command's own.
   */
  lemma RequestWrittenOut(cmds: seq<string>, t: Table, text: string)
    requires text != [] && text[0] == '/' && !IsWhitespace(text[|text| - 1])
    ensures match LongestPrefix(cmds, t, text)
            case None => TryMatch(cmds, t, text) == None
            case Some(first) =>
              var rewritten := LongestPrefix(cmds, t, Lower(first.definition.command) + first.rest);
              var m := if first.key == Lower(first.definition.command) || first.rest == [] || rewritten.None? then first
                       else rewritten.value;
              TryMatch(cmds, t, text) == Some(ParsedCommand(m.definition.name, SplitWhitespace(m.rest), text))
  {
    assert Trim(text) == text;
    hide LongestPrefix, Trim, SplitWhitespace, Lower;
  }

  // ---- the menu -----------------------------------------------------------------------------------

  /** `trigger` is some slashes and then `name`, one word that starts with none. */
  ghost predicate Names(trigger: string, name: string) {
    && ' ' !in name && (name != [] ==> name[0] != '/')
    && exists slashes :: (forall c :: c in slashes ==> c == '/') && trigger == slashes + name
  }

  lemma {:induction false} SlashesTrimmed(s: string) returns (slashes: string)
    ensures s == slashes + TrimSlashes(s) && (forall c :: c in slashes ==> c == '/')
    ensures TrimSlashes(s) != [] ==> TrimSlashes(s)[0] != '/'
  {
    if s == [] || s[0] != '/' {
      slashes := [];
    } else {
      var more := SlashesTrimmed(s[1..]);
      slashes := [s[0]] + more;
      HeadTail(s);
      Reassociate([s[0]], more, TrimSlashes(s[1..]));
    }
  }

  lemma {:induction false} TrimsTo(slashes: string, name: string)
    requires (forall c :: c in slashes ==> c == '/') && (name != [] ==> name[0] != '/')
    ensures TrimSlashes(slashes + name) == name
  {
    if slashes == [] {
      assert slashes + name == name;
    } else {
      assert slashes[0] in slashes && (slashes + name)[1..] == slashes[1..] + name;
      assert forall c :: c in slashes[1..] ==> c in slashes;
      TrimsTo(slashes[1..], name);
    }
  }

  lemma TokenWrittenOut(trigger: string, name: string)
    ensures SingleToken(trigger) == Some(name) <==> Names(trigger, name)
    ensures SingleToken(trigger) == None <==> ' ' in trigger
  {
    var slashes := SlashesTrimmed(trigger);
    assert ' ' in trigger <==> ' ' in TrimSlashes(trigger);
    if Names(trigger, name) {
      var s :| (forall c :: c in s ==> c == '/') && trigger == s + name;
      TrimsTo(s, name);
    }
  }

  /**
   Under a name stands the description of a command that name is the one-word trigger of, or if
   there is none of a command with a space in its trigger that has it for an alias; and no other name is listed.
   */
  lemma MenuWrittenOut(values: seq<CommandDefinition>, describe: Describe, name: string)
    ensures var r := First(BotMenu(values, describe), name);
            var own := exists e :: e in values && Names(e.command, name);
            if r.Some? then
              exists d :: && d in values && r == Some(describe(d))
                          && if own then Names(d.command, name)
                             else ' ' in d.command && exists a :: a in d.aliases && Names(a, name)
            else
              !own && forall d :: d in values && ' ' in d.command ==> forall a :: a in d.aliases ==> !Names(a, name)
  {
    DecidedRow(values, describe, name);
    forall d: CommandDefinition
      ensures Publishes(d, name) <==> Names(d.command, name)
      ensures StandsIn(d, name) <==> ' ' in d.command && exists a :: a in d.aliases && Names(a, name)
    {
      TokenWrittenOut(d.command, name);
      forall a ensures SingleToken(a) == Some(name) <==> Names(a, name) { TokenWrittenOut(a, name); }
    }
    hide BotMenu, First, Names, Publishes, StandsIn;
    if First(BotMenu(values, describe), name).None? {
      forall d | d in values ensures !Publishes(d, name) { assert !Decides(values, d, name); }
      forall d | d in values ensures !StandsIn(d, name) { assert !Decides(values, d, name); }
    }
  }

  /** The rows of the menu, in strictly ascending order of their names, character by character. */
  lemma MenuOrderWrittenOut(values: seq<CommandDefinition>, describe: Describe, i: nat)
    requires 0 < i < |BotMenu(values, describe)|
    ensures var a, b := BotMenu(values, describe)[i - 1].name, BotMenu(values, describe)[i].name;
            exists k :: && 0 <= k <= |a| && k < |b| && a[..k] == b[..k]
                        && (k == |a| || a[k] < b[k])
  {
    MenuContents(values, describe);
    LessWrittenOut(BotMenu(values, describe)[i - 1].name, BotMenu(values, describe)[i].name);
  }

  lemma {:induction false} LessWrittenOut(a: string, b: string)
    requires Less(a, b)
    ensures exists k :: 0 <= k <= |a| && k < |b| && a[..k] == b[..k] && (k == |a| || a[k] < b[k])
  {
    if a == [] || a[0] < b[0] {
      assert a[..0] == b[..0];
    } else {
      LessWrittenOut(a[1..], b[1..]);
      var a1, b1 := a[1..], b[1..];
      var k :| 0 <= k <= |a1| && k < |b1| && a1[..k] == b1[..k] && (k == |a1| || a1[k] < b1[k]);
      assert a[..k + 1] == [a[0]] + a1[..k] && b[..k + 1] == [b[0]] + b1[..k];
    }
  }

  /** What a name leads to in a list of rows is the text of the first row of that name. */
  lemma {:induction false} FirstWrittenOut(rows: seq<Row>, name: string)
    ensures match First(rows, name)
            case None => forall i :: 0 <= i < |rows| ==> rows[i].name != name
            case Some(text) => exists i :: && 0 <= i < |rows| && rows[i] == Row(name, text)
                                           && forall j :: 0 <= j < i ==> rows[j].name != name
  {
    if rows != [] && rows[0].name != name {
      FirstWrittenOut(rows[1..], name);
      match First(rows[1..], name) {
        case None =>
          forall i | 0 <= i < |rows| ensures rows[i].name != name { if i > 0 { assert rows[i] == rows[1..][i - 1]; } }
        case Some(text) =>
          var i :| && 0 <= i < |rows[1..]| && rows[1..][i] == Row(name, text)
                   && forall j :: 0 <= j < i ==> rows[1..][j].name != name;
          assert rows[i + 1] == Row(name, text);
          forall j | 0 <= j < i + 1 ensures rows[j].name != name { if j > 0 { assert rows[j] == rows[1..][j - 1]; } }
      }
    } else if rows != [] {
      assert rows[0] == Row(name, rows[0].text);
    }
  }

  // ---- templates --------------------------------------------------------------------------------------

  lemma OneReplaced(text: string, key: string, rest: string, b: F.Binding)
    requires '{' !in text && F.BraceFree(key) && F.BraceFree(b.key)
    ensures F.Replaced(text + rest, F.Placeholder(b.key), b.value) ==
            text + F.Replaced(rest, F.Placeholder(b.key), b.value)
    ensures F.Replaced(text + ("{" + key + "}" + rest), F.Placeholder(b.key), b.value) ==
            text + ((if b.key == key then b.value else "{" + key + "}")
                    + F.Replaced(rest, F.Placeholder(b.key), b.value))
  {
    F.ReplacedSkips(text, rest, F.Placeholder(b.key), b.value);
    F.ReplacedSkips(text, "{" + key + "}" + rest, F.Placeholder(b.key), b.value);
    F.ReplacedHole(b.key, b.value, key, rest);
    hide F.Replaced;
    assert F.Placeholder(key) == "{" + key + "}";
  }

  /** Text without an opening brace stays, whatever is bound. */
  lemma {:induction false} TextStays(text: string, rest: string, entries: seq<F.Binding>)
    requires '{' !in text && forall i :: 0 <= i < |entries| ==> F.BraceFree(entries[i].key)
    ensures F.Sequential(text + rest, entries) == text + F.Sequential(rest, entries)
    decreases entries
  {
    hide F.Replaced;
    if entries != [] {
      OneReplaced(text, [], rest, entries[0]);
      TextStays(text, F.Replaced(rest, F.Placeholder(entries[0].key), entries[0].value), entries[1..]);
    }
  }

  /** A hole becomes the value its name is bound to, and stays if it is bound to none. */
  lemma {:induction false} HoleByHole(text: string, key: string, rest: string, entries: seq<F.Binding>, bound: string)
    requires '{' !in text && F.BraceFree(key)
    requires forall i :: 0 <= i < |entries| ==> F.BraceFree(entries[i].key) && '{' !in entries[i].value
    requires forall i, j :: 0 <= i < j < |entries| ==> entries[i].key != entries[j].key
    requires if exists v :: F.Binding(key, v) in entries then F.Binding(key, bound) in entries
             else bound == "{" + key + "}"
    ensures F.Sequential(text + ("{" + key + "}" + rest), entries) == text + (bound + F.Sequential(rest, entries))
    decreases entries
  {
    hide F.Replaced;
    if entries == [] {
    } else {
      var e, more := entries[0], entries[1..];
      var rest' := F.Replaced(rest, F.Placeholder(e.key), e.value);
      OneReplaced(text, key, rest, e);
      assert forall b :: b in entries <==> b == e || b in more;
      if e.key == key {
        OnlyOnce(entries, F.Binding(key, bound));
        TextStays(text + e.value, rest', more);
        Reassociate(text, e.value, rest');
        Reassociate(text, e.value, F.Sequential(rest', more));
      } else {
        HoleByHole(text, key, rest', more, bound);
      }
    }
  }

  lemma OnlyOnce(entries: seq<F.Binding>, b: F.Binding)
    requires forall i, j :: 0 <= i < j < |entries| ==> entries[i].key != entries[j].key
    requires b in entries && entries[0].key == b.key
    ensures entries[0] == b
  {
  }
}
