/**
 The slash-command registry and matcher: src/commands/registry.rs and
 src/commands/matcher.rs. Case is ASCII case.
 */
module Commands {
  import opened Chars

  datatype CommandDefinition = CommandDefinition(name: string, command: string, aliases: seq<string>,
      description: string)

  /** The two maps of a registry. */
  datatype Table = Table(definitions: map<string, CommandDefinition>, lookup: map<string, string>)

  const EMPTY := Table(map[], map[])

  function KeysOf(def: CommandDefinition): set<string> {
    {Lower(def.command)} + set a | a in def.aliases :: Lower(a)
  }

  function WithAliases(lookup: map<string, string>, aliases: seq<string>, name: string): map<string, string>
    decreases aliases
  {
    if aliases == [] then lookup
    else WithAliases(lookup[Lower(aliases[0]) := name], aliases[1..], name)
  }

  function Registered(t: Table, def: CommandDefinition): Table {
    if def.name in t.definitions then t
    else Table(t.definitions[def.name := def],
               WithAliases(t.lookup[Lower(def.command) := def.name], def.aliases, def.name))
  }

  /** The table after registering `defs` in order. */
  function Build(defs: seq<CommandDefinition>): Table {
    if defs == [] then EMPTY else Registered(Build(defs[..|defs| - 1]), defs[|defs| - 1])
  }

  function GetByCommand(t: Table, command: string): Option<CommandDefinition> {
    var key := Lower(command);
    if key in t.lookup && t.lookup[key] in t.definitions then Some(t.definitions[t.lookup[key]]) else None
  }

  /** Every lookup key leads to a live definition that claims it, and every claimed key is there. */
  ghost predicate Consistent(t: Table) {
    && (forall n :: n in t.definitions ==> t.definitions[n].name == n)
    && (forall k :: k in t.lookup ==> t.lookup[k] in t.definitions && k in KeysOf(t.definitions[t.lookup[k]]))
    && (forall n, k :: n in t.definitions && k in KeysOf(t.definitions[n]) ==> k in t.lookup)
  }

  /** All lookup keys, each once, longest first: what `sorted_commands` may return. */
  ghost predicate GreedyOrder(cmds: seq<string>, t: Table) {
    && (forall k :: k in cmds <==> k in t.lookup)
    && (forall i, j :: 0 <= i < j < |cmds| ==> cmds[i] != cmds[j] && |cmds[i]| >= |cmds[j]|)
  }

  class CommandRegistry {
    var definitions: map<string, CommandDefinition>
    var lookup: map<string, string>

    ghost function View(): Table
      reads this
    {
      Table(definitions, lookup)
    }

    constructor ()
      ensures View() == EMPTY
    {
      definitions, lookup := map[], map[];
    }

    method Register(def: CommandDefinition) returns (added: bool)
      modifies this
      ensures View() == Registered(old(View()), def)
      ensures added <==> def.name !in old(definitions)
    {
      if def.name in definitions {
        return false;
      }
      lookup := lookup[Lower(def.command) := def.name];
      ghost var start := lookup;
      for i := 0 to |def.aliases|
        invariant definitions == old(definitions)
        invariant WithAliases(lookup, def.aliases[i..], def.name) == WithAliases(start, def.aliases, def.name)
      {
        assert def.aliases[i..][1..] == def.aliases[i + 1..];
        lookup := lookup[Lower(def.aliases[i]) := def.name];
      }
      definitions := definitions[def.name := def];
      return true;
    }

    /** The keys in any order, sorted by length, longest first. */
    method SortedCommands() returns (cmds: seq<string>)
      ensures GreedyOrder(cmds, View())
    {
      cmds := [];
      var left := lookup.Keys;
      while left != {}
        invariant left <= lookup.Keys
        invariant forall k :: k in cmds <==> k in lookup.Keys - left
        invariant forall i, j :: 0 <= i < j < |cmds| ==> cmds[i] != cmds[j] && |cmds[i]| >= |cmds[j]|
      {
        var key :| key in left;
        var at := 0;
        while at < |cmds| && |cmds[at]| >= |key|
          invariant at <= |cmds|
          invariant forall i :: 0 <= i < at ==> |cmds[i]| >= |key|
        {
          at := at + 1;
        }
        assert forall i :: at <= i < |cmds| ==> |cmds[i]| < |key|;
        InsertedOrder(cmds, key, at);
        cmds := cmds[..at] + [key] + cmds[at..];
        left := left - {key};
      }
    }
  }

  lemma InsertedOrder(cmds: seq<string>, key: string, at: nat)
    requires at <= |cmds| && key !in cmds
    requires forall i, j :: 0 <= i < j < |cmds| ==> cmds[i] != cmds[j] && |cmds[i]| >= |cmds[j]|
    requires forall i :: 0 <= i < at ==> |cmds[i]| >= |key|
    requires forall i :: at <= i < |cmds| ==> |cmds[i]| < |key|
    ensures var r := cmds[..at] + [key] + cmds[at..];
            && (forall k :: k in r <==> k == key || k in cmds)
            && (forall i, j :: 0 <= i < j < |r| ==> r[i] != r[j] && |r[i]| >= |r[j]|)
  {
    var r := cmds[..at] + [key] + cmds[at..];
    forall k ensures k in r <==> k == key || k in cmds { InsertedMember(cmds, key, at, k); }
    forall i: nat | i < |r| && i != at ensures r[i] == cmds[if i < at then i else i - 1] {}
    forall i, j | 0 <= i < j < |r| ensures r[i] != r[j] && |r[i]| >= |r[j]| {
      if i == at { assert r[j] == cmds[j - 1]; }
      if j == at { assert r[i] == cmds[i]; }
    }
  }

  lemma InsertedMember(cmds: seq<string>, key: string, at: nat, k: string)
    requires at <= |cmds|
    ensures k in cmds[..at] + [key] + cmds[at..] <==> k == key || k in cmds
  {
    assert cmds == cmds[..at] + cmds[at..];
  }

  // ---- every run of registrations keeps the table consistent ---------------------

  lemma {:induction false} WithAliasesMaps(lookup: map<string, string>, aliases: seq<string>, name: string)
    ensures var r := WithAliases(lookup, aliases, name);
            && (forall a :: a in aliases ==> Lower(a) in r && r[Lower(a)] == name)
            && (forall k :: k in lookup ==> k in r)
            && (forall k :: k in r ==> if exists a :: a in aliases && k == Lower(a) then r[k] == name
                                       else k in lookup && r[k] == lookup[k])
    decreases aliases
  {
    if aliases != [] {
      WithAliasesMaps(lookup[Lower(aliases[0]) := name], aliases[1..], name);
    }
  }

  lemma RegisteredIsConsistent(t: Table, def: CommandDefinition)
    requires Consistent(t)
    ensures Consistent(Registered(t, def))
  {
    if def.name !in t.definitions {
      WithAliasesMaps(t.lookup[Lower(def.command) := def.name], def.aliases, def.name);
    }
  }

  /** After any registrations every key resolves, to a definition that has it. */
  lemma {:induction false} BuildIsConsistent(defs: seq<CommandDefinition>)
    ensures Consistent(Build(defs))
  {
    if defs != [] {
      BuildIsConsistent(defs[..|defs| - 1]);
      RegisteredIsConsistent(Build(defs[..|defs| - 1]), defs[|defs| - 1]);
    }
  }

  // ---- the matcher ------------------------------------------------------------------

  datatype PrefixMatch = PrefixMatch(definition: CommandDefinition, key: string, rest: string)

  datatype ParsedCommand = ParsedCommand(name: string, args: seq<string>, rawText: string)

  function TryKey(t: Table, text: string, cmd: string): Option<PrefixMatch> {
    if !(cmd <= Lower(text)) then None
    else
      var rest := text[|cmd|..];
      if !(rest == [] || rest[0] == ' ') then None
      else match GetByCommand(t, cmd)
           case Some(def) => Some(PrefixMatch(def, cmd, rest))
           case None => None
  }

  function LongestPrefix(cmds: seq<string>, t: Table, text: string): Option<PrefixMatch> {
    if cmds == [] then None
    else if TryKey(t, text, cmds[0]).Some? then TryKey(t, text, cmds[0])
    else LongestPrefix(cmds[1..], t, text)
  }

  function Canonicalise(cmds: seq<string>, t: Table, found: PrefixMatch): PrefixMatch {
    var canonical := Lower(found.definition.command);
    if canonical == found.key || found.rest == [] then found
    else match LongestPrefix(cmds, t, canonical + found.rest)
         case Some(m) => m
         case None => found
  }

  function TryMatch(cmds: seq<string>, t: Table, text: string): Option<ParsedCommand> {
    var trimmed := Trim(text);
    if trimmed == [] || trimmed[0] != '/' then None
    else match LongestPrefix(cmds, t, trimmed)
         case None => None
         case Some(first) =>
           var m := Canonicalise(cmds, t, first);
           Some(ParsedCommand(m.definition.name, SplitWhitespace(m.rest), trimmed))
  }

  // ---- longest match ------------------------------------------------------------------

  /** `key` ends at a word boundary of `text`. */
  predicate EndsWord(text: string, key: string) {
    key <= text && (|key| < |text| ==> text[|key|] == ' ')
  }

  /** `key` is registered and spells the head of the lowered text up to a boundary. */
  predicate Fits(t: Table, text: string, key: string) {
    key in t.lookup && EndsWord(Lower(text), key)
  }

  /** The one match greed allows. */
  ghost predicate IsLongest(t: Table, text: string, m: PrefixMatch) {
    && Fits(t, text, m.key)
    && (forall k :: Fits(t, text, k) ==> k == m.key || |k| < |m.key|)
    && m.rest == text[|m.key|..]
    && t.lookup[m.key] in t.definitions && m.definition == t.definitions[t.lookup[m.key]]
  }

  lemma TryKeyFits(t: Table, text: string, cmd: string)
    requires Consistent(t) && cmd in t.lookup
    ensures TryKey(t, text, cmd).Some? <==> Fits(t, text, cmd)
    ensures Fits(t, text, cmd) ==>
              TryKey(t, text, cmd) == Some(PrefixMatch(t.definitions[t.lookup[cmd]], cmd, text[|cmd|..]))
  {
    KeysAreLower(t, cmd);
    if cmd <= Lower(text) && |cmd| < |text| {
      assert LowerChar(text[|cmd|]) == ' ' <==> text[|cmd|] == ' ';
    }
  }

  lemma KeysAreLower(t: Table, cmd: string)
    requires Consistent(t) && cmd in t.lookup
    ensures Lower(cmd) == cmd
  {
    var def := t.definitions[t.lookup[cmd]];
    LowerConcat(def.command, []);
    forall a | a in def.aliases ensures Lower(Lower(a)) == Lower(a) { LowerConcat(a, []); }
  }

  lemma {:induction false} FirstFit(cmds: seq<string>, t: Table, text: string)
    requires Consistent(t) && forall k :: k in cmds ==> k in t.lookup
    requires forall i, j :: 0 <= i < j < |cmds| ==> |cmds[i]| >= |cmds[j]|
    ensures var r := LongestPrefix(cmds, t, text);
            && (r.None? ==> forall k :: k in cmds ==> !Fits(t, text, k))
            && (r.Some? ==> && r.value.key in cmds && Fits(t, text, r.value.key)
                            && (forall k :: k in cmds && Fits(t, text, k) ==> |k| <= |r.value.key|)
                            && r.value == PrefixMatch(t.definitions[t.lookup[r.value.key]], r.value.key,
                                                      text[|r.value.key|..]))
  {
    if cmds != [] {
      TryKeyFits(t, text, cmds[0]);
      FirstFit(cmds[1..], t, text);
      assert forall k :: k in cmds ==> k == cmds[0] || k in cmds[1..];
    }
  }

  lemma LongestIsUnique(t: Table, text: string, m1: PrefixMatch, m2: PrefixMatch)
    requires IsLongest(t, text, m1) && IsLongest(t, text, m2)
    ensures m1 == m2
  {
    hide Fits;
  }

  /** The greedy search finds the one longest fitting key, and `None` when none fits, whatever the map order. */
  lemma LongestMatch(cmds: seq<string>, t: Table, text: string)
    requires Consistent(t) && GreedyOrder(cmds, t)
    ensures var r := LongestPrefix(cmds, t, text);
            if r.Some? then IsLongest(t, text, r.value) else forall k :: !Fits(t, text, k)
  {
    FirstFit(cmds, t, text);
    hide LongestPrefix, KeysOf, Lower, EndsWord;
    var r := LongestPrefix(cmds, t, text);
    if r.Some? {
      forall k | Fits(t, text, k) ensures k == r.value.key || |k| < |r.value.key| {
        EqualLengths(t, text, k, r.value.key);
      }
    }
  }

  lemma EqualLengths(t: Table, text: string, k1: string, k2: string)
    requires Fits(t, text, k1) && Fits(t, text, k2)
    ensures |k1| == |k2| ==> k1 == k2
  {
    assert Lower(text)[..|k1|] == k1 && Lower(text)[..|k2|] == k2;
  }

  /** What `LongestMatch` says, as an equation. */
  lemma LongestIs(cmds: seq<string>, t: Table, text: string, m: PrefixMatch)
    requires Consistent(t) && GreedyOrder(cmds, t) && IsLongest(t, text, m)
    ensures LongestPrefix(cmds, t, text) == Some(m)
  {
    LongestMatch(cmds, t, text);
    hide LongestPrefix, Fits, Consistent, GreedyOrder;
    var r := LongestPrefix(cmds, t, text);
    assert Fits(t, text, m.key);
    LongestIsUnique(t, text, m, r.value);
  }

  /** Two map orders give the same matches. */
  lemma MatchIgnoresOrder(cmds1: seq<string>, cmds2: seq<string>, t: Table, text: string)
    requires Consistent(t) && GreedyOrder(cmds1, t) && GreedyOrder(cmds2, t)
    ensures TryMatch(cmds1, t, text) == TryMatch(cmds2, t, text)
  {
    hide LongestPrefix, Fits, Consistent, GreedyOrder, IsLongest, SplitWhitespace, Trim;
    forall s: string ensures LongestPrefix(cmds1, t, s) == LongestPrefix(cmds2, t, s) {
      SameLongest(cmds1, cmds2, t, s);
    }
  }

  lemma SameLongest(cmds1: seq<string>, cmds2: seq<string>, t: Table, text: string)
    requires Consistent(t) && GreedyOrder(cmds1, t) && GreedyOrder(cmds2, t)
    ensures LongestPrefix(cmds1, t, text) == LongestPrefix(cmds2, t, text)
  {
    LongestMatch(cmds1, t, text);
    LongestMatch(cmds2, t, text);
    hide LongestPrefix, Fits, Consistent, GreedyOrder;
    var r1, r2 := LongestPrefix(cmds1, t, text), LongestPrefix(cmds2, t, text);
    if r1.Some? {
      LongestIs(cmds2, t, text, r1.value);
    }
    assert r2.Some? ==> Fits(t, text, r2.value.key);
  }

  /** Registering hands a key over to the newcomer, whoever had it before. */
  lemma RegisterTakesKeys(t: Table, def: CommandDefinition, key: string)
    requires def.name !in t.definitions && key in KeysOf(def)
    ensures GetByCommand(Registered(t, def), key) == Some(def)
  {
    WithAliasesMaps(t.lookup[Lower(def.command) := def.name], def.aliases, def.name);
    LowerConcat(def.command, []);
    forall a | a in def.aliases ensures Lower(Lower(a)) == Lower(a) { LowerConcat(a, []); }
  }
}
