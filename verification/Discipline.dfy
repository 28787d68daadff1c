/**
 Tables an alias can be trusted on: a discipline over the registered definitions that rules
 chains out (src/commands/matcher.rs, src/commands/registry.rs), and a table without it.
 */
module Discipline {
  import opened Chars
  import opened Commands
  import opened Aliases

  // ---- tables without chains ----------------------------------------------------------------------------

  lemma CommandChains(t: Table, k1: string, ahead: string)
    requires Consistent(t) && k1 in t.lookup
    ensures var c := Canonical(t, k1);
            Chained(t, k1, c, ahead) <==>
              AliasKey(t, k1) && AliasKey(t, c) && LongestKey(t, k1 + ahead, k1) && LongestKey(t, c + ahead, c)
  {
    var c := Canonical(t, k1);
    assert EndsWord(c, c);
    assert Beyond(t, k1, c) == [] && k1 + [] + ahead == k1 + ahead;
    hide LongestKey, Consistent, EndsWord, Canonical, AliasKey;
  }

  /** Every canonical command that is an alias key in force is the end of a chain. */
  lemma CommandAsAliasChains(t: Table, k1: string)
    requires Consistent(t) && k1 in t.lookup
    ensures Chained(t, k1, Canonical(t, k1), []) <==> AliasKey(t, k1) && AliasKey(t, Canonical(t, k1))
  {
    hide *;
    var c := Canonical(t, k1);
    CanonicalIsKey(t, k1);
    SelfLongest(t, k1);
    SelfLongest(t, c);
    CommandChains(t, k1, []);
    assert k1 + [] == k1 && c + [] == c;
  }

  /** With no canonical command among the aliases and no space in any there are no chains. */
  lemma SingleWordsDoNotChain(t: Table, k1: string, k2: string, ahead: string)
    requires Consistent(t) && (AliasKey(t, k2) ==> ' ' !in k2)
    requires k1 in t.lookup ==> !AliasKey(t, Canonical(t, k1))
    ensures !Chained(t, k1, k2, ahead)
  {
    if k1 in t.lookup && k2 in t.lookup && EndsWord(k2, Canonical(t, k1)) && k2 != Canonical(t, k1) {
      assert k2[|Canonical(t, k1)|] == ' ';
    }
  }

  /**
   A discipline that is enough, checked on the definitions, and that `register` does not enforce:
   aliases are single words, belong to one command each, and are neither a canonical command nor
   the first word of one; canonical commands are distinct and do not end in white space.
   */
  ghost predicate Disciplined(t: Table) {
    && (forall n :: n in t.definitions ==> WellSpelled(t.definitions[n]))
    && (forall n1, n2 :: n1 in t.definitions && n2 in t.definitions ==> Apart(t.definitions[n1], t.definitions[n2]))
  }

  predicate WellSpelled(def: CommandDefinition) {
    && Command(def.command)
    && forall a :: a in def.aliases ==> Command(a) && forall i :: 0 <= i < |a| ==> !IsWhitespace(a[i])
  }

  predicate Apart(d1: CommandDefinition, d2: CommandDefinition) {
    && (d1 != d2 ==> Lower(d1.command) != Lower(d2.command))
    && (forall a :: a in d1.aliases ==> !EndsWord(Lower(d2.command), Lower(a)))
    && (d1 != d2 ==> forall a, b :: a in d1.aliases && b in d2.aliases ==> Lower(a) != Lower(b))
  }

  /** Registering disciplined definitions, in any order, gives a disciplined table. */
  lemma {:induction false} BuildIsDisciplined(defs: seq<CommandDefinition>)
    requires forall d :: d in defs ==> WellSpelled(d)
    requires forall d, e :: d in defs && e in defs ==> Apart(d, e)
    ensures Disciplined(Build(defs))
    ensures forall n :: n in Build(defs).definitions ==> Build(defs).definitions[n] in defs
  {
    if defs != [] {
      var front, last := defs[..|defs| - 1], defs[|defs| - 1];
      assert defs == front + [last];
      hide WellSpelled, Apart;
      BuildIsDisciplined(front);
      assert forall d :: d in defs <==> d in front || d == last;
      var t, t' := Build(front), Build(defs);
      assert t'.definitions == if last.name in t.definitions then t.definitions else t.definitions[last.name := last];
    }
  }

  /** Under the discipline no key has two owners, so none was overwritten. */
  lemma KeyOwner(t: Table, def: CommandDefinition, key: string)
    requires Consistent(t) && Disciplined(t)
    requires def.name in t.definitions && t.definitions[def.name] == def && key in KeysOf(def)
    ensures key in t.lookup && t.lookup[key] in t.definitions && t.definitions[t.lookup[key]] == def
  {
    OwnersApart(t, def, t.definitions[t.lookup[key]], key);
  }

  lemma OwnersApart(t: Table, d1: CommandDefinition, d2: CommandDefinition, key: string)
    requires Disciplined(t)
    requires d1.name in t.definitions && t.definitions[d1.name] == d1
    requires d2.name in t.definitions && t.definitions[d2.name] == d2
    requires key in KeysOf(d1) && key in KeysOf(d2)
    ensures d1 == d2
  {
    assert Apart(d1, d2) && Apart(d2, d1);
    hide Disciplined, Apart;
    SharedKey(d1, d2, key);
  }

  lemma SharedKey(d1: CommandDefinition, d2: CommandDefinition, key: string)
    requires Apart(d1, d2) && Apart(d2, d1) && key in KeysOf(d1) && key in KeysOf(d2)
    ensures d1 == d2
  {
    hide Lower;
    EndsAtItself(key);
    if key != Lower(d1.command) {
      var a := KeyOfAlias(d1, key);
    }
    if key != Lower(d2.command) {
      var a := KeyOfAlias(d2, key);
    }
    hide EndsWord, KeysOf;
  }

  /** An alias of a definition is an alias key, and its command still leads to the same place. */
  lemma DisciplinedAlias(t: Table, def: CommandDefinition, a: string)
    requires Consistent(t) && Disciplined(t)
    requires def.name in t.definitions && t.definitions[def.name] == def && a in def.aliases
    ensures AliasKey(t, Lower(a)) && Canonical(t, Lower(a)) == Lower(def.command)
  {
    KeyOwner(t, def, Lower(a));
    assert Apart(def, def);
    EndsAtItself(Lower(def.command));
  }

  lemma EndsAtItself(key: string)
    ensures EndsWord(key, key)
  {
  }

  lemma KeyOfAlias(def: CommandDefinition, key: string) returns (a: string)
    requires key in KeysOf(def) && key != Lower(def.command)
    ensures a in def.aliases && Lower(a) == key
  {
    hide Lower;
    a :| a in def.aliases && Lower(a) == key;
  }

  /** An alias key comes from an alias, and under the discipline that is a single word. */
  lemma DisciplinedKey(t: Table, key: string) returns (a: string)
    requires Consistent(t) && Disciplined(t) && AliasKey(t, key)
    ensures key in t.lookup && a in Owner(t, key).aliases && Lower(a) == key && ' ' !in key
  {
    var def := Owner(t, key);
    assert key in KeysOf(def) && WellSpelled(def) && key != Lower(def.command);
    hide *;
    a := KeyOfAlias(def, key);
    SingleWord(def, a);
    AliasIsKey(t, key);
  }

  lemma SingleWord(def: CommandDefinition, a: string)
    requires WellSpelled(def) && a in def.aliases
    ensures ' ' !in Lower(a)
  {
    NoSpaceInLower(a);
  }

  lemma NoSpaceInLower(a: string)
    requires forall i :: 0 <= i < |a| ==> !IsWhitespace(a[i])
    ensures ' ' !in Lower(a)
  {
  }

  lemma DisciplinedHasNoChain(t: Table, k1: string, k2: string, ahead: string)
    requires Consistent(t) && Disciplined(t)
    ensures !Chained(t, k1, k2, ahead)
  {
    if AliasKey(t, k2) {
      var _ := DisciplinedKey(t, k2);
    }
    if k1 in t.lookup && AliasKey(t, Canonical(t, k1)) {
      var c := Canonical(t, k1);
      var a := DisciplinedKey(t, c);
      assert Apart(Owner(t, c), Owner(t, k1));
      EndsAtItself(c);
    }
    hide Disciplined, Consistent;
    SingleWordsDoNotChain(t, k1, k2, ahead);
  }

  /** Under the discipline a second pass changes nothing. */
  lemma OnePassSuffices(cmds: seq<string>, t: Table, text: string, found: PrefixMatch)
    requires Consistent(t) && GreedyOrder(cmds, t) && Disciplined(t)
    requires LongestPrefix(cmds, t, text) == Some(found)
    ensures var m := Canonicalise(cmds, t, found);
            Canonicalise(cmds, t, m) == m
  {
    hide *;
    var m := Canonicalise(cmds, t, found);
    if Canonicalise(cmds, t, m) != m {
      var k1, k2 := NotFinalChains(cmds, t, text);
      DisciplinedHasNoChain(t, k1, k2, []);
    }
  }

  lemma NoKeyGoesOn(t: Table, key: string, k: string)
    requires Consistent(t) && Disciplined(t) && AliasKey(t, key) && k in t.lookup && |k| > |key|
    ensures !EndsWord(k, key)
  {
    var a := DisciplinedKey(t, key);
    if AliasKey(t, k) {
      var _ := DisciplinedKey(t, k);
    } else {
      KeysAreApart(t, key, k);
    }
    hide Disciplined, Consistent, Lower, KeysOf, Owner;
  }

  lemma KeysAreApart(t: Table, k1: string, k2: string)
    requires Consistent(t) && Disciplined(t) && k1 in t.lookup && k2 in t.lookup
    ensures Apart(Owner(t, k1), Owner(t, k2))
  {
  }

  lemma GoesOn(key: string, rest: string, k: string)
    requires EndsWord(key + rest, k) && |k| > |key| && Tail(rest)
    ensures EndsWord(k, key)
  {
    assert k[..|key|] == (key + rest)[..|key|] == key;
    assert k[|key|] == (key + rest)[|key|] == rest[0];
  }

  /** Nor does a longer key go on from an alias. */
  lemma AliasLeads(t: Table, key: string, rest: string)
    requires Consistent(t) && Disciplined(t) && AliasKey(t, key) && Tail(rest)
    ensures LongestKey(t, key + rest, key)
  {
    assert key in t.lookup;
    EndsWordLonger(key, rest, key);
    EndsAtItself(key);
    hide Disciplined, Consistent, AliasKey, EndsWord, Tail;
    forall k | k in t.lookup && EndsWord(key + rest, k) ensures |k| <= |key| {
      if |k| > |key| {
        GoesOn(key, rest, k);
        NoKeyGoesOn(t, key, k);
      }
    }
  }

  lemma LowerCommand(s: string)
    requires Command(s)
    ensures Command(Lower(s))
  {
    SpaceInLower(s, 0);
    SpaceInLower(s, |s| - 1);
  }

  /**
   Under the discipline, then, an alias and its command can be typed for one another, in any case
   and with any tail that may follow a key.
   */
  lemma AliasIsTransparent(cmds: seq<string>, t: Table, def: CommandDefinition, a: string, typedAlias: string,
      typedCommand: string, tail: string)
    requires Consistent(t) && GreedyOrder(cmds, t) && Disciplined(t)
    requires def.name in t.definitions && t.definitions[def.name] == def && a in def.aliases
    requires Lower(typedAlias) == Lower(a) && Lower(typedCommand) == Lower(def.command) && Tail(TrimEnd(tail))
    ensures SameRequest(TryMatch(cmds, t, typedAlias + tail), TryMatch(cmds, t, typedCommand + tail))
  {
    var k1, c, rest := Lower(a), Lower(def.command), TrimEnd(tail);
    assert WellSpelled(def);
    LowerCommand(a);
    LowerCommand(def.command);
    DisciplinedAlias(t, def, a);
    KeyOwner(t, def, k1);
    KeyOwner(t, def, c);
    TailLower(rest);
    hide *;
    CommandIsSlashed(k1);
    CommandIsSlashed(c);
    AliasLeads(t, k1, Lower(rest));
    TypedTail(t, k1, typedAlias, typedCommand, tail);
    forall k2, k3 ensures !Diverts(t, k1, k2, k3) {
      if Diverts(t, k1, k2, k3) {
        DivertsMeans(t, k1, k2, k3);
        DisciplinedHasNoChain(t, k1, k2, Beyond(t, k2, k3));
      }
    }
    OwnersNamed(t, k1, c);
    CommandRunsAlone(cmds, t, c);
    UndivertedIsTransparent(cmds, t, k1);
    TransparentMeans(cmds, t, k1, typedAlias, typedCommand, tail);
  }

  /** An alias that ends in no white space leads the text whatever its tail, trimmed or not. */
  lemma TypedTail(t: Table, k1: string, typedAlias: string, typedCommand: string, tail: string)
    requires Consistent(t) && k1 in t.lookup && Command(k1)
    requires Lower(typedAlias) == k1 && Lower(typedCommand) == Canonical(t, k1) && Tail(TrimEnd(tail))
    requires LongestKey(t, k1 + Lower(TrimEnd(tail)), k1)
    ensures Typed(t, k1, typedAlias, typedCommand, tail)
  {
    TrimOfCommand(typedAlias, k1, tail);
    LowerConcat(typedAlias, TrimEnd(tail));
    hide Trim, TrimEnd, Lower, LongestKey, Canonical, Consistent, Tail, Command;
  }

  lemma TrimOfCommand(word: string, key: string, tail: string)
    requires Command(key) && Lower(word) == key
    ensures Trim(word + tail) == word + TrimEnd(tail)
  {
    CommandIsSlashed(key);
    TrimOfTyped(word, key, tail);
    SpaceInLower(word, |word| - 1);
    assert TrimEnd(word) == word && word + [] == word;
    hide Trim, Lower;
  }

  lemma OwnersNamed(t: Table, k1: string, k2: string)
    requires Consistent(t) && k1 in t.lookup && k2 in t.lookup && Owner(t, k1) == Owner(t, k2)
    ensures t.lookup[k1] == t.lookup[k2]
  {
    OwnerName(t, k1);
    OwnerName(t, k2);
  }

  // ---- a tangled table --------------------------------------------------------------------------------------

  /**
   Three definitions nothing stops from being registered: the command of `a` is also an alias
   of `x`, and `y` is a subcommand of `x`. All is lower case and the words are equally long.
   */
  ghost predicate Tangled(a: CommandDefinition, x: CommandDefinition, y: CommandDefinition, alias: string,
      tail: string) {
    && a.name != x.name && x.name != y.name && a.name != y.name
    && a.aliases == [alias] && x.aliases == [a.command] && y.aliases == [] && y.command == x.command + tail
    && |a.command| == |x.command| == |alias| && a.command != alias && a.command != x.command && alias != x.command
    && Command(alias) && Command(a.command) && Command(x.command)
    && tail != [] && tail[0] == ' ' && !IsWhitespace(tail[|tail| - 1])
    && Lower(alias) == alias && Lower(a.command) == a.command && Lower(x.command) == x.command && Lower(tail) == tail
  }

  lemma TangledTable(a: CommandDefinition, x: CommandDefinition, y: CommandDefinition, alias: string, tail: string)
    requires Tangled(a, x, y, alias, tail)
    ensures var t := Build([a, x, y]);
            && t.lookup == map[a.command := x.name, alias := a.name, x.command := x.name, y.command := y.name]
            && t.definitions == map[a.name := a, x.name := x, y.name := y]
            && Consistent(t)
  {
    BuildIsConsistent([a, x, y]);
    LowerConcat(x.command, tail);
    hide Lower, Consistent, Command, IsWhitespace;
    assert [a, x, y][..2] == [a, x] && [a, x][..1] == [a] && [a][..0] == [];
    assert [alias][1..] == [] && [a.command][1..] == [];
    var l1 := map[a.command := a.name, alias := a.name];
    assert WithAliases(EMPTY.lookup[a.command := a.name], [alias], a.name) == l1;
    assert WithAliases(l1[x.command := x.name], [a.command], x.name) == l1[x.command := x.name][a.command := x.name];
    hide WithAliases;
    assert Build([]) == EMPTY;
    assert Build([a]) == Table(map[a.name := a], l1);
  }

  lemma ShortKeyMatches(t: Table, word: string, tail: string, long: string)
    requires Lower(word) == word && Lower(tail) == tail && tail != [] && tail[0] == ' '
    requires word in t.lookup && t.lookup[word] in t.definitions
    requires forall k :: k in t.lookup ==> |k| == |word| || k == long
    requires |long| == |word + tail| && long != word + tail
    ensures IsLongest(t, word + tail, PrefixMatch(t.definitions[t.lookup[word]], word, tail))
  {
    LowerConcat(word, tail);
    hide Lower;
    var text := word + tail;
    assert text[..|word|] == word && text[|word|..] == tail;
  }

  lemma WholeKeyMatches(t: Table, key: string)
    requires Lower(key) == key && key in t.lookup && t.lookup[key] in t.definitions
    ensures IsLongest(t, key, PrefixMatch(t.definitions[t.lookup[key]], key, []))
  {
  }

  lemma TangledMatches(t: Table, a: CommandDefinition, x: CommandDefinition, y: CommandDefinition, alias: string,
      tail: string)
    requires Tangled(a, x, y, alias, tail)
    requires t.lookup == map[a.command := x.name, alias := a.name, x.command := x.name, y.command := y.name]
    requires t.definitions == map[a.name := a, x.name := x, y.name := y]
    ensures IsLongest(t, alias + tail, PrefixMatch(a, alias, tail))
    ensures IsLongest(t, a.command + tail, PrefixMatch(x, a.command, tail))
    ensures IsLongest(t, x.command + tail, PrefixMatch(y, y.command, []))
  {
    LowerConcat(x.command, tail);
    hide Lower, Command, IsWhitespace, IsLongest;
    var n := |alias|;
    assert (alias + tail)[..n] == alias && (a.command + tail)[..n] == a.command && y.command[..n] == x.command;
    ShortKeyMatches(t, alias, tail, y.command);
    ShortKeyMatches(t, a.command, tail, y.command);
    WholeKeyMatches(t, y.command);
  }

  /** A trimmed request runs the handler it resolves to. */
  lemma RunsHandler(cmds: seq<string>, t: Table, word: string, tail: string, first: PrefixMatch, m: PrefixMatch)
    requires Command(word) && tail != [] && !IsWhitespace(tail[|tail| - 1])
    requires LongestPrefix(cmds, t, word + tail) == Some(first) && Canonicalise(cmds, t, first) == m
    ensures TryMatch(cmds, t, word + tail).Some? && TryMatch(cmds, t, word + tail).value.name == m.definition.name
  {
    assert Trim(word + tail) == word + tail && Slashed(word + tail);
    hide *;
    ResolvesTo(cmds, t, word + tail, first);
    RunsResolved(cmds, t, word + tail);
  }

  lemma Redirected(cmds: seq<string>, t: Table, first: PrefixMatch, text: string, second: PrefixMatch)
    requires Lower(first.definition.command) != first.key && first.rest != []
    requires text == Lower(first.definition.command) + first.rest && LongestPrefix(cmds, t, text) == Some(second)
    ensures Canonicalise(cmds, t, first) == second
  {
  }

  lemma TangledKeys(t: Table, a: CommandDefinition, x: CommandDefinition, y: CommandDefinition, alias: string,
      tail: string)
    requires Tangled(a, x, y, alias, tail) && Consistent(t)
    requires t.lookup == map[a.command := x.name, alias := a.name, x.command := x.name, y.command := y.name]
    requires t.definitions == map[a.name := a, x.name := x, y.name := y]
    ensures alias in t.lookup && a.command in t.lookup && y.command in t.lookup
    ensures AliasKey(t, alias) && AliasKey(t, a.command)
    ensures Canonical(t, alias) == a.command && Canonical(t, a.command) == x.command
    ensures t.lookup[y.command] != t.lookup[a.command]
  {
    hide Lower, Command, IsWhitespace, Consistent;
    assert |y.command| > |x.command|;
  }

  /** The chain through the alias, to the command that is an alias, to the subcommand. */
  lemma TangledDiverts(t: Table, a: CommandDefinition, x: CommandDefinition, y: CommandDefinition, alias: string,
      tail: string)
    requires Tangled(a, x, y, alias, tail) && Consistent(t)
    requires t.lookup == map[a.command := x.name, alias := a.name, x.command := x.name, y.command := y.name]
    requires t.definitions == map[a.name := a, x.name := x, y.name := y]
    ensures Diverts(t, alias, a.command, y.command)
  {
    LowerConcat(alias, tail);
    LowerConcat(a.command, tail);
    EndsAtItself(x.command);
    EndsWordLonger(x.command, tail, x.command);
    assert EndsWord(y.command, x.command) && y.command == x.command + tail;
    TangledMatches(t, a, x, y, alias, tail);
    hide *;
    TangledKeys(t, a, x, y, alias, tail);
    IsLongestKey(t, alias + tail, PrefixMatch(a, alias, tail));
    IsLongestKey(t, a.command + tail, PrefixMatch(x, a.command, tail));
    CommandChains(t, alias, tail);
    DivertsThen(t, alias, a.command, y.command, tail);
  }

  lemma IsLongestKey(t: Table, text: string, m: PrefixMatch)
    requires IsLongest(t, text, m) && Lower(text) == text
    ensures LongestKey(t, text, m.key)
  {
    assert forall k :: k in t.lookup && EndsWord(text, k) ==> Fits(t, text, k);
  }

  /**
   Then an alias is not its command: for two spellings of one request, through the alias and
   direct, different handlers run.
   */
  lemma TangledAliasMisleads(cmds: seq<string>, a: CommandDefinition, x: CommandDefinition, y: CommandDefinition,
      alias: string, tail: string)
    requires Tangled(a, x, y, alias, tail) && GreedyOrder(cmds, Build([a, x, y]))
    ensures var t := Build([a, x, y]);
            var viaAlias, direct := TryMatch(cmds, t, alias + tail), TryMatch(cmds, t, a.command + tail);
            && viaAlias.Some? && viaAlias.value.name == x.name
            && direct.Some? && direct.value.name == y.name
            && Consistent(t) && Diverts(t, alias, a.command, y.command)
  {
    var t := Build([a, x, y]);
    TangledTable(a, x, y, alias, tail);
    TangledDiverts(t, a, x, y, alias, tail);
    TangledMatches(t, a, x, y, alias, tail);
    hide LongestPrefix, IsLongest, Consistent, GreedyOrder, TryMatch, Canonicalise, Build, Lower, Command, IsWhitespace;
    var viaA, viaX, viaY := PrefixMatch(a, alias, tail), PrefixMatch(x, a.command, tail), PrefixMatch(y, y.command, []);
    LongestIs(cmds, t, alias + tail, viaA);
    LongestIs(cmds, t, a.command + tail, viaX);
    LongestIs(cmds, t, x.command + tail, viaY);
    Redirected(cmds, t, viaA, a.command + tail, viaX);
    Redirected(cmds, t, viaX, x.command + tail, viaY);
    RunsHandler(cmds, t, alias, tail, viaA, viaX);
    RunsHandler(cmds, t, a.command, tail, viaX, viaY);
  }

  /** For one: `/b` for `/a`, `/a` for `/x`, and `/x foo`. `/b foo` runs `x` and `/a foo` runs `y`. */
  lemma SlashBFoo(cmds: seq<string>, a: CommandDefinition, x: CommandDefinition, y: CommandDefinition,
      viaAlias: string, direct: string)
    requires a == CommandDefinition("a", "/a", ["/b"], "") && x == CommandDefinition("x", "/x", ["/a"], "")
    requires y == CommandDefinition("y", "/x foo", [], "") && viaAlias == "/b foo" && direct == "/a foo"
    requires GreedyOrder(cmds, Build([a, x, y]))
    ensures var t := Build([a, x, y]);
            && TryMatch(cmds, t, viaAlias).Some? && TryMatch(cmds, t, viaAlias).value.name == "x"
            && TryMatch(cmds, t, direct).Some? && TryMatch(cmds, t, direct).value.name == "y"
            && Consistent(t) && Diverts(t, "/b", "/a", "/x foo")
  {
    hide Build, GreedyOrder, TryMatch, Consistent, Diverts;
    assert Lower("/a") == "/a" && Lower("/b") == "/b" && Lower("/x") == "/x" && Lower(" foo") == " foo";
    assert "/b" + " foo" == viaAlias && "/a" + " foo" == direct && "/x" + " foo" == y.command;
    TangledAliasMisleads(cmds, a, x, y, "/b", " foo");
  }
}
