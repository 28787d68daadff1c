/**
 Aliases and the one pass that canonicalises them (src/commands/matcher.rs): on exactly
 which tables a second pass would change nothing, and on which an alias stands for its command.
 */
module Aliases {
  import opened Chars
  import opened Commands

  // ---- keys -----------------------------------------------------------------------------

  /** `key` is the longest registered key that ends a word of `s`, a lowered text. */
  ghost predicate LongestKey(t: Table, s: string, key: string) {
    && key in t.lookup && EndsWord(s, key)
    && forall k :: k in t.lookup && EndsWord(s, k) ==> |k| <= |key|
  }

  ghost function Owner(t: Table, key: string): CommandDefinition
    requires Consistent(t) && key in t.lookup
  {
    t.definitions[t.lookup[key]]
  }

  /** The canonical command of the definition a key leads to, as the matcher spells it. */
  ghost function Canonical(t: Table, key: string): string
    requires Consistent(t) && key in t.lookup
  {
    Lower(Owner(t, key).command)
  }

  /** A key other than the canonical command of the definition it leads to. */
  ghost predicate AliasKey(t: Table, key: string)
    requires Consistent(t)
  {
    key in t.lookup && key != Canonical(t, key)
  }

  lemma AliasIsKey(t: Table, key: string)
    requires Consistent(t) && AliasKey(t, key)
    ensures key in t.lookup
  {
  }

  lemma CanonicalIsKey(t: Table, key: string)
    requires Consistent(t) && key in t.lookup
    ensures Canonical(t, key) in t.lookup && Lower(Canonical(t, key)) == Canonical(t, key) && Lower(key) == key
  {
    KeysAreLower(t, key);
    assert Canonical(t, key) in KeysOf(Owner(t, key));
    KeysAreLower(t, Canonical(t, key));
  }

  /** The match the matcher reports for a key at the head of `typed + rest`. */
  ghost function MatchOf(t: Table, key: string, rest: string): PrefixMatch
    requires Consistent(t) && key in t.lookup
  {
    PrefixMatch(Owner(t, key), key, rest)
  }

  /** What the greedy search finds is the longest key, with the text behind it. */
  lemma Finds(cmds: seq<string>, t: Table, text: string, key: string, rest: string)
    requires Consistent(t) && GreedyOrder(cmds, t)
    requires LongestKey(t, Lower(text), key) && text[|key|..] == rest
    ensures LongestPrefix(cmds, t, text) == Some(MatchOf(t, key, rest))
  {
    forall k | Fits(t, text, k) ensures k == key || |k| < |key| {
      EqualLengths(t, text, k, key);
    }
    LongestIs(cmds, t, text, MatchOf(t, key, rest));
  }

  lemma FoundIsLongest(cmds: seq<string>, t: Table, text: string)
    requires Consistent(t) && GreedyOrder(cmds, t) && LongestPrefix(cmds, t, text).Some?
    ensures var m := LongestPrefix(cmds, t, text).value;
            && LongestKey(t, Lower(text), m.key) && |m.key| <= |text|
            && m == MatchOf(t, m.key, text[|m.key|..])
  {
    LongestMatch(cmds, t, text);
    hide LongestPrefix, GreedyOrder, Lower, Consistent;
    var m := LongestPrefix(cmds, t, text).value;
    assert forall k :: k in t.lookup && EndsWord(Lower(text), k) ==> Fits(t, text, k);
  }

  /** What may follow a key: nothing, or arguments after a space. */
  predicate Tail(tail: string) {
    tail == [] || tail[0] == ' '
  }

  lemma EndsWordLonger(a: string, b: string, key: string)
    requires Tail(b)
    ensures EndsWord(a, key) ==> EndsWord(a + b, key)
    ensures EndsWord(a + b, key) && |key| <= |a| ==> EndsWord(a, key)
  {
    if |key| <= |a| {
      assert (a + b)[..|key|] == a[..|key|];
      assert key <= a <==> a[..|key|] == key;
      assert key <= a + b <==> (a + b)[..|key|] == key;
    }
  }

  /** The longest key stays it when the text is cut behind it. */
  lemma CutLongest(t: Table, a: string, b: string, key: string)
    requires LongestKey(t, a + b, key) && Tail(b) && |key| <= |a|
    ensures LongestKey(t, a, key)
  {
    forall k { EndsWordLonger(a, b, k); }
  }

  /** A space and a word longer than any key. */
  ghost predicate Padding(t: Table, pad: string) {
    && pad != [] && pad[0] == ' ' && Lower(pad) == pad && !IsWhitespace(pad[|pad| - 1])
    && (forall i :: 0 < i < |pad| ==> pad[i] != ' ')
    && (forall k :: k in t.lookup ==> |k| < |pad|)
  }

  lemma SomePadding(cmds: seq<string>, t: Table) returns (pad: string)
    requires GreedyOrder(cmds, t)
    ensures Padding(t, pad)
  {
    var n := if cmds == [] then 1 else |cmds[0]| + 1;
    pad := [' '] + seq(n, _ => 'x');
    forall k | k in t.lookup ensures |k| < |pad| {
      assert k in cmds;
    }
  }

  /** The longest key stays it when the padding follows. */
  lemma PadLongest(t: Table, s: string, pad: string, key: string)
    requires LongestKey(t, s, key) && Padding(t, pad)
    ensures LongestKey(t, s + pad, key)
  {
    forall k | k in t.lookup && EndsWord(s + pad, k) ensures |k| <= |key| {
      EndsWordLonger(s, pad, k);
    }
    EndsWordLonger(s, pad, key);
  }

  lemma SelfLongest(t: Table, key: string)
    requires key in t.lookup
    ensures LongestKey(t, key, key)
  {
  }

  // ---- chains --------------------------------------------------------------------------------

  /**
   A request led by the alias key `k1` is rewritten and then led by `k2`, an alias key too: `k2`
   is or goes on from the canonical command of `k1`. `ahead` is text that follows.
   */
  ghost predicate Chained(t: Table, k1: string, k2: string, ahead: string)
    requires Consistent(t)
  {
    && AliasKey(t, k1) && AliasKey(t, k2) && EndsWord(k2, Canonical(t, k1))
    && LongestKey(t, k1 + Beyond(t, k1, k2) + ahead, k1)
    && LongestKey(t, k2 + ahead, k2)
  }

  /** What `k2` adds to the canonical command of `k1`. */
  ghost function Beyond(t: Table, k1: string, k2: string): (e: string)
    requires Consistent(t) && k1 in t.lookup && EndsWord(k2, Canonical(t, k1))
    ensures Canonical(t, k1) + e == k2 && Tail(e)
  {
    k2[|Canonical(t, k1)|..]
  }

  lemma SpaceInLower(s: string, i: nat)
    requires i < |s|
    ensures Lower(s)[i] == ' ' <==> s[i] == ' '
    ensures IsWhitespace(Lower(s)[i]) <==> IsWhitespace(s[i])
    ensures Lower(s)[i] == '/' <==> s[i] == '/'
  {
  }

  lemma TailLower(tail: string)
    ensures Tail(Lower(tail)) <==> Tail(tail)
  {
  }

  /** Text led by a canonical command matches a key that is or goes on from it. */
  lemma Rewritten(cmds: seq<string>, t: Table, k: string, rest: string) returns (next: string, at: nat)
    requires Consistent(t) && GreedyOrder(cmds, t) && k in t.lookup && Tail(rest)
    ensures at <= |rest| && Tail(rest[at..]) && next in t.lookup
    ensures next == Canonical(t, k) + Lower(rest[..at]) && EndsWord(next, Canonical(t, k))
    ensures LongestKey(t, Canonical(t, k) + Lower(rest), next)
    ensures LongestPrefix(cmds, t, Canonical(t, k) + rest) == Some(MatchOf(t, next, rest[at..]))
  {
    var c := Canonical(t, k);
    var text := c + rest;
    CanonicalIsKey(t, k);
    LowerConcat(c, rest);
    TailLower(rest);
    EndsWordLonger(c, Lower(rest), c);
    hide Lower, Consistent, GreedyOrder, Canonical, Owner, KeysOf;
    assert Fits(t, text, c);
    LongestMatch(cmds, t, text);
    FoundIsLongest(cmds, t, text);
    hide LongestPrefix;
    next := LongestPrefix(cmds, t, text).value.key;
    at := |next| - |c|;
    AfterKey(c, rest, next, at);
  }

  lemma AfterKey(c: string, rest: string, key: string, at: nat)
    requires EndsWord(c + Lower(rest), key) && |key| == |c| + at && Tail(rest)
    ensures at <= |rest| && Tail(rest[at..]) && key == c + Lower(rest[..at]) && EndsWord(key, c)
    ensures (c + rest)[|key|..] == rest[at..]
  {
    assert key == (c + Lower(rest))[..|key|] == c + Lower(rest)[..at] == c + Lower(rest[..at]);
    if at < |rest| { assert (c + Lower(rest))[|key|] == Lower(rest)[at]; }
    if 0 < at { assert key[|c|] == Lower(rest)[0]; }
  }

  /** A match through an alias is canonicalised to what its rewritten text leads to. */
  lemma Hop(cmds: seq<string>, t: Table, k: string, rest: string)
    requires Consistent(t) && AliasKey(t, k) && rest != []
    requires LongestPrefix(cmds, t, Canonical(t, k) + rest).Some?
    ensures Some(Canonicalise(cmds, t, MatchOf(t, k, rest))) == LongestPrefix(cmds, t, Canonical(t, k) + rest)
  {
  }

  lemma FinalMatch(cmds: seq<string>, t: Table, k: string, rest: string)
    requires Consistent(t) && k in t.lookup && (!AliasKey(t, k) || rest == [])
    ensures Canonicalise(cmds, t, MatchOf(t, k, rest)) == MatchOf(t, k, rest)
  {
  }

  // ---- from requests to chains ------------------------------------------------------------

  /** A request the alias key `k1` leads shows that `k1` and the key it is rewritten to are chained. */
  lemma RequestChains(t: Table, k1: string, k2: string, rest: string, at: nat, more: nat)
    requires Consistent(t) && AliasKey(t, k1) && AliasKey(t, k2)
    requires at + more <= |rest| && Tail(rest) && Tail(rest[at..]) && Tail(rest[at + more..])
    requires k2 == Canonical(t, k1) + Lower(rest[..at]) && EndsWord(k2, Canonical(t, k1))
    requires LongestKey(t, k1 + Lower(rest), k1) && LongestKey(t, Canonical(t, k1) + Lower(rest), k2)
    ensures Chained(t, k1, k2, Lower(rest[at..at + more]))
  {
    var e1, e2, e3 := Lower(rest[..at]), Lower(rest[at..at + more]), Lower(rest[at + more..]);
    LowerParts(rest, at, more);
    TailLower(rest[at + more..]);
    var c := Canonical(t, k1);
    hide Lower, AliasKey, Canonical, Consistent, EndsWord, LongestKey, Tail;
    Parts(k1, e1, e2, e3);
    Parts(c, e1, e2, e3);
    CutLongest(t, k1 + e1 + e2, e3, k1);
    CutLongest(t, k2 + e2, e3, k2);
    assert Beyond(t, k1, k2) == e1;
  }

  lemma LowerParts(s: string, at: nat, more: nat)
    requires at + more <= |s|
    ensures Lower(s) == Lower(s[..at]) + Lower(s[at..at + more]) + Lower(s[at + more..])
  {
    assert s == s[..at] + s[at..at + more] + s[at + more..];
    LowerConcat(s[..at] + s[at..at + more], s[at + more..]);
    LowerConcat(s[..at], s[at..at + more]);
  }

  lemma Parts(a: string, b: string, c: string, d: string)
    ensures a + (b + c + d) == (a + b + c) + d
  {
  }

  // ---- from chains to requests --------------------------------------------------------------

  lemma ChainedMeans(t: Table, k1: string, k2: string, ahead: string)
    requires Consistent(t) && Chained(t, k1, k2, ahead)
    ensures AliasKey(t, k1) && AliasKey(t, k2) && k1 in t.lookup && k2 in t.lookup && EndsWord(k2, Canonical(t, k1))
    ensures Lower(k1) == k1 && Lower(k2) == k2 && Lower(Beyond(t, k1, k2)) == Beyond(t, k1, k2)
    ensures LongestKey(t, k1 + Beyond(t, k1, k2) + ahead, k1) && LongestKey(t, k2 + ahead, k2)
    ensures Canonical(t, k1) + Beyond(t, k1, k2) == k2
  {
    CanonicalIsKey(t, k1);
    CanonicalIsKey(t, k2);
    LowerConcat(Canonical(t, k1), Beyond(t, k1, k2));
    hide Lower, LongestKey;
    var c, e := Canonical(t, k1), Beyond(t, k1, k2);
    assert (c + e)[|c|..] == e && (Lower(c) + Lower(e))[|c|..] == Lower(e);
  }

  /** A chain is met by a request: the first key, what leads to the second, what lies ahead, and a long word. */
  lemma ChainIsMet(cmds: seq<string>, t: Table, k1: string, k2: string, ahead: string, pad: string)
    requires Consistent(t) && GreedyOrder(cmds, t) && Chained(t, k1, k2, ahead) && Padding(t, pad)
    requires Lower(ahead) == ahead && EndsWord(k2, Canonical(t, k1)) && k1 in t.lookup && k2 in t.lookup
    ensures var rest := Beyond(t, k1, k2) + ahead + pad;
            && Lower(k1 + rest) == k1 + rest && LongestKey(t, k1 + rest, k1)
            && LongestPrefix(cmds, t, Canonical(t, k1) + rest) == Some(MatchOf(t, k2, ahead + pad))
  {
    hide *;
    ChainedMeans(t, k1, k2, ahead);
    var c, e := Canonical(t, k1), Beyond(t, k1, k2);
    PadLongest(t, k1 + e + ahead, pad, k1);
    PadLongest(t, k2 + ahead, pad, k2);
    PadIsLower(t, pad);
    Regroup(k1, e, ahead, pad);
    Regroup(c, e, ahead, pad);
    LowerFour(k1, e, ahead, pad);
    LowerFour(k2, ahead, pad, []);
    assert k2 + (ahead + pad + []) == k2 + ahead + pad;
    Finds(cmds, t, k2 + ahead + pad, k2, ahead + pad);
  }

  lemma PadIsLower(t: Table, pad: string)
    requires Padding(t, pad)
    ensures Lower(pad) == pad && Tail(pad) && pad != []
  {
  }

  lemma Regroup(a: string, b: string, c: string, d: string)
    ensures a + (b + c + d) == a + b + c + d && (a + b + c + d)[|a + b|..] == c + d
  {
  }

  lemma LowerFour(a: string, b: string, c: string, d: string)
    requires Lower(a) == a && Lower(b) == b && Lower(c) == c && Lower(d) == d
    ensures Lower(a + (b + c + d)) == a + (b + c + d)
  {
    LowerConcat(b, c);
    LowerConcat(b + c, d);
    LowerConcat(a, b + c + d);
  }

  // ---- one pass --------------------------------------------------------------------------------

  /** One pass over what `text` matches leaves nothing for a second. */
  predicate FinalAfterOne(cmds: seq<string>, t: Table, text: string) {
    var s := Trim(text);
    Slashed(s) && LongestPrefix(cmds, t, s).Some? ==>
      var m := Canonicalise(cmds, t, LongestPrefix(cmds, t, s).value);
      Canonicalise(cmds, t, m) == m
  }

  predicate Slashed(s: string) {
    s != [] && s[0] == '/'
  }

  /** A match through an alias with text behind it is not final. */
  lemma AliasIsNotFinal(cmds: seq<string>, t: Table, k: string, rest: string)
    requires Consistent(t) && GreedyOrder(cmds, t) && AliasKey(t, k) && rest != [] && Tail(rest)
    ensures Canonicalise(cmds, t, MatchOf(t, k, rest)) != MatchOf(t, k, rest)
  {
    var next, at := Rewritten(cmds, t, k, rest);
    Hop(cmds, t, k, rest);
    hide Consistent, GreedyOrder, LongestKey, Canonicalise, LongestPrefix;
    assert at == 0 ==> next == Canonical(t, k) + [] == Canonical(t, k);
  }

  /** A padded request is what it is after trimming. */
  lemma PaddedIsTrimmed(t: Table, s: string, pad: string)
    requires Slashed(s) && Padding(t, pad)
    ensures Trim(s + pad) == s + pad && Slashed(s + pad)
  {
    assert (s + pad)[|s + pad| - 1] == pad[|pad| - 1];
  }

  /** The key at the head of a request starts with the slash. */
  lemma LeadsSlashed(t: Table, text: string, key: string)
    requires Slashed(text) && LongestKey(t, Lower(text), key)
    ensures Slashed(key)
  {
    assert Lower(text)[0] == '/';
  }

  /** A match splits its text: the key, as typed, and what follows. */
  lemma MatchSplits(cmds: seq<string>, t: Table, text: string) returns (k: string, rest: string)
    requires Consistent(t) && GreedyOrder(cmds, t) && LongestPrefix(cmds, t, text).Some?
    ensures k in t.lookup && LongestPrefix(cmds, t, text) == Some(MatchOf(t, k, rest))
    ensures Tail(rest) && LongestKey(t, k + Lower(rest), k) && LongestKey(t, Lower(text), k)
  {
    hide *;
    FoundIsLongest(cmds, t, text);
    k := LongestPrefix(cmds, t, text).value.key;
    rest := text[|k|..];
    SplitBehind(t, text, k);
  }

  lemma SplitBehind(t: Table, text: string, k: string)
    requires LongestKey(t, Lower(text), k) && |k| <= |text|
    ensures Lower(text) == k + Lower(text[|k|..]) && Tail(text[|k|..]) && LongestKey(t, k + Lower(text[|k|..]), k)
    ensures k in t.lookup
  {
    var head, rest := text[..|k|], text[|k|..];
    assert EndsWord(Lower(text), k) && k in t.lookup;
    hide LongestKey;
    assert text == head + rest;
    LowerConcat(head, rest);
    assert k == Lower(text)[..|k|] == Lower(head);
    if rest != [] { SpaceInLower(text, |k|); }
  }

  lemma NotFinalChains(cmds: seq<string>, t: Table, text: string) returns (k1: string, k2: string)
    requires Consistent(t) && GreedyOrder(cmds, t) && LongestPrefix(cmds, t, text).Some?
    requires var m := Canonicalise(cmds, t, LongestPrefix(cmds, t, text).value); Canonicalise(cmds, t, m) != m
    ensures Chained(t, k1, k2, []) && LongestKey(t, Lower(text), k1)
  {
    hide *;
    var rest;
    k1, rest := MatchSplits(cmds, t, text);
    k2 := [];
    if !AliasKey(t, k1) || rest == [] {
      FinalMatch(cmds, t, k1, rest);
    } else {
      var at;
      k2, at := Rewritten(cmds, t, k1, rest);
      Hop(cmds, t, k1, rest);
      if !AliasKey(t, k2) || rest[at..] == [] {
        FinalMatch(cmds, t, k2, rest[at..]);
      } else {
        RequestChains(t, k1, k2, rest, at, 0);
        NothingAhead(rest, at);
      }
    }
  }

  lemma NothingAhead(s: string, at: nat)
    requires at <= |s|
    ensures Lower(s[at..at + 0]) == []
  {
  }

  lemma SomeChain(cmds: seq<string>, t: Table, text: string) returns (k1: string, k2: string)
    requires Consistent(t) && GreedyOrder(cmds, t) && !FinalAfterOne(cmds, t, text)
    ensures Slashed(k1) && Chained(t, k1, k2, [])
  {
    var s := Trim(text);
    assert Slashed(s) && LongestPrefix(cmds, t, s).Some?;
    hide Trim, LongestPrefix, Consistent, GreedyOrder, LongestKey, Chained, Canonicalise, Lower;
    k1, k2 := NotFinalChains(cmds, t, s);
    LeadsSlashed(t, s, k1);
  }

  /** The request that meets a chain, and what its one pass makes of it. */
  lemma ChainRequest(cmds: seq<string>, t: Table, k1: string, k2: string, ahead: string, pad: string)
    returns (rest: string)
    requires Consistent(t) && GreedyOrder(cmds, t) && Slashed(k1) && Chained(t, k1, k2, ahead) && Padding(t, pad)
    requires Lower(ahead) == ahead
    ensures Trim(k1 + rest) == k1 + rest && Slashed(k1 + rest) && k1 in t.lookup && k2 in t.lookup
    ensures LongestPrefix(cmds, t, k1 + rest) == Some(MatchOf(t, k1, rest))
    ensures Canonicalise(cmds, t, MatchOf(t, k1, rest)) == MatchOf(t, k2, ahead + pad)
  {
    hide *;
    ChainedMeans(t, k1, k2, ahead);
    ChainIsMet(cmds, t, k1, k2, ahead, pad);
    PadIsLower(t, pad);
    var e := Beyond(t, k1, k2);
    rest := e + ahead + pad;
    SlashedGrows(k1, e + ahead);
    PaddedIsTrimmed(t, k1 + (e + ahead), pad);
    assert k1 + rest == k1 + (e + ahead) + pad && (k1 + rest)[|k1|..] == rest;
    Finds(cmds, t, k1 + rest, k1, rest);
    Hop(cmds, t, k1, rest);
  }

  lemma SlashedGrows(s: string, more: string)
    requires Slashed(s)
    ensures Slashed(s + more)
  {
  }

  lemma ChainIsNotFinal(cmds: seq<string>, t: Table, k1: string, k2: string) returns (text: string)
    requires Consistent(t) && GreedyOrder(cmds, t) && Slashed(k1) && Chained(t, k1, k2, [])
    ensures !FinalAfterOne(cmds, t, text)
  {
    hide *;
    var pad := SomePadding(cmds, t);
    LowerNothing();
    var rest := ChainRequest(cmds, t, k1, k2, [], pad);
    text := k1 + rest;
    ChainedMeans(t, k1, k2, []);
    PadIsLower(t, pad);
    assert [] + pad == pad;
    AliasIsNotFinal(cmds, t, k2, pad);
    if FinalAfterOne(cmds, t, text) { FinalMeans(cmds, t, text); }
  }

  lemma LowerNothing()
    ensures Lower([]) == []
  {
  }

  lemma FinalMeans(cmds: seq<string>, t: Table, text: string)
    requires Slashed(text) && Trim(text) == text && LongestPrefix(cmds, t, text).Some? && FinalAfterOne(cmds, t, text)
    ensures var m := Canonicalise(cmds, t, LongestPrefix(cmds, t, text).value);
            Canonicalise(cmds, t, m) == m
  {
  }

  /**
   One pass is final for every request exactly when no alias key is rewritten into another:
   when for no two alias keys the second is or goes on from the canonical command of the first,
   in a text the first leads.
   */
  lemma OnePassExactly(cmds: seq<string>, t: Table)
    requires Consistent(t) && GreedyOrder(cmds, t)
    ensures (forall text :: FinalAfterOne(cmds, t, text)) <==>
            (forall k1, k2 :: Slashed(k1) ==> !Chained(t, k1, k2, []))
  {
    hide *;
    forall text | !FinalAfterOne(cmds, t, text) ensures exists k1, k2 :: Slashed(k1) && Chained(t, k1, k2, []) {
      var k1, k2 := SomeChain(cmds, t, text);
    }
    forall k1, k2 | Slashed(k1) && Chained(t, k1, k2, []) ensures exists text :: !FinalAfterOne(cmds, t, text) {
      var text := ChainIsNotFinal(cmds, t, k1, k2);
    }
  }

  // ---- what another pass would serve -------------------------------------------------------------

  /** The two matches run the same handler with the same arguments. */
  predicate SameCall(m1: PrefixMatch, m2: PrefixMatch) {
    m1.definition.name == m2.definition.name && SplitWhitespace(m1.rest) == SplitWhitespace(m2.rest)
  }

  /**
   A chain from `k1` to `k2` goes on to `k3`, and there another handler runs or a word of the
   arguments is taken into the key.
   */
  ghost predicate Diverts(t: Table, k1: string, k2: string, k3: string)
    requires Consistent(t)
  {
    && k2 in t.lookup && k3 in t.lookup && EndsWord(k3, Canonical(t, k2))
    && Chained(t, k1, k2, Beyond(t, k2, k3))
    && (t.lookup[k3] != t.lookup[k2] || !AllSpace(Beyond(t, k2, k3)))
  }

  /** `try_match` with one pass more. */
  function TryMatchTwice(cmds: seq<string>, t: Table, text: string): Option<ParsedCommand> {
    var trimmed := Trim(text);
    if trimmed == [] || trimmed[0] != '/' then None
    else match LongestPrefix(cmds, t, trimmed)
         case None => None
         case Some(first) =>
           var m := Canonicalise(cmds, t, Canonicalise(cmds, t, first));
           Some(ParsedCommand(m.definition.name, SplitWhitespace(m.rest), trimmed))
  }

  lemma {:induction false} WordsSplit(a: string, b: string, word: string)
    requires Tail(b)
    ensures WordsFrom(a + b, word) == WordsFrom(a, word) + WordsFrom(b, [])
    ensures WordsFrom(a, word) == [] <==> word == [] && AllSpace(a)
  {
    if a == [] {
      assert a + b == b;
    } else {
      assert (a + b)[1..] == a[1..] + b;
      if IsWhitespace(a[0]) { WordsSplit(a[1..], b, []); } else { WordsSplit(a[1..], b, word + [a[0]]); }
    }
  }

  /** Words are lost with a head unless it is all white space. */
  lemma WordsTaken(head: string, tail: string)
    requires Tail(tail)
    ensures SplitWhitespace(head + tail) == SplitWhitespace(tail) <==> AllSpace(head)
  {
    WordsSplit(head, tail, []);
  }

  lemma AllSpaceInLower(s: string)
    ensures AllSpace(Lower(s)) <==> AllSpace(s)
  {
    forall i: nat | i < |s| ensures IsWhitespace(Lower(s)[i]) <==> IsWhitespace(s[i]) { SpaceInLower(s, i); }
  }

  lemma OwnerName(t: Table, key: string)
    requires Consistent(t) && key in t.lookup
    ensures Owner(t, key).name == t.lookup[key]
  {
  }

  /** The next hop changes the call exactly when it changes the handler or takes a word. */
  lemma HopChanges(t: Table, k2: string, k3: string, rest: string, at: nat)
    requires Consistent(t) && k2 in t.lookup && k3 in t.lookup && at <= |rest| && Tail(rest[at..])
    ensures SameCall(MatchOf(t, k3, rest[at..]), MatchOf(t, k2, rest)) <==>
            t.lookup[k3] == t.lookup[k2] && AllSpace(Lower(rest[..at]))
  {
    OwnerName(t, k2);
    OwnerName(t, k3);
    AllSpaceInLower(rest[..at]);
    WordsTaken(rest[..at], rest[at..]);
    assert rest == rest[..at] + rest[at..];
    hide Consistent, Lower, AllSpace, SplitWhitespace, Owner;
  }

  lemma DivertsThen(t: Table, k1: string, k2: string, k3: string, e: string)
    requires Consistent(t) && k2 in t.lookup && k3 in t.lookup && EndsWord(k3, Canonical(t, k2))
    requires k3 == Canonical(t, k2) + e && Chained(t, k1, k2, e) && !(t.lookup[k3] == t.lookup[k2] && AllSpace(e))
    ensures Diverts(t, k1, k2, k3)
  {
    hide Chained, Consistent, EndsWord, AllSpace;
    assert Beyond(t, k2, k3) == e;
  }

  /** Without a diversion from `k1`, another pass serves every request it leads as the first did. */
  lemma UndivertedCall(cmds: seq<string>, t: Table, k1: string, rest: string)
    requires Consistent(t) && GreedyOrder(cmds, t) && AliasKey(t, k1) && rest != [] && Tail(rest)
    requires LongestKey(t, k1 + Lower(rest), k1)
    ensures var m := Canonicalise(cmds, t, MatchOf(t, k1, rest));
            SameCall(Canonicalise(cmds, t, m), m) || exists k2, k3 :: Diverts(t, k1, k2, k3)
  {
    hide *;
    AliasIsKey(t, k1);
    var k2, at := Rewritten(cmds, t, k1, rest);
    Hop(cmds, t, k1, rest);
    var left := rest[at..];
    if !AliasKey(t, k2) || left == [] {
      FinalMatch(cmds, t, k2, left);
      SameCallAsItself(MatchOf(t, k2, left));
    } else {
      var k3, more := Rewritten(cmds, t, k2, left);
      Hop(cmds, t, k2, left);
      HopChanges(t, k2, k3, left, more);
      assert left[..more] == rest[at..at + more] && left[more..] == rest[at + more..];
      RequestChains(t, k1, k2, rest, at, more);
      if !SameCall(MatchOf(t, k3, left[more..]), MatchOf(t, k2, left)) {
        DivertsThen(t, k1, k2, k3, Lower(left[..more]));
      }
    }
  }

  lemma SameCallAsItself(m: PrefixMatch)
    ensures SameCall(m, m)
  {
  }

  lemma DivertsMeans(t: Table, k1: string, k2: string, k3: string)
    requires Consistent(t) && Diverts(t, k1, k2, k3)
    ensures k2 in t.lookup && k3 in t.lookup && EndsWord(k3, Canonical(t, k2)) && AliasKey(t, k2) && AliasKey(t, k1)
    ensures Chained(t, k1, k2, Beyond(t, k2, k3)) && Lower(k3) == k3 && Lower(Beyond(t, k2, k3)) == Beyond(t, k2, k3)
    ensures !(t.lookup[k3] == t.lookup[k2] && AllSpace(Beyond(t, k2, k3)))
    ensures Canonical(t, k2) + Beyond(t, k2, k3) == k3
  {
    CanonicalIsKey(t, k2);
    CanonicalIsKey(t, k3);
    LowerConcat(Canonical(t, k2), Beyond(t, k2, k3));
    hide Lower, LongestKey;
    var c, e := Canonical(t, k2), Beyond(t, k2, k3);
    assert (c + e)[|c|..] == e && (Lower(c) + Lower(e))[|c|..] == Lower(e);
  }

  /** A diversion is met by a request that another pass would serve otherwise. */
  lemma DivertedCall(cmds: seq<string>, t: Table, k1: string, k2: string, k3: string) returns (rest: string)
    requires Consistent(t) && GreedyOrder(cmds, t) && Slashed(k1) && Diverts(t, k1, k2, k3)
    ensures Trim(k1 + rest) == k1 + rest && Slashed(k1 + rest) && k1 in t.lookup
    ensures LongestPrefix(cmds, t, k1 + rest) == Some(MatchOf(t, k1, rest))
    ensures var m := Canonicalise(cmds, t, MatchOf(t, k1, rest)); !SameCall(Canonicalise(cmds, t, m), m)
  {
    hide *;
    var pad := SomePadding(cmds, t);
    DivertsMeans(t, k1, k2, k3);
    var ahead := Beyond(t, k2, k3);
    rest := ChainRequest(cmds, t, k1, k2, ahead, pad);
    LongestAtKey(cmds, t, k3, pad);
    PadIsLower(t, pad);
    var c, left := Canonical(t, k2), ahead + pad;
    assert c + left == k3 + pad && left[..|ahead|] == ahead && left[|ahead|..] == pad && left != [];
    Hop(cmds, t, k2, left);
    HopChanges(t, k2, k3, left, |ahead|);
  }

  lemma LongestAtKey(cmds: seq<string>, t: Table, key: string, pad: string)
    requires Consistent(t) && GreedyOrder(cmds, t) && Padding(t, pad) && key in t.lookup
    ensures LongestPrefix(cmds, t, key + pad) == Some(MatchOf(t, key, pad))
  {
    hide *;
    CanonicalIsKey(t, key);
    SelfLongest(t, key);
    PadLongest(t, key, pad, key);
    PadIsLower(t, pad);
    LowerConcat(key, pad);
    assert (key + pad)[|key|..] == pad;
    Finds(cmds, t, key + pad, key, pad);
  }

  lemma TwiceIsOnce(cmds: seq<string>, t: Table, text: string)
    requires Slashed(Trim(text)) && LongestPrefix(cmds, t, Trim(text)).Some?
    ensures var m := Canonicalise(cmds, t, LongestPrefix(cmds, t, Trim(text)).value);
            TryMatchTwice(cmds, t, text) == TryMatch(cmds, t, text) <==> SameCall(Canonicalise(cmds, t, m), m)
  {
    hide Canonicalise, LongestPrefix, Trim, SplitWhitespace;
  }

  lemma SomeDiversion(cmds: seq<string>, t: Table, text: string) returns (k1: string, k2: string, k3: string)
    requires Consistent(t) && GreedyOrder(cmds, t) && TryMatchTwice(cmds, t, text) != TryMatch(cmds, t, text)
    ensures Slashed(k1) && Diverts(t, k1, k2, k3)
  {
    var s := Trim(text);
    hide Trim, LongestPrefix, Consistent, GreedyOrder, Diverts, Canonicalise, SplitWhitespace;
    assert Slashed(s) && LongestPrefix(cmds, t, s).Some?;
    TwiceIsOnce(cmds, t, text);
    hide *;
    var rest;
    k1, rest := MatchSplits(cmds, t, s);
    LeadsSlashed(t, s, k1);
    if !AliasKey(t, k1) || rest == [] {
      FinalMatch(cmds, t, k1, rest);
      SameCallAsItself(MatchOf(t, k1, rest));
    }
    UndivertedCall(cmds, t, k1, rest);
    k2, k3 :| Diverts(t, k1, k2, k3);
  }

  /**
   A second pass would serve every request as the first exactly when no chain diverts: then, and
   only then, a single pass suffices for the handlers.
   */
  lemma OnePassServesExactly(cmds: seq<string>, t: Table)
    requires Consistent(t) && GreedyOrder(cmds, t)
    ensures (forall text :: TryMatchTwice(cmds, t, text) == TryMatch(cmds, t, text)) <==>
            (forall k1, k2, k3 :: Slashed(k1) ==> !Diverts(t, k1, k2, k3))
  {
    hide *;
    forall text | TryMatchTwice(cmds, t, text) != TryMatch(cmds, t, text)
      ensures exists k1, k2, k3 :: Slashed(k1) && Diverts(t, k1, k2, k3)
    {
      var k1, k2, k3 := SomeDiversion(cmds, t, text);
    }
    forall k1, k2, k3 | Slashed(k1) && Diverts(t, k1, k2, k3)
      ensures exists text :: TryMatchTwice(cmds, t, text) != TryMatch(cmds, t, text)
    {
      var rest := DivertedCall(cmds, t, k1, k2, k3);
      TwiceIsOnce(cmds, t, k1 + rest);
    }
  }

  // ---- requests that differ in case ---------------------------------------------------------------

  /** The definition and rest a text resolves to. */
  function Resolved(cmds: seq<string>, t: Table, text: string): Option<PrefixMatch> {
    match LongestPrefix(cmds, t, text)
    case None => None
    case Some(first) => Some(Canonicalise(cmds, t, first))
  }

  lemma ResolvesTo(cmds: seq<string>, t: Table, text: string, first: PrefixMatch)
    requires LongestPrefix(cmds, t, text) == Some(first)
    ensures Resolved(cmds, t, text) == Some(Canonicalise(cmds, t, first))
  {
    hide LongestPrefix, Canonicalise;
  }

  /** The same but for the case of what follows the key. */
  ghost predicate AlikeMatch(m1: Option<PrefixMatch>, m2: Option<PrefixMatch>) {
    m1.Some? == m2.Some? &&
    (m1.Some? ==>
       && m1.value.definition == m2.value.definition && m1.value.key == m2.value.key
       && Lower(m1.value.rest) == Lower(m2.value.rest))
  }

  lemma AlikePrefix(cmds: seq<string>, t: Table, text1: string, text2: string)
    requires Consistent(t) && GreedyOrder(cmds, t) && Lower(text1) == Lower(text2)
    ensures AlikeMatch(LongestPrefix(cmds, t, text1), LongestPrefix(cmds, t, text2))
  {
    if LongestPrefix(cmds, t, text1).Some? {
      AlikeFound(cmds, t, text1, text2);
    } else if LongestPrefix(cmds, t, text2).Some? {
      AlikeFound(cmds, t, text2, text1);
    }
  }

  lemma AlikeFound(cmds: seq<string>, t: Table, text1: string, text2: string)
    requires Consistent(t) && GreedyOrder(cmds, t) && Lower(text1) == Lower(text2)
    requires LongestPrefix(cmds, t, text1).Some?
    ensures AlikeMatch(LongestPrefix(cmds, t, text1), LongestPrefix(cmds, t, text2))
    ensures LongestPrefix(cmds, t, text2).Some?
  {
    FoundIsLongest(cmds, t, text1);
    var k := LongestPrefix(cmds, t, text1).value.key;
    assert |text1| == |Lower(text1)| == |text2|;
    LowerDrop(text1, |k|);
    LowerDrop(text2, |k|);
    hide LongestPrefix, GreedyOrder, Consistent, LongestKey, Lower;
    Finds(cmds, t, text2, k, text2[|k|..]);
  }

  lemma LowerDrop(s: string, n: nat)
    requires n <= |s|
    ensures Lower(s[n..]) == Lower(s)[n..]
  {
  }

  lemma AlikeResolved(cmds: seq<string>, t: Table, text1: string, text2: string)
    requires Consistent(t) && GreedyOrder(cmds, t) && Lower(text1) == Lower(text2)
    ensures var m1, m2 := Resolved(cmds, t, text1), Resolved(cmds, t, text2);
            m1.Some? == m2.Some? &&
            (m1.Some? ==> m1.value.definition == m2.value.definition && Lower(m1.value.rest) == Lower(m2.value.rest))
  {
    AlikePrefix(cmds, t, text1, text2);
    if LongestPrefix(cmds, t, text1).Some? {
      var m1, m2 := LongestPrefix(cmds, t, text1).value, LongestPrefix(cmds, t, text2).value;
      var c := Lower(m1.definition.command);
      LowerConcat(c, m1.rest);
      LowerConcat(c, m2.rest);
      assert |m1.rest| == |Lower(m1.rest)| == |m2.rest|;
      AlikePrefix(cmds, t, c + m1.rest, c + m2.rest);
      hide LongestPrefix, Lower, Consistent, GreedyOrder;
    }
  }

  // ---- an alias and its command ----------------------------------------------------------------------

  /** What starts with a slash and ends in no white space. */
  predicate Command(s: string) {
    s != [] && s[0] == '/' && !IsWhitespace(s[|s| - 1])
  }

  /** The two parses name the same handler and the same arguments. */
  predicate SameRequest(p1: Option<ParsedCommand>, p2: Option<ParsedCommand>) {
    p1.Some? && p2.Some? && p1.value.name == p2.value.name && p1.value.args == p2.value.args
  }

  /** The parse names this handler and no arguments. */
  predicate RunsAlone(p: Option<ParsedCommand>, name: string) {
    p.Some? && p.value.name == name && p.value.args == []
  }

  /** An alias and its canonical command, each as typed in some case, with one and the same tail. */
  ghost predicate Typed(t: Table, k1: string, typedAlias: string, typedCommand: string, tail: string)
    requires Consistent(t) && k1 in t.lookup
  {
    && Lower(typedAlias) == k1 && Lower(typedCommand) == Canonical(t, k1)
    && Tail(TrimEnd(tail)) && LongestKey(t, Lower(Trim(typedAlias + tail)), k1)
  }

  /**
   The alias key stands for its canonical command: in whatever case they are typed, and
   whatever follows, if the text with the alias is led by it, the two texts are one request.
   */
  ghost predicate Transparent(cmds: seq<string>, t: Table, k1: string)
    requires Consistent(t) && k1 in t.lookup
  {
    forall typedAlias, typedCommand, tail :: Typed(t, k1, typedAlias, typedCommand, tail) ==>
      SameRequest(TryMatch(cmds, t, typedAlias + tail), TryMatch(cmds, t, typedCommand + tail))
  }

  lemma TrimOfTyped(word: string, key: string, tail: string)
    requires Slashed(key) && Lower(word) == key
    ensures Trim(word + tail) == if TrimEnd(tail) == [] then TrimEnd(word) else word + TrimEnd(tail)
    ensures Slashed(Trim(word + tail))
  {
    SpaceInLower(word, 0);
    TrimEndSplit(word, tail);
    TrimEndSplit("/", word[1..]);
    assert word == "/" + word[1..];
  }

  lemma TrimEndOfLower(s: string)
    ensures TrimEnd(Lower(s)) == Lower(TrimEnd(s))
    decreases |s|
  {
    if s != [] {
      var front := s[..|s| - 1];
      SpaceInLower(s, |s| - 1);
      assert Lower(s)[..|s| - 1] == Lower(front);
      TrimEndOfLower(front);
    }
  }

  /** What a request resolves to is what it runs. */
  lemma RunsResolved(cmds: seq<string>, t: Table, text: string)
    requires Slashed(Trim(text))
    ensures var m, p := Resolved(cmds, t, Trim(text)), TryMatch(cmds, t, text);
            && m.Some? == p.Some?
            && (m.Some? ==> p.value.name == m.value.definition.name && p.value.args == SplitWhitespace(m.value.rest))
  {
    hide LongestPrefix, Canonicalise, Trim, SplitWhitespace;
  }

  /** The command typed in another case leads to the same key and the same rest. */
  lemma TypedCommand(cmds: seq<string>, t: Table, k1: string, typed: string, rest: string)
    requires Consistent(t) && GreedyOrder(cmds, t) && k1 in t.lookup && Tail(rest) && Lower(typed) == Canonical(t, k1)
    ensures LongestPrefix(cmds, t, typed + rest) == LongestPrefix(cmds, t, Canonical(t, k1) + rest)
    ensures LongestPrefix(cmds, t, typed + rest).Some?
  {
    hide *;
    var c := Canonical(t, k1);
    var next, at := Rewritten(cmds, t, k1, rest);
    LowerConcat(typed, rest);
    AfterTyped(c, typed, rest, next, at);
    Finds(cmds, t, typed + rest, next, rest[at..]);
  }

  lemma AfterTyped(c: string, typed: string, rest: string, next: string, at: nat)
    requires Lower(typed) == c && at <= |rest| && next == c + Lower(rest[..at])
    ensures (typed + rest)[|next|..] == rest[at..]
  {
    assert |typed| == |c| && |next| == |typed| + at;
  }

  /** The text with the alias, trimmed: the alias as typed and the tail, which is nothing only behind a bare alias. */
  lemma TypedMeans(t: Table, k1: string, typedAlias: string, typedCommand: string, tail: string)
    requires Consistent(t) && k1 in t.lookup && Slashed(k1) && Typed(t, k1, typedAlias, typedCommand, tail)
    ensures Lower(typedAlias) == k1 && Lower(typedCommand) == Canonical(t, k1)
    ensures Tail(TrimEnd(tail)) && LongestKey(t, k1 + Lower(TrimEnd(tail)), k1)
    ensures Trim(typedAlias + tail) == typedAlias + TrimEnd(tail)
    ensures TrimEnd(tail) == [] ==> Command(k1)
  {
    var rest := TrimEnd(tail);
    TrimOfTyped(typedAlias, k1, tail);
    LowerConcat(typedAlias, rest);
    hide Trim, Canonical, Consistent;
    if rest == [] {
      BareAlias(t, typedAlias, k1);
      assert typedAlias + rest == typedAlias;
    }
  }

  /** A bare alias that leads its text ends in no white space. */
  lemma BareAlias(t: Table, typed: string, k1: string)
    requires Slashed(k1) && Lower(typed) == k1 && LongestKey(t, Lower(TrimEnd(typed)), k1)
    ensures TrimEnd(typed) == typed && Command(k1)
  {
    var bare := TrimEnd(typed);
    assert |k1| <= |Lower(bare)| == |bare|;
    assert bare == typed;
    SpaceInLower(typed, |typed| - 1);
  }

  lemma TypedAlias(cmds: seq<string>, t: Table, k1: string, typed: string, rest: string)
    requires Consistent(t) && GreedyOrder(cmds, t) && Lower(typed) == k1 && LongestKey(t, k1 + Lower(rest), k1)
    ensures LongestPrefix(cmds, t, typed + rest) == Some(MatchOf(t, k1, rest))
  {
    LowerConcat(typed, rest);
    assert |typed| == |k1| && (typed + rest)[|k1|..] == rest;
    hide Lower, LongestPrefix, Consistent, GreedyOrder, LongestKey;
    Finds(cmds, t, typed + rest, k1, rest);
  }

  lemma MatchFields(t: Table, k: string, rest: string)
    requires Consistent(t) && k in t.lookup
    ensures MatchOf(t, k, rest).rest == rest && MatchOf(t, k, rest).definition.name == t.lookup[k]
  {
  }

  /** What the request through the alias runs. */
  lemma AliasRuns(cmds: seq<string>, t: Table, k1: string, typedAlias: string, typedCommand: string, tail: string)
    requires Consistent(t) && GreedyOrder(cmds, t) && k1 in t.lookup && Slashed(k1)
    requires Typed(t, k1, typedAlias, typedCommand, tail)
    ensures var m, p := Canonicalise(cmds, t, MatchOf(t, k1, TrimEnd(tail))), TryMatch(cmds, t, typedAlias + tail);
            p.Some? && p.value.name == m.definition.name && p.value.args == SplitWhitespace(m.rest)
  {
    hide *;
    var rest := TrimEnd(tail);
    TypedMeans(t, k1, typedAlias, typedCommand, tail);
    TrimOfTyped(typedAlias, k1, tail);
    TypedAlias(cmds, t, k1, typedAlias, rest);
    ResolvesTo(cmds, t, typedAlias + rest, MatchOf(t, k1, rest));
    RunsResolved(cmds, t, typedAlias + tail);
  }

  /** With something behind them, the two requests are one exactly when one more pass would change nothing. */
  lemma TwoSpellings(cmds: seq<string>, t: Table, k1: string, typedAlias: string, typedCommand: string, tail: string)
    requires Consistent(t) && GreedyOrder(cmds, t) && AliasKey(t, k1) && Slashed(k1) && Slashed(Canonical(t, k1))
    requires k1 in t.lookup && Typed(t, k1, typedAlias, typedCommand, tail) && TrimEnd(tail) != []
    ensures var m := Canonicalise(cmds, t, MatchOf(t, k1, TrimEnd(tail)));
            SameRequest(TryMatch(cmds, t, typedAlias + tail), TryMatch(cmds, t, typedCommand + tail)) <==>
            SameCall(Canonicalise(cmds, t, m), m)
  {
    hide *;
    var rest, c := TrimEnd(tail), Canonical(t, k1);
    var via, direct := TryMatch(cmds, t, typedAlias + tail), TryMatch(cmds, t, typedCommand + tail);
    TypedMeans(t, k1, typedAlias, typedCommand, tail);
    AliasRuns(cmds, t, k1, typedAlias, typedCommand, tail);
    TrimOfTyped(typedCommand, c, tail);
    TypedCommand(cmds, t, k1, typedCommand, rest);
    Hop(cmds, t, k1, rest);
    var m := Canonicalise(cmds, t, MatchOf(t, k1, rest));
    ResolvesTo(cmds, t, typedCommand + rest, m);
    RunsResolved(cmds, t, typedCommand + tail);
    CallsAlike(via, direct, m, Canonicalise(cmds, t, m));
  }

  lemma CallsAlike(p1: Option<ParsedCommand>, p2: Option<ParsedCommand>, m1: PrefixMatch, m2: PrefixMatch)
    requires p1.Some? && p1.value.name == m1.definition.name && p1.value.args == SplitWhitespace(m1.rest)
    requires p2.Some? && p2.value.name == m2.definition.name && p2.value.args == SplitWhitespace(m2.rest)
    ensures SameRequest(p1, p2) <==> SameCall(m2, m1)
  {
    hide SplitWhitespace;
  }

  /** Alone, they are one exactly when the command typed alone runs the alias's handler. */
  lemma TwoBareSpellings(cmds: seq<string>, t: Table, k1: string, typedAlias: string, typedCommand: string,
      tail: string)
    requires Consistent(t) && GreedyOrder(cmds, t) && k1 in t.lookup && Slashed(k1) && Slashed(Canonical(t, k1))
    requires Typed(t, k1, typedAlias, typedCommand, tail) && TrimEnd(tail) == []
    ensures SameRequest(TryMatch(cmds, t, typedAlias + tail), TryMatch(cmds, t, typedCommand + tail)) <==>
            RunsAlone(TryMatch(cmds, t, Canonical(t, k1)), t.lookup[k1])
  {
    hide *;
    var c := Canonical(t, k1);
    var via, direct := TryMatch(cmds, t, typedAlias + tail), TryMatch(cmds, t, typedCommand + tail);
    TypedMeans(t, k1, typedAlias, typedCommand, tail);
    AliasRuns(cmds, t, k1, typedAlias, typedCommand, tail);
    FinalMatch(cmds, t, k1, []);
    MatchFields(t, k1, []);
    NoWords();
    CanonicalIsKey(t, k1);
    SameAlone(cmds, t, c, typedCommand, tail, t.lookup[k1]);
    BareRequest(via, direct, t.lookup[k1]);
  }

  lemma NoWords()
    ensures SplitWhitespace([]) == []
  {
  }

  lemma BareRequest(p1: Option<ParsedCommand>, p2: Option<ParsedCommand>, name: string)
    requires RunsAlone(p1, name) || (p1.Some? && p1.value.name == name && p1.value.args == [])
    ensures SameRequest(p1, p2) <==> RunsAlone(p2, name)
  {
  }

  /** Whether a command runs alone does not depend on the case it is typed in. */
  lemma SameAlone(cmds: seq<string>, t: Table, c: string, typed: string, tail: string, name: string)
    requires Consistent(t) && GreedyOrder(cmds, t) && Slashed(c) && Lower(c) == c && Lower(typed) == c
    requires TrimEnd(tail) == []
    ensures RunsAlone(TryMatch(cmds, t, typed + tail), name) <==> RunsAlone(TryMatch(cmds, t, c), name)
  {
    hide *;
    TrimOfTyped(typed, c, tail);
    TrimOfTyped(c, c, []);
    TrimOfNothing();
    assert c + [] == c;
    TrimEndOfLower(typed);
    TrimEndOfLower(c);
    RunsResolved(cmds, t, typed + tail);
    RunsResolved(cmds, t, c);
    AlikeResolved(cmds, t, TrimEnd(typed), TrimEnd(c));
    var m1, m2 := Resolved(cmds, t, TrimEnd(typed)), Resolved(cmds, t, TrimEnd(c));
    if m1.Some? {
      WordlessInLower(m1.value.rest);
      WordlessInLower(m2.value.rest);
    }
    RunsAloneMeans(TryMatch(cmds, t, typed + tail), name);
    RunsAloneMeans(TryMatch(cmds, t, c), name);
  }

  lemma TrimOfNothing()
    ensures TrimEnd([]) == [] && Tail([])
  {
  }

  lemma WordlessInLower(s: string)
    ensures SplitWhitespace(s) == [] <==> AllSpace(Lower(s))
  {
    WordsSplit(s, [], []);
    AllSpaceInLower(s);
  }

  lemma RunsAloneMeans(p: Option<ParsedCommand>, name: string)
    ensures RunsAlone(p, name) <==> p.Some? && p.value.name == name && p.value.args == []
  {
  }

  /** A command that ends in no white space runs alone what its key leads to. */
  lemma CommandRunsAlone(cmds: seq<string>, t: Table, c: string)
    requires Consistent(t) && GreedyOrder(cmds, t) && c in t.lookup && Command(c)
    ensures TryMatch(cmds, t, c).Some? && RunsAlone(TryMatch(cmds, t, c), t.lookup[c])
    ensures forall name :: RunsAlone(TryMatch(cmds, t, c), name) <==> name == t.lookup[c]
  {
    hide *;
    CommandIsTrimmed(c);
    CanonicalIsKey(t, c);
    SelfLongest(t, c);
    DropAll(c);
    Finds(cmds, t, c, c, []);
    FinalMatch(cmds, t, c, []);
    MatchFields(t, c, []);
    ResolvesTo(cmds, t, c, MatchOf(t, c, []));
    CommandIsSlashed(c);
    RunsResolved(cmds, t, c);
    NoWords();
    forall name ensures RunsAlone(TryMatch(cmds, t, c), name) <==> name == t.lookup[c] {
      RunsAloneMeans(TryMatch(cmds, t, c), name);
    }
  }

  lemma DropAll(s: string)
    ensures s[|s|..] == []
  {
  }

  lemma CommandIsTrimmed(c: string)
    requires Command(c)
    ensures Trim(c) == c
  {
  }

  lemma CommandIsSlashed(c: string)
    requires Command(c)
    ensures Slashed(c)
  {
  }

  // ---- when the alias stands for its command ---------------------------------------------------------

  lemma TransparentMeans(cmds: seq<string>, t: Table, k1: string, typedAlias: string, typedCommand: string,
      tail: string)
    requires Consistent(t) && k1 in t.lookup && Transparent(cmds, t, k1)
    requires Typed(t, k1, typedAlias, typedCommand, tail)
    ensures SameRequest(TryMatch(cmds, t, typedAlias + tail), TryMatch(cmds, t, typedCommand + tail))
  {
  }

  lemma AllTyped(cmds: seq<string>, t: Table, k1: string)
    requires Consistent(t) && k1 in t.lookup
    requires forall typedAlias, typedCommand, tail :: Typed(t, k1, typedAlias, typedCommand, tail) ==>
               SameRequest(TryMatch(cmds, t, typedAlias + tail), TryMatch(cmds, t, typedCommand + tail))
    ensures Transparent(cmds, t, k1)
  {
    hide Typed, SameRequest, TryMatch;
  }

  lemma UndivertedIsTransparent(cmds: seq<string>, t: Table, k1: string)
    requires Consistent(t) && GreedyOrder(cmds, t) && AliasKey(t, k1) && Slashed(k1) && Slashed(Canonical(t, k1))
    requires k1 in t.lookup && (Command(k1) ==> RunsAlone(TryMatch(cmds, t, Canonical(t, k1)), t.lookup[k1]))
    requires forall k2, k3 :: !Diverts(t, k1, k2, k3)
    ensures Transparent(cmds, t, k1)
  {
    hide *;
    forall typedAlias, typedCommand, tail | Typed(t, k1, typedAlias, typedCommand, tail)
      ensures SameRequest(TryMatch(cmds, t, typedAlias + tail), TryMatch(cmds, t, typedCommand + tail))
    {
      TypedMeans(t, k1, typedAlias, typedCommand, tail);
      if TrimEnd(tail) == [] {
        TwoBareSpellings(cmds, t, k1, typedAlias, typedCommand, tail);
      } else {
        TwoSpellings(cmds, t, k1, typedAlias, typedCommand, tail);
        UndivertedCall(cmds, t, k1, TrimEnd(tail));
      }
    }
    AllTyped(cmds, t, k1);
  }

  /** The alias and its command, spelled as the keys are. */
  lemma TypedAsKeys(t: Table, k1: string, tail: string)
    requires Consistent(t) && k1 in t.lookup && Slashed(k1) && Trim(k1 + tail) == k1 + tail
    requires TrimEnd(tail) == tail && Tail(tail) && LongestKey(t, k1 + Lower(tail), k1)
    ensures Typed(t, k1, k1, Canonical(t, k1), tail)
  {
    CanonicalIsKey(t, k1);
    LowerConcat(k1, tail);
  }

  lemma LostCommandShows(cmds: seq<string>, t: Table, k1: string)
    requires Consistent(t) && GreedyOrder(cmds, t) && AliasKey(t, k1) && Command(k1) && Slashed(Canonical(t, k1))
    requires k1 in t.lookup && Transparent(cmds, t, k1)
    ensures RunsAlone(TryMatch(cmds, t, Canonical(t, k1)), t.lookup[k1])
  {
    hide *;
    CommandIsTrimmed(k1);
    CommandIsSlashed(k1);
    SelfLongest(t, k1);
    LowerNothing();
    TrimOfNothing();
    assert k1 + [] == k1;
    TypedAsKeys(t, k1, []);
    TransparentMeans(cmds, t, k1, k1, Canonical(t, k1), []);
    TwoBareSpellings(cmds, t, k1, k1, Canonical(t, k1), []);
  }

  lemma DiversionShows(cmds: seq<string>, t: Table, k1: string, k2: string, k3: string)
    requires Consistent(t) && GreedyOrder(cmds, t) && AliasKey(t, k1) && Slashed(k1) && Slashed(Canonical(t, k1))
    requires k1 in t.lookup && Diverts(t, k1, k2, k3)
    ensures !Transparent(cmds, t, k1)
  {
    hide *;
    CanonicalIsKey(t, k1);
    var rest := DivertedCall(cmds, t, k1, k2, k3);
    var k, left := MatchSplits(cmds, t, k1 + rest);
    MatchKey(t, k, left, k1, rest);
    if rest == [] {
      FinalMatch(cmds, t, k1, rest);
      SameCallAsItself(MatchOf(t, k1, rest));
    }
    TrimOfTyped(k1, k1, rest);
    TrimmedTail(k1, rest);
    TypedAsKeys(t, k1, rest);
    TwoSpellings(cmds, t, k1, k1, Canonical(t, k1), rest);
    if Transparent(cmds, t, k1) {
      TransparentMeans(cmds, t, k1, k1, Canonical(t, k1), rest);
    }
  }

  /** A tail of a trimmed text is trimmed itself. */
  lemma TrimmedTail(word: string, tail: string)
    requires (if TrimEnd(tail) == [] then TrimEnd(word) else word + TrimEnd(tail)) == word + tail
    ensures TrimEnd(tail) == tail
  {
    var r := TrimEnd(tail);
    if r == [] {
      assert |word + tail| <= |word|;
    } else {
      assert (word + r)[|word|..] == r && (word + tail)[|word|..] == tail;
    }
  }

  lemma MatchKey(t: Table, k: string, rest: string, k': string, rest': string)
    requires Consistent(t) && k in t.lookup && k' in t.lookup && MatchOf(t, k, rest) == MatchOf(t, k', rest')
    ensures k == k' && rest == rest'
  {
  }

  /**
   An alias key stands for its canonical command exactly when no chain from the alias diverts
   and, unless the alias ends in white space and so is never typed alone, the command typed
   alone runs the alias's handler: for a command that ends in none, when it still leads there.
   */
  lemma AliasStandsExactly(cmds: seq<string>, t: Table, k1: string)
    requires Consistent(t) && GreedyOrder(cmds, t) && AliasKey(t, k1) && Slashed(k1) && Slashed(Canonical(t, k1))
    ensures Transparent(cmds, t, k1) <==>
            && (Command(k1) ==> RunsAlone(TryMatch(cmds, t, Canonical(t, k1)), t.lookup[k1]))
            && forall k2, k3 :: !Diverts(t, k1, k2, k3)
    ensures Command(Canonical(t, k1)) ==>
              && Canonical(t, k1) in t.lookup
              && (RunsAlone(TryMatch(cmds, t, Canonical(t, k1)), t.lookup[k1]) <==>
                  t.lookup[Canonical(t, k1)] == t.lookup[k1])
  {
    hide *;
    AliasIsKey(t, k1);
    CanonicalIsKey(t, k1);
    if Command(Canonical(t, k1)) {
      CommandRunsAlone(cmds, t, Canonical(t, k1));
    }
    if Transparent(cmds, t, k1) {
      if Command(k1) { LostCommandShows(cmds, t, k1); }
      forall k2, k3 ensures !Diverts(t, k1, k2, k3) {
        if Diverts(t, k1, k2, k3) { DiversionShows(cmds, t, k1, k2, k3); }
      }
    } else if (Command(k1) ==> RunsAlone(TryMatch(cmds, t, Canonical(t, k1)), t.lookup[k1])) &&
              forall k2, k3 :: !Diverts(t, k1, k2, k3) {
      UndivertedIsTransparent(cmds, t, k1);
    }
  }
}
