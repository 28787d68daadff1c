/**
 Template substitution: `format_response` of src/commands/formatter.rs, one
 `str::replace` per binding in the order a hash map happens to yield them.
 */
module Formatter {
  import opened Chars

  /** `str::replace`: leftmost, non-overlapping. */
  function Replaced(s: string, pat: string, value: string): string
    requires pat != []
    decreases |s|
  {
    if s == [] then []
    else if pat <= s then value + Replaced(s[|pat|..], pat, value)
    else [s[0]] + Replaced(s[1..], pat, value)
  }

  datatype Binding = Binding(key: string, value: string)

  function Placeholder(key: string): string {
    "{" + key + "}"
  }

  /** The replacements in the order of `entries`. */
  function Sequential(template: string, entries: seq<Binding>): string
    decreases entries
  {
    if entries == [] then template
    else Sequential(Replaced(template, Placeholder(entries[0].key), entries[0].value), entries[1..])
  }

  /** `entries` lists the map once through, in some order. */
  ghost predicate Lists(entries: seq<Binding>, bindings: map<string, string>) {
    && (forall k :: k in bindings <==> exists i :: 0 <= i < |entries| && entries[i].key == k)
    && (forall i :: 0 <= i < |entries| ==> entries[i].key in bindings && bindings[entries[i].key] == entries[i].value)
    && (forall i, j :: 0 <= i < j < |entries| ==> entries[i].key != entries[j].key)
  }

  method FormatResponse(template: string, entries: seq<Binding>) returns (result: string)
    ensures result == Sequential(template, entries)
  {
    result := template;
    for i := 0 to |entries|
      invariant Sequential(result, entries[i..]) == Sequential(template, entries)
    {
      assert entries[i..][1..] == entries[i + 1..];
      result := Replaced(result, Placeholder(entries[i].key), entries[i].value);
    }
  }

  // ---- templates ---------------------------------------------------------------

  /** A template is literal text and named holes. */
  datatype Piece = Literal(text: string) | Hole(key: string)

  predicate PlainPiece(p: Piece) {
    match p
    case Literal(t) => '{' !in t
    case Hole(k) => '{' !in k && '}' !in k
  }

  function Spell(p: Piece): string {
    match p case Literal(t) => t case Hole(k) => Placeholder(k)
  }

  function Spelled(pieces: seq<Piece>): string {
    if pieces == [] then [] else Spell(pieces[0]) + Spelled(pieces[1..])
  }

  ghost predicate Plain(pieces: seq<Piece>) {
    forall p :: p in pieces ==> PlainPiece(p)
  }

  /** Simultaneous substitution: every bound hole filled, every other piece untouched. */
  function FilledPiece(p: Piece, bindings: map<string, string>): Piece {
    if p.Hole? && p.key in bindings then Literal(bindings[p.key]) else p
  }

  function Filled(pieces: seq<Piece>, bindings: map<string, string>): (r: seq<Piece>)
    ensures |r| == |pieces| && forall i :: 0 <= i < |r| ==> r[i] == FilledPiece(pieces[i], bindings)
  {
    seq(|pieces|, i requires 0 <= i < |pieces| => FilledPiece(pieces[i], bindings))
  }

  // ---- one replacement -----------------------------------------------------------

  lemma {:induction false} ReplacedSkips(t: string, tail: string, pat: string, value: string)
    requires pat != [] && pat[0] !in t
    ensures Replaced(t + tail, pat, value) == t + Replaced(tail, pat, value)
  {
    if t == [] {
      assert t + tail == tail;
    } else {
      assert (t + tail)[1..] == t[1..] + tail;
      ReplacedSkips(t[1..], tail, pat, value);
      assert (t + tail)[0] == t[0] && t[0] in t;
      HeadTail(t);
      Reassociate([t[0]], t[1..], Replaced(tail, pat, value));
    }
  }

  /** A placeholder is found in print only where that very hole stands. */
  lemma PlaceholderMatches(key: string, hole: string, tail: string)
    requires '}' !in key && '}' !in hole
    ensures Placeholder(key) <= Placeholder(hole) + tail <==> key == hole
  {
    var p, s := Placeholder(key), Placeholder(hole) + tail;
    assert p[1..][..|key|] == key && s[1..][..|hole|] == hole;
    assert p[|key| + 1] == '}' && s[|hole| + 1] == '}';
    if p <= s {
      assert s[|key| + 1] == '}';
      assert s[..|p|] == p;
    }
  }

  lemma ReplacedHole(key: string, value: string, hole: string, tail: string)
    requires '}' !in key && '{' !in hole && '}' !in hole
    ensures Replaced(Placeholder(hole) + tail, Placeholder(key), value) ==
            (if key == hole then value else Placeholder(hole)) + Replaced(tail, Placeholder(key), value)
  {
    var pat, s := Placeholder(key), Placeholder(hole) + tail;
    PlaceholderMatches(key, hole, tail);
    if key == hole {
      assert s[|pat|..] == tail;
    } else {
      assert s[1..] == (hole + "}") + tail;
      ReplacedSkips(hole + "}", tail, pat, value);
      assert Placeholder(hole) == ['{'] + (hole + "}");
    }
  }

  lemma {:induction false} ReplacedInPieces(pieces: seq<Piece>, key: string, value: string)
    requires Plain(pieces) && '}' !in key && '{' !in value
    ensures Replaced(Spelled(pieces), Placeholder(key), value) == Spelled(Filled(pieces, map[key := value]))
    ensures Plain(Filled(pieces, map[key := value]))
  {
    var filled := Filled(pieces, map[key := value]);
    if pieces != [] {
      var tail := pieces[1..];
      ReplacedInPieces(tail, key, value);
      assert filled[1..] == Filled(tail, map[key := value]);
      assert pieces[0] in pieces;
      match pieces[0] {
        case Literal(t) => ReplacedSkips(t, Spelled(tail), Placeholder(key), value);
        case Hole(k) => ReplacedHole(key, value, k, Spelled(tail));
      }
    }
  }

  // ---- any order -------------------------------------------------------------------

  function MapOf(entries: seq<Binding>): map<string, string> {
    if entries == [] then map[] else MapOf(entries[1..])[entries[0].key := entries[0].value]
  }

  lemma {:induction false} MapOfListed(entries: seq<Binding>, bindings: map<string, string>)
    requires forall i :: 0 <= i < |entries| ==>
               entries[i].key in bindings && bindings[entries[i].key] == entries[i].value
    ensures forall k :: k in MapOf(entries) <==> exists i :: 0 <= i < |entries| && entries[i].key == k
    ensures forall k :: k in MapOf(entries) ==> k in bindings && MapOf(entries)[k] == bindings[k]
  {
    if entries != [] {
      MapOfListed(entries[1..], bindings);
      forall k | exists i :: 0 <= i < |entries| && entries[i].key == k ensures k in MapOf(entries) {
        var i :| 0 <= i < |entries| && entries[i].key == k;
        assert i > 0 ==> entries[1..][i - 1].key == k;
      }
    }
  }

  // ---- templates as strings -----------------------------------------------------------

  /** The brace at `i` is closed before any other brace. */
  ghost predicate ClosesAfter(t: string, i: nat) {
    exists j :: Closing(t, i, j)
  }

  ghost predicate Closing(t: string, i: nat, j: int) {
    i < j < |t| && t[j] == '}' && forall k :: i < k < j ==> t[k] != '{' && t[k] != '}'
  }

  /** Every opening brace names a hole. */
  ghost predicate WellBraced(t: string) {
    forall i :: 0 <= i < |t| && t[i] == '{' ==> ClosesAfter(t, i)
  }

  /** An opening brace that names no hole has no closing brace after it at all. */
  ghost predicate SafeBraces(t: string) {
    forall i :: 0 <= i < |t| && t[i] == '{' ==> ClosesAfter(t, i) || '}' !in t[i..]
  }

  /** A well-braced string is a template of literals and holes. */
  ghost function PiecesOf(t: string): (pieces: seq<Piece>)
    requires WellBraced(t)
    ensures Plain(pieces) && Spelled(pieces) == t
    decreases |t|
  {
    if t == [] then []
    else if t[0] == '{' then
      assert ClosesAfter(t, 0);
      var j :| Closing(t, 0, j);
      DropKeepsBraces(t, j + 1);
      assert t == Placeholder(t[1..j]) + t[j + 1..];
      var rest := PiecesOf(t[j + 1..]);
      SpelledCons(Hole(t[1..j]), rest);
      [Hole(t[1..j])] + rest
    else
      DropKeepsBraces(t, 1);
      HeadTail(t);
      var rest := PiecesOf(t[1..]);
      SpelledCons(Literal([t[0]]), rest);
      [Literal([t[0]])] + rest
  }

  lemma SpelledCons(p: Piece, pieces: seq<Piece>)
    ensures Spelled([p] + pieces) == Spell(p) + Spelled(pieces)
    ensures PlainPiece(p) && Plain(pieces) ==> Plain([p] + pieces)
  {
    assert ([p] + pieces)[1..] == pieces;
  }

  lemma DropKeepsBraces(t: string, n: nat)
    requires WellBraced(t) && n <= |t|
    ensures WellBraced(t[n..])
  {
    var s := t[n..];
    forall i | 0 <= i < |s| && s[i] == '{' ensures ClosesAfter(s, i) {
      assert ClosesAfter(t, n + i);
      var j :| Closing(t, n + i, j);
      assert forall k :: i < k < j - n ==> s[k] == t[n + k];
      assert Closing(s, i, j - n);
    }
  }

  /** The first opening brace that names no hole, or the end. */
  ghost function FirstStray(t: string, from: nat): (n: nat)
    requires from <= |t|
    requires forall i :: 0 <= i < from && t[i] == '{' ==> ClosesAfter(t, i)
    ensures n <= |t| && (n < |t| ==> t[n] == '{' && !ClosesAfter(t, n))
    ensures forall i :: 0 <= i < n && t[i] == '{' ==> ClosesAfter(t, i)
    decreases |t| - from
  {
    if from == |t| || (t[from] == '{' && !ClosesAfter(t, from)) then from else FirstStray(t, from + 1)
  }

  lemma StrayCutsWellBraced(t: string)
    ensures WellBraced(t[..FirstStray(t, 0)])
    ensures SafeBraces(t) ==> '}' !in t[FirstStray(t, 0)..]
  {
    var n := FirstStray(t, 0);
    var s := t[..n];
    forall i | 0 <= i < |s| && s[i] == '{' ensures ClosesAfter(s, i) {
      assert ClosesAfter(t, i);
      var j :| Closing(t, i, j);
      assert !(i < n < j);
      assert Closing(s, i, j);
    }
  }

  /** The template filled at once: its holes where they stand, and the tail no hole reaches. */
  ghost function Response(t: string, bindings: map<string, string>): string {
    var n := FirstStray(t, 0);
    StrayCutsWellBraced(t);
    Spelled(Filled(PiecesOf(t[..n]), bindings)) + t[n..]
  }

  // ---- a replacement before and after a brace -------------------------------------------

  /** A placeholder cannot straddle an opening brace. */
  lemma {:induction false} ReplacedSplits(s: string, tail: string, key: string, value: string)
    requires '{' !in key && (tail != [] ==> tail[0] == '{')
    ensures Replaced(s + tail, Placeholder(key), value) ==
            Replaced(s, Placeholder(key), value) + Replaced(tail, Placeholder(key), value)
    decreases |s|
  {
    var pat := Placeholder(key);
    if s == [] {
      assert s + tail == tail;
    } else {
      NoStraddle(s, tail, pat, 0);
      AtIsPrefix(s + tail, pat, 0);
      AtIsPrefix(s, pat, 0);
      assert (s + tail)[0..] == s + tail && s[0..] == s;
      if pat <= s {
        assert (s + tail)[|pat|..] == s[|pat|..] + tail;
        ReplacedSplits(s[|pat|..], tail, key, value);
        Reassociate(value, Replaced(s[|pat|..], pat, value), Replaced(tail, pat, value));
      } else {
        assert (s + tail)[1..] == s[1..] + tail;
        ReplacedSplits(s[1..], tail, key, value);
        Reassociate([s[0]], Replaced(s[1..], pat, value), Replaced(tail, pat, value));
      }
    }
  }

  lemma NoHoleWithoutClosing(s: string, key: string)
    ensures Placeholder(key) <= s ==> '}' in s
  {
    if Placeholder(key) <= s { assert s[|key| + 1] == '}'; }
  }

  lemma {:induction false} ReplacedWithoutClosing(s: string, key: string, value: string)
    requires '}' !in s
    ensures Replaced(s, Placeholder(key), value) == s
  {
    var pat := Placeholder(key);
    if s != [] {
      NoHoleWithoutClosing(s, key);
      ReplacedWithoutClosing(s[1..], key, value);
    }
  }

  predicate BraceFree(s: string) {
    '{' !in s && '}' !in s
  }

  /** If a safe template can spell the placeholder at all, the key has no brace and the value opens none. */
  ghost predicate CleanBinding(b: Binding) {
    SafeBraces(Placeholder(b.key)) ==> BraceFree(b.key) && '{' !in b.value
  }

  ghost predicate Clean(bindings: map<string, string>) {
    forall k :: k in bindings ==> CleanBinding(Binding(k, bindings[k]))
  }

  lemma PlainPlaceholderIsSafe(key: string)
    requires BraceFree(key)
    ensures SafeBraces(Placeholder(key))
  {
    HoleCloses(key, []);
    assert Placeholder(key) + [] == Placeholder(key);
    hide ClosesAfter;
  }

  /** A placeholder with an unsafe brace stands in no safe text. */
  lemma UnsafeIsAbsent(s: string, pat: string, i: nat)
    requires SafeBraces(s) && !SafeBraces(pat)
    ensures !At(s, pat, i)
  {
    if At(s, pat, i) {
      AtMeans(s, pat, i);
      var p :| 0 <= p < |pat| && pat[p] == '{' && !ClosesAfter(pat, p) && '}' in pat[p..];
      var q :| 0 <= q < |pat[p..]| && pat[p..][q] == '}';
      assert s[i + p] == '{' && s[i + p..][q] == s[i + (p + q)] == pat[p + q] == '}';
      assert ClosesAfter(s, i + p);
      var j :| Closing(s, i + p, j);
      assert j <= i + p + q;
      assert Closing(pat, p, j - i);
    }
  }

  lemma {:induction false} ReplacedAbsent(s: string, pat: string, value: string)
    requires pat != [] && forall i: nat :: !At(s, pat, i)
    ensures Replaced(s, pat, value) == s
  {
    if s != [] {
      assert !At(s, pat, 0);
      AtIsPrefix(s, pat, 0);
      assert s[0..] == s;
      forall i: nat ensures !At(s[1..], pat, i) {
        HeadTail(s);
        AtInRight([s[0]], s[1..], pat, i);
        assert !At(s, pat, 1 + i);
      }
      ReplacedAbsent(s[1..], pat, value);
    }
  }

  /** Print followed by a text that closes nothing is safe. */
  lemma {:induction false} PrintIsSafe(pieces: seq<Piece>, tail: string)
    requires Plain(pieces) && '}' !in tail
    ensures SafeBraces(Spelled(pieces) + tail)
  {
    if pieces == [] {
      assert [] + tail == tail;
    } else {
      assert pieces[0] in pieces;
      var rest := Spelled(pieces[1..]) + tail;
      PrintIsSafe(pieces[1..], tail);
      PieceKeepsSafe(pieces[0], rest);
      Reassociate(Spell(pieces[0]), Spelled(pieces[1..]), tail);
    }
  }

  lemma PieceKeepsSafe(p: Piece, rest: string)
    requires PlainPiece(p) && SafeBraces(rest)
    ensures SafeBraces(Spell(p) + rest)
  {
    var head := Spell(p);
    var all := head + rest;
    forall i | 0 <= i < |all| && all[i] == '{' ensures ClosesAfter(all, i) || '}' !in all[i..] {
      if i < |head| {
        HoleCloses(p.key, rest);
      } else {
        assert all[i..] == rest[i - |head|..];
        if ClosesAfter(rest, i - |head|) { ClosesBehind(head, rest, i - |head|); }
      }
    }
  }

  lemma HoleCloses(key: string, rest: string)
    requires BraceFree(key)
    ensures ClosesAfter(Placeholder(key) + rest, 0)
    ensures forall i :: 0 < i < |Placeholder(key)| ==> (Placeholder(key) + rest)[i] != '{'
  {
    var all := Placeholder(key) + rest;
    assert forall k :: 0 < k <= |key| ==> all[k] == key[k - 1];
    assert Closing(all, 0, |key| + 1);
  }

  lemma ClosesBehind(head: string, rest: string, i: nat)
    requires ClosesAfter(rest, i)
    ensures ClosesAfter(head + rest, |head| + i)
  {
    var j :| Closing(rest, i, j);
    assert Closing(head + rest, |head| + i, |head| + j);
  }

  /** A binding whose placeholder is unsafe does nothing, and names no hole. */
  lemma UnsafeDoesNothing(pieces: seq<Piece>, tail: string, b: Binding)
    requires Plain(pieces) && '}' !in tail && !SafeBraces(Placeholder(b.key))
    ensures Replaced(Spelled(pieces) + tail, Placeholder(b.key), b.value) == Spelled(pieces) + tail
    ensures Hole(b.key) !in pieces
  {
    var s, pat := Spelled(pieces) + tail, Placeholder(b.key);
    PrintIsSafe(pieces, tail);
    forall i: nat ensures !At(s, pat, i) { UnsafeIsAbsent(s, pat, i); }
    ReplacedAbsent(s, pat, b.value);
    if Hole(b.key) in pieces {
      assert PlainPiece(Hole(b.key));
      PlainPlaceholderIsSafe(b.key);
    }
  }

  lemma {:induction false} SequentialKeepsTail(pieces: seq<Piece>, tail: string, entries: seq<Binding>)
    requires Plain(pieces) && '}' !in tail && (tail != [] ==> tail[0] == '{')
    requires forall i :: 0 <= i < |entries| ==> CleanBinding(entries[i])
    ensures Sequential(Spelled(pieces) + tail, entries) == Spelled(Filled(pieces, MapOf(entries))) + tail
    decreases entries
  {
    hide SafeBraces, Replaced, Placeholder, Spelled;
    if entries == [] {
      assert Filled(pieces, map[]) == pieces;
    } else {
      var e, rest := entries[0], entries[1..];
      if SafeBraces(Placeholder(e.key)) {
        var filled := Filled(pieces, map[e.key := e.value]);
        ReplacedInPieces(pieces, e.key, e.value);
        ReplacedWithoutClosing(tail, e.key, e.value);
        ReplacedSplits(Spelled(pieces), tail, e.key, e.value);
        SequentialKeepsTail(filled, tail, rest);
        assert Filled(filled, MapOf(rest)) == Filled(pieces, MapOf(entries));
      } else {
        UnsafeDoesNothing(pieces, tail, e);
        SequentialKeepsTail(pieces, tail, rest);
        assert Filled(pieces, MapOf(rest)) == Filled(pieces, MapOf(entries));
      }
    }
  }

  /**
   Whatever order the map is iterated in, the response is the template with every bound
   hole filled at once and every other character kept.
   */
  lemma FormatIsSimultaneous(template: string, bindings: map<string, string>, entries: seq<Binding>)
    requires SafeBraces(template) && Clean(bindings) && Lists(entries, bindings)
    ensures Sequential(template, entries) == Response(template, bindings)
  {
    var n := FirstStray(template, 0);
    StrayCutsWellBraced(template);
    ListedIsMap(entries, bindings);
    hide SafeBraces, Clean, Lists;
    assert template == template[..n] + template[n..];
    SequentialKeepsTail(PiecesOf(template[..n]), template[n..], entries);
  }

  lemma ListedIsMap(entries: seq<Binding>, bindings: map<string, string>)
    requires Clean(bindings) && Lists(entries, bindings)
    ensures MapOf(entries) == bindings
    ensures forall i :: 0 <= i < |entries| ==> CleanBinding(entries[i])
  {
    hide CleanBinding;
    forall i | 0 <= i < |entries| ensures CleanBinding(entries[i]) {
      assert entries[i] == Binding(entries[i].key, bindings[entries[i].key]);
    }
    MapOfListed(entries, bindings);
    hide MapOf;
  }

  // ---- unsafe braces show the order ----------------------------------------------------------

  function Opens(s: string): nat {
    if s == [] then 0 else (if s[0] == '{' then 1 else 0) + Opens(s[1..])
  }

  /** How many holes called `key` a replacement finds. */
  function Holes(s: string, key: string): nat {
    if s == [] then 0 else (if Placeholder(key) <= s then 1 else 0) + Holes(s[1..], key)
  }

  lemma {:induction false} OpensConcat(a: string, b: string)
    ensures Opens(a + b) == Opens(a) + Opens(b)
    ensures '{' !in a ==> Opens(a) == 0
  {
    if a == [] {
      assert a + b == b;
    } else {
      assert (a + b)[1..] == a[1..] + b;
      OpensConcat(a[1..], b);
    }
  }

  /** No hole starts in text without an opening brace. */
  lemma {:induction false} HolesSkip(a: string, b: string, key: string)
    requires '{' !in a
    ensures Holes(a + b, key) == Holes(b, key)
  {
    if a == [] {
      assert a + b == b;
    } else {
      assert (a + b)[1..] == a[1..] + b;
      assert (a + b)[0] == a[0] && a[0] in a;
      HolesSkip(a[1..], b, key);
    }
  }

  lemma HolesAtHole(hole: string, tail: string, key: string)
    requires '{' !in hole && '}' !in hole && '}' !in key
    ensures Holes(Placeholder(hole) + tail, key) == (if key == hole then 1 else 0) + Holes(tail, key)
  {
    var s := Placeholder(hole) + tail;
    PlaceholderMatches(key, hole, tail);
    assert s[1..] == (hole + "}") + tail;
    HolesSkip(hole + "}", tail, key);
  }

  /** Each replacement takes one opening brace away. */
  lemma {:induction false} ReplacedOpens(s: string, key: string, value: string)
    requires '{' !in key && '}' !in key && '{' !in value
    ensures Opens(Replaced(s, Placeholder(key), value)) + Holes(s, key) == Opens(s)
    decreases |s|
  {
    var pat := Placeholder(key);
    if s == [] {
    } else if pat <= s {
      var rest := s[|pat|..];
      assert s == pat + rest;
      HolesAtHole(key, rest, key);
      ReplacedOpens(rest, key, value);
      OpensConcat(value, Replaced(rest, pat, value));
      OpensConcat(pat, rest);
      OpensConcat(key + "}", []);
      assert pat[1..] == key + "}" && key + "}" + [] == key + "}";
    } else {
      ReplacedOpens(s[1..], key, value);
      OpensConcat([s[0]], Replaced(s[1..], pat, value));
      OpensConcat([s[0]], s[1..]);
      HeadTail(s);
    }
  }

  lemma {:induction false} HolesSplit(a: string, b: string, key: string)
    requires '{' !in key && (b != [] ==> b[0] == '{')
    ensures Holes(a + b, key) == Holes(a, key) + Holes(b, key)
  {
    if a == [] {
      assert a + b == b;
    } else {
      NoStraddle(a, b, Placeholder(key), 0);
      AtIsPrefix(a + b, Placeholder(key), 0);
      AtIsPrefix(a, Placeholder(key), 0);
      assert (a + b)[0..] == a + b && a[0..] == a;
      assert (a + b)[1..] == a[1..] + b;
      HolesSplit(a[1..], b, key);
    }
  }

  /** What a replacement starts with, it started with before, if the value cannot end it. */
  lemma {:induction false} HeadWasThere(s: string, head: string, key: string, value: string)
    requires '{' !in head && head != [] && head[|head| - 1] == '}'
    requires '}' !in value && |head| <= |value|
    requires head <= Replaced(s, Placeholder(key), value)
    ensures head <= s
    decreases |head|
  {
    var pat := Placeholder(key);
    var r := Replaced(s, pat, value);
    assert head[|head| - 1] == r[|head| - 1];
    if !(pat <= s) {
      assert r == [s[0]] + Replaced(s[1..], pat, value);
      if |head| > 1 {
        assert head[1..] == r[..|head|][1..] == Replaced(s[1..], pat, value)[..|head| - 1];
        HeadWasThere(s[1..], head[1..], key, value);
        assert s[..|head|] == [s[0]] + s[1..][..|head| - 1];
        assert head == [head[0]] + head[1..];
      }
    }
  }

  lemma NoNewHoleHere(s: string, filled: string, value: string, key: string)
    requires '{' !in key && '}' !in value && |key| < |value| && s != []
    requires Placeholder(key) <= [s[0]] + Replaced(s[1..], Placeholder(filled), value)
    ensures Placeholder(key) <= s
  {
    var r := Replaced(s[1..], Placeholder(filled), value);
    var head := key + "}";
    assert Placeholder(key) == ['{'] + head;
    hide Replaced, Placeholder;
    PrefixCons('{', head, s[0], r);
    HeadWasThere(s[1..], head, filled, value);
    PrefixCons('{', head, s[0], s[1..]);
    HeadTail(s);
  }

  lemma PrefixCons(a: char, p: string, b: char, s: string)
    ensures [a] + p <= [b] + s <==> a == b && p <= s
  {
    var l, r := [a] + p, [b] + s;
    assert l[1..] == p && r[1..] == s && l[0] == a && r[0] == b;
    if l <= r {
      assert l == r[..|l|];
      assert p == r[..|l|][1..] == s[..|p|];
    }
    if a == b && p <= s {
      assert r[..|l|] == [b] + s[..|p|] == l;
    }
  }

  /** Filling one hole with a long text makes no hole of another, shorter name. */
  lemma {:induction false} LongValueMakesNoHole(s: string, filled: string, value: string, key: string)
    requires '{' !in filled && '}' !in filled && '{' !in value && '}' !in value && '{' !in key && '}' !in key
    requires |key| < |value|
    ensures Holes(Replaced(s, Placeholder(filled), value), key) <= Holes(s, key)
    decreases |s|
  {
    var pat := Placeholder(filled);
    if s == [] {
    } else if pat <= s {
      var rest := s[|pat|..];
      assert s == pat + rest;
      LongValueMakesNoHole(rest, filled, value, key);
      HolesSkip(value, Replaced(rest, pat, value), key);
      HolesAtHole(filled, rest, key);
    } else {
      var r := Replaced(s[1..], pat, value);
      LongValueMakesNoHole(s[1..], filled, value, key);
      assert ([s[0]] + r)[1..] == r;
      if Placeholder(key) <= [s[0]] + r {
        NoNewHoleHere(s, filled, value, key);
      }
      hide Placeholder;
    }
  }

  /** Filling one hole leaves the others. */
  lemma {:induction false} OtherHolesStay(s: string, filled: string, value: string, key: string)
    requires '{' !in filled && '}' !in filled && '{' !in value && '{' !in key && '}' !in key && key != filled
    ensures Holes(Replaced(s, Placeholder(filled), value), key) >= Holes(s, key)
    decreases |s|
  {
    var pat := Placeholder(filled);
    if s == [] {
    } else if pat <= s {
      var rest := s[|pat|..];
      assert s == pat + rest;
      OtherHolesStay(rest, filled, value, key);
      HolesSkip(value, Replaced(rest, pat, value), key);
      HolesAtHole(filled, rest, key);
    } else if Placeholder(key) <= s {
      var rest := s[|Placeholder(key)|..];
      assert s == Placeholder(key) + rest;
      ReplacedHole(filled, value, key, rest);
      OtherHolesStay(rest, filled, value, key);
      HolesAtHole(key, rest, key);
      HolesAtHole(key, Replaced(rest, pat, value), key);
    } else {
      var r := Replaced(s[1..], pat, value);
      OtherHolesStay(s[1..], filled, value, key);
      assert ([s[0]] + r)[1..] == r;
    }
  }

  lemma {:induction false} NoHolesWithoutClosing(s: string, key: string)
    requires '}' !in s
    ensures Holes(s, key) == 0
  {
    if s != [] {
      NoHoleWithoutClosing(s, key);
      NoHolesWithoutClosing(s[1..], key);
    }
  }

  /** The first `c` in a stretch that has one. */
  lemma FirstIn(t: string, c: char, from: nat, last: nat) returns (q: nat)
    requires from <= last < |t| && t[last] == c
    ensures from <= q <= last && t[q] == c && c !in t[from..q]
  {
    q := from;
    while t[q] != c
      invariant from <= q <= last && c !in t[from..q]
      decreases last - q
    {
      assert t[from..q + 1] == t[from..q] + [t[q]];
      q := q + 1;
    }
  }

  /** The last `c` in a stretch that has one. */
  lemma LastIn(t: string, c: char, from: nat, last: nat) returns (h: nat)
    requires from < last <= |t| && t[from] == c
    ensures from <= h < last && t[h] == c && c !in t[h + 1..last]
  {
    h := last - 1;
    while t[h] != c
      invariant from <= h < last && c !in t[h + 1..last]
      decreases h
    {
      assert t[h..last] == [t[h]] + t[h + 1..last];
      h := h - 1;
    }
  }

  /** Where braces are unsafe, a hole stands behind an opening brace with no brace between. */
  lemma UnsafeShape(t: string) returns (head: string, x: string, k: string, tail: string)
    requires !SafeBraces(t)
    ensures t == head + (("{" + x) + (Placeholder(k) + tail)) && BraceFree(x) && BraceFree(k)
  {
    var i :| 0 <= i < |t| && t[i] == '{' && !ClosesAfter(t, i) && '}' in t[i..];
    var j :| 0 <= j < |t[i..]| && t[i..][j] == '}';
    var q := FirstIn(t, '}', i + 1, i + j);
    var h := LastIn(t, '{', i, q);
    NoneBetween(t, '}', i + 1, q);
    NoneBetween(t, '{', h + 1, q);
    assert !Closing(t, i, q);
    hide ClosesAfter, SafeBraces;
    var p := LastIn(t, '{', i, h);
    NoneBetween(t, '{', p + 1, h);
    head, x, k, tail := Cut(t, p, h, q);
  }

  lemma NoneBetween(t: string, c: char, from: nat, last: nat)
    requires from <= last <= |t| && c !in t[from..last]
    ensures forall m :: from <= m < last ==> t[m] != c
  {
    forall m | from <= m < last ensures t[m] != c { assert t[m] == t[from..last][m - from]; }
  }

  lemma Cut(t: string, p: nat, h: nat, q: nat) returns (head: string, x: string, k: string, tail: string)
    requires p < h < q < |t| && t[p] == t[h] == '{' && t[q] == '}'
    requires forall m :: p < m < q ==> t[m] != '}' && (m != h ==> t[m] != '{')
    ensures t == head + (("{" + x) + (Placeholder(k) + tail)) && BraceFree(x) && BraceFree(k)
  {
    head, x, k, tail := t[..p], t[p + 1..h], t[h + 1..q], t[q + 1..];
    assert t[p..h] == "{" + x && t[h..q + 1] == Placeholder(k);
    hide Placeholder;
    assert t == head + (t[p..h] + (t[h..q + 1] + tail));
  }

  lemma InnerFilled(x: string, k: string, tail: string, w: string)
    requires BraceFree(x) && BraceFree(k) && BraceFree(w)
    ensures Replaced(("{" + x) + (Placeholder(k) + tail), Placeholder(k), w + "}") ==
            Placeholder(x + w) + Replaced(tail, Placeholder(k), w + "}")
  {
    var value, open := w + "}", "{" + x;
    ReplacedSplits(open, Placeholder(k) + tail, k, value);
    ReplacedWithoutClosing(open, k, value);
    ReplacedHole(k, value, k, tail);
    hide Replaced;
    var tail' := Replaced(tail, Placeholder(k), value);
    Reassociate(open, value, tail');
    Reassociate("{", x, w);
    Reassociate(open, w, "}");
  }

  lemma InnerHoles(x: string, k: string, tail: string, w: string)
    requires BraceFree(x) && BraceFree(k) && BraceFree(w) && |k| < |w|
    ensures Holes(("{" + x) + (Placeholder(k) + tail), x + w) == Holes(tail, x + w)
  {
    var open := "{" + x;
    HolesSplit(open, Placeholder(k) + tail, x + w);
    NoHolesWithoutClosing(open, x + w);
    HolesAtHole(k, tail, x + w);
  }

  /** Filling the inner hole first makes one hole more than there was. */
  lemma InnerFirst(head: string, x: string, k: string, tail: string, w: string)
    requires BraceFree(x) && BraceFree(k) && BraceFree(w) && |k| < |w|
    ensures var t := head + (("{" + x) + (Placeholder(k) + tail));
            Holes(Replaced(t, Placeholder(k), w + "}"), x + w) > Holes(t, x + w)
  {
    var y, value := x + w, w + "}";
    var u := ("{" + x) + (Placeholder(k) + tail);
    assert u[0] == '{';
    InnerFilled(x, k, tail, w);
    InnerHoles(x, k, tail, w);
    FilledHoles(head, u, tail, k, value, y);
  }

  lemma FilledHoles(head: string, u: string, tail: string, k: string, value: string, y: string)
    requires BraceFree(k) && BraceFree(y) && '{' !in value && k != y && u != [] && u[0] == '{'
    requires Replaced(u, Placeholder(k), value) == Placeholder(y) + Replaced(tail, Placeholder(k), value)
    requires Holes(u, y) == Holes(tail, y)
    ensures Holes(Replaced(head + u, Placeholder(k), value), y) > Holes(head + u, y)
  {
    ReplacedSplits(head, u, k, value);
    hide Replaced, Holes;
    var head', tail' := Replaced(head, Placeholder(k), value), Replaced(tail, Placeholder(k), value);
    HolesSplit(head, u, y);
    assert (Placeholder(y) + tail')[0] == '{';
    HolesSplit(head', Placeholder(y) + tail', y);
    HolesAtHole(y, tail', y);
    OtherHolesStay(head, k, value, y);
    OtherHolesStay(tail, k, value, y);
  }

  lemma TwoOrders(a: Binding, b: Binding)
    requires a.key != b.key
    ensures var m := map[a.key := a.value, b.key := b.value];
            Lists([a, b], m) && Lists([b, a], m)
  {
    var m := map[a.key := a.value, b.key := b.value];
    forall k | k in m
      ensures exists i :: 0 <= i < 2 && [a, b][i].key == k
      ensures exists i :: 0 <= i < 2 && [b, a][i].key == k
    {
      assert [a, b][0] == a && [a, b][1] == b && [b, a][0] == b && [b, a][1] == a;
      assert [a, b][if k == a.key then 0 else 1].key == k;
      assert [b, a][if k == a.key then 1 else 0].key == k;
    }
  }

  /** Two clean bindings whose two orders give different responses. */
  lemma UnsafeShowsOrder(t: string) returns (bindings: map<string, string>, one: seq<Binding>, other: seq<Binding>)
    requires !SafeBraces(t)
    ensures Clean(bindings) && Lists(one, bindings) && Lists(other, bindings)
    ensures Sequential(t, one) != Sequential(t, other)
  {
    var head, x, k, tail := UnsafeShape(t);
    var w := k + "a";
    var a, b := Binding(k, w + "}"), Binding(x + w, w);
    bindings, one, other := map[a.key := a.value, b.key := b.value], [a, b], [b, a];
    TwoOrders(a, b);
    assert Clean(bindings);
    InnerFirst(head, x, k, tail, w);
    CountsDiffer(t, a, b);
  }

  lemma CountsDiffer(t: string, a: Binding, b: Binding)
    requires BraceFree(a.key) && BraceFree(b.key) && '{' !in a.value && BraceFree(b.value) && |a.key| < |b.value|
    requires Holes(Replaced(t, Placeholder(a.key), a.value), b.key) > Holes(t, b.key)
    ensures Sequential(t, [a, b]) != Sequential(t, [b, a])
  {
    LongValueMakesNoHole(t, b.key, b.value, a.key);
    TwoReplacements(t, a, b);
    TwoReplacements(t, b, a);
    hide *;
    ReplacedOpens(t, a.key, a.value);
    ReplacedOpens(Replaced(t, Placeholder(a.key), a.value), b.key, b.value);
    ReplacedOpens(t, b.key, b.value);
    ReplacedOpens(Replaced(t, Placeholder(b.key), b.value), a.key, a.value);
  }

  lemma TwoReplacements(template: string, x: Binding, y: Binding)
    ensures Sequential(template, [x, y]) ==
            Replaced(Replaced(template, Placeholder(x.key), x.value), Placeholder(y.key), y.value)
  {
    var once := Replaced(template, Placeholder(x.key), x.value);
    var twice := Replaced(once, Placeholder(y.key), y.value);
    assert [x, y][1..] == [y] && [y][1..] == [];
    assert Sequential(once, [y]) == Sequential(twice, []) == twice;
  }

  /** Whatever clean bindings it is given, `t` reads the same in every order they are applied in. */
  ghost predicate OrderFree(t: string) {
    forall bindings, one, other :: Clean(bindings) && Lists(one, bindings) && Lists(other, bindings) ==>
      Sequential(t, one) == Sequential(t, other)
  }

  /**
   A template is order-free under clean bindings exactly when no opening brace that names no
   hole has a closing brace somewhere after it.
   */
  lemma OrderFreeIffSafe(t: string)
    ensures OrderFree(t) <==> SafeBraces(t)
  {
    if SafeBraces(t) {
      forall bindings, one, other | Clean(bindings) && Lists(one, bindings) && Lists(other, bindings)
        ensures Sequential(t, one) == Sequential(t, other)
      {
        FormatIsSimultaneous(t, bindings, one);
        FormatIsSimultaneous(t, bindings, other);
      }
    } else {
      var bindings, one, other := UnsafeShowsOrder(t);
    }
  }

  // ---- unclean bindings show the order ------------------------------------------------------------

  ghost predicate Commute(t: string, a: Binding, b: Binding) {
    Sequential(t, [a, b]) == Sequential(t, [b, a])
  }

  lemma CleanCommute(t: string, a: Binding, b: Binding)
    requires SafeBraces(t) && CleanBinding(a) && CleanBinding(b) && a.key != b.key
    ensures Commute(t, a, b)
  {
    var m := map[a.key := a.value, b.key := b.value];
    TwoOrders(a, b);
    assert Clean(m) by { hide SafeBraces; }
    FormatIsSimultaneous(t, m, [a, b]);
    FormatIsSimultaneous(t, m, [b, a]);
  }

  /** A value that opens a brace, closed by the template, holds a hole. */
  lemma OpenedHole(v: string) returns (head: string, q: string, tail: string)
    requires '{' in v
    ensures v + "}" == head + (Placeholder(q) + tail) && BraceFree(q)
  {
    var s := v + "}";
    var i :| 0 <= i < |v| && v[i] == '{';
    assert s[i] == '{' && s[|v|] == '}';
    var h := LastIn(s, '{', i, |v|);
    var e := FirstIn(s, '}', h + 1, |v|);
    NoneBetween(s, '{', h + 1, |v|);
    NoneBetween(s, '}', h + 1, e);
    head, q, tail := CutHole(s, h, e);
  }

  lemma CutHole(s: string, h: nat, e: nat) returns (head: string, q: string, tail: string)
    requires h < e < |s| && s[h] == '{' && s[e] == '}'
    requires forall m :: h < m < e ==> s[m] != '{' && s[m] != '}'
    ensures s == head + (Placeholder(q) + tail) && BraceFree(q)
  {
    head, q, tail := s[..h], s[h + 1..e], s[e + 1..];
    assert s[h..e + 1] == Placeholder(q);
    hide Placeholder;
    assert s == head + (s[h..e + 1] + tail);
  }

  lemma ClosingStays(pat: string, value: string)
    requires pat != [] && pat[0] == '{'
    ensures Replaced("}", pat, value) == "}"
  {
    assert "}" + [] == "}";
    ReplacedSkips("}", [], pat, value);
  }

  lemma AtClosedHole(key: string, value: string, hole: string)
    requires BraceFree(key) && BraceFree(hole)
    ensures Replaced(Placeholder(hole) + "}", Placeholder(key), value) ==
            (if key == hole then value else Placeholder(hole)) + "}"
  {
    ReplacedHole(key, value, hole, "}");
    ClosingStays(Placeholder(key), value);
  }

  /** Filling a hole that is there leaves fewer opening braces. */
  lemma FilledOpens(head: string, q: string, tail: string)
    requires BraceFree(q)
    ensures var s := head + (Placeholder(q) + tail);
            Opens(Replaced(s, Placeholder(q), [])) < Opens(s)
  {
    ReplacedOpens(head + (Placeholder(q) + tail), q, []);
    HolesSplit(head, Placeholder(q) + tail, q);
    HolesAtHole(q, tail, q);
    hide Holes, Opens, Replaced;
  }

  /**
   A value with an opening brace shows the order on a safe template, under some key and beside
   one clean binding.
   */
  lemma BracedValueShowsOrder(v: string) returns (t: string, key: string, b: Binding)
    requires '{' in v
    ensures SafeBraces(t) && BraceFree(key) && BraceFree(b.key) && BraceFree(b.value) && key != b.key
    ensures !Commute(t, Binding(key, v), b)
  {
    var head, q, tail := OpenedHole(v);
    key, b := q + "a", Binding(q, []);
    t := Placeholder(key) + "}";
    PieceKeepsSafe(Hole(key), "}");
    TwoReplacements(t, Binding(key, v), b);
    TwoReplacements(t, b, Binding(key, v));
    AtClosedHole(key, v, key);
    AtClosedHole(q, [], key);
    FilledOpens(head, q, tail);
    hide Replaced, Opens, Placeholder, Sequential;
  }

  /**
   A key with a brace whose placeholder is safe shows the order on that placeholder, with some
   value and beside one clean binding.
   */
  lemma BracedKeyShowsOrder(key: string) returns (t: string, v: string, b: Binding)
    requires !BraceFree(key) && SafeBraces(Placeholder(key))
    ensures SafeBraces(t) && BraceFree(v) && BraceFree(b.key) && BraceFree(b.value) && key != b.key
    ensures !Commute(t, Binding(key, v), b)
  {
    t, v := Placeholder(key), "x";
    var u, rest := FirstClosed(key);
    b := Binding(u, "y");
    var a := Binding(key, v);
    TwoReplacements(t, a, b);
    TwoReplacements(t, b, a);
    assert t[|t|..] == [] && "x" + [] == "x";
    assert Replaced(t, t, "x") == "x";
    ReplacedWithoutClosing("x", u, "y");
    ReplacedHole(u, "y", u, rest);
    HeadStays("y" + Replaced(rest, Placeholder(u), "y"), t, "x");
  }

  /** A placeholder that is safe although its key has a brace starts with a whole hole. */
  lemma FirstClosed(key: string) returns (u: string, rest: string)
    requires !BraceFree(key) && SafeBraces(Placeholder(key))
    ensures Placeholder(key) == Placeholder(u) + rest && BraceFree(u) && u != key && '}' in key
  {
    var t := Placeholder(key);
    assert t[0] == '{' && t[0..][|key| + 1] == '}';
    assert ClosesAfter(t, 0);
    var j :| Closing(t, 0, j);
    hide SafeBraces, ClosesAfter;
    CutClosed(t, j);
    u, rest := t[1..j], t[j + 1..];
    assert t[1..|key| + 1] == key;
    hide Closing;
    assert u == key[..j - 1] && (j <= |key| ==> key[j - 1] == t[j]);
  }

  lemma CutClosed(t: string, j: int)
    requires t != [] && t[0] == '{' && Closing(t, 0, j)
    ensures t[j] == '}' && t == Placeholder(t[1..j]) + t[j + 1..] && BraceFree(t[1..j])
  {
    assert t[..j + 1] == Placeholder(t[1..j]);
  }

  lemma HeadStays(s: string, pat: string, value: string)
    requires s != [] && s[0] != '{' && pat != [] && pat[0] == '{'
    ensures Replaced(s, pat, value) != [] && Replaced(s, pat, value)[0] == s[0]
  {
  }

  /** The values that never show the order are exactly those without an opening brace. */
  lemma CleanValuesExactly(v: string)
    ensures '{' !in v <==>
            forall t, key, b :: SafeBraces(t) && BraceFree(key) && CleanBinding(b) && key != b.key ==>
              Commute(t, Binding(key, v), b)
  {
    hide SafeBraces, Commute;
    if '{' in v {
      var t, key, b := BracedValueShowsOrder(v);
      assert CleanBinding(b);
    } else {
      forall t, key, b | SafeBraces(t) && BraceFree(key) && CleanBinding(b) && key != b.key
        ensures Commute(t, Binding(key, v), b)
      {
        CleanCommute(t, Binding(key, v), b);
      }
    }
  }

  /**
   The keys that never do are exactly those without a brace and those whose placeholder no safe
   template can hold. A key without a closing brace is one of them.
   */
  lemma CleanKeysExactly(key: string)
    ensures BraceFree(key) || !SafeBraces(Placeholder(key)) <==>
            forall t, v, b :: SafeBraces(t) && '{' !in v && CleanBinding(b) && key != b.key ==>
              Commute(t, Binding(key, v), b)
    ensures '}' !in key ==> BraceFree(key) || !SafeBraces(Placeholder(key))
  {
    hide SafeBraces, Commute;
    if !BraceFree(key) && SafeBraces(Placeholder(key)) {
      var _, _ := FirstClosed(key);
      var t, v, b := BracedKeyShowsOrder(key);
      assert CleanBinding(b);
    } else {
      forall t, v, b | SafeBraces(t) && '{' !in v && CleanBinding(b) && key != b.key
        ensures Commute(t, Binding(key, v), b)
      {
        CleanCommute(t, Binding(key, v), b);
      }
    }
  }
}
