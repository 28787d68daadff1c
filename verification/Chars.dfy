/**
 Characters and strings as the Rust code sees them: `str::find`, `str::trim`,
 `split_whitespace` and ASCII case, over sequences of Unicode scalar values.
 */
module Chars {

  datatype Option<+T> = None | Some(value: T)

  /** `char::is_whitespace`: the Unicode `White_Space` property. */
  predicate IsWhitespace(c: char) {
    var n := c as int;
    || 0x09 <= n <= 0x0D || n == 0x20 || n == 0x85 || n == 0xA0 || n == 0x1680
    || 0x2000 <= n <= 0x200A || n == 0x2028 || n == 0x2029 || n == 0x202F || n == 0x205F || n == 0x3000
  }

  /** `pat` stands in `s` at index `i`. */
  predicate At(s: string, pat: string, i: nat) {
    i + |pat| <= |s| && s[i..i + |pat|] == pat
  }

  ghost predicate Contains(s: string, pat: string) {
    exists i: nat :: At(s, pat, i)
  }

  /** `s[from..].find(pat)`, as an index into `s`: the least occurrence at or after `from`. */
  function FindFrom(s: string, pat: string, from: nat): (r: Option<nat>)
    requires from <= |s|
    ensures r.Some? ==>
              from <= r.value && At(s, pat, r.value) && forall j: nat :: from <= j < r.value ==> !At(s, pat, j)
    ensures r.None? ==> forall j: nat :: from <= j ==> !At(s, pat, j)
    decreases |s| - from
  {
    if At(s, pat, from) then Some(from)
    else if from < |s| then FindFrom(s, pat, from + 1)
    else None
  }

  function Find(s: string, pat: string): Option<nat> {
    FindFrom(s, pat, 0)
  }

  /** The least occurrence is the only index `Find` can return. */
  lemma FindIsLeast(s: string, pat: string, i: nat)
    requires At(s, pat, i)
    requires forall j: nat :: j < i ==> !At(s, pat, j)
    ensures Find(s, pat) == Some(i)
  {
    var r := FindFrom(s, pat, 0);
    assert r.Some? && !(i < r.value);
    assert !(r.value < i);
  }

  /** A pattern whose first character never recurs in it. */
  predicate SelfDelimiting(pat: string) {
    pat != [] && forall k :: 0 < k < |pat| ==> pat[k] != pat[0]
  }

  lemma AtMeans(s: string, pat: string, i: nat)
    ensures At(s, pat, i) <==> i + |pat| <= |s| && forall k: nat :: k < |pat| ==> s[i + k] == pat[k]
  {
    if i + |pat| <= |s| {
      var w := s[i..i + |pat|];
      assert forall k: nat :: k < |pat| ==> w[k] == s[i + k];
    }
  }

  lemma AtIsPrefix(s: string, pat: string, i: nat)
    requires i <= |s|
    ensures At(s, pat, i) <==> pat <= s[i..]
  {
    if i + |pat| <= |s| {
      assert s[i..i + |pat|] == s[i..][..|pat|];
    }
  }

  lemma TakeKeepsAt(s: string, n: nat, pat: string, j: nat)
    requires n <= |s|
    ensures At(s[..n], pat, j) <==> At(s, pat, j) && j + |pat| <= n
  {
    AtMeans(s[..n], pat, j);
    AtMeans(s, pat, j);
  }

  lemma Reassociate(a: string, b: string, c: string)
    ensures a + (b + c) == a + b + c
  {
  }

  lemma Appended<T>(a: seq<T>, x: T, b: seq<T>)
    ensures a + ([x] + b) == a + [x] + b
  {
  }

  lemma HeadTail(s: string)
    requires s != []
    ensures s == [s[0]] + s[1..]
  {
  }

  lemma AtInLeft(s: string, tail: string, pat: string, j: nat)
    ensures At(s, pat, j) ==> At(s + tail, pat, j)
  {
    AtMeans(s + tail, pat, j);
    AtMeans(s, pat, j);
  }

  lemma AtInRight(head: string, s: string, pat: string, j: nat)
    ensures At(head + s, pat, |head| + j) <==> At(s, pat, j)
  {
    if j + |pat| <= |s| {
      assert (head + s)[|head| + j..|head| + j + |pat|] == s[j..j + |pat|];
    }
  }

  /** What a string does not contain, none of its parts contains. */
  lemma PartsContain(a: string, b: string, c: string, pat: string)
    requires !Contains(a + b + c, pat)
    ensures !Contains(a, pat) && !Contains(b, pat) && !Contains(c, pat)
  {
    forall j: nat ensures !At(a, pat, j) && !At(b, pat, j) && !At(c, pat, j) {
      hide At;
      AtInLeft(a, b, pat, j);
      AtInLeft(a + b, c, pat, j);
      AtInRight(a, b, pat, j);
      AtInLeft(a + b, c, pat, |a| + j);
      AtInRight(a + b, c, pat, j);
    }
  }

  lemma Sandwich(open: string, body: string, close: string, tail: string)
    ensures var s := open + body + close + tail;
            && open <= s && s[|open|..] == body + close + tail
            && (body + close + tail)[..|body|] == body
            && s[|open| + |body| + |close|..] == tail
  {
  }

  /** Such a pattern cannot straddle the point where its first character starts the second half. */
  lemma NoStraddle(s: string, tail: string, pat: string, j: nat)
    requires SelfDelimiting(pat) && j < |s|
    requires tail != [] ==> tail[0] == pat[0]
    ensures At(s + tail, pat, j) <==> At(s, pat, j)
  {
    AtMeans(s + tail, pat, j);
    AtMeans(s, pat, j);
    assert |s| < |s + tail| ==> (s + tail)[j + (|s| - j)] == tail[0];
  }

  // ---- ASCII case, trimming, words -----------------------------------------------

  function LowerChar(c: char): char {
    if 'A' <= c <= 'Z' then (c as int + 32) as char else c
  }

  function Lower(s: string): (r: string)
    ensures |r| == |s| && forall i :: 0 <= i < |s| ==> r[i] == LowerChar(s[i])
  {
    seq(|s|, i requires 0 <= i < |s| => LowerChar(s[i]))
  }

  lemma LowerConcat(a: string, b: string)
    ensures Lower(a + b) == Lower(a) + Lower(b)
    ensures Lower(Lower(a)) == Lower(a)
  {
  }

  function TrimStart(s: string): string {
    if s == [] || !IsWhitespace(s[0]) then s else TrimStart(s[1..])
  }

  function TrimEnd(s: string): (r: string)
    ensures r <= s && (r != [] ==> !IsWhitespace(r[|r| - 1]))
  {
    if s == [] || !IsWhitespace(s[|s| - 1]) then s else TrimEnd(s[..|s| - 1])
  }

  function Trim(s: string): string {
    TrimEnd(TrimStart(s))
  }

  lemma {:induction false} TrimEndConcat(a: string, b: string)
    requires a != [] && !IsWhitespace(a[|a| - 1])
    ensures TrimEnd(a + b) == a + TrimEnd(b)
    decreases |b|
  {
    if b == [] || !IsWhitespace(b[|b| - 1]) {
      assert b == [] ==> a + b == a;
    } else {
      assert (a + b)[..|a + b| - 1] == a + b[..|b| - 1];
      TrimEndConcat(a, b[..|b| - 1]);
    }
  }

  /** Trimming a concatenation trims its second half, and the first if nothing is left of that. */
  lemma {:induction false} TrimEndSplit(a: string, b: string)
    ensures TrimEnd(a + b) == if TrimEnd(b) == [] then TrimEnd(a) else a + TrimEnd(b)
    decreases |b|
  {
    if b == [] {
      assert a + b == a;
    } else if IsWhitespace(b[|b| - 1]) {
      assert (a + b)[..|a + b| - 1] == a + b[..|b| - 1];
      TrimEndSplit(a, b[..|b| - 1]);
    }
  }

  /** `split_whitespace` with `word` the word being read. */
  function WordsFrom(s: string, word: string): seq<string> {
    if s == [] then (if word == [] then [] else [word])
    else if IsWhitespace(s[0]) then (if word == [] then [] else [word]) + WordsFrom(s[1..], [])
    else WordsFrom(s[1..], word + [s[0]])
  }

  function SplitWhitespace(s: string): seq<string> {
    WordsFrom(s, [])
  }

  // ---- words --------------------------------------------------------------------------

  /** The index of the first white space, or the length. */
  function FirstSpace(s: string): (r: nat)
    ensures r <= |s| && (r < |s| ==> IsWhitespace(s[r])) && forall i :: 0 <= i < r ==> !IsWhitespace(s[i])
  {
    if s == [] || IsWhitespace(s[0]) then 0 else 1 + FirstSpace(s[1..])
  }

  predicate AllSpace(s: string) {
    forall i :: 0 <= i < |s| ==> IsWhitespace(s[i])
  }

  predicate NoSpace(s: string) {
    forall i :: 0 <= i < |s| ==> !IsWhitespace(s[i])
  }

  lemma {:induction false} WordsSkipSpace(space: string, s: string)
    requires AllSpace(space)
    ensures WordsFrom(space + s, []) == WordsFrom(s, [])
  {
    if space == [] {
      assert space + s == s;
    } else {
      assert (space + s)[1..] == space[1..] + s;
      WordsSkipSpace(space[1..], s);
    }
  }

  /** A word ends at white space or at the end. */
  lemma {:induction false} WordsTakeWord(word: string, s: string, before: string)
    requires NoSpace(word) && before + word != [] && (s != [] ==> IsWhitespace(s[0]))
    ensures WordsFrom(word + s, before) == [before + word] + WordsFrom(s, [])
    decreases |word|
  {
    if word == [] {
      assert word + s == s && before + word == before;
      if s != [] { assert [] + WordsFrom(s[1..], []) == WordsFrom(s[1..], []); }
    } else {
      assert (word + s)[1..] == word[1..] + s;
      assert (before + [word[0]]) + word[1..] == before + word;
      WordsTakeWord(word[1..], s, before + [word[0]]);
    }
  }

  lemma {:induction false} LeadingSpace(s: string) returns (space: string, rest: string)
    ensures s == space + rest && AllSpace(space) && (rest != [] ==> !IsWhitespace(rest[0]))
  {
    if s != [] && IsWhitespace(s[0]) {
      var space', rest' := LeadingSpace(s[1..]);
      space, rest := [s[0]] + space', rest';
      HeadTail(s);
    } else {
      space, rest := [], s;
    }
  }

  /** Any text splits into leading space, its first word, and the rest. */
  lemma FirstWord(s: string) returns (space: string, word: string, rest: string)
    ensures s == space + word + rest && AllSpace(space) && NoSpace(word)
    ensures rest != [] ==> IsWhitespace(rest[0])
    ensures SplitWhitespace(s) == if word == [] then [] else [word] + SplitWhitespace(rest)
    ensures word == [] ==> rest == []
  {
    var tail;
    space, tail := LeadingSpace(s);
    word, rest := tail[..FirstSpace(tail)], tail[FirstSpace(tail)..];
    assert tail == word + rest;
    assert s == space + word + rest;
    WordsSkipSpace(space, tail);
    if word != [] {
      WordsTakeWord(word, rest, []);
      assert [] + word == word;
    }
  }

}
