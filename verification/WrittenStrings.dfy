/**
 The string operations the other modules rest on, in letters: which characters are white
 space, what lowering does, and what trimming, splitting and containing mean.
 */
module WrittenStrings {
  import opened Chars

  /** The twenty-five characters of Unicode's `White_Space`. */
  const WHITE := "\t\n\U{0B}\U{0C}\r \U{85}\U{A0}\U{1680}\U{2000}\U{2001}\U{2002}\U{2003}\U{2004}\U{2005}\U{2006}" +
                 "\U{2007}\U{2008}\U{2009}\U{200A}\U{2028}\U{2029}\U{202F}\U{205F}\U{3000}"

  lemma WhiteTable()
    ensures |WHITE| == 25
    ensures WHITE[0] as int == 9 && WHITE[1] as int == 0x0A && WHITE[2] as int == 0x0B && WHITE[3] as int == 0x0C
    ensures WHITE[4] as int == 0x0D && WHITE[5] as int == 0x20 && WHITE[6] as int == 0x85
    ensures WHITE[7] as int == 0xA0 && WHITE[8] as int == 0x1680
    ensures forall k :: 9 <= k <= 19 ==> WHITE[k] as int == 0x2000 + (k - 9)
    ensures WHITE[20] as int == 0x2028 && WHITE[21] as int == 0x2029 && WHITE[22] as int == 0x202F
    ensures WHITE[23] as int == 0x205F && WHITE[24] as int == 0x3000
  {
  }

  lemma WhiteWrittenOut(c: char)
    ensures IsWhitespace(c) <==> c in WHITE
  {
    WhiteTable();
    hide WHITE;
    var n := c as int;
    if 0x2000 <= n <= 0x200A { assert WHITE[9 + (n - 0x2000)] == c; }
  }

  const CAPITALS := "ABCDEFGHIJKLMNOPQRSTUVWXYZ"
  const SMALLS := "abcdefghijklmnopqrstuvwxyz"

  lemma LetterTables()
    ensures |CAPITALS| == |SMALLS| == 26
    ensures forall k :: 0 <= k < 26 ==> CAPITALS[k] as int == 'A' as int + k && SMALLS[k] as int == 'a' as int + k
  {
  }

  /** The twenty-six capitals become their small letters and every other character stays. */
  lemma LowerWrittenOut(s: string, i: nat)
    requires i < |s|
    ensures |CAPITALS| == |SMALLS| && |Lower(s)| == |s|
    ensures forall k :: 0 <= k < |CAPITALS| && s[i] == CAPITALS[k] ==> Lower(s)[i] == SMALLS[k]
    ensures s[i] !in CAPITALS ==> Lower(s)[i] == s[i]
  {
    LetterTables();
    hide CAPITALS, SMALLS;
    if 'A' <= s[i] <= 'Z' {
      assert CAPITALS[s[i] as int - 'A' as int] == s[i];
    }
  }

  /** `Contains` is having the pattern between two other parts. */
  lemma ContainsWrittenOut(s: string, pat: string)
    ensures Contains(s, pat) <==> exists a, b :: s == a + pat + b
  {
    if Contains(s, pat) {
      var i: nat :| At(s, pat, i);
      assert s == s[..i] + pat + s[i + |pat|..];
    }
    if exists a, b :: s == a + pat + b {
      var a, b :| s == a + pat + b;
      assert s[|a|..|a| + |pat|] == pat;
      assert At(s, pat, |a|);
    }
  }

  /** Trimming takes the white space off both ends, all of it and nothing else. */
  lemma TrimWrittenOut(s: string) returns (before: string, after: string)
    ensures s == before + Trim(s) + after
    ensures (forall c :: c in before ==> IsWhitespace(c)) && (forall c :: c in after ==> IsWhitespace(c))
    ensures Trim(s) != [] ==> !IsWhitespace(Trim(s)[0]) && !IsWhitespace(Trim(s)[|Trim(s)| - 1])
  {
    var rest := TrimStart(s);
    before := TrimStartIs(s);
    after := TrimEndIs(rest);
    Reassociate(before, Trim(s), after);
  }

  lemma {:induction false} TrimStartIs(s: string) returns (before: string)
    ensures s == before + TrimStart(s) && forall c :: c in before ==> IsWhitespace(c)
    ensures TrimStart(s) != [] ==> !IsWhitespace(TrimStart(s)[0])
  {
    if s == [] || !IsWhitespace(s[0]) {
      before := [];
    } else {
      var more := TrimStartIs(s[1..]);
      before := [s[0]] + more;
      HeadTail(s);
      Reassociate([s[0]], more, TrimStart(s[1..]));
    }
  }

  lemma {:induction false} TrimEndIs(s: string) returns (after: string)
    ensures s == TrimEnd(s) + after && forall c :: c in after ==> IsWhitespace(c)
    decreases |s|
  {
    if s == [] || !IsWhitespace(s[|s| - 1]) {
      after := [];
    } else {
      var front, last := s[..|s| - 1], s[|s| - 1];
      var more := TrimEndIs(front);
      after := more + [last];
      assert s == front + [last];
      Reassociate(TrimEnd(front), more, [last]);
    }
  }

  /** Words are split at white space alone: a word is one word, and a gap splits on both sides. */
  lemma SplitWrittenOut(word: string, a: string, gap: char, b: string)
    ensures SplitWhitespace([]) == []
    ensures word != [] && (forall c :: c in word ==> !IsWhitespace(c)) ==> SplitWhitespace(word) == [word]
    ensures IsWhitespace(gap) ==> SplitWhitespace(a + [gap] + b) == SplitWhitespace(a) + SplitWhitespace(b)
  {
    if word != [] && forall c :: c in word ==> !IsWhitespace(c) {
      assert word + [] == word && [] + word == word;
      WordsTakeWord(word, [], []);
    }
    if IsWhitespace(gap) {
      Reassociate(a, [gap], b);
      WordsApart(a, gap, b, []);
    }
  }

  lemma {:induction false} WordsApart(a: string, gap: char, b: string, word: string)
    requires IsWhitespace(gap)
    ensures WordsFrom(a + ([gap] + b), word) == WordsFrom(a, word) + SplitWhitespace(b)
  {
    if a == [] {
      assert a + ([gap] + b) == [gap] + b && ([gap] + b)[1..] == b;
    } else {
      assert (a + ([gap] + b))[1..] == a[1..] + ([gap] + b);
      if IsWhitespace(a[0]) {
        WordsApart(a[1..], gap, b, []);
      } else {
        WordsApart(a[1..], gap, b, word + [a[0]]);
      }
    }
  }
}
