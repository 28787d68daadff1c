/**
 The wire text with its characters written out: where a mention ends, and what every escape of
 a form decodes to.
 */
module WrittenWire {
  import opened Chars
  import opened WrittenStrings
  import T = TelegramText
  import P = PercentDecode

  // ---- mentions ----------------------------------------------------------------------------

  /** A letter of either case, a digit or the underscore. */
  predicate InWord(c: char) {
    c in SMALLS || c in CAPITALS || c in "0123456789_"
  }

  lemma WordWrittenOut(c: char)
    ensures T.WordChar(c) <==> InWord(c)
  {
    LetterTables();
    hide SMALLS, CAPITALS;
    var digits := "0123456789_";
    assert forall k :: 0 <= k < 10 ==> digits[k] as int == '0' as int + k;
    var n := c as int;
    if 'a' <= c <= 'z' { assert SMALLS[n - 'a' as int] == c; }
    if 'A' <= c <= 'Z' { assert CAPITALS[n - 'A' as int] == c; }
    if '0' <= c <= '9' { assert digits[n - '0' as int] == c; }
  }

  /** An at sign and the name, in any case, and then the end or a character that is no part of a word. */
  ghost predicate Named(text: string, username: string) {
    exists before, name, after :: NamedAs(text, username, before, name, after)
  }

  predicate NamedAs(text: string, username: string, before: string, name: string, after: string) {
    && text == before + "@" + name + after && Lower(name) == Lower(username)
    && (after != [] ==> !InWord(after[0]))
  }

  lemma LowerKeepsWord(c: char)
    ensures T.WordChar(LowerChar(c)) <==> T.WordChar(c)
    ensures LowerChar(c) == '@' <==> c == '@'
  {
  }

  lemma MentionIsNamed(text: string, username: string)
    ensures T.Mentioned(text, username) <==> Named(text, username)
  {
    if T.Mentioned(text, username) {
      var p: nat :| T.MentionAt(Lower(text), T.Needle(username), p);
      NamedThere(text, username, p);
    }
    if Named(text, username) {
      var before, name, after :| NamedAs(text, username, before, name, after);
      MentionThere(before, name, after, username);
    }
  }

  lemma NamedThere(text: string, username: string, p: nat)
    requires T.MentionAt(Lower(text), T.Needle(username), p)
    ensures Named(text, username)
  {
    var n, needle, hay := |username|, T.Needle(username), Lower(text);
    var before, name, after := text[..p], text[p + 1..p + 1 + n], text[p + 1 + n..];
    assert needle == hay[p..p + 1 + n];
    assert needle[0] == hay[p];
    LowerKeepsWord(text[p]);
    assert text[p] == '@';
    assert needle[1..] == hay[p..p + 1 + n][1..] == Lower(name);
    assert Lower(name) == Lower(username);
    if after != [] {
      assert hay[p + 1 + n] == LowerChar(after[0]);
      LowerKeepsWord(after[0]);
      WordWrittenOut(after[0]);
    }
    hide *;
    NamedSo(text, username, before, name, after, p);
  }

  lemma NamedSo(text: string, username: string, before: string, name: string, after: string, p: nat)
    requires p + 1 + |name| <= |text| && text[p] == '@'
    requires before == text[..p] && name == text[p + 1..p + 1 + |name|] && after == text[p + 1 + |name|..]
    requires Lower(name) == Lower(username) && (after != [] ==> !InWord(after[0]))
    ensures Named(text, username)
  {
    hide Lower, InWord;
    assert text == before + "@" + name + after;
    assert NamedAs(text, username, before, name, after);
  }

  lemma MentionThere(before: string, name: string, after: string, username: string)
    requires Lower(name) == Lower(username) && (after != [] ==> !InWord(after[0]))
    ensures T.Mentioned(before + "@" + name + after, username)
  {
    var text, p := before + "@" + name + after, |before|;
    var needle := T.Needle(username);
    LowerConcat(before + "@" + name, after);
    LowerConcat(before + "@", name);
    LowerConcat(before, "@");
    assert Lower("@") == "@";
    if after != [] {
      LowerKeepsWord(after[0]);
      WordWrittenOut(after[0]);
    }
    assert |Lower(name)| == |name|;
    assert Lower(text)[p..p + |needle|] == needle;
    assert |text| > p + |needle| ==> Lower(text)[p + |needle|] == LowerChar(after[0]);
    assert T.MentionAt(Lower(text), needle, p);
  }

  /** The search reports a mention only where the name stands so, and for a name without an at sign wherever it does. */
  lemma MentionWrittenOut(text: string, username: string)
    ensures T.MentionFrom(Lower(text), T.Needle(username), 0) ==> Named(text, username)
    ensures '@' !in username ==> (T.MentionFrom(Lower(text), T.Needle(username), 0) <==> Named(text, username))
  {
    T.MentionIsExact(username);
    MentionIsNamed(text, username);
    hide T.MentionFrom, T.Mentioned, Named, T.Needle, T.Unskippable;
  }

  // ---- form decoding ------------------------------------------------------------------------------

  /** The bytes of `0123456789ABCDEFabcdef`, and what each is worth. */
  const DIGITS: seq<P.byte> :=
    [0x30, 0x31, 0x32, 0x33, 0x34, 0x35, 0x36, 0x37, 0x38, 0x39,
     0x41, 0x42, 0x43, 0x44, 0x45, 0x46, 0x61, 0x62, 0x63, 0x64, 0x65, 0x66]
  const WORTH: seq<nat> := [0, 1, 2, 3, 4, 5, 6, 7, 8, 9, 10, 11, 12, 13, 14, 15, 10, 11, 12, 13, 14, 15]

  lemma DigitTable()
    ensures |DIGITS| == |WORTH| == 22
    ensures forall k :: 0 <= k < 10 ==> DIGITS[k] == 0x30 + k && WORTH[k] == k
    ensures forall k :: 10 <= k < 16 ==> DIGITS[k] == 0x41 + (k - 10) && WORTH[k] == k
    ensures forall k :: 16 <= k < 22 ==> DIGITS[k] == 0x61 + (k - 16) && WORTH[k] == k - 6
  {
  }

  lemma DigitWorth(i: nat)
    requires i < 22
    ensures |DIGITS| == |WORTH| == 22 && P.HexDigit(DIGITS[i]) == Some(WORTH[i] as P.byte)
  {
    DigitTable();
    hide DIGITS, WORTH;
  }

  lemma NoDigit(b: P.byte)
    ensures P.HexDigit(b).Some? ==> b in DIGITS
  {
    DigitTable();
    hide DIGITS, WORTH;
    if 0x30 <= b <= 0x39 { assert DIGITS[b - 0x30] == b; }
    if 0x41 <= b <= 0x46 { assert DIGITS[10 + (b - 0x41)] == b; }
    if 0x61 <= b <= 0x66 { assert DIGITS[16 + (b - 0x61)] == b; }
  }

  /** `%` and two hexadecimal digits of either case are the byte they write, whatever follows. */
  lemma EscapeWrittenOut(i: nat, j: nat, rest: seq<P.byte>)
    requires i < |DIGITS| && j < |DIGITS|
    ensures |DIGITS| == |WORTH| && 16 * WORTH[i] + WORTH[j] < 256
    ensures P.Decoded([0x25, DIGITS[i], DIGITS[j]] + rest) == [(16 * WORTH[i] + WORTH[j]) as P.byte] + P.Decoded(rest)
    ensures P.Decoded([0x25, 0x2B, DIGITS[j]] + rest) == [WORTH[j] as P.byte] + P.Decoded(rest)
  {
    DigitTable();
    hide DIGITS, WORTH;
    DigitWorth(i);
    DigitWorth(j);
    var s, signed := [0x25, DIGITS[i], DIGITS[j]] + rest, [0x25, 0x2B, DIGITS[j]] + rest;
    assert s[3..] == rest && signed[3..] == rest;
  }

  /** A plus is a space, and every other byte that begins no such escape is itself. */
  lemma OthersWrittenOut(b: P.byte, rest: seq<P.byte>)
    ensures P.Decoded([]) == []
    ensures P.Decoded([0x2B] + rest) == [0x20] + P.Decoded(rest)
    ensures b != 0x2B && b != 0x25 ==> P.Decoded([b] + rest) == [b] + P.Decoded(rest)
    ensures |rest| < 2 || rest[1] !in DIGITS || (rest[0] !in DIGITS && rest[0] != 0x2B) ==>
              P.Decoded([0x25] + rest) == [0x25] + P.Decoded(rest)
  {
    PlainByte(0x2B, rest);
    if b != 0x25 { PlainByte(b, rest); }
    if |rest| < 2 || rest[1] !in DIGITS || (rest[0] !in DIGITS && rest[0] != 0x2B) { PercentByte(rest); }
    assert P.Decoded([]) == [];
    hide *;
  }

  lemma PlainByte(b: P.byte, rest: seq<P.byte>)
    requires b != 0x25
    ensures P.Decoded([b] + rest) == [if b == 0x2B then 0x20 else b] + P.Decoded(rest)
  {
    assert ([b] + rest)[1..] == rest;
    hide P.FromRadix16;
  }

  lemma PercentByte(rest: seq<P.byte>)
    requires |rest| < 2 || rest[1] !in DIGITS || (rest[0] !in DIGITS && rest[0] != 0x2B)
    ensures P.Decoded([0x25] + rest) == [0x25] + P.Decoded(rest)
  {
    if |rest| >= 2 {
      NoDigit(rest[0]);
      NoDigit(rest[1]);
    }
    hide DIGITS, P.HexDigit;
    assert ([0x25] + rest)[1..] == rest;
    assert !P.Escape([0x25] + rest, 0);
    hide P.Escape;
  }
}
