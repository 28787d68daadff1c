/** Form decoding of Slack payloads: `percent_decode` of src/channels/slack/transport.rs, on bytes. */
module PercentDecode {
  import opened Chars

  type byte = x: int | 0 <= x < 256

  const PERCENT: byte := 0x25
  const PLUS: byte := 0x2B
  const SPACE: byte := 0x20

  function HexDigit(b: byte): (r: Option<byte>)
    ensures r.Some? ==> r.value < 16
  {
    if 0x30 <= b <= 0x39 then Some(b - 0x30)
    else if 0x41 <= b <= 0x46 then Some(b - 0x41 + 10)
    else if 0x61 <= b <= 0x66 then Some(b - 0x61 + 10)
    else None
  }

  /** `u8::from_str_radix` on two bytes, which takes a leading `+` for a sign. */
  function FromRadix16(a: byte, b: byte): Option<byte> {
    match (HexDigit(a), HexDigit(b))
    case (Some(hi), Some(lo)) => Some(16 * hi + lo)
    case (None, Some(lo)) => if a == PLUS then Some(lo) else None
    case _ => None
  }

  /** A percent sign at `i` with two bytes after it that parse. */
  predicate Escape(s: seq<byte>, i: nat) {
    i + 2 < |s| && s[i] == PERCENT && FromRadix16(s[i + 1], s[i + 2]).Some?
  }

  function Decoded(s: seq<byte>): (r: seq<byte>)
    ensures |r| <= |s|
  {
    if s == [] then []
    else if s[0] == PLUS then [SPACE] + Decoded(s[1..])
    else if Escape(s, 0) then
      [FromRadix16(s[1], s[2]).value] + Decoded(s[3..])
    else [s[0]] + Decoded(s[1..])
  }

  method PercentDecode(bytes: seq<byte>) returns (result: seq<byte>)
    ensures result == Decoded(bytes)
  {
    hide FromRadix16, Decoded;
    result := [];
    assert bytes[0..] == bytes && [] + Decoded(bytes) == Decoded(bytes);
    var i := 0;
    while i < |bytes|
      invariant i <= |bytes|
      invariant result + Decoded(bytes[i..]) == Decoded(bytes)
    {
      DecodedAt(bytes, i, result);
      if bytes[i] == PLUS {
        result := result + [SPACE];
        i := i + 1;
      } else if bytes[i] == PERCENT && i + 2 < |bytes| {
        var decoded := FromRadix16(bytes[i + 1], bytes[i + 2]);
        if decoded.Some? {
          result := result + [decoded.value];
          i := i + 3;
        } else {
          result := result + [PERCENT];
          i := i + 1;
        }
      } else {
        result := result + [bytes[i]];
        i := i + 1;
      }
    }
    DecodedNothing(bytes[i..]);
  }

  lemma DecodedNothing(s: seq<byte>)
    ensures s == [] ==> Decoded(s) == []
  {
  }

  lemma DecodedAt(s: seq<byte>, i: nat, before: seq<byte>)
    requires i < |s|
    ensures before + Decoded(s[i..]) ==
            if s[i] == PLUS then before + [SPACE] + Decoded(s[i + 1..])
            else if Escape(s, i) then before + [FromRadix16(s[i + 1], s[i + 2]).value] + Decoded(s[i + 3..])
            else before + [s[i]] + Decoded(s[i + 1..])
  {
    hide FromRadix16;
    var rest := s[i..];
    assert rest[1..] == s[i + 1..] && (i + 2 < |s| ==> rest[3..] == s[i + 3..]);
    var out := Decoded(rest);
    if out != [] { assert before + out == before + [out[0]] + out[1..]; }
  }

  // ---- every encoder is undone --------------------------------------------------

  /** The three ways an encoder may write a byte: itself, `+` for a space, `%` and two digits. */
  datatype Token = Itself(b: byte) | PlusSign | Percent(hi: byte, lo: byte)

  predicate Legal(t: Token) {
    match t
    case Itself(b) => b != PERCENT && b != PLUS
    case PlusSign => true
    case Percent(hi, lo) => HexDigit(hi).Some? && HexDigit(lo).Some?
  }

  function Written(t: Token): seq<byte> {
    match t case Itself(b) => [b] case PlusSign => [PLUS] case Percent(hi, lo) => [PERCENT, hi, lo]
  }

  function Meaning(t: Token): byte
    requires Legal(t)
  {
    match t case Itself(b) => b case PlusSign => SPACE
            case Percent(hi, lo) => 16 * HexDigit(hi).value + HexDigit(lo).value
  }

  function WrittenAll(tokens: seq<Token>): seq<byte> {
    if tokens == [] then [] else Written(tokens[0]) + WrittenAll(tokens[1..])
  }

  /** Whichever way each byte was written, decoding gives the bytes back. */
  lemma {:induction false} DecodeInvertsEncoders(tokens: seq<Token>, bytes: seq<byte>)
    requires |tokens| == |bytes|
    requires forall i :: 0 <= i < |tokens| ==> Legal(tokens[i]) && Meaning(tokens[i]) == bytes[i]
    ensures Decoded(WrittenAll(tokens)) == bytes
  {
    if tokens != [] {
      var rest := WrittenAll(tokens[1..]);
      DecodeInvertsEncoders(tokens[1..], bytes[1..]);
      assert WrittenAll(tokens)[|Written(tokens[0])|..] == rest;
      assert bytes == [bytes[0]] + bytes[1..];
    }
  }

  /** Every byte has a percent form, so every byte string has an encoding to undo. */
  lemma EveryByteHasAForm(b: byte)
    ensures exists hi, lo :: Legal(Percent(hi, lo)) && Meaning(Percent(hi, lo)) == b
  {
    var h, l := b / 16, b % 16;
    var hi: byte := if h < 10 then 0x30 + h else 0x41 + h - 10;
    var lo: byte := if l < 10 then 0x30 + l else 0x41 + l - 10;
    assert Legal(Percent(hi, lo)) && Meaning(Percent(hi, lo)) == b;
  }

  ghost predicate HasEscape(s: seq<byte>) {
    exists i: nat :: Escape(s, i)
  }

  lemma HasEscapeTail(s: seq<byte>)
    requires s != []
    ensures HasEscape(s) <==> Escape(s, 0) || HasEscape(s[1..])
  {
    var tail := s[1..];
    forall i: nat | Escape(tail, i) ensures HasEscape(s) { assert Escape(s, i + 1); }
    forall i: nat | Escape(s, i) && i > 0 ensures HasEscape(tail) { assert Escape(tail, i - 1); }
  }

  /** Decoding changes a string exactly when it holds a `+` or an escape that parses. */
  lemma {:induction false} DecodeIsIdentity(s: seq<byte>)
    ensures Decoded(s) == s <==> PLUS !in s && !HasEscape(s)
  {
    if s != [] {
      DecodeIsIdentity(s[1..]);
      HasEscapeTail(s);
      assert s == [s[0]] + s[1..];
      assert Escape(s, 0) ==> |Decoded(s)| <= |s| - 2;
      hide Escape, HasEscape;
    }
  }

  /** Rust's sign: `%+5` is the byte 5, which no encoder writes. */
  lemma SignedEscape(s: seq<byte>)
    requires s == [PERCENT, PLUS, 0x35]
    ensures Decoded(s) == [5]
  {
    assert s[3..] == [];
  }
}
