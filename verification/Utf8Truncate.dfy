/** Cutting a text to a number of characters, where the first byte of a character tells its length. */
module Utf8Truncate {
  import opened Sequences

  type Bytes = seq<bv8>

  /** The length a first byte announces; any other byte counts as a character of its own. */
  function CharLength(c: bv8): nat {
    if c & 0x80 == 0x00 then 1
    else if c & 0xE0 == 0xC0 then 2
    else if c & 0xF0 == 0xE0 then 3
    else if c & 0xF8 == 0xF0 then 4
    else 1
  }

  /** The length by the range of the first byte: 2 to 4 for C0 to F7, 1 for all others. */
  lemma LengthByRange(c: bv8)
    ensures CharLength(c) ==
            if 0xC0 <= c < 0xE0 then 2 else if 0xE0 <= c < 0xF0 then 3 else if 0xF0 <= c < 0xF8 then 4 else 1
  {
  }

  /** The first `max` characters, stopping before one that the text cuts short. */
  function Truncated(text: Bytes, max: nat): Bytes
    decreases |text|
  {
    if text == [] || max == 0 then []
    else
      var n := CharLength(text[0]);
      if n > |text| then [] else text[..n] + Truncated(text[n..], max - 1)
  }

  method TruncateUTF8(text: Bytes, maxTextSize: nat) returns (r: Bytes)
    ensures r == Truncated(text, maxTextSize)
    ensures r <= text
  {
    hide Truncated;
    var i: nat, len: nat := 0, 0;
    ghost var whole := Truncated(text, maxTextSize);
    assert text[..0] == [] && text[0..] == text;
    while i < |text| && len < maxTextSize
      invariant i <= |text| && len <= maxTextSize
      invariant whole == text[..i] + Truncated(text[i..], maxTextSize - len)
      decreases |text| - i
    {
      var c := text[i];
      var charLength: nat := 1;
      if c & 0x80 == 0x00 {
        charLength := 1;
      } else if c & 0xE0 == 0xC0 {
        charLength := 2;
      } else if c & 0xF0 == 0xE0 {
        charLength := 3;
      } else if c & 0xF8 == 0xF0 {
        charLength := 4;
      }
      if i + charLength > |text| || len + 1 > maxTextSize {
        break;
      }
      CharacterTaken(text, i, maxTextSize - len);
      i := i + charLength;
      len := len + 1;
    }
    NothingTaken(text, i, maxTextSize - len);
    r := text[..i];
  }

  lemma CharacterTaken(text: Bytes, i: nat, max: nat)
    requires i < |text| && i + CharLength(text[i]) <= |text| && max > 0
    ensures var n := CharLength(text[i]);
            text[..i] + Truncated(text[i..], max) == text[..i + n] + Truncated(text[i + n..], max - 1)
  {
    hide CharLength;
    LengthIsPositive(text[i]);
    var n := CharLength(text[i]);
    assert text[i..][n..] == text[i + n..];
    assert text[..i] + text[i..][..n] == text[..i + n];
    Regroup(text[..i], text[i..][..n], Truncated(text[i + n..], max - 1));
  }

  lemma NothingTaken(text: Bytes, i: nat, max: nat)
    requires i <= |text| && (i < |text| && max > 0 ==> i + CharLength(text[i]) > |text|)
    ensures text[..i] + Truncated(text[i..], max) == text[..i]
  {
  }

  // ---------------------------------------------------------------- encoded text

  /** A Unicode scalar value. */
  type Scalar = c: bv24 | c < 0x110000 && !(0xD800 <= c < 0xE000)

  /** Section 3 of RFC 3629. */
  function Encode(c: Scalar): (r: Bytes)
    ensures r != [] && CharLength(r[0]) == |r|
  {
    if c < 0x80 then [c as bv8]
    else if c < 0x800 then [LeadOfTwo(c), Continuation(c)]
    else if c < 0x10000 then [LeadOfThree(c), Continuation(c >> 6), Continuation(c)]
    else [LeadOfFour(c), Continuation(c >> 12), Continuation(c >> 6), Continuation(c)]
  }

  function LeadOfTwo(c: bv24): bv8
    requires c < 0x800
  {
    0xC0 | ((c >> 6) as bv8)
  }

  function LeadOfThree(c: bv24): bv8
    requires c < 0x10000
  {
    0xE0 | ((c >> 12) as bv8)
  }

  function LeadOfFour(c: bv24): bv8
    requires c < 0x110000
  {
    0xF0 | ((c >> 18) as bv8)
  }

  function Continuation(c: bv24): bv8 {
    0x80 | ((c & 0x3F) as bv8)
  }

  /** The scalar value read off its bytes. */
  function Decode(r: Bytes): bv24
    requires r != [] && CharLength(r[0]) == |r|
  {
    if |r| == 1 then r[0] as bv24
    else if |r| == 2 then JoinTwo(r[0], r[1])
    else if |r| == 3 then JoinThree(r[0], r[1], r[2])
    else JoinFour(r[0], r[1], r[2], r[3])
  }

  function JoinTwo(a: bv8, b: bv8): bv24 {
    (((a & 0x1F) as bv24) << 6) | ((b & 0x3F) as bv24)
  }

  function JoinThree(a: bv8, b: bv8, c: bv8): bv24 {
    (((a & 0x0F) as bv24) << 12) | (((b & 0x3F) as bv24) << 6) | ((c & 0x3F) as bv24)
  }

  function JoinFour(a: bv8, b: bv8, c: bv8, d: bv8): bv24 {
    (((a & 0x07) as bv24) << 18) | (((b & 0x3F) as bv24) << 12) | (((c & 0x3F) as bv24) << 6) | ((d & 0x3F) as bv24)
  }

  lemma TwoBytesJoin(c: bv24)
    requires c < 0x800
    ensures JoinTwo(LeadOfTwo(c), Continuation(c)) == c
  {
  }

  lemma ThreeBytesJoin(c: bv24)
    requires c < 0x10000
    ensures JoinThree(LeadOfThree(c), Continuation(c >> 6), Continuation(c)) == c
  {
  }

  lemma FourBytesJoin(c: bv24)
    requires c < 0x110000
    ensures JoinFour(LeadOfFour(c), Continuation(c >> 12), Continuation(c >> 6), Continuation(c)) == c
  {
  }

  /** A scalar value can be read back from its encoding. */
  lemma DecodeEncode(c: Scalar)
    ensures Decode(Encode(c)) == c
  {
    hide JoinTwo, JoinThree, JoinFour, LeadOfTwo, LeadOfThree, LeadOfFour, Continuation, CharLength;
    if c < 0x80 {
    } else if c < 0x800 {
      TwoBytesJoin(c);
    } else if c < 0x10000 {
      ThreeBytesJoin(c);
    } else {
      FourBytesJoin(c);
    }
  }

  function EncodeAll(cs: seq<Scalar>): Bytes {
    if cs == [] then [] else Encode(cs[0]) + EncodeAll(cs[1..])
  }

  /** Encoded text is cut exactly between characters: what is left encodes the first ones. */
  lemma {:induction false} TruncatesWholeCharacters(cs: seq<Scalar>, max: nat)
    ensures Truncated(EncodeAll(cs), max) == EncodeAll(cs[..if max <= |cs| then max else |cs|])
  {
    hide Encode, CharLength;
    if cs != [] && max > 0 {
      var first, rest := Encode(cs[0]), EncodeAll(cs[1..]);
      var kept := cs[..if max <= |cs| then max else |cs|];
      FirstCharacterKept(first, rest, max);
      TruncatesWholeCharacters(cs[1..], max - 1);
      assert kept[0] == cs[0] && kept[1..] == cs[1..][..if max - 1 <= |cs| - 1 then max - 1 else |cs| - 1];
    }
  }

  /** The scalar values read off a text, character by character. */
  function DecodeAll(text: Bytes): seq<bv24>
    decreases |text|
  {
    if text == [] then []
    else
      var n := CharLength(text[0]);
      if n > |text| then [] else [Decode(text[..n])] + DecodeAll(text[n..])
  }

  lemma {:induction false} DecodeAllEncoded(cs: seq<Scalar>)
    ensures DecodeAll(EncodeAll(cs)) == cs
  {
    hide Encode, Decode, CharLength;
    if cs != [] {
      var first, rest := Encode(cs[0]), EncodeAll(cs[1..]);
      assert (first + rest)[0] == first[0];
      assert (first + rest)[..|first|] == first && (first + rest)[|first|..] == rest;
      DecodeEncode(cs[0]);
      DecodeAllEncoded(cs[1..]);
    }
  }

  /** What is left of an encoded text is read back as its first characters, and nothing else. */
  lemma TruncatedReadsBack(cs: seq<Scalar>, max: nat)
    ensures DecodeAll(Truncated(EncodeAll(cs), max)) == cs[..if max <= |cs| then max else |cs|]
  {
    TruncatesWholeCharacters(cs, max);
    DecodeAllEncoded(cs[..if max <= |cs| then max else |cs|]);
  }

  // ---------------------------------------------------------------- any bytes

  lemma FirstCharacterKept(first: Bytes, rest: Bytes, max: nat)
    requires first != [] && CharLength(first[0]) == |first| && max > 0
    ensures Truncated(first + rest, max) == first + Truncated(rest, max - 1)
  {
    hide CharLength;
    assert (first + rest)[0] == first[0];
    assert (first + rest)[..|first|] == first && (first + rest)[|first|..] == rest;
  }

  lemma NothingKept(text: Bytes, max: nat)
    ensures text == [] || max == 0 || CharLength(text[0]) > |text| ==> Truncated(text, max) == []
  {
  }

  /**
   For any bytes, cutting twice is cutting once to the smaller size; so a text cut to size
   stays as it is, and a shorter cut is the beginning of a longer one.
   */
  lemma {:induction false} TruncateTwice(text: Bytes, big: nat, small: nat)
    ensures Truncated(Truncated(text, big), small) == Truncated(text, if small <= big then small else big)
    decreases |text|
  {
    hide CharLength, Truncated;
    NothingKept(text, big);
    NothingKept(Truncated(text, big), small);
    NothingKept(text, if small <= big then small else big);
    NothingKept([], small);
    if text != [] && big > 0 && small > 0 && CharLength(text[0]) <= |text| {
      LengthIsPositive(text[0]);
      var n := CharLength(text[0]);
      var first, rest := text[..n], Truncated(text[n..], big - 1);
      assert text == first + text[n..];
      FirstCharacterKept(first, text[n..], big);
      FirstCharacterKept(first, text[n..], if small <= big then small else big);
      FirstCharacterKept(first, rest, small);
      TruncateTwice(text[n..], big - 1, small - 1);
    }
  }

  lemma LengthIsPositive(c: bv8)
    ensures 1 <= CharLength(c) <= 4
  {
  }

  /** How many characters a text holds, one cut short at the end not counted. */
  function Characters(text: Bytes): nat
    decreases |text|
  {
    if text == [] then 0
    else
      var n := CharLength(text[0]);
      if n > |text| then 0 else 1 + Characters(text[n..])
  }

  /** For any bytes, the result is a beginning of the text with as many characters as allowed. */
  lemma {:induction false} TruncatedHoldsAsManyAsAllowed(text: Bytes, max: nat)
    ensures Truncated(text, max) <= text
    ensures Characters(Truncated(text, max)) == if max <= Characters(text) then max else Characters(text)
    decreases |text|
  {
    hide CharLength;
    if text != [] && max > 0 && CharLength(text[0]) <= |text| {
      LengthIsPositive(text[0]);
      var n := CharLength(text[0]);
      var first, rest := text[..n], Truncated(text[n..], max - 1);
      assert text == first + text[n..];
      assert (first + rest)[0] == text[0] && (first + rest)[n..] == rest;
      TruncatedHoldsAsManyAsAllowed(text[n..], max - 1);
    }
  }
}
