/**
 The base-64 library: four printers (standard, URL, PEM, MIME) and one liberal decoder.

 The decoder accepts both alphabets mixed, '=' or '.' as padding, and missing padding.
 `Chunk` is one turn of its loop; errors are the two exceptions it can raise.
 */
module Base64 {
  import opened Wrappers
  import opened Sequences
  import opened ByteNumbers

  // ---------------------------------------------------------------- alphabets

  const UPPER: string := "ABCDEFGHIJKLMNOPQRSTUVWXYZ"
  const LOWER: string := "abcdefghijklmnopqrstuvwxyz"
  const DIGITS: string := "0123456789"
  const STANDARD: string := UPPER + LOWER + DIGITS + "+/"
  const URL: string := UPPER + LOWER + DIGITS + "-_"

  type Sextet = b: bv8 | b < 64

  datatype DecodeError = InvalidCharacter | OutOfRange

  type Decoding = Result<seq<bv8>, DecodeError>

  function CharOf(url: bool, i: Sextet): char {
    (if url then URL else STANDARD)[i as int]
  }

  function Padding(url: bool): char {
    if url then '.' else '='
  }

  /** `pos_of_char`; None where it throws. */
  function PosOf(c: char): Option<Sextet> {
    if 'A' <= c <= 'Z' then Some((c as int - 'A' as int) as bv8)
    else if 'a' <= c <= 'z' then Some((c as int - 'a' as int + 26) as bv8)
    else if '0' <= c <= '9' then Some((c as int - '0' as int + 52) as bv8)
    else if c == '+' || c == '-' then Some(62)
    else if c == '/' || c == '_' then Some(63)
    else None
  }

  predicate IsPadding(c: char) {
    c == '=' || c == '.'
  }

  lemma LetterAt(i: nat)
    requires i < 26
    ensures UPPER[i] as int == 'A' as int + i && LOWER[i] as int == 'a' as int + i
  {
  }

  lemma DigitAt(i: nat)
    requires i < 10
    ensures DIGITS[i] as int == '0' as int + i
  {
  }

  lemma CharAt(url: bool, i: nat)
    requires i < 64
    ensures var c := CharOf(url, i as bv8);
            if i < 26 then c as int == 'A' as int + i
            else if i < 52 then c as int == 'a' as int + (i - 26)
            else if i < 62 then c as int == '0' as int + (i - 52)
            else if i == 62 then c == (if url then '-' else '+')
            else c == (if url then '_' else '/')
  {
    hide CharOf;
    ByteOfInt(i);
    CharOfIndex(url, i as bv8);
    AlphabetAt(url, i);
  }

  lemma CharOfIndex(url: bool, i: Sextet)
    ensures CharOf(url, i) == (if url then URL else STANDARD)[i as int]
  {
  }

  lemma AlphabetAt(url: bool, i: nat)
    requires i < 64
    ensures var c := (if url then URL else STANDARD)[i];
            if i < 26 then c as int == 'A' as int + i
            else if i < 52 then c as int == 'a' as int + (i - 26)
            else if i < 62 then c as int == '0' as int + (i - 52)
            else if i == 62 then c == (if url then '-' else '+')
            else c == (if url then '_' else '/')
  {
    JoinedAt(UPPER, LOWER, DIGITS, if url then "-_" else "+/", i);
    if i < 26 { LetterAt(i); }
    else if i < 52 { LetterAt(i - 26); }
    else if i < 62 { DigitAt(i - 52); }
  }

  lemma JoinedAt(upper: string, lower: string, digits: string, two: string, i: nat)
    requires |upper| == |lower| == 26 && |digits| == 10 && |two| == 2 && i < 64
    ensures (upper + lower + digits + two)[i] ==
            if i < 26 then upper[i] else if i < 52 then lower[i - 26] else if i < 62 then digits[i - 52] else two[i - 62]
  {
  }

  /** Each alphabet is read back, and holds neither padding nor line breaks. */
  lemma PosOfChar(url: bool, i: Sextet)
    ensures PosOf(CharOf(url, i)) == Some(i)
    ensures !IsPadding(CharOf(url, i)) && CharOf(url, i) != '\n'
  {
    CharAt(url, i as int);
    PosOfCharAt(i as int, CharOf(url, i), url);
  }

  lemma PosOfCharAt(i: nat, c: char, url: bool)
    requires i < 64
    requires if i < 26 then c as int == 'A' as int + i
             else if i < 52 then c as int == 'a' as int + (i - 26)
             else if i < 62 then c as int == '0' as int + (i - 52)
             else if i == 62 then c == (if url then '-' else '+')
             else c == (if url then '_' else '/')
    ensures PosOf(c) == Some(i as bv8) && !IsPadding(c) && c != '\n'
  {
  }

  /** The characters of one alphabet. */
  predicate InAlphabet(url: bool, c: char) {
    PosOf(c).Some? && (url ==> c != '+' && c != '/') && (!url ==> c != '-' && c != '_')
  }

  lemma CharOfPos(url: bool, c: char)
    requires InAlphabet(url, c)
    ensures CharOf(url, PosOf(c).value) == c
  {
    hide CharOf;
    var i := PosOf(c).value as int;
    assert i as bv8 == PosOf(c).value;
    PosRange(c);
    CharAt(url, i);
  }

  lemma PosRange(c: char)
    requires PosOf(c).Some?
    ensures var i := PosOf(c).value as int;
            if i < 26 then c as int == 'A' as int + i
            else if i < 52 then c as int == 'a' as int + (i - 26)
            else if i < 62 then c as int == '0' as int + (i - 52)
            else if i == 62 then c == '+' || c == '-'
            else c == '/' || c == '_'
  {
    if 'A' <= c <= 'Z' { ByteOfInt(c as int - 'A' as int); }
    else if 'a' <= c <= 'z' { ByteOfInt(c as int - 'a' as int + 26); }
    else if '0' <= c <= '9' { ByteOfInt(c as int - '0' as int + 52); }
  }

  lemma CharInAlphabet(url: bool, i: Sextet)
    ensures InAlphabet(url, CharOf(url, i))
  {
    hide CharOf, PosOf;
    CharAt(url, i as int);
    PosOfCharAt(i as int, CharOf(url, i), url);
  }

  // ---------------------------------------------------------------- sextets and bytes

  function Sextet1(b0: bv8): Sextet { (b0 & 0xfc) >> 2 }
  function Sextet2(b0: bv8, b1: bv8): Sextet { ((b0 & 0x03) << 4) + ((b1 & 0xf0) >> 4) }
  function Sextet3(b1: bv8, b2: bv8): Sextet { ((b1 & 0x0f) << 2) + ((b2 & 0xc0) >> 6) }
  function Sextet4(b2: bv8): Sextet { b2 & 0x3f }

  function Byte1(p0: Sextet, p1: Sextet): bv8 { (p0 << 2) + ((p1 & 0x30) >> 4) }
  function Byte2(p1: Sextet, p2: Sextet): bv8 { ((p1 & 0x0f) << 4) + ((p2 & 0x3c) >> 2) }
  function Byte3(p2: Sextet, p3: Sextet): bv8 { ((p2 & 0x03) << 6) + p3 }

  lemma BytesOfSextets(b0: bv8, b1: bv8, b2: bv8)
    ensures Byte1(Sextet1(b0), Sextet2(b0, b1)) == b0
    ensures Byte2(Sextet2(b0, b1), Sextet3(b1, b2)) == b1
    ensures Byte3(Sextet3(b1, b2), Sextet4(b2)) == b2
  {
  }

  lemma SextetsOfBytes(p0: Sextet, p1: Sextet, p2: Sextet, p3: Sextet)
    ensures Sextet1(Byte1(p0, p1)) == p0
    ensures Sextet2(Byte1(p0, p1), Byte2(p1, p2)) == p1
    ensures Sextet3(Byte2(p1, p2), Byte3(p2, p3)) == p2
    ensures Sextet4(Byte3(p2, p3)) == p3
    ensures p2 & 0x03 == 0 ==> Sextet3(Byte2(p1, p2), 0) == p2
    ensures p1 & 0x0f == 0 ==> Sextet2(Byte1(p0, p1), 0) == p1
  {
  }

  // ---------------------------------------------------------------- encoding

  /** The four characters for the first one to three bytes. */
  function Group(data: seq<bv8>, url: bool): (s: string)
    requires data != []
    ensures |s| == 4
  {
    if |data| == 1 then
      [CharOf(url, Sextet1(data[0])), CharOf(url, Sextet2(data[0], 0)), Padding(url), Padding(url)]
    else if |data| == 2 then
      [CharOf(url, Sextet1(data[0])), CharOf(url, Sextet2(data[0], data[1])),
       CharOf(url, Sextet3(data[1], 0)), Padding(url)]
    else
      [CharOf(url, Sextet1(data[0])), CharOf(url, Sextet2(data[0], data[1])),
       CharOf(url, Sextet3(data[1], data[2])), CharOf(url, Sextet4(data[2]))]
  }

  function AfterGroup(data: seq<bv8>): seq<bv8> {
    if |data| <= 3 then [] else data[3..]
  }

  function Encoded(data: seq<bv8>, url: bool): string
    decreases |data|
  {
    if data == [] then "" else Group(data, url) + Encoded(AfterGroup(data), url)
  }

  lemma {:induction false} EncodedLength(data: seq<bv8>, url: bool)
    ensures |Encoded(data, url)| == (|data| + 2) / 3 * 4
    decreases |data|
  {
    if data != [] { EncodedLength(AfterGroup(data), url); }
  }

  /** The four sextets of a group are its three bytes, read as one number, to the base 64. */
  lemma SextetsAreDigits(b0: bv8, b1: bv8, b2: bv8)
    ensures Sextet1(b0) as bv24 * 0x4_0000 + Sextet2(b0, b1) as bv24 * 0x1000
            + Sextet3(b1, b2) as bv24 * 0x40 + Sextet4(b2) as bv24 ==
            b0 as bv24 * 0x1_0000 + b1 as bv24 * 0x100 + b2 as bv24
  {
  }

  /**
   Where the padding stands and what it is: one character for each byte that the last group
   lacks, '=' in the standard form, '.' in the URL form. All else is of the form's alphabet.
   */
  lemma {:induction false} PaddedWhere(data: seq<bv8>, url: bool, i: nat)
    requires i < |Encoded(data, url)|
    ensures var e := Encoded(data, url);
            && (e[i] == (if url then '.' else '=') <==> i >= |e| - (3 - |data| % 3) % 3)
            && (i < |e| - (3 - |data| % 3) % 3 ==> InAlphabet(url, e[i]))
    decreases |data|
  {
    hide Group, Encoded, InAlphabet;
    EncodedLength(data, url);
    EncodedNothing(url);
    EncodedFront(data, url);
    var more := AfterGroup(data);
    EncodedLength(more, url);
    if i < 4 {
      GroupPadding(data, url, i);
    } else {
      PaddedWhere(more, url, i - 4);
      SamePadding(|data|);
    }
  }

  lemma SamePadding(n: nat)
    requires n >= 3
    ensures (3 - (n - 3) % 3) % 3 == (3 - n % 3) % 3
  {
  }

  lemma EncodedFront(data: seq<bv8>, url: bool)
    ensures data != [] ==> Encoded(data, url) == Group(data, url) + Encoded(AfterGroup(data), url)
  {
    hide Group;
  }

  lemma GroupPadding(data: seq<bv8>, url: bool, i: nat)
    requires data != [] && i < 4
    ensures var g := Group(data, url);
            && (g[i] == (if url then '.' else '=') <==> i > |data|)
            && (i <= |data| ==> InAlphabet(url, g[i]))
  {
    hide CharOf, Sextet1, Sextet2, Sextet3, Sextet4, InAlphabet;
    var b0, b1, b2 := data[0], if |data| > 1 then data[1] else 0, if |data| > 2 then data[2] else 0;
    AlphabetCharacter(url, Sextet1(b0));
    AlphabetCharacter(url, Sextet2(b0, b1));
    AlphabetCharacter(url, Sextet3(b1, b2));
    AlphabetCharacter(url, Sextet4(b2));
  }

  lemma AlphabetCharacter(url: bool, i: Sextet)
    ensures InAlphabet(url, CharOf(url, i))
    ensures CharOf(url, i) != '.' && CharOf(url, i) != '='
  {
    CharInAlphabet(url, i);
  }

  newtype UInt32 = x: int | 0 <= x < 0x1_0000_0000

  /** `base64_encode`. The 32-bit position never wraps for input below 4 GiB. */
  method Base64Encode(data: seq<bv8>, url: bool) returns (ret: string)
    requires |data| < 0x1_0000_0000
    ensures ret == Encoded(data, url)
  {
    hide CharOf, Encoded, Sextet1, Sextet2, Sextet3, Sextet4, Group, AfterGroup, Padding;
    ret := "";
    var pos: UInt32 := 0;
    EncodedNothing(url);
    assert data[0..] == data;
    while pos as int < |data|
      invariant pos % 3 == 0 && pos as int <= |data| + 2
      invariant ret + Encoded(if pos as int <= |data| then data[pos..] else [], url) == Encoded(data, url)
    {
      ghost var before, rest := ret, data[pos..];
      GroupFirst(ret, rest, url);
      GroupFrom(data, pos as int, ret, url);
      var b0 := data[pos];
      ret := ret + [CharOf(url, Sextet1(b0))];
      if pos as int + 1 < |data| {
        var b1 := data[pos + 1];
        ret := ret + [CharOf(url, Sextet2(b0, b1))];
        if pos as int + 2 < |data| {
          var b2 := data[pos + 2];
          ret := ret + [CharOf(url, Sextet3(b1, b2))];
          ret := ret + [CharOf(url, Sextet4(b2))];
        } else {
          ret := ret + [CharOf(url, Sextet3(b1, 0))];
          ret := ret + [Padding(url)];
        }
      } else {
        ret := ret + [CharOf(url, Sextet2(b0, 0))];
        ret := ret + [Padding(url)];
        ret := ret + [Padding(url)];
      }
      assert ret == before + Group(rest, url);
      pos := pos + 3;
    }
    assert (if pos as int <= |data| then data[pos..] else []) == [];
  }

  lemma EncodedNothing(url: bool)
    ensures Encoded([], url) == ""
  {
  }

  /** The group at a position, character by character behind what is written already. */
  lemma GroupFrom(data: seq<bv8>, pos: nat, done: string, url: bool)
    requires pos < |data|
    ensures var b0 := data[pos];
            var first := done + [CharOf(url, Sextet1(b0))];
            done + Group(data[pos..], url) ==
            if pos + 1 == |data| then ((first + [CharOf(url, Sextet2(b0, 0))]) + [Padding(url)]) + [Padding(url)]
            else
              var b1 := data[pos + 1];
              var second := first + [CharOf(url, Sextet2(b0, b1))];
              if pos + 2 == |data| then (second + [CharOf(url, Sextet3(b1, 0))]) + [Padding(url)]
              else (second + [CharOf(url, Sextet3(b1, data[pos + 2]))]) + [CharOf(url, Sextet4(data[pos + 2]))]
    ensures AfterGroup(data[pos..]) == if pos + 3 <= |data| then data[pos + 3..] else []
  {
    hide CharOf, Sextet1, Sextet2, Sextet3, Sextet4, Padding;
    var rest := data[pos..];
    assert rest[0] == data[pos];
    if pos + 1 < |data| { assert rest[1] == data[pos + 1]; }
    if pos + 2 < |data| { assert rest[2] == data[pos + 2]; }
  }

  lemma GroupFirst(done: string, rest: seq<bv8>, url: bool)
    requires rest != []
    ensures done + Encoded(rest, url) == (done + Group(rest, url)) + Encoded(AfterGroup(rest), url)
  {
    hide Group;
  }

  /** The position after `k` turns, as the 32-bit counter holds it. */
  function PositionAfter(k: nat): nat {
    3 * k % 0x1_0000_0000
  }

  /** The encoding loop ends exactly for inputs below 4 GiB: beyond, the counter wraps for ever. */
  lemma EncoderStopsExactlyWhen(length: nat)
    ensures (exists k :: PositionAfter(k) >= length) <==> length < 0x1_0000_0000
  {
    if length < 0x1_0000_0000 {
      assert PositionAfter((length + 2) / 3) >= length;
    }
  }

  // ---------------------------------------------------------------- decoding

  /** One turn of the decoding loop on the text that is left. */
  function Chunk(s: string): Decoding
    requires s != ""
  {
    if |s| < 2 then Err(OutOfRange)
    else
      var p1, p0 := PosOf(s[1]), PosOf(s[0]);
      if p1.None? || p0.None? then Err(InvalidCharacter)
      else
        var b1 := Byte1(p0.value, p1.value);
        if |s| < 3 || IsPadding(s[2]) then Ok([b1])
        else
          var p2 := PosOf(s[2]);
          if p2.None? then Err(InvalidCharacter)
          else
            var b2 := Byte2(p1.value, p2.value);
            if |s| < 4 || IsPadding(s[3]) then Ok([b1, b2])
            else
              var p3 := PosOf(s[3]);
              if p3.None? then Err(InvalidCharacter) else Ok([b1, b2, Byte3(p2.value, p3.value)])
  }

  function AfterChunk(s: string): string {
    if |s| <= 4 then "" else s[4..]
  }

  /** Bytes decoded earlier, before what decoding the rest gives. */
  function Then(done: seq<bv8>, rest: Decoding): Decoding {
    match rest
    case Ok(b) => Ok(done + b)
    case Err(e) => Err(e)
  }

  /** The decoder's loop, without line-break removal. */
  function Decoded(s: string): Decoding
    decreases |s|
  {
    if s == "" then Ok([])
    else match Chunk(s)
         case Err(e) => Err(e)
         case Ok(b) => Then(b, Decoded(AfterChunk(s)))
  }

  /** Decoding after a whole number of chunks: first part, then second, whatever either gives. */
  lemma {:induction false} DecodeConcat(x: string, y: string)
    requires |x| % 4 == 0
    ensures Decoded(x + y) ==
            match Decoded(x) case Err(e) => Err(e) case Ok(b) => Then(b, Decoded(y))
    decreases |x|
  {
    hide PosOf, Byte1, Byte2, Byte3, IsPadding;
    if x == "" {
      assert x + y == y;
      ThenNothing(Decoded(y));
    } else {
      assert AfterChunk(x + y) == AfterChunk(x) + y;
      ChunkLocal(x, y);
      DecodeConcat(AfterChunk(x), y);
      if Chunk(x).Ok? && Decoded(AfterChunk(x)).Ok? {
        ThenThen(Chunk(x).value, Decoded(AfterChunk(x)).value, Decoded(y));
      }
    }
  }

  lemma ThenNothing(r: Decoding)
    ensures Then([], r) == r
  {
    assert r.Ok? ==> [] + r.value == r.value;
  }

  lemma ThenThen(a: seq<bv8>, b: seq<bv8>, r: Decoding)
    ensures Then(a, Then(b, r)) == Then(a + b, r)
  {
    assert r.Ok? ==> a + (b + r.value) == (a + b) + r.value;
  }

  lemma ChunkLocal(x: string, y: string)
    requires |x| >= 4
    ensures Chunk(x + y) == Chunk(x)
  {
    hide PosOf, Byte1, Byte2, Byte3, IsPadding;
  }

  // ---------------------------------------------------------------- one decoder inverts every printer

  lemma ChunkOfGroup(data: seq<bv8>, url: bool)
    requires data != []
    ensures Chunk(Group(data, url)) == Ok(if |data| <= 3 then data else data[..3])
    ensures |data| == 1 ==> Chunk(Group(data, url)[..2]) == Ok(data)
    ensures |data| == 2 ==> Chunk(Group(data, url)[..3]) == Ok(data)
  {
    hide CharOf, PosOf, Sextet1, Sextet2, Sextet3, Sextet4, Byte1, Byte2, Byte3;
    var b0, b1, b2 := data[0], if |data| > 1 then data[1] else 0, if |data| > 2 then data[2] else 0;
    BytesOfSextets(b0, b1, b2);
    PosOfChar(url, Sextet1(b0));
    PosOfChar(url, Sextet2(b0, b1));
    PosOfChar(url, Sextet3(b1, b2));
    PosOfChar(url, Sextet4(b2));
    if |data| == 1 {
      assert data == [b0];
    } else if |data| == 2 {
      assert data == [b0, b1];
    } else {
      assert (if |data| <= 3 then data else data[..3]) == [b0, b1, b2];
    }
  }

  /** Decoding a printed text gives the bytes back, in either alphabet. */
  lemma {:induction false} DecodeEncoded(data: seq<bv8>, url: bool)
    ensures Decoded(Encoded(data, url)) == Ok(data)
    decreases |data|
  {
    hide Chunk, Group;
    if data != [] {
      ChunkOfGroup(data, url);
      DecodeEncoded(AfterGroup(data), url);
      var g, rest := Group(data, url), Encoded(AfterGroup(data), url);
      ChunkLocal(g, rest);
      assert AfterChunk(g + rest) == rest;
      assert data == (if |data| <= 3 then data else data[..3]) + AfterGroup(data);
    }
  }

  /** A text without its trailing padding characters. */
  function Stripped(s: string): string {
    if s != "" && IsPadding(s[|s| - 1]) then Stripped(s[..|s| - 1]) else s
  }

  /** The padding may as well be missing. */
  lemma {:induction false} DecodeStripped(data: seq<bv8>, url: bool)
    ensures Decoded(Stripped(Encoded(data, url))) == Ok(data)
    decreases |data|
  {
    hide CharOf, Chunk;
    if data != [] {
      var g, more := Group(data, url), AfterGroup(data);
      if more == [] {
        assert Encoded(data, url) == g;
        StrippedGroup(data, url);
        ChunkOfGroup(data, url);
        var t := Stripped(g);
        assert AfterChunk(t) == "" && Decoded("") == Ok([]);
        assert data + [] == data;
      } else {
        var rest := Encoded(more, url);
        StrippedNonempty(more, url);
        StrippedConcat(g, rest);
        DecodeStripped(more, url);
        DecodeConcat(g, Stripped(rest));
        DecodeEncodedGroup(data, url);
        assert data == data[..3] + more;
      }
    }
  }

  lemma DecodeEncodedGroup(data: seq<bv8>, url: bool)
    requires |data| > 3
    ensures Decoded(Group(data, url)) == Ok(data[..3])
  {
    hide Chunk, Group;
    ChunkOfGroup(data, url);
    assert data[..3] + [] == data[..3];
  }

  lemma StrippedGroup(data: seq<bv8>, url: bool)
    requires 0 < |data| <= 3
    ensures Stripped(Group(data, url)) == Group(data, url)[..|data| + 1]
  {
    hide CharOf, Sextet1, Sextet2, Sextet3, Sextet4;
    var b0, b1, b2 := data[0], if |data| > 1 then data[1] else 0, if |data| > 2 then data[2] else 0;
    PosOfChar(url, Sextet2(b0, b1));
    PosOfChar(url, Sextet3(b1, b2));
    PosOfChar(url, Sextet4(b2));
    var g := Group(data, url);
    assert g[..4] == g;
    if |data| < 3 {
      assert Stripped(g) == Stripped(g[..3]);
      if |data| < 2 {
        assert g[..3][..2] == g[..2] && Stripped(g[..3]) == Stripped(g[..2]);
      }
    }
  }

  lemma {:induction false} StrippedNonempty(data: seq<bv8>, url: bool)
    requires data != []
    ensures Stripped(Encoded(data, url)) != ""
  {
    hide CharOf;
    PosOfChar(url, Sextet1(data[0]));
    StrippedKeeps(Encoded(data, url));
  }

  lemma {:induction false} StrippedKeeps(s: string)
    requires s != "" && !IsPadding(s[0])
    ensures Stripped(s) != ""
  {
    if IsPadding(s[|s| - 1]) { StrippedKeeps(s[..|s| - 1]); }
  }

  lemma {:induction false} StrippedConcat(g: string, rest: string)
    requires Stripped(rest) != ""
    ensures Stripped(g + rest) == g + Stripped(rest)
  {
    assert rest != "";
    var s := g + rest;
    if IsPadding(rest[|rest| - 1]) {
      assert s[..|s| - 1] == g + rest[..|rest| - 1];
      StrippedConcat(g, rest[..|rest| - 1]);
    }
  }

  /** `decode` without line-break removal: the loop over chunks of four. */
  method DecodeChunks(s: string) returns (r: Decoding)
    ensures r == Decoded(s)
  {
    hide PosOf, Byte1, Byte2, Byte3, Decoded;
    var ret: seq<bv8> := [];
    var pos := 0;
    assert s[0..] == s;
    ThenNothing(Decoded(s));
    while pos < |s|
      invariant 0 <= pos && (pos > |s| ==> pos < |s| + 4)
      invariant Decoded(s) == Then(ret, Decoded(if pos <= |s| then s[pos..] else ""))
    {
      ghost var start, rest := ret, s[pos..];
      DecodedUnfolds(start, rest);
      if pos + 1 >= |s| {
        return Err(OutOfRange);
      }
      var p1 := PosOf(s[pos + 1]);
      if p1.None? { return Err(InvalidCharacter); }
      var p0 := PosOf(s[pos]);
      if p0.None? { return Err(InvalidCharacter); }
      ret := ret + [Byte1(p0.value, p1.value)];
      if pos + 2 < |s| && s[pos + 2] != '=' && s[pos + 2] != '.' {
        var p2 := PosOf(s[pos + 2]);
        if p2.None? { return Err(InvalidCharacter); }
        ret := ret + [Byte2(p1.value, p2.value)];
        if pos + 3 < |s| && s[pos + 3] != '=' && s[pos + 3] != '.' {
          var p3 := PosOf(s[pos + 3]);
          if p3.None? { return Err(InvalidCharacter); }
          ret := ret + [Byte3(p2.value, p3.value)];
        }
      }
      assert Chunk(rest).Ok? && ret == start + Chunk(rest).value;
      pos := pos + 4;
      assert AfterChunk(rest) == if pos <= |s| then s[pos..] else "";
    }
    assert (if pos <= |s| then s[pos..] else "") == "";
    DecodedNothing();
    assert ret + [] == ret;
    return Ok(ret);
  }

  lemma DecodedNothing()
    ensures Decoded("") == Ok([])
  {
  }

  /** A turn of the decoding loop: throw as the chunk does, or go on behind its bytes. */
  lemma DecodedUnfolds(start: seq<bv8>, rest: string)
    requires rest != ""
    ensures Then(start, Decoded(rest)) ==
            if Chunk(rest).Err? then Err(Chunk(rest).error)
            else Then(start + Chunk(rest).value, Decoded(AfterChunk(rest)))
  {
    hide Chunk;
    if Chunk(rest).Ok? {
      ThenThen(start, Chunk(rest).value, Decoded(AfterChunk(rest)));
    }
  }

  function WithoutNewlines(s: string): string {
    if s == "" then "" else (if s[0] == '\n' then "" else [s[0]]) + WithoutNewlines(s[1..])
  }

  /** `base64_decode(s, remove_linebreaks)`. */
  function Base64Decoded(s: string, removeLinebreaks: bool): Decoding {
    if removeLinebreaks then Decoded(WithoutNewlines(s)) else Decoded(s)
  }

  method Base64Decode(s: string, removeLinebreaks: bool) returns (r: Decoding)
    ensures r == Base64Decoded(s, removeLinebreaks)
  {
    if s == "" {
      return Ok([]);
    }
    if removeLinebreaks {
      r := DecodeChunks(WithoutNewlines(s));
    } else {
      r := DecodeChunks(s);
    }
  }

  // ---------------------------------------------------------------- what the decoder takes

  /**
   What the decoder takes at a position: a code character of either alphabet; as third or
   fourth of its chunk also padding; and behind a third that is padding, anything.
   */
  predicate TakesAt(s: string, i: nat)
    requires i < |s|
  {
    || PosOf(s[i]).Some?
    || (i % 4 >= 2 && (s[i] == '=' || s[i] == '.'))
    || (i % 4 == 3 && (s[i - 1] == '=' || s[i - 1] == '.'))
  }

  predicate TakesUpTo(s: string, n: nat)
    requires n <= |s|
  {
    forall i | 0 <= i < n :: TakesAt(s, i)
  }

  lemma ChunkTakes(s: string)
    requires s != ""
    ensures var n := if |s| < 4 then |s| else 4;
            && (Chunk(s) == Err(OutOfRange) <==> |s| == 1)
            && (Chunk(s).Ok? <==> |s| != 1 && TakesUpTo(s, n))
  {
    hide PosOf, Byte1, Byte2, Byte3;
    var n := if |s| < 4 then |s| else 4;
    NotPadding(s[if n > 2 then 2 else 0]);
    if |s| >= 2 {
      assert TakesAt(s, 0) <==> PosOf(s[0]).Some?;
      assert TakesAt(s, 1) <==> PosOf(s[1]).Some?;
      assert n > 2 ==> (TakesAt(s, 2) <==> PosOf(s[2]).Some? || IsPadding(s[2]));
      assert n > 3 ==> (TakesAt(s, 3) <==> PosOf(s[3]).Some? || IsPadding(s[3]) || IsPadding(s[2]));
    }
  }

  lemma TakesBehindChunk(s: string, n: nat)
    requires 4 <= n <= |s|
    ensures TakesUpTo(s, n) <==> TakesUpTo(s, 4) && TakesUpTo(s[4..], n - 4)
  {
    hide PosOf;
    forall i: nat | i < n - 4 ensures TakesAt(s[4..], i) <==> TakesAt(s, i + 4) {
      assert (i + 4) % 4 == i % 4;
    }
    if TakesUpTo(s, n) {
      forall i | 0 <= i < n - 4 ensures TakesAt(s[4..], i) { assert TakesAt(s, i + 4); }
    }
    if TakesUpTo(s, 4) && TakesUpTo(s[4..], n - 4) {
      forall i | 0 <= i < n ensures TakesAt(s, i) {
        if i >= 4 { assert TakesAt(s[4..], i - 4); }
      }
    }
  }

  /**
   Which texts decode, and what is thrown for the others. A single character behind whole
   chunks that are fine is read past the end; anything else that is not taken is an invalid
   character. Padding may stand inside a text.
   */
  lemma {:induction false} DecodesExactlyWhen(s: string)
    ensures Decoded(s).Ok? <==> |s| % 4 != 1 && TakesUpTo(s, |s|)
    ensures Decoded(s) == Err(OutOfRange) <==> |s| % 4 == 1 && TakesUpTo(s, |s| - 1)
    decreases |s|
  {
    hide TakesUpTo, Chunk;
    TakesNothing(s);
    if s != "" {
      ChunkTakes(s);
      DecodesExactlyWhen(AfterChunk(s));
      if |s| >= 4 {
        TakesBehindChunk(s, |s|);
        if |s| > 4 { TakesBehindChunk(s, |s| - 1); }
        TakesNothing(s[4..]);
        assert s[4..] == AfterChunk(s);
        assert |s[4..]| % 4 == |s| % 4;
      }
    }
  }

  lemma TakesNothing(s: string)
    ensures TakesUpTo(s, 0)
  {
  }

  // ---------------------------------------------------------------- canonical texts

  /** A group as the encoder writes it: one alphabet, its own padding, zero pad bits. */
  predicate CanonicalGroup(g: string, url: bool, last: bool)
    requires |g| == 4
  {
    && InAlphabet(url, g[0])
    && InAlphabet(url, g[1])
    && (if g[2] == Padding(url) then last && g[3] == Padding(url) && PosOf(g[1]).value & 0x0f == 0
        else InAlphabet(url, g[2]))
    && (g[2] == Padding(url)
        || if g[3] == Padding(url) then last && PosOf(g[2]).value & 0x03 == 0 else InAlphabet(url, g[3]))
  }

  /** Canonical as in section 3.5 of RFC 4648: whole groups, padding only at the end, zero pad bits. */
  predicate Canonical(s: string, url: bool) {
    s == "" || (|s| >= 4 && CanonicalGroup(s[..4], url, |s| == 4) && Canonical(s[4..], url))
  }

  lemma GroupIsCanonical(data: seq<bv8>, url: bool)
    requires data != []
    ensures CanonicalGroup(Group(data, url), url, |data| <= 3)
  {
    hide CharOf, PosOf, Sextet1, Sextet2, Sextet3, Sextet4;
    var b0, b1, b2 := data[0], if |data| > 1 then data[1] else 0, if |data| > 2 then data[2] else 0;
    PosOfChar(url, Sextet1(b0)); CharInAlphabet(url, Sextet1(b0));
    PosOfChar(url, Sextet2(b0, b1)); CharInAlphabet(url, Sextet2(b0, b1));
    PosOfChar(url, Sextet3(b1, b2)); CharInAlphabet(url, Sextet3(b1, b2));
    PosOfChar(url, Sextet4(b2)); CharInAlphabet(url, Sextet4(b2));
    PadBitsAreZero(b0, b1);
  }

  lemma PadBitsAreZero(b0: bv8, b1: bv8)
    ensures Sextet2(b0, 0) & 0x0f == 0 && Sextet3(b1, 0) & 0x03 == 0
  {
  }

  /** What the encoder prints is canonical. */
  lemma {:induction false} EncodedIsCanonical(data: seq<bv8>, url: bool)
    ensures Canonical(Encoded(data, url), url)
    decreases |data|
  {
    hide CanonicalGroup, Group;
    if data != [] {
      var g, rest := Group(data, url), Encoded(AfterGroup(data), url);
      GroupIsCanonical(data, url);
      EncodedIsCanonical(AfterGroup(data), url);
      EncodedLength(AfterGroup(data), url);
      assert (g + rest)[..4] == g && (g + rest)[4..] == rest;
    }
  }

  lemma GroupOfChunk(g: string, url: bool, last: bool)
    requires |g| == 4 && CanonicalGroup(g, url, last)
    ensures Chunk(g).Ok? && Chunk(g).value != [] && (!last ==> |Chunk(g).value| == 3) && |Chunk(g).value| <= 3
    ensures Group(Chunk(g).value, url) == g
  {
    hide CharOf, PosOf, Sextet1, Sextet2, Sextet3, Sextet4, Byte1, Byte2, Byte3;
    CharOfPos(url, g[0]);
    CharOfPos(url, g[1]);
    NotPadding(g[2]);
    NotPadding(g[3]);
    var p0, p1 := PosOf(g[0]).value, PosOf(g[1]).value;
    if g[2] == Padding(url) {
      SextetsOfBytes(p0, p1, 0, 0);
    } else {
      CharOfPos(url, g[2]);
      var p2 := PosOf(g[2]).value;
      if g[3] == Padding(url) {
        SextetsOfBytes(p0, p1, p2, 0);
      } else {
        CharOfPos(url, g[3]);
        SextetsOfBytes(p0, p1, p2, PosOf(g[3]).value);
      }
    }
  }

  lemma NotPadding(c: char)
    ensures PosOf(c).Some? ==> !IsPadding(c)
  {
  }

  /** Encoding what a canonical text decodes to gives that text back. */
  lemma {:induction false} EncodeDecoded(s: string, url: bool)
    requires Canonical(s, url)
    ensures Decoded(s).Ok? && Encoded(Decoded(s).value, url) == s
    decreases |s|
  {
    hide CanonicalGroup, Chunk, Group;
    if s != "" {
      var g, rest := s[..4], s[4..];
      assert s == g + rest;
      GroupOfChunk(g, url, |s| == 4);
      EncodeDecoded(rest, url);
      ChunkLocal(g, rest);
      assert AfterChunk(s) == rest;
      var b, more := Chunk(g).value, Decoded(rest).value;
      assert |s| == 4 ==> rest == "" && more == [];
      GroupOfConcat(b, more, url);
    }
  }

  lemma GroupOfConcat(b: seq<bv8>, more: seq<bv8>, url: bool)
    requires b != [] && |b| <= 3 && (|b| < 3 ==> more == [])
    ensures Encoded(b + more, url) == Group(b, url) + Encoded(more, url)
  {
    hide CharOf, Sextet1, Sextet2, Sextet3, Sextet4;
    if |b| < 3 {
      assert b + more == b;
    } else {
      assert AfterGroup(b + more) == more;
      assert Group(b + more, url) == Group(b, url);
    }
  }

  /** The canonical texts are exactly the encoder's outputs. */
  lemma CanonicalExactlyWhenPrinted(s: string, url: bool)
    ensures Canonical(s, url) <==> exists data :: Encoded(data, url) == s
  {
    hide Canonical, Encoded, Decoded;
    if Canonical(s, url) {
      EncodeDecoded(s, url);
      assert Encoded(Decoded(s).value, url) == s;
    }
    forall data | Encoded(data, url) == s ensures Canonical(s, url) {
      EncodedIsCanonical(data, url);
    }
  }

  // ---------------------------------------------------------------- line breaks

  /** The text with a line break behind every `d` characters that something follows. */
  function Broken(s: string, d: nat): string
    requires d > 0
  {
    if |s| <= d then s else s[..d] + ("\n" + Broken(s[d..], d))
  }

  /** `insert_linebreaks`: inserts into the string at a position that moves on by `distance + 1`. */
  method InsertLinebreaks(str0: string, distance: nat) returns (str: string)
    requires distance > 0
    ensures str == Broken(str0, distance)
  {
    hide Broken;
    str := str0;
    if |str| == 0 {
      BrokenUnfolds("", distance);
      return "";
    }
    var pos := distance;
    assert str0 == str0[..0] + str0[0..] && str[pos - distance..] == str0;
    while pos < |str|
      invariant distance <= pos && pos - distance <= |str|
      invariant str[..pos - distance] + Broken(str[pos - distance..], distance) == Broken(str0, distance)
      decreases |str| - pos
    {
      BreakHere(str, pos, distance);
      str := str[..pos] + "\n" + str[pos..];
      pos := pos + distance + 1;
    }
    BrokenUnfolds(str[pos - distance..], distance);
  }

  lemma BrokenUnfolds(s: string, d: nat)
    requires d > 0
    ensures Broken(s, d) == if |s| <= d then s else s[..d] + ("\n" + Broken(s[d..], d))
  {
  }

  lemma BreakHere(str: string, pos: nat, d: nat)
    requires 0 < d <= pos < |str|
    ensures var t := str[..pos] + "\n" + str[pos..];
            t[..pos + 1] + Broken(t[pos + 1..], d) == str[..pos - d] + Broken(str[pos - d..], d)
  {
    var t, line := str[..pos] + "\n" + str[pos..], str[pos - d..];
    assert t[pos + 1..] == str[pos..] && t[..pos + 1] == str[..pos] + "\n";
    assert line[..d] == str[pos - d..pos] && line[d..] == str[pos..];
    assert str[..pos] == str[..pos - d] + str[pos - d..pos];
    RegroupFour(str[..pos - d], str[pos - d..pos], "\n", Broken(str[pos..], d));
  }

  predicate NewlineFree(s: string) {
    forall i | 0 <= i < |s| :: s[i] != '\n'
  }

  lemma {:induction false} WithoutNewlinesConcat(a: string, b: string)
    ensures WithoutNewlines(a + b) == WithoutNewlines(a) + WithoutNewlines(b)
  {
    if a == "" {
      assert a + b == b;
    } else {
      assert (a + b)[1..] == a[1..] + b;
      WithoutNewlinesConcat(a[1..], b);
    }
  }

  lemma {:induction false} NewlineFreeKept(s: string)
    requires NewlineFree(s)
    ensures WithoutNewlines(s) == s
  {
    if s != "" {
      NewlineFreeKept(s[1..]);
      assert s == [s[0]] + s[1..];
    }
  }

  lemma LineComesOut(line: string, rest: string)
    requires NewlineFree(line)
    ensures WithoutNewlines(line + ("\n" + rest)) == line + WithoutNewlines(rest)
  {
    hide WithoutNewlines;
    NewlineFreeKept(line);
    WithoutNewlinesConcat(line, "\n" + rest);
    NewlineDropped(rest);
  }

  lemma NewlineDropped(rest: string)
    ensures WithoutNewlines("\n" + rest) == WithoutNewlines(rest)
  {
    assert ("\n" + rest)[1..] == rest;
  }

  /** Taking the line breaks out again restores the text. */
  lemma {:induction false} BreaksComeOut(s: string, d: nat)
    requires d > 0 && NewlineFree(s)
    ensures WithoutNewlines(Broken(s, d)) == s
    decreases |s|
  {
    hide WithoutNewlines;
    if |s| <= d {
      NewlineFreeKept(s);
    } else {
      BreaksComeOut(s[d..], d);
      LineComesOut(s[..d], Broken(s[d..], d));
      assert s == s[..d] + s[d..];
    }
  }

  /** Cutting a text at its newlines. */
  function SplitLines(t: string): (ls: seq<string>)
    ensures ls != []
  {
    if t == "" then [""]
    else if t[0] == '\n' then [""] + SplitLines(t[1..])
    else
      var ls := SplitLines(t[1..]);
      [[t[0]] + ls[0]] + ls[1..]
  }

  lemma {:induction false} SplitAfterLine(line: string, rest: string)
    requires NewlineFree(line)
    ensures SplitLines(line + ("\n" + rest)) == [line] + SplitLines(rest)
    ensures SplitLines(line) == [line]
  {
    if line == "" {
      assert line + ("\n" + rest) == "\n" + rest && ("\n" + rest)[1..] == rest;
    } else {
      SplitAfterLine(line[1..], rest);
      assert (line + ("\n" + rest))[1..] == line[1..] + ("\n" + rest);
      assert line == [line[0]] + line[1..];
    }
  }

  /** Every line but the last has exactly `d` characters; the last has 1 to `d` of them. */
  lemma {:induction false} LineLengths(s: string, d: nat)
    requires d > 0 && NewlineFree(s) && s != ""
    ensures var ls := SplitLines(Broken(s, d));
            && (forall i | 0 <= i < |ls| - 1 :: |ls[i]| == d)
            && 1 <= |ls[|ls| - 1]| <= d
    decreases |s|
  {
    if |s| <= d {
      SplitAfterLine(s, "");
    } else {
      LineLengths(s[d..], d);
      SplitAfterLine(s[..d], Broken(s[d..], d));
    }
  }

  // ---------------------------------------------------------------- PEM and MIME

  const PEM_LINE := 64
  const MIME_LINE := 76

  /** `encode_with_line_breaks`. */
  method EncodeWithLineBreaks(data: seq<bv8>, lineLength: nat) returns (s: string)
    requires |data| < 0x1_0000_0000 && lineLength > 0
    ensures s == Broken(Encoded(data, false), lineLength)
  {
    s := Base64Encode(data, false);
    s := InsertLinebreaks(s, lineLength);
  }

  lemma {:induction false} EncodedNewlineFree(data: seq<bv8>, url: bool)
    ensures NewlineFree(Encoded(data, url))
    decreases |data|
  {
    hide CharOf, Sextet1, Sextet2, Sextet3, Sextet4;
    if data != [] {
      var b0, b1, b2 := data[0], if |data| > 1 then data[1] else 0, if |data| > 2 then data[2] else 0;
      PosOfChar(url, Sextet1(b0));
      PosOfChar(url, Sextet2(b0, b1));
      PosOfChar(url, Sextet3(b1, b2));
      PosOfChar(url, Sextet4(b2));
      EncodedNewlineFree(AfterGroup(data), url);
    }
  }

  /** With line-break removal the decoder inverts the PEM and MIME printers, for any line length. */
  lemma DecodeBroken(data: seq<bv8>, d: nat)
    requires d > 0
    ensures Base64Decoded(Broken(Encoded(data, false), d), true) == Ok(data)
  {
    EncodedNewlineFree(data, false);
    BreaksComeOut(Encoded(data, false), d);
    DecodeEncoded(data, false);
  }

  method EncodePem(data: seq<bv8>) returns (s: string)
    requires |data| < 0x1_0000_0000
    ensures s == Broken(Encoded(data, false), PEM_LINE)
  {
    s := EncodeWithLineBreaks(data, PEM_LINE);
  }

  method EncodeMime(data: seq<bv8>) returns (s: string)
    requires |data| < 0x1_0000_0000
    ensures s == Broken(Encoded(data, false), MIME_LINE)
  {
    s := EncodeWithLineBreaks(data, MIME_LINE);
  }

  /** A text whose lines all have `d` characters, the last one 1 to `d`. */
  predicate LinesOf(t: string, d: nat) {
    var ls := SplitLines(t);
    (forall i | 0 <= i < |ls| - 1 :: |ls[i]| == d) && 1 <= |ls[|ls| - 1]| <= d
  }

  /** PEM text has lines of 64 characters, MIME text of 76, and both decode to what was printed. */
  lemma PemAndMime(data: seq<bv8>)
    ensures var pem, mime := Broken(Encoded(data, false), PEM_LINE), Broken(Encoded(data, false), MIME_LINE);
            && Base64Decoded(pem, true) == Ok(data) && Base64Decoded(mime, true) == Ok(data)
            && (data != [] ==> LinesOf(pem, 64) && LinesOf(mime, 76))
  {
    hide Base64Decoded, Broken;
    DecodeBroken(data, PEM_LINE);
    DecodeBroken(data, MIME_LINE);
    EncodedLength(data, false);
    EncodedNewlineFree(data, false);
    if data != [] {
      LineLengths(Encoded(data, false), PEM_LINE);
      LineLengths(Encoded(data, false), MIME_LINE);
    }
  }
}
