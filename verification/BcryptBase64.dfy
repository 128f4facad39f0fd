/**
 bcrypt's own base-64: its alphabet starts with "./", there is no padding, and the
 decoder is told how many bytes to produce. Bytes are 8-bit words.
 */
module BcryptBase64 {
  import opened Sequences
  import opened ByteNumbers

  const CODE: string := "./" + "ABCDEFGHIJKLMNOPQRSTUVWXYZ" + "abcdefghijklmnopqrstuvwxyz" + "0123456789"

  type Sextet = b: bv8 | b < 64

  function CodeOf(b: Sextet): char {
    CODE[b as int]
  }

  /** CHAR64: the value of a code character, 255 for any other. */
  function Char64(c: char): bv8 {
    if c == '.' then 0
    else if c == '/' then 1
    else if 'A' <= c <= 'Z' then (c as int - 'A' as int + 2) as bv8
    else if 'a' <= c <= 'z' then (c as int - 'a' as int + 28) as bv8
    else if '0' <= c <= '9' then (c as int - '0' as int + 54) as bv8
    else 255
  }

  predicate IsCode(c: char) {
    Char64(c) != 255
  }

  lemma UpperLetter(i: nat)
    requires i < 26
    ensures "ABCDEFGHIJKLMNOPQRSTUVWXYZ"[i] as int == 'A' as int + i
  {
  }

  lemma LowerLetter(i: nat)
    requires i < 26
    ensures "abcdefghijklmnopqrstuvwxyz"[i] as int == 'a' as int + i
  {
  }

  lemma DigitChar(i: nat)
    requires i < 10
    ensures "0123456789"[i] as int == '0' as int + i
  {
  }

  /** Where each character of the alphabet stands. */
  lemma CodeAt(i: nat)
    requires i < 64
    ensures CODE[i] as int ==
            if i < 2 then '.' as int + i
            else if i < 28 then 'A' as int + (i - 2)
            else if i < 54 then 'a' as int + (i - 28)
            else '0' as int + (i - 54)
  {
    if i < 2 {
      assert CODE[i] == "./"[i];
    } else if i < 28 {
      UpperLetter(i - 2);
    } else if i < 54 {
      LowerLetter(i - 28);
    } else {
      DigitChar(i - 54);
    }
  }

  /** The decoding table inverts the alphabet. */
  lemma Char64OfCode(b: Sextet)
    ensures Char64(CodeOf(b)) == b && CodeOf(b) != '\0'
  {
    CodeAt(b as int);
    Char64OfCodeAt(b as int, CodeOf(b));
  }

  lemma Char64OfCodeAt(i: nat, c: char)
    requires i < 64
    requires c as int ==
             if i < 2 then '.' as int + i
             else if i < 28 then 'A' as int + (i - 2)
             else if i < 54 then 'a' as int + (i - 28)
             else '0' as int + (i - 54)
    ensures Char64(c) == i as bv8 && c != '\0'
  {
  }

  /** And the alphabet inverts the table: no other character has a value. */
  lemma CodeOfChar64(c: char)
    requires IsCode(c)
    ensures Char64(c) < 64 && CodeOf(Char64(c)) == c
  {
    hide CodeOf;
    CharRange(c);
    var i := Char64(c) as int;
    CodeAt(i);
    CodeOfIndex(Char64(c));
  }

  lemma CodeOfIndex(b: Sextet)
    ensures CodeOf(b) == CODE[b as int]
  {
  }

  lemma CharRange(c: char)
    requires IsCode(c)
    ensures Char64(c) < 64
    ensures var i := Char64(c) as int;
            c as int ==
            if i < 2 then '.' as int + i
            else if i < 28 then 'A' as int + (i - 2)
            else if i < 54 then 'a' as int + (i - 28)
            else '0' as int + (i - 54)
  {
    hide Char64;
    if 'A' <= c <= 'Z' {
      Ranged(c, 'A', 2);
    } else if 'a' <= c <= 'z' {
      Ranged(c, 'a', 28);
    } else if '0' <= c <= '9' {
      Ranged(c, '0', 54);
    } else {
      OtherCodes(c);
    }
  }

  /** A letter or digit, by where its range starts. */
  lemma Ranged(c: char, first: char, value: int)
    requires (first == 'A' && value == 2 && c <= 'Z') || (first == 'a' && value == 28 && c <= 'z')
             || (first == '0' && value == 54 && c <= '9')
    requires first <= c
    ensures Char64(c) as int == c as int - first as int + value < 64 && Char64(c) < 64
  {
    var k := c as int - first as int + value;
    ByteOfInt(k);
    assert Char64(c) == k as bv8;
    SmallByte(k as bv8);
  }

  lemma SmallByte(b: bv8)
    ensures b as int < 64 <==> b < 64
  {
  }

  lemma OtherCodes(c: char)
    requires IsCode(c) && !('A' <= c <= 'Z') && !('a' <= c <= 'z') && !('0' <= c <= '9')
    ensures (c == '.' && Char64(c) == 0) || (c == '/' && Char64(c) == 1)
    ensures c == '.' ==> Char64(c) as int == 0
    ensures c == '/' ==> Char64(c) as int == 1
  {
  }

  // ---------------------------------------------------------------- sextets and bytes

  function Sextet1(b1: bv8): Sextet { b1 >> 2 }
  function Sextet2(b1: bv8, b2: bv8): Sextet { ((b1 & 0x03) << 4) | ((b2 >> 4) & 0x0f) }
  function Sextet3(b2: bv8, b3: bv8): Sextet { ((b2 & 0x0f) << 2) | ((b3 >> 6) & 0x03) }
  function Sextet4(b3: bv8): Sextet { b3 & 0x3f }

  function Byte1(c1: bv8, c2: bv8): bv8 { (c1 << 2) | ((c2 & 0x30) >> 4) }
  function Byte2(c2: bv8, c3: bv8): bv8 { ((c2 & 0x0f) << 4) | ((c3 & 0x3c) >> 2) }
  function Byte3(c3: bv8, c4: bv8): bv8 { ((c3 & 0x03) << 6) | c4 }

  lemma BytesOfSextets(b1: bv8, b2: bv8, b3: bv8)
    ensures Byte1(Sextet1(b1), Sextet2(b1, b2)) == b1
    ensures Byte2(Sextet2(b1, b2), Sextet3(b2, b3)) == b2
    ensures Byte3(Sextet3(b2, b3), Sextet4(b3)) == b3
  {
  }

  /** The four sextets of a group are its three bytes, read as one number, to the base 64. */
  lemma SextetsAreDigits(b1: bv8, b2: bv8, b3: bv8)
    ensures Sextet1(b1) as bv24 * 0x4_0000 + Sextet2(b1, b2) as bv24 * 0x1000
            + Sextet3(b2, b3) as bv24 * 0x40 + Sextet4(b3) as bv24 ==
            b1 as bv24 * 0x1_0000 + b2 as bv24 * 0x100 + b3 as bv24
  {
  }

  // ---------------------------------------------------------------- encoding and decoding

  /** What follows the first group of three bytes. */
  function AfterGroup(data: seq<bv8>): seq<bv8> {
    if |data| <= 3 then [] else data[3..]
  }

  /** The characters of the first group; missing bytes count as zero. */
  function Group(data: seq<bv8>): string
    requires data != []
  {
    if |data| == 1 then [CodeOf(Sextet1(data[0])), CodeOf(Sextet2(data[0], 0))]
    else if |data| == 2 then
      [CodeOf(Sextet1(data[0])), CodeOf(Sextet2(data[0], data[1])), CodeOf(Sextet3(data[1], 0))]
    else
      [CodeOf(Sextet1(data[0])), CodeOf(Sextet2(data[0], data[1])),
       CodeOf(Sextet3(data[1], data[2])), CodeOf(Sextet4(data[2]))]
  }

  /** `encode_base64`, without the final NUL. */
  function Encoded(data: seq<bv8>): string
    decreases |data|
  {
    if data == [] then "" else Group(data) + Encoded(AfterGroup(data))
  }

  /** A C string's character; the terminator, and what the model reads beyond it, is NUL. */
  function CharAt(s: string, i: nat): char {
    if i < |s| then s[i] else '\0'
  }

  /** `decode_base64`: up to `len` bytes, fewer if the text at `i` runs into a non-code character. */
  function Decoded(s: string, i: nat, len: nat): (r: seq<bv8>)
    ensures |r| <= len
    decreases len
  {
    var c1, c2 := Char64(CharAt(s, i)), Char64(CharAt(s, i + 1));
    var c3, c4 := Char64(CharAt(s, i + 2)), Char64(CharAt(s, i + 3));
    if len == 0 || c1 == 255 || c2 == 255 then []
    else if len == 1 || c3 == 255 then [Byte1(c1, c2)]
    else if len == 2 || c4 == 255 then [Byte1(c1, c2), Byte2(c2, c3)]
    else [Byte1(c1, c2), Byte2(c2, c3), Byte3(c3, c4)] + Decoded(s, i + 4, len - 3)
  }

  lemma {:induction false} EncodedLength(data: seq<bv8>)
    ensures |Encoded(data)| == (4 * |data| + 2) / 3
    ensures forall i | 0 <= i < |Encoded(data)| :: IsCode(Encoded(data)[i]) && Encoded(data)[i] != '\0'
    decreases |data|
  {
    hide CodeOf, Char64, Sextet1, Sextet2, Sextet3, Sextet4;
    if data != [] {
      var b1, b2, b3 := data[0], if |data| > 1 then data[1] else 0, if |data| > 2 then data[2] else 0;
      SextetsAreCode(Sextet1(b1), Sextet2(b1, b2), Sextet3(b2, b3), Sextet4(b3));
      EncodedLength(AfterGroup(data));
    }
  }

  lemma SextetsAreCode(a: Sextet, b: Sextet, c: Sextet, d: Sextet)
    ensures Char64(CodeOf(a)) == a && Char64(CodeOf(b)) == b && Char64(CodeOf(c)) == c && Char64(CodeOf(d)) == d
    ensures IsCode(CodeOf(a)) && IsCode(CodeOf(b)) && IsCode(CodeOf(c)) && IsCode(CodeOf(d))
    ensures CodeOf(a) != '\0' && CodeOf(b) != '\0' && CodeOf(c) != '\0' && CodeOf(d) != '\0'
  {
    hide CodeOf, Char64;
    Char64OfCode(a); Char64OfCode(b); Char64OfCode(c); Char64OfCode(d);
  }

  /** What the decoder sees at the start of encoded bytes. */
  lemma CharsOfGroup(s: string, i: nat, data: seq<bv8>)
    requires data != [] && i + |Encoded(data)| <= |s| && s[i..i + |Encoded(data)|] == Encoded(data)
    ensures var b1, b2, b3 := data[0], if |data| > 1 then data[1] else 0, if |data| > 2 then data[2] else 0;
            && Char64(CharAt(s, i)) == Sextet1(b1) && Char64(CharAt(s, i + 1)) == Sextet2(b1, b2)
            && (|data| > 1 ==> Char64(CharAt(s, i + 2)) == Sextet3(b2, b3))
            && (|data| > 2 ==> Char64(CharAt(s, i + 3)) == Sextet4(b3))
  {
    hide CodeOf, Char64, Sextet1, Sextet2, Sextet3, Sextet4, CharAt, Encoded;
    var b1, b2, b3 := data[0], if |data| > 1 then data[1] else 0, if |data| > 2 then data[2] else 0;
    SextetsAreCode(Sextet1(b1), Sextet2(b1, b2), Sextet3(b2, b3), Sextet4(b3));
    GroupCharAt(s, i, data, 0);
    GroupCharAt(s, i, data, 1);
    if |data| > 1 { GroupCharAt(s, i, data, 2); }
    if |data| > 2 { GroupCharAt(s, i, data, 3); }
  }

  lemma GroupCharAt(s: string, i: nat, data: seq<bv8>, k: nat)
    requires data != [] && i + |Encoded(data)| <= |s| && s[i..i + |Encoded(data)|] == Encoded(data)
    requires k < |Group(data)|
    ensures CharAt(s, i + k) == Group(data)[k]
  {
    hide Group;
    var e := Encoded(data);
    assert e == Group(data) + Encoded(AfterGroup(data));
    assert s[i..i + |e|][k] == s[i + k];
  }

  lemma RestOfEncoded(s: string, i: nat, data: seq<bv8>)
    requires |data| > 2 && i + |Encoded(data)| <= |s| && s[i..i + |Encoded(data)|] == Encoded(data)
    ensures var rest := Encoded(AfterGroup(data));
            i + 4 + |rest| <= |s| && s[i + 4..i + 4 + |rest|] == rest
  {
    hide CodeOf, Sextet1, Sextet2, Sextet3, Sextet4;
    var e, rest := Encoded(data), Encoded(AfterGroup(data));
    assert e[4..] == rest && s[i..i + |e|][4..] == s[i + 4..i + |e|];
  }

  /** Decoding reads back what was encoded, wherever in a text it stands and whatever follows. */
  lemma {:induction false} DecodeEncoded(s: string, i: nat, data: seq<bv8>)
    requires i + |Encoded(data)| <= |s| && s[i..i + |Encoded(data)|] == Encoded(data)
    ensures Decoded(s, i, |data|) == data
    decreases |data|
  {
    hide CodeOf, Char64, Sextet1, Sextet2, Sextet3, Sextet4, Byte1, Byte2, Byte3, Encoded, Decoded, CharAt;
    DecodedUnfolds(s, i, |data|);
    if data != [] {
      var b1, b2, b3 := data[0], if |data| > 1 then data[1] else 0, if |data| > 2 then data[2] else 0;
      CharsOfGroup(s, i, data);
      BytesOfSextets(b1, b2, b3);
      NoSextetIs255(b1, b2, b3);
      if |data| > 2 {
        RestOfEncoded(s, i, data);
        DecodeEncoded(s, i + 4, AfterGroup(data));
        assert data == [b1, b2, b3] + AfterGroup(data);
      } else if |data| == 2 {
        assert data == [b1, b2];
      } else {
        assert data == [b1];
      }
    }
  }

  lemma NoSextetIs255(b1: bv8, b2: bv8, b3: bv8)
    ensures Sextet1(b1) != 255 && Sextet2(b1, b2) != 255 && Sextet3(b2, b3) != 255 && Sextet4(b3) != 255
  {
  }

  // ---------------------------------------------------------------- the loops

  /** A turn of the encoding loop has written the group of what was left. */
  lemma GroupWritten(done: string, rest: seq<bv8>, all: string)
    requires rest != [] && done + Encoded(rest) == all
    ensures (done + Group(rest)) + Encoded(AfterGroup(rest)) == all
    ensures |Encoded(rest)| == |Group(rest)| + |Encoded(AfterGroup(rest))|
  {
    hide Group;
  }

  lemma EncodedNothing()
    ensures Encoded([]) == ""
  {
  }

  /** `*bp++ = c`. */
  method Emit<T>(buffer: array<T>, bp: nat, c: T, ghost head: seq<T>, ghost before: seq<T>) returns (bp': nat)
    requires bp < buffer.Length && bp == |head| && Written(buffer[..], head, before)
    modifies buffer
    ensures bp' == bp + 1 && Written(buffer[..], head + [c], before)
  {
    buffer[bp] := c;
    bp' := bp + 1;
  }

  /** The group at the front of what is left, byte by byte. */
  lemma GroupFrom(data: seq<bv8>, from: nat, head: string)
    requires from < |data|
    ensures var g, c1 := head + Group(data[from..]), data[from];
            if from + 1 == |data| then
              g == (head + [CodeOf(Sextet1(c1))]) + [CodeOf(Sextet2(c1, 0))]
            else if from + 2 == |data| then
              var c2 := data[from + 1];
              g == ((head + [CodeOf(Sextet1(c1))]) + [CodeOf(Sextet2(c1, c2))]) + [CodeOf(Sextet3(c2, 0))]
            else
              var c2, c3 := data[from + 1], data[from + 2];
              g == (((head + [CodeOf(Sextet1(c1))]) + [CodeOf(Sextet2(c1, c2))]) + [CodeOf(Sextet3(c2, c3))])
              + [CodeOf(Sextet4(c3))]
    ensures AfterGroup(data[from..]) == data[if from + 3 <= |data| then from + 3 else |data|..]
  {
    hide CodeOf, Sextet1, Sextet2, Sextet3, Sextet4;
    var rest := data[from..];
    assert rest[0] == data[from];
    if from + 1 < |data| { assert rest[1] == data[from + 1]; }
    if from + 2 < |data| { assert rest[2] == data[from + 2]; }
  }

  /** The body of the encoding loop: up to three bytes in, two to four characters out. */
  method EncodeGroup(
    buffer: array<char>, at: nat, data: seq<bv8>, from: nat, ghost head: string, ghost before: string)
    returns (bp: nat, p: nat)
    requires from < |data| && at == |head| && at + |Group(data[from..])| <= buffer.Length
    requires Written(buffer[..], head, before)
    modifies buffer
    ensures from < p <= |data| && data[p..] == AfterGroup(data[from..])
    ensures bp == at + |Group(data[from..])| && Written(buffer[..], head + Group(data[from..]), before)
  {
    hide CodeOf, Sextet1, Sextet2, Sextet3, Sextet4, Written, Group, AfterGroup;
    GroupFrom(data, from, head);
    var c1 := data[from];
    p := from + 1;
    bp := Emit(buffer, at, CodeOf(Sextet1(c1)), head, before);
    ghost var head1 := head + [CodeOf(Sextet1(c1))];
    if p >= |data| {
      bp := Emit(buffer, bp, CodeOf(Sextet2(c1, 0)), head1, before);
      return;
    }
    var c2 := data[p];
    p := p + 1;
    bp := Emit(buffer, bp, CodeOf(Sextet2(c1, c2)), head1, before);
    ghost var head2 := head1 + [CodeOf(Sextet2(c1, c2))];
    if p >= |data| {
      bp := Emit(buffer, bp, CodeOf(Sextet3(c2, 0)), head2, before);
      return;
    }
    var c3 := data[p];
    p := p + 1;
    bp := Emit(buffer, bp, CodeOf(Sextet3(c2, c3)), head2, before);
    ghost var head3 := head2 + [CodeOf(Sextet3(c2, c3))];
    bp := Emit(buffer, bp, CodeOf(Sextet4(c3)), head3, before);
  }

  /** `encode_base64`: writes the code characters and a NUL at `at`, and nothing else. */
  method EncodeBase64(buffer: array<char>, at: nat, data: seq<bv8>)
    requires at + |Encoded(data)| < buffer.Length
    modifies buffer
    ensures buffer[..] == old(buffer[..at]) + Encoded(data) + "\0" + old(buffer[at + |Encoded(data)| + 1..])
  {
    hide Group, Encoded, AfterGroup, Written;
    var bp: nat, p: nat := at, 0;
    ghost var head, all, before := buffer[..at], buffer[..at] + Encoded(data), buffer[..];
    EncodedNothing();
    NothingWritten(before, at);
    assert data[0..] == data && buffer[..at] == before[..at];
    while p < |data|
      invariant p <= |data| && bp == |head| && |head| + |Encoded(data[p..])| == |all|
      invariant head + Encoded(data[p..]) == all
      invariant Written(buffer[..], head, before)
      decreases |data| - p
    {
      ghost var rest := data[p..];
      GroupWritten(head, rest, all);
      bp, p := EncodeGroup(buffer, bp, data, p, head, before);
      head := head + Group(rest);
    }
    assert data[p..] == [] && head == all;
    bp := Emit(buffer, bp, '\0', head, before);
    WrittenOut(buffer[..], head + ['\0'], before);
  }

  /** The first bytes decoded from `from` on, and whether decoding goes on behind them. */
  lemma DecodedFrom(s: string, from: nat, len: nat, head: seq<bv8>)
    requires len > 0
    ensures var r := Decoded(s, from, len);
            var c1, c2 := Char64(CharAt(s, from)), Char64(CharAt(s, from + 1));
            var c3, c4 := Char64(CharAt(s, from + 2)), Char64(CharAt(s, from + 3));
            if c1 == 255 || c2 == 255 then head + r == head
            else
              var head1 := head + [Byte1(c1, c2)];
              if len == 1 || c3 == 255 then head + r == head1
              else
                var head2 := head1 + [Byte2(c2, c3)];
                if len == 2 || c4 == 255 then head + r == head2
                else head + r == (head2 + [Byte3(c3, c4)]) + Decoded(s, from + 4, len - 3)
  {
    hide Char64, Byte1, Byte2, Byte3, CharAt, Decoded;
    DecodedUnfolds(s, from, len);
    var c1, c2 := Char64(CharAt(s, from)), Char64(CharAt(s, from + 1));
    var c3, c4 := Char64(CharAt(s, from + 2)), Char64(CharAt(s, from + 3));
    if c1 != 255 && c2 != 255 && len > 2 && c3 != 255 && c4 != 255 {
      OneByOne(head, Byte1(c1, c2), Byte2(c2, c3), Byte3(c3, c4), Decoded(s, from + 4, len - 3));
    }
  }

  lemma DecodedUnfolds(s: string, i: nat, len: nat)
    ensures var c1, c2 := Char64(CharAt(s, i)), Char64(CharAt(s, i + 1));
            var c3, c4 := Char64(CharAt(s, i + 2)), Char64(CharAt(s, i + 3));
            Decoded(s, i, len) ==
            if len == 0 || c1 == 255 || c2 == 255 then []
            else if len == 1 || c3 == 255 then [Byte1(c1, c2)]
            else if len == 2 || c4 == 255 then [Byte1(c1, c2), Byte2(c2, c3)]
            else [Byte1(c1, c2), Byte2(c2, c3), Byte3(c3, c4)] + Decoded(s, i + 4, len - 3)
  {
    hide Char64, Byte1, Byte2, Byte3, CharAt;
  }

  lemma OneByOne(head: seq<bv8>, a: bv8, b: bv8, c: bv8, rest: seq<bv8>)
    ensures head + ([a, b, c] + rest) == (((head + [a]) + [b]) + [c]) + rest
  {
  }

  /** The body of the decoding loop: a chunk of up to three bytes, and whether the loop goes on. */
  method DecodeChunk(
    buffer: array<bv8>, at: nat, len: nat, s: string, p: nat,
    ghost head: seq<bv8>, ghost all: seq<bv8>, ghost before: seq<bv8>)
    returns (bp: nat, more: bool, ghost head': seq<bv8>)
    requires at == |head| < len <= buffer.Length && Written(buffer[..], head, before)
    requires head + Decoded(s, p, len - at) == all
    modifies buffer
    ensures at <= bp == |head'| <= len && Written(buffer[..], head', before)
    ensures if more then at < bp && head' + Decoded(s, p + 4, len - bp) == all else head' == all
  {
    hide Char64, Byte1, Byte2, Byte3, Written, Decoded, CharAt;
    var c1, c2 := Char64(CharAt(s, p)), Char64(CharAt(s, p + 1));
    DecodedFrom(s, p, len - at, head);
    if c1 == 255 || c2 == 255 {
      return at, false, head;
    }
    bp := Emit(buffer, at, Byte1(c1, c2), head, before);
    head' := head + [Byte1(c1, c2)];
    if bp >= len {
      return bp, false, head';
    }
    var c3 := Char64(CharAt(s, p + 2));
    if c3 == 255 {
      return bp, false, head';
    }
    bp := Emit(buffer, bp, Byte2(c2, c3), head', before);
    head' := head' + [Byte2(c2, c3)];
    if bp >= len {
      return bp, false, head';
    }
    var c4 := Char64(CharAt(s, p + 3));
    if c4 == 255 {
      return bp, false, head';
    }
    bp := Emit(buffer, bp, Byte3(c3, c4), head', before);
    head' := head' + [Byte3(c3, c4)];
    more := true;
  }

  /** `decode_base64`: overwrites as many bytes as the text gives, and leaves the others alone. */
  method DecodeBase64(buffer: array<bv8>, len: nat, s: string, from: nat)
    requires len <= buffer.Length
    modifies buffer
    ensures buffer[..] == Decoded(s, from, len) + old(buffer[|Decoded(s, from, len)|..])
  {
    hide Written, Decoded;
    ghost var all: seq<bv8>, head: seq<bv8>, before := Decoded(s, from, len), [], buffer[..];
    var bp: nat, p: nat := 0, from;
    NothingWritten(before, 0);
    assert before[..0] == head && head + all == all;
    while bp < len
      invariant bp == |head| <= len && Written(buffer[..], head, before)
      invariant head + Decoded(s, p, len - bp) == all
      decreases len - bp
    {
      var more;
      bp, more, head := DecodeChunk(buffer, bp, len, s, p, head, all, before);
      if !more {
        WrittenOut(buffer[..], head, before);
        return;
      }
      p := p + 4;
    }
    DecodedNothing(s, p);
    WrittenOut(buffer[..], head, before);
  }

  lemma DecodedNothing(s: string, i: nat)
    ensures Decoded(s, i, 0) == []
  {
  }

  // ---------------------------------------------------------------- texts that stop short

  /** How many code characters stand at a place of a text. */
  function CodeRun(s: string, i: nat): (n: nat)
    ensures i <= |s| ==> i + n <= |s|
    ensures i > |s| ==> n == 0
    decreases |s| - i
  {
    if i < |s| && IsCode(s[i]) then 1 + CodeRun(s, i + 1) else 0
  }

  lemma CodeRunFrom(s: string, i: nat)
    ensures IsCode(CharAt(s, i)) <==> CodeRun(s, i) > 0
    ensures CodeRun(s, i) > 0 ==> CodeRun(s, i) == 1 + CodeRun(s, i + 1)
  {
    assert !IsCode('\0');
  }

  /** Of m code characters come three quarters as many bytes, rounded down, if no fewer are asked for. */
  lemma {:induction false} DecodedCount(s: string, i: nat, len: nat)
    ensures var bytes := CodeRun(s, i) * 3 / 4;
            |Decoded(s, i, len)| == if bytes < len then bytes else len
    decreases len
  {
    hide Char64, Byte1, Byte2, Byte3, CharAt, Decoded, CodeRun;
    DecodedUnfolds(s, i, len);
    CodeRunFrom(s, i);
    CodeRunFrom(s, i + 1);
    CodeRunFrom(s, i + 2);
    CodeRunFrom(s, i + 3);
    if len > 2 && CodeRun(s, i) >= 4 {
      DecodedCount(s, i + 4, len - 3);
    }
  }
}
