/**
 Blowfish on buffers: word pairs (`blf_enc`, `blf_dec`), ECB and CBC over bytes.

 All of it changes the caller's buffer in place. CBC encryption reads as its
 initialisation vector the block it has just written; CBC decryption walks backwards so
 that the block before the current one is still ciphertext.
 */
module BlowfishModes {
  import opened Sequences
  import opened Blowfish

  // ---------------------------------------------------------------- blocks of eight bytes

  type Block = b: seq<bv8> | |b| == 8 witness seq(8, _ => 0)

  function WordOf(b0: bv8, b1: bv8, b2: bv8, b3: bv8): bv32 {
    (b0 as bv32 << 24) | (b1 as bv32 << 16) | (b2 as bv32 << 8) | b3 as bv32
  }

  function BytesOf(w: bv32): (b: seq<bv8>)
    ensures |b| == 4
  {
    [((w >> 24) & 0xff) as bv8, ((w >> 16) & 0xff) as bv8, ((w >> 8) & 0xff) as bv8, (w & 0xff) as bv8]
  }

  lemma WordOfBytesOf(w: bv32)
    ensures var b := BytesOf(w); WordOf(b[0], b[1], b[2], b[3]) == w
  {
  }

  lemma BytesOfWordOf(b0: bv8, b1: bv8, b2: bv8, b3: bv8)
    ensures BytesOf(WordOf(b0, b1, b2, b3)) == [b0, b1, b2, b3]
  {
  }

  function HalvesOf(b: Block): Halves<bv32> {
    Halves(WordOf(b[0], b[1], b[2], b[3]), WordOf(b[4], b[5], b[6], b[7]))
  }

  function BlockOf(h: Halves<bv32>): Block {
    BytesOf(h.l) + BytesOf(h.r)
  }

  lemma HalvesOfBlockOf(h: Halves<bv32>)
    ensures HalvesOf(BlockOf(h)) == h
  {
    hide WordOf, BytesOf;
    WordOfBytesOf(h.l);
    WordOfBytesOf(h.r);
  }

  lemma BlockOfHalvesOf(b: Block)
    ensures BlockOf(HalvesOf(b)) == b
  {
    hide WordOf, BytesOf;
    BytesOfWordOf(b[0], b[1], b[2], b[3]);
    BytesOfWordOf(b[4], b[5], b[6], b[7]);
  }

  function EncBlock(c: Context, b: Block): Block {
    var h := HalvesOf(b);
    BlockOf(Encipher(c, h.l, h.r))
  }

  function DecBlock(c: Context, b: Block): Block {
    var h := HalvesOf(b);
    BlockOf(Decipher(c, h.l, h.r))
  }

  lemma DecBlockUndoesEncBlock(c: Context, b: Block)
    ensures DecBlock(c, EncBlock(c, b)) == b
    ensures EncBlock(c, DecBlock(c, b)) == b
  {
    hide Encipher, Decipher, HalvesOf, BlockOf;
    var h := HalvesOf(b);
    HalvesOfBlockOf(Encipher(c, h.l, h.r));
    HalvesOfBlockOf(Decipher(c, h.l, h.r));
    DecipherUndoesEncipher(c, h.l, h.r);
    EncipherUndoesDecipher(c, h.l, h.r);
    BlockOfHalvesOf(b);
  }

  function XorBlock(a: Block, b: Block): Block {
    seq(8, i requires 0 <= i < 8 => a[i] ^ b[i])
  }

  lemma XorBlockTwice(a: Block, b: Block)
    ensures XorBlock(XorBlock(a, b), b) == a
  {
    forall i | 0 <= i < 8 ensures (a[i] ^ b[i]) ^ b[i] == a[i] {
      ByteXorTwice(a[i], b[i]);
    }
  }

  lemma ByteXorTwice(x: bv8, y: bv8)
    ensures (x ^ y) ^ y == x
  {
  }

  // ---------------------------------------------------------------- words and bytes

  /** A word is its bytes as digits to the base 256, the first one highest. */
  lemma WordValue(b0: bv8, b1: bv8, b2: bv8, b3: bv8)
    ensures WordOf(b0, b1, b2, b3) ==
            b0 as bv32 * 0x100_0000 + b1 as bv32 * 0x1_0000 + b2 as bv32 * 0x100 + b3 as bv32
  {
  }

  /** The round function by the bytes of a word: each is an index into an S-box of its own. */
  function FOfBytes(s: seq<bv32>, b0: bv8, b1: bv8, b2: bv8, b3: bv8): bv32
    requires |s| == 4 * 256
  {
    ((s[b0 as int] + s[256 + b1 as int]) ^ s[512 + b2 as int]) + s[768 + b3 as int]
  }

  lemma RoundFunctionByBytes(s: seq<bv32>, b0: bv8, b1: bv8, b2: bv8, b3: bv8)
    requires |s| == S_SIZE
    ensures F(s, WordOf(b0, b1, b2, b3)) == FOfBytes(s, b0, b1, b2, b3)
  {
    hide WordOf, F, FOfBytes;
    BytesOut(b0, b1, b2, b3);
    FUnfolds(s, WordOf(b0, b1, b2, b3));
  }

  lemma FUnfolds(s: seq<bv32>, x: bv32)
    requires |s| == S_SIZE
    ensures F(s, x) == FOfBytes(s, ByteOfWord(x, 24), ByteOfWord(x, 16), ByteOfWord(x, 8), ByteOfWord(x, 0))
  {
    hide ByteOfWord;
    ByteOfWordIs(x);
  }

  function ByteOfWord(x: bv32, shift: nat): bv8
    requires shift <= 24
  {
    ((x >> shift) & 0xFF) as bv8
  }

  lemma ByteOfWordIs(x: bv32)
    ensures ByteOfWord(x, 24) == ((x >> 24) & 0xFF) as bv8 && ByteOfWord(x, 16) == ((x >> 16) & 0xFF) as bv8
    ensures ByteOfWord(x, 8) == ((x >> 8) & 0xFF) as bv8 && ByteOfWord(x, 0) == (x & 0xFF) as bv8
  {
  }

  lemma BytesOut(b0: bv8, b1: bv8, b2: bv8, b3: bv8)
    ensures var x := WordOf(b0, b1, b2, b3);
            ByteOfWord(x, 24) == b0 && ByteOfWord(x, 16) == b1 && ByteOfWord(x, 8) == b2 && ByteOfWord(x, 0) == b3
  {
  }

  lemma BigEndianFour(bytes: seq<bv8>)
    requires |bytes| == 4
    ensures BigEndian(bytes) == WordOf(bytes[0], bytes[1], bytes[2], bytes[3])
  {
    var b0, b1, b2, b3 := bytes[0], bytes[1], bytes[2], bytes[3];
    assert bytes[..3][..2] == bytes[..2] && bytes[..2][..1] == bytes[..1] && bytes[..1][..0] == [];
    BigEndianLast(bytes);
    BigEndianLast(bytes[..3]);
    BigEndianLast(bytes[..2]);
    BigEndianLast(bytes[..1]);
    ShiftedFour(b0, b1, b2, b3);
  }

  lemma BigEndianLast(bytes: seq<bv8>)
    ensures bytes != [] ==> BigEndian(bytes) == Shifted(BigEndian(bytes[..|bytes| - 1]), bytes[|bytes| - 1])
    ensures BigEndian([]) == 0
  {
    hide Shifted;
  }

  lemma ShiftedFour(b0: bv8, b1: bv8, b2: bv8, b3: bv8)
    ensures Shifted(Shifted(Shifted(Shifted(0, b0), b1), b2), b3) == WordOf(b0, b1, b2, b3)
  {
  }

  /** A word of the stream is four bytes of it, the first one highest: none is lost. */
  lemma BytesOfCyclicWord(data: seq<bv8>, n: nat, w: nat)
    requires n <= |data| && 0 < |data|
    ensures BytesOf(CyclicWord(data, n, w)) == CyclicBytes(data, n, 4 * w, 4)
  {
    hide WordOf, BytesOf, BigEndian, CyclicByte;
    var b := CyclicBytes(data, n, 4 * w, 4);
    BigEndianFour(b);
    BytesOfWordOf(b[0], b[1], b[2], b[3]);
    assert b == [b[0], b[1], b[2], b[3]];
  }

  lemma SameWordSameBytes(d1: seq<bv8>, n1: nat, d2: seq<bv8>, n2: nat, w: nat)
    requires n1 <= |d1| && 0 < |d1| && n2 <= |d2| && 0 < |d2|
    requires CyclicWord(d1, n1, w) == CyclicWord(d2, n2, w)
    ensures forall i: nat | 4 * w <= i < 4 * w + 4 :: CyclicByte(d1, n1, i) == CyclicByte(d2, n2, i)
  {
    hide BytesOf, CyclicWord, CyclicByte;
    BytesOfCyclicWord(d1, n1, w);
    BytesOfCyclicWord(d2, n2, w);
    forall i: nat | 4 * w <= i < 4 * w + 4 ensures CyclicByte(d1, n1, i) == CyclicByte(d2, n2, i) {
      var k := i - 4 * w;
      assert CyclicBytes(d1, n1, 4 * w, 4)[k] == CyclicBytes(d2, n2, 4 * w, 4)[k];
    }
  }

  lemma SubkeyAt(c: Context, key: seq<bv8>, n: nat, w: nat)
    requires n <= |key| && 0 < |key| && w < P_SIZE
    ensures XorKey(c, key, n).P[w] == XorWord(c.P[w], CyclicWord(key, n, w))
  {
    hide CyclicWord, XorWord;
  }

  /** Two keys lead to the same subkeys, before the schedules overwrite them, exactly when their streams start alike. */
  lemma {:induction false} SubkeysSameExactlyWhen(c: Context, k1: seq<bv8>, n1: nat, k2: seq<bv8>, n2: nat)
    requires n1 <= |k1| && 0 < |k1| && n2 <= |k2| && 0 < |k2|
    ensures XorKey(c, k1, n1) == XorKey(c, k2, n2) <==> SameKeyStream(k1, n1, k2, n2)
  {
    hide CyclicByte, CyclicWord, XorKey, XorWord;
    if XorKey(c, k1, n1) == XorKey(c, k2, n2) {
      forall i: nat | i < 72 ensures CyclicByte(k1, n1, i) == CyclicByte(k2, n2, i) {
        var w := i / 4;
        SubkeyAt(c, k1, n1, w);
        SubkeyAt(c, k2, n2, w);
        WordXorTells(c.P[w], CyclicWord(k1, n1, w), CyclicWord(k2, n2, w));
        SameWordSameBytes(k1, n1, k2, n2, w);
        assert 4 * w <= i < 4 * w + 4;
      }
    }
    if SameKeyStream(k1, n1, k2, n2) {
      SameStreamSameSubkeys(c, k1, n1, k2, n2);
    }
  }

  lemma SameStreamSameSubkeys(c: Context, k1: seq<bv8>, n1: nat, k2: seq<bv8>, n2: nat)
    requires n1 <= |k1| && 0 < |k1| && n2 <= |k2| && 0 < |k2| && SameKeyStream(k1, n1, k2, n2)
    ensures XorKey(c, k1, n1) == XorKey(c, k2, n2)
  {
    forall w | 0 <= w < P_SIZE ensures CyclicWord(k1, n1, w) == CyclicWord(k2, n2, w) {
      assert CyclicBytes(k1, n1, 4 * w, 4) == CyclicBytes(k2, n2, 4 * w, 4);
    }
    assert XorKey(c, k1, n1).P == XorKey(c, k2, n2).P;
  }

  // ---------------------------------------------------------------- the modes as functions

  predicate WholeBlocks(data: seq<bv8>) {
    |data| % 8 == 0
  }

  function EcbEncrypted(c: Context, data: seq<bv8>): seq<bv8>
    requires WholeBlocks(data)
  {
    if data == [] then [] else EncBlock(c, data[..8]) + EcbEncrypted(c, data[8..])
  }

  function EcbDecrypted(c: Context, data: seq<bv8>): seq<bv8>
    requires WholeBlocks(data)
  {
    if data == [] then [] else DecBlock(c, data[..8]) + EcbDecrypted(c, data[8..])
  }

  function CbcEncrypted(c: Context, iv: Block, data: seq<bv8>): (r: seq<bv8>)
    requires WholeBlocks(data)
    ensures |r| == |data|
    decreases |data|
  {
    if data == [] then []
    else
      var b := EncBlock(c, XorBlock(data[..8], iv));
      b + CbcEncrypted(c, b, data[8..])
  }

  function CbcDecrypted(c: Context, iv: Block, data: seq<bv8>): (r: seq<bv8>)
    requires WholeBlocks(data)
    ensures |r| == |data|
    decreases |data|
  {
    if data == [] then []
    else XorBlock(DecBlock(c, data[..8]), iv) + CbcDecrypted(c, data[..8], data[8..])
  }

  /** Block `j` of a buffer. */
  function BlockAt(data: seq<bv8>, j: nat): Block
    requires 8 * j + 8 <= |data|
  {
    data[8 * j..8 * j + 8]
  }

  /** ECB: every block is enciphered by itself. */
  lemma {:induction false} EcbBlockAt(c: Context, data: seq<bv8>, j: nat)
    requires WholeBlocks(data) && 8 * j + 8 <= |data|
    ensures |EcbEncrypted(c, data)| == |data| && BlockAt(EcbEncrypted(c, data), j) == EncBlock(c, BlockAt(data, j))
    decreases |data|
  {
    hide EncBlock;
    var b: seq<bv8>, rest := EncBlock(c, data[..8]), EcbEncrypted(c, data[8..]);
    if j == 0 {
      if |data| > 8 { EcbBlockAt(c, data[8..], 0); }
      assert (b + rest)[..8] == b;
    } else {
      EcbBlockAt(c, data[8..], j - 1);
      assert data[8..][8 * (j - 1)..8 * (j - 1) + 8] == data[8 * j..8 * j + 8];
      assert (b + rest)[8 * j..8 * j + 8] == rest[8 * (j - 1)..8 * (j - 1) + 8];
    }
  }

  /** CBC: every block is xored with the encrypted block before it, the first with the vector, and enciphered. */
  lemma {:induction false} CbcBlockAt(c: Context, iv: Block, data: seq<bv8>, j: nat)
    requires WholeBlocks(data) && 8 * j + 8 <= |data|
    ensures var e := CbcEncrypted(c, iv, data);
            BlockAt(e, j) == EncBlock(c, XorBlock(BlockAt(data, j), if j == 0 then iv else BlockAt(e, j - 1)))
    decreases |data|
  {
    hide EncBlock, XorBlock;
    var b: seq<bv8> := EncBlock(c, XorBlock(data[..8], iv));
    var rest := CbcEncrypted(c, b, data[8..]);
    var e := CbcEncrypted(c, iv, data);
    assert e == b + rest && BlockAt(e, 0) == b;
    if j > 0 {
      CbcBlockAt(c, b, data[8..], j - 1);
      assert data[8..][8 * (j - 1)..8 * (j - 1) + 8] == data[8 * j..8 * j + 8];
      assert e[8 * j..8 * j + 8] == rest[8 * (j - 1)..8 * (j - 1) + 8];
      if j > 1 { assert e[8 * (j - 1)..8 * (j - 1) + 8] == rest[8 * (j - 2)..8 * (j - 2) + 8]; }
    }
  }

  lemma {:induction false} EcbRoundTrip(c: Context, data: seq<bv8>)
    requires WholeBlocks(data)
    ensures WholeBlocks(EcbEncrypted(c, data)) && EcbDecrypted(c, EcbEncrypted(c, data)) == data
    decreases |data|
  {
    hide EncBlock, DecBlock;
    if data != [] {
      var b: seq<bv8>, rest: seq<bv8> := EncBlock(c, data[..8]), EcbEncrypted(c, data[8..]);
      EcbRoundTrip(c, data[8..]);
      DecBlockUndoesEncBlock(c, data[..8]);
      assert (b + rest)[..8] == b && (b + rest)[8..] == rest;
      assert data == data[..8] + data[8..];
    }
  }

  /** CBC decryption inverts CBC encryption, for every key state, vector and buffer. */
  lemma {:induction false} CbcRoundTrip(c: Context, iv: Block, data: seq<bv8>)
    requires WholeBlocks(data)
    ensures CbcDecrypted(c, iv, CbcEncrypted(c, iv, data)) == data
    decreases |data|
  {
    hide EncBlock, DecBlock, XorBlock;
    if data != [] {
      var x := XorBlock(data[..8], iv);
      var b: seq<bv8> := EncBlock(c, x);
      var rest: seq<bv8> := CbcEncrypted(c, b, data[8..]);
      CbcRoundTrip(c, b, data[8..]);
      DecBlockUndoesEncBlock(c, x);
      XorBlockTwice(data[..8], iv);
      assert (b + rest)[..8] == b && (b + rest)[8..] == rest;
      assert data == data[..8] + data[8..];
    }
  }

  /** And every buffer is the encryption of its decryption: nothing is lost either way. */
  lemma {:induction false} CbcRoundTripBack(c: Context, iv: Block, data: seq<bv8>)
    requires WholeBlocks(data)
    ensures CbcEncrypted(c, iv, CbcDecrypted(c, iv, data)) == data
    decreases |data|
  {
    hide EncBlock, DecBlock, XorBlock;
    if data != [] {
      var d := DecBlock(c, data[..8]);
      var b: seq<bv8>, rest: seq<bv8> := XorBlock(d, iv), CbcDecrypted(c, data[..8], data[8..]);
      CbcRoundTripBack(c, data[..8], data[8..]);
      DecBlockUndoesEncBlock(c, data[..8]);
      XorBlockTwice(d, iv);
      assert (b + rest)[..8] == b && (b + rest)[8..] == rest;
      assert data == data[..8] + data[8..];
    }
  }

  // ---------------------------------------------------------------- the modes in place

  /** The buffer with one block overwritten. */
  function WithBlock(data: seq<bv8>, at: nat, b: Block): (r: seq<bv8>)
    requires at + 8 <= |data|
    ensures |r| == |data|
  {
    data[..at] + b + data[at + 8..]
  }

  method WriteWord(data: array<bv8>, at: nat, w: bv32)
    requires at + 4 <= data.Length
    modifies data
    ensures data[..] == old(data[..at]) + BytesOf(w) + old(data[at + 4..])
  {
    hide BytesOf;
    var b := BytesOf(w);
    data[at], data[at + 1], data[at + 2], data[at + 3] := b[0], b[1], b[2], b[3];
  }

  method WriteHalves(data: array<bv8>, at: nat, h: Halves<bv32>)
    requires at + 8 <= data.Length
    modifies data
    ensures data[..] == WithBlock(old(data[..]), at, BlockOf(h))
  {
    hide BytesOf;
    WriteWord(data, at, h.l);
    WriteWord(data, at + 4, h.r);
  }

  method ReadHalves(data: array<bv8>, at: nat) returns (h: Halves<bv32>)
    requires at + 8 <= data.Length
    ensures h == HalvesOf(data[at..at + 8])
  {
    var l := WordOf(data[at], data[at + 1], data[at + 2], data[at + 3]);
    var r := WordOf(data[at + 4], data[at + 5], data[at + 6], data[at + 7]);
    h := Halves(l, r);
  }

  method EncryptBlockAt(s: BlowfishState, data: array<bv8>, at: nat)
    requires s.Valid() && at + 8 <= data.Length
    modifies data
    ensures data[..] == WithBlock(old(data[..]), at, EncBlock(s.Value(), old(data[at..at + 8])))
  {
    var h := ReadHalves(data, at);
    var l, r := s.EncipherHalves(h.l, h.r);
    WriteHalves(data, at, Halves(l, r));
  }

  method DecryptBlockAt(s: BlowfishState, data: array<bv8>, at: nat)
    requires s.Valid() && at + 8 <= data.Length
    modifies data
    ensures data[..] == WithBlock(old(data[..]), at, DecBlock(s.Value(), old(data[at..at + 8])))
  {
    var h := ReadHalves(data, at);
    var l, r := s.DecipherHalves(h.l, h.r);
    WriteHalves(data, at, Halves(l, r));
  }

  /**
   `data[j] ^= iv[j]` for one block. The vector may lie in the same buffer, except where it
   starts before the block and reaches into it.
   */
  method XorBlockAt(data: array<bv8>, at: nat, iv: array<bv8>, ivAt: nat)
    requires at + 8 <= data.Length && ivAt + 8 <= iv.Length
    requires iv == data ==> ivAt + 8 <= at || at <= ivAt
    modifies data
    ensures data[..] == WithBlock(old(data[..]), at, XorBlock(old(data[at..at + 8]), old(iv[ivAt..ivAt + 8])))
  {
    ghost var before, v: Block := data[..], iv[ivAt..ivAt + 8];
    for j := 0 to 8
      invariant XoredTo(before, data[..], at, v, j)
    {
      assert iv[ivAt + j] == v[j];
      data[at + j] := data[at + j] ^ iv[ivAt + j];
    }
    AllXored(before, data[..], at, v);
  }

  /** The first `j` bytes of a block have been xored with a vector. */
  ghost predicate XoredTo(before: seq<bv8>, now: seq<bv8>, at: nat, v: Block, j: nat)
    requires at + 8 <= |before|
  {
    && |now| == |before|
    && forall k | 0 <= k < |now| :: now[k] == if at <= k < at + j && j <= 8 then before[k] ^ v[k - at] else before[k]
  }

  lemma AllXored(before: seq<bv8>, now: seq<bv8>, at: nat, v: Block)
    requires at + 8 <= |before| && XoredTo(before, now, at, v, 8)
    ensures now == WithBlock(before, at, XorBlock(before[at..at + 8], v))
  {
    var x := XorBlock(before[at..at + 8], v);
    assert now[..at] == before[..at] && now[at..at + 8] == x && now[at + 8..] == before[at + 8..];
    assert now == now[..at] + now[at..at + 8] + now[at + 8..];
  }

  /** What one overwritten block leaves of a buffer whose rest, from the block on, is still as before. */
  lemma BlockDone(before: seq<bv8>, now: seq<bv8>, i: nat, b: Block)
    requires |before| == |now| && i + 8 <= |before| && now[i..] == before[i..]
    ensures now[i..i + 8] == before[i..i + 8]
    ensures var after := WithBlock(now, i, b);
            after[..i + 8] == now[..i] + b && after[i..i + 8] == b && after[i + 8..] == before[i + 8..]
  {
    assert now[i..i + 8] == now[i..][..8] && before[i..i + 8] == before[i..][..8];
    assert now[i + 8..] == now[i..][8..] && before[i + 8..] == before[i..][8..];
  }

  lemma NextBlock(data: seq<bv8>, i: nat)
    requires i + 8 <= |data|
    ensures data[i..] != [] && data[i..][..8] == data[i..i + 8] && data[i..][8..] == data[i + 8..]
  {
  }

  lemma EcbEncryptedStep(c: Context, data: seq<bv8>, i: nat, head: seq<bv8>)
    requires WholeBlocks(data) && i % 8 == 0 && i + 8 <= |data|
    ensures head + EcbEncrypted(c, data[i..]) ==
            (head + EncBlock(c, data[i..i + 8])) + EcbEncrypted(c, data[i + 8..])
  {
    hide EncBlock;
    NextBlock(data, i);
    Regroup(head, EncBlock(c, data[i..i + 8]), EcbEncrypted(c, data[i + 8..]));
  }

  lemma EcbDecryptedStep(c: Context, data: seq<bv8>, i: nat, head: seq<bv8>)
    requires WholeBlocks(data) && i % 8 == 0 && i + 8 <= |data|
    ensures head + EcbDecrypted(c, data[i..]) ==
            (head + DecBlock(c, data[i..i + 8])) + EcbDecrypted(c, data[i + 8..])
  {
    hide DecBlock;
    NextBlock(data, i);
    Regroup(head, DecBlock(c, data[i..i + 8]), EcbDecrypted(c, data[i + 8..]));
  }

  /** `blf_ecb_encrypt`. */
  method EcbEncrypt(s: BlowfishState, data: array<bv8>)
    requires s.Valid() && data.Length % 8 == 0
    modifies data
    ensures data[..] == EcbEncrypted(s.Value(), old(data[..]))
  {
    hide EncBlock, EcbEncrypted, WithBlock;
    ghost var before, c := data[..], s.Value();
    var i: nat := 0;
    Whole(before);
    NothingEncrypted(c);
    while i < data.Length
      invariant i % 8 == 0 && i <= data.Length
      invariant data[i..] == before[i..]
      invariant data[..i] + EcbEncrypted(c, before[i..]) == EcbEncrypted(c, before)
    {
      BlockDone(before, data[..], i, EncBlock(c, before[i..i + 8]));
      EcbEncryptedStep(c, before, i, data[..i]);
      EncryptBlockAt(s, data, i);
      i := i + 8;
    }
    Whole(data[..]);
  }

  /** `blf_ecb_decrypt`. */
  method EcbDecrypt(s: BlowfishState, data: array<bv8>)
    requires s.Valid() && data.Length % 8 == 0
    modifies data
    ensures data[..] == EcbDecrypted(s.Value(), old(data[..]))
  {
    hide DecBlock, EcbDecrypted, WithBlock;
    ghost var before, c := data[..], s.Value();
    var i: nat := 0;
    Whole(before);
    NothingEncrypted(c);
    while i < data.Length
      invariant i % 8 == 0 && i <= data.Length
      invariant data[i..] == before[i..]
      invariant data[..i] + EcbDecrypted(c, before[i..]) == EcbDecrypted(c, before)
    {
      BlockDone(before, data[..], i, DecBlock(c, before[i..i + 8]));
      EcbDecryptedStep(c, before, i, data[..i]);
      DecryptBlockAt(s, data, i);
      i := i + 8;
    }
    Whole(data[..]);
  }

  lemma Whole(data: seq<bv8>)
    ensures data[..0] == [] && data[0..] == data && data[..|data|] == data && data[|data|..] == [] && [] + data == data
    ensures data + [] == data
  {
  }

  lemma NothingEncrypted(c: Context)
    ensures EcbEncrypted(c, []) == [] && EcbDecrypted(c, []) == []
    ensures forall iv: Block :: CbcEncrypted(c, iv, []) == [] && CbcDecrypted(c, iv, []) == []
  {
  }

  lemma OverwriteTwice(data: seq<bv8>, at: nat, b1: Block, b2: Block)
    requires at + 8 <= |data|
    ensures WithBlock(data, at, b1)[at..at + 8] == b1
    ensures WithBlock(WithBlock(data, at, b1), at, b2) == WithBlock(data, at, b2)
  {
  }

  /** Encrypted up to `i`, with `iv` the next vector; the rest is still as before. */
  ghost predicate EncryptedTo(c: Context, before: seq<bv8>, now: seq<bv8>, i: nat, iv: Block, all: seq<bv8>) {
    && WholeBlocks(before) && i % 8 == 0 && i <= |before| == |now|
    && now[i..] == before[i..]
    && now[..i] + CbcEncrypted(c, iv, before[i..]) == all
  }

  lemma EncryptedToStart(c: Context, before: seq<bv8>, iv: Block)
    requires WholeBlocks(before)
    ensures EncryptedTo(c, before, before, 0, iv, CbcEncrypted(c, iv, before))
  {
    Whole(before);
    assert [] + CbcEncrypted(c, iv, before) == CbcEncrypted(c, iv, before);
  }

  lemma EncryptedToEnd(c: Context, before: seq<bv8>, now: seq<bv8>, i: nat, iv: Block, all: seq<bv8>)
    requires EncryptedTo(c, before, now, i, iv, all) && i >= |before|
    ensures now == all
  {
    Whole(before);
    Whole(now);
  }

  /** A turn of the forward CBC loop: one more block is encrypted, and is the next vector. */
  lemma CbcTurn(c: Context, before: seq<bv8>, now: seq<bv8>, i: nat, iv: Block, all: seq<bv8>)
    requires i + 8 <= |before| && EncryptedTo(c, before, now, i, iv, all)
    ensures var b := EncBlock(c, XorBlock(now[i..i + 8], iv));
            var after := WithBlock(now, i, b);
            after[i..i + 8] == b && EncryptedTo(c, before, after, i + 8, b, all)
  {
    hide EncBlock, XorBlock, WithBlock;
    var b := EncBlock(c, XorBlock(before[i..i + 8], iv));
    NextBlock(before, i);
    BlockDone(before, now, i, b);
    Regroup(now[..i], b, CbcEncrypted(c, b, before[i + 8..]));
  }

  /** Xor one block with a vector that may lie in the buffer too, and encipher it. */
  method XorAndEncrypt(s: BlowfishState, data: array<bv8>, at: nat, iv: array<bv8>, ivAt: nat)
    requires s.Valid() && at + 8 <= data.Length && ivAt + 8 <= iv.Length
    requires iv == data ==> ivAt + 8 <= at || at <= ivAt
    modifies data
    ensures data[..] == WithBlock(old(data[..]), at,
                                  EncBlock(s.Value(), XorBlock(old(data[at..at + 8]), old(iv[ivAt..ivAt + 8]))))
  {
    hide EncBlock, XorBlock, WithBlock;
    ghost var before, v := data[..], iv[ivAt..ivAt + 8];
    ghost var x := XorBlock(before[at..at + 8], v);
    OverwriteTwice(before, at, x, EncBlock(s.Value(), x));
    XorBlockAt(data, at, iv, ivAt);
    EncryptBlockAt(s, data, at);
  }

  /**
   `blf_cbc_encrypt`: after the first block the vector is the block just written. The first
   vector may lie anywhere, the buffer itself included; it is read before it is overwritten.
   */
  method CbcEncrypt(s: BlowfishState, iv0: array<bv8>, iv0At: nat, data: array<bv8>)
    requires s.Valid() && data.Length % 8 == 0 && iv0At + 8 <= iv0.Length
    modifies data
    ensures data[..] == CbcEncrypted(s.Value(), old(iv0[iv0At..iv0At + 8]), old(data[..]))
  {
    hide EncBlock, XorBlock, CbcEncrypted, WithBlock, EncryptedTo;
    ghost var before, c, v: Block := data[..], s.Value(), iv0[iv0At..iv0At + 8];
    ghost var all := CbcEncrypted(c, v, before);
    var iv, ivAt: nat, i: nat := iv0, iv0At, 0;
    EncryptedToStart(c, before, v);
    while i < data.Length
      invariant i % 8 == 0 && i <= data.Length
      invariant (i == 0 && iv == iv0 && ivAt == iv0At) || (i == ivAt + 8 && iv == data)
      invariant iv[ivAt..ivAt + 8] == v
      invariant EncryptedTo(c, before, data[..], i, v, all)
    {
      CbcTurn(c, before, data[..], i, v, all);
      v := EncBlock(c, XorBlock(data[i..i + 8], v));
      XorAndEncrypt(s, data, i, iv, ivAt);
      iv, ivAt := data, i;
      i := i + 8;
    }
    EncryptedToEnd(c, before, data[..], i, v, all);
  }

  /** What a vector reads as once the block at `at` has become `b`. */
  function VectorSeen(data: seq<bv8>, at: nat, b: Block, iv: seq<bv8>, ivAt: nat, inside: bool): Block
    requires at + 8 <= |data| && ivAt + 8 <= |iv| && (inside ==> iv == data)
  {
    if inside then WithBlock(data, at, b)[ivAt..ivAt + 8] else iv[ivAt..ivAt + 8]
  }

  /** Decipher one block and xor it with a vector that may lie in the buffer too. */
  method DecryptAndXor(s: BlowfishState, data: array<bv8>, at: nat, iv: array<bv8>, ivAt: nat)
    requires s.Valid() && at + 8 <= data.Length && ivAt + 8 <= iv.Length
    requires iv == data ==> ivAt + 8 <= at || at <= ivAt
    modifies data
    ensures var d := DecBlock(s.Value(), old(data[at..at + 8]));
            data[..] == WithBlock(old(data[..]), at,
                                  XorBlock(d, VectorSeen(old(data[..]), at, d, old(iv[..]), ivAt, iv == data)))
  {
    hide DecBlock, XorBlock, WithBlock;
    ghost var before, d := data[..], DecBlock(s.Value(), data[at..at + 8]);
    ghost var v := VectorSeen(before, at, d, iv[..], ivAt, iv == data);
    DecryptBlockAt(s, data, at);
    OverwriteTwice(before, at, d, XorBlock(d, v));
    assert iv[ivAt..ivAt + 8] == v by { if iv != data { assert iv[..] == old(iv[..]); } }
    XorBlockAt(data, at, iv, ivAt);
  }

  lemma VectorBefore(data: seq<bv8>, at: nat, b: Block, ivAt: nat)
    requires at + 8 <= |data| && ivAt + 8 <= at
    ensures VectorSeen(data, at, b, data, ivAt, true) == data[ivAt..ivAt + 8]
  {
  }

  /** All behind the block at `i` is decrypted; that block and all before it are as before. */
  ghost predicate DecryptedBehind(c: Context, before: seq<bv8>, now: seq<bv8>, i: nat) {
    && WholeBlocks(before) && i % 8 == 0 && i + 8 <= |before| == |now|
    && now[..i + 8] == before[..i + 8]
    && now[i + 8..] == CbcDecrypted(c, before[i..i + 8], before[i + 8..])
  }

  lemma DecryptedBehindLast(c: Context, before: seq<bv8>)
    requires WholeBlocks(before) && |before| >= 8
    ensures DecryptedBehind(c, before, before, |before| - 8)
  {
    Whole(before);
  }

  /** A turn of the backward loop: one more block of the suffix is decrypted. */
  lemma CbcTurnBack(c: Context, before: seq<bv8>, now: seq<bv8>, i: nat, v: Block)
    requires DecryptedBehind(c, before, now, i)
    requires i >= 8 ==> v == now[i - 8..i]
    ensures var after := WithBlock(now, i, XorBlock(DecBlock(c, now[i..i + 8]), v));
            if i >= 8 then DecryptedBehind(c, before, after, i - 8) else after == CbcDecrypted(c, v, before)
  {
    hide DecBlock, XorBlock, WithBlock, CbcDecrypted;
    SameBlocks(before, now, i);
    var b := XorBlock(DecBlock(c, before[i..i + 8]), v);
    BlockBehind(now, i, b);
    CbcDecryptedStep(c, before, i, v);
    if i < 8 {
      Whole(before);
      Whole(WithBlock(now, i, b));
    }
  }

  lemma SameBlocks(before: seq<bv8>, now: seq<bv8>, i: nat)
    requires i + 8 <= |before| == |now| && now[..i + 8] == before[..i + 8]
    ensures now[i..i + 8] == before[i..i + 8] && now[..i] == before[..i]
    ensures i >= 8 ==> now[i - 8..i] == before[i - 8..i]
  {
    assert now[i..i + 8] == now[..i + 8][i..] && before[i..i + 8] == before[..i + 8][i..];
    assert now[..i] == now[..i + 8][..i] && before[..i] == before[..i + 8][..i];
    if i >= 8 {
      assert now[i - 8..i] == now[..i + 8][i - 8..i] && before[i - 8..i] == before[..i + 8][i - 8..i];
    }
  }

  lemma BlockBehind(data: seq<bv8>, i: nat, b: Block)
    requires i + 8 <= |data|
    ensures WithBlock(data, i, b)[i..] == b + data[i + 8..] && WithBlock(data, i, b)[..i] == data[..i]
  {
  }

  lemma CbcDecryptedStep(c: Context, data: seq<bv8>, i: nat, v: Block)
    requires WholeBlocks(data) && i % 8 == 0 && i + 8 <= |data|
    ensures CbcDecrypted(c, v, data[i..]) ==
            XorBlock(DecBlock(c, data[i..i + 8]), v) + CbcDecrypted(c, data[i..i + 8], data[i + 8..])
  {
    hide DecBlock, XorBlock;
    NextBlock(data, i);
  }

  /** The buffer when only the xor of its first block is still to come. */
  function AlmostDecrypted(c: Context, data: seq<bv8>): (r: seq<bv8>)
    requires WholeBlocks(data) && |data| >= 8
    ensures |r| == |data|
  {
    DecBlock(c, data[..8]) + CbcDecrypted(c, data[..8], data[8..])
  }

  /** The first vector as decryption reads it: in the buffer itself, only at the very end. */
  function FirstVector(c: Context, data: seq<bv8>, iv: seq<bv8>, ivAt: nat, inside: bool): Block
    requires WholeBlocks(data) && |data| >= 8 && ivAt + 8 <= |if inside then data else iv|
  {
    (if inside then AlmostDecrypted(c, data) else iv)[ivAt..ivAt + 8]
  }

  /** What the first vector reads as when the last block is xored. */
  lemma LastVector(c: Context, before: seq<bv8>, now: seq<bv8>, iv: seq<bv8>, ivAt: nat, inside: bool)
    requires DecryptedBehind(c, before, now, 0) && ivAt + 8 <= |iv| && (inside ==> iv == now)
    ensures VectorSeen(now, 0, DecBlock(c, now[0..8]), iv, ivAt, inside) == FirstVector(c, before, iv, ivAt, inside)
  {
    hide DecBlock, CbcDecrypted;
    assert now[0..8] == now[..8] && before[0..8] == before[..8];
    assert now[0 + 8..] == now[8..] && before[0 + 8..] == before[8..];
    assert WithBlock(now, 0, DecBlock(c, now[0..8])) == AlmostDecrypted(c, before);
  }

  /**
   `blf_cbc_decrypt`: from the last block back, so that the block before is still ciphertext.
   A first vector that lies in the buffer itself is read there at the very end.
   */
  method CbcDecrypt(s: BlowfishState, iva: array<bv8>, ivaAt: nat, data: array<bv8>)
    requires s.Valid() && data.Length % 8 == 0 && data.Length >= 8 && ivaAt + 8 <= iva.Length
    modifies data
    ensures data[..] ==
            CbcDecrypted(s.Value(), FirstVector(s.Value(), old(data[..]), old(iva[..]), ivaAt, iva == data), old(data[..]))
  {
    hide CbcDecrypted, DecryptedBehind, FirstVector;
    ghost var before, vectors, c := data[..], iva[..], s.Value();
    var i: nat := data.Length - 8;
    DecryptedBehindLast(c, before);
    while i >= 8
      invariant i % 8 == 0 && i <= data.Length - 8
      invariant DecryptedBehind(c, before, data[..], i)
      invariant iva != data ==> iva[..] == vectors
    {
      TurnBackInPlace(s, data, i, before);
      i := i - 8;
    }
    if iva == data {
      InsideVector(c, before, vectors, iva[..], ivaAt);
    } else {
      assert iva[..] == vectors;
    }
    LastTurnInPlace(s, data, iva, ivaAt, before);
  }

  lemma InsideVector(c: Context, data: seq<bv8>, iv1: seq<bv8>, iv2: seq<bv8>, ivAt: nat)
    requires WholeBlocks(data) && |data| >= 8 && ivAt + 8 <= |data|
    ensures FirstVector(c, data, iv1, ivAt, true) == FirstVector(c, data, iv2, ivAt, true)
  {
  }

  /** The body of the backward loop. */
  method TurnBackInPlace(s: BlowfishState, data: array<bv8>, i: nat, ghost before: seq<bv8>)
    requires s.Valid() && 8 <= i && i + 8 <= data.Length && DecryptedBehind(s.Value(), before, data[..], i)
    modifies data
    ensures DecryptedBehind(s.Value(), before, data[..], i - 8)
  {
    hide DecBlock, XorBlock, CbcDecrypted, WithBlock, DecryptedBehind, VectorSeen;
    ghost var d := DecBlock(s.Value(), data[i..i + 8]);
    VectorBefore(data[..], i, d, i - 8);
    CbcTurnBack(s.Value(), before, data[..], i, data[i - 8..i]);
    DecryptAndXor(s, data, i, data, i - 8);
  }

  /** What follows the backward loop: the first block, with the caller's vector. */
  method LastTurnInPlace(s: BlowfishState, data: array<bv8>, iva: array<bv8>, ivaAt: nat, ghost before: seq<bv8>)
    requires s.Valid() && 8 <= data.Length && ivaAt + 8 <= iva.Length && WholeBlocks(before) && 8 <= |before|
    requires DecryptedBehind(s.Value(), before, data[..], 0)
    modifies data
    requires iva == data ==> ivaAt + 8 <= |before|
    ensures data[..] == CbcDecrypted(s.Value(), FirstVector(s.Value(), before, old(iva[..]), ivaAt, iva == data), before)
  {
    hide DecBlock, XorBlock, CbcDecrypted, WithBlock, FirstVector, VectorSeen;
    ghost var d := DecBlock(s.Value(), data[0..8]);
    ghost var v := VectorSeen(data[..], 0, d, iva[..], ivaAt, iva == data);
    LastVector(s.Value(), before, data[..], iva[..], ivaAt, iva == data);
    CbcTurnBack(s.Value(), before, data[..], 0, v);
    DecryptAndXor(s, data, 0, iva, ivaAt);
  }

  lemma XorBlockRestores(x: Block, iv: Block, v: Block)
    ensures XorBlock(XorBlock(x, iv), v) == x <==> v == iv
  {
    hide XorBlock;
    XorBlockTwice(x, iv);
    if XorBlock(XorBlock(x, iv), v) == x {
      forall i | 0 <= i < 8 ensures v[i] == iv[i] {
        ByteRestored(x, iv, v, i);
      }
    }
  }

  lemma ByteRestored(x: Block, iv: Block, v: Block, i: nat)
    requires i < 8 && XorBlock(XorBlock(x, iv), v)[i] == x[i]
    ensures v[i] == iv[i]
  {
    hide XorBlock, XorByte;
    XorBlockByte(XorBlock(x, iv), v, i);
    XorBlockByte(x, iv, i);
    ByteXorRestores(x[i], iv[i], v[i]);
  }

  function XorByte(x: bv8, y: bv8): bv8 {
    x ^ y
  }

  lemma XorBlockByte(a: Block, b: Block, i: nat)
    requires i < 8
    ensures XorBlock(a, b)[i] == XorByte(a[i], b[i])
  {
  }

  lemma ByteXorRestores(x: bv8, y: bv8, z: bv8)
    requires XorByte(XorByte(x, y), z) == x
    ensures z == y
  {
  }

  /** The first block that decryption is about to xor, and all behind it, for an encrypted buffer. */
  lemma AlmostDecryptedEncrypted(c: Context, iv: Block, data: seq<bv8>)
    requires WholeBlocks(data) && |data| >= 8
    ensures AlmostDecrypted(c, CbcEncrypted(c, iv, data)) == XorBlock(data[..8], iv) + data[8..]
    ensures forall v: Block ::
              CbcDecrypted(c, v, CbcEncrypted(c, iv, data)) == XorBlock(XorBlock(data[..8], iv), v) + data[8..]
  {
    hide EncBlock, DecBlock, XorBlock;
    var x := XorBlock(data[..8], iv);
    var b: seq<bv8> := EncBlock(c, x);
    var rest: seq<bv8> := CbcEncrypted(c, b, data[8..]);
    DecBlockUndoesEncBlock(c, x);
    CbcRoundTrip(c, b, data[8..]);
    assert (b + rest)[..8] == b && (b + rest)[8..] == rest;
  }

  /**
   A first vector that lies in the buffer itself is changed before decryption reads it. The
   in-place calls then undo each other exactly when it reads the same all the same.
   */
  lemma RoundTripInsideExactlyWhen(c: Context, data: seq<bv8>, a: nat)
    requires WholeBlocks(data) && a + 8 <= |data|
    ensures var iv := data[a..a + 8];
            var e := CbcEncrypted(c, iv, data);
            CbcDecrypted(c, AlmostDecrypted(c, e)[a..a + 8], e) == data <==>
            (XorBlock(data[..8], iv) + data[8..])[a..a + 8] == iv
  {
    hide CbcEncrypted, CbcDecrypted, AlmostDecrypted, XorBlock;
    var iv := data[a..a + 8];
    AlmostDecryptedEncrypted(c, iv, data);
    var x: seq<bv8> := XorBlock(data[..8], iv);
    var v := (x + data[8..])[a..a + 8];
    XorBlockRestores(data[..8], iv, v);
    SameFirstBlock(data, XorBlock(x, v));
  }

  lemma SameFirstBlock(data: seq<bv8>, b: Block)
    requires |data| >= 8
    ensures b + data[8..] == data <==> b == data[..8]
  {
    assert (b + data[8..])[..8] == b;
    assert data[..8] + data[8..] == data;
  }

  /** So behind the first block it may lie anywhere; on the first block, only if that is zero. */
  lemma RoundTripInsideCases(c: Context, data: seq<bv8>, a: nat)
    requires WholeBlocks(data) && a + 8 <= |data|
    ensures var e := CbcEncrypted(c, data[a..a + 8], data);
            var back := CbcDecrypted(c, AlmostDecrypted(c, e)[a..a + 8], e);
            && (a >= 8 ==> back == data)
            && (a == 0 ==> (back == data <==> data[..8] == seq(8, _ => 0)))
  {
    hide CbcEncrypted, CbcDecrypted, AlmostDecrypted, XorBlock;
    RoundTripInsideExactlyWhen(c, data, a);
    var x: seq<bv8> := XorBlock(data[..8], data[a..a + 8]);
    if a >= 8 {
      assert (x + data[8..])[a..a + 8] == data[a..a + 8];
    } else if a == 0 {
      assert data[0..8] == data[..8] && (x + data[8..])[0..8] == x;
      XorWithItself(data[..8]);
    }
  }

  lemma XorWithItself(b: Block)
    ensures XorBlock(b, b) == seq(8, _ => 0)
  {
    forall i | 0 <= i < 8 ensures XorBlock(b, b)[i] == 0 {
      assert b[i] ^ b[i] == 0;
    }
  }

  /** A buffer that does not come back when its own first block is the vector. */
  lemma RoundTripInsideFails(c: Context)
    ensures var data: seq<bv8> := [1, 0, 0, 0, 0, 0, 0, 0];
            var e := CbcEncrypted(c, data[0..8], data);
            WholeBlocks(data) && CbcDecrypted(c, AlmostDecrypted(c, e)[0..8], e) != data
  {
    hide CbcEncrypted, CbcDecrypted, AlmostDecrypted;
    var data: seq<bv8> := [1, 0, 0, 0, 0, 0, 0, 0];
    RoundTripInsideCases(c, data, 0);
    assert data[..8][0] == 1;
  }

  // ---------------------------------------------------------------- pairs of words

  function EncPairs(c: Context, ws: seq<bv32>): (r: seq<bv32>)
    requires |ws| % 2 == 0
    ensures |r| == |ws|
  {
    if ws == [] then []
    else
      var h := Encipher(c, ws[0], ws[1]);
      [h.l, h.r] + EncPairs(c, ws[2..])
  }

  function DecPairs(c: Context, ws: seq<bv32>): (r: seq<bv32>)
    requires |ws| % 2 == 0
    ensures |r| == |ws|
  {
    if ws == [] then []
    else
      var h := Decipher(c, ws[0], ws[1]);
      [h.l, h.r] + DecPairs(c, ws[2..])
  }

  /** Every pair is enciphered by itself, in its place. */
  lemma {:induction false} EncPairAt(c: Context, ws: seq<bv32>, j: nat)
    requires |ws| % 2 == 0 && 2 * j + 1 < |ws|
    ensures Halves(EncPairs(c, ws)[2 * j], EncPairs(c, ws)[2 * j + 1]) == Encipher(c, ws[2 * j], ws[2 * j + 1])
    decreases |ws|
  {
    hide Encipher;
    if j > 0 { EncPairAt(c, ws[2..], j - 1); }
  }

  lemma {:induction false} PairsRoundTrip(c: Context, ws: seq<bv32>)
    requires |ws| % 2 == 0
    ensures DecPairs(c, EncPairs(c, ws)) == ws
    decreases |ws|
  {
    hide Encipher, Decipher;
    if ws != [] {
      PairsRoundTrip(c, ws[2..]);
      DecipherUndoesEncipher(c, ws[0], ws[1]);
      var h := Encipher(c, ws[0], ws[1]);
      assert ([h.l, h.r] + EncPairs(c, ws[2..]))[2..] == EncPairs(c, ws[2..]);
      assert ws == [ws[0], ws[1]] + ws[2..];
    }
  }

  lemma PairHere(before: seq<bv32>, now: seq<bv32>, d: nat, end: nat, l: bv32, r: bv32)
    requires |before| == |now| && d + 2 <= end <= |before| && now[d..] == before[d..]
    ensures before[d..end] != [] && before[d..end][0] == now[d] && before[d..end][1] == now[d + 1]
    ensures before[d..end][2..] == before[d + 2..end]
    ensures now[d := l][d + 1 := r][d + 2..] == before[d + 2..]
  {
    assert now[d] == now[d..][0] && now[d + 1] == now[d..][1] && now[d + 2..] == now[d..][2..];
    assert before[d] == before[d..][0] && before[d + 1] == before[d..][1] && before[d + 2..] == before[d..][2..];
  }

  /** The pairs before `d` are enciphered; the words from there on are still as before. */
  ghost predicate EncipheredTo(c: Context, before: seq<bv32>, now: seq<bv32>, d: nat, end: nat, all: seq<bv32>) {
    && d % 2 == end % 2 == 0 && d <= end <= |before| == |now|
    && now[d..] == before[d..]
    && now[..d] + EncPairs(c, before[d..end]) == all
  }

  lemma EncipheredTurn(c: Context, before: seq<bv32>, now: seq<bv32>, d: nat, end: nat, all: seq<bv32>)
    requires d < end && EncipheredTo(c, before, now, d, end, all)
    ensures d + 2 <= end <= |now|
    ensures var h := Encipher(c, now[d], now[d + 1]);
            EncipheredTo(c, before, now[d := h.l][d + 1 := h.r], d + 2, end, all)
  {
    hide Encipher;
    var ws, h := before[d..end], Encipher(c, now[d], now[d + 1]);
    PairHere(before, now, d, end, h.l, h.r);
    assert now[d := h.l][d + 1 := h.r][..d + 2] == now[..d] + [h.l, h.r];
    Regroup(now[..d], [h.l, h.r], EncPairs(c, ws[2..]));
  }

  lemma EncipheredEnds(c: Context, before: seq<bv32>, end: nat)
    requires end % 2 == 0 && end <= |before|
    ensures var all := EncPairs(c, before[..end]);
            && EncipheredTo(c, before, before, 0, end, all)
            && forall now :: EncipheredTo(c, before, now, end, end, all) ==> now == all + before[end..]
  {
    assert before[0..end] == before[..end] && before[end..end] == [];
    forall now | EncipheredTo(c, before, now, end, end, EncPairs(c, before[..end]))
      ensures now == EncPairs(c, before[..end]) + before[end..]
    {
      assert now == now[..end] + now[end..];
    }
  }

  /** The pairs before `d` are deciphered; the words from there on are still as before. */
  ghost predicate DecipheredTo(c: Context, before: seq<bv32>, now: seq<bv32>, d: nat, end: nat, all: seq<bv32>) {
    && d % 2 == end % 2 == 0 && d <= end <= |before| == |now|
    && now[d..] == before[d..]
    && now[..d] + DecPairs(c, before[d..end]) == all
  }

  lemma DecipheredTurn(c: Context, before: seq<bv32>, now: seq<bv32>, d: nat, end: nat, all: seq<bv32>)
    requires d < end && DecipheredTo(c, before, now, d, end, all)
    ensures d + 2 <= end <= |now|
    ensures var h := Decipher(c, now[d], now[d + 1]);
            DecipheredTo(c, before, now[d := h.l][d + 1 := h.r], d + 2, end, all)
  {
    hide Decipher;
    var ws, h := before[d..end], Decipher(c, now[d], now[d + 1]);
    PairHere(before, now, d, end, h.l, h.r);
    assert now[d := h.l][d + 1 := h.r][..d + 2] == now[..d] + [h.l, h.r];
    Regroup(now[..d], [h.l, h.r], DecPairs(c, ws[2..]));
  }

  lemma DecipheredEnds(c: Context, before: seq<bv32>, end: nat)
    requires end % 2 == 0 && end <= |before|
    ensures var all := DecPairs(c, before[..end]);
            && DecipheredTo(c, before, before, 0, end, all)
            && forall now :: DecipheredTo(c, before, now, end, end, all) ==> now == all + before[end..]
  {
    assert before[0..end] == before[..end] && before[end..end] == [];
    forall now | DecipheredTo(c, before, now, end, end, DecPairs(c, before[..end]))
      ensures now == DecPairs(c, before[..end]) + before[end..]
    {
      assert now == now[..end] + now[end..];
    }
  }

  /** `blf_enc`: the first `blocks` pairs of words, in place. */
  method BlfEnc(s: BlowfishState, data: array<bv32>, blocks: nat)
    requires s.Valid() && 2 * blocks <= data.Length && data != s.P && data != s.S
    modifies data
    ensures data[..] == EncPairs(s.Value(), old(data[..2 * blocks])) + old(data[2 * blocks..])
  {
    hide EncPairs, Encipher, EncipheredTo;
    ghost var before, c, end := data[..], s.Value(), 2 * blocks;
    ghost var all := EncPairs(c, before[..end]);
    EncipheredEnds(c, before, end);
    var d: nat := 0;
    for i := 0 to blocks
      invariant d == 2 * i && EncipheredTo(c, before, data[..], d, end, all)
    {
      EncipheredTurn(c, before, data[..], d, end, all);
      data[d], data[d + 1] := s.EncipherHalves(data[d], data[d + 1]);
      d := d + 2;
    }
  }

  /** `blf_dec`. */
  method BlfDec(s: BlowfishState, data: array<bv32>, blocks: nat)
    requires s.Valid() && 2 * blocks <= data.Length && data != s.P && data != s.S
    modifies data
    ensures data[..] == DecPairs(s.Value(), old(data[..2 * blocks])) + old(data[2 * blocks..])
  {
    hide DecPairs, Decipher, DecipheredTo;
    ghost var before, c, end := data[..], s.Value(), 2 * blocks;
    ghost var all := DecPairs(c, before[..end]);
    DecipheredEnds(c, before, end);
    var d: nat := 0;
    for i := 0 to blocks
      invariant d == 2 * i && DecipheredTo(c, before, data[..], d, end, all)
    {
      DecipheredTurn(c, before, data[..], d, end, all);
      data[d], data[d + 1] := s.DecipherHalves(data[d], data[d + 1]);
      d := d + 2;
    }
  }
}
