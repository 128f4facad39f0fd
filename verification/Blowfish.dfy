/**
 The Blowfish block cipher and its key schedules.

 The S-boxes are one flat table of 4 * 256 words, the way the cipher itself indexes them.
 Nothing here depends on the values in the tables: every statement is for any P and S.
 A `Context` is the value that the mutable class `BlowfishState` holds at a moment.
 */
module Blowfish {

  const N := 16
  const P_SIZE := 18
  const S_SIZE := 1024

  datatype Tables = Tables(P: seq<bv32>, S: seq<bv32>)

  type Context = c: Tables | |c.P| == P_SIZE && |c.S| == S_SIZE
    witness Tables(seq(P_SIZE, _ => 0), seq(S_SIZE, _ => 0))

  // ---------------------------------------------------------------- the Feistel network

  function F(s: seq<bv32>, x: bv32): bv32
    requires |s| == S_SIZE
  {
    ((s[((x >> 24) & 0xFF) as bv8 as int]
      + s[0x100 + ((x >> 16) & 0xFF) as bv8 as int])
     ^ s[0x200 + ((x >> 8) & 0xFF) as bv8 as int])
    + s[0x300 + (x & 0xFF) as bv8 as int]
  }

  datatype Halves<W> = Halves(l: W, r: W)

  /** Exclusive or, and the round function, as parameters: the network's laws need no more. */
  type Xor<!W> = (W, W) -> W

  type RoundFunction<!W> = W -> W

  ghost predicate Cancels<W(!new)>(xor: Xor<W>) {
    forall x, y :: xor(xor(x, y), y) == x
  }

  /** BLFRND: one half xored with the round function of the other and a subkey. */
  function Mix<W>(xor: Xor<W>, f: RoundFunction<W>, key: W, a: W, b: W): W {
    xor(b, xor(f(a), key))
  }

  /** The rounds with the given subkeys; the halves trade places after each. */
  function Rounds<W>(xor: Xor<W>, f: RoundFunction<W>, keys: seq<W>, a: W, b: W): Halves<W>
    decreases |keys|
  {
    if keys == [] then Halves(a, b) else Rounds(xor, f, keys[1..], Mix(xor, f, keys[0], a, b), a)
  }

  function Reversed<T>(s: seq<T>): seq<T> {
    seq(|s|, i requires 0 <= i < |s| => s[|s| - 1 - i])
  }

  /** Whitening, rounds, and the final exchange with the last subkey. */
  function Network<W>(xor: Xor<W>, f: RoundFunction<W>, first: W, keys: seq<W>, last: W, l: W, r: W): Halves<W> {
    var Halves(a, b) := Rounds(xor, f, keys, xor(l, first), r);
    Halves(xor(b, last), a)
  }

  lemma {:induction false} RoundsConcat<W>(xor: Xor<W>, f: RoundFunction<W>, k1: seq<W>, k2: seq<W>, a: W, b: W)
    ensures Rounds(xor, f, k1 + k2, a, b) ==
            var Halves(x, y) := Rounds(xor, f, k1, a, b); Rounds(xor, f, k2, x, y)
    decreases |k1|
  {
    if k1 == [] {
      assert k1 + k2 == k2;
    } else {
      assert (k1 + k2)[1..] == k1[1..] + k2;
      RoundsConcat(xor, f, k1[1..], k2, Mix(xor, f, k1[0], a, b), a);
    }
  }

  /** Running the rounds with reversed subkeys on the swapped halves undoes them. */
  lemma {:induction false} RoundsUndo<W(!new)>(xor: Xor<W>, f: RoundFunction<W>, keys: seq<W>, a: W, b: W)
    requires Cancels(xor)
    ensures var Halves(x, y) := Rounds(xor, f, keys, a, b); Rounds(xor, f, Reversed(keys), y, x) == Halves(b, a)
    decreases |keys|
  {
    if keys != [] {
      var k, rest := keys[0], keys[1..];
      var a1 := Mix(xor, f, k, a, b);
      var Halves(x, y) := Rounds(xor, f, rest, a1, a);
      RoundsUndo(xor, f, rest, a1, a);
      assert Reversed(keys) == Reversed(rest) + [k];
      RoundsConcat(xor, f, Reversed(rest), [k], y, x);
      assert [k][1..] == [];
    }
  }

  /** A network is undone by the network with first and last subkey exchanged and the rest reversed. */
  lemma NetworkUndo<W(!new)>(xor: Xor<W>, f: RoundFunction<W>, first: W, keys: seq<W>, last: W, l: W, r: W)
    requires Cancels(xor)
    ensures var Halves(x, y) := Network(xor, f, first, keys, last, l, r);
            Network(xor, f, last, Reversed(keys), first, x, y) == Halves(l, r)
  {
    var l0 := xor(l, first);
    RoundsUndo(xor, f, keys, l0, r);
    var Halves(a, b) := Rounds(xor, f, keys, l0, r);
    assert xor(xor(b, last), last) == b && xor(l0, first) == l;
  }

  /** One source line of the cipher: two rounds, after which the halves are back in place. */
  lemma TwoRounds<W>(xor: Xor<W>, f: RoundFunction<W>, keys: seq<W>, n: nat, a: W, b: W, a': W, b': W)
    requires n + 2 <= |keys|
    requires b' == Mix(xor, f, keys[n], a, b) && a' == Mix(xor, f, keys[n + 1], b', a)
    ensures Rounds(xor, f, keys[n..], a, b) == Rounds(xor, f, keys[n + 2..], a', b')
  {
    assert keys[n..][1..] == keys[n + 1..];
    assert keys[n + 1..][1..] == keys[n + 2..];
  }

  // ---------------------------------------------------------------- round by round

  /** The second argument of an exclusive or can be told from the result. */
  ghost predicate Tells<W(!new)>(xor: Xor<W>) {
    forall x, y, z :: xor(x, y) == xor(x, z) ==> y == z
  }

  /**
   The halves by the number of the round that makes them: number 0 is the right half, 1 the
   whitened left one, and each later one the one before last, xored with the round function
   of the last and the round's subkey.
   */
  function Half<W>(xor: Xor<W>, f: RoundFunction<W>, first: W, keys: seq<W>, l: W, r: W, i: nat): W
    requires i <= |keys| + 1
  {
    if i == 0 then r
    else if i == 1 then xor(l, first)
    else xor(Half(xor, f, first, keys, l, r, i - 2), xor(f(Half(xor, f, first, keys, l, r, i - 1)), keys[i - 2]))
  }

  /** After `i` rounds the two halves are the last two of these. */
  lemma {:induction false} RoundsByHalf<W>(xor: Xor<W>, f: RoundFunction<W>, first: W, keys: seq<W>, l: W, r: W, i: nat)
    requires i <= |keys|
    ensures Rounds(xor, f, keys[..i], xor(l, first), r) ==
            Halves(Half(xor, f, first, keys, l, r, i + 1), Half(xor, f, first, keys, l, r, i))
  {
    if i > 0 {
      RoundsByHalf(xor, f, first, keys, l, r, i - 1);
      assert keys[..i] == keys[..i - 1] + [keys[i - 1]];
      RoundsConcat(xor, f, keys[..i - 1], [keys[i - 1]], xor(l, first), r);
      assert [keys[i - 1]][1..] == [];
    }
  }

  /** A single different subkey makes every block come out different. */
  lemma {:induction false} EverySubkeyMatters<W(!new)>(
    xor: Xor<W>, f: RoundFunction<W>, keys: seq<W>, i: nat, other: W, a: W, b: W)
    requires Cancels(xor) && Tells(xor) && i < |keys| && other != keys[i]
    ensures Rounds(xor, f, keys, a, b) != Rounds(xor, f, keys[i := other], a, b)
  {
    var before, after := keys[..i], keys[i + 1..];
    var Halves(x, y) := Rounds(xor, f, before, a, b);
    KeyAt(xor, f, keys, i, keys[i], a, b);
    KeyAt(xor, f, keys, i, other, a, b);
    assert keys[i := keys[i]] == keys;
    var m1, m2 := Mix(xor, f, keys[i], x, y), Mix(xor, f, other, x, y);
    var k := keys[i];
    assert m1 == m2 ==> xor(f(x), k) == xor(f(x), other);
    RoundsUndo(xor, f, after, m1, x);
    RoundsUndo(xor, f, after, m2, x);
  }

  lemma KeyAt<W>(xor: Xor<W>, f: RoundFunction<W>, keys: seq<W>, i: nat, k: W, a: W, b: W)
    requires i < |keys|
    ensures var Halves(x, y) := Rounds(xor, f, keys[..i], a, b);
            Rounds(xor, f, keys[i := k], a, b) == Rounds(xor, f, keys[i + 1..], Mix(xor, f, k, x, y), x)
  {
    assert keys[i := k] == keys[..i] + ([k] + keys[i + 1..]);
    RoundsConcat(xor, f, keys[..i], [k] + keys[i + 1..], a, b);
    assert ([k] + keys[i + 1..])[1..] == keys[i + 1..];
  }

  lemma NetworkByHalf<W>(xor: Xor<W>, f: RoundFunction<W>, first: W, keys: seq<W>, last: W, l: W, r: W)
    ensures var n := |keys|;
            Network(xor, f, first, keys, last, l, r) ==
            Halves(xor(Half(xor, f, first, keys, l, r, n), last), Half(xor, f, first, keys, l, r, n + 1))
  {
    RoundsByHalf(xor, f, first, keys, l, r, |keys|);
    assert keys[..|keys|] == keys;
  }

  /** The same for the whole network: the two whitening subkeys matter too. */
  lemma NetworkUsesEverySubkey<W(!new)>(
    xor: Xor<W>, f: RoundFunction<W>, first: W, keys: seq<W>, last: W, other: W, l: W, r: W)
    requires Cancels(xor) && Tells(xor)
    ensures other != first ==> Network(xor, f, other, keys, last, l, r) != Network(xor, f, first, keys, last, l, r)
    ensures other != last ==> Network(xor, f, first, keys, other, l, r) != Network(xor, f, first, keys, last, l, r)
    ensures forall i | 0 <= i < |keys| && other != keys[i] ::
              Network(xor, f, first, keys[i := other], last, l, r) != Network(xor, f, first, keys, last, l, r)
  {
    var a := xor(l, first);
    RoundsUndo(xor, f, keys, a, r);
    RoundsUndo(xor, f, keys, xor(l, other), r);
    var h, h' := Rounds(xor, f, keys, a, r), Rounds(xor, f, keys, xor(l, other), r);
    assert h.r == xor(xor(h.r, last), last) && h'.r == xor(xor(h'.r, last), last);
    forall i | 0 <= i < |keys| && other != keys[i]
      ensures Network(xor, f, first, keys[i := other], last, l, r) != Network(xor, f, first, keys, last, l, r)
    {
      EverySubkeyMatters(xor, f, keys, i, other, a, r);
      var g := Rounds(xor, f, keys[i := other], a, r);
      assert g.r == xor(xor(g.r, last), last);
    }
  }

  // ---------------------------------------------------------------- on 32-bit words

  const XOR: Xor<bv32> := (x: bv32, y: bv32) => x ^ y

  function RoundFunctionOf(s: seq<bv32>): RoundFunction<bv32>
    requires |s| == S_SIZE
  {
    x => F(s, x)
  }

  function Encipher(c: Context, l: bv32, r: bv32): Halves<bv32> {
    Network(XOR, RoundFunctionOf(c.S), c.P[0], c.P[1..17], c.P[17], l, r)
  }

  /** The same network with the subkeys taken in reverse order. */
  function Decipher(c: Context, l: bv32, r: bv32): Halves<bv32> {
    Network(XOR, RoundFunctionOf(c.S), c.P[17], Reversed(c.P[1..17]), c.P[0], l, r)
  }

  lemma XorCancels()
    ensures Cancels(XOR)
  {
    forall x, y ensures XOR(XOR(x, y), y) == x {
      assert (x ^ y) ^ y == x;
    }
  }

  /** Deciphering undoes enciphering, whatever the tables. */
  lemma DecipherUndoesEncipher(c: Context, l: bv32, r: bv32)
    ensures var Halves(x, y) := Encipher(c, l, r); Decipher(c, x, y) == Halves(l, r)
  {
    XorCancels();
    NetworkUndo(XOR, RoundFunctionOf(c.S), c.P[0], c.P[1..17], c.P[17], l, r);
  }

  lemma XorTells()
    ensures Tells(XOR)
  {
    forall x, y, z | XOR(x, y) == XOR(x, z) ensures y == z {
      WordXorTells(x, y, z);
    }
  }

  lemma WordXorTells(x: bv32, y: bv32, z: bv32)
    requires XorWord(x, y) == XorWord(x, z)
    ensures y == z
  {
  }

  /** The enciphered halves, in terms of the halves numbered by round. */
  function HalfOf(c: Context, l: bv32, r: bv32, i: nat): bv32
    requires i <= 17
  {
    Half(XOR, RoundFunctionOf(c.S), c.P[0], c.P[1..17], l, r, i)
  }

  lemma HalfStep(c: Context, l: bv32, r: bv32, i: nat)
    requires 1 <= i <= 16
    ensures HalfOf(c, l, r, i + 1) == HalfOf(c, l, r, i - 1) ^ (F(c.S, HalfOf(c, l, r, i)) ^ c.P[i])
  {
    hide F;
  }

  /** The cipher as a recurrence over its sixteen rounds; round `i` uses subkey `i`. */
  lemma EncipherByRounds(c: Context, l: bv32, r: bv32)
    ensures HalfOf(c, l, r, 0) == r && HalfOf(c, l, r, 1) == l ^ c.P[0]
    ensures forall i | 1 <= i <= 16 ::
              HalfOf(c, l, r, i + 1) == HalfOf(c, l, r, i - 1) ^ (F(c.S, HalfOf(c, l, r, i)) ^ c.P[i])
    ensures Encipher(c, l, r) == Halves(XOR(HalfOf(c, l, r, 16), c.P[17]), HalfOf(c, l, r, 17))
  {
    hide F, Half, Network, HalfOf;
    FirstHalves(c, l, r);
    forall i | 1 <= i <= 16
      ensures HalfOf(c, l, r, i + 1) == HalfOf(c, l, r, i - 1) ^ (F(c.S, HalfOf(c, l, r, i)) ^ c.P[i])
    {
      HalfStep(c, l, r, i);
    }
    LastHalves(c, l, r);
  }

  lemma FirstHalves(c: Context, l: bv32, r: bv32)
    ensures HalfOf(c, l, r, 0) == r && HalfOf(c, l, r, 1) == l ^ c.P[0]
  {
  }

  lemma LastHalves(c: Context, l: bv32, r: bv32)
    ensures Encipher(c, l, r) == Halves(XOR(HalfOf(c, l, r, 16), c.P[17]), HalfOf(c, l, r, 17))
  {
    hide F, Half, Network, HalfOf, RoundFunctionOf;
    var f, keys, n: nat := RoundFunctionOf(c.S), c.P[1..17], 16;
    NetworkByHalf(XOR, f, c.P[0], keys, c.P[17], l, r);
    HalfOfIs(c, l, r, n);
    HalfOfIs(c, l, r, n + 1);
  }

  lemma XorIs(x: bv32, y: bv32)
    ensures XOR(x, y) == x ^ y
  {
  }

  lemma HalfOfIs(c: Context, l: bv32, r: bv32, i: nat)
    requires i <= 17
    ensures |c.P[1..17]| == 16
    ensures HalfOf(c, l, r, i) == Half(XOR, RoundFunctionOf(c.S), c.P[0], c.P[1..17], l, r, i)
  {
    hide F, Half, RoundFunctionOf;
  }

  /** Changing any one subkey changes how every block is enciphered. */
  lemma EncipherUsesEverySubkey(c: Context, i: nat, other: bv32, l: bv32, r: bv32)
    requires i < P_SIZE && other != c.P[i]
    ensures Encipher(Tables(c.P[i := other], c.S), l, r) != Encipher(c, l, r)
  {
    hide Network, F;
    XorCancels();
    XorTells();
    NetworkUsesEverySubkey(XOR, RoundFunctionOf(c.S), c.P[0], c.P[1..17], c.P[17], other, l, r);
    OtherSubkey(c.P, i, other);
  }

  lemma OtherSubkey(p: seq<bv32>, i: nat, other: bv32)
    requires |p| == P_SIZE && i < P_SIZE
    ensures var q := p[i := other];
            if i == 0 then q[0] == other && q[1..17] == p[1..17] && q[17] == p[17]
            else if i == 17 then q[0] == p[0] && q[1..17] == p[1..17] && q[17] == other
            else q[0] == p[0] && q[1..17] == p[1..17][i - 1 := other] && q[17] == p[17] && p[1..17][i - 1] == p[i]
  {
  }

  lemma ReversedTwice<T>(s: seq<T>)
    ensures Reversed(Reversed(s)) == s
  {
  }

  /** And the other way round: every block is the enciphering of its deciphering. */
  lemma EncipherUndoesDecipher(c: Context, l: bv32, r: bv32)
    ensures var Halves(x, y) := Decipher(c, l, r); Encipher(c, x, y) == Halves(l, r)
  {
    ReversedTwice(c.P[1..17]);
    XorCancels();
    NetworkUndo(XOR, RoundFunctionOf(c.S), c.P[17], Reversed(c.P[1..17]), c.P[0], l, r);
  }

  // ---------------------------------------------------------------- byte streams

  /** The byte at position `i` of the endless repetition of the first `n` bytes. */
  function CyclicByte(data: seq<bv8>, n: nat, i: nat): bv8
    requires n <= |data| && 0 < |data|
  {
    if n == 0 then data[0] else data[i % n]
  }

  /** The `w`-th big-endian word of that endless stream. */
  function CyclicWord(data: seq<bv8>, n: nat, w: nat): bv32
    requires n <= |data| && 0 < |data|
  {
    BigEndian(CyclicBytes(data, n, 4 * w, 4))
  }

  /** `count` stream bytes from position `i`. */
  function CyclicBytes(data: seq<bv8>, n: nat, i: nat, count: nat): seq<bv8>
    requires n <= |data| && 0 < |data|
  {
    seq(count, k requires 0 <= k < count => CyclicByte(data, n, i + k))
  }

  /** Bytes shifted together, the first one highest. */
  function BigEndian(bytes: seq<bv8>): bv32 {
    if bytes == [] then 0 else Shifted(BigEndian(bytes[..|bytes| - 1]), bytes[|bytes| - 1])
  }

  function Shifted(temp: bv32, byte: bv8): bv32 {
    (temp << 8) | byte as bv32
  }

  /** Where `*current` stands after `i` bytes have been taken, starting from 0. */
  function Cursor(n: nat, i: nat): (j: nat)
    ensures i > 0 ==> j <= if n == 0 then 1 else n
  {
    if i == 0 then 0 else if n == 0 then 1 else (i - 1) % n + 1
  }

  /** Wrapping the cursor when it has run off the end walks the cyclic stream. */
  lemma CursorStep(data: seq<bv8>, n: nat, i: nat)
    requires n <= |data| && 0 < |data|
    ensures var j := if Cursor(n, i) >= n then 0 else Cursor(n, i);
            j < |data| && data[j] == CyclicByte(data, n, i) && j + 1 == Cursor(n, i + 1)
  {
    if n == 0 {
    } else if i == 0 {
      ModuloUnique(0, n, 0, 0);
    } else {
      NextModulo(i - 1, n);
    }
  }

  lemma NextModulo(i: nat, n: nat)
    requires n > 0
    ensures (i + 1) % n == if i % n + 1 == n then 0 else i % n + 1
  {
    var q, r := i / n, i % n;
    assert i + 1 == q * n + (r + 1);
    if r + 1 == n {
      assert i + 1 == (q + 1) * n;
      ModuloUnique(i + 1, n, q + 1, 0);
    } else {
      ModuloUnique(i + 1, n, q, r + 1);
    }
  }

  lemma MultipleBounds(d: int, n: int)
    requires n > 0
    ensures d >= 1 ==> d * n >= n
    ensures d <= -1 ==> d * n <= -n
  {
  }

  lemma ModuloUnique(i: nat, n: nat, q: nat, r: nat)
    requires n > 0 && r < n && i == q * n + r
    ensures i % n == r
  {
    var d := i / n - q;
    assert d * n == r - i % n;
    MultipleBounds(d, n);
  }

  /** `Blowfish_stream2word`: four bytes from the cursor, wrapping at `databytes`. */
  method StreamToWord(data: seq<bv8>, databytes: nat, current: nat, ghost w: nat) returns (temp: bv32, current': nat)
    requires databytes <= |data| && 0 < |data| && databytes < 0x1_0000
    requires current == Cursor(databytes, 4 * w)
    ensures temp == CyclicWord(data, databytes, w) && current' == Cursor(databytes, 4 * (w + 1))
  {
    temp := 0;
    var j := current;
    for i := 0 to 4
      invariant j == Cursor(databytes, 4 * w + i)
      invariant temp == BigEndian(CyclicBytes(data, databytes, 4 * w, i))
    {
      ghost var more := CyclicBytes(data, databytes, 4 * w, i + 1);
      assert more[..i] == CyclicBytes(data, databytes, 4 * w, i);
      CursorStep(data, databytes, 4 * w + i);
      if j >= databytes {
        j := 0;
      }
      temp := Shifted(temp, data[j]);
      j := j + 1;
    }
    current' := j;
  }

  // ---------------------------------------------------------------- the key schedules

  /** Every subkey xored with the next word of the cyclic key stream. */
  function XorKey(c: Context, key: seq<bv8>, n: nat): Context
    requires n <= |key| && 0 < |key|
  {
    Tables(seq(P_SIZE, i requires 0 <= i < P_SIZE => XorWord(c.P[i], CyclicWord(key, n, i))), c.S)
  }

  /** How many pairs there are to overwrite: 9 of subkeys, 512 of S-box entries. */
  function Pairs(c: Context): nat {
    (|c.P| + |c.S|) / 2
  }

  /** Overwrite pair `t`: the subkeys come first, then the S-boxes. */
  function Store(c: Context, t: nat, l: bv32, r: bv32): Context
    requires t < Pairs(c)
  {
    if t < 9 then Tables(c.P[2 * t := l][2 * t + 1 := r], c.S)
    else Tables(c.P, c.S[2 * (t - 9) := l][2 * (t - 9) + 1 := r])
  }

  /** The tables, and the running pair of words, in the course of a schedule. */
  datatype Progress = Progress(c: Context, l: bv32, r: bv32)

  /** The table entries in the order the schedules overwrite them: P, then the four S-boxes. */
  function Entry(c: Context, e: nat): bv32
    requires e < 18 + 4 * 256
  {
    if e < 18 then c.P[e] else c.S[e - 18]
  }

  /** Step `t` puts the left half at entry `2t`, the right one behind it, and leaves all others. */
  lemma StoredWhere(c: Context, t: nat, l: bv32, r: bv32, e: nat)
    requires t < 521 && e < 18 + 4 * 256
    ensures Pairs(c) == 521
    ensures Entry(Store(c, t, l, r), e) == if e == 2 * t then l else if e == 2 * t + 1 then r else Entry(c, e)
  {
  }

  /** Encipher a pair with the tables as they are now, then store it as pair `t`. */
  function Step(c: Context, t: nat, l: bv32, r: bv32): Progress
    requires t < Pairs(c)
  {
    var Halves(x, y) := Encipher(c, l, r);
    Progress(Store(c, t, x, y), x, y)
  }

  /** The first `t` steps of `Blowfish_expand0state`. */
  function Filled(c: Context, t: nat): Progress
    requires t <= Pairs(c)
  {
    if t == 0 then Progress(c, 0, 0)
    else
      var p := Filled(c, t - 1);
      Step(p.c, t - 1, p.l, p.r)
  }

  function XorWord(x: bv32, y: bv32): bv32 {
    x ^ y
  }

  /** The first `t` steps of `Blowfish_expandstate`: two words of salt are mixed in before each. */
  function SaltFilled(c: Context, t: nat, data: seq<bv8>, n: nat): Progress
    requires t <= Pairs(c) && n <= |data| && 0 < |data|
  {
    if t == 0 then Progress(c, 0, 0)
    else
      var p := SaltFilled(c, t - 1, data, n);
      Step(p.c, t - 1, XorWord(p.l, CyclicWord(data, n, 2 * (t - 1))), XorWord(p.r, CyclicWord(data, n, 2 * (t - 1) + 1)))
  }

  /** Where `Blowfish_expandstate` stands after `t` steps, salt cursor included. */
  ghost predicate SaltedSoFar(p: Progress, j: nat, c: Context, t: nat, data: seq<bv8>, n: nat)
    requires t <= Pairs(c) && n <= |data| && 0 < |data|
  {
    p == SaltFilled(c, t, data, n) && j == Cursor(n, 8 * t)
  }

  lemma SaltedAtStart(c: Context, data: seq<bv8>, n: nat)
    requires n <= |data| && 0 < |data|
    ensures SaltedSoFar(Progress(c, 0, 0), 0, c, 0, data, n)
  {
  }

  lemma SaltedStep(p: Progress, j: nat, c: Context, t: nat, data: seq<bv8>, n: nat)
    requires t < Pairs(c) && n <= |data| && 0 < |data| && SaltedSoFar(p, j, c, t, data, n)
    ensures t < Pairs(p.c) && j == Cursor(n, 4 * (2 * t))
    ensures SaltedSoFar(
              Step(p.c, t, XorWord(p.l, CyclicWord(data, n, 2 * t)), XorWord(p.r, CyclicWord(data, n, 2 * t + 1))),
              Cursor(n, 4 * (2 * t + 1 + 1)), c, t + 1, data, n)
  {
    hide Step, CyclicWord, Cursor;
  }

  lemma SaltedAtEnd(p: Progress, j: nat, c: Context, t: nat, data: seq<bv8>, n: nat)
    requires t <= Pairs(c) && n <= |data| && 0 < |data| && SaltedSoFar(p, j, c, t, data, n)
    ensures p.c == SaltFilled(c, t, data, n).c
  {
  }

  /**
   After `t` steps the first `2t` entries hold the pairs, in order, that the steps enciphered;
   the others are still as they were.
   */
  lemma {:induction false} FilledInOrder(c: Context, t: nat, u: nat)
    requires t <= 521 && u < 521
    ensures var now := Filled(c, t).c;
            if u < t then
              Entry(now, 2 * u) == Filled(c, u + 1).l && Entry(now, 2 * u + 1) == Filled(c, u + 1).r
            else Entry(now, 2 * u) == Entry(c, 2 * u) && Entry(now, 2 * u + 1) == Entry(c, 2 * u + 1)
  {
    hide Encipher, Entry, Store;
    if t > 0 {
      FilledInOrder(c, t - 1, u);
      var p := Filled(c, t - 1);
      var Halves(x, y) := Encipher(p.c, p.l, p.r);
      StoredWhere(p.c, t - 1, x, y, 2 * u);
      StoredWhere(p.c, t - 1, x, y, 2 * u + 1);
    }
  }

  /** Each step enciphers the pair before it with the tables as the steps before have left them. */
  lemma FilledStep(c: Context, t: nat)
    requires t < 521
    ensures Filled(c, 0) == Progress(c, 0, 0)
    ensures var p, q := Filled(c, t), Filled(c, t + 1);
            Halves(q.l, q.r) == Encipher(p.c, p.l, p.r)
  {
    hide Encipher, Store;
  }

  lemma {:induction false} SaltFilledInOrder(c: Context, t: nat, u: nat, data: seq<bv8>, n: nat)
    requires t <= 521 && u < t && n <= |data| && 0 < |data|
    ensures var now, p := SaltFilled(c, t, data, n).c, SaltFilled(c, u + 1, data, n);
            Entry(now, 2 * u) == p.l && Entry(now, 2 * u + 1) == p.r
  {
    hide SaltFilled, Encipher, Entry, Store, CyclicWord, XorWord;
    SaltFilledStep(c, t - 1, data, n);
    var p, q := SaltFilled(c, t - 1, data, n), SaltFilled(c, t, data, n);
    StoredWhere(p.c, t - 1, q.l, q.r, 2 * u);
    StoredWhere(p.c, t - 1, q.l, q.r, 2 * u + 1);
    if u < t - 1 { SaltFilledInOrder(c, t - 1, u, data, n); }
  }

  /** The pair that a salted step enciphers: the one before it, xored with the next two words of the salt. */
  lemma SaltFilledStep(c: Context, t: nat, data: seq<bv8>, n: nat)
    requires t < 521 && n <= |data| && 0 < |data|
    ensures SaltFilled(c, 0, data, n) == Progress(c, 0, 0)
    ensures var p, q := SaltFilled(c, t, data, n), SaltFilled(c, t + 1, data, n);
            && Halves(q.l, q.r) ==
               Encipher(p.c, XorWord(p.l, CyclicWord(data, n, 2 * t)), XorWord(p.r, CyclicWord(data, n, 2 * t + 1)))
            && q.c == Store(p.c, t, q.l, q.r)
  {
    hide Encipher, Store, CyclicWord, XorWord;
  }

  lemma EncipherInjective(c: Context, l: bv32, r: bv32, l': bv32, r': bv32)
    requires Encipher(c, l, r) == Encipher(c, l', r')
    ensures l == l' && r == r'
  {
    hide Encipher, Decipher;
    DecipherUndoesEncipher(c, l, r);
    DecipherUndoesEncipher(c, l', r');
  }

  lemma {:induction false} SaltedStepsSame(c: Context, t: nat, d1: seq<bv8>, n1: nat, d2: seq<bv8>, n2: nat)
    requires t <= 521 && n1 <= |d1| && 0 < |d1| && n2 <= |d2| && 0 < |d2|
    requires SaltFilled(c, 521, d1, n1).c == SaltFilled(c, 521, d2, n2).c
    ensures SaltFilled(c, t, d1, n1) == SaltFilled(c, t, d2, n2)
    ensures t < 521 ==> CyclicWord(d1, n1, 2 * t) == CyclicWord(d2, n2, 2 * t)
    ensures t < 521 ==> CyclicWord(d1, n1, 2 * t + 1) == CyclicWord(d2, n2, 2 * t + 1)
    decreases t
  {
    hide SaltFilled, Encipher, Store, CyclicWord, Entry, XorWord;
    ghost var all := 521;
    if t == 0 {
      SaltFilledStep(c, t, d1, n1);
      SaltFilledStep(c, t, d2, n2);
    } else {
      SaltedStepsSame(c, t - 1, d1, n1, d2, n2);
      SaltFilledStep(c, t - 1, d1, n1);
      SaltFilledStep(c, t - 1, d2, n2);
    }
    if t < 521 {
      SaltFilledInOrder(c, all, t, d1, n1);
      SaltFilledInOrder(c, all, t, d2, n2);
      SaltFilledStep(c, t, d1, n1);
      SaltFilledStep(c, t, d2, n2);
      var p := SaltFilled(c, t, d1, n1);
      var u1, v1 := CyclicWord(d1, n1, 2 * t), CyclicWord(d1, n1, 2 * t + 1);
      var u2, v2 := CyclicWord(d2, n2, 2 * t), CyclicWord(d2, n2, 2 * t + 1);
      SamePairSameWords(p.c, p.l, p.r, u1, v1, u2, v2);
    }
  }

  lemma SamePairSameWords(c: Context, l: bv32, r: bv32, u1: bv32, v1: bv32, u2: bv32, v2: bv32)
    requires Encipher(c, XorWord(l, u1), XorWord(r, v1)) == Encipher(c, XorWord(l, u2), XorWord(r, v2))
    ensures u1 == u2 && v1 == v2
  {
    hide Encipher, XorWord;
    EncipherInjective(c, XorWord(l, u1), XorWord(r, v1), XorWord(l, u2), XorWord(r, v2));
    WordXorTells(l, u1, u2);
    WordXorTells(r, v1, v2);
  }

  /** No two salts lead to the same state: the salted schedule's result tells the salt's stream. */
  lemma ExpandTellsSalt(c: Context, d1: seq<bv8>, n1: nat, d2: seq<bv8>, n2: nat, key: seq<bv8>, n: nat, w: nat)
    requires n1 <= |d1| && 0 < |d1| && n2 <= |d2| && 0 < |d2| && n <= |key| && 0 < |key| && w < 2 * 521
    requires Expand(c, d1, n1, key, n) == Expand(c, d2, n2, key, n)
    ensures CyclicWord(d1, n1, w) == CyclicWord(d2, n2, w)
  {
    hide SaltFilled, CyclicWord, XorKey;
    ghost var k := XorKey(c, key, n);
    assert Pairs(k) == 521;
    SaltedStepsSame(k, w / 2, d1, n1, d2, n2);
  }

  function Expand0(c: Context, key: seq<bv8>, n: nat): Context
    requires n <= |key| && 0 < |key|
  {
    Filled(XorKey(c, key, n), Pairs(c)).c
  }

  function Expand(c: Context, data: seq<bv8>, dn: nat, key: seq<bv8>, n: nat): Context
    requires dn <= |data| && 0 < |data| && n <= |key| && 0 < |key|
  {
    SaltFilled(XorKey(c, key, n), Pairs(c), data, dn).c
  }

  lemma ZeroWord(data: seq<bv8>, n: nat, w: nat)
    requires n <= |data| && 0 < |data| && forall i | 0 <= i < |data| :: data[i] == 0
    ensures CyclicWord(data, n, w) == 0
  {
    var bytes := CyclicBytes(data, n, 4 * w, 4);
    forall k | 0 <= k < |bytes| ensures bytes[k] == 0 {
      assert bytes[k] == CyclicByte(data, n, 4 * w + k);
    }
    ZeroBytes(bytes);
  }

  lemma {:induction false} ZeroBytes(bytes: seq<bv8>)
    requires forall i | 0 <= i < |bytes| :: bytes[i] == 0
    ensures BigEndian(bytes) == 0
  {
    if bytes != [] {
      ZeroBytes(bytes[..|bytes| - 1]);
      assert Shifted(0, 0) == 0;
    }
  }

  lemma XorZero(x: bv32)
    ensures XorWord(x, 0) == x
  {
  }

  lemma {:induction false} ZeroSaltFilled(c: Context, t: nat, data: seq<bv8>, n: nat)
    requires t <= Pairs(c) && n <= |data| && 0 < |data| && forall i | 0 <= i < |data| :: data[i] == 0
    ensures SaltFilled(c, t, data, n) == Filled(c, t)
  {
    hide Encipher, BigEndian;
    if t > 0 {
      ZeroSaltFilled(c, t - 1, data, n);
      var p := Filled(c, t - 1);
      ZeroWord(data, n, 2 * (t - 1));
      ZeroWord(data, n, 2 * (t - 1) + 1);
      XorZero(p.l);
      XorZero(p.r);
    }
  }

  /** The fast form refines the general one: no salt is the same as a salt of zero bytes. */
  lemma Expand0IsExpandWithZeroSalt(c: Context, zeros: seq<bv8>, dn: nat, key: seq<bv8>, n: nat)
    requires dn <= |zeros| && 0 < |zeros| && forall i | 0 <= i < |zeros| :: zeros[i] == 0
    requires n <= |key| && 0 < |key|
    ensures Expand(c, zeros, dn, key, n) == Expand0(c, key, n)
  {
    ZeroSaltFilled(XorKey(c, key, n), Pairs(c), zeros, dn);
  }

  /** Two keys give the same first 72 stream bytes. */
  ghost predicate SameKeyStream(key1: seq<bv8>, n1: nat, key2: seq<bv8>, n2: nat)
    requires n1 <= |key1| && 0 < |key1| && n2 <= |key2| && 0 < |key2|
  {
    forall i: nat | i < 72 :: CyclicByte(key1, n1, i) == CyclicByte(key2, n2, i)
  }

  /** A key enters both schedules only through the first 72 bytes of its cyclic stream. */
  lemma SchedulesDependOnKeyStream(c: Context, data: seq<bv8>, dn: nat, key1: seq<bv8>, n1: nat, key2: seq<bv8>, n2: nat)
    requires dn <= |data| && 0 < |data|
    requires n1 <= |key1| && 0 < |key1| && n2 <= |key2| && 0 < |key2|
    requires SameKeyStream(key1, n1, key2, n2)
    ensures Expand(c, data, dn, key1, n1) == Expand(c, data, dn, key2, n2)
    ensures Expand0(c, key1, n1) == Expand0(c, key2, n2)
  {
    forall w | 0 <= w < P_SIZE ensures CyclicWord(key1, n1, w) == CyclicWord(key2, n2, w) {
      assert CyclicBytes(key1, n1, 4 * w, 4) == CyclicBytes(key2, n2, 4 * w, 4);
    }
    assert XorKey(c, key1, n1).P == XorKey(c, key2, n2).P;
  }

  // ---------------------------------------------------------------- the mutable state

  /** The body of `Blowfish_encipher`, its sixteen rounds written out in pairs. */
  method EncipherWith<W(0)>(xor: Xor<W>, f: RoundFunction<W>, p: seq<W>, l: W, r: W) returns (xl: W, xr: W)
    requires |p| == P_SIZE
    ensures Halves(xl, xr) == Network(xor, f, p[0], p[1..17], p[17], l, r)
  {
    ghost var keys := p[1..17];
    var a0, b0 := xor(l, p[0]), r;
    var b1 := Mix(xor, f, p[1], a0, b0); var a1 := Mix(xor, f, p[2], b1, a0);
    TwoRounds(xor, f, keys, 0, a0, b0, a1, b1);
    var b2 := Mix(xor, f, p[3], a1, b1); var a2 := Mix(xor, f, p[4], b2, a1);
    TwoRounds(xor, f, keys, 2, a1, b1, a2, b2);
    var b3 := Mix(xor, f, p[5], a2, b2); var a3 := Mix(xor, f, p[6], b3, a2);
    TwoRounds(xor, f, keys, 4, a2, b2, a3, b3);
    var b4 := Mix(xor, f, p[7], a3, b3); var a4 := Mix(xor, f, p[8], b4, a3);
    TwoRounds(xor, f, keys, 6, a3, b3, a4, b4);
    var b5 := Mix(xor, f, p[9], a4, b4); var a5 := Mix(xor, f, p[10], b5, a4);
    TwoRounds(xor, f, keys, 8, a4, b4, a5, b5);
    var b6 := Mix(xor, f, p[11], a5, b5); var a6 := Mix(xor, f, p[12], b6, a5);
    TwoRounds(xor, f, keys, 10, a5, b5, a6, b6);
    var b7 := Mix(xor, f, p[13], a6, b6); var a7 := Mix(xor, f, p[14], b7, a6);
    TwoRounds(xor, f, keys, 12, a6, b6, a7, b7);
    var b8 := Mix(xor, f, p[15], a7, b7); var a8 := Mix(xor, f, p[16], b8, a7);
    TwoRounds(xor, f, keys, 14, a7, b7, a8, b8);
    assert keys[0..] == keys && keys[16..] == [];
    xl, xr := xor(b8, p[17]), a8;
  }

  class BlowfishState {
    const P: array<bv32>
    const S: array<bv32>

    ghost predicate Valid()
    {
      P.Length == P_SIZE && S.Length == S_SIZE && P != S
    }

    ghost function Value(): Context
      requires Valid()
      reads P, S
    {
      Tables(P[..], S[..])
    }

    /** `Blowfish_initstate`: copies the given tables. */
    constructor (init: Context)
      ensures Valid() && Value() == init && fresh(P) && fresh(S)
    {
      P := new bv32[P_SIZE](i requires 0 <= i < P_SIZE => init.P[i]);
      S := new bv32[S_SIZE](i requires 0 <= i < S_SIZE => init.S[i]);
      new;
      assert P[..] == init.P && S[..] == init.S;
    }

    method EncipherHalves(l: bv32, r: bv32) returns (xl: bv32, xr: bv32)
      requires Valid()
      ensures Halves(xl, xr) == Encipher(Value(), l, r)
    {
      xl, xr := EncipherWith(XOR, RoundFunctionOf(S[..]), P[..], l, r);
      assert P[..][1..17] == P[1..17];
    }

    method DecipherHalves(l: bv32, r: bv32) returns (xl: bv32, xr: bv32)
      requires Valid()
      ensures Halves(xl, xr) == Decipher(Value(), l, r)
    {
      var p := Reversed(P[..]);
      xl, xr := EncipherWith(XOR, RoundFunctionOf(S[..]), p, l, r);
      assert p[1..17] == Reversed(P[1..17]);
      assert P[..][1..17] == P[1..17];
    }

    /** The first loop of both schedules: `c->P[i] ^= word`. */
    method XorKeyIntoP(key: seq<bv8>, keybytes: nat)
      requires Valid() && keybytes <= |key| && 0 < |key| && keybytes < 0x1_0000
      modifies P
      ensures Value() == XorKey(old(Value()), key, keybytes)
    {
      var j := 0;
      for i := 0 to P_SIZE
        invariant j == Cursor(keybytes, 4 * i)
        invariant forall k | 0 <= k < P_SIZE ::
            P[k] == if k < i then old(P[k]) ^ CyclicWord(key, keybytes, k) else old(P[k])
        invariant S[..] == old(S[..])
      {
        var temp;
        temp, j := StreamToWord(key, keybytes, j, i);
        P[i] := P[i] ^ temp;
      }
      assert P[..] == XorKey(old(Value()), key, keybytes).P;
    }

    /** Encipher the running pair and overwrite the pair that step `t` is about. */
    method StepInPlace(t: nat, l: bv32, r: bv32) returns (l': bv32, r': bv32)
      requires Valid() && t < Pairs(Value())
      modifies P, S
      ensures Progress(Value(), l', r') == Step(old(Value()), t, l, r)
    {
      l', r' := EncipherHalves(l, r);
      if t < 9 {
        P[2 * t] := l';
        P[2 * t + 1] := r';
        assert P[..] == old(P[..])[2 * t := l'][2 * t + 1 := r'] && S[..] == old(S[..]);
      } else {
        S[2 * (t - 9)] := l';
        S[2 * (t - 9) + 1] := r';
        assert S[..] == old(S[..])[2 * (t - 9) := l'][2 * (t - 9) + 1 := r'] && P[..] == old(P[..]);
      }
    }

    /** `Blowfish_expand0state`. */
    method Expand0State(key: seq<bv8>, keybytes: nat)
      requires Valid() && keybytes <= |key| && 0 < |key| && keybytes < 0x1_0000
      modifies P, S
      ensures Value() == Expand0(old(Value()), key, keybytes)
    {
      hide Encipher, Step, XorKey, Store;
      XorKeyIntoP(key, keybytes);
      ghost var c, t: nat := Value(), 0;
      var datal: bv32, datar: bv32 := 0, 0;
      var i := 0;
      while i < N + 2
        invariant i == 2 * t && t <= 9
        invariant Progress(Value(), datal, datar) == Filled(c, t)
      {
        datal, datar := StepInPlace(i / 2, datal, datar);
        i, t := i + 2, t + 1;
      }
      i := 0;
      while i < 4
        invariant i <= 4 && t == 9 + 128 * i
        invariant Progress(Value(), datal, datar) == Filled(c, t)
      {
        var k := 0;
        while k < 256
          invariant k == 2 * (t - 9 - 128 * i) && 9 + 128 * i <= t <= 9 + 128 * (i + 1)
          invariant Progress(Value(), datal, datar) == Filled(c, t)
        {
          datal, datar := StepInPlace(9 + 128 * i + k / 2, datal, datar);
          k, t := k + 2, t + 1;
        }
        i := i + 1;
      }
    }

    /** `Blowfish_expandstate`. */
    method ExpandState(data: seq<bv8>, databytes: nat, key: seq<bv8>, keybytes: nat)
      requires Valid() && keybytes <= |key| && 0 < |key| && keybytes < 0x1_0000
      requires databytes <= |data| && 0 < |data| && databytes < 0x1_0000
      modifies P, S
      ensures Value() == Expand(old(Value()), data, databytes, key, keybytes)
    {
      hide SaltedSoFar, SaltFilled, XorKey, Step;
      XorKeyIntoP(key, keybytes);
      ghost var c, t: nat := Value(), 0;
      var datal: bv32, datar: bv32, j: nat := 0, 0, 0;
      SaltedAtStart(c, data, databytes);
      var i := 0;
      while i < N + 2
        invariant i == 2 * t && t <= 9
        invariant SaltedSoFar(Progress(Value(), datal, datar), j, c, t, data, databytes)
      {
        datal, datar, j := SaltedStepInPlace(c, i / 2, datal, datar, data, databytes, j);
        i, t := i + 2, t + 1;
      }
      i := 0;
      while i < 4
        invariant i <= 4 && t == 9 + 128 * i
        invariant SaltedSoFar(Progress(Value(), datal, datar), j, c, t, data, databytes)
      {
        var k := 0;
        while k < 256
          invariant k == 2 * (t - 9 - 128 * i) && 9 + 128 * i <= t <= 9 + 128 * (i + 1)
          invariant SaltedSoFar(Progress(Value(), datal, datar), j, c, t, data, databytes)
        {
          datal, datar, j := SaltedStepInPlace(c, 9 + 128 * i + k / 2, datal, datar, data, databytes, j);
          k, t := k + 2, t + 1;
        }
        i := i + 1;
      }
      SaltedAtEnd(Progress(Value(), datal, datar), j, c, t, data, databytes);
    }

    /** The loop body of `Blowfish_expandstate`: two words of salt, one enciphering, two stores. */
    method SaltedStepInPlace(ghost c: Context, t: nat, l: bv32, r: bv32, data: seq<bv8>, databytes: nat, current: nat)
      returns (l': bv32, r': bv32, j: nat)
      requires Valid() && t < Pairs(c)
      requires databytes <= |data| && 0 < |data| && databytes < 0x1_0000
      requires SaltedSoFar(Progress(Value(), l, r), current, c, t, data, databytes)
      modifies P, S
      ensures SaltedSoFar(Progress(Value(), l', r'), j, c, t + 1, data, databytes)
    {
      hide Step, SaltedSoFar, CyclicWord;
      SaltedStep(Progress(Value(), l, r), current, c, t, data, databytes);
      var wl, wr;
      wl, j := StreamToWord(data, databytes, current, 2 * t);
      wr, j := StreamToWord(data, databytes, j, 2 * t + 1);
      l', r' := StepInPlace(t, l ^ wl, r ^ wr);
    }
  }
}
