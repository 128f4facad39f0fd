/**
 bcrypt: hashing, settings, and checking a password against a stored hash.

 The text of a hash is its own setting: version, minor, cost, salt, then the ciphertext.
 C strings are Dafny strings; reading at or past the end gives NUL. Bytes of the salt
 buffer that the setting's text fails to decode are whatever the buffer held: `junk`.
 The pi tables are a parameter `init`, and so is the random seed.
 */
module Bcrypt {
  import opened Wrappers
  import opened Blowfish
  import opened BlowfishModes
  import opened BcryptBase64
  import opened Sequences
  import opened ByteNumbers
  import opened CyclicStreams

  const VERSION := '2'
  const MAXSALT := 16
  const MINROUNDS := 16
  const ORPHEAN: string := "OrpheanBeholderScryDoubt"

  type Salt = s: seq<bv8> | |s| == MAXSALT witness seq(MAXSALT, _ => 0)

  /** Characters of a C string as bytes. */
  function Bytes(s: string): (b: seq<bv8>)
    ensures |b| == |s|
  {
    seq(|s|, i requires 0 <= i < |s| => ByteOfChar(s[i]))
  }

  function ByteOfChar(c: char): bv8 {
    (c as int % 256) as bv8
  }

  lemma ByteOfCharInjective(c: char, d: char)
    requires c as int < 256 && d as int < 256 && ByteOfChar(c) == ByteOfChar(d)
    ensures c == d
  {
    ByteOfInt(c as int);
    ByteOfInt(d as int);
  }

  /** Texts of 8-bit characters have the same bytes exactly when they are the same. */
  lemma {:induction false} SameBytesExactlyWhen(p: string, q: string)
    requires (forall i | 0 <= i < |p| :: p[i] as int < 256) && forall i | 0 <= i < |q| :: q[i] as int < 256
    ensures Bytes(p) == Bytes(q) <==> p == q
  {
    hide ByteOfChar;
    if Bytes(p) == Bytes(q) {
      forall i | 0 <= i < |p| ensures p[i] == q[i] {
        assert Bytes(p)[i] == Bytes(q)[i];
        ByteOfCharInjective(p[i], q[i]);
      }
    }
  }

  // ---------------------------------------------------------------- settings

  function StrLen(s: string, from: nat): nat
    decreases |s| - from
  {
    if CharAt(s, from) == '\0' then 0 else 1 + StrLen(s, from + 1)
  }

  /** The characters up to the first NUL. */
  lemma {:induction false} StrLenIs(s: string, from: nat)
    requires from <= |s|
    ensures from + StrLen(s, from) <= |s|
    ensures forall i | from <= i < from + StrLen(s, from) :: s[i] != '\0'
    ensures CharAt(s, from + StrLen(s, from)) == '\0'
    decreases |s| - from
  {
    if CharAt(s, from) != '\0' { StrLenIs(s, from + 1); }
  }

  predicate IsDigitChar(c: char) {
    '0' <= c <= '9'
  }

  function AtoiDigits(s: string, i: nat, value: nat): nat
    decreases |s| - i
  {
    if IsDigitChar(CharAt(s, i)) then AtoiDigits(s, i + 1, 10 * value + (s[i] as int - '0' as int)) else value
  }

  predicate IsSpaceChar(c: char) {
    c == ' ' || 9 as char <= c <= 13 as char
  }

  /** `atoi`: white space, a sign, digits; 0 if there are none. */
  function Atoi(s: string, i: nat): int
    decreases |s| - i
  {
    if IsSpaceChar(CharAt(s, i)) then Atoi(s, i + 1)
    else if CharAt(s, i) == '-' then 0 - AtoiDigits(s, i + 1, 0)
    else if CharAt(s, i) == '+' then AtoiDigits(s, i + 1, 0)
    else AtoiDigits(s, i, 0)
  }

  /** minor: 'a', 'b' or none; logr: the cost; at: where the salt's text begins. */
  datatype Setting = Setting(minor: Option<char>, logr: nat, at: nat)

  /** Greater as a signed 8-bit char. */
  predicate SignedGreater(c: char, d: char) {
    d < c && c as int < 128
  }

  /** The checks at the head of `node_bcrypt`, in order; None is the error exit. */
  function ParseSetting(s: string): Option<Setting> {
    if SignedGreater(CharAt(s, 1), VERSION) then None
    else if CharAt(s, 2) != '$' && CharAt(s, 2) != 'a' && CharAt(s, 2) != 'b' then None
    else
      var minor := if CharAt(s, 2) == '$' then None else Some(CharAt(s, 2));
      var at := if minor.Some? then 4 else 3;
      var n := Atoi(s, at);
      if CharAt(s, at + 2) != '$' || n > 31 || n < 0 || Power2(n) < MINROUNDS then None
      else if StrLen(s, at + 3) * 3 / 4 < MAXSALT then None
      else Some(Setting(minor, n, at + 3))
  }

  function Power2(n: nat): nat {
    if n == 0 then 1 else 2 * Power2(n - 1)
  }

  /** The salt buffer after decoding into it. */
  function SaltOf(s: string, at: nat, junk: Salt): Salt {
    var d := Decoded(s, at, MAXSALT);
    d + junk[|d|..]
  }

  // ---------------------------------------------------------------- the hash

  /** How many key bytes enter the key schedule. The key's buffer ends in a NUL. */
  function KeyLength(minor: Option<char>, length: nat): nat {
    match minor
    case None => length % 256
    case Some('a') => (length + 1) % 256
    case Some(_) => (if length > 72 then 72 else length) + 1
  }

  /** The state after `k` rounds of expanding with the key and with the salt. */
  function Stretched(c: Context, key: seq<bv8>, n: nat, salt: Salt, k: nat): Context
    requires n <= |key| && 0 < |key|
  {
    if k == 0 then c else Expand0(Expand0(Stretched(c, key, n, salt, k - 1), key, n), salt, MAXSALT)
  }

  /** Words enciphered `k` times over. */
  function Repeated(c: Context, ws: seq<bv32>, k: nat): (r: seq<bv32>)
    requires |ws| % 2 == 0
    ensures |r| == |ws|
  {
    if k == 0 then ws else EncPairs(c, Repeated(c, ws, k - 1))
  }

  function FirstWords(): (ws: seq<bv32>)
    ensures |ws| == 6
  {
    seq(6, i requires 0 <= i < 6 => CyclicWord(Bytes(ORPHEAN), 24, i))
  }

  function BytesOfWords(ws: seq<bv32>): (b: seq<bv8>)
    ensures |b| == 4 * |ws|
  {
    if ws == [] then [] else BytesOf(ws[0]) + BytesOfWords(ws[1..])
  }

  function KeyBuffer(password: string): (key: seq<bv8>)
    ensures |key| == |password| + 1
  {
    Bytes(password) + [0]
  }

  lemma KeyLengthFits(minor: Option<char>, length: nat)
    ensures KeyLength(minor, length) <= length + 1
    ensures KeyLength(minor, length) < 256
  {
  }

  /** The ciphertext: what the key, the salt and the cost are turned into. */
  function Ciphertext(init: Context, key: seq<bv8>, n: nat, salt: Salt, logr: nat): (b: seq<bv8>)
    requires n <= |key| && 0 < |key|
    ensures |b| == 24
  {
    var c := Stretched(Expand(init, salt, MAXSALT, key, n), key, n, salt, Power2(logr));
    BytesOfWords(Repeated(c, FirstWords(), 64))
  }

  /** "%2.2u$" of a cost below 100. */
  function CostText(logr: nat): (r: string)
    requires logr < 100
    ensures |r| == 3
  {
    ['0' + (logr / 10) as char, '0' + (logr % 10) as char, '$']
  }

  function MinorText(minor: Option<char>): string {
    match minor
    case None => ""
    case Some(c) => [c]
  }

  function Prefix(minor: Option<char>, logr: nat): string
    requires logr < 100
  {
    ['$', VERSION] + MinorText(minor) + "$" + CostText(logr)
  }

  lemma ParsedCost(s: string)
    requires ParseSetting(s).Some?
    ensures 4 <= ParseSetting(s).value.logr <= 31
    ensures ParseSetting(s).value.minor in {None, Some('a'), Some('b')}
  {
    var n := ParseSetting(s).value.logr;
    assert n < 4 ==> Power2(n) <= 8 by {
      assert Power2(0) == 1 && Power2(1) == 2 && Power2(2) == 4 && Power2(3) == 8;
    }
  }

  /** What `node_bcrypt` writes: the hash, or ":" for a setting it rejects. */
  function Hashed(init: Context, password: string, s: string, junk: Salt): string {
    match ParseSetting(s)
    case None => ":"
    case Some(p) =>
      ParsedCost(s);
      KeyLengthFits(p.minor, |password|);
      var salt := SaltOf(s, p.at, junk);
      HashText(p.minor, p.logr, salt,
               Ciphertext(init, KeyBuffer(password), KeyLength(p.minor, |password|), salt, p.logr))
  }

  function HashText(minor: Option<char>, logr: nat, salt: Salt, cipher: seq<bv8>): string
    requires logr < 100 && |cipher| == 24
  {
    Prefix(minor, logr) + Encoded(salt) + Encoded(cipher[..23])
  }

  // ---------------------------------------------------------------- a hash is its own setting

  lemma AtoiOfCost(s: string, i: nat, logr: nat)
    requires logr < 100 && i + 3 <= |s| && s[i..i + 3] == CostText(logr)
    ensures Atoi(s, i) == logr && s[i + 2] == '$'
  {
    assert s[i] == s[i..i + 3][0] && s[i + 1] == s[i..i + 3][1] && s[i + 2] == s[i..i + 3][2];
    var d := logr / 10;
    assert AtoiDigits(s, i + 2, 10 * d + logr % 10) == logr;
    assert AtoiDigits(s, i + 1, d) == logr;
  }

  lemma {:induction false} StrLenAtLeast(s: string, from: nat, n: nat)
    requires from + n <= |s| && forall i | from <= i < from + n :: s[i] != '\0'
    ensures StrLen(s, from) >= n
    decreases n
  {
    if n > 0 { StrLenAtLeast(s, from + 1, n - 1); }
  }

  /** A prefix, an encoded salt and any tail read back as the minor, cost and salt they spell. */
  lemma SettingParses(minor: Option<char>, logr: nat, salt: Salt, tail: string, junk: Salt)
    requires 4 <= logr <= 31 && minor in {None, Some('a'), Some('b')}
    ensures var p := ParseSetting(Prefix(minor, logr) + Encoded(salt) + tail);
            && p == Some(Setting(minor, logr, |Prefix(minor, logr)|))
            && SaltOf(Prefix(minor, logr) + Encoded(salt) + tail, p.value.at, junk) == salt
  {
    hide Encoded, Decoded;
    var prefix := Prefix(minor, logr);
    var h := prefix + Encoded(salt) + tail;
    var at := |prefix| - 3;
    EncodedLength(salt);
    assert h[at..at + 3] == CostText(logr);
    AtoiOfCost(h, at, logr);
    assert h[1] == prefix[1] && h[2] == prefix[2];
    assert h[at + 3..at + 3 + 22] == Encoded(salt);
    assert forall i | 0 <= i < 22 :: h[at + 3 + i] == Encoded(salt)[i];
    StrLenAtLeast(h, at + 3, 22);
    DecodeEncoded(h, at + 3, salt);
    AtLeast16(logr);
  }

  lemma HashTextLength(minor: Option<char>, logr: nat, salt: Salt, cipher: seq<bv8>)
    requires logr < 100 && |cipher| == 24
    ensures |HashText(minor, logr, salt, cipher)| == if minor.None? then 59 else 60
  {
    EncodedLength(salt);
    EncodedLength(cipher[..23]);
  }

  lemma AtLeast16(n: nat)
    requires n >= 4
    ensures Power2(n) >= 16
  {
    if n == 4 {
      assert Power2(1) == 2 && Power2(2) == 4 && Power2(3) == 8 && Power2(4) == 16;
    } else {
      AtLeast16(n - 1);
    }
  }

  /**
   Hashing is a fixpoint on its own output: with any accepted setting, hashing again with
   the hash as the setting gives the same hash, whatever the salt buffer held either time.
   */
  lemma HashOfHash(init: Context, password: string, s: string, junk: Salt, junk': Salt)
    requires ParseSetting(s).Some?
    ensures var h := Hashed(init, password, s, junk);
            && Hashed(init, password, h, junk') == h
            && ParseSetting(h).Some?
            && ParseSetting(h).value.minor == ParseSetting(s).value.minor
            && ParseSetting(h).value.logr == ParseSetting(s).value.logr
            && |h| == (if ParseSetting(s).value.minor.None? then 59 else 60)
  {
    hide Ciphertext, SaltOf, Prefix, ParseSetting;
    ParsedCost(s);
    var p := ParseSetting(s).value;
    KeyLengthFits(p.minor, |password|);
    var salt := SaltOf(s, p.at, junk);
    var cipher := Ciphertext(init, KeyBuffer(password), KeyLength(p.minor, |password|), salt, p.logr);
    SettingParses(p.minor, p.logr, salt, Encoded(cipher[..23]), junk');
    HashTextLength(p.minor, p.logr, salt, cipher);
  }

  // ---------------------------------------------------------------- the password interface

  /** A 61-byte string of NULs that `node_bcrypt` wrote `t` into, cut to 60. */
  function Resized(t: string): string {
    (t + seq(61, _ => '\0'))[..60]
  }

  /** `validatePassword`. */
  predicate Validates(init: Context, password: string, hash: string, junk: Salt) {
    hash == Resized(Hashed(init, password, hash, junk))
  }

  /** `bcrypt_gensalt`: the cost is clamped, the version's minor written as given. */
  function GenSalt(minor: char, logRounds: nat, seed: Salt): string {
    Prefix(Some(minor), Clamped(logRounds)) + Encoded(seed)
  }

  function Clamped(logRounds: nat): nat {
    if logRounds < 4 then 4 else if logRounds > 31 then 31 else logRounds
  }

  /** `generateHash`, for the seed that was drawn. The cost passes through an 8-bit parameter. */
  function GeneratedHash(init: Context, password: string, rounds: nat, seed: Salt, junk: Salt): string {
    Resized(Hashed(init, password, GenSalt('b', rounds % 256, seed), junk))
  }

  /** `bcrypt_get_rounds`. */
  function GetRounds(hash: string): nat {
    if CharAt(hash, 0) != '$' || CharAt(hash, 1) == '\0' then 0
    else
      var i := if CharAt(hash, 2) != '\0' && CharAt(hash, 2) != '$' then 3 else 2;
      if CharAt(hash, i) != '$' then 0 else Atoi(hash, i + 1) % 0x1_0000_0000
  }

  lemma ResizedSame(t: string)
    ensures |t| == 60 ==> Resized(t) == t
    ensures |Resized(t)| == 60
  {
  }

  /**
   A hash validates the password it was made from exactly when its setting names a minor
   version: without one the text is a character short of the 60 that are compared.
   */
  lemma ValidatesOwnHashExactlyWhen(init: Context, password: string, s: string, junk: Salt, junk': Salt)
    requires ParseSetting(s).Some?
    ensures Validates(init, password, Hashed(init, password, s, junk), junk') <==> ParseSetting(s).value.minor.Some?
  {
    hide Hashed, ParseSetting, Resized;
    HashOfHash(init, password, s, junk, junk');
    ResizedSame(Hashed(init, password, s, junk));
  }

  /** The hash text of a password for a minor version or none, a cost and a salt, in 60 characters. */
  predicate IsHashOf(init: Context, password: string, hash: string, minor: Option<char>, logr: nat, salt: Salt) {
    && 4 <= logr <= 31 && minor in {None, Some('a'), Some('b')}
    && (KeyLengthFits(minor, |password|);
        hash == Resized(HashText(minor, logr, salt,
                                                 Ciphertext(init, KeyBuffer(password), KeyLength(minor, |password|), salt, logr))))
  }

  /**
   Which stored texts a password validates against: its hashes, one for each minor version or
   none, cost and salt; and the error text ":" filled up to 60 characters, which every
   password validates against.
   */
  lemma {:induction false} ValidatesExactlyWhen(init: Context, password: string, hash: string, junk: Salt)
    ensures Validates(init, password, hash, junk) <==>
            hash == Resized(":") || exists minor, logr, salt :: IsHashOf(init, password, hash, minor, logr, salt)
  {
    hide ParseSetting, Resized, SaltOf, HashText, Ciphertext, KeyBuffer, KeyLength;
    if Validates(init, password, hash, junk) && ParseSetting(hash).Some? {
      ParsedCost(hash);
      var p := ParseSetting(hash).value;
      assert IsHashOf(init, password, hash, p.minor, p.logr, SaltOf(hash, p.at, junk));
    }
    if hash == Resized(":") {
      FilledErrorTextValidates(init, password, junk);
    }
    if minor, logr, salt :| IsHashOf(init, password, hash, minor, logr, salt) {
      HashesValidate(init, password, minor, logr, salt, junk);
    }
  }

  /** The error text is no setting, so every password validates against it. */
  lemma {:induction false} FilledErrorTextValidates(init: Context, password: string, junk: Salt)
    ensures Resized(":") == ":" + seq(59, _ => '\0')
    ensures ParseSetting(Resized(":")).None?
    ensures Validates(init, password, Resized(":"), junk)
  {
    var h := Resized(":");
    assert h == ":" + seq(59, _ => '\0');
    assert CharAt(h, 1) == '\0' && CharAt(h, 2) == '\0';
  }

  lemma HashesValidate(
    init: Context, password: string, minor: Option<char>, logr: nat, salt: Salt, junk: Salt)
    requires 4 <= logr <= 31 && minor in {None, Some('a'), Some('b')}
    ensures KeyLength(minor, |password|) <= |password| + 1
    ensures var cipher := Ciphertext(init, KeyBuffer(password), KeyLength(minor, |password|), salt, logr);
            Validates(init, password, Resized(HashText(minor, logr, salt, cipher)), junk)
  {
    hide ParseSetting, Resized, SaltOf, Prefix, Ciphertext, KeyBuffer, KeyLength, Encoded;
    KeyLengthFits(minor, |password|);
    var cipher := Ciphertext(init, KeyBuffer(password), KeyLength(minor, |password|), salt, logr);
    var text := HashText(minor, logr, salt, cipher);
    HashTextLength(minor, logr, salt, cipher);
    var fill := if minor.None? then "\0" else "";
    FilledUp(text, fill);
    Regroup(Prefix(minor, logr) + Encoded(salt), Encoded(cipher[..23]), fill);
    SettingParses(minor, logr, salt, Encoded(cipher[..23]) + fill, junk);
    ParsedCost(Resized(text));
  }

  lemma FilledUp(text: string, fill: string)
    requires (|text| == 60 && fill == "") || (|text| == 59 && fill == "\0")
    ensures Resized(text) == text + fill
  {
  }

  /** In particular a stored text that is no setting validates exactly when it is that error text. */
  lemma RejectedSettingValidatesExactlyWhen(init: Context, password: string, hash: string, junk: Salt)
    requires ParseSetting(hash).None?
    ensures Validates(init, password, hash, junk) <==> hash == Resized(":")
  {
  }

  lemma RoundsOfPrefix(minor: char, logr: nat, tail: string)
    requires logr < 100 && minor != '$' && minor != '\0'
    ensures GetRounds(Prefix(Some(minor), logr) + tail) == logr
  {
    var prefix := Prefix(Some(minor), logr);
    var h := prefix + tail;
    assert forall i | 0 <= i < 4 :: CharAt(h, i) == prefix[i];
    assert h[4..7] == CostText(logr);
    AtoiOfCost(h, 4, logr);
  }

  lemma ClampedRange(logRounds: nat)
    ensures 4 <= Clamped(logRounds) <= 31
    ensures Clamped(logRounds) == if logRounds < 4 then 4 else if logRounds > 31 then 31 else logRounds
  {
  }

  lemma RoundsWithoutMinor(logr: nat, tail: string)
    requires logr < 100
    ensures GetRounds(Prefix(None, logr) + tail) == logr
  {
    var prefix := Prefix(None, logr);
    var h := prefix + tail;
    assert forall i | 0 <= i < 3 :: CharAt(h, i) == prefix[i];
    assert h[3..6] == CostText(logr);
    AtoiOfCost(h, 3, logr);
  }

  /** Every generated hash validates its password and tells its clamped cost. */
  lemma GeneratedHashValidates(init: Context, password: string, rounds: nat, seed: Salt, junk: Salt, junk': Salt)
    ensures var h := GeneratedHash(init, password, rounds, seed, junk);
            && |h| == 60
            && Validates(init, password, h, junk')
            && GetRounds(h) == (if rounds % 256 < 4 then 4 else if rounds % 256 > 31 then 31 else rounds % 256)
  {
    hide ParseSetting, Resized, SaltOf, Prefix, Ciphertext, GetRounds, Clamped, Encoded, KeyBuffer, KeyLength;
    ClampedRange(rounds % 256);
    var r := Clamped(rounds % 256);
    var s := GenSalt('b', rounds % 256, seed);
    SettingParses(Some('b'), r, seed, "", junk);
    assert s + "" == s;
    HashOfHash(init, password, s, junk, junk');
    ResizedSame(Hashed(init, password, s, junk));
    KeyLengthFits(Some('b'), |password|);
    var cipher := Ciphertext(init, KeyBuffer(password), KeyLength(Some('b'), |password|), seed, r);
    assert Hashed(init, password, s, junk) == HashText(Some('b'), r, seed, cipher);
    RoundsOfPrefix('b', r, Encoded(seed) + Encoded(cipher[..23]));
    assert Prefix(Some('b'), r) + (Encoded(seed) + Encoded(cipher[..23])) == HashText(Some('b'), r, seed, cipher);
  }

  /** What a generated hash looks like: version 2b, the cost in two digits, the seed, the ciphertext. */
  lemma GeneratedHashText(init: Context, password: string, rounds: nat, seed: Salt, junk: Salt)
    ensures var h, cost := GeneratedHash(init, password, rounds, seed, junk), Clamped(rounds % 256);
            && |h| == 60
            && h[0] == '$' && h[1] == '2' && h[2] == 'b' && h[3] == '$'
            && h[4] as int == '0' as int + cost / 10 && h[5] as int == '0' as int + cost % 10 && h[6] == '$'
            && h[7..29] == Encoded(seed)
  {
    hide ParseSetting, Resized, SaltOf, Ciphertext, GetRounds, Clamped, Encoded, KeyBuffer, KeyLength, Prefix;
    ClampedRange(rounds % 256);
    var r, s := Clamped(rounds % 256), GenSalt('b', rounds % 256, seed);
    SettingParses(Some('b'), r, seed, "", junk);
    assert s + "" == s;
    KeyLengthFits(Some('b'), |password|);
    var cipher := Ciphertext(init, KeyBuffer(password), KeyLength(Some('b'), |password|), seed, r);
    HashTextLength(Some('b'), r, seed, cipher);
    ResizedSame(HashText(Some('b'), r, seed, cipher));
    EncodedLength(seed);
    PrefixText(r, Encoded(seed), Encoded(cipher[..23]));
  }

  lemma PrefixText(cost: nat, salt: string, tail: string)
    requires cost < 100 && |salt| == 22
    ensures var h := Prefix(Some('b'), cost) + salt + tail;
            && |h| >= 29
            && h[0] == '$' && h[1] == '2' && h[2] == 'b' && h[3] == '$'
            && h[4] as int == '0' as int + cost / 10 && h[5] as int == '0' as int + cost % 10 && h[6] == '$'
            && h[7..29] == salt
  {
    var p := Prefix(Some('b'), cost);
    var h := p + salt + tail;
    assert |p| == 7 && p[0] == '$' && p[1] == '2' && p[2] == 'b' && p[3] == '$' && p[4..] == CostText(cost);
    assert h[..7] == p;
    assert forall i | 0 <= i < 7 :: h[i] == p[i];
    assert p[4] == CostText(cost)[0] && p[5] == CostText(cost)[1] && p[6] == CostText(cost)[2];
  }

  /**
   Which texts are accepted as settings: the version is at most '2' as a signed byte; the
   minor is a, b or missing; the cost is 4 to 31 and a '$' stands two characters behind its
   start; and at least 22 characters follow.
   */
  lemma {:induction false} AcceptedExactlyWhen(s: string)
    ensures ParseSetting(s).Some? <==>
            && (CharAt(s, 1) <= '2' || CharAt(s, 1) as int >= 128)
            && CharAt(s, 2) in {'$', 'a', 'b'}
            && var at := if CharAt(s, 2) == '$' then 3 else 4;
            && CharAt(s, at + 2) == '$' && 4 <= Atoi(s, at) <= 31
            && StrLen(s, at + 3) >= 22
    ensures ParseSetting(s).Some? ==>
              ParseSetting(s).value ==
              if CharAt(s, 2) == '$' then Setting(None, Atoi(s, 3), 6) else Setting(Some(CharAt(s, 2)), Atoi(s, 4), 7)
  {
    hide Atoi, StrLen;
    var n := Atoi(s, if CharAt(s, 2) == '$' then 3 else 4);
    if n >= 4 { AtLeast16(n); }
    assert Power2(0) == 1 && Power2(1) == 2 && Power2(2) == 4 && Power2(3) == 8;
  }

  // ---------------------------------------------------------------- how the hash comes about

  lemma {:induction false} BytesOfWordsFrom(text: seq<bv8>, ws: seq<bv32>, i: nat)
    requires |text| == 4 * |ws| && i <= |ws| && forall k | 0 <= k < |ws| :: BytesOf(ws[k]) == text[4 * k..4 * k + 4]
    ensures BytesOfWords(ws[i..]) == text[4 * i..]
    decreases |ws| - i
  {
    hide BytesOf;
    if i < |ws| {
      BytesOfWordsFrom(text, ws, i + 1);
      assert ws[i..][0] == ws[i] && ws[i..][1..] == ws[i + 1..];
      assert text[4 * i..4 * i + 4] + text[4 * (i + 1)..] == text[4 * i..];
    } else {
      assert ws[i..] == [] && text[4 * i..] == [];
    }
  }

  /** The words enciphered are the bytes of a fixed text. */
  lemma FirstWordsSpell()
    ensures BytesOfWords(FirstWords()) == Bytes("OrpheanBeholderScryDoubt")
  {
    hide BytesOf, CyclicWord, BytesOfWords, Bytes;
    WordsSpell(Bytes(ORPHEAN), FirstWords());
  }

  lemma WordsSpell(text: seq<bv8>, ws: seq<bv32>)
    requires |text| == 24 && |ws| == 6 && forall k | 0 <= k < 6 :: ws[k] == CyclicWord(text, 24, k)
    ensures BytesOfWords(ws) == text
  {
    hide BytesOf, CyclicWord, BytesOfWords;
    forall k | 0 <= k < |ws| ensures BytesOf(ws[k]) == text[4 * k..4 * k + 4] {
      BytesOfCyclicWord(text, 24, k);
      StreamSlice(text, k);
    }
    BytesOfWordsFrom(text, ws, 0);
    assert ws[0..] == ws && text[4 * 0..] == text;
  }

  lemma StreamSlice(text: seq<bv8>, k: nat)
    requires |text| == 24 && k < 6
    ensures CyclicBytes(text, 24, 4 * k, 4) == text[4 * k..4 * k + 4]
  {
    var b, c := CyclicBytes(text, 24, 4 * k, 4), text[4 * k..4 * k + 4];
    forall j | 0 <= j < 4 ensures b[j] == c[j] {
      SmallRemainder(4 * k + j, 24);
      assert b[j] == CyclicByte(text, 24, 4 * k + j);
      assert (4 * k + j) % 24 == 4 * k + j;
    }
  }

  /** Words deciphered `k` times over. */
  function Undone(c: Context, ws: seq<bv32>, k: nat): (r: seq<bv32>)
    requires |ws| % 2 == 0
    decreases k
  {
    if k == 0 then ws else Undone(c, DecPairs(c, ws), k - 1)
  }

  lemma {:induction false} RepeatedUndone(c: Context, ws: seq<bv32>, k: nat)
    requires |ws| % 2 == 0
    ensures Undone(c, Repeated(c, ws, k), k) == ws
  {
    hide EncPairs, DecPairs;
    if k > 0 {
      PairsRoundTrip(c, Repeated(c, ws, k - 1));
      RepeatedUndone(c, ws, k - 1);
    }
  }

  /** Six words that spell a ciphertext, and, deciphered a number of times, the fixed text. */
  predicate Deciphers(c: Context, ws: seq<bv32>, times: nat, cipher: seq<bv8>) {
    && |ws| == 6
    && BytesOfWords(ws) == cipher
    && BytesOfWords(Undone(c, ws, times)) == Bytes("OrpheanBeholderScryDoubt")
  }

  /** A ciphertext is what, deciphered 64 times with the final state, gives the fixed text. */
  lemma CiphertextDeciphers(init: Context, key: seq<bv8>, n: nat, salt: Salt, logr: nat, times: nat)
    returns (ws: seq<bv32>)
    requires n <= |key| && 0 < |key| && times == 64
    ensures var c := Stretched(Expand(init, salt, 16, key, n), key, n, salt, Power2(logr));
            Deciphers(c, ws, times, Ciphertext(init, key, n, salt, logr))
  {
    hide Stretched, Expand, EncPairs, Undone, Repeated, BytesOfWords, Power2;
    var c := Stretched(Expand(init, salt, MAXSALT, key, n), key, n, salt, Power2(logr));
    ws := Repeated(c, FirstWords(), times);
    RepeatedUndone(c, FirstWords(), times);
    FirstWordsSpell();
  }

  /** The costly loop expands with the key and then with the salt, each time; 2^cost times. */
  lemma {:induction false} StretchedFromFront(c: Context, key: seq<bv8>, n: nat, salt: Salt, k: nat)
    requires n <= |key| && 0 < |key|
    ensures Stretched(c, key, n, salt, k + 1) == Stretched(Expand0(Expand0(c, key, n), salt, 16), key, n, salt, k)
  {
    hide Expand0;
    if k > 0 { StretchedFromFront(c, key, n, salt, k - 1); }
  }

  lemma {:induction false} CostDoubles(m: nat, n: nat)
    ensures Power2(0) == 1 && Power2(1) == 2 && Power2(m + n) == Power2(m) * Power2(n)
  {
    if m > 0 {
      CostDoubles(m - 1, n);
      assert Power2(m + n) == 2 * Power2(m - 1 + n);
    }
  }

  /** No two salts lead to the same state after the first key setup. */
  lemma DifferentSaltsDifferentStates(init: Context, s1: Salt, s2: Salt, key: seq<bv8>, n: nat)
    requires n <= |key| && 0 < |key| && s1 != s2
    ensures Expand(init, s1, 16, key, n) != Expand(init, s2, 16, key, n)
  {
    hide Expand, CyclicWord;
    if Expand(init, s1, 16, key, n) == Expand(init, s2, 16, key, n) {
      forall i | 0 <= i < 16 ensures s1[i] == s2[i] {
        ExpandTellsSalt(init, s1, 16, s2, 16, key, n, i / 4);
        SameWordSameBytes(s1, 16, s2, 16, i / 4);
        SmallRemainder(i, 16);
        assert CyclicByte(s1, 16, i) == CyclicByte(s2, 16, i);
      }
      assert false;
    }
  }

  // ---------------------------------------------------------------- what of a password counts

  /** A password's bytes, as far as the 72 bytes of key material reach. */
  function Truncated(b: seq<bv8>): seq<bv8> {
    if |b| > 72 then b[..72] else b
  }

  ghost predicate NulFree(password: string) {
    forall i | 0 <= i < |password| :: Bytes(password)[i] != 0
  }

  /** The key length does not wrap: always under 'b', under 'a' below 255 characters. */
  predicate LengthFits(minor: Option<char>, length: nat) {
    minor == Some('b') || (minor == Some('a') && length < 255)
  }

  lemma StreamStart(minor: Option<char>, password: string, i: nat)
    requires LengthFits(minor, |password|)
    ensures KeyLength(minor, |password|) <= |password| + 1
    ensures i < 72 && i <= |password| ==>
              CyclicByte(KeyBuffer(password), KeyLength(minor, |password|), i) == KeyBuffer(password)[i]
  {
    KeyLengthCovers(minor, |password|);
    hide KeyLength;
    if i < 72 && i <= |password| {
      SmallRemainder(i, KeyLength(minor, |password|));
    }
  }

  lemma KeyLengthCovers(minor: Option<char>, length: nat)
    requires LengthFits(minor, length)
    ensures KeyLength(minor, length) <= length + 1
    ensures KeyLength(minor, length) > (if length < 72 then length else 71)
  {
  }

  lemma SmallRemainder(i: nat, n: nat)
    requires i < n
    ensures i % n == i
  {
  }

  lemma SameTruncationSameStream(minor: Option<char>, p: string, q: string)
    requires LengthFits(minor, |p|) && LengthFits(minor, |q|)
    requires Truncated(Bytes(p)) == Truncated(Bytes(q))
    ensures KeyLength(minor, |p|) <= |p| + 1 && KeyLength(minor, |q|) <= |q| + 1
    ensures SameKeyStream(KeyBuffer(p), KeyLength(minor, |p|), KeyBuffer(q), KeyLength(minor, |q|))
  {
    StreamStart(minor, p, 0);
    StreamStart(minor, q, 0);
    if |p| < 72 {
      assert Bytes(p) == Bytes(q);
    } else {
      forall i: nat | i < 72
        ensures CyclicByte(KeyBuffer(p), KeyLength(minor, |p|), i) == CyclicByte(KeyBuffer(q), KeyLength(minor, |q|), i)
      {
        StreamStart(minor, p, i);
        StreamStart(minor, q, i);
        assert Bytes(p)[i] == Truncated(Bytes(p))[i] == Bytes(q)[i];
      }
    }
  }

  lemma KeyBufferBytes(p: string)
    ensures KeyBuffer(p)[|p|] == 0
    ensures forall i | 0 <= i < |p| :: KeyBuffer(p)[i] == Bytes(p)[i]
  {
  }

  lemma SameStreamSameTruncation(minor: Option<char>, p: string, q: string)
    requires LengthFits(minor, |p|) && LengthFits(minor, |q|) && NulFree(p) && NulFree(q)
    requires KeyLength(minor, |p|) <= |p| + 1 && KeyLength(minor, |q|) <= |q| + 1
    requires SameKeyStream(KeyBuffer(p), KeyLength(minor, |p|), KeyBuffer(q), KeyLength(minor, |q|))
    ensures Truncated(Bytes(p)) == Truncated(Bytes(q))
  {
    forall i: nat | i < 72 && i <= |p| && i <= |q| ensures KeyBuffer(p)[i] == KeyBuffer(q)[i] {
      StreamStart(minor, p, i);
      StreamStart(minor, q, i);
      assert CyclicByte(KeyBuffer(p), KeyLength(minor, |p|), i) == CyclicByte(KeyBuffer(q), KeyLength(minor, |q|), i);
    }
    KeyBufferBytes(p);
    KeyBufferBytes(q);
    if |p| < 72 && |p| < |q| {
      assert false;  // the NUL after p would be a byte of q
    }
    if |q| < 72 && |q| < |p| {
      assert false;
    }
    forall i: nat | i < 72 && i < |p| && i < |q| ensures Bytes(p)[i] == Bytes(q)[i] {
      assert KeyBuffer(p)[i] == Bytes(p)[i] && KeyBuffer(q)[i] == Bytes(q)[i];
    }
  }

  /**
   Where the NUL behind a password belongs to the key, NUL-free passwords feed the key
   schedule the same 72 bytes exactly when they agree up to their 72nd byte. In particular
   "ab" and "abab" do not.
   */
  lemma TerminatedKeysAgreeExactlyWhen(minor: Option<char>, p: string, q: string)
    requires LengthFits(minor, |p|) && LengthFits(minor, |q|) && NulFree(p) && NulFree(q)
    ensures KeyLength(minor, |p|) <= |p| + 1 && KeyLength(minor, |q|) <= |q| + 1
    ensures SameKeyStream(KeyBuffer(p), KeyLength(minor, |p|), KeyBuffer(q), KeyLength(minor, |q|)) <==>
            Truncated(Bytes(p)) == Truncated(Bytes(q))
  {
    StreamStart(minor, p, 0);
    StreamStart(minor, q, 0);
    if Truncated(Bytes(p)) == Truncated(Bytes(q)) {
      SameTruncationSameStream(minor, p, q);
    } else if SameKeyStream(KeyBuffer(p), KeyLength(minor, |p|), KeyBuffer(q), KeyLength(minor, |q|)) {
      SameStreamSameTruncation(minor, p, q);
    }
  }

  /**
   So under 'b' NUL-free passwords of at most 72 bytes that differ at all lead to different
   subkeys; and longer ones if they differ in their first 72 bytes.
   */
  lemma DifferentPasswordsDifferentSubkeys(init: Context, p: string, q: string)
    requires NulFree(p) && NulFree(q) && Truncated(Bytes(p)) != Truncated(Bytes(q))
    ensures KeyLength(Some('b'), |p|) <= |p| + 1 && KeyLength(Some('b'), |q|) <= |q| + 1
    ensures XorKey(init, KeyBuffer(p), KeyLength(Some('b'), |p|)) != XorKey(init, KeyBuffer(q), KeyLength(Some('b'), |q|))
  {
    hide XorKey, SameKeyStream, KeyBuffer, KeyLength;
    TerminatedKeysAgreeExactlyWhen(Some('b'), p, q);
    SubkeysSameExactlyWhen(
      init, KeyBuffer(p), KeyLength(Some('b'), |p|), KeyBuffer(q), KeyLength(Some('b'), |q|));
  }

  /** In particular any two different passwords of at most 72 characters. */
  lemma ShortPasswordsDifferentSubkeys(init: Context, p: string, q: string)
    requires p != q && |p| <= 72 && |q| <= 72
    requires forall i | 0 <= i < |p| :: 0 < p[i] as int < 256
    requires forall i | 0 <= i < |q| :: 0 < q[i] as int < 256
    ensures KeyLength(Some('b'), |p|) <= |p| + 1 && KeyLength(Some('b'), |q|) <= |q| + 1
    ensures XorKey(init, KeyBuffer(p), KeyLength(Some('b'), |p|)) != XorKey(init, KeyBuffer(q), KeyLength(Some('b'), |q|))
  {
    SameBytesExactlyWhen(p, q);
    EightBitNulFree(p);
    EightBitNulFree(q);
    hide XorKey, KeyBuffer, KeyLength, NulFree, Bytes;
    DifferentPasswordsDifferentSubkeys(init, p, q);
  }

  lemma EightBitNulFree(p: string)
    requires forall i | 0 <= i < |p| :: 0 < p[i] as int < 256
    ensures NulFree(p)
  {
    forall i | 0 <= i < |p| ensures Bytes(p)[i] != 0 {
      NonZeroByte(p[i] as int);
    }
  }

  lemma NonZeroByte(k: int)
    requires 0 < k < 256
    ensures k as bv8 != 0
  {
    ByteOfInt(k);
  }

  /** The bytes whose repetition is the key stream; a length of 0 still leaves the first byte. */
  function EffectiveKey(minor: Option<char>, password: string): (u: seq<bv8>)
    ensures u != []
  {
    KeyLengthFits(minor, |password|);
    var n := KeyLength(minor, |password|);
    KeyBuffer(password)[..if n == 0 then 1 else n]
  }

  lemma {:induction false} RepeatedByte(u: seq<bv8>, i: nat)
    requires u != []
    ensures u[i % |u|] == Cyclic(u, i)
    decreases i
  {
    if i < |u| {
      SmallRemainder(i, |u|);
    } else {
      RepeatedByte(u, i - |u|);
      RemainderMoved(i, |u|);
    }
  }

  lemma RemainderMoved(i: nat, n: nat)
    requires 0 < n <= i
    ensures i % n == (i - n) % n
  {
    var q, r := (i - n) / n, (i - n) % n;
    assert i == (q + 1) * n + r;
    ModuloUnique(i, n, q + 1, r);
  }

  lemma StreamByte(minor: Option<char>, password: string, i: nat)
    ensures KeyLength(minor, |password|) <= |password| + 1
    ensures CyclicByte(KeyBuffer(password), KeyLength(minor, |password|), i) == Cyclic(EffectiveKey(minor, password), i)
  {
    KeyLengthFits(minor, |password|);
    var u := EffectiveKey(minor, password);
    RepeatedByte(u, i);
    hide KeyLength, KeyBuffer;
    var n := KeyLength(minor, |password|);
    if n == 0 {
      assert |u| == 1 && i % 1 == 0;
    } else {
      assert KeyBuffer(password)[i % n] == u[i % n];
    }
  }

  /**
   For every minor version, or none, and any two passwords: the key streams agree exactly
   when the effective keys, put together in either order, start with the same 72 bytes. Keys
   of no more than 72 bytes together then commute, that is, repeat one and the same word.
   */
  lemma {:induction false} KeyStreamsAgreeExactlyWhen(minor: Option<char>, p: string, q: string)
    ensures KeyLength(minor, |p|) <= |p| + 1 && KeyLength(minor, |q|) <= |q| + 1
    ensures var u, v := EffectiveKey(minor, p), EffectiveKey(minor, q);
            SameKeyStream(KeyBuffer(p), KeyLength(minor, |p|), KeyBuffer(q), KeyLength(minor, |q|)) <==>
            Front(u + v, 72) == Front(v + u, 72)
  {
    KeyLengthFits(minor, |p|);
    KeyLengthFits(minor, |q|);
    var u, v := EffectiveKey(minor, p), EffectiveKey(minor, q);
    hide EffectiveKey, KeyBuffer, KeyLength, Cyclic, CyclicByte;
    var k1, n1, k2, n2 := KeyBuffer(p), KeyLength(minor, |p|), KeyBuffer(q), KeyLength(minor, |q|);
    forall i: nat | i < 72 ensures CyclicByte(k1, n1, i) == Cyclic(u, i) && CyclicByte(k2, n2, i) == Cyclic(v, i) {
      StreamByte(minor, p, i);
      StreamByte(minor, q, i);
    }
    assert SameKeyStream(k1, n1, k2, n2) <==> SameUpTo(u, v, 72);
    AgreeExactlyWhenCommuting(u, v, 72);
  }

  /** Passwords with the same effective key hash alike under every setting with that minor. */
  lemma SameEffectiveKeySameHash(init: Context, p: string, q: string, s: string, junk: Salt)
    requires ParseSetting(s).Some?
    requires EffectiveKey(ParseSetting(s).value.minor, p) == EffectiveKey(ParseSetting(s).value.minor, q)
    ensures Hashed(init, p, s, junk) == Hashed(init, q, s, junk)
  {
    hide ParseSetting, Hashed, EffectiveKey;
    var minor := ParseSetting(s).value.minor;
    KeyLengthFits(minor, |p|);
    KeyLengthFits(minor, |q|);
    var u := EffectiveKey(minor, p);
    KeyStreamsAgreeExactlyWhen(minor, p, q);
    SameStreamSameHash(init, p, q, s, junk);
  }

  /**
   Without a minor version no NUL belongs to the key: passwords give the same stream exactly
   when they commute as far as 72 bytes show. So the intended difference between a password
   and its repetition is missing there.
   */
  lemma WithoutMinorAgreeExactlyWhen(p: string, q: string)
    requires 0 < |p| < 256 && 0 < |q| < 256
    ensures SameKeyStream(KeyBuffer(p), KeyLength(None, |p|), KeyBuffer(q), KeyLength(None, |q|)) <==>
            Front(Bytes(p) + Bytes(q), 72) == Front(Bytes(q) + Bytes(p), 72)
  {
    PlainKey(p);
    PlainKey(q);
    KeyStreamsAgreeExactlyWhen(None, p, q);
  }

  lemma PlainKey(p: string)
    requires 0 < |p| < 256
    ensures KeyLength(None, |p|) == |p| && EffectiveKey(None, p) == Bytes(p)
  {
    SmallRemainder(|p|, 256);
    assert KeyBuffer(p)[..|p|] == Bytes(p);
  }

  /** In particular a password and its repetition. */
  lemma RepetitionHashesAlikeWithoutMinor(p: string)
    requires 0 < |p| && 2 * |p| < 256
    ensures SameKeyStream(KeyBuffer(p), KeyLength(None, |p|), KeyBuffer(p + p), KeyLength(None, |p + p|))
  {
    hide SameKeyStream;
    WithoutMinorAgreeExactlyWhen(p, p + p);
    BytesOfRepetition(p);
    hide CyclicByte, KeyBuffer, KeyLength, Front, Bytes;
    Regroup(Bytes(p), Bytes(p), Bytes(p));
  }

  lemma BytesOfRepetition(p: string)
    ensures Bytes(p + p) == Bytes(p) + Bytes(p)
  {
  }

  /** Under 'a' the length is kept in 8 bits: the key is the first `(length + 1) % 256` bytes, or the first one. */
  lemma WrappedKey(p: string, n: nat)
    requires n == (|p| + 1) % 256
    ensures EffectiveKey(Some('a'), p) == KeyBuffer(p)[..if n == 0 then 1 else n]
    ensures |p| >= 255 ==> EffectiveKey(Some('a'), p) == Bytes(p)[..if n == 0 then 1 else n]
  {
    if |p| >= 255 {
      assert KeyBuffer(p)[..if n == 0 then 1 else n] == Bytes(p)[..if n == 0 then 1 else n];
    }
  }

  /** At 255 characters only the first one is left: any two such passwords that share it hash alike. */
  lemma LongPasswordsHashAlikeUnderA(init: Context, p: string, q: string, s: string, junk: Salt)
    requires ParseSetting(s).Some? && ParseSetting(s).value.minor == Some('a')
    requires |p| == |q| == 255 && p[0] == q[0]
    ensures Hashed(init, p, s, junk) == Hashed(init, q, s, junk)
  {
    hide ParseSetting, Hashed;
    WrappedKey(p, 0);
    WrappedKey(q, 0);
    assert Bytes(p)[..1] == [Bytes(p)[0]] && Bytes(q)[..1] == [Bytes(q)[0]];
    SameEffectiveKeySameHash(init, p, q, s, junk);
  }

  /** Two such passwords, both free of NUL, which differ behind the first character. */
  lemma DifferentLongPasswordsShareKeyUnderA()
    ensures var p, q := seq(255, _ => 'a'), ['a'] + seq(254, _ => 'b');
            && p != q && NulFree(p) && NulFree(q)
            && EffectiveKey(Some('a'), p) == EffectiveKey(Some('a'), q)
  {
    hide EffectiveKey, NulFree;
    var p, q := seq(255, _ => 'a'), ['a'] + seq(254, _ => 'b');
    assert p[1] != q[1];
    LettersAreNulFree(p);
    LettersAreNulFree(q);
    OneByteKey(p);
    OneByteKey(q);
  }

  lemma OneByteKey(p: string)
    requires |p| == 255
    ensures EffectiveKey(Some('a'), p) == [(p[0] as int % 256) as bv8]
  {
    hide EffectiveKey;
    WrappedKey(p, 0);
    assert Bytes(p)[..1] == [Bytes(p)[0]];
  }

  lemma LettersAreNulFree(p: string)
    requires forall i | 0 <= i < |p| :: p[i] == 'a' || p[i] == 'b'
    ensures NulFree(p)
  {
    LettersAreNotNul();
    forall i | 0 <= i < |p| ensures Bytes(p)[i] != 0 {
      assert p[i] == 'a' || p[i] == 'b';
    }
  }

  lemma LettersAreNotNul()
    ensures ('a' as int % 256) as bv8 != 0 && ('b' as int % 256) as bv8 != 0
  {
  }

  lemma {:induction false} StretchedSame(c: Context, key1: seq<bv8>, n1: nat, key2: seq<bv8>, n2: nat, salt: Salt, k: nat)
    requires n1 <= |key1| && 0 < |key1| && n2 <= |key2| && 0 < |key2|
    requires SameKeyStream(key1, n1, key2, n2)
    ensures Stretched(c, key1, n1, salt, k) == Stretched(c, key2, n2, salt, k)
  {
    hide Expand0;
    if k > 0 {
      StretchedSame(c, key1, n1, key2, n2, salt, k - 1);
      SchedulesDependOnKeyStream(Stretched(c, key1, n1, salt, k - 1), salt, MAXSALT, key1, n1, key2, n2);
    }
  }

  /** Passwords with the same key stream hash alike under every setting. */
  lemma SameStreamSameHash(init: Context, p: string, q: string, s: string, junk: Salt)
    requires ParseSetting(s).Some?
    requires var minor := ParseSetting(s).value.minor;
             && KeyLength(minor, |p|) <= |p| + 1 && KeyLength(minor, |q|) <= |q| + 1
             && SameKeyStream(KeyBuffer(p), KeyLength(minor, |p|), KeyBuffer(q), KeyLength(minor, |q|))
    ensures Hashed(init, p, s, junk) == Hashed(init, q, s, junk)
  {
    hide ParseSetting, SaltOf, KeyBuffer, KeyLength, Expand, Stretched, SameKeyStream, HashText;
    ParsedCost(s);
    var t := ParseSetting(s).value;
    var salt := SaltOf(s, t.at, junk);
    var k1, n1, k2, n2 := KeyBuffer(p), KeyLength(t.minor, |p|), KeyBuffer(q), KeyLength(t.minor, |q|);
    SchedulesDependOnKeyStream(init, salt, MAXSALT, k1, n1, k2, n2);
    StretchedSame(Expand(init, salt, MAXSALT, k1, n1), k1, n1, k2, n2, salt, Power2(t.logr));
    assert Ciphertext(init, k1, n1, salt, t.logr) == Ciphertext(init, k2, n2, salt, t.logr);
  }

  /** Under 'b' only the first 72 bytes of a password matter. */
  lemma Only72BytesMatter(init: Context, p: string, q: string, s: string, junk: Salt)
    requires ParseSetting(s).Some? && ParseSetting(s).value.minor == Some('b')
    requires Truncated(Bytes(p)) == Truncated(Bytes(q))
    ensures Hashed(init, p, s, junk) == Hashed(init, q, s, junk)
  {
    hide ParseSetting, Hashed;
    SameTruncationSameStream(Some('b'), p, q);
    SameStreamSameHash(init, p, q, s, junk);
  }

  // ---------------------------------------------------------------- the code

  /** `snprintf(buffer + at, 4, "%2.2u$", logr & 0x1F)`: two digits, '$' and NUL. */
  method PrintCost(buffer: array<char>, at: nat, logr: nat)
    requires at + 4 <= buffer.Length && logr < 32
    modifies buffer
    ensures buffer[..] == old(buffer[..at]) + CostText(logr) + "\0" + old(buffer[at + 4..])
  {
    var t := CostText(logr);
    buffer[at], buffer[at + 1], buffer[at + 2], buffer[at + 3] := t[0], t[1], t[2], '\0';
  }

  /** The words of the text to encipher. */
  method LoadWords(cdata: array<bv32>)
    requires cdata.Length == 6
    modifies cdata
    ensures cdata[..] == FirstWords()
  {
    hide CyclicWord;
    var text := Bytes(ORPHEAN);
    assert |text| == 24;
    var j := 0;
    for i := 0 to 6
      invariant j == Cursor(24, 4 * i)
      invariant forall k | 0 <= k < i :: cdata[k] == CyclicWord(text, 24, k)
    {
      var w;
      w, j := StreamToWord(text, 24, j, i);
      cdata[i] := w;
    }
  }

  lemma BytesOfWordsStep(ws: seq<bv32>, i: nat, done: seq<bv8>)
    requires i < |ws|
    ensures done + BytesOfWords(ws[i..]) == (done + BytesOf(ws[i])) + BytesOfWords(ws[i + 1..])
  {
    hide BytesOf;
    assert ws[i..][0] == ws[i] && ws[i..][1..] == ws[i + 1..];
    Regroup(done, BytesOf(ws[i]), BytesOfWords(ws[i + 1..]));
  }

  lemma BytesOfNoWords()
    ensures BytesOfWords([]) == []
  {
  }

  /** The words written out as bytes, lowest byte last. */
  method StoreWords(cdata: array<bv32>, ciphertext: array<bv8>)
    requires cdata.Length == 6 && ciphertext.Length == 24
    modifies ciphertext
    ensures ciphertext[..] == BytesOfWords(cdata[..])
  {
    hide BytesOf, BytesOfWords, Written;
    ghost var ws, all, before := cdata[..], BytesOfWords(cdata[..]), ciphertext[..];
    ghost var done: seq<bv8> := [];
    NothingWritten(before, 0);
    assert ws[0..] == ws && before[..0] == done && done + all == all;
    for i := 0 to 6
      invariant |done| == 4 * i && Written(ciphertext[..], done, before) && done + BytesOfWords(ws[i..]) == all
    {
      BytesOfWordsStep(ws, i, done);
      StoreWord(ciphertext, 4 * i, cdata[i], done, before);
      done := done + BytesOf(ws[i]);
    }
    BytesOfNoWords();
    assert ws[6..] == [];
    WrittenOut(ciphertext[..], done, before);
  }

  /** One word, from its last byte on. */
  method StoreWord(ciphertext: array<bv8>, at: nat, w: bv32, ghost done: seq<bv8>, ghost before: seq<bv8>)
    requires at == |done| && at + 4 <= ciphertext.Length && Written(ciphertext[..], done, before)
    modifies ciphertext
    ensures Written(ciphertext[..], done + BytesOf(w), before)
  {
    hide BytesOf;
    var b := BytesOf(w);
    ciphertext[at + 3] := b[3];
    ciphertext[at + 2] := b[2];
    ciphertext[at + 1] := b[1];
    ciphertext[at] := b[0];
  }

  /** The middle of `node_bcrypt`: key setup, the costly loop, 64 encryptions. */
  method Encrypt(init: Context, key: seq<bv8>, n: nat, csalt: Salt, logr: nat, ciphertext: array<bv8>)
    requires n <= |key| && 0 < |key| && n < 256 && ciphertext.Length == 24
    modifies ciphertext
    ensures ciphertext[..] == Ciphertext(init, key, n, csalt, logr)
  {
    hide Expand, Expand0, EncPairs, BytesOfWords;
    var state := new BlowfishState(init);
    state.ExpandState(csalt, MAXSALT, key, n);
    ghost var c := state.Value();
    var k: nat := 0;
    while k < Power2(logr)
      invariant k <= Power2(logr)
      invariant state.Value() == Stretched(c, key, n, csalt, k)
    {
      state.Expand0State(key, n);
      state.Expand0State(csalt, MAXSALT);
      k := k + 1;
    }
    var cdata := new bv32[6];
    LoadWords(cdata);
    ghost var c' := state.Value();
    k := 0;
    while k < 64
      invariant k <= 64
      invariant state.Value() == c' && cdata[..] == Repeated(c', FirstWords(), k)
    {
      assert cdata[..2 * 3] == cdata[..] && cdata[2 * 3..] == [];
      BlfEnc(state, cdata, 3);
      k := k + 1;
    }
    StoreWords(cdata, ciphertext);
  }

  /** `node_bcrypt`: the hash or ":" as a C string at the start of the buffer, the rest untouched. */
  method NodeBcrypt(init: Context, password: string, s: string, junk: Salt, encrypted: array<char>)
    requires encrypted.Length >= 61
    modifies encrypted
    ensures |Hashed(init, password, s, junk)| <= 60
    ensures encrypted[..] ==
            Hashed(init, password, s, junk) + "\0" + old(encrypted[|Hashed(init, password, s, junk)| + 1..])
  {
    hide Ciphertext, Encoded, ParseSetting, Decoded;
    var setting := ParseSetting(s);
    if setting.None? {
      encrypted[0], encrypted[1] := ':', '\0';
      return;
    }
    ParsedCost(s);
    var p := setting.value;
    var csalt := new bv8[MAXSALT](i requires 0 <= i < MAXSALT => junk[i]);
    assert csalt[..] == junk;
    DecodeBase64(csalt, MAXSALT, s, p.at);
    var salt: Salt := csalt[..];
    assert salt == SaltOf(s, p.at, junk);
    var n := KeyLength(p.minor, |password|);
    KeyLengthFits(p.minor, |password|);
    var ciphertext := new bv8[24];
    Encrypt(init, KeyBuffer(password), n, salt, p.logr, ciphertext);
    WriteHash(encrypted, p.minor, p.logr, salt, ciphertext[..]);
    HashTextLength(p.minor, p.logr, salt, ciphertext[..]);
  }

  /** The end of `node_bcrypt`: version, minor, cost, salt and ciphertext, one behind the other. */
  method WriteHash(encrypted: array<char>, minor: Option<char>, logr: nat, salt: Salt, cipher: seq<bv8>)
    requires encrypted.Length >= 61 && logr < 32 && |cipher| == 24
    modifies encrypted
    ensures |HashText(minor, logr, salt, cipher)| <= 60
    ensures encrypted[..] ==
            HashText(minor, logr, salt, cipher) + "\0" + old(encrypted[|HashText(minor, logr, salt, cipher)| + 1..])
  {
    hide Encoded, Prefix, HashText, Framed;
    ghost var before, text := encrypted[..], HashText(minor, logr, salt, cipher);
    HashTextLength(minor, logr, salt, cipher);
    HashTextParts(minor, logr, salt, cipher);
    ghost var tail := before[|text| + 1..];
    var at := WritePrefix(encrypted, minor, logr, tail);
    at := AppendEncoded(encrypted, at, salt, Prefix(minor, logr), tail);
    at := AppendEncoded(encrypted, at, cipher[..23], Prefix(minor, logr) + Encoded(salt), tail);
  }

  lemma HashTextParts(minor: Option<char>, logr: nat, salt: Salt, cipher: seq<bv8>)
    requires logr < 100 && |cipher| == 24
    ensures HashText(minor, logr, salt, cipher) == Prefix(minor, logr) + Encoded(salt) + Encoded(cipher[..23])
    ensures |Prefix(minor, logr)| == (if minor.None? then 6 else 7)
    ensures |Encoded(salt)| == 22 && |Encoded(cipher[..23])| == 31
  {
    EncodedLength(salt);
    EncodedLength(cipher[..23]);
  }

  /** A buffer that starts and ends with given texts. */
  ghost predicate Framed(buffer: string, head: string, tail: string) {
    |head| + |tail| <= |buffer| && buffer[..|head|] == head && buffer[|buffer| - |tail|..] == tail
  }

  /** `encode_base64` at the end of the text written so far. */
  method AppendEncoded(buffer: array<char>, at: nat, data: seq<bv8>, ghost head: string, ghost tail: string)
    returns (end: nat)
    requires at == |head| && at + |Encoded(data)| + 1 + |tail| <= buffer.Length && Framed(buffer[..], head, tail)
    modifies buffer
    ensures end == at + |Encoded(data)| && Framed(buffer[..], head + Encoded(data), tail)
    ensures end + 1 + |tail| == buffer.Length ==> buffer[..] == head + Encoded(data) + "\0" + tail
  {
    hide Encoded, Framed;
    ghost var was := buffer[..];
    EncodedLength(data);
    EncodeBase64(buffer, at, data);
    end := at + (4 * |data| + 2) / 3;
    FrameKept(was, buffer[..], head, Encoded(data), tail);
  }

  lemma FrameKept(was: string, now: string, head: string, text: string, tail: string)
    requires |head| + |text| + 1 + |tail| <= |was| && Framed(was, head, tail)
    requires now == was[..|head|] + text + "\0" + was[|head| + |text| + 1..]
    ensures Framed(now, head + text, tail)
    ensures |head| + |text| + 1 + |tail| == |was| ==> now == head + text + "\0" + tail
  {
  }

  /** Version, minor and cost. */
  method WritePrefix(encrypted: array<char>, minor: Option<char>, logr: nat, ghost tail: string) returns (at: nat)
    requires logr < 32 && |tail| + 8 <= encrypted.Length && encrypted[encrypted.Length - |tail|..] == tail
    modifies encrypted
    ensures at == |Prefix(minor, logr)| == (if minor.None? then 6 else 7)
    ensures Framed(encrypted[..], Prefix(minor, logr), tail)
  {
    hide CostText;
    encrypted[0], encrypted[1] := '$', VERSION;
    at := 2;
    if minor.Some? {
      encrypted[at] := minor.value;
      at := at + 1;
    }
    encrypted[at] := '$';
    at := at + 1;
    PrintCost(encrypted, at, logr);
    at := at + 3;
  }

  /** `encode_salt` behind `bcrypt_gensalt`'s clamping: the setting as a C string. */
  method BcryptGensalt(minor: char, logRounds: nat, seed: Salt, gsalt: array<char>)
    requires gsalt.Length >= 30 && logRounds < 256
    modifies gsalt
    ensures |GenSalt(minor, logRounds, seed)| == 29
    ensures gsalt[..] == GenSalt(minor, logRounds, seed) + "\0" + old(gsalt[30..])
  {
    hide Encoded;
    ghost var tail := gsalt[30..];
    EncodedLength(seed);
    gsalt[0], gsalt[1], gsalt[2], gsalt[3] := '$', VERSION, minor, '$';
    PrintCost(gsalt, 4, Clamped(logRounds));
    assert gsalt[..7] == Prefix(Some(minor), Clamped(logRounds)) && gsalt[30..] == tail;
    EncodeBase64(gsalt, 7, seed);
  }

  /** `generateHash`, given the seed drawn. */
  method GenerateHash(init: Context, password: string, rounds: nat, seed: Salt, junk: Salt) returns (hash: string)
    ensures hash == GeneratedHash(init, password, rounds, seed, junk)
  {
    hide Hashed, GenSalt;
    var salt := new char[32](_ => '\0');
    BcryptGensalt('b', rounds % 256, seed, salt);
    ghost var text := GenSalt('b', rounds % 256, seed);
    assert salt[..29] == text;
    var buffer := new char[61](_ => '\0');
    NodeBcrypt(init, password, salt[..29], junk, buffer);
    hash := buffer[..60];
    ResizedBuffer(Hashed(init, password, text, junk), buffer[..]);
  }

  /** `validatePassword`. */
  method ValidatePassword(init: Context, password: string, hash: string, junk: Salt) returns (ok: bool)
    ensures ok <==> Validates(init, password, hash, junk)
  {
    hide Hashed;
    var got := new char[61](_ => '\0');
    NodeBcrypt(init, password, hash, junk, got);
    ok := hash == got[..60];
    ResizedBuffer(Hashed(init, password, hash, junk), got[..]);
  }

  lemma ResizedBuffer(t: string, buffer: string)
    requires |t| <= 60 && |buffer| == 61 && t < buffer && forall i | |t| <= i < 61 :: buffer[i] == '\0'
    ensures buffer[..60] == Resized(t)
  {
  }
}
