/**
 JSON values as `basic_json` holds them, and the library's own equality on them.

 Objects are finite maps (`std::map`); iteration over an object is modelled by
 `SortedKeys` in module KeyOrder. An IEEE double is modelled by its value only: a
 real, an infinity or NaN, so that +0 and -0 are one value.
 */
module JsonValues {
  import opened Wrappers

  type Int64 = i: int | -0x8000_0000_0000_0000 <= i < 0x8000_0000_0000_0000
  type UInt64 = i: int | 0 <= i < 0x1_0000_0000_0000_0000

  datatype Double = NaN | Infinity(negative: bool) | Finite(value: real)

  datatype Json =
    | Null
    | Object(members: map<string, Json>)
    | Array(elems: seq<Json>)
    | String(text: string)
    | Boolean(flag: bool)
    | Integer(i: Int64)
    | Unsigned(u: UInt64)
    | Float(f: Double)
    | Binary(bytes: seq<bv8>, subtype: Option<nat>)
    | Discarded

  /**
   The library's exceptions, by class and number. `AssertionFailed` is a failed JSON_ASSERT,
   which aborts instead of throwing.
   */
  datatype Error =
    | ParseError(id: nat)
    | TypeError(id: nat)
    | OutOfRange(id: nat)
    | OtherError(id: nat)
    | AssertionFailed

  datatype ValueType =
    | NullType | ObjectType | ArrayType | StringType | BooleanType
    | IntegerType | UnsignedType | FloatType | BinaryType | DiscardedType

  function TypeOf(j: Json): ValueType {
    match j
    case Null => NullType
    case Object(_) => ObjectType
    case Array(_) => ArrayType
    case String(_) => StringType
    case Boolean(_) => BooleanType
    case Integer(_) => IntegerType
    case Unsigned(_) => UnsignedType
    case Float(_) => FloatType
    case Binary(_, _) => BinaryType
    case Discarded => DiscardedType
  }

  // ---------------------------------------------------------------- number conversions

  /** static_cast<int64_t>(uint64_t): two's complement wrap-around. */
  function ToSigned(u: UInt64): Int64 {
    if u < 0x8000_0000_0000_0000 then u else u - 0x1_0000_0000_0000_0000
  }

  /** Round a magnitude to a multiple of `ulp`, ties to even. */
  function RoundTo(n: nat, ulp: nat): nat
    requires ulp > 0
  {
    var q, r := n / ulp, n % ulp;
    if 2 * r < ulp || (2 * r == ulp && q % 2 == 0) then q * ulp else (q + 1) * ulp
  }

  /** Round a magnitude to 53 significant bits, the precision of a double. */
  function RoundTo53Bits(n: nat, ulp: nat := 1): nat
    requires ulp > 0
    decreases n - 0x20_0000_0000_0000 * ulp
  {
    if n < 0x20_0000_0000_0000 * ulp then RoundTo(n, ulp) else RoundTo53Bits(n, 2 * ulp)
  }

  /** static_cast<double>(n) for a 64-bit integer. */
  function ToDouble(n: int): Double {
    Finite(if n < 0 then -(RoundTo53Bits(-n) as real) else RoundTo53Bits(n) as real)
  }

  // ---------------------------------------------------------------- equality

  /** IEEE equality: NaN differs from everything, itself included. */
  predicate DoubleEqual(a: Double, b: Double) {
    a != NaN && a == b
  }

  /** `operator==`: numbers of different kinds are converted and compared, NaN and
      discarded values equal nothing, all else is compared structurally. */
  predicate Equal(lhs: Json, rhs: Json)
    decreases lhs
  {
    match (lhs, rhs)
    case (Array(a), Array(b)) =>
      |a| == |b| && forall i | 0 <= i < |a| :: Equal(a[i], b[i])
    case (Object(a), Object(b)) =>
      a.Keys == b.Keys && forall k | k in a :: k in b && Equal(a[k], b[k])
    case (Null, Null) => true
    case (String(a), String(b)) => a == b
    case (Boolean(a), Boolean(b)) => a == b
    case (Integer(a), Integer(b)) => a == b
    case (Unsigned(a), Unsigned(b)) => a == b
    case (Float(a), Float(b)) => DoubleEqual(a, b)
    case (Binary(_, _), Binary(_, _)) => lhs == rhs
    case (Integer(a), Float(b)) => DoubleEqual(ToDouble(a), b)
    case (Float(a), Integer(b)) => DoubleEqual(a, ToDouble(b))
    case (Unsigned(a), Float(b)) => DoubleEqual(ToDouble(a), b)
    case (Float(a), Unsigned(b)) => DoubleEqual(a, ToDouble(b))
    case (Unsigned(a), Integer(b)) => ToSigned(a) == b
    case (Integer(a), Unsigned(b)) => a == ToSigned(b)
    case _ => false
  }

  /** No NaN and no discarded value anywhere inside. */
  predicate Clean(j: Json) {
    match j
    case Array(a) => forall i | 0 <= i < |a| :: Clean(a[i])
    case Object(m) => forall k | k in m :: Clean(m[k])
    case Float(f) => f != NaN
    case Discarded => false
    case _ => true
  }

  /** A value equals itself exactly when nothing in it is NaN or discarded. */
  lemma {:induction false} EqualToItself(j: Json)
    ensures Equal(j, j) <==> Clean(j)
  {
    match j
    case Array(a) =>
      forall i | 0 <= i < |a| ensures Equal(a[i], a[i]) <==> Clean(a[i]) {
        EqualToItself(a[i]);
      }
    case Object(m) =>
      forall k | k in m ensures Equal(m[k], m[k]) <==> Clean(m[k]) {
        EqualToItself(m[k]);
      }
    case _ =>
  }

  /** Only clean values ever compare equal, on either side. */
  lemma {:induction false} EqualOnlyIfClean(a: Json, b: Json)
    requires Equal(a, b)
    ensures Clean(a) && Clean(b)
  {
    match (a, b)
    case (Array(x), Array(y)) =>
      forall i | 0 <= i < |x| ensures Clean(x[i]) && Clean(y[i]) {
        EqualOnlyIfClean(x[i], y[i]);
      }
    case (Object(x), Object(y)) =>
      forall k | k in x ensures Clean(x[k]) && Clean(y[k]) {
        EqualOnlyIfClean(x[k], y[k]);
      }
    case _ =>
  }

  // ---------------------------------------------------------------- what equality means

  /** All numbers inside are of one kind. */
  predicate NumbersOf(j: Json, kind: ValueType) {
    match j
    case Array(a) => forall i | 0 <= i < |a| :: NumbersOf(a[i], kind)
    case Object(m) => forall k | k in m :: NumbersOf(m[k], kind)
    case Integer(_) => kind == IntegerType
    case Unsigned(_) => kind == UnsignedType
    case Float(_) => kind == FloatType
    case _ => true
  }

  /** As long as no two kinds of numbers meet, equal values are one and the same clean value. */
  lemma {:induction false} EqualExactlyWhenSame(a: Json, b: Json, kind: ValueType)
    requires NumbersOf(a, kind) && NumbersOf(b, kind)
    ensures Equal(a, b) <==> a == b && Clean(a)
  {
    match (a, b)
    case (Array(x), Array(y)) =>
      if |x| == |y| {
        forall i | 0 <= i < |x| ensures Equal(x[i], y[i]) <==> x[i] == y[i] && Clean(x[i]) {
          EqualExactlyWhenSame(x[i], y[i], kind);
        }
      }
    case (Object(x), Object(y)) =>
      if x.Keys == y.Keys {
        forall k | k in x ensures Equal(x[k], y[k]) <==> x[k] == y[k] && Clean(x[k]) {
          EqualExactlyWhenSame(x[k], y[k], kind);
        }
      }
    case _ =>
  }

  /** Nothing inside is a number. */
  predicate NumberFree(j: Json) {
    match j
    case Array(a) => forall i | 0 <= i < |a| :: NumberFree(a[i])
    case Object(m) => forall k | k in m :: NumberFree(m[k])
    case Integer(_) => false
    case Unsigned(_) => false
    case Float(_) => false
    case _ => true
  }

  lemma {:induction false} NumberFreeIsOfAnyKind(j: Json, kind: ValueType)
    requires NumberFree(j)
    ensures NumbersOf(j, kind)
  {
    match j
    case Array(a) =>
      forall i | 0 <= i < |a| ensures NumbersOf(a[i], kind) { NumberFreeIsOfAnyKind(a[i], kind); }
    case Object(m) =>
      forall k | k in m ensures NumbersOf(m[k], kind) { NumberFreeIsOfAnyKind(m[k], kind); }
    case _ =>
  }

  /** Signed and unsigned numbers are equal exactly when they differ by a multiple of 2^64. */
  lemma SignedEqualsUnsignedExactlyWhen(i: Int64, u: UInt64)
    ensures Equal(Unsigned(u), Integer(i)) <==> (u - i) % 0x1_0000_0000_0000_0000 == 0
    ensures Equal(Integer(i), Unsigned(u)) <==> Equal(Unsigned(u), Integer(i))
  {
  }

  /** Up to 2^53 an integer equals a float exactly when the two are the same number. */
  lemma IntegerEqualsFloatExactlyWhen(i: Int64, f: Double)
    requires -0x20_0000_0000_0000 <= i <= 0x20_0000_0000_0000
    ensures Equal(Integer(i), Float(f)) <==> f == Finite(i as real)
    ensures Equal(Float(f), Integer(i)) <==> f == Finite(i as real)
  {
    SmallNumbersStay(if i < 0 then -i else i);
  }

  lemma UnsignedEqualsFloatExactlyWhen(u: UInt64, f: Double)
    requires u <= 0x20_0000_0000_0000
    ensures Equal(Unsigned(u), Float(f)) <==> f == Finite(u as real)
    ensures Equal(Float(f), Unsigned(u)) <==> f == Finite(u as real)
  {
    SmallNumbersStay(u);
  }

  lemma SmallNumbersStay(n: nat)
    requires n <= 0x20_0000_0000_0000
    ensures RoundTo53Bits(n) == n
  {
    if n == 0x20_0000_0000_0000 {
      assert RoundTo53Bits(n, 2) == RoundTo(n, 2) == n;
    }
  }

  /** A multiple of `ulp` no other is nearer than, the even one if there are two. */
  predicate IsNearest(r: int, n: int, ulp: int)
    requires ulp > 0
  {
    && r % ulp == 0
    && -ulp <= 2 * (r - n) <= ulp
    && (2 * (r - n) == ulp || 2 * (r - n) == -ulp ==> (r / ulp) % 2 == 0)
  }

  lemma RoundToNearest(n: nat, ulp: nat)
    requires ulp > 0
    ensures IsNearest(RoundTo(n, ulp), n, ulp)
  {
    var q, m := n / ulp, n % ulp;
    assert n == q * ulp + m;
    assert (q + 1) * ulp == q * ulp + ulp;
    MultipleDivides(q, ulp);
    MultipleDivides(q + 1, ulp);
  }

  lemma MultipleDivides(q: nat, u: nat)
    requires u > 0
    ensures (q * u) % u == 0 && (q * u) / u == q
  {
    var d, m := (q * u) / u, (q * u) % u;
    assert (q - d) * u == m;
    MultipleBounds(q - d, u);
  }

  lemma MultipleBounds(d: int, u: int)
    requires u > 0
    ensures d >= 1 ==> d * u >= u
    ensures d <= -1 ==> d * u <= -u
  {
  }

  /**
   Beyond, a number is rounded to the nearest of those with 53 significant bits, `ulp` being
   what they are multiples of; halfway between two, to the one with an even last bit.
   */
  lemma {:induction false} RoundsToNearest(n: nat, start: nat) returns (ulp: nat)
    requires start > 0
    ensures ulp >= start && ulp % start == 0
    ensures n < 0x20_0000_0000_0000 * ulp && (ulp == start || n >= 0x10_0000_0000_0000 * ulp)
    ensures IsNearest(RoundTo53Bits(n, start), n, ulp)
    decreases n - 0x20_0000_0000_0000 * start
  {
    hide RoundTo53Bits, RoundTo, IsNearest;
    RoundingUnfolds(n, start);
    if n < 0x20_0000_0000_0000 * start {
      RoundToNearest(n, start);
      ulp := start;
    } else {
      ulp := RoundsToNearest(n, 2 * start);
      MultipleOfDouble(ulp, start);
    }
  }

  lemma RoundingUnfolds(n: nat, ulp: nat)
    requires ulp > 0
    ensures RoundTo53Bits(n, ulp) ==
            if n < 0x20_0000_0000_0000 * ulp then RoundTo(n, ulp) else RoundTo53Bits(n, 2 * ulp)
    ensures ulp % ulp == 0
  {
    hide RoundTo;
    MultipleDivides(1, ulp);
  }

  lemma MultipleOfDouble(m: nat, u: nat)
    requires u > 0 && m % (2 * u) == 0
    ensures m % u == 0
  {
    var k := m / (2 * u);
    assert m == k * (2 * u) == (2 * k) * u;
    MultipleDivides(2 * k, u);
  }
}

/** The iteration order of `std::map<std::string, ...>`: ascending, byte by byte. */
module KeyOrder {

  predicate Before(a: string, b: string) {
    if b == "" then false
    else if a == "" then true
    else a[0] < b[0] || (a[0] == b[0] && Before(a[1..], b[1..]))
  }

  /** One string comes before another exactly when it is a beginning of it, or smaller where they first differ. */
  lemma {:induction false} BeforeExactlyWhen(a: string, b: string)
    ensures Before(a, b) <==> exists n: nat :: FirstDifference(a, b, n)
  {
    if a != "" && b != "" && a[0] == b[0] {
      BeforeExactlyWhen(a[1..], b[1..]);
      if n: nat :| FirstDifference(a[1..], b[1..], n) {
        assert a[..n + 1] == [a[0]] + a[1..][..n] && b[..n + 1] == [b[0]] + b[1..][..n];
        assert FirstDifference(a, b, n + 1);
      }
      if n: nat :| FirstDifference(a, b, n) {
        assert n > 0;
        assert a[1..][..n - 1] == a[..n][1..] && b[1..][..n - 1] == b[..n][1..];
        assert FirstDifference(a[1..], b[1..], n - 1);
      }
    } else if Before(a, b) {
      assert FirstDifference(a, b, 0);
    } else if n: nat :| FirstDifference(a, b, n) {
      SameStart(a, b, n);
    }
  }

  lemma SameStart(a: string, b: string, n: nat)
    requires FirstDifference(a, b, n)
    ensures n > 0 ==> a[0] == b[0]
  {
    if n > 0 { assert a[..n][0] == b[..n][0]; }
  }

  /** Up to `n` the strings agree; there the first one ends, or has the smaller character. */
  predicate FirstDifference(a: string, b: string, n: nat) {
    n <= |a| && n < |b| && a[..n] == b[..n] && (n == |a| || a[n] < b[n])
  }

  lemma {:induction false} BeforeTotal(a: string, b: string)
    ensures Before(a, b) || Before(b, a) || a == b
    ensures !(Before(a, b) && Before(b, a))
    ensures !Before(a, a)
  {
    if a == "" || b == "" {
      if a != "" { BeforeTotal(a[1..], a[1..]); }
    } else {
      BeforeTotal(a[1..], b[1..]);
      BeforeTotal(a[1..], a[1..]);
      assert a == [a[0]] + a[1..] && b == [b[0]] + b[1..];
    }
  }

  lemma {:induction false} BeforeTransitive(a: string, b: string, c: string)
    requires Before(a, b) && Before(b, c)
    ensures Before(a, c)
  {
    if a != "" && a[0] == b[0] && b[0] == c[0] {
      BeforeTransitive(a[1..], b[1..], c[1..]);
    }
  }

  predicate IsLeast(k: string, s: set<string>) {
    k in s && forall j | j in s && j != k :: Before(k, j)
  }

  lemma {:induction false} LeastExists(s: set<string>)
    requires s != {}
    ensures exists k :: IsLeast(k, s)
  {
    var x :| x in s;
    if s == {x} {
      assert IsLeast(x, s);
    } else {
      LeastExists(s - {x});
      var k :| IsLeast(k, s - {x});
      BeforeTotal(x, k);
      if Before(x, k) {
        forall j | j in s && j != x ensures Before(x, j) {
          if j != k { BeforeTransitive(x, k, j); }
        }
        assert IsLeast(x, s);
      } else {
        assert IsLeast(k, s);
      }
    }
  }

  /** The smallest key: what `begin()` refers to. */
  function Least(s: set<string>): (k: string)
    requires s != {}
    ensures IsLeast(k, s)
  {
    LeastExists(s);
    assert forall a, b | IsLeast(a, s) && IsLeast(b, s) :: a == b by {
      forall a, b | IsLeast(a, s) && IsLeast(b, s) ensures a == b { BeforeTotal(a, b); }
    }
    var k :| IsLeast(k, s);
    k
  }

  ghost predicate Ascending(ks: seq<string>) {
    forall i, j | 0 <= i < j < |ks| :: Before(ks[i], ks[j])
  }

  /** The keys in iteration order: each key once, ascending. */
  function SortedKeys(s: set<string>): (ks: seq<string>)
    ensures forall k :: k in ks <==> k in s
    ensures Ascending(ks)
    ensures forall i, j | 0 <= i < j < |ks| :: ks[i] != ks[j]
  {
    if s == {} then []
    else
      var k := Least(s);
      var rest := SortedKeys(s - {k});
      assert s == (s - {k}) + {k};
      [k] + rest
  }
}
