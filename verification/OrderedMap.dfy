/**
 The vector-backed map that keeps insertion order: a list of entries searched from the front,
 erased by shifting entries down slot by slot. It is proved against a map together with the
 list of its keys in insertion order.
 */
module OrderedMaps {
  import opened Wrappers

  datatype Entry<K, V> = Entry(key: K, value: V)

  // ---------------------------------------------------------------- what the vector does

  function KeysOf<K, V>(items: seq<Entry<K, V>>): (r: seq<K>)
    ensures |r| == |items| && forall i | 0 <= i < |items| :: r[i] == items[i].key
  {
    seq(|items|, i requires 0 <= i < |items| => items[i].key)
  }

  /** The first position of a key, or the end position. */
  function Position<K(==)>(keys: seq<K>, k: K): (r: nat)
    ensures r <= |keys|
    ensures r < |keys| ==> keys[r] == k
    ensures k !in keys[..r]
    ensures r == |keys| <==> k !in keys
  {
    if keys == [] then 0
    else if keys[0] == k then 0
    else
      assert keys == [keys[0]] + keys[1..];
      var r := 1 + Position(keys[1..], k);
      assert keys[..r] == [keys[0]] + keys[1..][..r - 1];
      r
  }

  function Lookup<K(==), V>(items: seq<Entry<K, V>>, k: K): (r: nat)
    ensures r <= |items|
  {
    Position(KeysOf(items), k)
  }

  function Emplaced<K(==), V>(items: seq<Entry<K, V>>, k: K, v: V): seq<Entry<K, V>> {
    if Lookup(items, k) < |items| then items else items + [Entry(k, v)]
  }

  function WithoutSlots<T>(s: seq<T>, first: nat, last: nat): seq<T>
    requires first <= last <= |s|
  {
    s[..first] + s[last..]
  }

  function Erased<K(==), V>(items: seq<Entry<K, V>>, k: K): seq<Entry<K, V>> {
    var p := Lookup(items, k);
    if p < |items| then WithoutSlots(items, p, p + 1) else items
  }

  function InsertedAll<K(==), V>(items: seq<Entry<K, V>>, es: seq<Entry<K, V>>): seq<Entry<K, V>>
    decreases |es|
  {
    if es == [] then items
    else
      var n := |es| - 1;
      Emplaced(InsertedAll(items, es[..n]), es[n].key, es[n].value)
  }

  // ---------------------------------------------------------------- what it stands for

  /** A map and the list of its keys in the order they were first inserted. */
  datatype Ordered<K, V> = Ordered(dict: map<K, V>, order: seq<K>) {
    ghost predicate Valid() {
      && dict.Keys == (set k | k in order)
      && NoRepeats(order)
    }
  }

  predicate NoRepeats<K(==)>(order: seq<K>) {
    forall i, j | 0 <= i < j < |order| :: order[i] != order[j]
  }

  function Without<K(==)>(order: seq<K>, gone: set<K>): seq<K> {
    if order == [] then []
    else (if order[0] in gone then [] else [order[0]]) + Without(order[1..], gone)
  }

  /** The vector lists the map in insertion order. */
  ghost predicate Lists<K, V>(items: seq<Entry<K, V>>, o: Ordered<K, V>) {
    && o.Valid()
    && KeysOf(items) == o.order
    && forall i | 0 <= i < |items| :: items[i].value == o.dict[items[i].key]
  }

  // ---------------------------------------------------------------- runs

  datatype Command<K, V> =
    | Emplace(key: K, value: V)
    | Assign(key: K, blank: V, value: V)
    | Insert(entry: Entry<K, V>)
    | InsertRange(entries: seq<Entry<K, V>>)
    | EraseKey(key: K)
    | EraseRange(first: nat, last: nat)
    | Count(key: K)
    | Find(key: K)
    | At(key: K)

  datatype Reply<V> =
    | Slot(position: nat, inserted: bool)
    | Number(count: nat)
    | Value(value: V)
    | OutOfRange
    | Done

  /** Positions given to a range erase must lie in the vector. */
  predicate Allowed<K, V>(size: nat, c: Command<K, V>) {
    c.EraseRange? ==> c.first <= c.last <= size
  }

  /** What a call does to the vector, and what it returns. */
  function Step<K(==), V>(items: seq<Entry<K, V>>, c: Command<K, V>): (seq<Entry<K, V>>, Reply<V>)
    requires Allowed(|items|, c)
  {
    match c
    case Emplace(k, v) => (Emplaced(items, k, v), Slot(Lookup(items, k), Lookup(items, k) == |items|))
    case Assign(k, blank, v) =>
      var grown := Emplaced(items, k, blank);
      (grown[Lookup(items, k) := Entry(k, v)], Slot(Lookup(items, k), Lookup(items, k) == |items|))
    case Insert(e) => (Emplaced(items, e.key, e.value), Slot(Lookup(items, e.key), Lookup(items, e.key) == |items|))
    case InsertRange(es) => (InsertedAll(items, es), Done)
    case EraseKey(k) => (Erased(items, k), Number(if Lookup(items, k) < |items| then 1 else 0))
    case EraseRange(first, last) => (WithoutSlots(items, first, last), Slot(first, false))
    case Count(k) => (items, Number(if Lookup(items, k) < |items| then 1 else 0))
    case Find(k) => (items, Slot(Lookup(items, k), false))
    case At(k) => (items, if Lookup(items, k) < |items| then Value(items[Lookup(items, k)].value) else OutOfRange)
  }

  function Added<K(==), V>(o: Ordered<K, V>, k: K, v: V): Ordered<K, V> {
    if k in o.dict then o else Ordered(o.dict[k := v], o.order + [k])
  }

  function AddedAll<K(==), V>(o: Ordered<K, V>, es: seq<Entry<K, V>>): Ordered<K, V>
    decreases |es|
  {
    if es == [] then o
    else
      var n := |es| - 1;
      Added(AddedAll(o, es[..n]), es[n].key, es[n].value)
  }

  /** What the same call does to the map and its insertion order. */
  function Meaning<K(==), V>(o: Ordered<K, V>, c: Command<K, V>): (Ordered<K, V>, Reply<V>)
    requires Allowed(|o.order|, c)
  {
    match c
    case Emplace(k, v) => (Added(o, k, v), Slot(Position(o.order, k), k !in o.dict))
    case Assign(k, _, v) =>
      var grown := Added(o, k, v);
      (Ordered(grown.dict[k := v], grown.order), Slot(Position(o.order, k), k !in o.dict))
    case Insert(e) => (Added(o, e.key, e.value), Slot(Position(o.order, e.key), e.key !in o.dict))
    case InsertRange(es) => (AddedAll(o, es), Done)
    case EraseKey(k) =>
      (Ordered(o.dict - {k}, Without(o.order, {k})), Number(if k in o.dict then 1 else 0))
    case EraseRange(first, last) =>
      var gone := set k | k in o.order[first..last];
      (Ordered(o.dict - gone, Without(o.order, gone)), Slot(first, false))
    case Count(k) => (o, Number(if k in o.dict then 1 else 0))
    case Find(k) => (o, Slot(Position(o.order, k), false))
    case At(k) => (o, if k in o.dict then Value(o.dict[k]) else OutOfRange)
  }

  // ---------------------------------------------------------------- one step

  lemma LookupFindsKey<K, V>(items: seq<Entry<K, V>>, o: Ordered<K, V>, k: K)
    requires Lists(items, o)
    ensures Lookup(items, k) == Position(o.order, k)
    ensures Lookup(items, k) < |items| <==> k in o.dict
    ensures k in o.dict ==> items[Lookup(items, k)] == Entry(k, o.dict[k])
  {
  }

  lemma EmplaceKeepsOrder<K, V>(items: seq<Entry<K, V>>, o: Ordered<K, V>, k: K, v: V)
    requires Lists(items, o)
    ensures Lists(Emplaced(items, k, v), Added(o, k, v))
  {
    LookupFindsKey(items, o, k);
    if k !in o.dict {
      assert KeysOf(items + [Entry(k, v)]) == o.order + [k];
    }
  }

  lemma {:induction false} InsertAllKeepsOrder<K, V>(items: seq<Entry<K, V>>, o: Ordered<K, V>, es: seq<Entry<K, V>>)
    requires Lists(items, o)
    ensures Lists(InsertedAll(items, es), AddedAll(o, es))
    decreases |es|
  {
    if es != [] {
      var n := |es| - 1;
      InsertAllKeepsOrder(items, o, es[..n]);
      EmplaceKeepsOrder(InsertedAll(items, es[..n]), AddedAll(o, es[..n]), es[n].key, es[n].value);
    }
  }

  lemma {:induction false} WithoutConcat<K>(a: seq<K>, b: seq<K>, gone: set<K>)
    ensures Without(a + b, gone) == Without(a, gone) + Without(b, gone)
  {
    if a == [] {
      assert a + b == b;
    } else {
      assert (a + b)[0] == a[0] && (a + b)[1..] == a[1..] + b;
      WithoutConcat(a[1..], b, gone);
    }
  }

  lemma {:induction false} WithoutAllOrNone<K>(a: seq<K>, gone: set<K>)
    ensures (forall k | k in a :: k in gone) ==> Without(a, gone) == []
    ensures (forall k | k in a :: k !in gone) ==> Without(a, gone) == a
  {
    if a != [] {
      WithoutAllOrNone(a[1..], gone);
      assert a == [a[0]] + a[1..];
    }
  }

  /** With no key twice, the keys of a range occur nowhere else. */
  lemma SlotsHoldOtherKeys<K>(order: seq<K>, first: nat, last: nat, k: K)
    requires first <= last <= |order| && NoRepeats(order)
    ensures k in order[..first] || k in order[last..] ==> k !in order[first..last]
    ensures k in order ==> k in order[first..last] || k in WithoutSlots(order, first, last)
    ensures k in WithoutSlots(order, first, last) ==> k in order && k !in order[first..last]
    ensures NoRepeats(WithoutSlots(order, first, last))
  {
    hide NoRepeats;
    var a, b, c := order[..first], order[first..last], order[last..];
    assert order == (a + b) + c;
    PartsApart(a + b, c);
    PartsApart(a, b);
    PartsJoin(a, c);
  }

  lemma PartsApart<K>(a: seq<K>, b: seq<K>)
    requires NoRepeats(a + b)
    ensures NoRepeats(a) && NoRepeats(b) && forall k | k in a :: k !in b
  {
    var ab := a + b;
    assert forall i | 0 <= i < |a| :: ab[i] == a[i];
    assert forall j | 0 <= j < |b| :: ab[|a| + j] == b[j];
    forall i, j | 0 <= i < |a| && 0 <= j < |b| ensures a[i] != b[j] {
      assert ab[i] != ab[|a| + j];
    }
    forall i, j | 0 <= i < j < |b| ensures b[i] != b[j] {
      assert ab[|a| + i] != ab[|a| + j];
    }
  }

  lemma PartsJoin<K>(a: seq<K>, b: seq<K>)
    requires NoRepeats(a) && NoRepeats(b) && forall k | k in a :: k !in b
    ensures NoRepeats(a + b)
  {
    forall i, j | 0 <= i < j < |a + b| ensures (a + b)[i] != (a + b)[j] {
      if i < |a| <= j { assert a[i] in a && b[j - |a|] in b; }
    }
  }

  lemma WithoutMiddle<K>(a: seq<K>, b: seq<K>, c: seq<K>, gone: set<K>)
    requires forall k | k in a || k in c :: k !in gone
    requires forall k | k in b :: k in gone
    ensures Without((a + b) + c, gone) == a + c
  {
    hide Without;
    WithoutAllOrNone(a, gone);
    WithoutAllOrNone(b, gone);
    WithoutAllOrNone(c, gone);
    WithoutConcat(a, b, gone);
    WithoutConcat(a + b, c, gone);
  }

  /** With no key twice, dropping the keys of a range wherever they occur drops just its slots. */
  lemma WithoutIsSlice<K>(order: seq<K>, first: nat, last: nat)
    requires first <= last <= |order| && NoRepeats(order)
    ensures Without(order, set k | k in order[first..last]) == WithoutSlots(order, first, last)
  {
    hide Without, NoRepeats;
    var a, b, c := order[..first], order[first..last], order[last..];
    var gone := set k | k in b;
    forall k | k in a || k in c ensures k !in gone {
      SlotsHoldOtherKeys(order, first, last, k);
    }
    WithoutMiddle(a, b, c, gone);
    assert order == (a + b) + c;
  }

  lemma EraseKeepsOrder<K, V>(items: seq<Entry<K, V>>, o: Ordered<K, V>, first: nat, last: nat)
    requires Lists(items, o) && first <= last <= |items|
    ensures var gone := set k | k in o.order[first..last];
            Lists(WithoutSlots(items, first, last), Ordered(o.dict - gone, Without(o.order, gone)))
  {
    var gone := set k | k in o.order[first..last];
    WithoutIsSlice(o.order, first, last);
    var left, order := WithoutSlots(items, first, last), WithoutSlots(o.order, first, last);
    assert KeysOf(left) == order;
    SlotsHoldOtherKeysForAll(o.order, first, last);
    assert (o.dict - gone).Keys == (set k | k in order);
    forall i | 0 <= i < |left| ensures left[i].value == (o.dict - gone)[left[i].key] {
      assert left[i] == items[if i < first then i else i - first + last];
      assert left[i].key == order[i];
    }
  }

  lemma SlotsHoldOtherKeysForAll<K>(order: seq<K>, first: nat, last: nat)
    requires first <= last <= |order| && NoRepeats(order)
    ensures NoRepeats(WithoutSlots(order, first, last))
    ensures (set k | k in order) - (set k | k in order[first..last]) == (set k | k in WithoutSlots(order, first, last))
  {
    forall k | k in order || k in WithoutSlots(order, first, last)
      ensures k in order && k !in order[first..last] <==> k in WithoutSlots(order, first, last)
    {
      SlotsHoldOtherKeys(order, first, last, k);
    }
  }

  /** Every call on the vector does to the map and order what the call means, and returns the same. */
  lemma StepRefines<K, V>(items: seq<Entry<K, V>>, o: Ordered<K, V>, c: Command<K, V>)
    requires Lists(items, o) && Allowed(|items|, c)
    ensures Lists(Step(items, c).0, Meaning(o, c).0)
    ensures Step(items, c).1 == Meaning(o, c).1
  {
    match c
    case Emplace(k, v) =>
      LookupFindsKey(items, o, k);
      EmplaceKeepsOrder(items, o, k, v);
    case Assign(k, blank, v) => AssignRefines(items, o, k, blank, v);
    case Insert(e) =>
      LookupFindsKey(items, o, e.key);
      EmplaceKeepsOrder(items, o, e.key, e.value);
    case InsertRange(es) => InsertAllKeepsOrder(items, o, es);
    case EraseKey(k) => EraseKeyRefines(items, o, k);
    case EraseRange(first, last) =>
      EraseKeepsOrder(items, o, first, last);
    case Count(k) => LookupFindsKey(items, o, k);
    case Find(k) => LookupFindsKey(items, o, k);
    case At(k) => LookupFindsKey(items, o, k);
  }

  lemma OneElement<K>(s: seq<K>, k: K)
    requires s == [k]
    ensures (set x | x in s) == {k}
  {
  }

  lemma EraseKeyRefines<K, V>(items: seq<Entry<K, V>>, o: Ordered<K, V>, k: K)
    requires Lists(items, o)
    ensures Lists(Erased(items, k), Ordered(o.dict - {k}, Without(o.order, {k})))
    ensures Lookup(items, k) < |items| <==> k in o.dict
  {
    hide Without, NoRepeats, Lookup;
    LookupFindsKey(items, o, k);
    var p := Lookup(items, k);
    if k in o.dict {
      OneElement(o.order[p..p + 1], k);
      hide Lists, Ordered.Valid;
      EraseKeepsOrder(items, o, p, p + 1);
    } else {
      WithoutAllOrNone(o.order, {k});
      assert o.dict - {k} == o.dict;
    }
  }

  lemma AssignRefines<K, V>(items: seq<Entry<K, V>>, o: Ordered<K, V>, k: K, blank: V, v: V)
    requires Lists(items, o)
    ensures Lists(Step(items, Assign(k, blank, v)).0, Meaning(o, Assign(k, blank, v)).0)
    ensures Step(items, Assign(k, blank, v)).1 == Meaning(o, Assign(k, blank, v)).1
  {
    LookupFindsKey(items, o, k);
    EmplaceKeepsOrder(items, o, k, blank);
    var p := Lookup(items, k);
    var grown := Emplaced(items, k, blank);
    var o' := Added(o, k, v);
    assert o'.order == Added(o, k, blank).order;
    assert grown[p].key == k;
    assert KeysOf(grown[p := Entry(k, v)]) == o'.order;
    assert forall i | 0 <= i < |grown| && i != p :: KeysOf(grown)[i] != k;
  }

  // ---------------------------------------------------------------- whole runs

  /** Replies call by call; the run stops at a range erase whose positions are not in the vector. */
  function RunVector<K(==), V>(items: seq<Entry<K, V>>, cs: seq<Command<K, V>>): (seq<Entry<K, V>>, seq<Reply<V>>)
    decreases |cs|
  {
    if cs == [] || !Allowed(|items|, cs[0]) then (items, [])
    else
      var (next, reply) := Step(items, cs[0]);
      var (last, replies) := RunVector(next, cs[1..]);
      (last, [reply] + replies)
  }

  function RunMeaning<K(==), V>(o: Ordered<K, V>, cs: seq<Command<K, V>>): (Ordered<K, V>, seq<Reply<V>>)
    decreases |cs|
  {
    if cs == [] || !Allowed(|o.order|, cs[0]) then (o, [])
    else
      var (next, reply) := Meaning(o, cs[0]);
      var (last, replies) := RunMeaning(next, cs[1..]);
      (last, [reply] + replies)
  }

  lemma {:induction false} RunRefines<K, V>(items: seq<Entry<K, V>>, o: Ordered<K, V>, cs: seq<Command<K, V>>)
    requires Lists(items, o)
    ensures Lists(RunVector(items, cs).0, RunMeaning(o, cs).0)
    ensures RunVector(items, cs).1 == RunMeaning(o, cs).1
    decreases |cs|
  {
    if cs != [] && Allowed(|items|, cs[0]) {
      StepRefines(items, o, cs[0]);
      RunRefines(Step(items, cs[0]).0, Meaning(o, cs[0]).0, cs[1..]);
    }
  }

  /**
   Every run from an empty container keeps each key once and gives, call by call, the
   replies of a map with an insertion order; at the end the vector lists that map.
   */
  lemma RunFromEmpty<K, V>(cs: seq<Command<K, V>>)
    ensures var items := RunVector([], cs).0;
            && Lists(items, RunMeaning(Ordered(map[], []), cs).0)
            && NoRepeats(KeysOf(items))
    ensures RunVector([], cs).1 == RunMeaning(Ordered(map[], []), cs).1
  {
    var none: seq<Entry<K, V>> := [];
    RunRefines(none, Ordered(map[], []), cs);
  }

  // ---------------------------------------------------------------- the constructors do not look for duplicates

  /** How often a key occurs. */
  function Occurrences<K(==)>(keys: seq<K>, k: K): nat {
    if keys == [] then 0 else (if keys[0] == k then 1 else 0) + Occurrences(keys[1..], k)
  }

  lemma {:induction false} OccursExactlyWhenPresent<K>(keys: seq<K>, k: K)
    ensures Occurrences(keys, k) > 0 <==> k in keys
  {
    if keys != [] {
      OccursExactlyWhenPresent(keys[1..], k);
      assert keys == [keys[0]] + keys[1..];
    }
  }

  lemma {:induction false} OccurrencesConcat<K>(a: seq<K>, b: seq<K>, k: K)
    ensures Occurrences(a + b, k) == Occurrences(a, k) + Occurrences(b, k)
  {
    if a == [] {
      assert a + b == b;
    } else {
      assert (a + b)[0] == a[0] && (a + b)[1..] == a[1..] + b;
      OccurrencesConcat(a[1..], b, k);
    }
  }

  /**
   A container built from a range or a list may hold a key more than once, and erasing a key
   takes away one entry: the key is gone afterwards exactly when it was there at most once.
   */
  lemma EraseLeavesNoneExactlyWhen<K, V>(items: seq<Entry<K, V>>, k: K)
    ensures var left := Erased(items, k);
            Lookup(left, k) == |left| <==> Occurrences(KeysOf(items), k) <= 1
  {
    hide Occurrences, Position;
    var keys, p, left := KeysOf(items), Lookup(items, k), Erased(items, k);
    OccursExactlyWhenPresent(keys, k);
    OccursExactlyWhenPresent(KeysOf(left), k);
    if p < |items| {
      var a, c := keys[..p], keys[p + 1..];
      assert keys == (a + [k]) + c && KeysOf(left) == a + c;
      OneOccurrenceLess(a, k, c);
    }
  }

  lemma OneOccurrenceLess<K>(a: seq<K>, k: K, c: seq<K>)
    ensures Occurrences((a + [k]) + c, k) == 1 + Occurrences(a + c, k)
  {
    OccurrencesConcat(a + [k], c, k);
    OccurrencesConcat(a, [k], k);
    OccurrencesConcat(a, c, k);
    assert Occurrences([k], k) == 1 + Occurrences([], k);
  }

  // ---------------------------------------------------------------- the container

  class OrderedMap<K(==), V> {
    var items: seq<Entry<K, V>>

    constructor ()
      ensures items == []
    {
      items := [];
    }

    constructor FromRange(entries: seq<Entry<K, V>>)
      ensures items == entries
    {
      items := entries;
    }

    method Find(k: K) returns (position: nat)
      ensures Slot(position, false) == Step(items, Command.Find(k)).1
    {
      position := 0;
      while position < |items|
        invariant position <= |items| && k !in KeysOf(items)[..position]
      {
        if items[position].key == k {
          FirstIsPosition(KeysOf(items), k, position);
          return;
        }
        position := position + 1;
      }
      FirstIsPosition(KeysOf(items), k, position);
    }

    method Count(k: K) returns (count: nat)
      ensures Number(count) == Step(items, Command.Count(k)).1
    {
      var i: nat := 0;
      while i < |items|
        invariant i <= |items| && k !in KeysOf(items)[..i]
      {
        if items[i].key == k {
          FirstIsPosition(KeysOf(items), k, i);
          return 1;
        }
        i := i + 1;
      }
      FirstIsPosition(KeysOf(items), k, i);
      return 0;
    }

    method At(k: K) returns (r: Result<V, string>)
      ensures Step(items, Command.At(k)).1 == if r.Ok? then Value(r.value) else OutOfRange
    {
      var i: nat := 0;
      while i < |items|
        invariant i <= |items| && k !in KeysOf(items)[..i]
      {
        if items[i].key == k {
          FirstIsPosition(KeysOf(items), k, i);
          return Ok(items[i].value);
        }
        i := i + 1;
      }
      FirstIsPosition(KeysOf(items), k, i);
      return Err("key not found");
    }

    method Emplace(k: K, v: V) returns (position: nat, inserted: bool)
      modifies this
      ensures (items, Slot(position, inserted)) == Step(old(items), Command.Emplace(k, v))
      ensures position < |items| && items[position].key == k
    {
      position := 0;
      while position < |items|
        invariant position <= |items| && k !in KeysOf(items)[..position]
        invariant items == old(items)
      {
        if items[position].key == k {
          FirstIsPosition(KeysOf(items), k, position);
          return position, false;
        }
        position := position + 1;
      }
      FirstIsPosition(KeysOf(items), k, position);
      items := items + [Entry(k, v)];
      return |items| - 1, true;
    }

    /** `operator[]`: the slot of a key, after adding it with a blank value if it is new. */
    method Index(k: K, blank: V) returns (position: nat)
      modifies this
      ensures items == Emplaced(old(items), k, blank) && position == Lookup(old(items), k)
      ensures position < |items| && items[position].key == k
    {
      var inserted: bool;
      position, inserted := Emplace(k, blank);
    }

    /** Assigning through `operator[]`. */
    method Assign(k: K, blank: V, v: V)
      modifies this
      ensures items == Step(old(items), Command.Assign(k, blank, v)).0
    {
      var position := Index(k, blank);
      items := items[position := Entry(k, v)];
    }

    method Insert(e: Entry<K, V>) returns (position: nat, inserted: bool)
      modifies this
      ensures (items, Slot(position, inserted)) == Step(old(items), Command.Insert(e))
    {
      position, inserted := Emplace(e.key, e.value);
    }

    method InsertRange(entries: seq<Entry<K, V>>)
      modifies this
      ensures items == Step(old(items), Command.InsertRange(entries)).0
    {
      var i: nat := 0;
      while i < |entries|
        invariant i <= |entries|
        invariant items == InsertedAll(old(items), entries[..i])
      {
        assert entries[..i + 1][..i] == entries[..i];
        var position, inserted := Insert(entries[i]);
        i := i + 1;
      }
      assert entries[..i] == entries;
    }

    method EraseKey(k: K, movedFrom: V) returns (count: nat)
      modifies this
      ensures (items, Number(count)) == Step(old(items), Command.EraseKey(k))
    {
      var i: nat := 0;
      while i < |items|
        invariant i <= |items| && k !in KeysOf(items)[..i]
        invariant items == old(items)
      {
        if items[i].key == k {
          FirstIsPosition(KeysOf(items), k, i);
          ShiftOver(i, movedFrom);
          return 1;
        }
        i := i + 1;
      }
      FirstIsPosition(KeysOf(items), k, i);
      return 0;
    }

    /**
     The inner loop of erasing a key: each later entry is moved one slot down over its
     neighbour, which leaves some unspecified value behind, and the last slot is dropped.
     */
    method ShiftOver(p: nat, movedFrom: V)
      requires p < |items|
      modifies this
      ensures items == WithoutSlots(old(items), p, p + 1)
    {
      hide ShiftedTo;
      NothingShifted(items, p, 1);
      var i: nat := p;
      while i + 1 != |items|
        invariant p <= i < |items| && ShiftedTo(items, old(items), p, 1, i)
        decreases |items| - i
      {
        var next := items[i + 1];
        SlotShifted(items, old(items), p, 1, i, Entry(next.key, movedFrom));
        items := items[i := next][i + 1 := Entry(next.key, movedFrom)];
        i := i + 1;
      }
      AllShifted(items, old(items), p, 1);
      items := items[..|items| - 1];
    }

    /** Erasing the slots from `first` up to `last`; the result is where the next entry now is. */
    method EraseRange(first: nat, last: nat, movedFrom: V) returns (position: nat)
      requires first <= last <= |items|
      modifies this
      ensures (items, Slot(position, false)) == Step(old(items), Command.EraseRange(first, last))
    {
      hide ShiftedTo, Step;
      EraseRangeStep(items, first, last);
      if first == last {
        return first;
      }
      var affected, offset := last - first, first;
      NothingShifted(items, first, affected);
      var i: nat := first;
      while i + affected != |items|
        invariant first <= i <= i + affected <= |items| && ShiftedTo(items, old(items), first, affected, i)
        decreases |items| - i
      {
        var next := items[i + affected];
        SlotShifted(items, old(items), first, affected, i, Entry(next.key, movedFrom));
        items := items[i := next][i + affected := Entry(next.key, movedFrom)];
        i := i + 1;
      }
      AllShifted(items, old(items), first, affected);
      items := items[..|items| - affected];
      return offset;
    }

    method EraseAt(position: nat, movedFrom: V) returns (next: nat)
      requires position < |items|
      modifies this
      ensures (items, Slot(next, false)) == Step(old(items), Command.EraseRange(position, position + 1))
    {
      next := EraseRange(position, position + 1, movedFrom);
    }
  }

  lemma EraseRangeStep<K, V>(items: seq<Entry<K, V>>, first: nat, last: nat)
    requires first <= last <= |items|
    ensures Step(items, Command.EraseRange(first, last)) == (WithoutSlots(items, first, last), Slot(first, false))
    ensures first == last ==> WithoutSlots(items, first, last) == items
  {
  }

  lemma FirstIsPosition<K>(keys: seq<K>, k: K, p: nat)
    requires p <= |keys| && k !in keys[..p] && (p < |keys| ==> keys[p] == k)
    ensures Position(keys, k) == p
  {
    var r := Position(keys, k);
    assert forall j | 0 <= j < p :: keys[..p][j] == keys[j];
    assert forall j | 0 <= j < r :: keys[..r][j] == keys[j];
  }

  /** Slots up to `i` hold what followed the erased ones; those from `i + gap` on are untouched. */
  ghost predicate ShiftedTo<T>(now: seq<T>, was: seq<T>, first: nat, gap: nat, i: nat) {
    && first <= i <= i + gap <= |now| == |was|
    && now[..i] == WithoutSlots(was[..i + gap], first, first + gap)
    && now[i + gap..] == was[i + gap..]
  }

  lemma NothingShifted<T>(s: seq<T>, first: nat, gap: nat)
    requires first + gap <= |s|
    ensures ShiftedTo(s, s, first, gap, first)
  {
    assert s[..first + gap][first + gap..] == [];
    assert s[..first + gap][..first] == s[..first];
  }

  lemma SlotShifted<T>(now: seq<T>, was: seq<T>, first: nat, gap: nat, i: nat, left: T)
    requires ShiftedTo(now, was, first, gap, i) && 0 < gap && i + gap < |now|
    ensures ShiftedTo(now[i := now[i + gap]][i + gap := left], was, first, gap, i + 1)
  {
    var next := now[i := now[i + gap]][i + gap := left];
    assert now[i + gap..][0] == was[i + gap..][0];
    assert next[..i + 1] == now[..i] + [now[i + gap]];
    assert now[i + gap..][1..] == was[i + gap..][1..];
    assert next[i + 1 + gap..] == was[i + 1 + gap..];
    OneMoreKept(was, first, first + gap, i + gap);
  }

  lemma OneMoreKept<T>(s: seq<T>, first: nat, last: nat, n: nat)
    requires first <= last <= n < |s|
    ensures WithoutSlots(s[..n], first, last) + [s[n]] == WithoutSlots(s[..n + 1], first, last)
  {
    assert s[..n + 1][last..] == s[..n][last..] + [s[n]];
  }

  lemma AllShifted<T>(now: seq<T>, was: seq<T>, first: nat, gap: nat)
    requires gap <= |now| && ShiftedTo(now, was, first, gap, |now| - gap)
    ensures now[..|now| - gap] == WithoutSlots(was, first, first + gap)
  {
    assert was[..|now|] == was;
  }
}
