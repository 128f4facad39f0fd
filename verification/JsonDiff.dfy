/**
 `diff` and its law: patching the source with the diff rebuilds the target.

 `DiffOps` gives the operations relative to the value at hand; method `Diff` is the
 library's loop code, which writes them out as a patch document with full path texts.
 */
module JsonDiff {
  import opened Wrappers
  import opened Sequences
  import opened JsonValues
  import opened KeyOrder
  import opened JsonPointer
  import opened JsonPatch

  /** The most elements a std::vector can hold (PTRDIFF_MAX). */
  const MAX_SIZE := 0x7fff_ffff_ffff_ffff

  /** Every array fits in memory. */
  predicate Storable(j: Json) {
    match j
    case Array(a) => |a| <= MAX_SIZE && forall i | 0 <= i < |a| :: Storable(a[i])
    case Object(m) => forall k | k in m :: Storable(m[k])
    case _ => true
  }

  function Min(a: nat, b: nat): nat {
    if a < b then a else b
  }

  // ---------------------------------------------------------------- the operations

  function DiffOps(s: Json, t: Json): seq<PatchOp>
    decreases s, 1
  {
    if Equal(s, t) then []
    else if TypeOf(s) != TypeOf(t) then [Replace([], t)]
    else match s
         case Array(a) =>
           CommonOps(s, t, 0) + RemovalOps(|t.elems|, |a|) + AppendOps(t.elems, Min(|a|, |t.elems|))
         case Object(m) =>
           MemberOps(s, t, SortedKeys(m.Keys)) + NewMemberOps(s, t, SortedKeys(t.members.Keys))
         case _ => [Replace([], t)]
  }

  /** For the positions from `i` on that both arrays have. */
  function CommonOps(s: Json, t: Json, i: nat): seq<PatchOp>
    requires s.Array? && t.Array?
    decreases s, 0, |s.elems| - i
  {
    if i < |s.elems| && i < |t.elems| then
      LiftAll(Decimal(i), DiffOps(s.elems[i], t.elems[i])) + CommonOps(s, t, i + 1)
    else []
  }

  /** Remove positions `lo..hi`, last one first. */
  function RemovalOps(lo: nat, hi: nat): seq<PatchOp>
    decreases hi
  {
    if lo < hi then [Remove([Decimal(hi - 1)])] + RemovalOps(lo, hi - 1) else []
  }

  function AppendOps(ts: seq<Json>, i: nat): seq<PatchOp>
    decreases |ts| - i
  {
    if i < |ts| then [Add(["-"], ts[i])] + AppendOps(ts, i + 1) else []
  }

  /** For the source's keys `ks`, in order. */
  function MemberOps(s: Json, t: Json, ks: seq<string>): seq<PatchOp>
    requires s.Object? && t.Object? && forall k | k in ks :: k in s.members
    decreases s, 0, |ks|
  {
    if ks == [] then []
    else
      assert ks[0] in ks;
      (if ks[0] in t.members then LiftAll(ks[0], DiffOps(s.members[ks[0]], t.members[ks[0]]))
       else [Remove([ks[0]])])
      + MemberOps(s, t, ks[1..])
  }

  /** For the target's keys `ks`, in order. */
  function NewMemberOps(s: Json, t: Json, ks: seq<string>): seq<PatchOp>
    requires s.Object? && t.Object? && forall k | k in ks :: k in t.members
    decreases |ks|
  {
    if ks == [] then []
    else
      assert ks[0] in ks;
      (if ks[0] in s.members then [] else [Add([ks[0]], t.members[ks[0]])]) + NewMemberOps(s, t, ks[1..])
  }

  // ---------------------------------------------------------------- empty exactly when equal

  /** The diff is empty exactly when the library calls the two values equal. */
  lemma {:induction false} EmptyExactlyWhenEqual(s: Json, t: Json)
    ensures DiffOps(s, t) == [] <==> Equal(s, t)
    decreases s
  {
    if TypeOf(s) == TypeOf(t) && !Equal(s, t) {
      if s.Array? && |s.elems| == |t.elems| {
        var i :| 0 <= i < |s.elems| && !Equal(s.elems[i], t.elems[i]);
        EmptyExactlyWhenEqual(s.elems[i], t.elems[i]);
        CommonOpsInclude(s, t, 0, i);
      } else if s.Object? && s.members.Keys == t.members.Keys {
        var k :| k in s.members && !Equal(s.members[k], t.members[k]);
        EmptyExactlyWhenEqual(s.members[k], t.members[k]);
        MemberOpsInclude(s, t, SortedKeys(s.members.Keys), k);
      } else if s.Object? {
        if k :| k in s.members && k !in t.members {
          MemberOpsInclude(s, t, SortedKeys(s.members.Keys), k);
        } else {
          var k :| k in t.members && k !in s.members;
          NewMemberOpsInclude(s, t, SortedKeys(t.members.Keys), k);
        }
      }
    }
  }

  lemma {:induction false} CommonOpsInclude(s: Json, t: Json, i: nat, j: nat)
    requires s.Array? && t.Array? && i <= j < |s.elems| && j < |t.elems|
    requires DiffOps(s.elems[j], t.elems[j]) != []
    ensures CommonOps(s, t, i) != []
    decreases j - i
  {
    if i < j { CommonOpsInclude(s, t, i + 1, j); }
  }

  lemma {:induction false} MemberOpsInclude(s: Json, t: Json, ks: seq<string>, k: string)
    requires s.Object? && t.Object? && k in ks && forall k | k in ks :: k in s.members
    requires k in t.members ==> DiffOps(s.members[k], t.members[k]) != []
    ensures MemberOps(s, t, ks) != []
    decreases |ks|
  {
    if k != ks[0] { MemberOpsInclude(s, t, ks[1..], k); }
  }

  lemma {:induction false} NewMemberOpsInclude(s: Json, t: Json, ks: seq<string>, k: string)
    requires s.Object? && t.Object? && k in ks && forall k | k in ks :: k in t.members
    requires k !in s.members
    ensures NewMemberOps(s, t, ks) != []
    decreases |ks|
  {
    if k != ks[0] { NewMemberOpsInclude(s, t, ks[1..], k); }
  }

  // ---------------------------------------------------------------- what diffs consist of

  /** Three of the six operations, and none that adds or removes the whole document. */
  ghost predicate DiffShaped(ops: seq<PatchOp>) {
    forall op | op in ops :: BelowRoot(op) && (op.Add? || op.Remove? || op.Replace?)
  }

  lemma {:induction false} DiffIsDiffShaped(s: Json, t: Json)
    ensures DiffShaped(DiffOps(s, t))
    decreases s, 1
  {
    if !Equal(s, t) && TypeOf(s) == TypeOf(t) {
      if s.Array? {
        CommonOpsShaped(s, t, 0);
        RemovalOpsShaped(|t.elems|, |s.elems|);
        AppendOpsShaped(t.elems, Min(|s.elems|, |t.elems|));
      } else if s.Object? {
        MemberOpsShaped(s, t, SortedKeys(s.members.Keys));
        NewMemberOpsShaped(s, t, SortedKeys(t.members.Keys));
      }
    }
  }

  lemma LiftShaped(token: string, ops: seq<PatchOp>)
    requires DiffShaped(ops)
    ensures DiffShaped(LiftAll(token, ops))
  {
    forall op | op in LiftAll(token, ops)
      ensures BelowRoot(op) && (op.Add? || op.Remove? || op.Replace?)
    {
      var i :| 0 <= i < |ops| && op == Lift(token, ops[i]);
      assert ops[i] in ops;
    }
  }

  lemma {:induction false} CommonOpsShaped(s: Json, t: Json, i: nat)
    requires s.Array? && t.Array?
    ensures DiffShaped(CommonOps(s, t, i))
    decreases s, 0, |s.elems| - i
  {
    if i < |s.elems| && i < |t.elems| {
      DiffIsDiffShaped(s.elems[i], t.elems[i]);
      LiftShaped(Decimal(i), DiffOps(s.elems[i], t.elems[i]));
      CommonOpsShaped(s, t, i + 1);
    }
  }

  lemma {:induction false} RemovalOpsShaped(lo: nat, hi: nat)
    ensures DiffShaped(RemovalOps(lo, hi))
    decreases hi
  {
    if lo < hi { RemovalOpsShaped(lo, hi - 1); }
  }

  lemma {:induction false} AppendOpsShaped(ts: seq<Json>, i: nat)
    ensures DiffShaped(AppendOps(ts, i))
    decreases |ts| - i
  {
    if i < |ts| { AppendOpsShaped(ts, i + 1); }
  }

  lemma {:induction false} MemberOpsShaped(s: Json, t: Json, ks: seq<string>)
    requires s.Object? && t.Object? && forall k | k in ks :: k in s.members
    ensures DiffShaped(MemberOps(s, t, ks))
    decreases s, 0, |ks|
  {
    if ks != [] {
      var k := ks[0];
      assert k in ks;
      if k in t.members {
        DiffIsDiffShaped(s.members[k], t.members[k]);
        LiftShaped(k, DiffOps(s.members[k], t.members[k]));
      }
      MemberOpsShaped(s, t, ks[1..]);
    }
  }

  lemma {:induction false} NewMemberOpsShaped(s: Json, t: Json, ks: seq<string>)
    requires s.Object? && t.Object? && forall k | k in ks :: k in t.members
    ensures DiffShaped(NewMemberOps(s, t, ks))
    decreases |ks|
  {
    if ks != [] { NewMemberOpsShaped(s, t, ks[1..]); }
  }

  // ---------------------------------------------------------------- where they aim

  /** An element of the target array behind the source's end, added at the end of that array. */
  predicate Appends(s: Json, t: Json, v: Json) {
    s.Array? && t.Array? && exists j :: |s.elems| <= j < |t.elems| && v == t.elems[j]
  }

  /**
   An operation touches only what differs, and no more of it than it has to: a value is
   replaced where source and target differ, and only if they differ in type or hold neither
   members nor elements; removed is what the target does not have, added what the source does
   not have.
   */
  predicate Aimed(s: Json, t: Json, op: PatchOp) {
    match op
    case Replace(p, v) =>
      && Get(s, p).Ok? && Get(t, p) == Ok(v)
      && !Equal(Get(s, p).value, v)
      && (TypeOf(Get(s, p).value) != TypeOf(v) || !(v.Array? || v.Object?))
    case Remove(p) => p != [] && Get(s, p).Ok? && Get(t, p).Err? && Get(t, Parent(p)).Ok?
    case Add(p, v) =>
      && p != [] && Get(s, Parent(p)).Ok? && Get(t, Parent(p)).Ok?
      && ((Get(s, p).Err? && Get(t, p) == Ok(v))
          || (Last(p) == "-" && Appends(Get(s, Parent(p)).value, Get(t, Parent(p)).value, v)))
    case _ => false
  }

  ghost predicate AllAimed(s: Json, t: Json, ops: seq<PatchOp>) {
    forall op | op in ops :: Aimed(s, t, op)
  }

  lemma LiftAimed(s: Json, t: Json, token: string, op: PatchOp)
    requires Child(s, token).Ok? && Child(t, token).Ok?
    requires Aimed(Child(s, token).value, Child(t, token).value, op)
    ensures Aimed(s, t, Lift(token, op))
  {
    hide Get, Equal, Child;
    GetBelow(s, token, op.path);
    GetBelow(t, token, op.path);
    if op.path != [] {
      assert Parent([token] + op.path) == [token] + Parent(op.path);
      GetBelow(s, token, Parent(op.path));
      GetBelow(t, token, Parent(op.path));
    }
  }

  lemma LiftAllAimed(s: Json, t: Json, token: string, ops: seq<PatchOp>)
    requires Child(s, token).Ok? && Child(t, token).Ok?
    requires AllAimed(Child(s, token).value, Child(t, token).value, ops)
    ensures AllAimed(s, t, LiftAll(token, ops))
  {
    hide Aimed, Child;
    forall op | op in LiftAll(token, ops) ensures Aimed(s, t, op) {
      var i :| 0 <= i < |ops| && op == Lift(token, ops[i]);
      assert ops[i] in ops;
      LiftAimed(s, t, token, ops[i]);
    }
  }

  lemma ChildAtIndex(a: seq<Json>, i: nat)
    requires i < MAX_UINT64
    ensures i < |a| ==> Child(Array(a), Decimal(i)) == Ok(a[i])
    ensures i >= |a| ==> Child(Array(a), Decimal(i)).Err?
  {
    IndexTokens(Decimal(i), i);
    DecimalShape(i);
    assert !IsDigit('-');
  }

  lemma GetOne(j: Json, token: string)
    ensures Get(j, [token]) == Child(j, token) && Parent([token]) == [] && Get(j, []) == Ok(j)
  {
    assert [token][1..] == [];
  }

  /** Every operation of a diff is aimed at a difference of the two values. */
  lemma {:induction false} DiffIsAimed(s: Json, t: Json)
    requires Storable(s)
    ensures AllAimed(s, t, DiffOps(s, t))
    decreases s, 1
  {
    hide Aimed, Storable;
    StorableParts(s);
    if !Equal(s, t) {
      if TypeOf(s) == TypeOf(t) && s.Array? {
        CommonOpsAimed(s, t, 0);
        RemovalOpsAimed(s, t, |s.elems|);
        AppendOpsAimed(s, t, Min(|s.elems|, |t.elems|));
      } else if TypeOf(s) == TypeOf(t) && s.Object? {
        MemberOpsAimed(s, t, SortedKeys(s.members.Keys));
        NewMemberOpsAimed(s, t, SortedKeys(t.members.Keys));
      } else {
        ReplaceAimed(s, t);
      }
    }
  }

  lemma StorableParts(s: Json)
    requires Storable(s)
    ensures s.Array? ==> |s.elems| <= MAX_SIZE && forall i | 0 <= i < |s.elems| :: Storable(s.elems[i])
    ensures s.Object? ==> forall k | k in s.members :: Storable(s.members[k])
  {
  }

  lemma ReplaceAimed(s: Json, t: Json)
    requires !Equal(s, t) && (TypeOf(s) != TypeOf(t) || !(t.Array? || t.Object?))
    ensures Aimed(s, t, Replace([], t))
  {
  }

  lemma {:induction false} CommonOpsAimed(s: Json, t: Json, i: nat)
    requires s.Array? && t.Array? && Storable(s)
    ensures AllAimed(s, t, CommonOps(s, t, i))
    decreases s, 0, |s.elems| - i
  {
    hide Aimed, Storable, Child;
    StorableParts(s);
    if i < |s.elems| && i < |t.elems| {
      DiffIsAimed(s.elems[i], t.elems[i]);
      ChildAtIndex(s.elems, i);
      ChildAtIndex(t.elems, i);
      LiftAllAimed(s, t, Decimal(i), DiffOps(s.elems[i], t.elems[i]));
      CommonOpsAimed(s, t, i + 1);
    }
  }

  lemma {:induction false} RemovalOpsAimed(s: Json, t: Json, hi: nat)
    requires s.Array? && t.Array? && hi <= |s.elems| <= MAX_SIZE
    ensures AllAimed(s, t, RemovalOps(|t.elems|, hi))
    decreases hi
  {
    if |t.elems| < hi {
      var token := Decimal(hi - 1);
      ChildAtIndex(s.elems, hi - 1);
      ChildAtIndex(t.elems, hi - 1);
      GetOne(s, token);
      GetOne(t, token);
      assert Aimed(s, t, Remove([token]));
      hide Aimed, Child;
      RemovalOpsAimed(s, t, hi - 1);
    }
  }

  lemma {:induction false} AppendOpsAimed(s: Json, t: Json, i: nat)
    requires s.Array? && t.Array? && (i >= |s.elems| || i >= |t.elems|)
    ensures AllAimed(s, t, AppendOps(t.elems, i))
    decreases |t.elems| - i
  {
    if i < |t.elems| {
      GetOne(s, "-");
      GetOne(t, "-");
      assert Appends(s, t, t.elems[i]);
      assert Aimed(s, t, Add(["-"], t.elems[i]));
      hide Aimed;
      AppendOpsAimed(s, t, i + 1);
    }
  }

  lemma {:induction false} MemberOpsAimed(s: Json, t: Json, ks: seq<string>)
    requires s.Object? && t.Object? && Storable(s) && forall k | k in ks :: k in s.members
    ensures AllAimed(s, t, MemberOps(s, t, ks))
    decreases s, 0, |ks|
  {
    hide Aimed, Storable;
    StorableParts(s);
    if ks != [] {
      var k := ks[0];
      assert k in ks;
      if k in t.members {
        DiffIsAimed(s.members[k], t.members[k]);
        LiftAllAimed(s, t, k, DiffOps(s.members[k], t.members[k]));
      } else {
        RemoveAimed(s, t, k);
      }
      MemberOpsAimed(s, t, ks[1..]);
    }
  }

  lemma RemoveAimed(s: Json, t: Json, k: string)
    requires s.Object? && t.Object? && k in s.members && k !in t.members
    ensures Aimed(s, t, Remove([k]))
  {
    GetOne(s, k);
    GetOne(t, k);
  }

  lemma {:induction false} NewMemberOpsAimed(s: Json, t: Json, ks: seq<string>)
    requires s.Object? && t.Object? && forall k | k in ks :: k in t.members
    ensures AllAimed(s, t, NewMemberOps(s, t, ks))
    decreases |ks|
  {
    hide Aimed;
    if ks != [] {
      var k := ks[0];
      assert k in ks;
      if k !in s.members { AddAimed(s, t, k); }
      NewMemberOpsAimed(s, t, ks[1..]);
    }
  }

  lemma AddAimed(s: Json, t: Json, k: string)
    requires s.Object? && t.Object? && k !in s.members && k in t.members
    ensures Aimed(s, t, Add([k], t.members[k]))
  {
    GetOne(s, k);
    GetOne(t, k);
  }

  // ---------------------------------------------------------------- no place twice

  /** The two aim at places neither of which lies at or below the other, or both append to one array. */
  predicate Separate(a: PatchOp, b: PatchOp) {
    Apart(a.path, b.path) || (a.Add? && b.Add? && a.path != [] && a.path == b.path && Last(a.path) == "-")
  }

  ghost predicate AllSeparate(ops: seq<PatchOp>) {
    forall i, j | 0 <= i < j < |ops| :: Separate(ops[i], ops[j])
  }

  /** The tokens the paths of some operations start with. */
  ghost predicate StartWithin(ops: seq<PatchOp>, tokens: set<string>) {
    forall op | op in ops :: op.path != [] && op.path[0] in tokens
  }

  lemma SeparateLists(a: seq<PatchOp>, b: seq<PatchOp>, ta: set<string>, tb: set<string>)
    requires AllSeparate(a) && AllSeparate(b) && StartWithin(a, ta) && StartWithin(b, tb) && ta !! tb
    ensures AllSeparate(a + b) && StartWithin(a + b, ta + tb)
  {
    forall i, j | 0 <= i < j < |a + b| ensures Separate((a + b)[i], (a + b)[j]) {
      if j < |a| {
        assert Separate(a[i], a[j]);
      } else if i >= |a| {
        assert Separate(b[i - |a|], b[j - |a|]);
      } else {
        assert a[i] in a && b[j - |a|] in b;
      }
    }
  }

  lemma LiftSeparate(token: string, ops: seq<PatchOp>)
    requires AllSeparate(ops)
    ensures AllSeparate(LiftAll(token, ops)) && StartWithin(LiftAll(token, ops), {token})
  {
    forall i, j | 0 <= i < j < |ops| ensures Separate(Lift(token, ops[i]), Lift(token, ops[j])) {
      assert Separate(ops[i], ops[j]);
      LiftApart(token, ops[i].path, ops[j].path);
      if ops[i].path != [] { assert Last([token] + ops[i].path) == Last(ops[i].path); }
    }
  }

  lemma LiftApart(token: string, p: Pointer, q: Pointer)
    ensures Apart([token] + p, [token] + q) <==> Apart(p, q)
  {
    assert ([token] + p)[1..] == p && ([token] + q)[1..] == q;
    assert [token] + p <= [token] + q <==> p <= q;
    assert [token] + q <= [token] + p <==> q <= p;
  }

  lemma OneSeparate(op: PatchOp, token: string)
    requires op.path != [] && op.path[0] == token
    ensures AllSeparate([op]) && StartWithin([op], {token})
  {
  }

  /** The array index tokens from `lo` up to `hi`. */
  ghost function Indices(lo: nat, hi: nat): set<string> {
    set i | lo <= i < hi :: Decimal(i)
  }

  lemma DecimalInjective(i: nat, j: nat)
    ensures Decimal(i) == Decimal(j) ==> i == j
    ensures Decimal(i) != "-"
  {
    DecimalShape(i);
    DecimalShape(j);
    assert !IsDigit('-');
  }

  lemma IndicesDisjoint(a: nat, b: nat, c: nat, d: nat)
    requires b <= c
    ensures Indices(a, b) !! Indices(c, d) && "-" !in Indices(a, b)
  {
    forall i, j | a <= i < b && c <= j < d ensures Decimal(i) != Decimal(j) { DecimalInjective(i, j); }
    forall i | a <= i < b ensures Decimal(i) != "-" { DecimalInjective(i, i); }
  }

  /** The operations of a diff aim at separate places: nothing is replaced, removed or added twice. */
  lemma {:induction false} DiffIsSeparate(s: Json, t: Json)
    ensures AllSeparate(DiffOps(s, t))
    decreases s, 1
  {
    hide Separate, StartWithin, Indices;
    if !Equal(s, t) && TypeOf(s) == TypeOf(t) {
      if s.Array? {
        var n, m := |s.elems|, |t.elems|;
        var common, removals := CommonOps(s, t, 0), RemovalOps(m, n);
        CommonOpsSeparate(s, t, 0);
        RemovalOpsSeparate(m, n);
        AppendOpsSeparate(t.elems, Min(n, m));
        IndicesDisjoint(0, Min(n, m), m, n);
        SeparateLists(common, removals, Indices(0, Min(n, m)), Indices(m, n));
        IndicesDisjoint(m, n, n, n);
        SeparateLists(common + removals, AppendOps(t.elems, Min(n, m)), Indices(0, Min(n, m)) + Indices(m, n), {"-"});
      } else if s.Object? {
        var ks, kt := SortedKeys(s.members.Keys), SortedKeys(t.members.Keys);
        MemberOpsSeparate(s, t, ks);
        NewMemberOpsSeparate(s, t, kt);
        var mine, theirs := set k | k in ks, set k | k in kt && k !in s.members;
        SeparateLists(MemberOps(s, t, ks), NewMemberOps(s, t, kt), mine, theirs);
      }
    }
  }

  lemma {:induction false} CommonOpsSeparate(s: Json, t: Json, i: nat)
    requires s.Array? && t.Array?
    ensures var n := Min(|s.elems|, |t.elems|);
            AllSeparate(CommonOps(s, t, i)) && StartWithin(CommonOps(s, t, i), Indices(i, n))
    decreases s, 0, |s.elems| - i
  {
    hide Separate, AllSeparate;
    NothingSeparate(Indices(i, Min(|s.elems|, |t.elems|)));
    if i < |s.elems| && i < |t.elems| {
      var n := Min(|s.elems|, |t.elems|);
      var ops := DiffOps(s.elems[i], t.elems[i]);
      DiffIsSeparate(s.elems[i], t.elems[i]);
      LiftSeparate(Decimal(i), ops);
      CommonOpsSeparate(s, t, i + 1);
      IndicesDisjoint(i, i + 1, i + 1, n);
      IndicesSplit(i, n);
      SeparateLists(LiftAll(Decimal(i), ops), CommonOps(s, t, i + 1), {Decimal(i)}, Indices(i + 1, n));
    }
  }

  lemma NothingSeparate(tokens: set<string>)
    ensures AllSeparate([]) && StartWithin([], tokens)
  {
  }

  lemma IndicesSplit(lo: nat, hi: nat)
    requires lo < hi
    ensures Indices(lo, hi) == {Decimal(lo)} + Indices(lo + 1, hi)
    ensures Indices(lo, hi) == Indices(lo, hi - 1) + {Decimal(hi - 1)}
    ensures Indices(lo, lo + 1) == {Decimal(lo)}
  {
    forall i | lo <= i < hi ensures i == lo || Decimal(i) in Indices(lo + 1, hi) {}
    forall i | lo <= i < hi ensures i == hi - 1 || Decimal(i) in Indices(lo, hi - 1) {}
  }

  lemma {:induction false} RemovalOpsSeparate(lo: nat, hi: nat)
    ensures AllSeparate(RemovalOps(lo, hi)) && StartWithin(RemovalOps(lo, hi), Indices(lo, hi))
    decreases hi
  {
    hide Separate, AllSeparate, StartWithin, Indices;
    NothingSeparate(Indices(lo, hi));
    if lo < hi {
      var op := Remove([Decimal(hi - 1)]);
      RemovalOpsSeparate(lo, hi - 1);
      OneSeparate(op, Decimal(hi - 1));
      IndicesDisjoint(lo, hi - 1, hi - 1, hi);
      IndicesSplit(lo, hi);
      IndicesSplit(hi - 1, hi);
      SeparateLists([op], RemovalOps(lo, hi - 1), {Decimal(hi - 1)}, Indices(lo, hi - 1));
      assert {Decimal(hi - 1)} + Indices(lo, hi - 1) == Indices(lo, hi);
    }
  }

  lemma {:induction false} AppendOpsSeparate(ts: seq<Json>, i: nat)
    ensures AllSeparate(AppendOps(ts, i)) && StartWithin(AppendOps(ts, i), {"-"})
    ensures forall op | op in AppendOps(ts, i) :: op.Add? && op.path == ["-"]
    decreases |ts| - i
  {
    if i < |ts| { AppendOpsSeparate(ts, i + 1); }
  }

  lemma {:induction false} MemberOpsSeparate(s: Json, t: Json, ks: seq<string>)
    requires s.Object? && t.Object? && forall k | k in ks :: k in s.members
    requires forall i, j | 0 <= i < j < |ks| :: ks[i] != ks[j]
    ensures AllSeparate(MemberOps(s, t, ks)) && StartWithin(MemberOps(s, t, ks), set k | k in ks)
    decreases s, 0, |ks|
  {
    hide Separate, AllSeparate, StartWithin;
    NothingSeparate(set k | k in ks);
    if ks != [] {
      var k, rest := ks[0], ks[1..];
      assert k in ks && k !in rest;
      if k in t.members {
        DiffIsSeparate(s.members[k], t.members[k]);
        LiftSeparate(k, DiffOps(s.members[k], t.members[k]));
      } else {
        OneSeparate(Remove([k]), k);
      }
      MemberOpsSeparate(s, t, rest);
      var mine := if k in t.members then LiftAll(k, DiffOps(s.members[k], t.members[k])) else [Remove([k])];
      SeparateLists(mine, MemberOps(s, t, rest), {k}, set x | x in rest);
      assert (set x | x in ks) == {k} + (set x | x in rest);
    }
  }

  lemma {:induction false} NewMemberOpsSeparate(s: Json, t: Json, ks: seq<string>)
    requires s.Object? && t.Object? && forall k | k in ks :: k in t.members
    requires forall i, j | 0 <= i < j < |ks| :: ks[i] != ks[j]
    ensures AllSeparate(NewMemberOps(s, t, ks))
    ensures StartWithin(NewMemberOps(s, t, ks), set k | k in ks && k !in s.members)
    decreases |ks|
  {
    hide Separate, AllSeparate, StartWithin;
    NothingSeparate(set k | k in ks && k !in s.members);
    if ks != [] {
      var k, rest := ks[0], ks[1..];
      assert k in ks && k !in rest;
      NewMemberOpsSeparate(s, t, rest);
      var others := set x | x in rest && x !in s.members;
      if k in s.members {
        assert (set x | x in ks && x !in s.members) == others;
        assert [] + NewMemberOps(s, t, rest) == NewMemberOps(s, t, rest);
      } else {
        var op := Add([k], t.members[k]);
        OneSeparate(op, k);
        SeparateLists([op], NewMemberOps(s, t, rest), {k}, others);
        assert (set x | x in ks && x !in s.members) == {k} + others;
      }
    }
  }

  // ---------------------------------------------------------------- what they do

  /** Running the diff completes; the result equals the target if the target can equal anything. */
  ghost predicate Rebuilds(s: Json, ops: seq<PatchOp>, t: Json) {
    RunAll(s, ops).Done? && (Clean(t) ==> Equal(RunAll(s, ops).doc, t))
  }

  lemma {:induction false} DiffRebuilds(s: Json, t: Json)
    requires Storable(s)
    ensures Rebuilds(s, DiffOps(s, t), t)
    decreases s, 1
  {
    if Equal(s, t) {
    } else if TypeOf(s) == TypeOf(t) && s.Array? {
      ArrayRebuilds(s, t);
    } else if TypeOf(s) == TypeOf(t) && s.Object? {
      ObjectRebuilds(s, t);
    } else {
      assert [Replace([], t)][1..] == [];
      if Clean(t) { EqualToItself(t); }
    }
  }

  /** `doc` after a diff of the child under `token`, when that child is still the source's. */
  lemma LiftedDiffRebuilds(doc: Json, token: string, t: Json)
    requires Child(doc, token).Ok?
    requires Rebuilds(Child(doc, token).value, DiffOps(Child(doc, token).value, t), t)
    ensures var c := Child(doc, token).value;
            RunAll(doc, LiftAll(token, DiffOps(c, t))) == Done(SetChild(doc, token, RunAll(c, DiffOps(c, t)).doc))
  {
    var c := Child(doc, token).value;
    DiffIsDiffShaped(c, t);
    LiftRunAll(doc, token, DiffOps(c, t));
  }

  lemma IndexOfDecimal(a: seq<Json>, i: nat)
    requires i < |a| <= MAX_SIZE
    ensures Child(Array(a), Decimal(i)) == Ok(a[i]) && ArrayIndex(Decimal(i)) == Ok(i)
  {
    IndexTokens(Decimal(i), i);
    DecimalShape(i);
    assert !IsDigit('-');
  }

  /** Positions below `i` are done, the rest of the document is still the source. */
  lemma {:induction false} CommonOpsRun(s: Json, t: Json, i: nat, a: seq<Json>) returns (b: seq<Json>)
    requires Storable(s) && s.Array? && t.Array? && |a| == |s.elems| && i <= Min(|a|, |t.elems|)
    requires a[i..] == s.elems[i..]
    ensures RunAll(Array(a), CommonOps(s, t, i)) == Done(Array(b))
    ensures |b| == |a| && b[..i] == a[..i]
    ensures forall j | i <= j < Min(|a|, |t.elems|) :: Clean(t.elems[j]) ==> Equal(b[j], t.elems[j])
    decreases s, 0, |s.elems| - i
  {
    if i == Min(|a|, |t.elems|) {
      return a;
    }
    var ops := DiffOps(s.elems[i], t.elems[i]);
    DiffRebuilds(s.elems[i], t.elems[i]);
    var r := RunAll(s.elems[i], ops).doc;
    UpdateAtFront(a, s.elems, i, r);
    ElementRun(a, i, t.elems[i]);
    b := CommonOpsRun(s, t, i + 1, a[i := r]);
    RunInParts(Array(a), LiftAll(Decimal(i), ops), CommonOps(s, t, i + 1));
    PrefixOfUpdate(a, b, i, r);
  }

  lemma ElementRun(a: seq<Json>, i: nat, t: Json)
    requires i < |a| <= MAX_SIZE && Rebuilds(a[i], DiffOps(a[i], t), t)
    ensures RunAll(Array(a), LiftAll(Decimal(i), DiffOps(a[i], t))) ==
            Done(Array(a[i := RunAll(a[i], DiffOps(a[i], t)).doc]))
  {
    IndexOfDecimal(a, i);
    LiftedDiffRebuilds(Array(a), Decimal(i), t);
  }

  lemma UpdateAtFront<T>(a: seq<T>, src: seq<T>, i: nat, x: T)
    requires i < |a| == |src| && a[i..] == src[i..]
    ensures a[i] == src[i] && a[i := x][i + 1..] == src[i + 1..]
  {
    assert a[i] == a[i..][0] && src[i] == src[i..][0];
    assert a[i + 1..] == a[i..][1..] && src[i + 1..] == src[i..][1..];
  }

  lemma PrefixOfUpdate<T>(a: seq<T>, b: seq<T>, i: nat, x: T)
    requires i < |a| == |b| && b[..i + 1] == a[i := x][..i + 1]
    ensures b[i] == x && b[..i] == a[..i]
  {
    assert b[i] == b[..i + 1][i] == x;
    assert b[..i] == b[..i + 1][..i] == a[..i];
  }

  lemma {:induction false} RemovalOpsRun(a: seq<Json>, lo: nat)
    requires lo <= |a| <= MAX_SIZE
    ensures RunAll(Array(a), RemovalOps(lo, |a|)) == Done(Array(a[..lo]))
    decreases |a|
  {
    if lo == |a| {
      assert a[..lo] == a;
    } else {
      var n := |a| - 1;
      IndexOfDecimal(a, n);
      assert Parent([Decimal(n)]) == [];
      assert a[..n] + a[n + 1..] == a[..n];
      assert Run(Array(a), Remove([Decimal(n)])) == Done(Array(a[..n]));
      assert RemovalOps(lo, |a|)[1..] == RemovalOps(lo, n);
      RemovalOpsRun(a[..n], lo);
      assert a[..n][..lo] == a[..lo];
    }
  }

  lemma AppendRun(a: seq<Json>, v: Json)
    ensures Run(Array(a), Add(["-"], v)) == Done(Array(a + [v]))
  {
    assert Parent(["-"]) == [];
  }

  lemma AppendFirst(a: seq<Json>, ts: seq<Json>, i: nat)
    requires i < |ts|
    ensures (a + [ts[i]]) + ts[i + 1..] == a + ts[i..]
  {
  }

  lemma {:induction false} AppendOpsRun(a: seq<Json>, ts: seq<Json>, i: nat)
    requires i <= |ts|
    ensures RunAll(Array(a), AppendOps(ts, i)) == Done(Array(a + ts[i..]))
    decreases |ts| - i
  {
    if i == |ts| {
      assert a + ts[i..] == a;
    } else {
      AppendRun(a, ts[i]);
      assert AppendOps(ts, i)[1..] == AppendOps(ts, i + 1);
      AppendOpsRun(a + [ts[i]], ts, i + 1);
      AppendFirst(a, ts, i);
    }
  }

  lemma {:induction false} ArrayRebuilds(s: Json, t: Json)
    requires Storable(s) && s.Array? && t.Array? && !Equal(s, t)
    ensures Rebuilds(s, DiffOps(s, t), t)
    decreases s, 0
  {
    hide DiffOps, CommonOps, RemovalOps, AppendOps, Equal, Clean, Storable;
    StorableParts(s);
    var n := Min(|s.elems|, |t.elems|);
    var b := CommonOpsRun(s, t, 0, s.elems);
    ArrayOps(s, t);
    RemovalsRun(b, |t.elems|);
    AppendOpsRun(b[..n], t.elems, n);
    RunInParts(s, CommonOps(s, t, 0), RemovalOps(|t.elems|, |s.elems|));
    RunInParts(s, CommonOps(s, t, 0) + RemovalOps(|t.elems|, |s.elems|), AppendOps(t.elems, n));
    assert RunAll(s, DiffOps(s, t)) == Done(Array(b[..n] + t.elems[n..]));
    if Clean(t) { ElementsMatch(b, t.elems, n); }
  }

  lemma ArrayOps(s: Json, t: Json)
    requires s.Array? && t.Array? && !Equal(s, t)
    ensures DiffOps(s, t) ==
            CommonOps(s, t, 0) + RemovalOps(|t.elems|, |s.elems|) + AppendOps(t.elems, Min(|s.elems|, |t.elems|))
  {
    hide CommonOps, RemovalOps, AppendOps, Equal;
  }

  /** Removing what is behind `lo`, if anything is. */
  lemma RemovalsRun(b: seq<Json>, lo: nat)
    requires |b| <= MAX_SIZE
    ensures RunAll(Array(b), RemovalOps(lo, |b|)) == Done(Array(b[..Min(|b|, lo)]))
  {
    if |b| > lo {
      RemovalOpsRun(b, lo);
    } else {
      assert b[..|b|] == b && RemovalOps(lo, |b|) == [];
    }
  }

  /** Elements that match, followed by the target's own. */
  lemma ElementsMatch(b: seq<Json>, ts: seq<Json>, n: nat)
    requires n <= |b| && n <= |ts| && Clean(Array(ts))
    requires forall j | 0 <= j < n :: Clean(ts[j]) ==> Equal(b[j], ts[j])
    ensures Equal(Array(b[..n] + ts[n..]), Array(ts))
  {
    var r := b[..n] + ts[n..];
    forall j | 0 <= j < |r| ensures Equal(r[j], ts[j]) {
      if j >= n { EqualToItself(ts[j]); }
    }
  }

  lemma {:induction false} MemberOpsRun(s: Json, t: Json, ks: seq<string>, m: map<string, Json>)
    returns (m': map<string, Json>)
    requires Storable(s) && s.Object? && t.Object? && forall k | k in ks :: k in s.members
    requires forall k | k in ks :: k in m && m[k] == s.members[k]
    requires forall i, j | 0 <= i < j < |ks| :: ks[i] != ks[j]
    ensures RunAll(Object(m), MemberOps(s, t, ks)) == Done(Object(m'))
    ensures forall k :: k in m' <==> k in m && (k in ks ==> k in t.members)
    ensures forall k | k in m && k !in ks :: m'[k] == m[k]
    ensures forall k | k in ks && k in t.members :: Clean(t.members[k]) ==> Equal(m'[k], t.members[k])
    decreases s, 0, |ks|
  {
    if ks == [] {
      return m;
    }
    var k, rest := ks[0], ks[1..];
    assert k in ks && k !in rest;
    var ops, m1;
    if k in t.members {
      DiffRebuilds(s.members[k], t.members[k]);
      LiftedDiffRebuilds(Object(m), k, t.members[k]);
      ops := LiftAll(k, DiffOps(s.members[k], t.members[k]));
      m1 := m[k := RunAll(m[k], DiffOps(s.members[k], t.members[k])).doc];
    } else {
      ops := [Remove([k])];
      m1 := m - {k};
      assert Parent([k]) == [];
      assert Run(Object(m), Remove([k])) == Done(Object(m1));
      assert ops[1..] == [];
    }
    assert RunAll(Object(m), ops) == Done(Object(m1));
    m' := MemberOpsRun(s, t, rest, m1);
    RunInParts(Object(m), ops, MemberOps(s, t, rest));
  }

  lemma {:induction false} NewMemberOpsRun(s: Json, t: Json, ks: seq<string>, m: map<string, Json>)
    returns (m': map<string, Json>)
    requires s.Object? && t.Object? && forall k | k in ks :: k in t.members
    ensures RunAll(Object(m), NewMemberOps(s, t, ks)) == Done(Object(m'))
    ensures forall k :: k in m' <==> k in m || (k in ks && k !in s.members)
    ensures forall k | k in m' ::
              m'[k] == if k in ks && k !in s.members then t.members[k] else m[k]
    decreases |ks|
  {
    if ks == [] {
      return m;
    }
    var k, rest := ks[0], ks[1..];
    assert k in ks;
    if k in s.members {
      assert NewMemberOps(s, t, ks) == NewMemberOps(s, t, rest);
      m' := NewMemberOpsRun(s, t, rest, m);
    } else {
      var m1 := m[k := t.members[k]];
      assert Parent([k]) == [];
      assert Run(Object(m), Add([k], t.members[k])) == Done(Object(m1));
      assert NewMemberOps(s, t, ks)[1..] == NewMemberOps(s, t, rest);
      m' := NewMemberOpsRun(s, t, rest, m1);
    }
  }

  lemma {:induction false} ObjectRebuilds(s: Json, t: Json)
    requires Storable(s) && s.Object? && t.Object? && !Equal(s, t)
    ensures Rebuilds(s, DiffOps(s, t), t)
    decreases s, 0
  {
    var ks, kt := SortedKeys(s.members.Keys), SortedKeys(t.members.Keys);
    var m1 := MemberOpsRun(s, t, ks, s.members);
    var m2 := NewMemberOpsRun(s, t, kt, m1);
    RunInParts(s, MemberOps(s, t, ks), NewMemberOps(s, t, kt));
    MembersMatch(s, t, m1, m2);
  }

  /** Kept members equal the target's, new ones are the target's. */
  lemma MembersMatch(s: Json, t: Json, m1: map<string, Json>, m2: map<string, Json>)
    requires s.Object? && t.Object?
    requires forall k :: k in m1 <==> k in s.members && k in t.members
    requires forall k | k in m1 :: Clean(t.members[k]) ==> Equal(m1[k], t.members[k])
    requires forall k :: k in m2 <==> k in t.members
    requires forall k | k in m2 :: m2[k] == if k in s.members then m1[k] else t.members[k]
    ensures Clean(t) ==> Equal(Object(m2), t)
  {
    assert m2.Keys == t.members.Keys;
    if Clean(t) {
      forall k | k in m2 ensures Equal(m2[k], t.members[k]) {
        if k !in s.members { EqualToItself(t.members[k]); }
      }
    }
  }

  // ---------------------------------------------------------------- the law

  /** `diff(source, target)` as a patch document. */
  function DiffDocument(s: Json, t: Json): Json {
    Array(EncodeAll("", DiffOps(s, t)))
  }

  /**
   The law of `diff`: applying `diff(s, t)` to `s` never throws, and the result equals `t`
   exactly when `t` holds no NaN and no discarded value.
   */
  lemma PatchOfDiffRebuildsTarget(s: Json, t: Json)
    requires Storable(s)
    ensures ApplyPatch(s, DiffDocument(s, t)).Done?
    ensures Equal(ApplyPatch(s, DiffDocument(s, t)).doc, t) <==> Clean(t)
  {
    ApplyEncoded(s, DiffOps(s, t));
    DiffRebuilds(s, t);
    var r := RunAll(s, DiffOps(s, t)).doc;
    if Equal(r, t) { EqualOnlyIfClean(r, t); }
  }

  /** The law fails for a target that holds NaN, even against itself. */
  lemma LawFailsForNaN()
    ensures var j := Array([Float(NaN)]);
            DiffDocument(j, j) != Array([]) && !Equal(ApplyPatch(j, DiffDocument(j, j)).doc, j)
  {
    var j := Array([Float(NaN)]);
    assert !Equal(j.elems[0], j.elems[0]);
    PatchOfDiffRebuildsTarget(j, j);
    assert !Clean(j) by { assert !Clean(j.elems[0]); }
    EmptyExactlyWhenEqual(j, j);
    assert |EncodeAll("", DiffOps(j, j))| > 0;
  }

  // ---------------------------------------------------------------- the code

  lemma {:induction false} DigitsNeedNoEscape(s: string)
    requires forall i | 0 <= i < |s| :: IsDigit(s[i])
    ensures Escaped(s) == s
  {
    if s != "" {
      DigitsNeedNoEscape(s[1..]);
      assert s == [s[0]] + s[1..];
    }
  }

  /** The text of a one-token path, spelled the way `diff` spells it. */
  lemma PathOfToken(path: string, token: string)
    ensures path + Render([token]) == path + ("/" + Escaped(token))
  {
    RenderCons(token, []);
    assert [token] + [] == [token];
    assert Escaped(token) + "" == Escaped(token);
  }

  function AddElement(path: string, v: Json): Json {
    Object(map["op" := String("add"), "path" := String(path), "value" := v])
  }

  function RemoveElement(path: string): Json {
    Object(map["op" := String("remove"), "path" := String(path)])
  }

  function ReplaceElement(path: string, v: Json): Json {
    Object(map["op" := String("replace"), "path" := String(path), "value" := v])
  }

  lemma EncodeAdd(path: string, token: string, v: Json)
    ensures Encode(path, Add([token], v)) == AddElement(path + ("/" + Escaped(token)), v)
  {
    PathOfToken(path, token);
  }

  lemma EncodeRemove(path: string, token: string)
    ensures Encode(path, Remove([token])) == RemoveElement(path + ("/" + Escaped(token)))
  {
    PathOfToken(path, token);
  }

  lemma EncodeNone(path: string)
    ensures EncodeAll(path, []) == []
  {
  }

  /** One more operation written out behind those already written. */
  lemma EncodeMore(path: string, done: seq<PatchOp>, op: PatchOp)
    ensures EncodeAll(path, done) + [Encode(path, op)] == EncodeAll(path, done + [op])
  {
  }

  /** A turn of the loops that recurse: a child's patch joins what is already written. */
  lemma ChildStep(path: string, token: string, done: seq<PatchOp>, ops: seq<PatchOp>, rest: seq<PatchOp>)
    ensures EncodeAll(path, done) + EncodeAll(path + ("/" + Escaped(token)), ops) ==
            EncodeAll(path, done + LiftAll(token, ops))
    ensures (done + LiftAll(token, ops)) + rest == done + (LiftAll(token, ops) + rest)
  {
    EncodeLiftAll(path, token, ops);
    EncodeConcat(path, done, LiftAll(token, ops));
    Regroup(done, LiftAll(token, ops), rest);
  }

  lemma RemoveStep(path: string, token: string, done: seq<PatchOp>, rest: seq<PatchOp>)
    ensures EncodeAll(path, done) + [RemoveElement(path + ("/" + Escaped(token)))] ==
            EncodeAll(path, done + [Remove([token])])
    ensures (done + [Remove([token])]) + rest == done + ([Remove([token])] + rest)
  {
    EncodeRemove(path, token);
    EncodeMore(path, done, Remove([token]));
    Regroup(done, [Remove([token])], rest);
  }

  lemma AddStep(path: string, token: string, v: Json, done: seq<PatchOp>, rest: seq<PatchOp>)
    ensures EncodeAll(path, done) + [AddElement(path + ("/" + Escaped(token)), v)] ==
            EncodeAll(path, done + [Add([token], v)])
    ensures (done + [Add([token], v)]) + rest == done + ([Add([token], v)] + rest)
  {
    EncodeAdd(path, token, v);
    EncodeMore(path, done, Add([token], v));
    Regroup(done, [Add([token], v)], rest);
  }

  /** Inserting a removal at `endIndex` puts it before the removals already written. */
  lemma InsertRemoval(path: string, common: seq<PatchOp>, lo: nat, i: nat, result: seq<Json>, endIndex: nat)
    requires lo <= i && endIndex == |common| && result == EncodeAll(path, common + RemovalOps(lo, i))
    ensures result[..endIndex] + [RemoveElement(path + ("/" + Decimal(i)))] + result[endIndex..] ==
            EncodeAll(path, common + RemovalOps(lo, i + 1))
  {
    IndexNeedsNoEscape(i);
    EncodeRemove(path, Decimal(i));
    var op := Remove([Decimal(i)]);
    EncodeConcat(path, common, RemovalOps(lo, i));
    EncodeMore(path, common, op);
    EncodeConcat(path, common + [op], RemovalOps(lo, i));
    Regroup(common, [op], RemovalOps(lo, i));
  }

  lemma IndexNeedsNoEscape(i: nat)
    ensures Escaped(Decimal(i)) == Decimal(i)
  {
    DecimalShape(i);
    DigitsNeedNoEscape(Decimal(i));
  }

  /** `diff`: the loops that build the patch document. */
  method Diff(source: Json, target: Json, path: string := "") returns (result: Json)
    ensures result == Array(EncodeAll(path, DiffOps(source, target)))
    decreases source, 1
  {
    if Equal(source, target) {
      return Array([]);
    }
    if TypeOf(source) != TypeOf(target) || !(source.Array? || source.Object?) {
      assert path + "" == path;
      EncodeMore(path, [], Replace([], target));
      return Array([ReplaceElement(path, target)]);
    }
    if source.Array? {
      var ops := DiffArrays(source, target, path);
      return Array(ops);
    }
    var ops := DiffObjects(source, target, path);
    return Array(ops);
  }

  method DiffArrays(source: Json, target: Json, path: string) returns (result: seq<Json>)
    requires source.Array? && target.Array?
    ensures var a, b := source.elems, target.elems;
            result == EncodeAll(path, CommonOps(source, target, 0) + RemovalOps(|b|, |a|) + AppendOps(b, Min(|a|, |b|)))
    decreases source, 0
  {
    hide DiffOps, EncodeAll, LiftAll, Decimal, Equal;
    EncodeNone(path);
    var a, b := source.elems, target.elems;
    result := [];
    ghost var done: seq<PatchOp> := [];
    ghost var common := CommonOps(source, target, 0);
    assert done + common == common;
    var i: nat := 0;
    while i < |a| && i < |b|
      invariant i <= Min(|a|, |b|)
      invariant result == EncodeAll(path, done) && done + CommonOps(source, target, i) == common
    {
      IndexNeedsNoEscape(i);
      var temp := Diff(a[i], b[i], path + ("/" + Decimal(i)));
      ChildStep(path, Decimal(i), done, DiffOps(a[i], b[i]), CommonOps(source, target, i + 1));
      result := result + temp.elems;
      done := done + LiftAll(Decimal(i), DiffOps(a[i], b[i]));
      i := i + 1;
    }
    assert done == common;
    var endIndex := |result|;
    assert common + RemovalOps(|b|, i) == common;
    while i < |a|
      invariant Min(|a|, |b|) <= i && (i <= |a| || i <= |b|) && (|b| < |a| ==> |b| <= i <= |a|)
      invariant |b| >= |a| ==> i == |a|
      invariant endIndex == |common| && result == EncodeAll(path, common + RemovalOps(|b|, i))
    {
      InsertRemoval(path, common, |b|, i, result, endIndex);
      result := result[..endIndex] + [RemoveElement(path + ("/" + Decimal(i)))] + result[endIndex..];
      i := i + 1;
    }
    assert RemovalOps(|b|, i) == RemovalOps(|b|, |a|);
    done := common + RemovalOps(|b|, |a|);
    ghost var all := done + AppendOps(b, Min(|a|, |b|));
    assert all == done + AppendOps(b, i);
    while i < |b|
      invariant result == EncodeAll(path, done) && done + AppendOps(b, i) == all
    {
      assert Escaped("-") == "-" && "/" + "-" == "/-";
      AddStep(path, "-", b[i], done, AppendOps(b, i + 1));
      result := result + [AddElement(path + "/-", b[i])];
      done := done + [Add(["-"], b[i])];
      i := i + 1;
    }
    assert done == all;
  }

  method DiffObjects(source: Json, target: Json, path: string) returns (result: seq<Json>)
    requires source.Object? && target.Object?
    ensures result == EncodeAll(path,
                                MemberOps(source, target, SortedKeys(source.members.Keys))
                                + NewMemberOps(source, target, SortedKeys(target.members.Keys)))
    decreases source, 0, 1
  {
    result := TraverseSource(source, target, path);
    result := TraverseTarget(source, target, path, result, MemberOps(source, target, SortedKeys(source.members.Keys)));
  }

  /** First pass: this object's elements. */
  method TraverseSource(source: Json, target: Json, path: string) returns (result: seq<Json>)
    requires source.Object? && target.Object?
    ensures result == EncodeAll(path, MemberOps(source, target, SortedKeys(source.members.Keys)))
    decreases source, 0, 0
  {
    hide DiffOps, EncodeAll, LiftAll, Escaped;
    EncodeNone(path);
    var ks := SortedKeys(source.members.Keys);
    result := [];
    ghost var done: seq<PatchOp> := [];
    ghost var all := MemberOps(source, target, ks);
    assert done + all == all;
    for i := 0 to |ks|
      invariant result == EncodeAll(path, done) && done + MemberOps(source, target, ks[i..]) == all
    {
      var k := ks[i];
      assert k in ks && ks[i..][1..] == ks[i + 1..];
      ghost var rest := MemberOps(source, target, ks[i + 1..]);
      var token := Escape(k);
      var pathKey := path + ("/" + token);
      if k in target.members {
        var temp := Diff(source.members[k], target.members[k], pathKey);
        ghost var ops := DiffOps(source.members[k], target.members[k]);
        ChildStep(path, k, done, ops, rest);
        result := result + temp.elems;
        done := done + LiftAll(k, ops);
      } else {
        RemoveStep(path, k, done, rest);
        result := result + [RemoveElement(pathKey)];
        done := done + [Remove([k])];
      }
    }
    assert done == all;
  }

  /** Second pass: the other object's elements. */
  method TraverseTarget(source: Json, target: Json, path: string, before: seq<Json>, ghost kept: seq<PatchOp>)
    returns (result: seq<Json>)
    requires source.Object? && target.Object? && before == EncodeAll(path, kept)
    ensures result == EncodeAll(path, kept + NewMemberOps(source, target, SortedKeys(target.members.Keys)))
  {
    hide EncodeAll, Escaped;
    var kt := SortedKeys(target.members.Keys);
    result := before;
    ghost var done := kept;
    ghost var all := kept + NewMemberOps(source, target, kt);
    for i := 0 to |kt|
      invariant result == EncodeAll(path, done) && done + NewMemberOps(source, target, kt[i..]) == all
    {
      var k := kt[i];
      assert k in kt && kt[i..][1..] == kt[i + 1..];
      ghost var rest := NewMemberOps(source, target, kt[i + 1..]);
      if k !in source.members {
        var token := Escape(k);
        AddStep(path, k, target.members[k], done, rest);
        result := result + [AddElement(path + ("/" + token), target.members[k])];
        done := done + [Add([k], target.members[k])];
      } else {
        assert [] + rest == rest;
      }
    }
    assert done == all;
  }
}
