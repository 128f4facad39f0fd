/**
 The two recursive merges: `merge_patch` (RFC 7396) and `update(j, merge_objects)`.

 Each is a loop over the incoming object's members in key order. Each is proved against an
 order-free description: `MergePatched` is the MergePatch function of section 2 of
 RFC 7396, and `Updated` says what a completed update leaves. Then the two are compared.
 */
module JsonMerge {
  import opened Wrappers
  import opened JsonValues
  import opened KeyOrder
  import opened JsonPatch

  // ---------------------------------------------------------------- merge_patch

  function MembersOrNone(j: Json): map<string, Json> {
    if j.Object? then j.members else map[]
  }

  function ValueOrNull(m: map<string, Json>, k: string): Json {
    if k in m then m[k] else Null
  }

  /** MergePatch(Target, Patch). An absent target is passed as null; any non-object would do. */
  function MergePatched(target: Json, patch: Json): Json
    decreases patch
  {
    if !patch.Object? then patch
    else
      var m, p := MembersOrNone(target), patch.members;
      Object(map k | k in m.Keys + p.Keys && !(k in p && p[k].Null?) ::
               if k in p then MergePatched(ValueOrNull(m, k), p[k]) else m[k])
  }

  /** The members once the patch's keys in `seen` have been dealt with. */
  ghost predicate MergedSoFar(m: map<string, Json>, before: map<string, Json>, p: map<string, Json>, seen: set<string>)
    requires seen <= p.Keys
  {
    && (forall k :: k in m <==> if k in seen then !p[k].Null? else k in before)
    && (forall k | k in m :: m[k] == if k in seen then MergePatched(ValueOrNull(before, k), p[k]) else before[k])
  }

  lemma FullyMerged(m: map<string, Json>, target: Json, patch: Json)
    requires patch.Object? && MergedSoFar(m, MembersOrNone(target), patch.members, patch.members.Keys)
    ensures Object(m) == MergePatched(target, patch)
  {
    var r := MergePatched(target, patch).members;
    forall k ensures k in m <==> k in r {
    }
    assert m == r;
  }

  lemma MergedOneMore(m: map<string, Json>, before: map<string, Json>, p: map<string, Json>, seen: set<string>, k: string)
    requires seen <= p.Keys && k in p && k !in seen && MergedSoFar(m, before, p, seen)
    ensures ValueOrNull(m, k) == ValueOrNull(before, k)
    ensures var m' := if p[k].Null? then m - {k} else m[k := MergePatched(ValueOrNull(m, k), p[k])];
            MergedSoFar(m', before, p, seen + {k})
  {
    hide MergePatched;
  }

  method MergePatch(target: Json, patch: Json) returns (r: Json)
    ensures r == MergePatched(target, patch)
    decreases patch
  {
    if !patch.Object? {
      return patch;
    }
    hide MergedSoFar;
    var m, p := MembersOrNone(target), patch.members;
    ghost var before, seen: set<string> := m, {};
    NothingMerged(m, p);
    var ks := SortedKeys(p.Keys);
    for i := 0 to |ks|
      invariant seen <= p.Keys && MergedSoFar(m, before, p, seen)
      invariant seen == set j | 0 <= j < i :: ks[j]
    {
      var k := ks[i];
      assert k in ks;
      MergedOneMore(m, before, p, seen, k);
      if p[k].Null? {
        m := m - {k};
      } else {
        var merged := MergePatch(ValueOrNull(m, k), p[k]);
        m := m[k := merged];
      }
      seen := seen + {k};
    }
    assert seen == p.Keys by {
      forall k | k in p.Keys ensures k in seen { assert k in ks; }
    }
    FullyMerged(m, target, patch);
    return Object(m);
  }

  lemma NothingMerged(m: map<string, Json>, p: map<string, Json>)
    ensures MergedSoFar(m, m, p, {})
  {
  }

  /** No member of an object, at any depth reached through objects alone, is null. */
  predicate NoNullMembers(j: Json) {
    j.Object? ==> forall k | k in j.members :: !j.members[k].Null? && NoNullMembers(j.members[k])
  }

  /** Drop null members, through objects but not through arrays. */
  function Stripped(j: Json): Json {
    if !j.Object? then j
    else Object(map k | k in j.members && !j.members[k].Null? :: Stripped(j.members[k]))
  }

  /** On a target that is no object, the result is the patch without its null members. */
  lemma {:induction false} MergeOntoNonObject(target: Json, patch: Json)
    requires !target.Object?
    ensures MergePatched(target, patch) == Stripped(patch)
    ensures NoNullMembers(MergePatched(target, patch))
    decreases patch
  {
    if patch.Object? {
      var p, r := patch.members, MergePatched(target, patch);
      forall k | k in p && !p[k].Null?
        ensures MergePatched(Null, p[k]) == Stripped(p[k]) && NoNullMembers(MergePatched(Null, p[k]))
      {
        MergeOntoNonObject(Null, p[k]);
      }
      assert r.members == Stripped(patch).members;
      forall k | k in r.members ensures !r.members[k].Null? && NoNullMembers(r.members[k]) {
        MergedNotNull(p[k]);
      }
    }
  }

  lemma MergedNotNull(patch: Json)
    requires !patch.Null?
    ensures !MergePatched(Null, patch).Null?
  {
  }

  /** Stripping changes nothing exactly when there is nothing to strip. */
  lemma {:induction false} StrippedSameExactlyWhen(j: Json)
    ensures Stripped(j) == j <==> NoNullMembers(j)
  {
    if j.Object? {
      var m := j.members;
      forall k | k in m ensures Stripped(m[k]) == m[k] <==> NoNullMembers(m[k]) {
        StrippedSameExactlyWhen(m[k]);
      }
      if NoNullMembers(j) {
        assert Stripped(j).members == m;
      }
      if Stripped(j) == j {
        forall k | k in m ensures !m[k].Null? && NoNullMembers(m[k]) {
          assert k in Stripped(j).members;
        }
      }
    }
  }

  /** Applying the same merge patch a second time changes nothing. */
  lemma {:induction false} MergeIsIdempotent(target: Json, patch: Json)
    ensures MergePatched(MergePatched(target, patch), patch) == MergePatched(target, patch)
    decreases patch
  {
    if patch.Object? {
      var p, once := patch.members, MergePatched(target, patch);
      forall k | k in p && !p[k].Null?
        ensures MergePatched(once.members[k], p[k]) == once.members[k]
      {
        MergeIsIdempotent(ValueOrNull(MembersOrNone(target), k), p[k]);
      }
      assert MergePatched(once, patch).members == once.members;
    }
  }

  /** A null-free target stays null-free: a merge patch can remove members but never null them. */
  lemma {:induction false} MergeKeepsNullFree(target: Json, patch: Json)
    requires NoNullMembers(target)
    ensures NoNullMembers(MergePatched(target, patch))
    decreases patch
  {
    if patch.Object? {
      var p, r := patch.members, MergePatched(target, patch);
      forall k | k in r.members ensures !r.members[k].Null? && NoNullMembers(r.members[k]) {
        if k in p {
          MergeKeepsNullFree(ValueOrNull(MembersOrNone(target), k), p[k]);
        }
      }
    }
  }

  // ---------------------------------------------------------------- update

  /** `update(j, merge)` on a value, its loop over the keys `ks` still to come included. */
  function Updated(target: Json, j: Json, merge: bool): Outcome
    decreases j, 1
  {
    var base := if target.Null? then Object(map[]) else target;
    if !base.Object? || !j.Object? then Thrown(base, TypeError(312))
    else UpdatedMembers(base.members, j, merge, SortedKeys(j.members.Keys))
  }

  function UpdatedMembers(m: map<string, Json>, j: Json, merge: bool, ks: seq<string>): Outcome
    requires j.Object? && forall k | k in ks :: k in j.members
    decreases j, 0, |ks|
  {
    if ks == [] then Done(Object(m))
    else
      var k := ks[0];
      assert k in ks;
      var v := j.members[k];
      if merge && v.Object? && k in m then
        match Updated(m[k], v, true)
        case Thrown(d, e) => Thrown(Object(m[k := d]), e)
        case Done(d) => UpdatedMembers(m[k := d], j, merge, ks[1..])
      else UpdatedMembers(m[k := v], j, merge, ks[1..])
  }

  method UpdateLoop(m0: map<string, Json>, j: Json, merge: bool) returns (m: map<string, Json>, thrown: Option<Error>)
    requires j.Object?
    ensures AsOutcome(Object(m), thrown) == UpdatedMembers(m0, j, merge, SortedKeys(j.members.Keys))
    decreases j, 0
  {
    m := m0;
    var ks := SortedKeys(j.members.Keys);
    for i := 0 to |ks|
      invariant UpdatedMembers(m0, j, merge, ks) == UpdatedMembers(m, j, merge, ks[i..])
    {
      var k := ks[i];
      assert k in ks && ks[i..][1..] == ks[i + 1..];
      var v := j.members[k];
      if merge && v.Object? {
        if k in m {
          var d;
          d, thrown := Update(m[k], v, true);
          m := m[k := d];
          if thrown.Some? {
            return;
          }
          continue;
        }
      }
      m := m[k := v];
    }
    return m, None;
  }

  /** `update`: the object after the call, and what it threw. */
  method Update(target: Json, j: Json, merge: bool) returns (r: Json, thrown: Option<Error>)
    ensures AsOutcome(r, thrown) == Updated(target, j, merge)
    decreases j, 1
  {
    r := if target.Null? then Object(map[]) else target;
    if !r.Object? || !j.Object? {
      return r, Some(TypeError(312));
    }
    var m;
    m, thrown := UpdateLoop(r.members, j, merge);
    r := Object(m);
  }

  // ---------------------------------------------------------------- what update leaves

  /** Somewhere an incoming object meets an existing value that is neither object nor null. */
  predicate Clash(target: Json, j: Json)
    decreases j, 0
  {
    target.Object? && j.Object? &&
    exists k | k in j.members && k in target.members :: ClashAt(target.members[k], j.members[k])
  }

  /** The members of a completed merging update, order-free: incoming members win, objects merge. */
  function UnionOf(target: Json, j: Json): (r: Json)
    requires j.Object?
    ensures r.Object?
    decreases j
  {
    var m, p := MembersOrNone(target), j.members;
    Object(map k | k in m.Keys + p.Keys ::
             if k in p then (if k in m && p[k].Object? then UnionOf(m[k], p[k]) else p[k]) else m[k])
  }

  /** What the part of an update that is still to come leaves, key by key. */
  ghost predicate LeavesMembers(m: map<string, Json>, j: Json, ks: seq<string>, m': map<string, Json>)
    requires j.Object? && forall k | k in ks :: k in j.members
  {
    && (forall k :: k in m' <==> k in m || k in ks)
    && (forall k | k in m' :: m'[k] ==
                              if k !in ks then m[k]
                              else if k in m && j.members[k].Object? then Updated(m[k], j.members[k], true).doc
                              else j.members[k])
  }

  /** The part of an update that is still to come completes, or throws, on its own keys alone. */
  lemma {:induction false} UpdatedMembersResult(m: map<string, Json>, j: Json, ks: seq<string>)
    requires j.Object? && forall k | k in ks :: k in j.members
    requires forall a, b | 0 <= a < b < |ks| :: ks[a] != ks[b]
    ensures UpdatedMembers(m, j, true, ks).Done? <==>
            forall k | k in ks && k in m && j.members[k].Object? :: Updated(m[k], j.members[k], true).Done?
    ensures var o := UpdatedMembers(m, j, true, ks);
            o.Done? ==> o.doc.Object? && LeavesMembers(m, j, ks, o.doc.members)
    decreases |ks|
  {
    if ks != [] {
      var k, rest := ks[0], ks[1..];
      assert k in ks && k !in rest;
      var v := j.members[k];
      if v.Object? && k in m {
        if Updated(m[k], v, true).Done? {
          UpdatedMembersResult(m[k := Updated(m[k], v, true).doc], j, rest);
        }
      } else {
        UpdatedMembersResult(m[k := v], j, rest);
      }
    }
  }

  /** An incoming object meets an existing value it cannot be merged into, here or further down. */
  predicate ClashAt(mine: Json, theirs: Json)
    decreases theirs, 1
  {
    theirs.Object? && ((!mine.Object? && !mine.Null?) || Clash(mine, theirs))
  }

  /**
   A merging update of an object by an object throws exactly when the two clash; when it
   does not, what it leaves does not depend on the order of the keys.
   */
  lemma {:induction false} MergingUpdate(target: Json, j: Json)
    requires j.Object? && (target.Object? || target.Null?)
    ensures Updated(target, j, true).Done? <==> !Clash(target, j)
    ensures !Clash(target, j) ==> Updated(target, j, true) == Done(UnionOf(target, j))
    decreases j
  {
    var m, p := MembersOrNone(target), j.members;
    UpdatedMembersResult(m, j, SortedKeys(p.Keys));
    forall k | k in p && k in m && p[k].Object?
      ensures Updated(m[k], p[k], true).Done? <==> !ClashAt(m[k], p[k])
      ensures Updated(m[k], p[k], true).Done? ==> Updated(m[k], p[k], true).doc == UnionOf(m[k], p[k])
    {
      if m[k].Object? || m[k].Null? { MergingUpdate(m[k], p[k]); }
    }
    if !Clash(target, j) {
      var ks, r := SortedKeys(p.Keys), Updated(target, j, true).doc.members;
      forall k | k in r
        ensures r[k] == if k !in p then m[k] else if k in m && p[k].Object? then UnionOf(m[k], p[k]) else p[k]
      {
        assert k in ks <==> k in p;
      }
      IsUnion(target, j, r);
    }
  }

  lemma IsUnion(target: Json, j: Json, r: map<string, Json>)
    requires j.Object?
    requires var m, p := MembersOrNone(target), j.members;
             && (forall k :: k in r <==> k in m || k in p)
             && (forall k | k in r :: r[k] ==
                                      if k !in p then m[k] else if k in m && p[k].Object? then UnionOf(m[k], p[k]) else p[k])
    ensures Object(r) == UnionOf(target, j)
  {
    hide UnionOf;
    forall k ensures k in r <==> k in UnionOf(target, j).members { UnionMember(target, j, k); }
    forall k | k in r ensures r[k] == UnionOf(target, j).members[k] { UnionMember(target, j, k); }
    assert r == UnionOf(target, j).members;
  }

  lemma UnionMember(target: Json, j: Json, k: string)
    requires j.Object?
    ensures var m, p := MembersOrNone(target), j.members;
            && (k in UnionOf(target, j).members <==> k in m || k in p)
            && (k in m || k in p ==>
                  UnionOf(target, j).members[k] ==
                  if k !in p then m[k] else if k in m && p[k].Object? then UnionOf(m[k], p[k]) else p[k])
  {
  }

  /** Without merging, incoming members simply replace existing ones, and nothing can throw. */
  lemma {:induction false} PlainUpdate(m: map<string, Json>, j: Json, ks: seq<string>)
    requires j.Object? && forall k | k in ks :: k in j.members
    ensures UpdatedMembers(m, j, false, ks) == Done(Object(m + (map k | k in ks :: j.members[k])))
    decreases |ks|
  {
    if ks == [] {
      assert m + (map k | k in ks :: j.members[k]) == m;
    } else {
      var k := ks[0];
      assert k in ks;
      hide SortedKeys;
      PlainUpdate(m[k := j.members[k]], j, ks[1..]);
      MapFront(m, j.members, ks);
    }
  }

  lemma MapFront(m: map<string, Json>, p: map<string, Json>, ks: seq<string>)
    requires ks != [] && forall k | k in ks :: k in p
    ensures ks[0] in ks
    ensures m[ks[0] := p[ks[0]]] + (map x | x in ks[1..] :: p[x]) == m + (map x | x in ks :: p[x])
  {
  }

  /** A plain update keeps all existing members but those that come in, and those come in as they are. */
  lemma PlainUpdateResult(target: Json, j: Json)
    requires (target.Object? || target.Null?) && j.Object?
    ensures Updated(target, j, false) == Done(Object(MembersOrNone(target) + j.members))
  {
    hide UpdatedMembers;
    var m, ks := MembersOrNone(target), SortedKeys(j.members.Keys);
    PlainUpdate(m, j, ks);
    assert (map k | k in ks :: j.members[k]) == j.members;
  }

  /** On anything that is neither object nor null, or with anything but an object, update throws error 312. */
  lemma UpdateThrows312(target: Json, j: Json, merge: bool)
    requires !(target.Object? || target.Null?) || !j.Object?
    ensures Updated(target, j, merge) == Thrown(if target.Null? then Object(map[]) else target, TypeError(312))
  {
  }

  /** What a merge patch does member by member: null removes, anything else merges, the rest stays. */
  lemma MergedMember(target: Json, patch: Json, k: string)
    requires target.Object? && patch.Object?
    ensures MergePatched(target, patch).Object?
    ensures var m, p, r := target.members, patch.members, MergePatched(target, patch).members;
            && (k !in p ==> (k in r <==> k in m) && (k in m ==> r[k] == m[k]))
            && (k in p && p[k].Null? ==> k !in r)
            && (k in p && !p[k].Null? ==> k in r)
            && (k in p && !p[k].Null? && !p[k].Object? ==> r[k] == p[k])
            && (k in p && p[k].Object? && k in m ==> r[k] == MergePatched(m[k], p[k]))
            && (k in p && p[k].Object? && k !in m ==> r[k] == Stripped(p[k]))
  {
    if k in patch.members && k !in target.members {
      MergeOntoNonObject(Null, patch.members[k]);
    }
  }

  // ---------------------------------------------------------------- the two compared

  lemma {:induction false} UnionIsMerge(target: Json, j: Json)
    requires j.Object? && !Clash(target, j) && (target.Object? || target.Null?)
    ensures UnionOf(target, j) == MergePatched(target, j) <==> NoNullMembers(j)
    decreases j
  {
    var m, p := MembersOrNone(target), j.members;
    var u, r := UnionOf(target, j), MergePatched(target, j);
    forall k | k in p && !p[k].Null?
      ensures u.members[k] == r.members[k] <==> NoNullMembers(p[k])
    {
      assert k in u.members && k in r.members;
      assert r.members[k] == MergePatched(ValueOrNull(m, k), p[k]);
      if p[k].Object? && k in m {
        UnionIsMerge(m[k], p[k]);
        assert u.members[k] == UnionOf(m[k], p[k]);
      } else if p[k].Object? {
        StrippedSameExactlyWhen(p[k]);
        MergeOntoNonObject(Null, p[k]);
      }
    }
    if NoNullMembers(j) {
      assert u.members == r.members;
    }
    if u == r {
      forall k | k in p ensures !p[k].Null? && NoNullMembers(p[k]) {
        assert k in u.members;
      }
    }
  }

  /**
   `update(j, true)` and `merge_patch(j)` leave the same object exactly when the incoming
   object has no null member (through objects) and nowhere meets an existing value that is
   neither object nor null with an object.
   */
  lemma {:induction false} UpdateAgreesWithMergeExactlyWhen(target: Json, j: Json)
    requires target.Object? && j.Object?
    ensures Updated(target, j, true) == Done(MergePatched(target, j)) <==> NoNullMembers(j) && !Clash(target, j)
  {
    MergingUpdate(target, j);
    if !Clash(target, j) {
      UnionIsMerge(target, j);
    }
  }

  // ---------------------------------------------------------------- on the document object

  method MergePatchDocument(doc: Document, patch: Json)
    modifies doc
    ensures doc.root == MergePatched(old(doc.root), patch)
  {
    doc.root := MergePatch(doc.root, patch);
  }

  method UpdateDocument(doc: Document, j: Json, merge: bool) returns (thrown: Option<Error>)
    modifies doc
    ensures AsOutcome(doc.root, thrown) == Updated(old(doc.root), j, merge)
  {
    doc.root, thrown := Update(doc.root, j, merge);
  }
}
