/**
 `json_value::destroy`: tearing a tree down with an explicit stack instead of recursion.

 The nodes below a value are described by structural recursion (`Below`), the loop's
 remaining work by a sum over the stack (`Pending`). The loop ends because the number of
 pending nodes falls by one per turn.
 */
module JsonDestroy {
  import opened JsonValues
  import opened KeyOrder

  function MemberValues(m: map<string, Json>, ks: seq<string>): seq<Json>
    requires forall k | k in ks :: k in m
  {
    seq(|ks|, i requires 0 <= i < |ks| => assert ks[i] in ks; m[ks[i]])
  }

  /** What is moved to the stack: elements, or member values in key order. */
  function Children(j: Json): seq<Json> {
    match j
    case Array(a) => a
    case Object(m) => MemberValues(m, SortedKeys(m.Keys))
    case _ => []
  }

  /** All proper descendants of a value, with multiplicity. */
  function Below(j: Json): multiset<Json>
    decreases j, 1
  {
    match j
    case Array(a) => BelowElems(j, |a|)
    case Object(m) => BelowMembers(j, SortedKeys(m.Keys), |m.Keys|)
    case _ => multiset{}
  }

  function BelowElems(j: Json, n: nat): multiset<Json>
    requires j.Array? && n <= |j.elems|
    decreases j, 0, n
  {
    if n == 0 then multiset{}
    else BelowElems(j, n - 1) + (multiset{j.elems[n - 1]} + Below(j.elems[n - 1]))
  }

  function BelowMembers(j: Json, ks: seq<string>, n: nat): multiset<Json>
    requires j.Object? && forall k | k in ks :: k in j.members
    decreases j, 0, n
  {
    if n == 0 || n > |ks| then multiset{}
    else
      assert ks[n - 1] in ks;
      BelowMembers(j, ks, n - 1) + (multiset{j.members[ks[n - 1]]} + Below(j.members[ks[n - 1]]))
  }

  /** The items on the stack and everything below them. */
  function Pending(stack: seq<Json>): multiset<Json> {
    if stack == [] then multiset{}
    else
      var top := stack[|stack| - 1];
      Pending(stack[..|stack| - 1]) + (multiset{top} + Below(top))
  }

  lemma RegroupChildren(a: multiset<Json>, b: multiset<Json>, c: multiset<Json>)
    ensures (a + b) + c == a + (b + c)
  {
  }

  lemma {:induction false} PendingConcat(a: seq<Json>, b: seq<Json>)
    ensures Pending(a + b) == Pending(a) + Pending(b)
  {
    hide Below;
    if b == [] {
      assert a + b == a;
    } else {
      var front, top := b[..|b| - 1], b[|b| - 1];
      PendingConcat(a, front);
      assert (a + b)[..|a + b| - 1] == a + front && (a + b)[|a + b| - 1] == top;
      RegroupChildren(Pending(a), Pending(front), multiset{top} + Below(top));
    }
  }

  lemma {:induction false} PendingElems(j: Json, n: nat)
    requires j.Array? && n <= |j.elems|
    ensures Pending(j.elems[..n]) == BelowElems(j, n)
  {
    hide Below;
    if n > 0 {
      PendingElems(j, n - 1);
      assert j.elems[..n][..n - 1] == j.elems[..n - 1];
    }
  }

  lemma MemberValuesAt(m: map<string, Json>, ks: seq<string>)
    requires forall k | k in ks :: k in m
    ensures |MemberValues(m, ks)| == |ks|
    ensures forall i | 0 <= i < |ks| :: ks[i] in m && MemberValues(m, ks)[i] == m[ks[i]]
  {
    forall i | 0 <= i < |ks| ensures ks[i] in m { assert ks[i] in ks; }
  }

  lemma PendingLast(vs: seq<Json>, n: nat)
    requires n <= |vs|
    ensures Pending(vs[..n]) ==
            if n == 0 then multiset{} else Pending(vs[..n - 1]) + (multiset{vs[n - 1]} + Below(vs[n - 1]))
  {
    hide Below;
    if n > 0 { assert vs[..n][..n - 1] == vs[..n - 1]; }
  }

  lemma {:induction false} PendingMembers(j: Json, ks: seq<string>, n: nat)
    requires j.Object? && n <= |ks| && forall k | k in ks :: k in j.members
    ensures Pending(MemberValues(j.members, ks)[..n]) == BelowMembers(j, ks, n)
  {
    hide Below, Pending, MemberValues;
    var vs := MemberValues(j.members, ks);
    MemberValuesAt(j.members, ks);
    PendingLast(vs, n);
    if n > 0 {
      PendingMembers(j, ks, n - 1);
      assert ks[n - 1] in ks;
    }
  }

  lemma {:induction false} SortedKeysCount(s: set<string>)
    ensures |SortedKeys(s)| == |s|
  {
    if s != {} { SortedKeysCount(s - {Least(s)}); }
  }

  /** Moving a value's children to the stack leaves exactly what was below it to do. */
  lemma PendingChildren(j: Json)
    ensures Pending(Children(j)) == Below(j)
  {
    match j
    case Array(a) =>
      PendingElems(j, |a|);
      assert a[..|a|] == a;
    case Object(m) =>
      var ks := SortedKeys(m.Keys);
      SortedKeysCount(m.Keys);
      PendingMembers(j, ks, |ks|);
      assert MemberValues(m, ks)[..|ks|] == MemberValues(m, ks);
    case _ =>
  }

  /** One turn: the popped item is done with, its children take its place. */
  lemma {:induction false} PopStep(stack: seq<Json>)
    requires stack != []
    ensures var item, rest := stack[|stack| - 1], stack[..|stack| - 1];
            Pending(stack) == multiset{item} + Pending(rest + Children(item))
  {
    var item, rest := stack[|stack| - 1], stack[..|stack| - 1];
    PendingConcat(rest, Children(item));
    PendingChildren(item);
  }

  lemma AppendToMultiset(s: seq<Json>, x: Json, m: multiset<Json>)
    ensures multiset(s) + (multiset{x} + m) == multiset(s + [x]) + m
  {
  }

  /** What was left of each popped item is of its kind and has no children. */
  ghost predicate ReleasedChildless(visited: seq<Json>, released: seq<Json>) {
    |released| == |visited| &&
    forall i | 0 <= i < |visited| :: TypeOf(released[i]) == TypeOf(visited[i]) && Children(released[i]) == []
  }

  /**
   `destroy`: `visited` lists the items as they were popped, `released` what was left of
   each at the end of its turn. Every proper descendant is popped exactly once, and what is
   released has handed its children over.
   */
  method Destroy(j: Json) returns (visited: seq<Json>, released: seq<Json>)
    ensures multiset(visited) == Below(j)
    ensures ReleasedChildless(visited, released)
  {
    hide ReleasedChildless, Children, Pending, Below, TypeOf;
    visited, released := [], [];
    NothingReleased();
    var stack, left := TakeChildren(j);
    PendingChildren(j);
    while stack != []
      invariant multiset(visited) + Pending(stack) == Below(j)
      invariant ReleasedChildless(visited, released)
      decreases |Pending(stack)|
    {
      PopStep(stack);
      var item := stack[|stack| - 1];
      stack := stack[..|stack| - 1];
      var children, left := TakeChildren(item);
      stack := stack + children;
      AppendToMultiset(visited, item, Pending(stack));
      ReleaseStep(visited, released, item, left);
      visited := visited + [item];
      released := released + [left];
    }
  }

  lemma NothingReleased()
    ensures ReleasedChildless([], []) && Pending([]) == multiset{}
  {
  }

  /** The children to be pushed, and the item once they have been moved out and cleared. */
  method TakeChildren(item: Json) returns (children: seq<Json>, left: Json)
    ensures children == Children(item) && Children(left) == [] && TypeOf(left) == TypeOf(item)
  {
    children, left := [], item;
    if item.Array? {
      children := item.elems;
      left := Array([]);
    } else if item.Object? {
      children := MemberValues(item.members, SortedKeys(item.members.Keys));
      left := Object(map[]);
    }
  }

  lemma ReleaseStep(visited: seq<Json>, released: seq<Json>, item: Json, left: Json)
    requires ReleasedChildless(visited, released) && TypeOf(left) == TypeOf(item) && Children(left) == []
    ensures ReleasedChildless(visited + [item], released + [left])
  {
  }
}
