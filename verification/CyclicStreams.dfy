/**
 A word repeated without end. Two words give the same stream exactly when they commute, and
 the first characters, as many as both have together, already tell; for fewer characters it is
 enough that the words commute that far.
 */
module CyclicStreams {

  /** The character at position `i` of the endless repetition of a word. */
  function Cyclic<T>(w: seq<T>, i: nat): T
    requires w != []
    decreases i
  {
    if i < |w| then w[i] else Cyclic(w, i - |w|)
  }

  ghost predicate SameUpTo<T>(a: seq<T>, b: seq<T>, n: nat)
    requires a != [] && b != []
  {
    forall i: nat | i < n :: Cyclic(a, i) == Cyclic(b, i)
  }

  /** The first word's characters are what the second word's stream starts with. */
  lemma {:induction false} StartsAlike<T>(a: seq<T>, b: seq<T>, i: nat)
    requires a != [] && b != [] && a + b == b + a && i < |a|
    ensures Cyclic(b, i) == a[i]
    decreases i
  {
    assert (a + b)[i] == (b + a)[i];
    if i >= |b| { StartsAlike(a, b, i - |b|); }
  }

  /** The second word's stream does not change when it is moved by the first word's length. */
  lemma {:induction false} MovedAlike<T>(a: seq<T>, b: seq<T>, i: nat)
    requires a != [] && b != [] && a + b == b + a
    ensures Cyclic(b, i + |a|) == Cyclic(b, i)
    decreases i
  {
    if i >= |b| {
      MovedAlike(a, b, i - |b|);
    } else {
      assert (a + b)[i + |a|] == b[i];
      if i + |a| >= |b| {
        assert (b + a)[i + |a|] == a[i + |a| - |b|];
        StartsAlike(a, b, i + |a| - |b|);
      } else {
        assert (b + a)[i + |a|] == b[i + |a|];
      }
    }
  }

  lemma {:induction false} CommutingWordsAgree<T>(a: seq<T>, b: seq<T>, i: nat)
    requires a != [] && b != [] && a + b == b + a
    ensures Cyclic(a, i) == Cyclic(b, i)
    decreases i
  {
    if i < |a| {
      StartsAlike(a, b, i);
    } else {
      CommutingWordsAgree(a, b, i - |a|);
      MovedAlike(a, b, i - |a|);
    }
  }

  /** The first `n` characters of a word, or all of it. */
  function Front<T>(w: seq<T>, n: nat): seq<T> {
    if n <= |w| then w[..n] else w
  }

  /** Streams that agree so far put the two words together alike in either order, so far. */
  lemma AgreeingWordsCommute<T>(a: seq<T>, b: seq<T>, n: nat)
    requires a != [] && b != [] && SameUpTo(a, b, n)
    ensures Front(a + b, n) == Front(b + a, n)
  {
    forall i: nat | i < n && i < |a| + |b| ensures (a + b)[i] == (b + a)[i] {
      assert Cyclic(a, i) == Cyclic(b, i);
      if i >= |a| { assert Cyclic(a, i - |a|) == Cyclic(b, i - |a|); }
      if i >= |b| { assert Cyclic(a, i - |b|) == Cyclic(b, i - |b|); }
    }
  }

  /** While the two orders agree, each stream reads as the two words put together. */
  lemma {:induction false} StreamsReadAlike<T>(a: seq<T>, b: seq<T>, n: nat, i: nat)
    requires a != [] && b != [] && i < n <= |a| + |b| && Front(a + b, n) == Front(b + a, n)
    ensures Cyclic(a, i) == (a + b)[i] && Cyclic(b, i) == (b + a)[i]
    decreases i
  {
    SameInFront(a + b, b + a, n);
    if i >= |a| { StreamsReadAlike(a, b, n, i - |a|); }
    if i >= |b| { StreamsReadAlike(a, b, n, i - |b|); }
  }

  lemma SameInFront<T>(s: seq<T>, t: seq<T>, n: nat)
    requires n <= |s| == |t| && Front(s, n) == Front(t, n)
    ensures forall i | 0 <= i < n :: s[i] == t[i]
  {
    forall i | 0 <= i < n ensures s[i] == t[i] {
      assert s[..n][i] == t[..n][i];
    }
  }

  /**
   For any number of characters: the streams of two words agree that far exactly when the
   words put together in either order do. From the length of both on, that is when they commute.
   */
  lemma {:induction false} AgreeExactlyWhenCommuting<T>(a: seq<T>, b: seq<T>, n: nat)
    requires a != [] && b != []
    ensures SameUpTo(a, b, n) <==> Front(a + b, n) == Front(b + a, n)
  {
    if SameUpTo(a, b, n) {
      AgreeingWordsCommute(a, b, n);
    }
    if Front(a + b, n) == Front(b + a, n) {
      forall i: nat | i < n ensures Cyclic(a, i) == Cyclic(b, i) {
        if n <= |a| + |b| {
          StreamsReadAlike(a, b, n, i);
          SameInFront(a + b, b + a, n);
        } else {
          CommutingWordsAgree(a, b, i);
        }
      }
    }
  }
}
