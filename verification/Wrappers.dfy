/** Option and Result, used wherever the C++ or Python code may have no value or may throw. */
module Wrappers {

  datatype Option<+T> = None | Some(value: T)

  /** The outcome of a call that may throw: its value, or the error it raised. */
  datatype Result<+T, +E> = Ok(value: T) | Err(error: E) {

    predicate IsFailure() {
      Err?
    }

    function PropagateFailure<U>(): Result<U, E>
      requires Err?
    {
      Err(error)
    }

    function Extract(): T
      requires Ok?
    {
      value
    }
  }
}

/** Regrouping concatenations, and buffers written from the front. */
module Sequences {

  lemma Regroup<T>(a: seq<T>, b: seq<T>, c: seq<T>)
    ensures (a + b) + c == a + (b + c)
  {
  }

  lemma RegroupFour<T>(a: seq<T>, b: seq<T>, c: seq<T>, d: seq<T>)
    ensures ((a + b) + c) + d == a + (b + (c + d))
  {
  }

  /** The buffer holds `head` and is otherwise as it was before. */
  ghost predicate Written<T>(now: seq<T>, head: seq<T>, before: seq<T>) {
    |head| <= |before| && now == head + before[|head|..]
  }

  lemma NothingWritten<T>(before: seq<T>, at: nat)
    requires at <= |before|
    ensures Written(before, before[..at], before)
  {
  }

  lemma WrittenOut<T>(now: seq<T>, head: seq<T>, before: seq<T>)
    requires Written(now, head, before)
    ensures |head| <= |before| && now == head + before[|head|..]
  {
  }
}

/** Numbers as bytes. */
module ByteNumbers {

  lemma NextByte(b: bv8)
    requires b < 255
    ensures (b + 1) as int == b as int + 1
  {
  }

  lemma SameInt(b: bv8, k: int)
    requires 0 <= k < 256 && b as int == k
    ensures k as bv8 == b
  {
  }

  lemma {:induction false} ByteOfInt(k: int)
    requires 0 <= k < 256
    ensures (k as bv8) as int == k
    decreases k
  {
    if k == 0 {
      SameInt(0, 0);
    } else {
      ByteOfInt(k - 1);
      var b := (k - 1) as bv8;
      BelowLast(b);
      NextByte(b);
      SameInt(b + 1, k);
    }
  }

  lemma BelowLast(b: bv8)
    ensures b < 255 <==> b as int < 255
  {
  }
}
