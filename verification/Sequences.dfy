/** In-order selection from a sequence. */
module Sequences {

  import opened Arithmetic

  /** a can be obtained from b by leaving elements out. */
  predicate Subsequence<T(==)>(a: seq<T>, b: seq<T>) {
    if a == [] then true
    else if b == [] then false
    else
      || (a[|a| - 1] == b[|b| - 1] && Subsequence(a[..|a| - 1], b[..|b| - 1]))
      || Subsequence(a, b[..|b| - 1])
  }

  lemma {:induction false} SubsequenceWiden<T>(a: seq<T>, b: seq<T>, more: seq<T>)
    requires Subsequence(a, b)
    ensures Subsequence(a, b + more)
  {
    if more == [] {
      assert b + more == b;
    } else {
      SubsequenceWiden(a, b, more[..|more| - 1]);
      assert (b + more)[..|b + more| - 1] == b + more[..|more| - 1];
    }
  }

  lemma {:induction false} SubsequenceAppend<T>(a: seq<T>, b: seq<T>, tail: seq<T>)
    requires Subsequence(a, b)
    ensures Subsequence(a + tail, b + tail)
  {
    if tail == [] {
      assert a + tail == a && b + tail == b;
    } else {
      var front := tail[..|tail| - 1];
      SubsequenceAppend(a, b, front);
      assert (a + tail)[..|a + tail| - 1] == a + front;
      assert (b + tail)[..|b + tail| - 1] == b + front;
    }
  }

  lemma {:induction false} SubsequenceWithout<T>(a: seq<T>, x: T, tail: seq<T>, b: seq<T>)
    requires Subsequence(a + [x] + tail, b)
    ensures Subsequence(a + tail, b)
    decreases |b|
  {
    var whole := a + [x] + tail;
    var front := b[..|b| - 1];
    if Subsequence(whole, front) {
      SubsequenceWithout(a, x, tail, front);
      assert b == front + [b[|b| - 1]];
      SubsequenceWiden(a + tail, front, [b[|b| - 1]]);
    } else if tail == [] {
      assert whole[..|whole| - 1] == a && a + tail == a;
    } else {
      var rest := tail[..|tail| - 1];
      assert whole[..|whole| - 1] == a + [x] + rest;
      SubsequenceWithout(a, x, rest, front);
      assert (a + tail)[..|a + tail| - 1] == a + rest;
    }
  }

  // Every selected element comes from the whole.
  lemma {:induction false} SubsequenceMembers<T>(a: seq<T>, b: seq<T>)
    requires Subsequence(a, b)
    ensures |a| <= |b|
    ensures forall x :: x in a ==> x in b
    decreases |b|
  {
    if a != [] {
      assert a == a[..|a| - 1] + [a[|a| - 1]] && b == b[..|b| - 1] + [b[|b| - 1]];
      if Subsequence(a, b[..|b| - 1]) {
        SubsequenceMembers(a, b[..|b| - 1]);
      } else {
        SubsequenceMembers(a[..|a| - 1], b[..|b| - 1]);
      }
    }
  }

  /** The concatenation of all groups. */
  function Flatten<T>(groups: seq<seq<T>>): seq<T> {
    if groups == [] then [] else Flatten(groups[..|groups| - 1]) + groups[|groups| - 1]
  }

  lemma {:induction false} FlattenLength<T>(groups: seq<seq<T>>, size: nat)
    requires forall i | 0 <= i < |groups| :: |groups[i]| == size
    ensures |Flatten(groups)| == Times(|groups|, size)
  {
    if groups != [] {
      FlattenLength(groups[..|groups| - 1], size);
    }
  }

  // Groups of one size can be cut out of their concatenation by position.
  lemma {:induction false} FlattenAt<T>(groups: seq<seq<T>>, size: nat, j: nat)
    requires j < |groups| && forall i | 0 <= i < |groups| :: |groups[i]| == size
    ensures Times(j, size) <= Times(j, size) + size <= |Flatten(groups)|
    ensures Flatten(groups)[Times(j, size)..Times(j, size) + size] == groups[j]
  {
    var front := groups[..|groups| - 1];
    FlattenLength(front, size);
    if j < |front| {
      FlattenAt(front, size, j);
      var start := Times(j, size);
      assert Flatten(groups)[start..start + size] == Flatten(front)[start..start + size];
    }
  }
}
