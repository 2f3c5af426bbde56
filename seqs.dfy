/** Sequences built element by element, and the multiset facts that say
    reordering the input only reorders the output. */
module Sequences {
  /** What each element gives, concatenated in order. */
  function FlatMap<A, B>(xs: seq<A>, f: A -> seq<B>): seq<B> {
    if xs == [] then [] else FlatMap(xs[..|xs| - 1], f) + f(xs[|xs| - 1])
  }
  /** The output of two runs of input is the output of each, in order. */
  lemma {:induction false} FlatMapAppend<A, B>(xs: seq<A>, ys: seq<A>, f: A -> seq<B>)
    ensures FlatMap(xs + ys, f) == FlatMap(xs, f) + FlatMap(ys, f)
    decreases |ys|
  {
    if ys == [] {
      assert xs + ys == xs;
    } else {
      assert (xs + ys)[..|xs + ys| - 1] == xs + ys[..|ys| - 1];
      FlatMapAppend(xs, ys[..|ys| - 1], f);
    }
  }
  /** Removing the element at `j` removes one occurrence of it. */
  lemma {:induction false} MultisetRemoveAt<T>(s: seq<T>, j: nat)
    requires j < |s|
    ensures multiset(s[..j] + s[j + 1..]) == multiset(s) - multiset{s[j]}
  {
    assert s == s[..j] + [s[j]] + s[j + 1..];
    assert multiset(s) == multiset(s[..j]) + multiset{s[j]} + multiset(s[j + 1..]);
  }
  lemma {:induction false} FlatMapSingle<A, B>(x: A, f: A -> seq<B>)
    ensures FlatMap([x], f) == f(x)
  {
    assert [x][..0] == [];
  }
  /** The output around element `j`. */
  lemma {:induction false} FlatMapSplit<A, B>(xs: seq<A>, j: nat, f: A -> seq<B>)
    requires j < |xs|
    ensures FlatMap(xs, f) == FlatMap(xs[..j], f) + f(xs[j]) + FlatMap(xs[j + 1..], f)
  {
    var left, right := xs[..j], xs[j + 1..];
    assert xs == (left + [xs[j]]) + right;
    FlatMapAppend(left + [xs[j]], right, f);
    FlatMapAppend(left, [xs[j]], f);
    FlatMapSingle(xs[j], f);
  }
  lemma {:induction false} MultisetMiddle<T>(x: seq<T>, y: seq<T>, z: seq<T>)
    ensures multiset(x + y + z) == multiset(y) + multiset(x + z)
  {
  }
  /** The output of an input is that of its element `j` and that of the
      rest, as multisets. */
  lemma {:induction false} FlatMapRemoveAt<A, B>(xs: seq<A>, j: nat, f: A -> seq<B>)
    requires j < |xs|
    ensures multiset(FlatMap(xs, f)) == multiset(f(xs[j])) + multiset(FlatMap(xs[..j] + xs[j + 1..], f))
  {
    FlatMapSplit(xs, j, f);
    FlatMapAppend(xs[..j], xs[j + 1..], f);
    MultisetMiddle(FlatMap(xs[..j], f), f(xs[j]), FlatMap(xs[j + 1..], f));
  }
  /** Reordering the input reorders the output and nothing else. */
  lemma {:induction false} FlatMapPermutation<A, B>(xs: seq<A>, ys: seq<A>, f: A -> seq<B>)
    requires multiset(xs) == multiset(ys)
    ensures multiset(FlatMap(xs, f)) == multiset(FlatMap(ys, f))
    decreases |xs|
  {
    if xs == [] {
      assert |ys| == |multiset(ys)| == 0;
    } else {
      assert xs[0] in multiset(ys);
      var j :| 0 <= j < |ys| && ys[j] == xs[0];
      var tail, rest := xs[..0] + xs[1..], ys[..j] + ys[j + 1..];
      MultisetRemoveAt(xs, 0);
      MultisetRemoveAt(ys, j);
      assert multiset(tail) == multiset(rest);
      FlatMapPermutation(tail, rest, f);
      calc {
        multiset(FlatMap(xs, f));
        { FlatMapRemoveAt(xs, 0, f); }
        multiset(f(xs[0])) + multiset(FlatMap(tail, f));
        multiset(f(ys[j])) + multiset(FlatMap(rest, f));
        { FlatMapRemoveAt(ys, j, f); }
        multiset(FlatMap(ys, f));
      }
    }
  }

  /** An output element comes from some input element. */
  lemma {:induction false} FlatMapMembership<A, B>(xs: seq<A>, f: A -> seq<B>, y: B)
    ensures y in FlatMap(xs, f) <==> exists i :: 0 <= i < |xs| && y in f(xs[i])
  {
    if xs != [] {
      var init := xs[..|xs| - 1];
      FlatMapMembership(init, f, y);
      assert forall i :: 0 <= i < |init| ==> init[i] == xs[i];
    }
  }

  /** Removing equal first elements from equal multisets leaves equal
      multisets. */
  lemma {:induction false} MultisetTail<T>(a: seq<T>, b: seq<T>)
    requires a != [] && b != [] && a[0] == b[0] && multiset(a) == multiset(b)
    ensures multiset(a[1..]) == multiset(b[1..])
  {
    assert a == [a[0]] + a[1..];
    assert b == [b[0]] + b[1..];
    assert multiset(a[1..]) == multiset(a) - multiset{a[0]};
    assert multiset(b[1..]) == multiset(b) - multiset{b[0]};
  }
}
