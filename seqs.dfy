/** Concatenating, in order, what a function gives for each element of a sequence:
    the shape of every loop in the modelled code that extends a result list. */
module Seqs {

  /** `[y for x in xs for y in f(x)]`, read back to front as a loop appends. */
  function ConcatMap<T, U>(xs: seq<T>, f: T -> seq<U>): seq<U>
  {
    if xs == [] then [] else ConcatMap(xs[..|xs| - 1], f) + f(xs[|xs| - 1])
  }

  /** One more loop iteration appends what the next element gives. */
  lemma ConcatMapSnoc<T, U>(xs: seq<T>, x: T, f: T -> seq<U>)
    ensures ConcatMap(xs + [x], f) == ConcatMap(xs, f) + f(x)
  {
    assert (xs + [x])[..|xs|] == xs;
  }

  /** The output of consecutive inputs is consecutive: order is kept. */
  lemma {:induction false} ConcatMapAppend<T, U>(a: seq<T>, b: seq<T>, f: T -> seq<U>)
    ensures ConcatMap(a + b, f) == ConcatMap(a, f) + ConcatMap(b, f)
    decreases |b|
  {
    if b == [] {
      assert a + b == a;
    } else {
      var b' := b[..|b| - 1];
      ConcatMapAppend(a, b', f);
      assert (a + b)[..|a + b| - 1] == a + b';
    }
  }

  /** Reference definition read front to back, as a comprehension is. */
  function ConcatMapFront<T, U>(xs: seq<T>, f: T -> seq<U>): seq<U>
  {
    if xs == [] then [] else f(xs[0]) + ConcatMapFront(xs[1..], f)
  }

  lemma {:induction false} ConcatMapFrontAgrees<T, U>(xs: seq<T>, f: T -> seq<U>)
    ensures ConcatMap(xs, f) == ConcatMapFront(xs, f)
    decreases |xs|
  {
    if xs != [] {
      ConcatMapFrontAgrees(xs[1..], f);
      ConcatMapAppend([xs[0]], xs[1..], f);
      assert [xs[0]] + xs[1..] == xs;
      assert [xs[0]][..0] == [];
    }
  }

  /** A loop that has seen `i + 1` elements has seen the first `i` and then `s[i]`. */
  lemma PrefixSnoc<T>(s: seq<T>, i: nat)
    requires i < |s|
    ensures s[..i + 1] == s[..i] + [s[i]]
    ensures s[..i + 1][..i] == s[..i]
  {
  }

  /** A slice is its two halves, cut anywhere in between. */
  lemma SliceSplit<T>(s: seq<T>, i: nat, j: nat)
    requires i <= j <= |s|
    ensures s[i..j] + s[j..] == s[i..]
  {
  }

  /** A sequence is its three slices, cut at any two points in order. */
  lemma SliceThree<T>(s: seq<T>, i: nat, j: nat)
    requires i <= j <= |s|
    ensures s[..i] + s[i..j] + s[j..] == s
  {
    assert s[..i] + s[i..j] == s[..j];
  }

  /** A slice that ends inside the first part of a concatenation lies in that part. */
  lemma AppendSliceLeft<T>(a: seq<T>, b: seq<T>, i: nat, j: nat)
    requires i <= j <= |a|
    ensures (a + b)[i..j] == a[i..j]
  {
  }

  /** What follows the first part of a concatenation is the second part. */
  lemma AppendSliceRight<T>(a: seq<T>, b: seq<T>)
    ensures (a + b)[|a|..|a + b|] == b
  {
  }

  /** A property that holds of every element each input gives holds of the whole output. */
  lemma {:induction false} ConcatMapAll<T, U>(xs: seq<T>, f: T -> seq<U>, p: U -> bool)
    requires forall i, k :: 0 <= i < |xs| && 0 <= k < |f(xs[i])| ==> p(f(xs[i])[k])
    ensures forall k :: 0 <= k < |ConcatMap(xs, f)| ==> p(ConcatMap(xs, f)[k])
    decreases |xs|
  {
    if xs != [] {
      var init := xs[..|xs| - 1];
      forall i, k | 0 <= i < |init| && 0 <= k < |f(init[i])| ensures p(f(init[i])[k]) {
        assert init[i] == xs[i];
      }
      ConcatMapAll(init, f, p);
    }
  }
}
