/** Order-preserving relations between sequences. */
module Sequences {

  /** `a` is obtained from `b` by deleting elements, keeping order. */
  predicate IsSubsequence<T(==)>(a: seq<T>, b: seq<T>)
    decreases |b|
  {
    if |a| == 0 then true
    else if |b| == 0 then false
    else if a[0] == b[0] then IsSubsequence(a[1..], b[1..])
    else IsSubsequence(a, b[1..])
  }

  predicate IsPrefix<T(==)>(a: seq<T>, b: seq<T>) {
    |a| <= |b| && b[..|a|] == a
  }

  function Min(a: int, b: int): int {
    if a <= b then a else b
  }

  /** Dropping a new head from the larger sequence keeps a subsequence. */
  lemma {:induction false} SubsequenceCons<T>(a: seq<T>, x: T, b: seq<T>)
    requires IsSubsequence(a, b)
    ensures IsSubsequence(a, [x] + b)
    ensures IsSubsequence([x] + a, [x] + b)
    decreases |b|, 1
  {
    assert ([x] + b)[1..] == b;
    assert ([x] + a)[1..] == a;
    if |a| > 0 && a[0] == x {
      SubsequenceTail(a, b);
    }
  }

  /** A new head of the larger sequence may be kept or dropped. */
  lemma SubsequenceConsChoice<T>(a: seq<T>, x: T, b: seq<T>, keep: bool)
    requires IsSubsequence(a, b)
    ensures IsSubsequence((if keep then [x] else []) + a, [x] + b)
  {
    SubsequenceCons(a, x, b);
    if !keep {
      assert [] + a == a;
    }
  }

  /** Dropping the head of the smaller sequence keeps a subsequence. */
  lemma {:induction false} SubsequenceTail<T>(a: seq<T>, b: seq<T>)
    requires |a| > 0
    requires IsSubsequence(a, b)
    ensures IsSubsequence(a[1..], b)
    decreases |b|, 0
  {
    assert |b| > 0;
    if a[0] == b[0] {
      if |a[1..]| > 0 {
        SubsequenceTail(a[1..], b[1..]);
        SubsequenceCons(a[1..][1..], b[0], b[1..]);
        assert [b[0]] + b[1..] == b;
      }
    } else {
      SubsequenceTail(a, b[1..]);
      if |a[1..]| > 0 {
        SubsequenceCons(a[1..], b[0], b[1..]);
        assert [b[0]] + b[1..] == b;
      }
    }
  }

  /** A prefix of a subsequence is again a subsequence. */
  lemma {:induction false} PrefixOfSubsequence<T>(a: seq<T>, b: seq<T>, n: nat)
    requires n <= |a|
    requires IsSubsequence(a, b)
    ensures IsSubsequence(a[..n], b)
    decreases |b|
  {
    if n == 0 || |a| == 0 {
    } else if a[0] == b[0] {
      PrefixOfSubsequence(a[1..], b[1..], n - 1);
      assert a[..n][1..] == a[1..][..n - 1];
    } else {
      PrefixOfSubsequence(a, b[1..], n);
    }
  }

  /** Applies `f` to every element, keeping order (a Python list
      comprehension or an appending `for` loop). */
  method MapSeq<A, B>(xs: seq<A>, f: A --> B) returns (ys: seq<B>)
    requires forall i :: 0 <= i < |xs| ==> f.requires(xs[i])
    ensures |ys| == |xs|
    ensures forall i :: 0 <= i < |xs| ==> ys[i] == f(xs[i])
  {
    ys := [];
    var i := 0;
    while i < |xs|
      invariant 0 <= i <= |xs|
      invariant |ys| == i
      invariant forall j :: 0 <= j < i ==> ys[j] == f(xs[j])
    {
      ys := ys + [f(xs[i])];
      i := i + 1;
    }
  }

  /** Python's `enumerate(xs, start)` followed by `f`: element `i` is paired
      with the number `start + i`. */
  function Enumerate<T, U>(xs: seq<T>, start: int, f: (int, T) -> U): (r: seq<U>)
    ensures |r| == |xs|
    ensures forall i :: 0 <= i < |xs| ==> r[i] == f(start + i, xs[i])
  {
    seq(|xs|, i requires 0 <= i < |xs| => f(start + i, xs[i]))
  }

  /** Concatenation of a sequence of sequences. */
  function Flatten<T>(xss: seq<seq<T>>): seq<T> {
    if |xss| == 0 then [] else xss[0] + Flatten(xss[1..])
  }

  /** When every piece has width `w`, piece `i` sits at offset `w * i`. */
  lemma {:induction false} FlattenUniform<T>(xss: seq<seq<T>>, w: nat, i: nat)
    requires forall j :: 0 <= j < |xss| ==> |xss[j]| == w
    requires i < |xss|
    ensures |Flatten(xss)| == w * |xss|
    ensures w * i + w <= |Flatten(xss)|
    ensures Flatten(xss)[w * i..w * i + w] == xss[i]
  {
    FlattenLength(xss, w);
    var rest := Flatten(xss[1..]);
    if i > 0 {
      FlattenUniform(xss[1..], w, i - 1);
      assert w * i == w + w * (i - 1);
      assert Flatten(xss)[w * i..w * i + w] == rest[w * (i - 1)..w * (i - 1) + w];
    } else {
      assert Flatten(xss)[..w] == xss[0];
    }
  }

  /** The same, after a prefix. */
  lemma FlattenUniformAfter<T>(prefix: seq<T>, xss: seq<seq<T>>, w: nat, i: nat)
    requires forall j :: 0 <= j < |xss| ==> |xss[j]| == w
    requires i < |xss|
    ensures |prefix| + w * i + w <= |prefix + Flatten(xss)|
    ensures (prefix + Flatten(xss))[|prefix| + w * i..|prefix| + w * i + w] == xss[i]
  {
    FlattenUniform(xss, w, i);
    var all := prefix + Flatten(xss);
    assert all[|prefix| + w * i..|prefix| + w * i + w] == Flatten(xss)[w * i..w * i + w];
  }

  lemma {:induction false} FlattenLength<T>(xss: seq<seq<T>>, w: nat)
    requires forall j :: 0 <= j < |xss| ==> |xss[j]| == w
    ensures |Flatten(xss)| == w * |xss|
  {
    if |xss| > 0 {
      FlattenLength(xss[1..], w);
      assert w * |xss| == w + w * (|xss| - 1);
    }
  }
}
