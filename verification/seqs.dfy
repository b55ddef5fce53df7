/** Sequence helpers shared by the matrix and OBJ models: JavaScript's `Array.prototype.flat`. */
module Seqs {

  /** Concatenation of the inner sequences, in order (one level of `flat()`). */
  function Flatten<T>(ss: seq<seq<T>>): seq<T>
  {
    if ss == [] then [] else Flatten(ss[..|ss| - 1]) + ss[|ss| - 1]
  }

  /** Every inner sequence has length `w`. */
  predicate Uniform<T>(ss: seq<seq<T>>, w: nat)
  {
    forall k :: 0 <= k < |ss| ==> |ss[k]| == w
  }

  lemma MulStep(n: nat, w: nat)
    ensures (n + 1) * w == n * w + w
  {
  }

  /** Flattening `n` rows of equal width `w` gives `n * w` elements. */
  lemma {:induction false} FlattenLength<T>(ss: seq<seq<T>>, w: nat)
    requires Uniform(ss, w)
    ensures |Flatten(ss)| == |ss| * w
  {
    if ss != [] {
      var n := |ss| - 1;
      FlattenLength(ss[..n], w);
      MulStep(n, w);
    }
  }

  /** Flattening rows of equal width `w` puts `ss[j][i]` at index `j * w + i`. */
  lemma {:induction false} FlattenAt<T>(ss: seq<seq<T>>, w: nat, j: nat, i: nat)
    requires Uniform(ss, w) && j < |ss| && i < w
    ensures j * w + i < |Flatten(ss)| && Flatten(ss)[j * w + i] == ss[j][i]
  {
    var n := |ss| - 1;
    var front := ss[..n];
    FlattenLength(front, w);
    assert Flatten(ss) == Flatten(front) + ss[n];
    if j < n {
      LessMul(j, n, w, i);
      FlattenAt(front, w, j, i);
    } else {
      assert Flatten(ss)[n * w + i] == ss[n][i];
    }
  }

  /** `j < n` and `i < w` put `j * w + i` strictly below `n * w`. */
  lemma LessMul(j: nat, n: nat, w: nat, i: nat)
    requires j < n && i < w
    ensures j * w + i < n * w
  {
    MulStep(j, w);
    assert (j + 1) * w <= n * w by { MonoMul(j + 1, n, w); }
  }

  lemma MonoMul(a: nat, b: nat, w: nat)
    requires a <= b
    ensures a * w <= b * w
  {
  }

  /** Concatenation is associative. */
  lemma Assoc<T>(a: seq<T>, b: seq<T>, c: seq<T>)
    ensures a + (b + c) == (a + b) + c
  {
  }
}
