/**
 * Removing repeated points from a list: a scan that keeps a set of the
 * values seen so far and deletes, in place, every element already in it.
 */
module Duplicates {

  /** No value occurs twice. */
  predicate Distinct<T(==)>(xs: seq<T>)
  {
    forall a, b :: 0 <= a < b < |xs| ==> xs[a] != xs[b]
  }

  /** The list with every repeat of an earlier value left out. */
  function Dedup<T(==)>(xs: seq<T>): seq<T>
  {
    if xs == [] then []
    else
      var n := |xs| - 1;
      Dedup(xs[..n]) + (if xs[n] in xs[..n] then [] else [xs[n]])
  }

  /** The index of the first occurrence of `x`. */
  function FirstIndex<T(==)>(xs: seq<T>, x: T): (k: nat)
    requires x in xs
    ensures k < |xs| && xs[k] == x && x !in xs[..k]
  {
    if xs[0] == x then 0 else 1 + FirstIndex(xs[1..], x)
  }

  /** Deletes `xs[i]` when its value was seen before, otherwise records it and moves on. */
  method RemoveDuplicates<T(==)>(xs: seq<T>) returns (r: seq<T>)
    ensures r == Dedup(xs)
  {
    r := xs;
    var seen: set<T> := {};
    var i := 0;
    ghost var consumed := 0;
    while i < |r|
      invariant 0 <= i <= |r| && 0 <= consumed <= |xs|
      invariant r[..i] == Dedup(xs[..consumed]) && r[i..] == xs[consumed..]
      invariant forall x :: x in seen <==> x in r[..i]
      decreases |r| - i
    {
      var v := r[i];
      assert v == xs[consumed];
      assert xs[..consumed + 1][..consumed] == xs[..consumed];
      DedupMembers(xs[..consumed]);
      if v in seen {
        r := r[..i] + r[i + 1..];
        assert r[..i] == Dedup(xs[..consumed + 1]);
      } else {
        seen := seen + {v};
        assert r[..i + 1] == r[..i] + [v];
        i := i + 1;
      }
      consumed := consumed + 1;
    }
    assert xs[..consumed] == xs;
    assert r == r[..i];
  }

  /** Dedup keeps exactly the values of the list. */
  lemma {:induction false} DedupMembers<T>(xs: seq<T>)
    ensures forall x :: x in Dedup(xs) <==> x in xs
  {
    if xs != [] {
      var n := |xs| - 1;
      DedupMembers(xs[..n]);
      assert xs == xs[..n] + [xs[n]];
    }
  }

  /** Dedup leaves no value twice. */
  lemma {:induction false} DedupDistinct<T>(xs: seq<T>)
    ensures Distinct(Dedup(xs))
  {
    if xs != [] {
      var n := |xs| - 1;
      DedupDistinct(xs[..n]);
      DedupMembers(xs[..n]);
    }
  }

  /** Appending after a value does not move its first occurrence. */
  lemma FirstIndexAppend<T>(xs: seq<T>, ys: seq<T>, x: T)
    requires x in xs
    ensures FirstIndex(xs + ys, x) == FirstIndex(xs, x)
  {
    var j := FirstIndex(xs, x);
    var k := FirstIndex(xs + ys, x);
    assert (xs + ys)[j] == x;
  }

  /** A value new to `xs` first occurs at the end of `xs + [y]`. */
  lemma FirstIndexLast<T>(xs: seq<T>, y: T)
    requires y !in xs
    ensures FirstIndex(xs + [y], y) == |xs|
  {
    var k := FirstIndex(xs + [y], y);
  }

  /** Dedup lists the values in the order of their first occurrences. */
  lemma {:induction false} DedupFirstOccurrences<T>(xs: seq<T>)
    ensures forall x :: x in Dedup(xs) ==> x in xs
    ensures forall a, b :: 0 <= a < b < |Dedup(xs)| ==> FirstIndex(xs, Dedup(xs)[a]) < FirstIndex(xs, Dedup(xs)[b])
  {
    if xs != [] {
      var n := |xs| - 1;
      DedupFirstOccurrences(xs[..n]);
      DedupLast(xs);
      SplitLast(xs);
      OrderPreserved(xs[..n], xs[n], Dedup(xs[..n]), xs, Dedup(xs));
    }
  }

  /** One unfolding of `Dedup` at the last element. */
  lemma DedupLast<T>(xs: seq<T>)
    requires xs != []
    ensures Dedup(xs) == Dedup(xs[..|xs| - 1]) + (if xs[|xs| - 1] in xs[..|xs| - 1] then [] else [xs[|xs| - 1]])
  {
  }

  lemma SplitLast<T>(xs: seq<T>)
    requires xs != []
    ensures xs == xs[..|xs| - 1] + [xs[|xs| - 1]]
  {
  }

  /** The induction step: the kept values of `p` stay in order in `p + [y]`, and a new `y` comes last. */
  lemma OrderPreserved<T>(p: seq<T>, y: T, q: seq<T>, xs: seq<T>, r: seq<T>)
    requires xs == p + [y] && r == q + (if y in p then [] else [y])
    requires forall x :: x in q ==> x in p
    requires forall a, b :: 0 <= a < b < |q| ==> FirstIndex(p, q[a]) < FirstIndex(p, q[b])
    ensures forall x :: x in r ==> x in xs
    ensures forall a, b :: 0 <= a < b < |r| ==> r[a] in xs && r[b] in xs && FirstIndex(xs, r[a]) < FirstIndex(xs, r[b])
  {
    forall a, b | 0 <= a < b < |r|
      ensures r[a] in xs && r[b] in xs && FirstIndex(xs, r[a]) < FirstIndex(xs, r[b])
    {
      OrderStep(p, y, q, a, b);
    }
  }

  /**
   * One pair of the induction step: the order of the kept prefix values
   * carries over to `p + [y]`, and a value new to `p` comes after them all.
   */
  lemma OrderStep<T>(p: seq<T>, y: T, q: seq<T>, a: nat, b: nat)
    requires forall x :: x in q ==> x in p
    requires a < b < |q + (if y in p then [] else [y])|
    requires b < |q| ==> q[a] in p && q[b] in p && FirstIndex(p, q[a]) < FirstIndex(p, q[b])
    ensures var r := q + (if y in p then [] else [y]);
      r[a] in p + [y] && r[b] in p + [y] && FirstIndex(p + [y], r[a]) < FirstIndex(p + [y], r[b])
  {
    var r := q + (if y in p then [] else [y]);
    assert r[a] == q[a] && q[a] in q;
    FirstIndexAppend(p, [y], r[a]);
    if b < |q| {
      assert r[b] == q[b];
      FirstIndexAppend(p, [y], r[b]);
    } else {
      assert r[b] == y && y !in p;
      FirstIndexLast(p, y);
    }
  }

  /** A list without repeats is left as it is. */
  lemma {:induction false} DedupOfDistinct<T>(xs: seq<T>)
    requires Distinct(xs)
    ensures Dedup(xs) == xs
  {
    if xs != [] {
      var n := |xs| - 1;
      assert Distinct(xs[..n]);
      DedupOfDistinct(xs[..n]);
      assert xs[n] !in xs[..n];
      assert xs == xs[..n] + [xs[n]];
    }
  }

  /** Removing duplicates twice is the same as once. */
  lemma DedupIdempotent<T>(xs: seq<T>)
    ensures Dedup(Dedup(xs)) == Dedup(xs)
  {
    DedupDistinct(xs);
    DedupOfDistinct(Dedup(xs));
  }
}
