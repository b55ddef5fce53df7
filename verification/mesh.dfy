/**
 * Face indices of the extruded snowflake meshes. A triangulated outline
 * is turned into a slab: the triangles on the front, the same triangles
 * wound the other way on a back copy of the vertices, and a band of side
 * faces joining the outline ring on the front to the ring behind it.
 * The segment ring handed to the triangulator is here too.
 */
module Mesh {
  import opened Seqs

  /**
   * The segments handed to the triangulator: `(i, i + 1)` for `i < n - 1`,
   * then the closing `(n - 1, 0)`, which is still added when there are no
   * points at all.
   */
  function Segments(n: nat): (s: seq<(int, int)>)
    ensures n >= 1 ==> |s| == n && forall i :: 0 <= i < n ==> s[i] == (i, if i + 1 < n then i + 1 else 0)
    ensures n == 0 ==> s == [(-1, 0)]
  {
    seq(if n >= 1 then n - 1 else 0, i requires 0 <= i => (i, i + 1)) + [(n - 1, 0)]
  }

  /** For `n >= 1` points the segments form one ring: segment `i` joins point `i` to the next one, the last back to 0. */
  lemma SegmentsRing(n: nat)
    requires n >= 1
    ensures |Segments(n)| == n
    ensures forall i :: 0 <= i < n ==> Segments(n)[i] == (i, (i + 1) % n)
  {
    var s := Segments(n);
    forall i | 0 <= i < n ensures s[i] == (i, (i + 1) % n) {
      if i < n - 1 {
        assert s[i] == (i, i + 1);
      } else {
        assert s[i] == (n - 1, 0);
      }
    }
  }

  datatype Tri = Tri(a: int, b: int, c: int)

  /** Every corner of every triangle indexes one of `n` vertices. */
  predicate InRange(ts: seq<Tri>, n: int)
  {
    forall k :: 0 <= k < |ts| ==> 0 <= ts[k].a < n && 0 <= ts[k].b < n && 0 <= ts[k].c < n
  }

  lemma InRangeConcat(ts: seq<Tri>, us: seq<Tri>, n: int, m: int)
    requires InRange(ts, n) && InRange(us, m) && n <= m
    ensures InRange(ts + us, m)
  {
    forall k | 0 <= k < |ts + us| ensures 0 <= (ts + us)[k].a < m && 0 <= (ts + us)[k].b < m && 0 <= (ts + us)[k].c < m {
      if k >= |ts| {
        assert (ts + us)[k] == us[k - |ts|];
      }
    }
  }

  /** The copy of `t` on the back layer, `n` vertices further on, its first two corners swapped. */
  function BackTriangle(t: Tri, n: int): Tri
  {
    Tri(t.b + n, t.a + n, t.c + n)
  }

  function BackTriangles(ts: seq<Tri>, n: int): (back: seq<Tri>)
    ensures |back| == |ts|
  {
    seq(|ts|, k requires 0 <= k < |ts| => BackTriangle(ts[k], n))
  }

  /** Back triangles of triangles on the first `n` vertices use only the vertices `n .. 2n - 1`. */
  lemma BackTrianglesInRange(ts: seq<Tri>, n: int)
    requires InRange(ts, n)
    ensures InRange(ts + BackTriangles(ts, n), 2 * n)
    ensures forall k :: 0 <= k < |ts| ==> var t := BackTriangles(ts, n)[k];
      n <= t.a < 2 * n && n <= t.b < 2 * n && n <= t.c < 2 * n
  {
    var all := ts + BackTriangles(ts, n);
    forall k | 0 <= k < |all| ensures 0 <= all[k].a < 2 * n && 0 <= all[k].b < 2 * n && 0 <= all[k].c < 2 * n {
      if k >= |ts| {
        assert all[k] == BackTriangle(ts[k - |ts|], n);
      }
    }
  }

  /** The triangle read from its second corner: the same triangle, wound the same way. */
  function Turn(t: Tri): Tri
  {
    Tri(t.b, t.c, t.a)
  }

  predicate SameWinding(t: Tri, u: Tri)
  {
    u == t || u == Turn(t) || u == Turn(Turn(t))
  }

  /** The back triangle, moved back onto the front vertices, is `t` wound the other way. */
  lemma BackTriangleReversed(t: Tri, n: int)
    ensures var u := BackTriangle(t, n); SameWinding(Tri(t.a, t.c, t.b), Tri(u.a - n, u.b - n, u.c - n))
  {
    var u := BackTriangle(t, n);
    assert Tri(u.a - n, u.b - n, u.c - n) == Turn(Turn(Tri(t.a, t.c, t.b)));
  }

  /** Four vertex indices around a quadrilateral, in order. */
  datatype Quad = Quad(p0: int, p1: int, p2: int, p3: int)

  function Corner(q: Quad, i: nat): int
    requires i < 4
  {
    if i == 0 then q.p0 else if i == 1 then q.p1 else if i == 2 then q.p2 else q.p3
  }

  /** The triangle of the corners other than corner `d`, in the quadrilateral's order. */
  function Drop(q: Quad, d: nat): Tri
    requires d < 4
  {
    Tri(Corner(q, (d + 1) % 4), Corner(q, (d + 2) % 4), Corner(q, (d + 3) % 4))
  }

  /** `t1` and `t2` cut `q` along one diagonal, both wound the way `q` goes round. */
  predicate Splits(q: Quad, t1: Tri, t2: Tri)
  {
    exists d :: 0 <= d < 4 && SameWinding(Drop(q, d), t1) && SameWinding(Drop(q, (d + 2) % 4), t2)
  }

  lemma SplitAt(q: Quad, t1: Tri, t2: Tri, d: nat)
    requires d < 4 && SameWinding(Drop(q, d), t1) && SameWinding(Drop(q, (d + 2) % 4), t2)
    ensures Splits(q, t1, t2)
  {
  }

  predicate Uses(t: Tri, x: int)
  {
    t.a == x || t.b == x || t.c == x
  }

  predicate HasCorner(q: Quad, x: int)
  {
    q.p0 == x || q.p1 == x || q.p2 == x || q.p3 == x
  }

  /** A triangle that uses a vertex the quadrilateral lacks cannot be one of its halves. */
  lemma ForeignCorner(q: Quad, t1: Tri, t2: Tri, x: int)
    requires !HasCorner(q, x) && (Uses(t1, x) || Uses(t2, x))
    ensures !Splits(q, t1, t2)
  {
    forall d | 0 <= d < 4 ensures !(SameWinding(Drop(q, d), t1) && SameWinding(Drop(q, (d + 2) % 4), t2)) {
      assert !Uses(Drop(q, d), x) && !Uses(Drop(q, (d + 2) % 4), x);
    }
  }

  // ----- the refactored snowflake: front, back and middle rings -----

  /**
   * The four side faces at outline position `i`, with `v` front vertices:
   * two between the front outline and the middle ring (which starts at
   * `2 * v`), two between the middle ring and the back outline (at `v`).
   */
  function BandStep(v: int, i: int): seq<Tri>
  {
    [Tri(i, v * 2 + i + 1, v * 2 + i),
     Tri(i, i + 1, v * 2 + i + 1),
     Tri(i + 2 * v, i + v + 1, i + v),
     Tri(i + 2 * v, i + v * 2 + 1, i + v + 1)]
  }

  /** The four faces that join outline position `f - 1` back to position 0. */
  function Closing(v: int, f: int): seq<Tri>
  {
    [Tri(0, 2 * v + f - 1, f - 1),
     Tri(0, 2 * v, 2 * v + f - 1),
     Tri(2 * v, v, 2 * v + f - 1),
     Tri(2 * v + f - 1, v, v + f - 1)]
  }

  /** The steps for `i < f - 1` (none when `f` is 0) as a list of lists. */
  function BandSteps(v: int, f: nat): seq<seq<Tri>>
  {
    seq(if f >= 1 then f - 1 else 0, i requires 0 <= i => BandStep(v, i))
  }

  /** All side faces of the refactored snowflake. */
  function SideBand(v: int, f: nat): seq<Tri>
  {
    Flatten(BandSteps(v, f)) + Closing(v, f)
  }

  /** The quadrilateral from front outline position `k` to the next one and across to the middle ring. */
  function OuterQuad(v: int, f: nat, k: nat): Quad
    requires f >= 1
  {
    var j := (k + 1) % f;
    Quad(k, j, 2 * v + j, 2 * v + k)
  }

  /** The quadrilateral from middle ring position `k` to the next one and across to the back outline. */
  function InnerQuad(v: int, f: nat, k: nat): Quad
    requires f >= 1
  {
    var j := (k + 1) % f;
    Quad(2 * v + k, 2 * v + j, v + j, v + k)
  }

  lemma BandStepsUniform(v: int, f: nat)
    ensures Uniform(BandSteps(v, f), 4)
    ensures |Flatten(BandSteps(v, f))| == |BandSteps(v, f)| * 4
  {
    FlattenLength(BandSteps(v, f), 4);
  }

  /**
   * The side band closes the ring: for each of the `f` outline positions
   * it holds two faces splitting the front-to-middle quadrilateral and two
   * splitting the middle-to-back one, the last position wrapping to 0.
   */
  lemma SideBandClosesRing(v: int, f: nat)
    requires f >= 1
    ensures |SideBand(v, f)| == 4 * f
    ensures forall k :: 0 <= k < f ==> var band := SideBand(v, f);
      4 * k + 3 < |band| &&
      Splits(OuterQuad(v, f, k), band[4 * k], band[4 * k + 1]) &&
      Splits(InnerQuad(v, f, k), band[4 * k + 2], band[4 * k + 3])
  {
    var steps := BandSteps(v, f);
    var band := SideBand(v, f);
    BandStepsUniform(v, f);
    forall k | 0 <= k < f
      ensures 4 * k + 3 < |band|
      ensures Splits(OuterQuad(v, f, k), band[4 * k], band[4 * k + 1])
      ensures Splits(InnerQuad(v, f, k), band[4 * k + 2], band[4 * k + 3])
    {
      if k < f - 1 {
        StepFaces(steps, k);
        StepSplits(v, f, k);
      } else {
        assert band[4 * k..] == Closing(v, f);
        ClosingSplits(v, f);
      }
    }
  }

  /** Faces `4k .. 4k + 3` of the flattened steps are step `k`. */
  lemma StepFaces(steps: seq<seq<Tri>>, k: nat)
    requires Uniform(steps, 4) && k < |steps|
    ensures 4 * k + 3 < |Flatten(steps)|
    ensures Flatten(steps)[4 * k] == steps[k][0] && Flatten(steps)[4 * k + 1] == steps[k][1]
    ensures Flatten(steps)[4 * k + 2] == steps[k][2] && Flatten(steps)[4 * k + 3] == steps[k][3]
  {
    FlattenAt(steps, 4, k, 0);
    FlattenAt(steps, 4, k, 1);
    FlattenAt(steps, 4, k, 2);
    FlattenAt(steps, 4, k, 3);
  }

  lemma StepSplits(v: int, f: nat, k: nat)
    requires k + 1 < f
    ensures var s := BandStep(v, k);
      Splits(OuterQuad(v, f, k), s[0], s[1]) && Splits(InnerQuad(v, f, k), s[2], s[3])
  {
    var s := BandStep(v, k);
    assert (k + 1) % f == k + 1;
    var outer := OuterQuad(v, f, k);
    var inner := InnerQuad(v, f, k);
    assert SameWinding(Drop(outer, 1), s[0]) && SameWinding(Drop(outer, 3), s[1]);
    SplitAt(outer, s[0], s[1], 1);
    assert SameWinding(Drop(inner, 1), s[2]) && SameWinding(Drop(inner, 3), s[3]);
    SplitAt(inner, s[2], s[3], 1);
  }

  lemma ClosingSplits(v: int, f: nat)
    requires f >= 1
    ensures var s := Closing(v, f);
      Splits(OuterQuad(v, f, f - 1), s[0], s[1]) && Splits(InnerQuad(v, f, f - 1), s[2], s[3])
  {
    LastWraps(v, f);
    ClosingOuter(v, f);
    ClosingInner(v, f);
  }

  /** At the last position the next one is position 0. */
  lemma LastWraps(v: int, f: nat)
    requires f >= 1
    ensures OuterQuad(v, f, f - 1) == Quad(f - 1, 0, 2 * v, 2 * v + f - 1)
    ensures InnerQuad(v, f, f - 1) == Quad(2 * v + f - 1, 2 * v, v, v + f - 1)
  {
    assert (f - 1 + 1) % f == 0;
  }

  lemma ClosingOuter(v: int, f: nat)
    ensures var s := Closing(v, f);
      Splits(Quad(f - 1, 0, 2 * v, 2 * v + f - 1), s[0], s[1])
  {
    var s := Closing(v, f);
    var outer := Quad(f - 1, 0, 2 * v, 2 * v + f - 1);
    assert Drop(outer, 2) == Tri(2 * v + f - 1, f - 1, 0) && s[0] == Turn(Turn(Drop(outer, 2)));
    assert Drop(outer, 0) == s[1];
    SplitAt(outer, s[0], s[1], 2);
  }

  lemma ClosingInner(v: int, f: nat)
    ensures var s := Closing(v, f);
      Splits(Quad(2 * v + f - 1, 2 * v, v, v + f - 1), s[2], s[3])
  {
    var s := Closing(v, f);
    var inner := Quad(2 * v + f - 1, 2 * v, v, v + f - 1);
    assert Drop(inner, 3) == Tri(2 * v + f - 1, 2 * v, v) && s[2] == Turn(Drop(inner, 3));
    assert Drop(inner, 1) == Tri(v, v + f - 1, 2 * v + f - 1) && s[3] == Turn(Turn(Drop(inner, 1)));
    SplitAt(inner, s[2], s[3], 3);
  }

  /** With `1 <= f <= v` every side face indexes one of the `2v + f` vertices. */
  lemma SideBandInRange(v: int, f: nat)
    requires 1 <= f <= v
    ensures InRange(SideBand(v, f), 2 * v + f)
  {
    var steps := BandSteps(v, f);
    var band := SideBand(v, f);
    BandStepsUniform(v, f);
    forall m | 0 <= m < |band| ensures 0 <= band[m].a < 2 * v + f && 0 <= band[m].b < 2 * v + f && 0 <= band[m].c < 2 * v + f {
      if m < 4 * (f - 1) {
        var k := m / 4;
        FlattenAt(steps, 4, k, m % 4);
      } else {
        assert band[m] == Closing(v, f)[m - 4 * (f - 1)];
      }
    }
  }

  // ----- the first script: a front and a back layer -----

  /** The two side faces at outline position `i`, exactly as the script writes them. */
  function StripStep(v: int, i: int): seq<Tri>
  {
    [Tri(i, v + i + 1, v + i), Tri(i, i + 1, v + i + 1)]
  }

  function StripSteps(v: int, f: nat): seq<seq<Tri>>
  {
    seq(f, i requires 0 <= i => StripStep(v, i))
  }

  /**
   * The script's side strip: a pair of faces for every one of the `f`
   * outline points, the pair at position `k` reaching to position `k + 1`
   * on both layers, with no wrap at the end.
   */
  function Strip(v: int, f: nat): (s: seq<Tri>)
    ensures |s| == 2 * f
    ensures forall k :: 0 <= k < f ==>
      s[2 * k] == Tri(k, v + k + 1, v + k) && s[2 * k + 1] == Tri(k, k + 1, v + k + 1)
  {
    StripPairs(v, f);
    Flatten(StripSteps(v, f))
  }

  lemma StripPairs(v: int, f: nat)
    ensures |Flatten(StripSteps(v, f))| == 2 * f
    ensures forall k :: 0 <= k < f ==>
      Flatten(StripSteps(v, f))[2 * k] == Tri(k, v + k + 1, v + k) &&
      Flatten(StripSteps(v, f))[2 * k + 1] == Tri(k, k + 1, v + k + 1)
  {
    var steps := StripSteps(v, f);
    FlattenLength(steps, 2);
    forall k | 0 <= k < f
      ensures Flatten(steps)[2 * k] == Tri(k, v + k + 1, v + k)
      ensures Flatten(steps)[2 * k + 1] == Tri(k, k + 1, v + k + 1)
    {
      PairFaces(steps, k);
    }
  }

  /** The pair at position `i` with the next position wrapped round the ring. */
  function WrappedStep(v: int, f: nat, i: int): seq<Tri>
    requires f >= 1
  {
    var j := (i + 1) % f;
    [Tri(i, v + j, v + i), Tri(i, j, v + j)]
  }

  function WrappedSteps(v: int, f: nat): seq<seq<Tri>>
  {
    seq(f, i requires 0 <= i < f => WrappedStep(v, f, i))
  }

  /** The side strip with its last pair joined back to position 0. */
  function WrappedStrip(v: int, f: nat): seq<Tri>
  {
    Flatten(WrappedSteps(v, f))
  }

  /** The quadrilateral from front position `k` to the next one and across to the back layer. */
  function SlabQuad(v: int, f: nat, k: nat): Quad
    requires f >= 1
  {
    var j := (k + 1) % f;
    Quad(k, j, v + j, v + k)
  }

  lemma PairFaces(steps: seq<seq<Tri>>, k: nat)
    requires Uniform(steps, 2) && k < |steps|
    ensures 2 * k + 1 < |Flatten(steps)| == 2 * |steps|
    ensures Flatten(steps)[2 * k] == steps[k][0] && Flatten(steps)[2 * k + 1] == steps[k][1]
  {
    FlattenLength(steps, 2);
    FlattenAt(steps, 2, k, 0);
    FlattenAt(steps, 2, k, 1);
  }

  /** The wrapped strip closes the ring: its pair `k` splits the quadrilateral from position `k` to the next. */
  lemma WrappedStripClosesRing(v: int, f: nat)
    requires f >= 1
    ensures |WrappedStrip(v, f)| == 2 * f
    ensures forall k :: 0 <= k < f ==> var s := WrappedStrip(v, f);
      2 * k + 1 < |s| && Splits(SlabQuad(v, f, k), s[2 * k], s[2 * k + 1])
  {
    var steps := WrappedSteps(v, f);
    FlattenLength(steps, 2);
    forall k | 0 <= k < f
      ensures 2 * k + 1 < |WrappedStrip(v, f)|
      ensures Splits(SlabQuad(v, f, k), WrappedStrip(v, f)[2 * k], WrappedStrip(v, f)[2 * k + 1])
    {
      PairFaces(steps, k);
      var q := SlabQuad(v, f, k);
      assert SameWinding(Drop(q, 1), steps[k][0]) && SameWinding(Drop(q, 3), steps[k][1]);
      SplitAt(q, steps[k][0], steps[k][1], 1);
    }
  }

  /** With `1 <= f <= v` the wrapped strip indexes only the `2v` slab vertices. */
  lemma WrappedStripInRange(v: int, f: nat)
    requires 1 <= f <= v
    ensures InRange(WrappedStrip(v, f), 2 * v)
  {
    var steps := WrappedSteps(v, f);
    var s := WrappedStrip(v, f);
    FlattenLength(steps, 2);
    forall m | 0 <= m < |s| ensures 0 <= s[m].a < 2 * v && 0 <= s[m].b < 2 * v && 0 <= s[m].c < 2 * v {
      FlattenAt(steps, 2, m / 2, m % 2);
    }
  }

  /**
   * The strip as written stays inside the `2v` slab vertices when the
   * triangulation added at least one point beyond the outline (`f < v`).
   */
  lemma StripInRange(v: int, f: nat)
    requires f < v
    ensures InRange(Strip(v, f), 2 * v)
  {
    var s := Strip(v, f);
    forall m | 0 <= m < |s| ensures 0 <= s[m].a < 2 * v && 0 <= s[m].b < 2 * v && 0 <= s[m].c < 2 * v {
      var k := m / 2;
      assert m == 2 * k || m == 2 * k + 1;
    }
  }

  /** Every pair of the strip as written but the last splits the quadrilateral from its position to the next. */
  lemma StripSplitsBeforeLast(v: int, f: nat, k: nat)
    requires k + 1 < f
    ensures Splits(SlabQuad(v, f, k), Strip(v, f)[2 * k], Strip(v, f)[2 * k + 1])
  {
    var q := SlabQuad(v, f, k);
    assert (k + 1) % f == k + 1;
    assert q == Quad(k, k + 1, v + k + 1, v + k);
    assert SameWinding(Drop(q, 1), Strip(v, f)[2 * k]) && SameWinding(Drop(q, 3), Strip(v, f)[2 * k + 1]);
    SplitAt(q, Strip(v, f)[2 * k], Strip(v, f)[2 * k + 1], 1);
  }

  /** Only the last pair differs between the strip as written and the wrapped one. */
  lemma StripAgreesBeforeLast(v: int, f: nat, k: nat)
    requires k + 1 < f
    ensures StripStep(v, k) == WrappedStep(v, f, k)
  {
    assert (k + 1) % f == k + 1;
  }

  /**
   * The strip as written leaves the ring open: its last pair uses vertex
   * `v + f`, which is no corner of the quadrilateral from position `f - 1`
   * back to 0, and when the triangulation added no vertices (`f == v`) that
   * index is past the end of the `2v` slab vertices.
   */
  lemma StripLeavesRingOpen(v: int, f: nat)
    requires 0 <= v && f >= 1
    ensures |Strip(v, f)| == 2 * f
    ensures !Splits(SlabQuad(v, f, f - 1), Strip(v, f)[2 * f - 2], Strip(v, f)[2 * f - 1])
    ensures f == v ==> !InRange(Strip(v, f), 2 * v)
  {
    var steps := StripSteps(v, f);
    PairFaces(steps, f - 1);
    var q := SlabQuad(v, f, f - 1);
    assert f % f == 0;
    assert Uses(Strip(v, f)[2 * f - 1], v + f);
    ForeignCorner(q, Strip(v, f)[2 * f - 2], Strip(v, f)[2 * f - 1], v + f);
  }
}
