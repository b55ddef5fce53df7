/**
 * Turning the walked half-arm into the whole outline: mirroring it about
 * the diagonal, keeping every `step`-th point of all but the last five
 * (Python's `vertices[:-5:step]`), and laying `d` rotated copies of the
 * arm one after another.
 */
module Arm {
  import opened Wrappers
  import opened Outline
  import opened Seqs

  /** A point of the sheared, rotated outline. */
  datatype Vec2 = Vec2(x: real, y: real)

  /** A point reflected about the diagonal: its coordinates swapped. */
  function Swap(p: Point): Point
  {
    Point(p.y, p.x)
  }

  /** The reflected list: `vs` backwards with every point swapped. */
  function Reflected(vs: seq<Point>): seq<Point>
  {
    seq(|vs|, k requires 0 <= k < |vs| => Swap(vs[|vs| - 1 - k]))
  }

  /** The reflected list prepended to the walk. */
  function Mirror(vs: seq<Point>): seq<Point>
  {
    Reflected(vs) + vs
  }

  /** Builds the reflected list one point at a time and prepends it. */
  method MirrorArm(vs: seq<Point>) returns (r: seq<Point>)
    ensures r == Mirror(vs)
  {
    var reflected: seq<Point> := [];
    var n := |vs|;
    for k := 0 to n
      invariant |reflected| == k
      invariant forall j :: 0 <= j < k ==> reflected[j] == Swap(vs[n - 1 - j])
    {
      reflected := reflected + [Swap(vs[n - 1 - k])];
    }
    r := reflected + vs;
  }

  /** Mirroring doubles the length and is symmetric about its middle. */
  lemma MirrorSymmetric(vs: seq<Point>)
    ensures |Mirror(vs)| == 2 * |vs|
    ensures forall k :: 0 <= k < 2 * |vs| ==> Mirror(vs)[k] == Swap(Mirror(vs)[2 * |vs| - 1 - k])
  {
    var m := Mirror(vs);
    var n := |vs|;
    forall k | 0 <= k < 2 * n ensures m[k] == Swap(m[2 * n - 1 - k]) {
      if k < n {
        assert m[k] == Swap(vs[n - 1 - k]);
        assert m[2 * n - 1 - k] == vs[n - 1 - k];
      } else {
        assert m[k] == vs[k - n];
        assert m[2 * n - 1 - k] == Swap(vs[k - n]);
      }
    }
  }

  /** Reflecting twice gives the walk back. */
  lemma ReflectedTwice(vs: seq<Point>)
    ensures Reflected(Reflected(vs)) == vs
  {
    var r := Reflected(vs);
    assert forall k :: 0 <= k < |vs| ==> Reflected(r)[k] == Swap(Swap(vs[k]));
  }

  /** The index where `[:-5]` stops: five before the end, clamped at 0. */
  function StopBeforeLastFive(n: nat): nat
  {
    if n >= 5 then n - 5 else 0
  }

  /** `s[::step]`: the first element, then every `step`-th one after it. */
  function EveryStep<T>(s: seq<T>, step: nat): seq<T>
    requires step > 0
    decreases |s|
  {
    if s == [] then []
    else if |s| <= step then [s[0]]
    else [s[0]] + EveryStep(s[step..], step)
  }

  /** `s[:-5:step]`. */
  function Sample<T>(s: seq<T>, step: nat): seq<T>
    requires step > 0
  {
    EveryStep(s[..StopBeforeLastFive(|s|)], step)
  }

  /** Element `k` of `s[::step]` is `s[k * step]`. */
  lemma {:induction false} EveryStepAt<T>(s: seq<T>, step: nat, k: nat)
    requires step > 0 && k < |EveryStep(s, step)|
    ensures k * step < |s| && EveryStep(s, step)[k] == s[k * step]
  {
    if k > 0 {
      assert |s| > step;
      EveryStepAt(s[step..], step, k - 1);
      MulStep(k - 1, step);
    }
  }

  /** `s[::step]` holds `r` elements exactly when `(r - 1) * step < |s| <= r * step`. */
  lemma {:induction false} EveryStepLength<T>(s: seq<T>, step: nat)
    requires step > 0
    ensures var r := |EveryStep(s, step)|;
      (r == 0 <==> s == []) && (r > 0 ==> (r - 1) * step < |s| <= r * step)
  {
    if |s| > step {
      var r := |EveryStep(s[step..], step)|;
      EveryStepLength(s[step..], step);
      MulStep(r, step);
      MulStep(r - 1, step);
    }
  }

  /** Every index that is a multiple of `step` is kept by `s[::step]`. */
  lemma EveryStepKeeps<T>(s: seq<T>, step: nat, k: nat)
    requires step > 0 && k * step < |s|
    ensures k < |EveryStep(s, step)| && EveryStep(s, step)[k] == s[k * step]
  {
    var r := |EveryStep(s, step)|;
    EveryStepLength(s, step);
    if k >= r {
      MonoMul(r, k, step);
    }
    EveryStepAt(s, step, k);
  }

  /** `s[:-5:step]` keeps `s[k * step]` for exactly the `k` with `k * step` before the last five. */
  lemma SampleAt<T>(s: seq<T>, step: nat, k: nat)
    requires step > 0
    ensures k < |Sample(s, step)| <==> k * step < StopBeforeLastFive(|s|)
    ensures k < |Sample(s, step)| ==> Sample(s, step)[k] == s[k * step]
  {
    var front := s[..StopBeforeLastFive(|s|)];
    if k < |Sample(s, step)| {
      EveryStepAt(front, step, k);
    } else if k * step < |front| {
      EveryStepKeeps(front, step, k);
    }
  }

  /** Copy `i` of the arm: every point put through the `i`-th rotation. */
  function Branch<T>(vs: seq<T>, rot: (nat, T) -> T, i: nat): (b: seq<T>)
    ensures |b| == |vs|
  {
    seq(|vs|, k requires 0 <= k < |vs| => rot(i, vs[k]))
  }

  /** The `d` copies as a list of lists. */
  function Branches<T>(vs: seq<T>, rot: (nat, T) -> T, d: nat): (bs: seq<seq<T>>)
    ensures |bs| == d && Uniform(bs, |vs|)
  {
    seq(d, i requires 0 <= i < d => Branch(vs, rot, i))
  }

  /** The `d` rotated copies, copy 0 first. */
  function Copies<T>(vs: seq<T>, rot: (nat, T) -> T, d: nat): seq<T>
  {
    Flatten(Branches(vs, rot, d))
  }

  /** Appends copy after copy, each built point by point. */
  method RotatedCopies<T>(vs: seq<T>, rot: (nat, T) -> T, d: nat) returns (all: seq<T>)
    ensures all == Copies(vs, rot, d)
  {
    all := [];
    ghost var branches: seq<seq<T>> := [];
    for i := 0 to d
      invariant branches == seq(i, j requires 0 <= j < i => Branch(vs, rot, j))
      invariant all == Flatten(branches)
    {
      var next: seq<T> := [];
      for k := 0 to |vs|
        invariant next == Branch(vs, rot, i)[..k]
      {
        next := next + [rot(i, vs[k])];
      }
      assert next == Branch(vs, rot, i);
      assert Flatten(branches + [next]) == Flatten(branches) + next;
      branches := branches + [next];
      all := all + next;
    }
    assert branches == Branches(vs, rot, d);
  }

  /** The copies hold `d * |vs|` points, point `k` of copy `i` at `i * |vs| + k`. */
  lemma CopiesAt<T>(vs: seq<T>, rot: (nat, T) -> T, d: nat)
    ensures |Copies(vs, rot, d)| == d * |vs|
    ensures forall i, k :: 0 <= i < d && 0 <= k < |vs| ==>
      i * |vs| + k < d * |vs| && Copies(vs, rot, d)[i * |vs| + k] == rot(i, vs[k])
  {
    CopiesLength(vs, rot, d);
    forall i, k | 0 <= i < d && 0 <= k < |vs|
      ensures i * |vs| + k < d * |vs| && Copies(vs, rot, d)[i * |vs| + k] == rot(i, vs[k])
    {
      CopyAt(vs, rot, d, i, k);
    }
  }

  lemma CopiesLength<T>(vs: seq<T>, rot: (nat, T) -> T, d: nat)
    ensures |Copies(vs, rot, d)| == d * |vs|
  {
    FlattenLength(Branches(vs, rot, d), |vs|);
  }

  lemma CopyAt<T>(vs: seq<T>, rot: (nat, T) -> T, d: nat, i: nat, k: nat)
    requires i < d && k < |vs|
    ensures |Copies(vs, rot, d)| == d * |vs|
    ensures i * |vs| + k < d * |vs| && Copies(vs, rot, d)[i * |vs| + k] == rot(i, vs[k])
  {
    var bs := Branches(vs, rot, d);
    CopiesLength(vs, rot, d);
    FlattenAt(bs, |vs|, i, k);
    assert bs[i][k] == rot(i, vs[k]);
  }

  /** Every point put through the shear back to the hex grid. */
  function Sheared(vs: seq<Point>, shear: Point -> Vec2): (ws: seq<Vec2>)
    ensures |ws| == |vs|
  {
    seq(|vs|, k requires 0 <= k < |vs| => shear(vs[k]))
  }

  /**
   * One arm of the outline: walk from the first boundary cell, mirror the
   * walk, keep every `step`-th point of all but the last five and shear
   * them. `None` when the boundary is empty or the walk stops.
   */
  function ArmVertices(b: seq<seq<bool>>, mask: seq<seq<int>>, step: nat, shear: Point -> Vec2): Option<seq<Vec2>>
    requires Rect(b) && Rect(mask) && step > 0
  {
    match Start(b)
    case None => None
    case Some(s) =>
      match Walk(Stepper(b, mask), s, WalkSteps)
      case None => None
      case Some(trail) => Some(Sheared(Sample(Mirror(trail.vertices), step), shear))
  }

  /** Walks, mirrors, samples and shears the arm, the shear applied point by point. */
  method MakeArm(b: seq<seq<bool>>, mask: seq<seq<int>>, step: nat, shear: Point -> Vec2) returns (r: Option<seq<Vec2>>)
    requires Rect(b) && Rect(mask) && step > 0
    ensures r == ArmVertices(b, mask, step, shear)
  {
    var start := Start(b);
    if start.None? {
      return None;
    }
    var walked := WalkArm(b, mask, start.value, WalkSteps);
    if walked.None? {
      return None;
    }
    var mirrored := MirrorArm(walked.value);
    var sampled := Sample(mirrored, step);
    var sheared: seq<Vec2> := [];
    for i := 0 to |sampled|
      invariant sheared == Sheared(sampled, shear)[..i]
    {
      sheared := sheared + [shear(sampled[i])];
    }
    assert sheared == Sheared(sampled, shear);
    r := Some(sheared);
  }

  /** The only count `n` of sampled points with `(n - 1) * step < 365 <= n * step`. */
  lemma SampleCount(n: nat, step: nat)
    requires (step == 2 || step == 5) && n > 0 && (n - 1) * step < 365 <= n * step
    ensures n == (if step == 2 then 183 else 73)
  {
    var want := if step == 2 then 183 else 73;
    if n < want {
      MonoMul(n, want - 1, step);
    } else if n > want {
      MonoMul(want, n - 1, step);
    }
  }

  /**
   * Sampling a mirrored walk of 185 points: the mirror has 370 points, the
   * last five are dropped, and point `k` is the shear of mirrored point
   * `k * step`: 183 points for a step of 2, 73 for a step of 5.
   */
  lemma SampledArm(vs: seq<Point>, step: nat, shear: Point -> Vec2)
    requires |vs| == WalkSteps + 1 && (step == 2 || step == 5)
    ensures var arm := Sheared(Sample(Mirror(vs), step), shear);
      |Mirror(vs)| == 370 && |arm| == (if step == 2 then 183 else 73) &&
      forall k :: 0 <= k < |arm| ==> k * step < 365 && arm[k] == shear(Mirror(vs)[k * step])
  {
    var m := Mirror(vs);
    var front := m[..StopBeforeLastFive(|m|)];
    assert |front| == 365;
    EveryStepLength(front, step);
    SampleCount(|EveryStep(front, step)|, step);
    forall k | 0 <= k < |Sample(m, step)| ensures k * step < 365 && Sample(m, step)[k] == m[k * step] {
      SampleAt(m, step, k);
    }
  }

  /** A finished arm is the sampled, sheared mirror of a full walk from the first boundary cell. */
  lemma ArmShape(b: seq<seq<bool>>, mask: seq<seq<int>>, step: nat, shear: Point -> Vec2)
    requires Rect(b) && Rect(mask) && (step == 2 || step == 5)
    requires ArmVertices(b, mask, step, shear).Some?
    ensures Start(b).Some? && Walk(Stepper(b, mask), Start(b).value, WalkSteps).Some?
    ensures var vs := Walk(Stepper(b, mask), Start(b).value, WalkSteps).value.vertices;
      |vs| == WalkSteps + 1 && vs[0] == Start(b).value &&
      ArmVertices(b, mask, step, shear).value == Sheared(Sample(Mirror(vs), step), shear)
  {
  }
}
