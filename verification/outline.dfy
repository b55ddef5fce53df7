/**
 * The boundary walk shared by `mesh/refactor.py` and `mesh/meshgen.py`:
 * candidate offsets inside a mask window, the choice of the next offset,
 * the starting cell, and the walk itself.
 *
 * The boundary grid is an input (the convolution that produces it is not
 * modelled). Grid positions and offsets are integer points whose `x` is the
 * row and whose `y` is the column, as numpy indexes a 2-D array.
 */
module Outline {
  import opened Wrappers

  datatype Point = Point(x: int, y: int)

  function Plus(p: Point, q: Point): Point
  {
    Point(p.x + q.x, p.y + q.y)
  }

  function Minus(p: Point, q: Point): Point
  {
    Point(p.x - q.x, p.y - q.y)
  }

  /** Row-major order: the order in which `np.nonzero` and `np.where` list positions. */
  predicate Before(p: Point, q: Point)
  {
    p.x < q.x || (p.x == q.x && p.y < q.y)
  }

  predicate RowMajor(ps: seq<Point>)
  {
    forall a, b :: 0 <= a < b < |ps| ==> Before(ps[a], ps[b])
  }

  /** The length of the first row (0 for no rows). */
  function Width<T>(g: seq<seq<T>>): nat
  {
    if |g| == 0 then 0 else |g[0]|
  }

  /** A 2-D array: all rows as long as the first. */
  predicate Rect<T>(g: seq<seq<T>>)
  {
    forall i :: 0 <= i < |g| ==> |g[i]| == Width(g)
  }

  /** Position `p` lies inside the grid and is set. */
  predicate Cell(g: seq<seq<bool>>, p: Point)
  {
    0 <= p.x < |g| && 0 <= p.y < |g[p.x]| && g[p.x][p.y]
  }

  /** The mask both scripts use: a ring of 1s around a centre of 0s. */
  const SmallMask: seq<seq<int>> := [
    [0, 1, 1, 1, 0],
    [1, 1, 0, 1, 1],
    [1, 0, 0, 0, 1],
    [1, 1, 0, 1, 1],
    [0, 1, 1, 1, 0]]

  // ---------------------------------------------------------------- np.nonzero

  /** Every element of `s` comes before every element of `t`. */
  predicate AllBefore(s: seq<Point>, t: seq<Point>)
  {
    forall a, b :: 0 <= a < |s| && 0 <= b < |t| ==> Before(s[a], t[b])
  }

  lemma RowMajorConcat(s: seq<Point>, t: seq<Point>)
    requires RowMajor(s) && RowMajor(t) && AllBefore(s, t)
    ensures RowMajor(s + t)
  {
    forall a, b | 0 <= a < b < |s + t| ensures Before((s + t)[a], (s + t)[b]) {
      if b < |s| {
      } else if a >= |s| {
        assert (s + t)[a] == t[a - |s|] && (s + t)[b] == t[b - |s|];
      } else {
        assert (s + t)[b] == t[b - |s|];
      }
    }
  }

  /** The set positions of row `i`, left to right. */
  function RowNonZero(row: seq<bool>, i: int): seq<Point>
  {
    if row == [] then []
    else
      var j := |row| - 1;
      RowNonZero(row[..j], i) + if row[j] then [Point(i, j)] else []
  }

  /** `np.nonzero(g)` as a list of positions, row after row. */
  function NonZero(g: seq<seq<bool>>): seq<Point>
  {
    if g == [] then [] else NonZero(g[..|g| - 1]) + RowNonZero(g[|g| - 1], |g| - 1)
  }

  /** A row lists exactly its set positions, left to right. */
  lemma {:induction false} RowNonZeroSpec(row: seq<bool>, i: int)
    ensures var r := RowNonZero(row, i);
      && (forall p :: p in r <==> p.x == i && 0 <= p.y < |row| && row[p.y])
      && RowMajor(r)
      && (forall k :: 0 <= k < |r| ==> r[k].x == i && 0 <= r[k].y < |row|)
  {
    if row != [] {
      var j := |row| - 1;
      RowNonZeroSpec(row[..j], i);
      var front := RowNonZero(row[..j], i);
      var tail := if row[j] then [Point(i, j)] else [];
      assert AllBefore(front, tail);
      RowMajorConcat(front, tail);
    }
  }

  /** `np.nonzero` lists exactly the set cells, in row-major order. */
  lemma {:induction false} NonZeroSpec(g: seq<seq<bool>>)
    ensures var r := NonZero(g);
      && (forall p :: p in r <==> Cell(g, p))
      && RowMajor(r)
      && (forall k :: 0 <= k < |r| ==> 0 <= r[k].x < |g|)
  {
    if g != [] {
      var n := |g| - 1;
      NonZeroSpec(g[..n]);
      RowNonZeroSpec(g[n], n);
      var front := NonZero(g[..n]);
      var last := RowNonZero(g[n], n);
      assert AllBefore(front, last);
      RowMajorConcat(front, last);
      assert forall p :: Cell(g[..n], p) <==> Cell(g, p) && p.x < n;
    }
  }

  // ---------------------------------------------------------------- get_candidates

  /**
   * `boundary[x-nx : x+nx+1, y-ny : y+ny+1] * mask`, with `nx, ny` half the
   * mask's dimensions: present when the window lies inside the grid and has
   * the mask's shape.
   */
  function Masked(b: seq<seq<bool>>, x: int, y: int, mask: seq<seq<int>>): (m: Option<seq<seq<bool>>>)
    requires Rect(b) && Rect(mask)
    ensures m.Some? ==> |m.value| == |mask| && forall i :: 0 <= i < |mask| ==> |m.value[i]| == Width(mask)
  {
    var nx, ny := |mask| / 2, Width(mask) / 2;
    if 0 <= x - nx && x + nx + 1 <= |b| && 0 <= y - ny && y + ny + 1 <= Width(b)
       && 2 * nx + 1 == |mask| && 2 * ny + 1 == Width(mask)
    then
      Some(seq(|mask|, i requires 0 <= i < |mask| =>
             seq(Width(mask), j requires 0 <= j < Width(mask) => b[x - nx + i][y - ny + j] && mask[i][j] != 0)))
    else None
  }

  /** Offset `d` from `(x, y)` lies in the window, is set in the mask and is on the boundary. */
  predicate Hit(b: seq<seq<bool>>, x: int, y: int, mask: seq<seq<int>>, d: Point)
  {
    var nx, ny := |mask| / 2, Width(mask) / 2;
    && -nx <= d.x <= nx && -ny <= d.y <= ny
    && 0 <= d.x + nx < |mask| && 0 <= d.y + ny < |mask[d.x + nx]| && mask[d.x + nx][d.y + ny] != 0
    && Cell(b, Plus(Point(x, y), d))
  }

  /** Positions in the window turned into offsets from its centre. */
  function Offsets(ps: seq<Point>, c: Point): (r: seq<Point>)
    ensures |r| == |ps| && forall k :: 0 <= k < |ps| ==> r[k] == Minus(ps[k], c)
  {
    seq(|ps|, k requires 0 <= k < |ps| => Minus(ps[k], c))
  }

  lemma OffsetsMembers(ps: seq<Point>, c: Point)
    ensures forall d :: d in Offsets(ps, c) <==> Plus(d, c) in ps
    ensures RowMajor(ps) ==> RowMajor(Offsets(ps, c))
  {
    var r := Offsets(ps, c);
    forall d ensures d in r <==> Plus(d, c) in ps {
      if d in r {
        var k :| 0 <= k < |r| && r[k] == d;
        assert ps[k] == Plus(d, c);
      }
      if Plus(d, c) in ps {
        var k :| 0 <= k < |ps| && ps[k] == Plus(d, c);
        assert r[k] == d;
      }
    }
  }

  /**
   * `get_candidates(x, y, mask)`: the offsets from `(x, y)` of the cells that
   * are set both in the mask and on the boundary, in row-major order, or
   * `None` where numpy would fail because the window leaves the grid.
   */
  function GetCandidates(b: seq<seq<bool>>, x: int, y: int, mask: seq<seq<int>>): (r: Option<seq<Point>>)
    requires Rect(b) && Rect(mask)
    ensures r.Some? <==> Masked(b, x, y, mask).Some?
    ensures r.Some? ==> forall k :: 0 <= k < |r.value| ==>
      -(|mask| / 2) <= r.value[k].x <= |mask| / 2 && -(Width(mask) / 2) <= r.value[k].y <= Width(mask) / 2
  {
    match Masked(b, x, y, mask)
    case None => None
    case Some(m) =>
      WindowOffsets(m, |mask|, Width(mask));
      Some(Offsets(NonZero(m), Point(|mask| / 2, Width(mask) / 2)))
  }

  /** The set cells of an `h` by `w` window, as offsets from its centre, lie within its half-widths. */
  lemma WindowOffsets(m: seq<seq<bool>>, h: nat, w: nat)
    requires |m| == h && forall i :: 0 <= i < h ==> |m[i]| == w
    ensures forall k :: 0 <= k < |NonZero(m)| ==>
      var d := Offsets(NonZero(m), Point(h / 2, w / 2))[k];
      -(h / 2) <= d.x <= h / 2 && -(w / 2) <= d.y <= w / 2
  {
    var ps := NonZero(m);
    NonZeroSpec(m);
    forall k | 0 <= k < |ps|
      ensures -(h / 2) <= ps[k].x - h / 2 <= h / 2 && -(w / 2) <= ps[k].y - w / 2 <= w / 2
    {
      assert ps[k] in ps;
      assert Cell(m, ps[k]);
    }
  }

  /**
   * The candidates are exactly the hits of the window, listed in row-major
   * order (so without repetition).
   */
  lemma CandidatesAreHits(b: seq<seq<bool>>, x: int, y: int, mask: seq<seq<int>>)
    requires Rect(b) && Rect(mask)
    ensures GetCandidates(b, x, y, mask).Some? <==> Masked(b, x, y, mask).Some?
    ensures GetCandidates(b, x, y, mask).Some? ==>
      var cs := GetCandidates(b, x, y, mask).value;
      RowMajor(cs) && forall d :: d in cs <==> Hit(b, x, y, mask, d)
  {
    match Masked(b, x, y, mask)
    case None =>
    case Some(m) =>
      var c := Point(|mask| / 2, Width(mask) / 2);
      var ps := NonZero(m);
      NonZeroSpec(m);
      OffsetsMembers(ps, c);
      forall d ensures Plus(d, c) in ps <==> Hit(b, x, y, mask, d) {
        var p := Plus(d, c);
        if Cell(m, p) {
          assert m[p.x][p.y] == (b[x - c.x + p.x][y - c.y + p.y] && mask[p.x][p.y] != 0);
          assert Plus(Point(x, y), d) == Point(x - c.x + p.x, y - c.y + p.y);
        }
        if Hit(b, x, y, mask, d) {
          assert 0 <= p.x < |m| && 0 <= p.y < |m[p.x]|;
          assert m[p.x][p.y] == (b[x - c.x + p.x][y - c.y + p.y] && mask[p.x][p.y] != 0);
        }
      }
  }

  /** The mask's centre cell is 0, so a point is never its own candidate. */
  predicate CentreClear(mask: seq<seq<int>>)
  {
    0 < |mask| && |mask| / 2 < |mask| && Width(mask) / 2 < |mask[|mask| / 2]| && mask[|mask| / 2][Width(mask) / 2] == 0
  }

  /** The small mask is a 5 x 5 array whose centre is clear. */
  lemma SmallMaskShape()
    ensures Rect(SmallMask) && |SmallMask| == 5 && Width(SmallMask) == 5 && CentreClear(SmallMask)
  {
  }

  /** With a mask whose centre is clear, the offset `(0, 0)` is never a candidate. */
  lemma CentreNeverCandidate(b: seq<seq<bool>>, x: int, y: int, mask: seq<seq<int>>)
    requires Rect(b) && Rect(mask) && CentreClear(mask)
    ensures !Hit(b, x, y, mask, Point(0, 0))
    ensures GetCandidates(b, x, y, mask).Some? ==> Point(0, 0) !in GetCandidates(b, x, y, mask).value
  {
    CandidatesAreHits(b, x, y, mask);
  }

  // ---------------------------------------------------------------- choose_candidate

  /** `u[1] * 1000000 + np.dot(T, u)`: the column offset first, then agreement with `T`. */
  function Score(u: Point, t: Point): int
  {
    u.y * 1000000 + (t.x * u.x + t.y * u.y)
  }

  /** `np.argmax` of the scores: the first index of a maximal score. */
  function FirstArgMax(cs: seq<Point>, t: Point): (k: nat)
    requires |cs| > 0
    ensures k < |cs|
    ensures forall j :: 0 <= j < |cs| ==> Score(cs[j], t) <= Score(cs[k], t)
    ensures forall j :: 0 <= j < k ==> Score(cs[j], t) < Score(cs[k], t)
  {
    if |cs| == 1 then 0
    else
      var n := |cs| - 1;
      var k := FirstArgMax(cs[..n], t);
      if Score(cs[n], t) > Score(cs[k], t) then n else k
  }

  /**
   * `choose_candidate(candidates, T)`: the earliest candidate of maximal
   * score, or `None` where `np.argmax` fails on an empty list.
   */
  function ChooseCandidate(cs: seq<Point>, t: Point): (r: Option<Point>)
    ensures r.None? <==> cs == []
    ensures r.Some? ==> exists k :: 0 <= k < |cs| && cs[k] == r.value && forall j :: 0 <= j < k ==> Score(cs[j], t) < Score(r.value, t)
    ensures r.Some? ==> forall u :: u in cs ==> Score(u, t) <= Score(r.value, t)
  {
    if cs == [] then None else Some(cs[FirstArgMax(cs, t)])
  }

  // ---------------------------------------------------------------- the walk

  /** `np.column_stack(np.where(boundary))[0]`: the first set cell in row-major order. */
  function Start(b: seq<seq<bool>>): (r: Option<Point>)
    ensures r.None? <==> forall p :: !Cell(b, p)
    ensures r.Some? ==> Cell(b, r.value) && forall q :: Cell(b, q) && q != r.value ==> Before(r.value, q)
  {
    var ps := NonZero(b);
    NonZeroSpec(b);
    if ps == [] then None
    else
      assert ps[0] in ps;
      assert forall q :: Cell(b, q) && q != ps[0] ==> Before(ps[0], q) by {
        forall q | Cell(b, q) && q != ps[0] ensures Before(ps[0], q) {
          var k :| 0 <= k < |ps| && ps[k] == q;
          assert k != 0;
        }
      }
      Some(ps[0])
  }

  /** The initial `T`. */
  const T0 := Point(-1, 1)

  /** The number of steps of the walk. */
  const WalkSteps := 184

  /** One step: the chosen candidate offset at `p` for the current `T`. */
  function Step(b: seq<seq<bool>>, mask: seq<seq<int>>, p: Point, t: Point): Option<Point>
    requires Rect(b) && Rect(mask)
  {
    match GetCandidates(b, p.x, p.y, mask)
    case None => None
    case Some(cs) => ChooseCandidate(cs, t)
  }

  /** `Step` on a fixed grid and mask. */
  function Stepper(b: seq<seq<bool>>, mask: seq<seq<int>>): (Point, Point) -> Option<Point>
    requires Rect(b) && Rect(mask)
  {
    (p, t) => Step(b, mask, p, t)
  }

  /** The vertices found so far and the current `T`. */
  datatype Trail = Trail(vertices: seq<Point>, t: Point)

  /** The walk after `n` steps from `start`, taking each step with `step`, or `None` when a step fails. */
  function Walk(step: (Point, Point) -> Option<Point>, start: Point, n: nat): (r: Option<Trail>)
    ensures r.Some? ==> |r.value.vertices| == n + 1 && r.value.vertices[0] == start
  {
    if n == 0 then Some(Trail([start], T0))
    else
      match Walk(step, start, n - 1)
      case None => None
      case Some(tr) =>
        var last := tr.vertices[|tr.vertices| - 1];
        match step(last, tr.t)
        case None => None
        case Some(vp) => Some(Trail(tr.vertices + [Plus(last, vp)], vp))
  }

  /**
   * The walk loop of `make_arm_vertices`: `n` times, the chosen candidate at
   * the last vertex becomes `T` and is added to it to give the next vertex.
   */
  method WalkArm(b: seq<seq<bool>>, mask: seq<seq<int>>, start: Point, n: nat) returns (r: Option<seq<Point>>)
    requires Rect(b) && Rect(mask)
    ensures r.None? <==> Walk(Stepper(b, mask), start, n).None?
    ensures r.Some? ==> r.value == Walk(Stepper(b, mask), start, n).value.vertices
  {
    var vertices := [start];
    var t := T0;
    for i := 0 to n
      invariant Walk(Stepper(b, mask), start, i) == Some(Trail(vertices, t))
    {
      var last := vertices[|vertices| - 1];
      // either get_candidates or choose_candidate failing ends the walk
      var vp := NextStep(b, mask, last, t);
      WalkAdvance(Stepper(b, mask), start, i, n, vertices, t, vp);
      if vp.None? {
        return None;
      }
      t := vp.value;
      vertices := vertices + [Plus(last, vp.value)];
    }
    r := Some(vertices);
  }

  /** The walk after one more step, given the step's outcome at the last vertex. */
  lemma WalkAdvance(step: (Point, Point) -> Option<Point>, start: Point, i: nat, n: nat,
                    vertices: seq<Point>, t: Point, vp: Option<Point>)
    requires i < n && Walk(step, start, i) == Some(Trail(vertices, t))
    requires step(vertices[|vertices| - 1], t) == vp
    ensures vp.None? ==> Walk(step, start, n).None?
    ensures vp.Some? ==> Walk(step, start, i + 1) == Some(Trail(vertices + [Plus(vertices[|vertices| - 1], vp.value)], vp.value))
  {
    WalkNext(step, start, i);
    if vp.None? {
      WalkFailurePersists(step, start, i + 1, n);
    }
  }

  /** One step of the walk: `get_candidates` at `p`, then `choose_candidate` for `T`. */
  method NextStep(b: seq<seq<bool>>, mask: seq<seq<int>>, p: Point, t: Point) returns (vp: Option<Point>)
    requires Rect(b) && Rect(mask)
    ensures vp == Stepper(b, mask)(p, t)
  {
    var candidates := GetCandidates(b, p.x, p.y, mask);
    if candidates.None? {
      return None;
    }
    vp := ChooseCandidate(candidates.value, t);
  }

  /** One more step: the chosen offset is added to the last vertex and becomes `T`. */
  lemma WalkNext(step: (Point, Point) -> Option<Point>, start: Point, i: nat)
    ensures Walk(step, start, i + 1) ==
      match Walk(step, start, i)
      case None => None
      case Some(tr) =>
        var last := tr.vertices[|tr.vertices| - 1];
        match step(last, tr.t)
        case None => None
        case Some(vp) => Some(Trail(tr.vertices + [Plus(last, vp)], vp))
  {
  }

  /** `T` before step `k`: the initial `T`, then the previous step's offset. */
  function Heading(vs: seq<Point>, k: nat): Point
    requires k < |vs|
  {
    if k == 0 then T0 else Minus(vs[k], vs[k - 1])
  }

  /** A longer walk extends a shorter one. */
  lemma {:induction false} WalkExtends(step: (Point, Point) -> Option<Point>, start: Point, m: nat, n: nat)
    requires m <= n && Walk(step, start, n).Some?
    ensures Walk(step, start, m).Some?
    ensures Walk(step, start, m).value.vertices == Walk(step, start, n).value.vertices[..m + 1]
  {
    var vs := Walk(step, start, n).value.vertices;
    if m < n {
      WalkExtends(step, start, m, n - 1);
      assert Walk(step, start, n - 1).value.vertices == vs[..n];
      assert vs[..n][..m + 1] == vs[..m + 1];
    } else {
      assert vs[..n + 1] == vs;
    }
  }

  /** Once a step fails, every longer walk fails. */
  lemma WalkFailurePersists(step: (Point, Point) -> Option<Point>, start: Point, m: nat, n: nat)
    requires m <= n && Walk(step, start, m).None?
    ensures Walk(step, start, n).None?
  {
    if Walk(step, start, n).Some? {
      WalkExtends(step, start, m, n);
    }
  }

  /** After `n` steps, `T` is the last step's offset (the initial `T` before any step). */
  lemma {:induction false} WalkHeading(step: (Point, Point) -> Option<Point>, start: Point, n: nat)
    requires Walk(step, start, n).Some?
    ensures Walk(step, start, n).value.t == Heading(Walk(step, start, n).value.vertices, n)
  {
    if n > 0 {
      var vs := Walk(step, start, n).value.vertices;
      var prev := Walk(step, start, n - 1).value.vertices;
      assert vs == prev + [vs[n]];
      assert vs[n - 1] == prev[n - 1];
    }
  }

  /**
   * Every step of a completed walk moves by the offset `step` chose at the
   * previous vertex for the `T` of that moment.
   */
  lemma WalkFollowsChoices(step: (Point, Point) -> Option<Point>, start: Point, n: nat, k: nat)
    requires Walk(step, start, n).Some? && k < n
    ensures var vs := Walk(step, start, n).value.vertices;
      step(vs[k], Heading(vs, k)) == Some(Minus(vs[k + 1], vs[k]))
  {
    var vs := Walk(step, start, n).value.vertices;
    WalkExtends(step, start, k + 1, n);
    WalkExtends(step, start, k, n);
    var tr := Walk(step, start, k).value;
    WalkHeading(step, start, k);
    assert tr.vertices == vs[..k + 1];
    assert tr.vertices[k] == vs[k];
    assert Heading(tr.vertices, k) == Heading(vs, k);
    assert Walk(step, start, k + 1).value.vertices == vs[..k + 2];
    assert vs[..k + 2][k + 1] == vs[k + 1];
  }

  /** Every step `step` takes leads to a boundary cell other than the current one. */
  ghost predicate StepsOnBoundary(step: (Point, Point) -> Option<Point>, b: seq<seq<bool>>)
  {
    forall p, t :: step(p, t).Some? ==> Cell(b, Plus(p, step(p, t).value)) && step(p, t).value != Point(0, 0)
  }

  /**
   * When every step leads to a boundary cell other than the current one,
   * every vertex after the start lies on the boundary and differs from the
   * vertex before it.
   */
  lemma WalkOnBoundary(step: (Point, Point) -> Option<Point>, b: seq<seq<bool>>, start: Point, n: nat, k: nat)
    requires StepsOnBoundary(step, b) && Walk(step, start, n).Some? && 0 < k <= n
    ensures var vs := Walk(step, start, n).value.vertices;
      Cell(b, vs[k]) && vs[k] != vs[k - 1]
  {
    var vs := Walk(step, start, n).value.vertices;
    WalkFollowsChoices(step, start, n, k - 1);
    var p, d := vs[k - 1], Minus(vs[k], vs[k - 1]);
    assert step(p, Heading(vs, k - 1)) == Some(d);
    assert Plus(p, d) == vs[k];
  }

  /** With a mask whose centre is clear (the small mask, say), the walk's steps stay on the boundary. */
  lemma StepperOnBoundary(b: seq<seq<bool>>, mask: seq<seq<int>>)
    requires Rect(b) && Rect(mask) && CentreClear(mask)
    ensures StepsOnBoundary(Stepper(b, mask), b)
  {
    forall p, t | Stepper(b, mask)(p, t).Some?
      ensures Cell(b, Plus(p, Stepper(b, mask)(p, t).value)) && Stepper(b, mask)(p, t).value != Point(0, 0)
    {
      ChosenOnBoundary(b, mask, p, t, Step(b, mask, p, t).value);
    }
  }

  /** With a mask whose centre is clear, a step leads to a boundary cell other than the current one. */
  lemma ChosenOnBoundary(b: seq<seq<bool>>, mask: seq<seq<int>>, p: Point, t: Point, d: Point)
    requires Rect(b) && Rect(mask) && CentreClear(mask) && Step(b, mask, p, t) == Some(d)
    ensures Cell(b, Plus(p, d)) && d != Point(0, 0)
  {
    CandidatesAreHits(b, p.x, p.y, mask);
    CentreNeverCandidate(b, p.x, p.y, mask);
    var cs := GetCandidates(b, p.x, p.y, mask).value;
    assert d in cs;
    assert Hit(b, p.x, p.y, mask, d);
    assert Plus(Point(p.x, p.y), d) == Plus(p, d);
  }
}
