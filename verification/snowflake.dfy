/**
 * The refactored snowflake builder: an object that finds the outline of a
 * snowflake on a boolean boundary grid, triangulates it and extrudes it
 * into a closed mesh with a front, a back and a middle ring.
 *
 * The triangulation keeps the outline points as its first vertices, so
 * outline position `i` is front vertex `i`, back vertex `V + i` and middle
 * vertex `2V + i`.
 */
module SnowflakeMesh {
  import opened Wrappers
  import opened Outline
  import opened Arm
  import opened Duplicates
  import opened Mesh
  import opened Seqs
  import opened Vec

  /** The front layer: the triangulation's points scaled by 0.7 and raised by 10 plus the noise. */
  function FrontLayer(planar: seq<Vec2>, noise: nat -> real): (vs: seq<Vec3>)
    ensures |vs| == |planar|
  {
    seq(|planar|, k requires 0 <= k < |planar| => Vec3(planar[k].x * 0.7, planar[k].y * 0.7, 10.0 + noise(k)))
  }

  /** The back layer: the same points lowered by 10 plus the noise. */
  function BackLayer(planar: seq<Vec2>, noise: nat -> real): (vs: seq<Vec3>)
    ensures |vs| == |planar|
  {
    seq(|planar|, k requires 0 <= k < |planar| => Vec3(planar[k].x * 0.7, planar[k].y * 0.7, -10.0 - noise(k)))
  }

  /** The middle ring: the outline itself at height 0. */
  function MiddleLayer(outline: seq<Vec2>): (vs: seq<Vec3>)
    ensures |vs| == |outline|
  {
    seq(|outline|, k requires 0 <= k < |outline| => Vec3(outline[k].x, outline[k].y, 0.0))
  }

  function Layers(planar: seq<Vec2>, outline: seq<Vec2>, noise: nat -> real): seq<Vec3>
  {
    FrontLayer(planar, noise) + BackLayer(planar, noise) + MiddleLayer(outline)
  }

  /** All faces: the triangles, their back copies and the side band. */
  function SlabFaces(v: nat, f: nat, triangles: seq<Tri>): seq<Tri>
  {
    triangles + BackTriangles(triangles, v) + SideBand(v, f)
  }

  /**
   * The `2V + F` vertices: back vertex `V + k` is front vertex `k`
   * reflected through height 0, and middle vertex `2V + k` is outline
   * point `k` at height 0.
   */
  lemma LayersShape(planar: seq<Vec2>, outline: seq<Vec2>, noise: nat -> real)
    ensures var vs := Layers(planar, outline, noise); var v := |planar|;
      |vs| == 2 * v + |outline| &&
      (forall k :: 0 <= k < v ==> vs[v + k] == Vec3(vs[k].x, vs[k].y, -vs[k].z)) &&
      (forall k :: 0 <= k < |outline| ==> vs[2 * v + k] == Vec3(outline[k].x, outline[k].y, 0.0))
  {
    var vs := Layers(planar, outline, noise);
    var v := |planar|;
    forall k | 0 <= k < v ensures vs[v + k] == Vec3(vs[k].x, vs[k].y, -vs[k].z) {
      assert vs[k] == FrontLayer(planar, noise)[k];
      assert vs[v + k] == BackLayer(planar, noise)[k];
    }
    forall k | 0 <= k < |outline| ensures vs[2 * v + k] == Vec3(outline[k].x, outline[k].y, 0.0) {
      assert vs[2 * v + k] == MiddleLayer(outline)[k];
    }
  }

  /**
   * When the triangles index the `V` triangulation points and the outline
   * is a non-empty prefix of them, every face indexes one of the `2V + F`
   * vertices, and there are two faces per triangle and four per outline point.
   */
  lemma SlabFacesInRange(v: nat, f: nat, triangles: seq<Tri>)
    requires InRange(triangles, v) && 1 <= f <= v
    ensures |SlabFaces(v, f, triangles)| == 2 * |triangles| + 4 * f
    ensures InRange(SlabFaces(v, f, triangles), 2 * v + f)
  {
    BackTrianglesInRange(triangles, v);
    SideBandInRange(v, f);
    SideBandClosesRing(v, f);
    InRangeConcat(triangles + BackTriangles(triangles, v), SideBand(v, f), 2 * v, 2 * v + f);
  }

  /** A list the builder hands round and edits in place. */
  class PointList {
    var points: seq<Vec2>

    constructor (points: seq<Vec2>)
      ensures this.points == points
    {
      this.points := points;
    }
  }

  class Snowflake {
    var boundary: seq<seq<bool>>
    /** The outline: the rotated arms with repeated points removed. */
    var outline: seq<Vec2>
    /** The points the triangulation returns, outline first. */
    var planar: seq<Vec2>
    var triangles: seq<Tri>
    /** The extruded mesh. */
    var vertices: seq<Vec3>
    var faces: seq<Tri>

    /** The boundary grid is given; the convolution that finds it is not part of this model. */
    constructor (boundary: seq<seq<bool>>)
      ensures this.boundary == boundary
      ensures outline == [] && planar == [] && triangles == [] && vertices == [] && faces == []
    {
      this.boundary := boundary;
      outline := [];
      planar := [];
      triangles := [];
      vertices := [];
      faces := [];
    }

    /** The arm: walked with the 5 by 5 mask and sampled with a step of 2. */
    method MakeArmVertices(shear: Point -> Vec2) returns (arm: Option<seq<Vec2>>)
      requires Rect(boundary)
      ensures arm == ArmVertices(boundary, SmallMask, 2, shear)
    {
      SmallMaskShape();
      arm := MakeArm(boundary, SmallMask, 2, shear);
    }

    /** Deletes every repeat from the list it is given and returns that same list. */
    method RemoveDuplicate(list: PointList) returns (same: PointList)
      modifies list
      ensures same == list && list.points == Dedup(old(list.points))
    {
      var kept := RemoveDuplicates(list.points);
      list.points := kept;
      same := list;
    }

    /** `dendrites` rotated copies of the arm, `rot(i, _)` turning copy `i`, with repeats removed. */
    method MakeVertices(dendrites: nat, shear: Point -> Vec2, rot: (nat, Vec2) -> Vec2) returns (ok: bool)
      requires Rect(boundary)
      modifies this
      ensures boundary == old(boundary) && planar == old(planar) && triangles == old(triangles)
      ensures vertices == old(vertices) && faces == old(faces)
      ensures ok <==> ArmVertices(boundary, SmallMask, 2, shear).Some?
      ensures ok ==> outline == Dedup(Copies(ArmVertices(boundary, SmallMask, 2, shear).value, rot, dendrites))
      ensures !ok ==> outline == old(outline)
    {
      var arm := MakeArmVertices(shear);
      if arm.None? {
        return false;
      }
      var all := RotatedCopies(arm.value, rot, dendrites);
      var list := new PointList(all);
      var same := RemoveDuplicate(list);
      outline := same.points;
      ok := true;
    }

    /** Hands the outline and its segment ring to `triangulate` and keeps what it returns. */
    method Triangulate(triangulate: (seq<Vec2>, seq<(int, int)>) -> (seq<Vec2>, seq<Tri>))
      modifies this
      ensures (planar, triangles) == triangulate(old(outline), Segments(|old(outline)|))
      ensures boundary == old(boundary) && outline == old(outline)
      ensures vertices == old(vertices) && faces == old(faces)
    {
      var segments := Segments(|outline|);
      var b := triangulate(outline, segments);
      planar := b.0;
      triangles := b.1;
    }

    /** Stacks the three layers and appends the back triangles and the side band, step by step. */
    method Draw3D(noise: nat -> real)
      modifies this
      ensures vertices == Layers(old(planar), old(outline), noise)
      ensures faces == SlabFaces(|old(planar)|, |old(outline)|, old(triangles))
      ensures boundary == old(boundary) && outline == old(outline)
      ensures planar == old(planar) && triangles == old(triangles)
    {
      var v := |planar|;
      var f := |outline|;
      vertices := FrontLayer(planar, noise) + BackLayer(planar, noise) + MiddleLayer(outline);
      var newFaces: seq<Tri> := [];
      ghost var steps: seq<seq<Tri>> := [];
      var last := if f >= 1 then f - 1 else 0;
      for i := 0 to last
        invariant steps == BandSteps(v, f)[..i]
        invariant newFaces == Flatten(steps)
      {
        var step := [Tri(i, v * 2 + i + 1, v * 2 + i),
                     Tri(i, i + 1, v * 2 + i + 1),
                     Tri(i + 2 * v, i + v + 1, i + v),
                     Tri(i + 2 * v, i + v * 2 + 1, i + v + 1)];
        assert step == BandSteps(v, f)[i];
        assert BandSteps(v, f)[..i + 1] == steps + [step];
        newFaces := newFaces + step;
        steps := steps + [step];
      }
      assert steps == BandSteps(v, f);
      newFaces := newFaces + [Tri(0, 2 * v + f - 1, f - 1),
                              Tri(0, 2 * v, 2 * v + f - 1),
                              Tri(2 * v, v, 2 * v + f - 1),
                              Tri(2 * v + f - 1, v, v + f - 1)];
      faces := triangles + BackTriangles(triangles, v) + newFaces;
    }

    /** The whole build: outline, triangulation, extrusion; `false` when no arm can be walked. */
    method Build(dendrites: nat, shear: Point -> Vec2, rot: (nat, Vec2) -> Vec2,
                 triangulate: (seq<Vec2>, seq<(int, int)>) -> (seq<Vec2>, seq<Tri>), noise: nat -> real)
      returns (ok: bool)
      requires Rect(boundary)
      modifies this
      ensures boundary == old(boundary)
      ensures ok <==> ArmVertices(boundary, SmallMask, 2, shear).Some?
      ensures ok ==>
        var out := Dedup(Copies(ArmVertices(boundary, SmallMask, 2, shear).value, rot, dendrites));
        var tri := triangulate(out, Segments(|out|));
        outline == out && planar == tri.0 && triangles == tri.1 &&
        vertices == Layers(tri.0, out, noise) && faces == SlabFaces(|tri.0|, |out|, tri.1)
      ensures !ok ==>
        outline == old(outline) && planar == old(planar) && triangles == old(triangles) &&
        vertices == old(vertices) && faces == old(faces)
    {
      ok := MakeVertices(dendrites, shear, rot);
      if ok {
        Triangulate(triangulate);
        Draw3D(noise);
      }
    }
  }
}
