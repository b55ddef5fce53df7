/**
 * The first mesh-generation script, as an object whose fields are the
 * script's lists: walk one arm of the snowflake outline, mirror and sample
 * it, lay six rotated copies, remove repeated points, triangulate, and
 * extrude into a slab with a front and a back layer joined by a side strip.
 *
 * The side strip is the one the script writes, `Mesh.Strip`: its last pair
 * is not joined back to position 0 (see `Mesh.StripLeavesRingOpen`).
 */
module MeshScript {
  import opened Wrappers
  import opened Outline
  import opened Arm
  import opened Duplicates
  import opened Mesh
  import opened Seqs
  import opened Vec

  /** Six copies of the arm, one per sixth of a turn. */
  const Arms := 6

  /** The arm is sampled every fifth point. */
  const SampleStep := 5

  /** The slab vertices: the triangulation's points at height 5, then again at height -5. */
  function Slab(planar: seq<Vec2>): (vs: seq<Vec3>)
    ensures |vs| == 2 * |planar|
  {
    seq(|planar|, k requires 0 <= k < |planar| => Vec3(planar[k].x, planar[k].y, 5.0)) +
    seq(|planar|, k requires 0 <= k < |planar| => Vec3(planar[k].x, planar[k].y, -5.0))
  }

  /** The triangles, their back copies and the side strip as the script writes it. */
  function ExtrudedFaces(v: nat, f: nat, triangles: seq<Tri>): seq<Tri>
  {
    triangles + BackTriangles(triangles, v) + Strip(v, f)
  }

  /** Back vertex `V + k` is front vertex `k` reflected through height 0. */
  lemma SlabMirrored(planar: seq<Vec2>)
    ensures var vs := Slab(planar); var v := |planar|;
      forall k :: 0 <= k < v ==> vs[k].z == 5.0 && vs[v + k] == Vec3(vs[k].x, vs[k].y, -vs[k].z)
  {
    var vs := Slab(planar);
    var v := |planar|;
    forall k | 0 <= k < v ensures vs[k].z == 5.0 && vs[v + k] == Vec3(vs[k].x, vs[k].y, -vs[k].z) {
      assert vs[k] == Vec3(planar[k].x, planar[k].y, 5.0);
      assert vs[v + k] == Vec3(planar[k].x, planar[k].y, -5.0);
    }
  }

  /**
   * When the triangles index the `V` triangulation points and the
   * triangulation added at least one point beyond the `F` outline points,
   * every face indexes one of the `2V` slab vertices, with two faces per
   * triangle and two per outline point.
   */
  lemma ExtrudedFacesInRange(v: nat, f: nat, triangles: seq<Tri>)
    requires InRange(triangles, v) && f < v
    ensures |ExtrudedFaces(v, f, triangles)| == 2 * |triangles| + 2 * f
    ensures InRange(ExtrudedFaces(v, f, triangles), 2 * v)
  {
    BackTrianglesInRange(triangles, v);
    StripInRange(v, f);
    InRangeConcat(triangles + BackTriangles(triangles, v), Strip(v, f), 2 * v, 2 * v);
  }

  /**
   * When the triangulation added no point (`F = V`), the last face of the
   * script's mesh names vertex `2V`, one past the slab vertices.
   */
  lemma ExtrudedFacesOverrun(v: nat, triangles: seq<Tri>)
    requires v >= 1
    ensures var faces := ExtrudedFaces(v, v, triangles);
      |faces| == 2 * |triangles| + 2 * v &&
      faces[|faces| - 1] == Tri(v - 1, v, 2 * v) && !InRange(faces, 2 * v)
  {
    var faces := ExtrudedFaces(v, v, triangles);
    assert faces[|faces| - 1] == Strip(v, v)[2 * (v - 1) + 1];
  }

  /** Before repeats are removed the outline holds six arms of 73 points each. */
  lemma OutlineCount(b: seq<seq<bool>>, shear: Point -> Vec2, rot: (nat, Vec2) -> Vec2)
    requires Rect(b) && ArmVertices(b, SmallMask, SampleStep, shear).Some?
    ensures |Copies(ArmVertices(b, SmallMask, SampleStep, shear).value, rot, Arms)| == 438
  {
    SmallMaskShape();
    ArmShape(b, SmallMask, SampleStep, shear);
    SampledArm(Walk(Stepper(b, SmallMask), Start(b).value, WalkSteps).value.vertices, SampleStep, shear);
    CopiesAt(ArmVertices(b, SmallMask, SampleStep, shear).value, rot, Arms);
  }

  class Script {
    var boundary: seq<seq<bool>>
    /** The sampled, sheared arm. */
    var vertices: seq<Vec2>
    /** The outline: six rotated arms, then with repeats removed. */
    var final: seq<Vec2>
    var segments: seq<(int, int)>
    /** The points the triangulation returns, outline first. */
    var planar: seq<Vec2>
    var triangles: seq<Tri>
    /** The extruded mesh. */
    var slab: seq<Vec3>
    var faces: seq<Tri>

    /** The boundary grid is given; the convolution that finds it is not part of this model. */
    constructor (boundary: seq<seq<bool>>)
      ensures this.boundary == boundary
      ensures vertices == [] && final == [] && segments == [] && planar == [] && triangles == []
      ensures slab == [] && faces == []
    {
      this.boundary := boundary;
      vertices := [];
      final := [];
      segments := [];
      planar := [];
      triangles := [];
      slab := [];
      faces := [];
    }

    /** Walks the arm with the 5 by 5 mask, mirrors it, keeps every fifth point and shears them. */
    method WalkArm(shear: Point -> Vec2) returns (ok: bool)
      requires Rect(boundary)
      modifies this
      ensures boundary == old(boundary) && final == old(final) && segments == old(segments)
      ensures planar == old(planar) && triangles == old(triangles) && slab == old(slab) && faces == old(faces)
      ensures ok <==> ArmVertices(boundary, SmallMask, SampleStep, shear).Some?
      ensures ok ==> vertices == ArmVertices(boundary, SmallMask, SampleStep, shear).value
      ensures !ok ==> vertices == old(vertices)
    {
      SmallMaskShape();
      var arm := MakeArm(boundary, SmallMask, SampleStep, shear);
      if arm.None? {
        return false;
      }
      vertices := arm.value;
      ok := true;
    }

    /** Six copies of the arm, `rot(i, _)` turning copy `i`. */
    method RotateArms(rot: (nat, Vec2) -> Vec2)
      modifies this
      ensures final == Copies(old(vertices), rot, Arms)
      ensures boundary == old(boundary) && vertices == old(vertices) && segments == old(segments)
      ensures planar == old(planar) && triangles == old(triangles) && slab == old(slab) && faces == old(faces)
    {
      final := RotatedCopies(vertices, rot, Arms);
    }

    /** Deletes every repeated point from the outline in place. */
    method Deduplicate()
      modifies this
      ensures final == Dedup(old(final))
      ensures boundary == old(boundary) && vertices == old(vertices) && segments == old(segments)
      ensures planar == old(planar) && triangles == old(triangles) && slab == old(slab) && faces == old(faces)
    {
      final := RemoveDuplicates(final);
    }

    /** Builds the segment ring and keeps what `triangulate` returns for it. */
    method Triangulate(triangulate: (seq<Vec2>, seq<(int, int)>) -> (seq<Vec2>, seq<Tri>))
      modifies this
      ensures segments == Segments(|old(final)|)
      ensures (planar, triangles) == triangulate(old(final), segments)
      ensures boundary == old(boundary) && vertices == old(vertices) && final == old(final)
      ensures slab == old(slab) && faces == old(faces)
    {
      segments := Segments(|final|);
      var b := triangulate(final, segments);
      planar := b.0;
      triangles := b.1;
    }

    /** Stacks the two layers and appends the back triangles and the side strip, a pair per outline point, unwrapped. */
    method Extrude()
      modifies this
      ensures slab == Slab(old(planar))
      ensures faces == ExtrudedFaces(|old(planar)|, |old(final)|, old(triangles))
      ensures boundary == old(boundary) && vertices == old(vertices) && final == old(final)
      ensures segments == old(segments) && planar == old(planar) && triangles == old(triangles)
    {
      var v := |planar|;
      var f := |final|;
      slab := Slab(planar);
      var newFaces: seq<Tri> := [];
      ghost var steps: seq<seq<Tri>> := [];
      for i := 0 to f
        invariant steps == StripSteps(v, f)[..i]
        invariant newFaces == Flatten(steps)
      {
        var pair := [Tri(i, v + i + 1, v + i), Tri(i, i + 1, v + i + 1)];
        assert pair == StripSteps(v, f)[i];
        assert StripSteps(v, f)[..i + 1] == steps + [pair];
        newFaces := newFaces + pair;
        steps := steps + [pair];
      }
      assert steps == StripSteps(v, f);
      faces := triangles + BackTriangles(triangles, v) + newFaces;
    }

    /** The whole script; `false` when no arm can be walked. */
    method Run(shear: Point -> Vec2, rot: (nat, Vec2) -> Vec2,
               triangulate: (seq<Vec2>, seq<(int, int)>) -> (seq<Vec2>, seq<Tri>))
      returns (ok: bool)
      requires Rect(boundary)
      modifies this
      ensures boundary == old(boundary)
      ensures ok <==> ArmVertices(boundary, SmallMask, SampleStep, shear).Some?
      ensures ok ==>
        var arm := ArmVertices(boundary, SmallMask, SampleStep, shear).value;
        var out := Dedup(Copies(arm, rot, Arms));
        var tri := triangulate(out, Segments(|out|));
        vertices == arm && final == out && segments == Segments(|out|) &&
        planar == tri.0 && triangles == tri.1 &&
        slab == Slab(tri.0) && faces == ExtrudedFaces(|tri.0|, |out|, tri.1)
      ensures !ok ==>
        vertices == old(vertices) && final == old(final) && segments == old(segments) &&
        planar == old(planar) && triangles == old(triangles) && slab == old(slab) && faces == old(faces)
    {
      ok := WalkArm(shear);
      if ok {
        RotateArms(rot);
        Deduplicate();
        Triangulate(triangulate);
        Extrude();
      }
    }
  }
}
