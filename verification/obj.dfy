/**
 * The OBJ reader: `parseObj` turns the text of an OBJ file into a vertex
 * buffer, a normal buffer and an index buffer, and `generateNormals`
 * accumulates per-vertex normals when the file has no `vn` lines.
 *
 * Converting a token to a number is a parameter of the model: `coord` for
 * vertex and normal components, `index` for face indices.
 */
module Obj {
  import opened Wrappers
  import opened Seqs
  import opened ObjText
  import opened Vec

  /** A triangle as the reader stores it: 0-based indices in the stored (flipped) order. */
  datatype Face = Face(i0: int, i1: int, i2: int)

  /** What one line of the file contributes. */
  datatype LineKind = Blank | V(values: seq<real>) | VN(values: seq<real>) | F(face: Face)

  datatype ObjError =
    | UnknownLineType(keyword: string)  // the `throw` of the `default` branch
    | ShortFace(values: seq<string>)    // an `f` line with fewer than three indices
    | BadGeometry                       // normals cannot be generated from the faces and vertices

  /** The three arrays `parseObj` accumulates, before flattening. */
  datatype Geometry = Geometry(vertices: seq<seq<real>>, normals: seq<seq<real>>, faces: seq<Face>)

  /** What `parseObj` returns: the flattened vertex, normal and index arrays. */
  datatype Buffers = Buffers(vertices: seq<real>, normals: seq<real>, indices: seq<int>)

  /** The text `parseObj` throws for an error. */
  function Message(e: ObjError): string
  {
    match e
    case UnknownLineType(t) => "Unknown line type encountered in obj file: " + t
    case ShortFace(_) => "Face with fewer than three indices"
    case BadGeometry => "Face refers to a missing or short vertex"
  }

  /** `line.trim().split("#")[0]`: the line trimmed, then cut at the first `#`. */
  function Clean(raw: string): string
  {
    Split(Trim(raw), '#')[0]
  }

  /** Each token converted with `conv`. */
  function Convert<T>(tokens: seq<string>, conv: string -> T): (r: seq<T>)
    ensures |r| == |tokens| && forall k :: 0 <= k < |tokens| ==> r[k] == conv(tokens[k])
  {
    seq(|tokens|, k requires 0 <= k < |tokens| => conv(tokens[k]))
  }

  /** The face an `f` line pushes: indices made 0-based, second and third swapped. */
  function FaceOf(values: seq<string>, index: string -> int): Face
    requires |values| >= 3
  {
    var ix := Convert(values, (t: string) => index(t) - 1);
    Face(ix[0], ix[2], ix[1])
  }

  /** The effect of one line of the file. */
  function ParseLine(raw: string, coord: string -> real, index: string -> int): (r: Result<LineKind, ObjError>)
    ensures r == Ok(Blank) <==> Clean(raw) == ""
    ensures Clean(raw) != "" ==> var t := Split(Clean(raw), ' ');
      && (r.Ok? && r.value.V? <==> t[0] == "v")
      && (r.Ok? && r.value.VN? <==> t[0] == "vn")
      && (r.Ok? && r.value.F? <==> t[0] == "f" && |t| >= 4)
      && (r.Ok? && (r.value.V? || r.value.VN?) ==> r.value.values == Convert(t[1..], coord))
      && (r.Ok? && r.value.F? ==> r.value.face == Face(index(t[1]) - 1, index(t[3]) - 1, index(t[2]) - 1))
      && (r.Err? ==> r.error == if t[0] == "f" then ShortFace(t[1..]) else UnknownLineType(t[0]))
  {
    var line := Clean(raw);
    if line == "" then Ok(Blank)
    else
      var tokens := Split(line, ' ');
      var keyword, values := tokens[0], tokens[1..];
      if keyword == "v" then Ok(V(Convert(values, coord)))
      else if keyword == "vn" then Ok(VN(Convert(values, coord)))
      else if keyword == "f" then
        if |values| < 3 then Err(ShortFace(values)) else Ok(F(FaceOf(values, index)))
      else Err(UnknownLineType(keyword))
  }

  /** Adds what one line contributes to the arrays. */
  function Push(g: Geometry, kind: LineKind): Geometry
  {
    match kind
    case Blank => g
    case V(vs) => g.(vertices := g.vertices + [vs])
    case VN(vs) => g.(normals := g.normals + [vs])
    case F(f) => g.(faces := g.faces + [f])
  }

  /** `ParseLine` with the conversions fixed: what the loop body does to one line. */
  function LineParser(coord: string -> real, index: string -> int): string -> Result<LineKind, ObjError>
  {
    l => ParseLine(l, coord, index)
  }

  /** The arrays after reading `lines` in order with `parse`, or the first error. */
  function ParseLines(lines: seq<string>, parse: string -> Result<LineKind, ObjError>): Result<Geometry, ObjError>
  {
    if lines == [] then Ok(Geometry([], [], []))
    else
      match ParseLines(lines[..|lines| - 1], parse)
      case Err(e) => Err(e)
      case Ok(g) =>
        match parse(lines[|lines| - 1])
        case Err(e) => Err(e)
        case Ok(kind) => Ok(Push(g, kind))
  }

  // ---------------------------------------------------------------- normals

  /** Every face names three existing vertices with at least three components each. */
  predicate Usable(vs: seq<seq<real>>, faces: seq<Face>)
  {
    forall k :: 0 <= k < |faces| ==> UsableFace(vs, faces[k])
  }

  predicate UsableFace(vs: seq<seq<real>>, f: Face)
  {
    && 0 <= f.i0 < |vs| && 0 <= f.i1 < |vs| && 0 <= f.i2 < |vs|
    && |vs[f.i0]| >= 3 && |vs[f.i1]| >= 3 && |vs[f.i2]| >= 3
  }

  function Point(vs: seq<seq<real>>, k: int): Vec3
    requires 0 <= k < |vs| && |vs[k]| >= 3
  {
    Vec3(vs[k][0], vs[k][1], vs[k][2])
  }

  /** `cross(v3 - v1, v2 - v1)` of a face, with v1, v2, v3 its stored corners. */
  function Area(vs: seq<seq<real>>, f: Face): Vec3
    requires UsableFace(vs, f)
  {
    var v1, v2, v3 := Point(vs, f.i0), Point(vs, f.i1), Point(vs, f.i2);
    Cross(Sub(v3, v1), Sub(v2, v1))
  }

  /**
   * What one face adds to the normal of vertex `v`: its area once per corner
   * that is `v` (only faces that pass `UsableFace` are ever accumulated).
   */
  function Contribution(vs: seq<seq<real>>, f: Face, v: int): Vec3
  {
    if !UsableFace(vs, f) then Zero
    else
      var a := Area(vs, f);
      Add(Add(if f.i0 == v then a else Zero, if f.i1 == v then a else Zero), if f.i2 == v then a else Zero)
  }

  /** The normal of vertex `v` after the first `n` faces: the sum of their contributions. */
  function AccumulatedUpTo(vs: seq<seq<real>>, faces: seq<Face>, n: nat, v: int): Vec3
    requires n <= |faces|
  {
    if n == 0 then Zero
    else Add(AccumulatedUpTo(vs, faces, n - 1, v), Contribution(vs, faces[n - 1], v))
  }

  /** The generated normal of vertex `v`: the sum of the contributions of all faces. */
  function Accumulated(vs: seq<seq<real>>, faces: seq<Face>, v: int): Vec3
  {
    AccumulatedUpTo(vs, faces, |faces|, v)
  }

  /** The normals `generateNormals` returns, one per vertex. */
  function GeneratedNormals(vs: seq<seq<real>>, faces: seq<Face>): (ns: seq<Vec3>)
    ensures |ns| == |vs|
  {
    seq(|vs|, v requires 0 <= v < |vs| => Accumulated(vs, faces, v))
  }

  /**
   * `generateNormals(vertices, faces)`: one `[0, 0, 0]` per vertex, then for
   * every face its area vector is added to the normals of its three corners.
   * The normals are not normalised.
   */
  method GenerateNormals(vertices: seq<seq<real>>, faces: seq<Face>) returns (normals: seq<Vec3>)
    requires Usable(vertices, faces)
    ensures |normals| == |vertices|
    ensures forall v :: 0 <= v < |vertices| ==> normals[v] == Accumulated(vertices, faces, v)
  {
    var ns: seq<Vec3> := [];
    for i := 0 to |vertices|
      invariant |ns| == i
      invariant forall v :: 0 <= v < i ==> ns[v] == AccumulatedUpTo(vertices, faces, 0, v)
    {
      ns := ns + [Vec3(0.0, 0.0, 0.0)];
    }
    for i := 0 to |faces|
      invariant |ns| == |vertices|
      invariant forall v :: 0 <= v < |ns| ==> ns[v] == AccumulatedUpTo(vertices, faces, i, v)
    {
      var face := faces[i];
      assert UsableFace(vertices, face);
      var area := Area(vertices, face);
      ghost var s0 := ns;
      ns := ns[face.i0 := Add(ns[face.i0], area)];
      ghost var s1 := ns;
      ns := ns[face.i1 := Add(ns[face.i1], area)];
      ghost var s2 := ns;
      ns := ns[face.i2 := Add(ns[face.i2], area)];
      FaceAdded(vertices, faces, i, s0, s1, s2, ns);
    }
    normals := ns;
  }

  /** The three updates of one face turn the normals of `faces[..i]` into those of `faces[..i + 1]`. */
  lemma FaceAdded(vs: seq<seq<real>>, faces: seq<Face>, i: nat, s0: seq<Vec3>, s1: seq<Vec3>, s2: seq<Vec3>, s3: seq<Vec3>)
    requires i < |faces| && UsableFace(vs, faces[i]) && |s0| == |vs|
    requires forall v :: 0 <= v < |s0| ==> s0[v] == AccumulatedUpTo(vs, faces, i, v)
    requires var f := faces[i];
      && s1 == s0[f.i0 := Add(s0[f.i0], Area(vs, f))]
      && s2 == s1[f.i1 := Add(s1[f.i1], Area(vs, f))]
      && s3 == s2[f.i2 := Add(s2[f.i2], Area(vs, f))]
    ensures |s3| == |vs|
    ensures forall v :: 0 <= v < |s3| ==> s3[v] == AccumulatedUpTo(vs, faces, i + 1, v)
  {
    var f, area := faces[i], Area(vs, faces[i]);
    forall v | 0 <= v < |s3| ensures s3[v] == AccumulatedUpTo(vs, faces, i + 1, v) {
      assert s1[v] == if f.i0 == v then Add(s0[v], area) else s0[v];
      assert s2[v] == if f.i1 == v then Add(s1[v], area) else s1[v];
      assert s3[v] == if f.i2 == v then Add(s2[v], area) else s2[v];
      AddThree(s0[v], area, f.i0 == v, f.i1 == v, f.i2 == v);
      assert s3[v] == Add(s0[v], Contribution(vs, f, v));
    }
  }

  /** Adding `a` once for each of three flags, one after another, adds the sum of the three terms. */
  lemma AddThree(n: Vec3, a: Vec3, b0: bool, b1: bool, b2: bool)
    ensures
      var n1 := if b0 then Add(n, a) else n;
      var n2 := if b1 then Add(n1, a) else n1;
      var n3 := if b2 then Add(n2, a) else n2;
      n3 == Add(n, Add(Add(if b0 then a else Zero, if b1 then a else Zero), if b2 then a else Zero))
  {
  }

  /** A vertex that is a corner of no face keeps the normal `[0, 0, 0]`. */
  lemma {:induction false} UntouchedVertexIsZero(vs: seq<seq<real>>, faces: seq<Face>, n: nat, v: int)
    requires n <= |faces|
    requires forall k :: 0 <= k < |faces| ==> faces[k].i0 != v && faces[k].i1 != v && faces[k].i2 != v
    ensures AccumulatedUpTo(vs, faces, n, v) == Zero
  {
    if n > 0 {
      UntouchedVertexIsZero(vs, faces, n - 1, v);
      AddZero(Zero);
    }
  }

  /** Only the first `n` faces matter for the normals after `n` faces. */
  lemma {:induction false} AccumulatedPrefix(vs: seq<seq<real>>, xs: seq<Face>, ys: seq<Face>, n: nat, v: int)
    requires n <= |xs|
    ensures AccumulatedUpTo(vs, xs + ys, n, v) == AccumulatedUpTo(vs, xs, n, v)
  {
    if n > 0 {
      AccumulatedPrefix(vs, xs, ys, n - 1, v);
    }
  }

  /** The normals of a concatenation of face lists are the sums of the two lists' normals. */
  lemma {:induction false} AccumulatedAppend(vs: seq<seq<real>>, xs: seq<Face>, ys: seq<Face>, m: nat, v: int)
    requires m <= |ys|
    ensures AccumulatedUpTo(vs, xs + ys, |xs| + m, v) == Add(Accumulated(vs, xs, v), AccumulatedUpTo(vs, ys, m, v))
  {
    if m == 0 {
      AccumulatedPrefix(vs, xs, ys, |xs|, v);
      AddZero(Accumulated(vs, xs, v));
    } else {
      AccumulatedAppend(vs, xs, ys, m - 1, v);
      assert (xs + ys)[|xs| + m - 1] == ys[m - 1];
      AddAssoc(Accumulated(vs, xs, v), AccumulatedUpTo(vs, ys, m - 1, v), Contribution(vs, ys[m - 1], v));
    }
  }

  /** The normals do not depend on how the face list is split: those of `xs + ys` are those of `xs` plus those of `ys`. */
  lemma AccumulatedConcat(vs: seq<seq<real>>, xs: seq<Face>, ys: seq<Face>, v: int)
    ensures Accumulated(vs, xs + ys, v) == Add(Accumulated(vs, xs, v), Accumulated(vs, ys, v))
  {
    AccumulatedAppend(vs, xs, ys, |ys|, v);
  }

  /** For a single face with three distinct corners, each corner's normal is the face's area vector. */
  lemma SingleFaceNormal(vs: seq<seq<real>>, f: Face, v: int)
    requires UsableFace(vs, f) && f.i0 != f.i1 && f.i1 != f.i2 && f.i0 != f.i2
    requires v == f.i0 || v == f.i1 || v == f.i2
    ensures Accumulated(vs, [f], v) == Area(vs, f)
  {
    var a := Area(vs, f);
    assert Contribution(vs, f, v) == a by {
      AddZero(a);
      AddZero(Add(a, Zero));
    }
    assert AccumulatedUpTo(vs, [f], 1, v) == Add(AccumulatedUpTo(vs, [f], 0, v), Contribution(vs, [f][0], v));
  }

  /** The area vector of a face is perpendicular to both of its edges leaving the first stored corner. */
  lemma AreaPerpendicular(vs: seq<seq<real>>, f: Face)
    requires UsableFace(vs, f)
    ensures Dot(Area(vs, f), Sub(Point(vs, f.i1), Point(vs, f.i0))) == 0.0
    ensures Dot(Area(vs, f), Sub(Point(vs, f.i2), Point(vs, f.i0))) == 0.0
  {
    var v1, v2, v3 := Point(vs, f.i0), Point(vs, f.i1), Point(vs, f.i2);
    CrossPerpendicular(Sub(v3, v1), Sub(v2, v1));
  }

  // ---------------------------------------------------------------- parseObj

  /** `Float32Array(normals.flat())` of generated normals. */
  function NormalRows(ns: seq<Vec3>): (rows: seq<seq<real>>)
    ensures |rows| == |ns| && Uniform(rows, 3)
  {
    seq(|ns|, k requires 0 <= k < |ns| => [ns[k].x, ns[k].y, ns[k].z])
  }

  /** `Uint16Array(faces.flat())`. */
  function FaceRows(faces: seq<Face>): (rows: seq<seq<int>>)
    ensures |rows| == |faces| && Uniform(rows, 3)
  {
    seq(|faces|, k requires 0 <= k < |faces| => [faces[k].i0, faces[k].i1, faces[k].i2])
  }

  /** What `parseObj` returns for the text: the buffers, or the error it throws. */
  function ParseObjSpec(text: string, coord: string -> real, index: string -> int): Result<Buffers, ObjError>
  {
    match ParseLines(Split(text, '\n'), LineParser(coord, index))
    case Err(e) => Err(e)
    case Ok(g) =>
      if |g.normals| == 0 then
        if Usable(g.vertices, g.faces) then
          Ok(Buffers(Flatten(g.vertices), Flatten(NormalRows(GeneratedNormals(g.vertices, g.faces))), Flatten(FaceRows(g.faces))))
        else Err(BadGeometry)
      else Ok(Buffers(Flatten(g.vertices), Flatten(g.normals), Flatten(FaceRows(g.faces))))
  }

  /**
   * The loop of `parseObj`: reads the lines in order, pushing `v` lines onto
   * the vertices, `vn` lines onto the normals and `f` lines onto the faces,
   * and throws on any other keyword.
   */
  method ReadLines(lines: seq<string>, coord: string -> real, index: string -> int) returns (r: Result<Geometry, ObjError>)
    ensures r == ParseLines(lines, LineParser(coord, index))
  {
    var vertices: seq<seq<real>> := [];
    var normals: seq<seq<real>> := [];
    var faces: seq<Face> := [];
    for i := 0 to |lines|
      invariant ParseLines(lines[..i], LineParser(coord, index)) == Ok(Geometry(vertices, normals, faces))
    {
      ParseLinesStep(lines, i, LineParser(coord, index));
      var line := Clean(lines[i]);
      if line == "" {
        assert ParseLine(lines[i], coord, index) == Ok(Blank);
        continue;
      }
      var tokens := Split(line, ' ');
      var keyword, values := tokens[0], tokens[1..];
      if keyword == "v" {
        assert ParseLine(lines[i], coord, index) == Ok(V(Convert(values, coord)));
        vertices := vertices + [Convert(values, coord)];
      } else if keyword == "vn" {
        assert ParseLine(lines[i], coord, index) == Ok(VN(Convert(values, coord)));
        normals := normals + [Convert(values, coord)];
      } else if keyword == "f" {
        if |values| < 3 {
          assert ParseLine(lines[i], coord, index) == Err(ShortFace(values));
          FirstErrorAborts(lines, i, LineParser(coord, index));
          return Err(ShortFace(values));
        }
        var ix := Convert(values, (t: string) => index(t) - 1);
        assert ParseLine(lines[i], coord, index) == Ok(F(Face(ix[0], ix[2], ix[1])));
        faces := faces + [Face(ix[0], ix[2], ix[1])];
      } else {
        assert ParseLine(lines[i], coord, index) == Err(UnknownLineType(keyword));
        FirstErrorAborts(lines, i, LineParser(coord, index));
        return Err(UnknownLineType(keyword));
      }
    }
    assert lines[..|lines|] == lines;
    r := Ok(Geometry(vertices, normals, faces));
  }

  /**
   * `parseObj(str)`: reads the lines of the text, generates normals when
   * there were no `vn` lines, and returns the three arrays flattened.
   */
  method ParseObj(text: string, coord: string -> real, index: string -> int) returns (r: Result<Buffers, ObjError>)
    ensures r == ParseObjSpec(text, coord, index)
  {
    var read := ReadLines(Split(text, '\n'), coord, index);
    if read.Err? {
      return Err(read.error);
    }
    var vertices, normals, faces := read.value.vertices, read.value.normals, read.value.faces;
    if |normals| == 0 {
      if !Usable(vertices, faces) {
        return Err(BadGeometry);
      }
      var generated := GenerateNormals(vertices, faces);
      assert generated == GeneratedNormals(vertices, faces);
      normals := NormalRows(generated);
    }
    r := Ok(Buffers(Flatten(vertices), Flatten(normals), Flatten(FaceRows(faces))));
  }

  // ---------------------------------------------------------------- properties of the reader

  /** `pick` applied to each line, results concatenated head first (an independent, head-first definition). */
  function Collect<T>(lines: seq<string>, pick: string -> seq<T>): seq<T>
  {
    if lines == [] then [] else pick(lines[0]) + Collect(lines[1..], pick)
  }

  /** The head-first collection also grows at the back, one line at a time. */
  lemma {:induction false} CollectAppendLast<T>(lines: seq<string>, pick: string -> seq<T>)
    requires lines != []
    ensures Collect(lines, pick) == Collect(lines[..|lines| - 1], pick) + pick(lines[|lines| - 1])
  {
    var n := |lines| - 1;
    if n > 0 {
      CollectAppendLast(lines[1..], pick);
      assert lines[1..][..n - 1] == lines[..n][1..];
      assert lines[1..][n - 1] == lines[n];
      assert Collect(lines[..n], pick) == pick(lines[0]) + Collect(lines[..n][1..], pick);
    } else {
      assert lines[1..] == [];
      assert lines[..n] == [];
    }
  }

  function FacePart(r: Result<LineKind, ObjError>): seq<Face>
  {
    match r case Ok(F(f)) => [f] case _ => []
  }

  function VertexPart(r: Result<LineKind, ObjError>): seq<seq<real>>
  {
    match r case Ok(V(vs)) => [vs] case _ => []
  }

  function NormalPart(r: Result<LineKind, ObjError>): seq<seq<real>>
  {
    match r case Ok(VN(vs)) => [vs] case _ => []
  }

  /** The faces of the `f` lines, in file order. */
  function FacesOf(lines: seq<string>, parse: string -> Result<LineKind, ObjError>): seq<Face>
  {
    Collect(lines, l => FacePart(parse(l)))
  }

  /** The values of the `v` lines, in file order. */
  function VerticesOf(lines: seq<string>, parse: string -> Result<LineKind, ObjError>): seq<seq<real>>
  {
    Collect(lines, l => VertexPart(parse(l)))
  }

  /** The values of the `vn` lines, in file order. */
  function NormalsOf(lines: seq<string>, parse: string -> Result<LineKind, ObjError>): seq<seq<real>>
  {
    Collect(lines, l => NormalPart(parse(l)))
  }

  /**
   * A successful read pushes exactly the `v`, `vn` and `f` lines, each onto
   * its own array and in file order.
   */
  lemma {:induction false} ReadInFileOrder(lines: seq<string>, parse: string -> Result<LineKind, ObjError>)
    requires ParseLines(lines, parse).Ok?
    ensures ParseLines(lines, parse).value ==
              Geometry(VerticesOf(lines, parse), NormalsOf(lines, parse), FacesOf(lines, parse))
  {
    if lines != [] {
      var n := |lines| - 1;
      ReadInFileOrder(lines[..n], parse);
      CollectAppendLast(lines, l => FacePart(parse(l)));
      CollectAppendLast(lines, l => VertexPart(parse(l)));
      CollectAppendLast(lines, l => NormalPart(parse(l)));
    }
  }

  /** Reading one more line: its effect is pushed onto the arrays read so far, unless one of them failed. */
  lemma ParseLinesStep(lines: seq<string>, i: nat, parse: string -> Result<LineKind, ObjError>)
    requires i < |lines|
    ensures ParseLines(lines[..i + 1], parse) ==
      match ParseLines(lines[..i], parse)
      case Err(e) => Err(e)
      case Ok(g) => match parse(lines[i]) case Err(e) => Err(e) case Ok(kind) => Ok(Push(g, kind))
  {
    assert lines[..i + 1][..i] == lines[..i];
  }

  /** Once a line fails, the read fails with that line's error, whatever follows. */
  lemma {:induction false} FirstErrorAborts(lines: seq<string>, k: nat, parse: string -> Result<LineKind, ObjError>)
    requires k < |lines|
    requires ParseLines(lines[..k], parse).Ok?
    requires parse(lines[k]).Err?
    ensures ParseLines(lines, parse) == Err(parse(lines[k]).error)
  {
    var n := |lines| - 1;
    if n == k {
      assert lines[..n] == lines[..k];
    } else {
      assert lines[..n][..k] == lines[..k];
      FirstErrorAborts(lines[..n], k, parse);
    }
  }

  /** A line fails with `UnknownLineType(t)` exactly when it is not blank and its keyword `t` is none of `v`, `vn`, `f`. */
  lemma UnknownKeyword(raw: string, coord: string -> real, index: string -> int, t: string)
    ensures ParseLine(raw, coord, index) == Err(UnknownLineType(t)) <==>
              (Clean(raw) != "" && Split(Clean(raw), ' ')[0] == t && t != "v" && t != "vn" && t != "f")
    ensures Message(UnknownLineType(t)) == "Unknown line type encountered in obj file: " + t
  {
  }

  /** `trim` stops at a `#`: it removes only the white space before the line and after the comment. */
  lemma TrimAroundHash(l: string, c: string)
    ensures Trim(l + "#" + c) == TrimStart(l) + "#" + TrimEnd(c)
  {
    var s := TrimStart(l);
    assert !IsSpace('#');
    Assoc(l, "#", c);
    TrimStartAppend(l, "#" + c);
    Assoc(s, "#", c);
    TrimEndAppend(s + "#", c);
  }

  /** Text after the first `#` is discarded; white space before it stays, because the line is trimmed first. */
  lemma CommentDiscarded(l: string, c: string)
    requires '#' !in l
    ensures Clean(l + "#" + c) == TrimStart(l)
  {
    TrimAroundHash(l, c);
    var s, t := TrimStart(l), TrimEnd(c);
    assert '#' !in s by {
      assert s == l[|l| - |s|..];
    }
    assert s + "#" + t == s + ['#'] + t;
    FirstPart(s, '#', t);
  }

  /** A line holding only white space and a comment adds nothing. */
  lemma CommentLineAddsNothing(ws: string, c: string, coord: string -> real, index: string -> int)
    requires forall k :: 0 <= k < |ws| ==> IsSpace(ws[k])
    ensures ParseLine(ws + "#" + c, coord, index) == Ok(Blank)
  {
    assert '#' !in ws by {
      assert !IsSpace('#');
    }
    CommentDiscarded(ws, c);
  }

  /** A token of a face line: non-empty, without white space and without `#`. */
  predicate Word(s: string)
  {
    |s| > 0 && NoSpace(s) && '#' !in s
  }

  /** A line that starts and ends with a visible character and has no `#` is left as it is. */
  lemma CleanVisible(w: string)
    requires |w| > 0 && !IsSpace(w[0]) && !IsSpace(w[|w| - 1]) && '#' !in w
    ensures Clean(w) == w
  {
    assert TrimStart(w) == w;
    assert TrimEnd(w) == w;
    SplitNone(w, '#');
  }

  /** The text of the line `f a b c`. */
  function FaceText(a: string, b: string, c: string): string
  {
    "f " + a + " " + b + " " + c
  }

  /** The line `f a b c` is kept whole by the cleaning and splits into its four words. */
  lemma FaceTextTokens(a: string, b: string, c: string)
    requires Word(a) && Word(b) && Word(c)
    ensures Clean(FaceText(a, b, c)) == FaceText(a, b, c)
    ensures Split(FaceText(a, b, c), ' ') == ["f", a, b, c]
  {
    var parts := ["f", a, b, c];
    var line := FaceText(a, b, c);
    assert Join(parts, ' ') == line by {
      assert Join(parts[3..], ' ') == c;
      assert Join(parts[2..], ' ') == b + " " + c;
      assert Join(parts[1..], ' ') == a + " " + b + " " + c;
    }
    assert IsSpace(' ');
    assert ' ' !in a && ' ' !in b && ' ' !in c;
    SplitJoin(parts, ' ');
    assert line[|line| - 1] == c[|c| - 1];
    assert '#' !in line by {
      forall k | 0 <= k < |line| ensures line[k] != '#' {
        assert line[k] in "f " + a + b + c;
      }
    }
    CleanVisible(line);
  }

  /**
   * The line `f a b c` yields the face `[a-1, c-1, b-1]`: indices made 0-based
   * and the winding flipped.
   */
  lemma FaceLine(a: string, b: string, c: string, coord: string -> real, index: string -> int)
    requires Word(a) && Word(b) && Word(c)
    ensures ParseLine(FaceText(a, b, c), coord, index) == Ok(F(Face(index(a) - 1, index(c) - 1, index(b) - 1)))
  {
    FaceTextTokens(a, b, c);
    var values := ["f", a, b, c][1..];
    assert values == [a, b, c];
    assert FaceOf(values, index) == Face(index(a) - 1, index(c) - 1, index(b) - 1);
    assert "f" != "v" && "f" != "vn";
  }

  /** The flattened index buffer holds the three indices of face `k` at positions `3k`, `3k + 1`, `3k + 2`. */
  lemma FlattenFaces(faces: seq<Face>)
    ensures |Flatten(FaceRows(faces))| == 3 * |faces|
    ensures forall k :: 0 <= k < |faces| ==>
      var ix := Flatten(FaceRows(faces));
      3 * k + 2 < |ix| && ix[3 * k] == faces[k].i0 && ix[3 * k + 1] == faces[k].i1 && ix[3 * k + 2] == faces[k].i2
  {
    var rows := FaceRows(faces);
    FlattenLength(rows, 3);
    forall k | 0 <= k < |faces|
      ensures 3 * k + 2 < |Flatten(rows)|
      ensures Flatten(rows)[3 * k] == faces[k].i0 && Flatten(rows)[3 * k + 1] == faces[k].i1
      ensures Flatten(rows)[3 * k + 2] == faces[k].i2
    {
      FlattenAt(rows, 3, k, 0);
      FlattenAt(rows, 3, k, 1);
      FlattenAt(rows, 3, k, 2);
    }
  }

  /** A successful `parseObj` returns the three arrays of the lines, read in file order and flattened. */
  lemma ParsedArrays(text: string, coord: string -> real, index: string -> int)
    requires ParseObjSpec(text, coord, index).Ok?
    ensures var lines, parse := Split(text, '\n'), LineParser(coord, index);
            var b := ParseObjSpec(text, coord, index).value;
      && b.vertices == Flatten(VerticesOf(lines, parse))
      && b.indices == Flatten(FaceRows(FacesOf(lines, parse)))
      && (NormalsOf(lines, parse) != [] ==> b.normals == Flatten(NormalsOf(lines, parse)))
      && (NormalsOf(lines, parse) == [] ==>
            b.normals == Flatten(NormalRows(GeneratedNormals(VerticesOf(lines, parse), FacesOf(lines, parse)))))
  {
    var lines, parse := Split(text, '\n'), LineParser(coord, index);
    ReadInFileOrder(lines, parse);
    var g := ParseLines(lines, parse).value;
    assert g.vertices == VerticesOf(lines, parse) && g.faces == FacesOf(lines, parse);
    assert g.normals == NormalsOf(lines, parse);
    var b := ParseObjSpec(text, coord, index).value;
    if g.normals == [] {
      assert b == Buffers(Flatten(g.vertices), Flatten(NormalRows(GeneratedNormals(g.vertices, g.faces))), Flatten(FaceRows(g.faces)));
    } else {
      assert b == Buffers(Flatten(g.vertices), Flatten(g.normals), Flatten(FaceRows(g.faces)));
    }
  }

  /** The index buffer holds three indices per `f` line, `[a-1, c-1, b-1]` for face `f a b c`, in file order. */
  lemma IndexBuffer(text: string, coord: string -> real, index: string -> int)
    requires ParseObjSpec(text, coord, index).Ok?
    ensures var faces := FacesOf(Split(text, '\n'), LineParser(coord, index));
            var ix := ParseObjSpec(text, coord, index).value.indices;
      && |ix| == 3 * |faces|
      && forall k :: 0 <= k < |faces| ==>
           3 * k + 2 < |ix| && ix[3 * k] == faces[k].i0 && ix[3 * k + 1] == faces[k].i1 && ix[3 * k + 2] == faces[k].i2
  {
    ParsedArrays(text, coord, index);
    FlattenFaces(FacesOf(Split(text, '\n'), LineParser(coord, index)));
  }

  /**
   * Normals: the `vn` values as read when the file has any, otherwise exactly
   * one generated `[x, y, z]` per vertex.
   */
  lemma NormalBuffer(text: string, coord: string -> real, index: string -> int)
    requires ParseObjSpec(text, coord, index).Ok?
    ensures var lines, parse := Split(text, '\n'), LineParser(coord, index);
            var ns := ParseObjSpec(text, coord, index).value.normals;
      && (NormalsOf(lines, parse) != [] ==> ns == Flatten(NormalsOf(lines, parse)))
      && (NormalsOf(lines, parse) == [] ==> |ns| == 3 * |VerticesOf(lines, parse)|)
  {
    ParsedArrays(text, coord, index);
    var lines, parse := Split(text, '\n'), LineParser(coord, index);
    FlattenLength(NormalRows(GeneratedNormals(VerticesOf(lines, parse), FacesOf(lines, parse))), 3);
  }
}
