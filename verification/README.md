# Snowflake meshes and their WebGL viewer, modelled in Dafny

This project models the computational core of a small system that turns a
simulated snowflake into a triangle mesh and shows meshes in a browser.

The Python side finds the snowflake's outline and extrudes it into a solid:

- it walks one arm of the boundary on a boolean grid, choosing each step
  from the boundary cells under a ring-shaped mask;
- it mirrors the arm about the diagonal, keeps every few points of it and
  lays rotated copies of it round the centre;
- it removes repeated points, closes the outline into a ring of segments
  for the triangulator, and builds the faces of the extruded slab.

The JavaScript side holds a matrix type (`Mat`: construction, translation,
sum, product, column-major upload layout) and an OBJ reader (`parseObj`,
`generateNormals`).

Modules and files:

| file | module | what it models |
|---|---|---|
| `wrappers.dfy` | `Wrappers` | `Option` and `Result` |
| `seqs.dfy` | `Seqs` | one level of `Array.prototype.flat` and its index arithmetic |
| `vec.dfy` | `Vec` | the three-component vector helpers the OBJ reader calls |
| `linalg.dfy` | `LinAlg` | `Mat` from `js/linalg.js` |
| `objtext.dfy` | `ObjText` | `String.prototype.split` and `trim` |
| `obj.dfy` | `Obj` | `parseObj` and `generateNormals` from `js/obj.js` |
| `outline.dfy` | `Outline` | `get_candidates`, `choose_candidate` and the walk |
| `arm.dfy` | `Arm` | mirroring, `[:-5:step]` sampling, shear and rotated copies |
| `dedup.dfy` | `Duplicates` | the in-place removal of repeated points |
| `mesh.dfy` | `Mesh` | the segment ring and the face indices of the extruded slabs |
| `snowflake.dfy` | `SnowflakeMesh` | the `Snowflake` class of `mesh/refactor.py` |
| `meshgen.dfy` | `MeshScript` | the script `mesh/meshgen.py`, as a class whose fields are its lists |

Code that computes a value is modelled as functions. Code that fills
arrays in loops is modelled as methods with loops:

- `Mat.add`, `Mat.mul` and `convertForGPU`;
- the line loop of `parseObj` and the accumulation loop of `generateNormals`;
- the walk, the mirror, the shear and the rotated copies;
- the deletion loop and the face loops.

Each method is proved equal to a specification function, and the
properties are proved about that function. The Python objects are
classes: `Snowflake` and the script's `Script` have one field per list
they keep, and their methods state the new value of every field.

Some computations are not modelled and are taken as parameters instead:

- the numeric conversion of OBJ tokens (`coord`, `index`);
- the shear back to the hex grid (`shear`);
- the trigonometric rotations (`rot(i, p)` turns point `p` for copy `i`);
- the `triangle` library (`triangulate`);
- the seeded normal noise (`noise(k)` is the `k`-th sample).

The boolean boundary grid is an input.

## Model

| member | source | states |
|---|---|---|
| LinAlg.NewMat | js/linalg.js:8-12 | `rows` is the number of row arrays, `cols` the length of the first one, the entries are kept; the matrix is rectangular exactly when every row is as long as the first; there must be a first row |
| LinAlg.Translation | js/linalg.js:14-21 | `translation(v)` as written: a 4 by 4 matrix whose first three columns are the identity's and whose last column is `v[0], v[2], v[2], 1` |
| LinAlg.TranslationMovesPoint | js/linalg.js:14-21 | applied to `(x, y, z, 1)`, `translation(v)` as written gives `(x + v[0], y + v[2], z + v[2], 1)` |
| LinAlg.TranslationDropsY | js/linalg.js:17 | for `v = (1, 2, 3)` the second row's offset is 3, not 2, and the uploaded column-major buffer shows it |
| LinAlg.IntendedTranslationMovesPoint | js/linalg.js:14-21 | the corrected translation moves `(x, y, z, 1)` to `(x + v[0], y + v[1], z + v[2], 1)` |
| LinAlg.TranslationByZero | js/linalg.js:14-21 | translating by zero is the 4 by 4 identity |
| LinAlg.ColumnMajorTranslation | js/linalg.js:14-21 | the upload buffer of `translation(v)` is the identity's with the last column `v[0], v[2], v[2], 1` |
| LinAlg.Sum | js/linalg.js:27-38 | the sum has the left operand's shape and entry `(i, j)` is the sum of the operands' entries |
| LinAlg.Add | js/linalg.js:27-38 | the nested loops produce exactly that sum |
| LinAlg.SumCommutes | js/linalg.js:27-38 | for equal shapes the sum does not depend on operand order |
| LinAlg.Product | js/linalg.js:44-58 | the product is `rows(A)` by `cols(B)`, and entry `(i, j)` is the dot product of row `i` of `A` with column `j` of `B` over `cols(A)` terms |
| LinAlg.Mul | js/linalg.js:44-58 | the triple loop with its running `+=` produces exactly that product |
| LinAlg.IdentityLeft | js/linalg.js:44-58 | the identity times `A` is `A` |
| LinAlg.IdentityRight | js/linalg.js:44-58 | `A` times the identity is `A` |
| LinAlg.ConvertForGPU | js/linalg.js:60-70 | the buffer holds `rows * cols` numbers, entry `(i, j)` at `j * rows + i`, which makes it the column-major listing of the matrix |
| LinAlg.ColumnMajorSlot | js/linalg.js:60-70 | in the column-major listing, entry `(i, j)` sits at `j * rows + i` |
| LinAlg.SlotInRange | js/linalg.js:65 | every slot `j * rows + i` lies inside the buffer |
| LinAlg.SlotsDistinct | js/linalg.js:65 | no two entries share a slot |
| LinAlg.SlotCovered | js/linalg.js:65 | every slot of the buffer belongs to an entry |
| LinAlg.BufferIsColumnMajor | js/linalg.js:60-70 | a buffer of the right length with every entry in its slot is the column-major listing |
| LinAlg.GPULayoutRoundTrip | js/linalg.js:60-70 | reading the buffer back column by column gives the matrix again |
| Obj.ParseObj | js/obj.js:21-60 | the parser's result is the line-by-line reading of the text split at `\n`, followed by normal generation when there are no `vn` lines and flattening into three arrays |
| Obj.ReadLines | js/obj.js:26-48 | the line loop is the left-to-right fold of the line parser that stops at the first error |
| Obj.ParseLinesStep | js/obj.js:26-48 | one more line either keeps the earlier error, adds that line's error, or adds what the line contributes |
| Obj.ReadInFileOrder | js/obj.js:26-48 | a successful read lists vertices, normals and faces in file order, each the concatenation of what the lines contribute |
| Obj.FirstErrorAborts | js/obj.js:45-46 | the first line that fails decides the error of the whole file |
| Obj.ParseLine | js/obj.js:28-46 | a line contributes nothing exactly when it is empty once trimmed and cut at `#`; otherwise its first token decides: `v` and `vn` give the converted values, `f` with at least three values gives the face `(a - 1, c - 1, b - 1)`, `f` with fewer is an error, and any other token is the unknown-type error naming it |
| Obj.UnknownKeyword | js/obj.js:45-46 | a line fails with an unknown type exactly when it is not blank and its first token is none of `v`, `vn`, `f`; the message names that token |
| Obj.TrimAroundHash | js/obj.js:28 | trimming a line with a `#` trims only the text before and after it |
| Obj.CommentDiscarded | js/obj.js:28 | everything from the first `#` on is dropped, along with leading white space |
| Obj.CommentLineAddsNothing | js/obj.js:28-29 | a line of white space followed by a comment contributes nothing |
| Obj.CleanVisible | js/obj.js:28 | a line without `#` and without white space at either end is kept as it is |
| Obj.FaceTextTokens | js/obj.js:31 | `f a b c` splits into the type and three values |
| Obj.FaceLine | js/obj.js:40-43 | `f a b c` gives the face `(a - 1, c - 1, b - 1)`: one-based to zero-based, second and third swapped |
| Obj.FlattenFaces | js/obj.js:57 | the flattened index array has three entries per face, face `k` at `3k .. 3k + 2` in its stored order |
| Obj.IndexBuffer | js/obj.js:40-57 | the returned index array has three entries per `f` line, in file order |
| Obj.NormalBuffer | js/obj.js:51-56 | `vn` lines, when present, are returned as they are; otherwise there are three generated numbers per vertex |
| Obj.ParsedArrays | js/obj.js:50-57 | the three returned arrays are the flattened vertices, the flattened normals (read or generated) and the flattened faces |
| Obj.GenerateNormals | js/obj.js:70-92 | one normal per vertex; normal `v` is the sum, over the faces that contain `v`, of the face's cross product `(v3 - v1) x (v2 - v1)` |
| Obj.FaceAdded | js/obj.js:76-85 | adding one face's cross product to its three corners extends the sum to that face |
| Obj.UntouchedVertexIsZero | js/obj.js:71-85 | a vertex in no face keeps the normal `[0, 0, 0]` |
| Obj.AccumulatedConcat | js/obj.js:76-85 | the normals of a face list are the sums of the normals of its parts |
| Obj.SingleFaceNormal | js/obj.js:81-84 | with one face, each of its corners gets exactly that face's cross product |
| Obj.AreaPerpendicular | js/obj.js:81 | the cross product is perpendicular to both edges of its face |
| Outline.NonZeroSpec | mesh/refactor.py:170 | `np.nonzero` lists exactly the set cells, in row-major order |
| Outline.GetCandidates | mesh/refactor.py:164-172 | there are candidates exactly when the mask window can be cut from the grid around `(x, y)`, and each is an offset within the mask's half-widths |
| Outline.CandidatesAreHits | mesh/refactor.py:164-172 | candidates exist exactly when the mask window can be cut from the grid around `(x, y)`; they are exactly the offsets within the mask's half-widths where mask and boundary are both set, in row-major order; the copy at `mesh/meshgen.py:45-53` is the same code |
| Outline.SmallMaskShape | mesh/meshgen.py:37-43 | the walk's mask is 5 by 5 with a clear centre |
| Outline.CentreNeverCandidate | mesh/refactor.py:122-128 | with a clear mask centre, the offset `(0, 0)` is never a candidate |
| Outline.FirstArgMax | mesh/refactor.py:176 | the chosen index has the highest score and every earlier index scores strictly less |
| Outline.ChooseCandidate | mesh/refactor.py:174-178 | no choice exactly when there are no candidates; otherwise a candidate of maximal score `u[1] * 1000000 + T . u`, the earliest one on ties; the copy at `mesh/meshgen.py:55-59` is the same code |
| Outline.Start | mesh/refactor.py:118 | the start is the first boundary cell in row-major order, and there is none on an empty boundary |
| Outline.Walk | mesh/refactor.py:116-145 | a completed walk of `n` steps has `n + 1` vertices and starts at the start |
| Outline.WalkArm | mesh/refactor.py:130-145 | the loop produces the walk's vertices, and fails exactly when the walk does (some step has no window or no candidate); the script's loop at `mesh/meshgen.py:74-89` is the same |
| Outline.NextStep | mesh/refactor.py:132-141 | one step is `get_candidates` at the last vertex followed by `choose_candidate` for `T` |
| Outline.WalkAdvance | mesh/refactor.py:131-145 | one more step either ends the walk or appends the last vertex plus the chosen offset, which becomes `T` |
| Outline.WalkFollowsChoices | mesh/refactor.py:138-145 | each difference `vertices[k + 1] - vertices[k]` is the candidate chosen at `vertices[k]` for the `T` of that moment |
| Outline.WalkHeading | mesh/refactor.py:144 | after each step `T` is the offset just taken, `(-1, 1)` before the first |
| Outline.WalkExtends | mesh/refactor.py:131 | a shorter walk is a prefix of a longer one |
| Outline.WalkFailurePersists | mesh/refactor.py:131 | once a step fails, every longer walk fails |
| Outline.WalkOnBoundary | mesh/refactor.py:138-145 | when every step leads to another boundary cell, every vertex after the start is on the boundary and differs from the one before |
| Outline.StepperOnBoundary | mesh/refactor.py:164-178 | with a clear mask centre, every step leads to another boundary cell |
| Outline.ChosenOnBoundary | mesh/refactor.py:164-178 | a chosen offset is non-zero and leads to a boundary cell |
| Arm.MirrorArm | mesh/refactor.py:147-150 | the loop builds the walk reversed with coordinates swapped and prepends it |
| Arm.MirrorSymmetric | mesh/refactor.py:147-150 | the mirrored list is twice as long, and point `k` is the swap of the point at the mirror position `2n - 1 - k` |
| Arm.ReflectedTwice | mesh/refactor.py:147-149 | reflecting twice gives the walk back |
| Arm.SampleAt | mesh/refactor.py:151 | `s[:-5:step]` holds `s[k * step]` for exactly the `k` with `k * step` before the last five |
| Arm.EveryStepAt | mesh/meshgen.py:97 | element `k` of `s[::step]` is `s[k * step]` |
| Arm.EveryStepLength | mesh/meshgen.py:97 | `s[::step]` has `r` elements with `(r - 1) * step < len(s) <= r * step` |
| Arm.SampledArm | mesh/meshgen.py:92-97 | a mirrored walk of 185 points has 370; sampling keeps 183 points for a step of 2 and 73 for a step of 5, point `k` being the shear of mirrored point `k * step` |
| Arm.MakeArm | mesh/refactor.py:115-162 | walking, mirroring, sampling and shearing produce the arm, or nothing when there is no boundary or the walk stops |
| Arm.RotatedCopies | mesh/meshgen.py:112-122 | the nested loops lay the rotated copies one after another |
| Arm.CopiesAt | mesh/meshgen.py:112-122 | there are `d * len(vertices)` points, point `k` of copy `i` at `i * len(vertices) + k` |
| Duplicates.RemoveDuplicates | mesh/meshgen.py:126-134 | the deletion loop leaves exactly the list without later repeats |
| Duplicates.DedupMembers | mesh/refactor.py:103-113 | the kept values are exactly the values of the list |
| Duplicates.DedupDistinct | mesh/refactor.py:103-113 | no value is kept twice |
| Duplicates.DedupFirstOccurrences | mesh/refactor.py:103-113 | the kept values come in the order of their first occurrences |
| Duplicates.DedupOfDistinct | mesh/refactor.py:103-113 | a list without repeats is left unchanged |
| Duplicates.DedupIdempotent | mesh/refactor.py:103-113 | removing repeats twice is the same as once |
| Mesh.Segments | mesh/refactor.py:53-54 | for `n >= 1` points there are `n` segments, segment `i` joining point `i` to point `i + 1` and the last back to point 0; with no points the one segment is `(-1, 0)`, which names no point; `mesh/meshgen.py:139-140` builds the same list |
| Mesh.SegmentsRing | mesh/refactor.py:53-54 | for `n >= 1` points, segment `i` joins point `i` to point `(i + 1) mod n` |
| Mesh.BackTrianglesInRange | mesh/refactor.py:76-78 | back triangles of triangles on `V` vertices use only vertices `V .. 2V - 1`, so all triangles index the `2V` layer vertices |
| Mesh.BackTriangleReversed | mesh/refactor.py:76 | a back triangle, moved back onto the front, is its front triangle wound the other way |
| Mesh.SideBandClosesRing | mesh/refactor.py:81-99 | the side band has four faces per outline point; for each point two faces split the quadrilateral from the front outline to the middle ring and two the one from the middle ring to the back outline, both wound the same way, the last point joined back to point 0 |
| Mesh.SideBandInRange | mesh/refactor.py:81-99 | for `1 <= F <= V`, every side face indexes one of the `2V + F` vertices |
| Mesh.StripLeavesRingOpen | mesh/meshgen.py:175-180 | the script's last pair of side faces uses vertex `V + F`, so it does not split the quadrilateral from position `F - 1` back to 0; when `F = V` that index is past the `2V` vertices |
| Mesh.Strip | mesh/meshgen.py:175-180 | the script's strip has two faces per outline point; the pair at position `k` is `(k, V + k + 1, V + k)` and `(k, k + 1, V + k + 1)`, with no wrap at the last position |
| Mesh.StripInRange | mesh/meshgen.py:175-180 | when the triangulation added a point (`F < V`), the script's strip indexes only the `2V` slab vertices |
| Mesh.StripSplitsBeforeLast | mesh/meshgen.py:175-180 | every pair of the script's strip except the last splits the quadrilateral from its position to the next, on both layers |
| Mesh.StripAgreesBeforeLast | mesh/meshgen.py:175-180 | every pair but the last is the same in the script's strip and in the closed one |
| Mesh.WrappedStripClosesRing | mesh/meshgen.py:175-180 | the closed side strip has two faces per outline point, splitting the quadrilateral from each point to the next and across to the back layer, the last joined back to point 0 |
| Mesh.WrappedStripInRange | mesh/meshgen.py:175-180 | for `1 <= F <= V` the closed strip indexes only the `2V` slab vertices |
| SnowflakeMesh.LayersShape | mesh/refactor.py:73-79 | there are `2V + F` vertices; back vertex `V + k` is front vertex `k` reflected through height 0; middle vertex `2V + k` is outline point `k` at height 0 |
| SnowflakeMesh.SlabFacesInRange | mesh/refactor.py:76-100 | with triangles on the `V` points and `1 <= F <= V`, there are `2T + 4F` faces and all index the `2V + F` vertices |
| SnowflakeMesh.Snowflake.constructor | mesh/refactor.py:9-11 | the builder starts from the boundary grid with every list empty |
| SnowflakeMesh.Snowflake.MakeArmVertices | mesh/refactor.py:115-162 | the arm is the walk with the 5 by 5 mask, mirrored, sampled with step 2 and sheared |
| SnowflakeMesh.Snowflake.RemoveDuplicate | mesh/refactor.py:103-113 | the list handed in is edited in place to its version without repeats and is the list returned |
| SnowflakeMesh.Snowflake.MakeVertices | mesh/refactor.py:31-49 | the outline is the rotated copies of the arm without repeats; it fails exactly when no arm can be walked |
| SnowflakeMesh.Snowflake.Triangulate | mesh/refactor.py:52-60 | the triangulation is given the outline and its segment ring |
| SnowflakeMesh.Snowflake.Draw3D | mesh/refactor.py:65-100 | the vertices are the front, back and middle layers, and the faces are the triangles, their back copies and the side band |
| SnowflakeMesh.Snowflake.Build | mesh/refactor.py:9-15 | the boundary is kept; when an arm can be walked, the outline, triangulation, vertices and faces are those of the whole build in order; otherwise every field is left as it was |
| MeshScript.SlabMirrored | mesh/meshgen.py:167-173 | front vertices are at height 5 and back vertex `V + k` is front vertex `k` reflected through height 0 |
| MeshScript.ExtrudedFacesInRange | mesh/meshgen.py:167-182 | with triangles on the `V` points and `F < V`, the script's mesh has `2T + 2F` faces and all index the `2V` slab vertices |
| MeshScript.ExtrudedFacesOverrun | mesh/meshgen.py:167-182 | with `F = V >= 1`, the last face of the script's mesh is `(V - 1, V, 2V)`, so the face list names a vertex past the `2V` slab vertices |
| MeshScript.OutlineCount | mesh/meshgen.py:112-122 | before repeats are removed the outline holds six arms of 73 points |
| MeshScript.Script.constructor | mesh/meshgen.py:64-66 | the script starts from the boundary grid with every list empty |
| MeshScript.Script.WalkArm | mesh/meshgen.py:66-110 | the arm is the walk with the small mask, mirrored, sampled with step 5 and sheared; it fails exactly when no arm can be walked |
| MeshScript.Script.RotateArms | mesh/meshgen.py:112-122 | `final` is the six rotated copies of the arm |
| MeshScript.Script.Deduplicate | mesh/meshgen.py:126-134 | `final` loses every later repeat, in place |
| MeshScript.Script.Triangulate | mesh/meshgen.py:139-163 | the segment ring of `final` is built and the triangulation is given both |
| MeshScript.Script.Extrude | mesh/meshgen.py:167-182 | the slab vertices are the two layers, and the faces are the triangles, their back copies and the side strip as the script writes it |
| MeshScript.Script.Run | mesh/meshgen.py:64-182 | the boundary is kept; when an arm can be walked, the arm, the outline, the segments, the triangulation, the slab and its faces are those of the whole script in order; otherwise every field is left as it was |

## Left out

- Float32Array and Uint16Array rounding: numbers are reals and integers.
- Conversion of OBJ tokens to numbers: `coord` and `index` are parameters.
- JavaScript's `values - 1` on a non-numeric token gives `NaN`. The model applies `index` and subtracts 1.
- Obj.ParseObj: a face line with fewer than three values is an explicit `ShortFace` error. In JavaScript it pushes a face with `undefined` indices. When the file has `vn` lines, `Uint16Array` turns those indices into 0. Without `vn` lines, `generateNormals` first reads `vertices[undefined]`, and what happens next depends on the `Vec` helpers.
- Obj.GenerateNormals: it requires every face index to name a vertex with three coordinates. `ParseObj` reports any other input as a `BadGeometry` error, where JavaScript would compute `NaN` or throw inside `Vec`.
- The `Vec` helpers come from a file that is not part of this model. They are the textbook vector operations over reals.
- `loadObjAtPath` (the network fetch) is not modelled; neither are shaders, textures, the skybox, the camera, `js/mesh.js` or the animation loop.
- The boundary convolution (`scipy.signal.convolve2d`) and the `data > 1.0` threshold are not modelled: the boolean boundary grid is an input.
- Outline.GetCandidates returns `None` when the mask window leaves the grid, and that ends the walk. numpy would wrap a negative start, or clip at the edge and then fail to broadcast against the mask. Those windows are not modelled.
- Outline.ChooseCandidate returns `None` on an empty candidate list, where `np.argmax` raises. That also ends the walk.
- Outline.Start returns `None` on an empty boundary, where indexing the empty `np.where` result raises.
- The shear (`np.linalg.inv` and the offset `(500, 500)`) is a parameter `shear`. The rotations (`np.cos`, `np.sin`) are a parameter `rot`.
- Floating-point equality of rotated points is not modelled: the repeat test is equality of the model's values.
- `triangle.triangulate` is a parameter. The face lemmas assume, as that library does, that the outline points come first among its vertices (`1 <= F <= V`).
- The seeded normal noise is a parameter `noise`.
- Nothing is modelled for `meshio` output, the matplotlib plots, the `print` calls or the driver loop over `1..11` dendrites.
- Integers are unbounded. numpy's 64-bit wrap-around is not reachable on grids of realistic size.
- Snowflake.RemoveDuplicate: the deletion loop is proved once, as `Duplicates.RemoveDuplicates` on a sequence. The method stores its result in the list object it was given and returns that object, which models the in-place edit and the shared reference, but not the element-by-element deletion inside the object.

## Findings

`MeshScript` models the script as it is written, so its faces use `Mesh.Strip`. The corrected strip `Mesh.WrappedStrip` is the intended behaviour, stated beside it.

| source | as written | input that shows it | evidently intended | confidence | as-written member | corrected member |
|---|---|---|---|---|---|---|
| js/linalg.js:17 | the second row of `translation(v)` takes its offset from `v[2]` | `v = (1, 2, 3)` moves the origin to `(1, 3, 3)` | the offset `v[1]`, moving the origin to `(1, 2, 3)` | high, not executed | LinAlg.TranslationDropsY | LinAlg.IntendedTranslationMovesPoint |
| mesh/meshgen.py:176-180 | the side strip runs `i` up to `len(final) - 1` and uses `i + 1` without wrapping | `F = 3` outline points and `V = 4` triangulation points: the last pair is `[2, 7, 6]` and `[2, 3, 7]`, which reaches Steiner point 3 instead of going back to point 0; with `F = V` the index `2V` is out of range | the last pair `[2, 4, 6]` and `[2, 0, 4]`, closing the ring with `(i + 1) mod F` as in `mesh/refactor.py:96-99` | high, not executed | Mesh.StripLeavesRingOpen | Mesh.WrappedStripClosesRing |
