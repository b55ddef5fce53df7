/**
 * The row-major matrix value type `Mat`: the constructor, the 4x4
 * `translation` builder, element-wise `add`, the triple-loop `mul` and
 * `convertForGPU`, which flattens the entries into column-major order.
 * Entries are real numbers; the Float32 rounding of the GPU buffer is not modelled.
 */
module LinAlg {
  import opened Seqs

  /** A matrix as the constructor records it: `rows`, `cols` and the row arrays. */
  datatype Mat = Mat(rows: nat, cols: nat, entries: seq<seq<real>>)

  /** Rectangular and non-empty: what a matrix built from equal-length row arrays satisfies. */
  predicate Wf(m: Mat)
  {
    && m.rows == |m.entries| > 0
    && forall i :: 0 <= i < |m.entries| ==> |m.entries[i]| == m.cols
  }

  /**
   * The constructor: `rows` is the number of row arrays and `cols` the length
   * of the first one; reading `entries[0]` needs at least one row.
   */
  function NewMat(entries: seq<seq<real>>): (m: Mat)
    requires |entries| > 0
    ensures m.rows == |entries| && m.cols == |entries[0]| && m.entries == entries
    ensures Wf(m) <==> forall i :: 0 <= i < |entries| ==> |entries[i]| == |entries[0]|
  {
    Mat(|entries|, |entries[0]|, entries)
  }

  /** `translation(v)` exactly as written: the second row reads `v[2]`, not `v[1]`. */
  function Translation(v: seq<real>): (m: Mat)
    requires |v| >= 3
    ensures Wf(m) && m.rows == 4 && m.cols == 4
    ensures forall i, j :: 0 <= i < 4 && 0 <= j < 3 ==> m.entries[i][j] == if i == j then 1.0 else 0.0
    ensures m.entries[0][3] == v[0] && m.entries[1][3] == v[2] && m.entries[2][3] == v[2] && m.entries[3][3] == 1.0
  {
    NewMat([
      [1.0, 0.0, 0.0, v[0]],
      [0.0, 1.0, 0.0, v[2]],
      [0.0, 0.0, 1.0, v[2]],
      [0.0, 0.0, 0.0, 1.0]])
  }

  /** The translation the builder evidently means: the last column is `v[0], v[1], v[2], 1`. */
  function IntendedTranslation(v: seq<real>): (m: Mat)
    requires |v| >= 3
    ensures Wf(m) && m.rows == 4 && m.cols == 4
  {
    NewMat([
      [1.0, 0.0, 0.0, v[0]],
      [0.0, 1.0, 0.0, v[1]],
      [0.0, 0.0, 1.0, v[2]],
      [0.0, 0.0, 0.0, 1.0]])
  }

  /** The n x n identity matrix. */
  function Identity(n: nat): (m: Mat)
    requires n > 0
    ensures Wf(m) && m.rows == n && m.cols == n
  {
    NewMat(seq(n, i => seq(n, j => if i == j then 1.0 else 0.0)))
  }

  /** A column vector (an n x 1 matrix), the homogeneous point a transform acts on. */
  function Column(p: seq<real>): (m: Mat)
    requires |p| > 0
    ensures Wf(m) && m.rows == |p| && m.cols == 1
  {
    NewMat(seq(|p|, i requires 0 <= i < |p| => [p[i]]))
  }

  // ---------------------------------------------------------------- add

  /** The element-wise sum of the first `A.rows` x `A.cols` entries. */
  function Sum(A: Mat, B: Mat): (C: Mat)
    requires Wf(A) && Wf(B) && A.rows <= B.rows && A.cols == B.cols
    ensures Wf(C) && C.rows == A.rows && C.cols == A.cols
    ensures forall i, j :: 0 <= i < C.rows && 0 <= j < C.cols ==>
              C.entries[i][j] == A.entries[i][j] + B.entries[i][j]
  {
    NewMat(seq(A.rows, i requires 0 <= i < A.rows =>
      seq(A.cols, j requires 0 <= j < A.cols => A.entries[i][j] + B.entries[i][j])))
  }

  /**
   * `A.add(B)`: a fresh row array per row, filled column by column. The loop
   * bounds come from `A.rows` and `B.cols`; the entries are numbers exactly
   * when B has at least A's rows and the same number of columns.
   */
  method Add(A: Mat, B: Mat) returns (C: Mat)
    requires Wf(A) && Wf(B) && A.rows <= B.rows && A.cols == B.cols
    ensures C == Sum(A, B)
    ensures Wf(C) && C.rows == A.rows && C.cols == A.cols
    ensures forall i, j :: 0 <= i < C.rows && 0 <= j < C.cols ==>
              C.entries[i][j] == A.entries[i][j] + B.entries[i][j]
  {
    var rows: seq<seq<real>> := [];
    for i := 0 to A.rows
      invariant |rows| == i
      invariant forall r :: 0 <= r < i ==> rows[r] == Sum(A, B).entries[r]
    {
      var row: seq<real> := [];
      for j := 0 to B.cols
        invariant |row| == j
        invariant forall c :: 0 <= c < j ==> row[c] == A.entries[i][c] + B.entries[i][c]
      {
        row := row + [A.entries[i][j] + B.entries[i][j]];
      }
      rows := rows + [row];
    }
    C := NewMat(rows);
  }

  /** Addition of two matrices of the same shape does not depend on the order of the operands. */
  lemma SumCommutes(A: Mat, B: Mat)
    requires Wf(A) && Wf(B) && A.rows == B.rows && A.cols == B.cols
    ensures Sum(A, B) == Sum(B, A)
  {
    var S, T := Sum(A, B), Sum(B, A);
    forall i | 0 <= i < A.rows ensures S.entries[i] == T.entries[i] {
      assert forall j :: 0 <= j < A.cols ==> S.entries[i][j] == T.entries[i][j];
    }
  }

  // ---------------------------------------------------------------- mul

  /** `A[i][0]*B[0][j] + ... + A[i][n-1]*B[n-1][j]`. */
  function Dot(A: Mat, B: Mat, i: nat, j: nat, n: nat): real
    requires Wf(A) && Wf(B) && i < A.rows && j < B.cols && n <= A.cols && n <= B.rows
  {
    if n == 0 then 0.0 else Dot(A, B, i, j, n - 1) + A.entries[i][n - 1] * B.entries[n - 1][j]
  }

  /**
   * The product as `mul` computes it: an `A.rows` x `B.cols` matrix whose
   * (i, j) entry sums over `k < A.cols`.
   */
  function Product(A: Mat, B: Mat): (C: Mat)
    requires Wf(A) && Wf(B) && A.cols <= B.rows
    ensures Wf(C) && C.rows == A.rows && C.cols == B.cols
    ensures forall i, j :: 0 <= i < C.rows && 0 <= j < C.cols ==>
              C.entries[i][j] == Dot(A, B, i, j, A.cols)
  {
    NewMat(seq(A.rows, i requires 0 <= i < A.rows =>
      seq(B.cols, j requires 0 <= j < B.cols => Dot(A, B, i, j, A.cols))))
  }

  /**
   * `A.mul(B)`: each entry starts at 0 and accumulates `A[i][k] * B[k][j]`
   * for `k < A.cols`. The source does not compare `A.cols` with `B.rows`; it
   * reads `B.entries[k]` for every `k < A.cols`, which needs `A.cols <= B.rows`.
   */
  method Mul(A: Mat, B: Mat) returns (C: Mat)
    requires Wf(A) && Wf(B) && A.cols <= B.rows
    ensures C == Product(A, B)
    ensures Wf(C) && C.rows == A.rows && C.cols == B.cols
  {
    var rows: seq<seq<real>> := [];
    for i := 0 to A.rows
      invariant |rows| == i
      invariant forall r :: 0 <= r < i ==> rows[r] == Product(A, B).entries[r]
    {
      var row: seq<real> := [];
      for j := 0 to B.cols
        invariant |row| == j
        invariant forall c :: 0 <= c < j ==> row[c] == Dot(A, B, i, c, A.cols)
      {
        var acc := 0.0;
        for k := 0 to A.cols
          invariant acc == Dot(A, B, i, j, k)
        {
          acc := acc + A.entries[i][k] * B.entries[k][j];
        }
        row := row + [acc];
      }
      rows := rows + [row];
    }
    C := NewMat(rows);
  }

  /** Summing against row `i` of the identity picks out the `i`-th term, when it is in range. */
  lemma {:induction false} DotIdentityLeft(A: Mat, i: nat, j: nat, n: nat)
    requires Wf(A) && A.rows > 0 && i < A.rows && j < A.cols && n <= A.rows
    ensures Dot(Identity(A.rows), A, i, j, n) == if i < n then A.entries[i][j] else 0.0
  {
    if n > 0 {
      DotIdentityLeft(A, i, j, n - 1);
    }
  }

  lemma {:induction false} DotIdentityRight(A: Mat, i: nat, j: nat, n: nat)
    requires Wf(A) && i < A.rows && j < A.cols && n <= A.cols
    ensures Dot(A, Identity(A.cols), i, j, n) == if j < n then A.entries[i][j] else 0.0
  {
    if n > 0 {
      DotIdentityRight(A, i, j, n - 1);
    }
  }

  /** Multiplying by the identity on the left reproduces the other operand. */
  lemma IdentityLeft(A: Mat)
    requires Wf(A)
    ensures Product(Identity(A.rows), A) == A
  {
    var P := Product(Identity(A.rows), A);
    forall i | 0 <= i < A.rows ensures P.entries[i] == A.entries[i] {
      forall j | 0 <= j < A.cols ensures P.entries[i][j] == A.entries[i][j] {
        DotIdentityLeft(A, i, j, A.rows);
      }
    }
  }

  /** Multiplying by the identity on the right reproduces the other operand. */
  lemma IdentityRight(A: Mat)
    requires Wf(A) && A.cols > 0
    ensures Product(A, Identity(A.cols)) == A
  {
    var P := Product(A, Identity(A.cols));
    forall i | 0 <= i < A.rows ensures P.entries[i] == A.entries[i] {
      forall j | 0 <= j < A.cols ensures P.entries[i][j] == A.entries[i][j] {
        DotIdentityRight(A, i, j, A.cols);
      }
    }
  }

  /** Translating by the zero vector yields the 4x4 identity. */
  lemma TranslationByZero()
    ensures Translation([0.0, 0.0, 0.0]) == Identity(4)
  {
    var I, T := Identity(4), Translation([0.0, 0.0, 0.0]);
    forall i | 0 <= i < 4 ensures I.entries[i] == T.entries[i] {
      assert forall j :: 0 <= j < 4 ==> I.entries[i][j] == T.entries[i][j];
    }
  }

  /** The product of a 4x4 matrix with a homogeneous point, in terms of the four products. */
  lemma DotFour(A: Mat, p: seq<real>, i: nat)
    requires Wf(A) && A.rows == 4 && A.cols == 4 && |p| == 4 && i < 4
    ensures Dot(A, Column(p), i, 0, 4) ==
              A.entries[i][0] * p[0] + A.entries[i][1] * p[1] + A.entries[i][2] * p[2] + A.entries[i][3] * p[3]
  {
    var P := Column(p);
    assert P.entries[0][0] == p[0] && P.entries[1][0] == p[1];
    assert P.entries[2][0] == p[2] && P.entries[3][0] == p[3];
    assert Dot(A, P, i, 0, 1) == A.entries[i][0] * p[0];
    assert Dot(A, P, i, 0, 2) == Dot(A, P, i, 0, 1) + A.entries[i][1] * p[1];
    assert Dot(A, P, i, 0, 3) == Dot(A, P, i, 0, 2) + A.entries[i][2] * p[2];
  }

  /**
   * As written, `translation(v)` moves a point by `(v[0], v[2], v[2])`: the
   * y coordinate is shifted by the z component of the translation.
   */
  lemma TranslationMovesPoint(v: seq<real>, x: real, y: real, z: real)
    requires |v| >= 3
    ensures Product(Translation(v), Column([x, y, z, 1.0])) == Column([x + v[0], y + v[2], z + v[2], 1.0])
  {
    var T, p := Translation(v), [x, y, z, 1.0];
    var P, Q := Product(T, Column(p)), Column([x + v[0], y + v[2], z + v[2], 1.0]);
    forall i | 0 <= i < 4 ensures P.entries[i] == Q.entries[i] {
      DotFour(T, p, i);
    }
  }

  /** The intended builder moves a point by `(v[0], v[1], v[2])`. */
  lemma IntendedTranslationMovesPoint(v: seq<real>, x: real, y: real, z: real)
    requires |v| >= 3
    ensures Product(IntendedTranslation(v), Column([x, y, z, 1.0])) == Column([x + v[0], y + v[1], z + v[2], 1.0])
  {
    var T, p := IntendedTranslation(v), [x, y, z, 1.0];
    var P, Q := Product(T, Column(p)), Column([x + v[0], y + v[1], z + v[2], 1.0]);
    forall i | 0 <= i < 4 ensures P.entries[i] == Q.entries[i] {
      DotFour(T, p, i);
    }
  }

  /** A translation whose y and z components differ is not carried out by `translation`. */
  lemma TranslationDropsY()
    ensures Product(Translation([1.0, 2.0, 3.0]), Column([0.0, 0.0, 0.0, 1.0])).entries[1][0] == 3.0
    ensures ColumnMajor(Translation([1.0, 2.0, 3.0]))
              == [1.0, 0.0, 0.0, 0.0, 0.0, 1.0, 0.0, 0.0, 0.0, 0.0, 1.0, 0.0, 1.0, 3.0, 3.0, 1.0]
  {
    TranslationMovesPoint([1.0, 2.0, 3.0], 0.0, 0.0, 0.0);
    var P := Column([0.0 + 1.0, 0.0 + 3.0, 0.0 + 3.0, 1.0]);
    assert P.entries[1] == [3.0];
    ColumnMajorTranslation([1.0, 2.0, 3.0]);
  }

  // ---------------------------------------------------------------- convertForGPU

  /** Column `j` of the matrix, top to bottom. */
  function ColumnOf(m: Mat, j: nat): (c: seq<real>)
    requires Wf(m) && j < m.cols
    ensures |c| == m.rows && forall i :: 0 <= i < m.rows ==> c[i] == m.entries[i][j]
  {
    seq(m.rows, i requires 0 <= i < m.rows => m.entries[i][j])
  }

  /** The columns of the matrix, left to right. */
  function Columns(m: Mat): (cs: seq<seq<real>>)
    requires Wf(m)
    ensures |cs| == m.cols && Uniform(cs, m.rows)
  {
    seq(m.cols, j requires 0 <= j < m.cols => ColumnOf(m, j))
  }

  /** The column-major layout: the columns one after another. */
  function ColumnMajor(m: Mat): (g: seq<real>)
    requires Wf(m)
    ensures |g| == m.rows * m.cols
  {
    FlattenLength(Columns(m), m.rows);
    Flatten(Columns(m))
  }

  /** Slot `j * rows + i` of the column-major layout holds entry (i, j). */
  lemma ColumnMajorSlot(m: Mat, i: nat, j: nat)
    requires Wf(m) && i < m.rows && j < m.cols
    ensures j * m.rows + i < |ColumnMajor(m)| && ColumnMajor(m)[j * m.rows + i] == m.entries[i][j]
  {
    var cs := Columns(m);
    assert ColumnMajor(m) == Flatten(cs);
    FlattenAt(cs, m.rows, j, i);
    assert cs[j] == ColumnOf(m, j);
  }

  lemma ColumnMajorTranslation(v: seq<real>)
    requires |v| >= 3
    ensures ColumnMajor(Translation(v))
              == [1.0, 0.0, 0.0, 0.0, 0.0, 1.0, 0.0, 0.0, 0.0, 0.0, 1.0, 0.0, v[0], v[2], v[2], 1.0]
  {
    var m := Translation(v);
    var g := ColumnMajor(m);
    var want := [1.0, 0.0, 0.0, 0.0, 0.0, 1.0, 0.0, 0.0, 0.0, 0.0, 1.0, 0.0, v[0], v[2], v[2], 1.0];
    forall k | 0 <= k < 16 ensures g[k] == want[k] {
      var i, j := k % 4, k / 4;
      assert k == j * 4 + i;
      ColumnMajorSlot(m, i, j);
    }
  }

  /** Slot `j * rows + i` lies in the buffer. */
  lemma SlotInRange(rows: nat, cols: nat, i: nat, j: nat)
    requires i < rows && j < cols
    ensures j * rows + i < rows * cols
  {
    LessMul(j, cols, rows, i);
  }

  /** Distinct entries go to distinct slots. */
  lemma SlotsDistinct(rows: nat, i: nat, j: nat, i': nat, j': nat)
    requires i < rows && i' < rows && (i, j) != (i', j')
    ensures j * rows + i != j' * rows + i'
  {
    if j < j' {
      LessMul(j, j', rows, i);
      MonoMul(j', j', rows);
    } else if j' < j {
      LessMul(j', j, rows, i');
    }
  }

  /** Every slot of the buffer is `j * rows + i` for some entry (i, j). */
  lemma SlotCovered(rows: nat, cols: nat, k: nat)
    requires rows > 0 && k < rows * cols
    ensures k % rows < rows && k / rows < cols && k == (k / rows) * rows + k % rows
  {
    if k / rows >= cols {
      MonoMul(cols, k / rows, rows);
    }
  }

  /** The slot of the GPU buffer that receives entry (i, j). */
  function Slot(rows: nat, i: nat, j: nat): nat
  {
    j * rows + i
  }

  /** A buffer that holds entry (i, j) at slot `j * rows + i` for every entry is the column-major layout. */
  lemma BufferIsColumnMajor(m: Mat, r: seq<real>)
    requires Wf(m) && |r| == m.rows * m.cols
    requires forall i, j :: 0 <= i < m.rows && 0 <= j < m.cols ==>
               Slot(m.rows, i, j) < |r| && r[Slot(m.rows, i, j)] == m.entries[i][j]
    ensures r == ColumnMajor(m)
  {
    forall k | 0 <= k < |r| ensures r[k] == ColumnMajor(m)[k] {
      SlotCovered(m.rows, m.cols, k);
      var i, j := k % m.rows, k / m.rows;
      ColumnMajorSlot(m, i, j);
      assert r[Slot(m.rows, i, j)] == m.entries[i][j];
    }
  }

  /**
   * `convertForGPU()`: a buffer of `rows * cols` slots, filled row by row with
   * `C[j*rows + i] = entries[i][j]`; every slot is written exactly once, so the
   * buffer is the column-major layout.
   */
  method ConvertForGPU(m: Mat) returns (r: seq<real>)
    requires Wf(m)
    ensures r == ColumnMajor(m)
    ensures |r| == m.rows * m.cols
    ensures forall i, j :: 0 <= i < m.rows && 0 <= j < m.cols ==>
              j * m.rows + i < |r| && r[j * m.rows + i] == m.entries[i][j]
  {
    var C := new real[m.rows * m.cols];
    for i := 0 to m.rows
      invariant forall i', j' :: 0 <= i' < i && 0 <= j' < m.cols ==>
                Slot(m.rows, i', j') < C.Length && C[Slot(m.rows, i', j')] == m.entries[i'][j']
    {
      for j := 0 to m.cols
        invariant forall i', j' :: 0 <= i' < i && 0 <= j' < m.cols ==>
                Slot(m.rows, i', j') < C.Length && C[Slot(m.rows, i', j')] == m.entries[i'][j']
        invariant forall j' :: 0 <= j' < j ==> Slot(m.rows, i, j') < C.Length && C[Slot(m.rows, i, j')] == m.entries[i][j']
      {
        SlotInRange(m.rows, m.cols, i, j);
        forall i', j' | 0 <= i' < m.rows && 0 <= j' < m.cols && (i', j') != (i, j)
          ensures Slot(m.rows, i', j') != Slot(m.rows, i, j)
        {
          SlotsDistinct(m.rows, i, j, i', j');
        }
        C[Slot(m.rows, i, j)] := m.entries[i][j];
      }
    }
    r := C[..];
    BufferIsColumnMajor(m, r);
  }

  /** Reads a column-major buffer back into a row-major matrix. */
  function FromColumnMajor(buf: seq<real>, rows: nat, cols: nat): (m: Mat)
    requires rows > 0 && |buf| == rows * cols
    ensures Wf(m) && m.rows == rows && m.cols == cols
  {
    NewMat(seq(rows, i requires 0 <= i < rows =>
      seq(cols, j requires 0 <= j < cols => SlotInRange(rows, cols, i, j); buf[j * rows + i])))
  }

  /** Reading the GPU layout back as column-major recovers the matrix. */
  lemma GPULayoutRoundTrip(m: Mat)
    requires Wf(m)
    ensures FromColumnMajor(ColumnMajor(m), m.rows, m.cols) == m
  {
    var back := FromColumnMajor(ColumnMajor(m), m.rows, m.cols);
    forall i | 0 <= i < m.rows ensures back.entries[i] == m.entries[i] {
      forall j | 0 <= j < m.cols ensures back.entries[i][j] == m.entries[i][j] {
        ColumnMajorSlot(m, i, j);
      }
    }
  }
}
