/** 4x4 pose matrices as the actors store them (`user_matrix`), and the two
    fixed reflections the applications left-multiply onto them. */
module Pose {

  /** A row of four entries. */
  datatype Row = Row(c0: real, c1: real, c2: real, c3: real)

  /** A 4x4 matrix, row by row. */
  datatype Matrix4 = Matrix4(r0: Row, r1: Row, r2: Row, r3: Row)

  /** A vector of three entries (a translation). */
  datatype Vec3 = Vec3(x: real, y: real, z: real)

  /** A 3x3 matrix, row by row (a rotation block, the camera intrinsics). */
  datatype Matrix3 = Matrix3(r0: Vec3, r1: Vec3, r2: Vec3)

  /** Entry j of a row. */
  function At(row: Row, j: nat): real
    requires j < 4
  {
    match j
    case 0 => row.c0
    case 1 => row.c1
    case 2 => row.c2
    case _ => row.c3
  }

  /** Row i of a matrix. */
  function RowAt(m: Matrix4, i: nat): Row
    requires i < 4
  {
    match i
    case 0 => m.r0
    case 1 => m.r1
    case 2 => m.r2
    case _ => m.r3
  }

  /** Entry (i, j) of a matrix. */
  function Entry(m: Matrix4, i: nat, j: nat): real
    requires i < 4 && j < 4
  {
    At(RowAt(m, i), j)
  }

  /** The diagonal matrix diag(d0, d1, d2, d3). */
  function Diagonal(d0: real, d1: real, d2: real, d3: real): (r: Matrix4)
    ensures forall i: nat, j: nat :: i < 4 && j < 4 && i != j ==> Entry(r, i, j) == 0.0
    ensures Entry(r, 0, 0) == d0 && Entry(r, 1, 1) == d1 && Entry(r, 2, 2) == d2 && Entry(r, 3, 3) == d3
  {
    Matrix4(Row(d0, 0.0, 0.0, 0.0), Row(0.0, d1, 0.0, 0.0), Row(0.0, 0.0, d2, 0.0), Row(0.0, 0.0, 0.0, d3))
  }

  /** `np.eye(4)`. */
  function Identity(): Matrix4 {
    Diagonal(1.0, 1.0, 1.0, 1.0)
  }

  /** diag(-1, 1, 1, 1): the reflection across x. */
  function ReflectX(): Matrix4 {
    Diagonal(-1.0, 1.0, 1.0, 1.0)
  }

  /** diag(1, -1, 1, 1): the reflection across y. */
  function ReflectY(): Matrix4 {
    Diagonal(1.0, -1.0, 1.0, 1.0)
  }

  /** Entry (i, j) of the product a · b. */
  function ProductEntry(a: Matrix4, b: Matrix4, i: nat, j: nat): real
    requires i < 4 && j < 4
  {
    Entry(a, i, 0) * Entry(b, 0, j) + Entry(a, i, 1) * Entry(b, 1, j)
      + Entry(a, i, 2) * Entry(b, 2, j) + Entry(a, i, 3) * Entry(b, 3, j)
  }

  /** Row i of the product a · b. */
  function ProductRow(a: Matrix4, b: Matrix4, i: nat): Row
    requires i < 4
  {
    Row(ProductEntry(a, b, i, 0), ProductEntry(a, b, i, 1), ProductEntry(a, b, i, 2), ProductEntry(a, b, i, 3))
  }

  /** The matrix product a · b (numpy's `a @ b`). */
  function MatMul(a: Matrix4, b: Matrix4): Matrix4 {
    Matrix4(ProductRow(a, b, 0), ProductRow(a, b, 1), ProductRow(a, b, 2), ProductRow(a, b, 3))
  }

  /** A row with every entry negated. */
  function Negated(row: Row): Row {
    Row(-row.c0, -row.c1, -row.c2, -row.c3)
  }

  /** Rx · m: the x reflection applied on the left, written as what it does:
      row 0 (the x row) negated and the other three rows kept.
      ReflectXProduct shows that this is the product with diag(-1, 1, 1, 1). */
  function MirrorX(m: Matrix4): Matrix4 {
    m.(r0 := Negated(m.r0))
  }

  /** Ry · m: row 1 (the y row) negated and the other three rows kept.
      ReflectYProduct shows that this is the product with diag(1, -1, 1, 1). */
  function MirrorY(m: Matrix4): Matrix4 {
    m.(r1 := Negated(m.r1))
  }

  /** Left-multiplying by diag(-1, 1, 1, 1) negates exactly row 0 and keeps
      the other rows. */
  lemma ReflectXProduct(m: Matrix4)
    ensures MatMul(ReflectX(), m) == MirrorX(m)
    ensures forall j: nat :: j < 4 ==> Entry(MirrorX(m), 0, j) == -Entry(m, 0, j)
    ensures forall i: nat, j: nat :: 1 <= i < 4 && j < 4 ==> Entry(MirrorX(m), i, j) == Entry(m, i, j)
  {
  }

  /** Left-multiplying by diag(1, -1, 1, 1) negates exactly row 1 and keeps
      the other rows. */
  lemma ReflectYProduct(m: Matrix4)
    ensures MatMul(ReflectY(), m) == MirrorY(m)
    ensures forall j: nat :: j < 4 ==> Entry(MirrorY(m), 1, j) == -Entry(m, 1, j)
    ensures forall i: nat, j: nat :: i < 4 && i != 1 && j < 4 ==> Entry(MirrorY(m), i, j) == Entry(m, i, j)
  {
  }

  /** Reflecting twice across x gives the matrix back. */
  lemma MirrorXInvolution(m: Matrix4)
    ensures MirrorX(MirrorX(m)) == m
  {
  }

  /** Reflecting twice across y gives the matrix back. */
  lemma MirrorYInvolution(m: Matrix4)
    ensures MirrorY(MirrorY(m)) == m
  {
  }

  /** The order in which the two reflections are applied does not matter. */
  lemma MirrorsCommute(m: Matrix4)
    ensures MirrorX(MirrorY(m)) == MirrorY(MirrorX(m))
  {
  }

  /** The bottom row of a rigid transform in homogeneous coordinates. */
  predicate HasAffineBottomRow(m: Matrix4) {
    m.r3 == Row(0.0, 0.0, 0.0, 1.0)
  }

  /** Neither reflection disturbs the bottom row: it is [0, 0, 0, 1] after
      a reflection exactly when it was before. */
  lemma MirrorKeepsAffineBottomRow(m: Matrix4)
    ensures HasAffineBottomRow(MirrorX(m)) <==> HasAffineBottomRow(m)
    ensures HasAffineBottomRow(MirrorY(m)) <==> HasAffineBottomRow(m)
  {
  }

  /** Rx^k · m: the x reflection applied k times. */
  function MirrorPow(k: nat, m: Matrix4): Matrix4 {
    if k == 0 then m else MirrorX(MirrorPow(k - 1, m))
  }

  /** Only the parity of the number of x reflections matters. */
  lemma {:induction false} MirrorPowParity(k: nat, m: Matrix4)
    ensures MirrorPow(k, m) == if k % 2 == 0 then m else MirrorX(m)
  {
    if k > 0 {
      MirrorPowParity(k - 1, m);
      if (k - 1) % 2 == 1 {
        MirrorXInvolution(m);
      }
    }
  }

  /** `np.vstack((np.hstack((rot, trans)), [0, 0, 0, 1]))` with `trans` the
      translation column: rot in the top-left 3x3 block, trans in the
      right-hand column of the first three rows, [0, 0, 0, 1] below. */
  function ComposePose(rot: Matrix3, trans: Vec3): (r: Matrix4)
    ensures HasAffineBottomRow(r)
  {
    Matrix4(Row(rot.r0.x, rot.r0.y, rot.r0.z, trans.x),
            Row(rot.r1.x, rot.r1.y, rot.r1.z, trans.y),
            Row(rot.r2.x, rot.r2.y, rot.r2.z, trans.z),
            Row(0.0, 0.0, 0.0, 1.0))
  }

  /** The top-left 3x3 block of m. */
  function RotationOf(m: Matrix4): Matrix3 {
    Matrix3(Vec3(m.r0.c0, m.r0.c1, m.r0.c2), Vec3(m.r1.c0, m.r1.c1, m.r1.c2), Vec3(m.r2.c0, m.r2.c1, m.r2.c2))
  }

  /** The right-hand column of the first three rows of m. */
  function TranslationOf(m: Matrix4): Vec3 {
    Vec3(m.r0.c3, m.r1.c3, m.r2.c3)
  }

  /** Composing and splitting are inverse: the blocks come back unchanged, and
      a matrix is rebuilt from its blocks exactly when its bottom row is
      [0, 0, 0, 1]. */
  lemma ComposeRoundTrip(rot: Matrix3, trans: Vec3, m: Matrix4)
    ensures RotationOf(ComposePose(rot, trans)) == rot
    ensures TranslationOf(ComposePose(rot, trans)) == trans
    ensures ComposePose(RotationOf(m), TranslationOf(m)) == m <==> HasAffineBottomRow(m)
  {
  }
}
