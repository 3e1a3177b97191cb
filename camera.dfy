/** The camera intrinsics of both applications and the window centre derived
    from them (`set_camera_intrinsics`). */
module Camera {
  import opened Pose
  import opened Registry

  /** K = [[f, 0, width/2], [0, f, height/2], [0, 0, 1]], with Python's true
      division for width/2 and height/2. */
  function Intrinsics(width: int, height: int, focalLength: real): (k: Matrix3)
    ensures k.r0.x == focalLength && k.r1.y == focalLength && k.r2.z == 1.0
    ensures 2.0 * k.r0.z == width as real && 2.0 * k.r1.z == height as real
    ensures k.r0.y == 0.0 && k.r1.x == 0.0 && k.r2.x == 0.0 && k.r2.y == 0.0
  {
    Matrix3(Vec3(focalLength, 0.0, width as real / 2.0),
            Vec3(0.0, focalLength, height as real / 2.0),
            Vec3(0.0, 0.0, 1.0))
  }

  /** The normalised window centre (wcx, wcy) of principal point (cx, cy):
      wcx = -2 (cx - width/2) / width and wcy = 2 (cy - height/2) / height.
      cx and cy are numpy floats, so a zero width or height does not raise:
      numpy yields nan or inf with a RuntimeWarning. A coordinate is None
      exactly when it is such a non-finite value; the other one is still
      computed. */
  function WindowCenter(width: int, height: int, cx: real, cy: real): (r: (Option<real>, Option<real>))
    ensures r.0.None? <==> width == 0
    ensures r.1.None? <==> height == 0
    ensures r.0.Some? ==> (r.0.value == 0.0 <==> 2.0 * cx == width as real)
    ensures r.1.Some? ==> (r.1.value == 0.0 <==> 2.0 * cy == height as real)
  {
    (if width == 0 then None else Some(-2.0 * (cx - width as real / 2.0) / width as real),
     if height == 0 then None else Some(2.0 * (cy - height as real / 2.0) / height as real))
  }

  /** The window centre the applications set from their own intrinsics: the
      principal point is the image centre, so each coordinate is 0 whenever
      its side of the window is not zero. */
  function IntrinsicsWindowCenter(width: int, height: int, focalLength: real): (r: (Option<real>, Option<real>))
    ensures r.0 == if width != 0 then Some(0.0) else None
    ensures r.1 == if height != 0 then Some(0.0) else None
  {
    var k := Intrinsics(width, height, focalLength);
    WindowCenter(width, height, k.r0.z, k.r1.z)
  }
}
