/** Field of view and the mosaic rule of the instrument tab of app.py. */
module Optics {
  import opened Wrappers

  /** numpy.pi: the double nearest to pi, written out exactly. The general
      lemmas below use only that it is positive; the worked example of the
      database rig (DefaultRigFrame) needs its value. */
  const Pi: real := 3.141592653589793115997963468544185161590576171875

  const DegreesPerHalfTurn: real := 180.0
  const ArcminPerDegree: real := 60.0
  /** A target wider than this many frame widths calls for a mosaic. */
  const MosaicFactor: real := 1.5

  datatype Telescope = Telescope(focalLength: real, aperture: real)
  datatype Camera = Camera(sensorWidthMm: real, sensorHeightMm: real, pixelSizeUm: real)

  /** The one entry of TELESCOPES_DB: SW Evolux 62 ED with a 0.85x reducer. */
  const Evolux62: Telescope := Telescope(340.0, 62.0)
  /** The one entry of CAMERAS_DB: ZWO ASI 183 MC Pro. */
  const Asi183: Camera := Camera(13.2, 8.8, 2.4)

  /** calculate_fov: `(sensor / focal) * (180 / pi)` degrees, the
      small-angle form. A zero focal length makes Python raise
      ZeroDivisionError. Otherwise the result is the angle, in degrees,
      whose radian measure is sensor / focal. */
  function Fov(focalMm: real, sensorMm: real): (r: Option<real>)
    ensures r.None? <==> focalMm == 0.0
    ensures r.Some? ==> r.value * Pi * focalMm == DegreesPerHalfTurn * sensorMm
  {
    if focalMm == 0.0 then None
    else Some((sensorMm / focalMm) * (DegreesPerHalfTurn / Pi))
  }

  /** A longer sensor side sees a wider field through the same optics. */
  lemma FovIncreasingInSensor(focalMm: real, s1: real, s2: real)
    requires focalMm > 0.0 && s1 < s2
    ensures Fov(focalMm, s1).value < Fov(focalMm, s2).value
  {
    var k := DegreesPerHalfTurn / Pi;
    assert k > 0.0;
    assert s1 / focalMm < s2 / focalMm;
  }

  /** A longer focal length narrows the field of a positive sensor. */
  lemma FovDecreasingInFocal(f1: real, f2: real, sensorMm: real)
    requires 0.0 < f1 < f2 && sensorMm > 0.0
    ensures Fov(f2, sensorMm).value < Fov(f1, sensorMm).value
  {
    var k := DegreesPerHalfTurn / Pi;
    assert k > 0.0;
    assert sensorMm / f2 * f2 == sensorMm == sensorMm / f1 * f1;
    assert sensorMm / f2 < sensorMm / f1;
  }

  /** The field scales linearly with the sensor side. */
  lemma FovLinearInSensor(focalMm: real, sensorMm: real, c: real)
    requires focalMm != 0.0
    ensures Fov(focalMm, c * sensorMm).value == c * Fov(focalMm, sensorMm).value
  {
    assert (c * sensorMm) / focalMm == c * (sensorMm / focalMm);
  }

  /** The mosaic warning: the target's size in arcminutes exceeds one and a
      half frame widths. The frame height is not consulted. */
  predicate NeedsMosaic(sizeArcmin: real, fovWidthDeg: real) {
    sizeArcmin > fovWidthDeg * ArcminPerDegree * MosaicFactor
  }

  /** Python's ZeroDivisionError in calculate_fov. */
  datatype OpticsError = ZeroFocalLength

  datatype Framing = Framing(fovWidthDeg: real, fovHeightDeg: real, mosaic: bool)

  /** The figures of the instrument tab for one telescope, camera and
      target size. */
  function Frame(scope: Telescope, camera: Camera, sizeArcmin: real): (r: Result<Framing, OpticsError>)
    ensures r.Failure? <==> scope.focalLength == 0.0
    ensures r.Success? ==>
      && Some(r.value.fovWidthDeg) == Fov(scope.focalLength, camera.sensorWidthMm)
      && Some(r.value.fovHeightDeg) == Fov(scope.focalLength, camera.sensorHeightMm)
      && (r.value.mosaic <==> NeedsMosaic(sizeArcmin, r.value.fovWidthDeg))
  {
    if scope.focalLength == 0.0 then Failure(ZeroFocalLength)
    else
      var w := Fov(scope.focalLength, camera.sensorWidthMm).value;
      var h := Fov(scope.focalLength, camera.sensorHeightMm).value;
      Success(Framing(w, h, NeedsMosaic(sizeArcmin, w)))
  }

  /** Width and height use the same focal length, so the wider sensor side
      gives the wider field. */
  lemma FrameWidthAtLeastHeight(scope: Telescope, camera: Camera, sizeArcmin: real)
    requires scope.focalLength > 0.0 && camera.sensorWidthMm >= camera.sensorHeightMm
    ensures Frame(scope, camera, sizeArcmin).Success?
    ensures Frame(scope, camera, sizeArcmin).value.fovWidthDeg >= Frame(scope, camera, sizeArcmin).value.fovHeightDeg
  {
    if camera.sensorWidthMm > camera.sensorHeightMm {
      FovIncreasingInSensor(scope.focalLength, camera.sensorHeightMm, camera.sensorWidthMm);
    }
  }

  /** A wider field never turns a target that fits into one that needs a
      mosaic, and a smaller target never does either. */
  lemma MosaicMonotone(size1: real, size2: real, w1: real, w2: real)
    requires size2 <= size1 && w1 <= w2
    ensures NeedsMosaic(size2, w2) ==> NeedsMosaic(size1, w1)
  {
  }

  /** Only the sensor width decides the mosaic verdict. */
  lemma MosaicIgnoresHeight(scope: Telescope, c1: Camera, c2: Camera, sizeArcmin: real)
    requires scope.focalLength != 0.0 && c1.sensorWidthMm == c2.sensorWidthMm
    ensures Frame(scope, c1, sizeArcmin).value.mosaic == Frame(scope, c2, sizeArcmin).value.mosaic
  {
  }

  /** A longer focal length can only turn a fitting target into a mosaic,
      never the other way. */
  lemma MosaicMonotoneInFocal(f1: real, f2: real, camera: Camera, sizeArcmin: real)
    requires 0.0 < f1 < f2 && camera.sensorWidthMm > 0.0
    ensures Frame(Telescope(f1, 0.0), camera, sizeArcmin).value.mosaic ==>
            Frame(Telescope(f2, 0.0), camera, sizeArcmin).value.mosaic
  {
    FovDecreasingInFocal(f1, f2, camera.sensorWidthMm);
  }

  /** With the one telescope and camera of the databases the field is about
      2.22 by 1.48 degrees, and targets up to about 200 arcminutes fit. */
  lemma DefaultRigFrame(sizeArcmin: real)
    ensures Frame(Evolux62, Asi183, sizeArcmin).Success?
    ensures 2.22 < Frame(Evolux62, Asi183, sizeArcmin).value.fovWidthDeg < 2.23
    ensures 1.48 < Frame(Evolux62, Asi183, sizeArcmin).value.fovHeightDeg < 1.49
    ensures sizeArcmin <= 200.0 ==> !Frame(Evolux62, Asi183, sizeArcmin).value.mosaic
    ensures sizeArcmin >= 201.0 ==> Frame(Evolux62, Asi183, sizeArcmin).value.mosaic
  {
    var w := Fov(340.0, 13.2).value;
    var h := Fov(340.0, 8.8).value;
    assert w * Pi * 340.0 == 180.0 * 13.2;
    assert h * Pi * 340.0 == 180.0 * 8.8;
  }
}
