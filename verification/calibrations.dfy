/** The pixel calibration ImageJ attaches to an image (`ij.measure.Calibration`). */
module Calibrations {

  /**
   * `Default` is a fresh `new Calibration()`, whose contents belong to ImageJ
   * and are not modelled. `Scaled` is one whose unit and pixel size the
   * plugins set themselves.
   */
  datatype Calibration =
    | Default
    | Scaled(unit: string, pixelWidth: real, pixelHeight: real)

  /** Every calibration the plugins build has square pixels. */
  predicate IsIsotropic(c: Calibration)
  {
    c.Scaled? ==> c.pixelWidth == c.pixelHeight
  }

  /** A fresh calibration with the given unit and the same size both ways. */
  function SquarePixels(unit: string, size: real): (c: Calibration)
    ensures c.Scaled? && IsIsotropic(c)
    ensures c.unit == unit && c.pixelWidth == size
  {
    Scaled(unit, size, size)
  }
}
