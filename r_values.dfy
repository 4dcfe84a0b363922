/** The two kinds of R object the C routines take apart. */
module RValues {

  /** An R numeric array: its elements, column-major, and its `dim`
      attribute. */
  datatype RealArray = RealArray(data: array<real>, dims: seq<nat>)

  /** An R native raster: an integer matrix of packed pixels, row-major,
      with its dimensions and whether it carries the `nativeRaster` class. */
  datatype NativeRaster = NativeRaster(data: array<int>, height: nat, width: nat, isNativeRaster: bool)
}
