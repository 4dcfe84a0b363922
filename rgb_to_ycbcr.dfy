/** src/rgb-to-ycbcr.c: colour conversion of an RGB image to Y, Cb and Cr
    scratch planes, then packing of those planes into the macroblock stream
    of `MacroblockLayout`. `array_to_macroblocks_` takes a planar R numeric
    array (three column-major planes r, g, b); `nr_to_macroblocks_` takes a
    native raster (one packed integer per pixel, row-major). The colour
    formulas themselves are floating point and are given here as a
    `ColourMatrix`: three functions from a pixel to a byte. */
module RgbToYcbcr {
  import opened Arith
  import opened Wrappers
  import opened RValues
  import opened MacroblockLayout
  import opened Planes
  import Packer

  /** The three conversions of a pixel: to luma, to blue difference (Cb)
      and to red difference (Cr), each truncated to a byte. */
  datatype ColourMatrix<-P> = ColourMatrix(luma: P -> byte, blueDiff: P -> byte, redDiff: P -> byte)

  /** A pixel of a planar array: its red, green and blue values. */
  datatype Rgb = Rgb(r: real, g: real, b: real)

  datatype PackError =
    | BadDims                                // not a 3- or 4-dimensional array holding three planes
    | NotNativeRaster                        // not a matrix of class `nativeRaster`
    | NotMultipleOf16                        // height or width not a multiple of 16
    | LengthMismatch(actual: int, expected: int)  // output vector of the wrong length

  /** The pixels of a planar image of n pixels, in the array's column-major
      order: pixel i is element i of each of the first three planes. */
  function PlanarImage(data: seq<real>, n: nat): (img: seq<Rgb>)
    requires 3 * n <= |data|
    ensures |img| == n
    ensures forall i :: 0 <= i < n ==> img[i] == Rgb(data[i], data[n + i], data[2 * n + i])
  {
    seq(n, i requires 0 <= i < n => Rgb(data[i], data[n + i], data[2 * n + i]))
  }

  /** Only the first three planes are read: arrays that agree on them give
      the same image, whatever they hold beyond. */
  lemma PlanarImageFirstPlanes(data: seq<real>, data': seq<real>, n: nat)
    requires 3 * n <= |data| && 3 * n <= |data'| && data[..3 * n] == data'[..3 * n]
    ensures PlanarImage(data, n) == PlanarImage(data', n)
  {
    forall i | 0 <= i < n
      ensures PlanarImage(data, n)[i] == PlanarImage(data', n)[i]
    {
      assert data[i] == data[..3 * n][i] && data'[i] == data'[..3 * n][i];
      assert data[n + i] == data[..3 * n][n + i] && data'[n + i] == data'[..3 * n][n + i];
      assert data[2 * n + i] == data[..3 * n][2 * n + i] && data'[2 * n + i] == data'[..3 * n][2 * n + i];
    }
  }

  /** The `dim` test of `array_to_macroblocks_` as the code makes it: only the
      number of dimensions is checked. */
  predicate DimsAcceptedAsWritten(dims: seq<nat>)
  {
    |dims| == 3 || |dims| == 4
  }

  /** The test its error message describes: a 3- or 4-dimensional array whose
      elements include the three h x w planes the conversion reads. */
  predicate PlanarDimsOk(dims: seq<nat>)
  {
    DimsAcceptedAsWritten(dims) && 3 * (dims[0] * dims[1]) <= Product(dims)
  }

  /** As written, a 16 x 16 array with only two planes passes the `dim` test
      and the alignment test, yet the colour loops read its g and b planes
      at offsets up to 3*256, past its 512 elements; the length check on the
      output comes only after those reads. */
  lemma AsWrittenReadsPastArray()
    ensures DimsAcceptedAsWritten([16, 16, 2]) && Aligned(16, 16)
    ensures Product([16, 16, 2]) == 512 && 3 * (16 * 16) == 768
    ensures !PlanarDimsOk([16, 16, 2])
  {
    Product3([16, 16, 2]);
  }

  /** The corrected test admits every array with at least three full planes,
      however its extra dimensions are shaped. */
  lemma PlanarDimsOkExactly(h: nat, w: nat, planes: nat)
    ensures PlanarDimsOk([h, w, planes]) <==> (h * w == 0 || planes >= 3)
  {
    Product3([h, w, planes]);
    if h * w > 0 && planes < 3 {
      MulMonotone(planes, 2, h * w);
    } else if planes >= 3 {
      MulMonotone(3, planes, h * w);
    }
  }

  // ---------------------------------------------------------------------
  // Colour planes
  // ---------------------------------------------------------------------

  /** The luma loop of `array_to_macroblocks_`: one sample per pixel, in the
      array's own column-major order. */
  method PlanarLuma(m: ColourMatrix<Rgb>, data: seq<real>, n: nat) returns (y: array<byte>)
    requires 3 * n <= |data|
    ensures fresh(y) && y.Length == n
    ensures forall i :: 0 <= i < n ==> y[i] == m.luma(PlanarImage(data, n)[i])
  {
    y := new byte[n];
    for i := 0 to n
      invariant forall j :: 0 <= j < i ==> y[j] == m.luma(PlanarImage(data, n)[j])
    {
      y[i] := m.luma(Rgb(data[i], data[n + i], data[2 * n + i]));
    }
  }

  /** The chroma loop of `array_to_macroblocks_`: column by column, every
      second pixel of every second column, each converted and appended to
      Cb and Cr; so each chroma plane is column-major and sample k comes
      from pixel ChromaSource(ColumnMajor, h, w, k). */
  method PlanarChroma(m: ColourMatrix<Rgb>, data: seq<real>, h: nat, w: nat) returns (cb: array<byte>, cr: array<byte>)
    requires h % 2 == 0 && w % 2 == 0 && 3 * (h * w) <= |data|
    ensures fresh(cb) && fresh(cr)
    ensures ChromaPlanes(m, PlanarImage(data, h * w), h, w, ColumnMajor, cb[..], cr[..])
  {
    MulNonNegative(h, w);
    MulNonNegative(h / 2, w / 2);
    var n: nat := h * w;
    ghost var img, src := PlanarImage(data, n), ChromaSources(ColumnMajor, h, w);
    cb := new byte[(h / 2) * (w / 2)];
    cr := new byte[(h / 2) * (w / 2)];
    var k: nat, base: nat := 0, 0;
    var col := 0;
    while col < w
      invariant col % 2 == 0 && col <= w
      invariant k == (col / 2) * (h / 2) && base == col * h
      invariant SamplesDone(m, img, src, cb[..], cr[..], k)
    {
      ColumnSources(h, w, col, k, base);
      k := PlanarChromaColumn(m, data, n, src, h, k, base, cb, cr);
      NextLinePair(col, w, h);
      col, base := col + 2, base + 2 * h;
    }
    assert col == w;
    assert k == (w / 2) * (h / 2);
    assert k == (h / 2) * (w / 2);
  }

  /** One pass of the inner loop of PlanarChroma: the `len` even rows of a
      column whose pixels start at `base`, appended from cursor k0. */
  method PlanarChromaColumn(m: ColourMatrix<Rgb>, data: seq<real>, n: nat, ghost src: seq<nat>,
                            len: nat, k0: nat, base: nat, cb: array<byte>, cr: array<byte>) returns (k: nat)
    requires 3 * n <= |data| && len % 2 == 0 && base + len <= n
    requires k0 + len / 2 <= |src| && forall r :: 0 <= r < len / 2 ==> src[k0 + r] == base + 2 * r
    requires cb != cr && SamplesDone(m, PlanarImage(data, n), src, cb[..], cr[..], k0)
    modifies cb, cr
    ensures k == k0 + len / 2
    ensures SamplesDone(m, PlanarImage(data, n), src, cb[..], cr[..], k)
    ensures cb[k..] == old(cb[k..])
    ensures cr[k..] == old(cr[k..])
  {
    ghost var img := PlanarImage(data, n);
    k := k0;
    var row := 0;
    while row < len
      invariant row % 2 == 0 && row <= len
      invariant k == k0 + row / 2
      invariant SamplesDone(m, img, src, cb[..], cr[..], k)
      invariant cb[k..] == old(cb[k..])
      invariant cr[k..] == old(cr[k..])
    {
      var i := base + row;
      assert src[k0 + row / 2] == base + 2 * (row / 2);
      var px := Rgb(data[i], data[n + i], data[2 * n + i]);
      ghost var cb0, cr0 := cb[..], cr[..];
      cb[k] := m.blueDiff(px);
      cr[k] := m.redDiff(px);
      SamplesStep(m, img, src, cb0, cr0, cb[..], cr[..], k);
      k, row := k + 1, row + 2;
    }
  }

  /** The luma loop of `nr_to_macroblocks_`: one sample per packed pixel, in
      the raster's row-major order. */
  method NativeLuma(m: ColourMatrix<int>, data: seq<int>, n: nat) returns (y: array<byte>)
    requires n <= |data|
    ensures fresh(y) && y.Length == n
    ensures forall i :: 0 <= i < n ==> y[i] == m.luma(data[i])
  {
    y := new byte[n];
    for i := 0 to n
      invariant forall j :: 0 <= j < i ==> y[j] == m.luma(data[j])
    {
      y[i] := m.luma(data[i]);
    }
  }

  /** The chroma loop of `nr_to_macroblocks_`: row by row, every second
      pixel of every second row; so each chroma plane is row-major and
      sample k comes from pixel ChromaSource(RowMajor, h, w, k). */
  method NativeChroma(m: ColourMatrix<int>, data: seq<int>, h: nat, w: nat) returns (cb: array<byte>, cr: array<byte>)
    requires h % 2 == 0 && w % 2 == 0 && |data| == h * w
    ensures fresh(cb) && fresh(cr)
    ensures ChromaPlanes(m, data, h, w, RowMajor, cb[..], cr[..])
  {
    ghost var src := ChromaSources(RowMajor, h, w);
    MulNonNegative(h / 2, w / 2);
    cb := new byte[(h / 2) * (w / 2)];
    cr := new byte[(h / 2) * (w / 2)];
    var k: nat, base: nat := 0, 0;
    var row := 0;
    while row < h
      invariant row % 2 == 0 && row <= h
      invariant k == (row / 2) * (w / 2) && base == row * w
      invariant SamplesDone(m, data, src, cb[..], cr[..], k)
    {
      RowSources(h, w, row, k, base);
      k := NativeChromaRow(m, data, src, w, k, base, cb, cr);
      NextLinePair(row, h, w);
      row, base := row + 2, base + 2 * w;
    }
    assert row == h;
    assert k == (h / 2) * (w / 2);
  }

  /** One pass of the inner loop of NativeChroma: the `len` even columns of
      a row whose pixels start at `base`, appended from cursor k0. */
  method NativeChromaRow(m: ColourMatrix<int>, data: seq<int>, ghost src: seq<nat>,
                         len: nat, k0: nat, base: nat, cb: array<byte>, cr: array<byte>) returns (k: nat)
    requires len % 2 == 0 && base + len <= |data|
    requires k0 + len / 2 <= |src| && forall c :: 0 <= c < len / 2 ==> src[k0 + c] == base + 2 * c
    requires cb != cr && SamplesDone(m, data, src, cb[..], cr[..], k0)
    modifies cb, cr
    ensures k == k0 + len / 2
    ensures SamplesDone(m, data, src, cb[..], cr[..], k)
    ensures cb[k..] == old(cb[k..])
    ensures cr[k..] == old(cr[k..])
  {
    k := k0;
    var col := 0;
    while col < len
      invariant col % 2 == 0 && col <= len
      invariant k == k0 + col / 2
      invariant SamplesDone(m, data, src, cb[..], cr[..], k)
      invariant cb[k..] == old(cb[k..])
      invariant cr[k..] == old(cr[k..])
    {
      var i := base + col;
      assert src[k0 + col / 2] == base + 2 * (col / 2);
      ghost var cb0, cr0 := cb[..], cr[..];
      cb[k] := m.blueDiff(data[i]);
      cr[k] := m.redDiff(data[i]);
      SamplesStep(m, data, src, cb0, cr0, cb[..], cr[..], k);
      k, col := k + 1, col + 2;
    }
  }

  /** Both chroma planes, stored in `order`, hold for each chroma sample the
      conversion of the top-left pixel of its 2x2 group of the image. */
  ghost predicate ChromaPlanes<P>(m: ColourMatrix<P>, img: seq<P>, h: nat, w: nat, order: Order,
                                  cb: seq<byte>, cr: seq<byte>)
    requires h % 2 == 0 && w % 2 == 0
  {
    SamplesDone(m, img, ChromaSources(order, h, w), cb, cr, (h / 2) * (w / 2))
  }

  /** Chroma samples 0..k-1 of both planes hold the conversions of their
      source pixels `src`. */
  ghost predicate SamplesDone<P>(m: ColourMatrix<P>, img: seq<P>, src: seq<nat>,
                                 cb: seq<byte>, cr: seq<byte>, k: nat)
  {
    k <= |src| == |cb| == |cr| &&
    forall j :: 0 <= j < k ==>
      src[j] < |img| && cb[j] == m.blueDiff(img[src[j]]) && cr[j] == m.redDiff(img[src[j]])
  }

  lemma SamplesStep<P>(m: ColourMatrix<P>, img: seq<P>, src: seq<nat>,
                       cb: seq<byte>, cr: seq<byte>, cb': seq<byte>, cr': seq<byte>, k: nat)
    requires SamplesDone(m, img, src, cb, cr, k) && k < |src| && src[k] < |img|
    requires cb' == cb[k := m.blueDiff(img[src[k]])]
    requires cr' == cr[k := m.redDiff(img[src[k]])]
    ensures SamplesDone(m, img, src, cb', cr', k + 1)
  {
  }

  // ---------------------------------------------------------------------
  // The macroblock stream of an image
  // ---------------------------------------------------------------------

  /** Output byte i of the stream for an aligned h x w image whose pixels
      `img` are stored in `order`. */
  function StreamByte<P>(m: ColourMatrix<P>, order: Order, img: seq<P>, h: nat, w: nat, i: nat): byte
    requires Aligned(h, w) && |img| == h * w && i < StreamLength(h, w)
  {
    ImageSlot(m, order, img, h, w, Decode(h, w, i))
  }

  /** The byte a slot carries for the image: a luma slot (r, c) the luma of
      pixel (r, c); a chroma slot (r, c) the blue or red difference of pixel
      (2r, 2c), the top-left pixel of its 2x2 group; a separator slot its
      fixed byte. */
  function ImageSlot<P>(m: ColourMatrix<P>, order: Order, img: seq<P>, h: nat, w: nat, s: Slot): byte
    requires |img| == h * w && ValidSlot(h, w, s)
  {
    match s
    case Luma(r, c) => m.luma(img[PlaneIndex(order, h, w, r, c)])
    case Cb(r, c) => m.blueDiff(img[PlaneIndex(order, h, w, 2 * r, 2 * c)])
    case Cr(r, c) => m.redDiff(img[PlaneIndex(order, h, w, 2 * r, 2 * c)])
    case Separator(_, b) => Packer.SeparatorByte(b)
  }

  /** Packing the planes the colour loops produce yields the stream of the
      image: the scratch planes are the image's conversions, each stored in
      the image's own order. */
  lemma StreamOfPlanes<P>(m: ColourMatrix<P>, order: Order, img: seq<P>, h: nat, w: nat,
                          y: seq<byte>, cb: seq<byte>, cr: seq<byte>, i: nat)
    requires Aligned(h, w) && |img| == h * w && i < StreamLength(h, w)
    requires |y| == h * w && forall j :: 0 <= j < h * w ==> y[j] == m.luma(img[j])
    requires h % 2 == 0 && w % 2 == 0 && ChromaPlanes(m, img, h, w, order, cb, cr)
    ensures Packer.PlanesFit(h, w, y, cb, cr)
    ensures Packer.PackedByte(order, h, w, y, cb, cr, i) == StreamByte(m, order, img, h, w, i)
  {
    SlotOfPlanes(m, order, img, h, w, y, cb, cr, Decode(h, w, i));
  }

  /** Slot by slot: the byte packed from the planes is the image's byte. */
  lemma SlotOfPlanes<P>(m: ColourMatrix<P>, order: Order, img: seq<P>, h: nat, w: nat,
                        y: seq<byte>, cb: seq<byte>, cr: seq<byte>, s: Slot)
    requires h % 2 == 0 && w % 2 == 0 && |img| == h * w && ValidSlot(h, w, s)
    requires |y| == h * w && forall j :: 0 <= j < h * w ==> y[j] == m.luma(img[j])
    requires ChromaPlanes(m, img, h, w, order, cb, cr)
    ensures Packer.PlanesFit(h, w, y, cb, cr)
    ensures Packer.PackedSlot(order, h, w, y, cb, cr, s) == ImageSlot(m, order, img, h, w, s)
  {
    match s
    case Luma(r, c) =>
    case Cb(r, c) => ChromaTopLeft(order, h, w, r, c);
    case Cr(r, c) => ChromaTopLeft(order, h, w, r, c);
    case Separator(_, _) =>
  }

  /** The length the code demands is non-negative exactly when the image has
      at least one macroblock: an empty image (height or width 0 passes the
      alignment test) is always refused by the length check. */
  lemma EmptyImageRejected(h: nat, w: nat)
    requires Aligned(h, w)
    ensures MacroblocksLength(h, w) >= 0 <==> BlockCount(h, w) > 0
    ensures BlockCount(h, w) == 0 ==> MacroblocksLength(h, w) == -2
  {
    MacroblocksLengthValue(h, w);
  }

  // ---------------------------------------------------------------------
  // Entry points
  // ---------------------------------------------------------------------

  /** `array_to_macroblocks_`: check the array's shape, convert its colours
      into scratch planes, check the output vector's length, then pack the
      planes into it. On an error the output is left untouched. The shape
      check is the one evidently intended (see DimsAcceptedAsWritten). */
  method ArrayToMacroblocks(m: ColourMatrix<Rgb>, arr: RealArray, raw: array<byte>)
    returns (res: Result<array<byte>, PackError>)
    requires arr.data.Length == Product(arr.dims)
    modifies raw
    ensures res.Err? ==> unchanged(raw)
    ensures !PlanarDimsOk(arr.dims) ==> res == Err(BadDims)
    ensures PlanarDimsOk(arr.dims) ==>
      var h, w := arr.dims[0], arr.dims[1];
      if !Aligned(h, w) then res == Err(NotMultipleOf16)
      else if raw.Length != MacroblocksLength(h, w) then
        res == Err(LengthMismatch(raw.Length, MacroblocksLength(h, w)))
      else
        res == Ok(raw) && raw.Length == StreamLength(h, w) &&
        forall i :: 0 <= i < raw.Length ==>
          raw[i] == StreamByte(m, ColumnMajor, PlanarImage(arr.data[..], h * w), h, w, i)
  {
    if !PlanarDimsOk(arr.dims) {
      return Err(BadDims);
    }
    var h, w := arr.dims[0], arr.dims[1];
    if !Aligned(h, w) {
      return Err(NotMultipleOf16);
    }
    AlignedEven(h, w);
    var data := arr.data[..];
    var y := PlanarLuma(m, data, h * w);
    var cb, cr := PlanarChroma(m, data, h, w);
    var expected := MacroblocksLength(h, w);
    if raw.Length != expected {
      return Err(LengthMismatch(raw.Length, expected));
    }
    EmptyImageRejected(h, w);
    MacroblocksLengthValue(h, w);
    ghost var img := PlanarImage(data, h * w);
    var ys, cbs, crs := y[..], cb[..], cr[..];
    StreamOfPlanes(m, ColumnMajor, img, h, w, ys, cbs, crs, 0);
    Packer.Pack(ColumnMajor, h, w, ys, cbs, crs, raw);
    forall i | 0 <= i < raw.Length
      ensures raw[i] == StreamByte(m, ColumnMajor, img, h, w, i)
    {
      StreamOfPlanes(m, ColumnMajor, img, h, w, ys, cbs, crs, i);
    }
    return Ok(raw);
  }

  /** `nr_to_macroblocks_`: the same steps on a native raster, whose pixels
      are already row-major. */
  method NrToMacroblocks(m: ColourMatrix<int>, nr: NativeRaster, raw: array<byte>)
    returns (res: Result<array<byte>, PackError>)
    requires nr.data.Length == nr.height * nr.width
    modifies raw
    ensures res.Err? ==> unchanged(raw)
    ensures !nr.isNativeRaster ==> res == Err(NotNativeRaster)
    ensures nr.isNativeRaster ==>
      var h, w := nr.height, nr.width;
      if !Aligned(h, w) then res == Err(NotMultipleOf16)
      else if raw.Length != MacroblocksLength(h, w) then
        res == Err(LengthMismatch(raw.Length, MacroblocksLength(h, w)))
      else
        res == Ok(raw) && raw.Length == StreamLength(h, w) &&
        forall i :: 0 <= i < raw.Length ==>
          raw[i] == StreamByte(m, RowMajor, nr.data[..], h, w, i)
  {
    if !nr.isNativeRaster {
      return Err(NotNativeRaster);
    }
    var h, w := nr.height, nr.width;
    if !Aligned(h, w) {
      return Err(NotMultipleOf16);
    }
    AlignedEven(h, w);
    var data := nr.data[..];
    var y := NativeLuma(m, data, h * w);
    var cb, cr := NativeChroma(m, data, h, w);
    var expected := MacroblocksLength(h, w);
    if raw.Length != expected {
      return Err(LengthMismatch(raw.Length, expected));
    }
    EmptyImageRejected(h, w);
    MacroblocksLengthValue(h, w);
    var ys, cbs, crs := y[..], cb[..], cr[..];
    StreamOfPlanes(m, RowMajor, data, h, w, ys, cbs, crs, 0);
    Packer.Pack(RowMajor, h, w, ys, cbs, crs, raw);
    forall i | 0 <= i < raw.Length
      ensures raw[i] == StreamByte(m, RowMajor, data, h, w, i)
    {
      StreamOfPlanes(m, RowMajor, data, h, w, ys, cbs, crs, i);
    }
    return Ok(raw);
  }
}
