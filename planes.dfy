/** Addressing of the scratch planes in src/rgb-to-ycbcr.c. A plane of
    rows x cols samples is stored flat, either column-major (the planar R
    array path: element (r, c) at c*rows + r) or row-major (the native
    raster path: element (r, c) at r*cols + c). The chroma planes hold one
    sample per 2x2 pixel group, taken from the group's top-left pixel. */
module Planes {
  import opened Arith

  datatype Order = ColumnMajor | RowMajor

  /** Flat index of element (r, c) of a rows x cols plane. */
  function PlaneIndex(order: Order, rows: nat, cols: nat, r: nat, c: nat): (k: nat)
    requires r < rows && c < cols
    ensures k < rows * cols
  {
    match order
    case ColumnMajor =>
      CellInBounds(c, r, cols, rows);
      c * rows + r
    case RowMajor =>
      CellInBounds(r, c, rows, cols);
      r * cols + c
  }

  /** Row and column of flat index k of a rows x cols plane. */
  function PlaneCell(order: Order, rows: nat, cols: nat, k: nat): (rc: (nat, nat))
    requires k < rows * cols
    ensures rc.0 < rows && rc.1 < cols
  {
    match order
    case ColumnMajor =>
      LineBelow(k, cols, rows);
      (k % rows, k / rows)
    case RowMajor =>
      LineBelow(k, rows, cols);
      (k / cols, k % cols)
  }

  /** Reading back the cell of an index gives the element it was computed from. */
  lemma CellOfIndex(order: Order, rows: nat, cols: nat, r: nat, c: nat)
    requires r < rows && c < cols
    ensures PlaneCell(order, rows, cols, PlaneIndex(order, rows, cols, r, c)) == (r, c)
  {
    match order
    case ColumnMajor => DivModOf(c, r, rows);
    case RowMajor => DivModOf(r, c, cols);
  }

  /** Every flat index of the plane is the index of its own cell. */
  lemma IndexOfCell(order: Order, rows: nat, cols: nat, k: nat)
    requires k < rows * cols
    ensures var rc := PlaneCell(order, rows, cols, k);
      PlaneIndex(order, rows, cols, rc.0, rc.1) == k
  {
    match order
    case ColumnMajor =>
      LineBelow(k, cols, rows);
      assert k == (k / rows) * rows + k % rows;
    case RowMajor =>
      LineBelow(k, rows, cols);
      assert k == (k / cols) * cols + k % cols;
  }

  /** Pixel-plane index of the pixel chroma sample k is taken from: the
      top-left pixel (2r, 2c) of chroma cell (r, c). The chroma plane is
      h/2 x w/2 and stored in the same order as the pixel plane. */
  function ChromaSource(order: Order, h: nat, w: nat, k: nat): (i: nat)
    requires h % 2 == 0 && w % 2 == 0 && k < (h / 2) * (w / 2)
    ensures i < h * w
  {
    var rc := PlaneCell(order, h / 2, w / 2, k);
    PlaneIndex(order, h, w, 2 * rc.0, 2 * rc.1)
  }

  /** Chroma sample (r, c) comes from pixel (2r, 2c): no averaging over
      the 2x2 group, only its top-left pixel. */
  lemma ChromaTopLeft(order: Order, h: nat, w: nat, r: nat, c: nat)
    requires h % 2 == 0 && w % 2 == 0 && r < h / 2 && c < w / 2
    ensures PlaneIndex(order, h / 2, w / 2, r, c) < (h / 2) * (w / 2)
    ensures ChromaSource(order, h, w, PlaneIndex(order, h / 2, w / 2, r, c)) == PlaneIndex(order, h, w, 2 * r, 2 * c)
  {
    CellOfIndex(order, h / 2, w / 2, r, c);
  }

  /** The source pixel of every chroma sample, in the order the samples
      are stored. */
  function ChromaSources(order: Order, h: nat, w: nat): (src: seq<nat>)
    requires h % 2 == 0 && w % 2 == 0
    ensures |src| == (h / 2) * (w / 2)
    ensures forall k :: 0 <= k < |src| ==> src[k] == ChromaSource(order, h, w, k) && src[k] < h * w
  {
    seq((h / 2) * (w / 2), k requires 0 <= k < (h / 2) * (w / 2) => ChromaSource(order, h, w, k))
  }

  /** Every chroma sample is taken from a pixel whose row and column are
      both even. */
  lemma ChromaSourcesEven(order: Order, h: nat, w: nat, k: nat)
    requires h % 2 == 0 && w % 2 == 0 && k < (h / 2) * (w / 2)
    ensures var rc := PlaneCell(order, h, w, ChromaSources(order, h, w)[k]);
      rc.0 % 2 == 0 && rc.1 % 2 == 0
  {
    var q := PlaneCell(order, h / 2, w / 2, k);
    CellOfIndex(order, h, w, 2 * q.0, 2 * q.1);
  }

  /** Every pixel with even row and column feeds a chroma sample: the one
      at chroma cell (r/2, c/2). */
  lemma ChromaSourcesCover(order: Order, h: nat, w: nat, r: nat, c: nat)
    requires h % 2 == 0 && w % 2 == 0 && r < h && c < w && r % 2 == 0 && c % 2 == 0
    ensures PlaneIndex(order, h / 2, w / 2, r / 2, c / 2) < (h / 2) * (w / 2)
    ensures ChromaSources(order, h, w)[PlaneIndex(order, h / 2, w / 2, r / 2, c / 2)] == PlaneIndex(order, h, w, r, c)
  {
    ChromaTopLeft(order, h, w, r / 2, c / 2);
  }

  /** No pixel feeds two chroma samples. */
  lemma ChromaSourcesInjective(order: Order, h: nat, w: nat, k1: nat, k2: nat)
    requires h % 2 == 0 && w % 2 == 0 && k1 < (h / 2) * (w / 2) && k2 < (h / 2) * (w / 2)
    requires ChromaSources(order, h, w)[k1] == ChromaSources(order, h, w)[k2]
    ensures k1 == k2
  {
    var q1, q2 := PlaneCell(order, h / 2, w / 2, k1), PlaneCell(order, h / 2, w / 2, k2);
    CellOfIndex(order, h, w, 2 * q1.0, 2 * q1.1);
    CellOfIndex(order, h, w, 2 * q2.0, 2 * q2.1);
    assert q1 == q2;
    IndexOfCell(order, h / 2, w / 2, k1);
    IndexOfCell(order, h / 2, w / 2, k2);
  }

  /** The chroma loop of `array_to_macroblocks_` walks column `col` (even)
      down its even rows: the samples it appends from cursor
      k0 = (col/2)*(h/2) come from pixels base, base+2, ... with
      base = col*h, the column's first pixel. */
  lemma ColumnSources(h: nat, w: nat, col: nat, k0: nat, base: nat)
    requires h % 2 == 0 && w % 2 == 0 && col % 2 == 0 && col < w
    requires k0 == (col / 2) * (h / 2) && base == col * h
    ensures k0 + h / 2 <= (h / 2) * (w / 2) && base + h <= h * w
    ensures forall r :: 0 <= r < h / 2 ==> ChromaSources(ColumnMajor, h, w)[k0 + r] == base + 2 * r
  {
    NextLinePair(col, w, h);
    MulMonotone(col / 2 + 1, w / 2, h / 2);
    MulMonotone(col + 2, w, h);
    forall r | 0 <= r < h / 2
      ensures ChromaSources(ColumnMajor, h, w)[k0 + r] == base + 2 * r
    {
      ChromaTopLeft(ColumnMajor, h, w, r, col / 2);
    }
  }

  /** The chroma loop of `nr_to_macroblocks_` walks row `row` (even) along
      its even columns: the samples it appends from cursor
      k0 = (row/2)*(w/2) come from pixels base, base+2, ... with
      base = row*w. */
  lemma RowSources(h: nat, w: nat, row: nat, k0: nat, base: nat)
    requires h % 2 == 0 && w % 2 == 0 && row % 2 == 0 && row < h
    requires k0 == (row / 2) * (w / 2) && base == row * w
    ensures k0 + w / 2 <= (h / 2) * (w / 2) && base + w <= h * w
    ensures forall c :: 0 <= c < w / 2 ==> ChromaSources(RowMajor, h, w)[k0 + c] == base + 2 * c
  {
    NextLinePair(row, h, w);
    MulMonotone(row / 2 + 1, h / 2, w / 2);
    MulMonotone(row + 2, h, w);
    forall c | 0 <= c < w / 2
      ensures ChromaSources(RowMajor, h, w)[k0 + c] == base + 2 * c
    {
      ChromaTopLeft(RowMajor, h, w, row / 2, c);
    }
  }

  /** Moving on by two lines of `len` pixels, short of `bound`, moves the chroma cursor on by
      len/2 samples and the pixel offset by 2*len. */
  lemma NextLinePair(x: nat, bound: nat, len: nat)
    requires x % 2 == 0 && bound % 2 == 0 && x < bound && len % 2 == 0
    ensures x + 2 <= bound
    ensures ((x + 2) / 2) * (len / 2) == (x / 2) * (len / 2) + len / 2
    ensures (x + 2) * len == x * len + 2 * len
  {
    assert (x + 2) / 2 == x / 2 + 1;
  }

  /** `x * h/2` in C is `(x * h) / 2`; with h even it equals x * (h/2). */
  lemma HalfProduct(x: nat, h: nat)
    requires h % 2 == 0
    ensures (x * h) / 2 == x * (h / 2)
  {
    assert x * h == (x * (h / 2)) * 2;
    DivModOf(x * (h / 2), 0, 2);
  }
}
