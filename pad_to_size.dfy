/** Block alignment and padding (src/pad-to-size.c).

    `RoundUp` snaps a dimension to a multiple of 16. `PadArray` pads a
    planar, column-major array of at least three planes; `PadNativeRaster`
    pads a packed, row-major native raster. Both return the source itself
    when it is already aligned; otherwise they check or allocate the
    destination, flood it with the fill value and copy the source in at the
    justified offset, one column (planar) or one row (native) at a time. */
module PadToSize {
  import opened Arith
  import opened Wrappers
  import opened RValues
  import Memory
  import MacroblockLayout

  /** `round_up`: the smallest positive multiple of 16 not below v. */
  function RoundUp(v: nat): (r: nat)
    ensures r > 0 && r % MacroblockLayout.MbSize == 0
    ensures v == 0 ==> r == MacroblockLayout.MbSize
    ensures v > 0 ==> v <= r < v + MacroblockLayout.MbSize
  {
    if v == 0 then MacroblockLayout.MbSize
    else if v % MacroblockLayout.MbSize == 0 then v
    else v + MacroblockLayout.MbSize - v % MacroblockLayout.MbSize
  }

  /** No positive multiple of 16 lies between v and RoundUp(v); in
      particular an aligned positive v is left alone. */
  lemma RoundUpLeast(v: nat, m: nat)
    requires m > 0 && m % MacroblockLayout.MbSize == 0 && v <= m
    ensures RoundUp(v) <= m
  {
    if v > 0 {
      var r := RoundUp(v);
      assert r == MacroblockLayout.MbSize * (r / MacroblockLayout.MbSize) && m == MacroblockLayout.MbSize * (m / MacroblockLayout.MbSize);
    }
  }

  /** The justification value clamped to [0, 1], as the C code does it:
      first below, then above. */
  function Clamp01(x: real): (c: real)
    ensures 0.0 <= c <= 1.0
    ensures 0.0 <= x <= 1.0 ==> c == x
    ensures x < 0.0 ==> c == 0.0
    ensures x > 1.0 ==> c == 1.0
  {
    var lo := if x < 0.0 then 0.0 else x;
    if lo > 1.0 then 1.0 else lo
  }

  /** `floor(just * room)` after clamping: how far into the free space of
      `room` elements the source is placed. */
  function Offset(just: real, room: nat): (off: nat)
    ensures off <= room
  {
    var c := Clamp01(just);
    var x := c * room as real;
    FractionOf(c, room as real);
    x.Floor
  }

  lemma FractionOf(c: real, r: real)
    requires 0.0 <= c <= 1.0 && r >= 0.0
    ensures 0.0 <= c * r <= r
  {
    assert r - c * r == (1.0 - c) * r;
  }

  /** Justification 0 places the source at the start, 1 at the end and
      0.5 in the middle, rounding down; values outside [0, 1] act as the
      nearest end. */
  lemma OffsetAnchors(room: nat, just: real)
    ensures Offset(0.0, room) == 0
    ensures Offset(1.0, room) == room
    ensures Offset(0.5, room) == room / 2
    ensures just <= 0.0 ==> Offset(just, room) == 0
    ensures just >= 1.0 ==> Offset(just, room) == room
  {
    var q := room / 2;
    var half := 0.5 * room as real;
    if room % 2 == 0 {
      assert half == q as real;
    } else {
      assert half == q as real + 0.5;
    }
  }

  // ---------------------------------------------------------------------
  // Where the source lands in the padded canvas.

  /** A source of `lines` lines of `len` elements placed in a canvas whose
      lines are `stride` elements long, at line `lineOff` and position
      `posOff` within each line. A line is a column of a planar array and
      a row of a native raster. */
  datatype Window = Window(stride: nat, lineOff: nat, posOff: nat, lines: nat, len: nat)

  /** The window fits a canvas of `canvasLines` lines. */
  predicate Fits(win: Window, canvasLines: nat)
  {
    win.stride > 0 && win.posOff + win.len <= win.stride && win.lineOff + win.lines <= canvasLines
  }

  /** The source element copied to canvas element j, if any. */
  function SourceOf(win: Window, j: nat): (k: Option<nat>)
    requires win.stride > 0
    ensures k.Some? ==> k.value < win.lines * win.len
  {
    var line, pos := j / win.stride, j % win.stride;
    if win.lineOff <= line < win.lineOff + win.lines && win.posOff <= pos < win.posOff + win.len then
      CellInBounds(line - win.lineOff, pos - win.posOff, win.lines, win.len);
      Some((line - win.lineOff) * win.len + (pos - win.posOff))
    else
      None
  }

  /** Canvas element j after the copy: the source element that lands there,
      or the background `bg` where no source element does. */
  function Placed<T>(win: Window, src: seq<T>, srcBase: nat, bg: T, j: nat): T
    requires win.stride > 0 && srcBase + win.lines * win.len <= |src|
  {
    match SourceOf(win, j)
    case Some(k) => src[srcBase + k]
    case None => bg
  }

  /** Canvas element (line, pos) receives source element
      (line - lineOff, pos - posOff) when that exists, and nothing
      otherwise. */
  lemma SourceAt(win: Window, line: nat, pos: nat)
    requires win.stride > 0 && pos < win.stride
    ensures win.lineOff <= line < win.lineOff + win.lines && win.posOff <= pos < win.posOff + win.len ==>
      SourceOf(win, line * win.stride + pos) == Some((line - win.lineOff) * win.len + (pos - win.posOff))
    ensures !(win.lineOff <= line < win.lineOff + win.lines && win.posOff <= pos < win.posOff + win.len) ==>
      SourceOf(win, line * win.stride + pos) == None
  {
    DivModOf(line, pos, win.stride);
  }

  /** Copies the source into the canvas at dst[dstBase ..], one `memcpy` of
      `len` elements per line; the rest of `dst` is untouched. The source is
      given by its contents: it is never the destination buffer. */
  method CopyWindow<T>(dst: array<T>, dstBase: nat, canvasLines: nat, src: seq<T>, srcBase: nat, win: Window)
    requires Fits(win, canvasLines)
    requires dstBase + canvasLines * win.stride <= dst.Length
    requires srcBase + win.lines * win.len <= |src|
    modifies dst
    ensures LinesCopied(dst[..], old(dst[..]), dstBase, canvasLines, src, srcBase, win, win.lines)
  {
    for l := 0 to win.lines
      invariant LinesCopied(dst[..], old(dst[..]), dstBase, canvasLines, src, srcBase, win, l)
    {
      CopyLine(dst, dstBase, canvasLines, src, srcBase, win, l, old(dst[..]));
    }
  }

  /** The first l lines of the source are in place in the canvas of
      `canvasLines` lines at d[dstBase ..]; everything else is as in `orig`. */
  ghost predicate LinesCopied<T>(d: seq<T>, orig: seq<T>, dstBase: nat, canvasLines: nat, src: seq<T>, srcBase: nat,
                                 win: Window, l: nat)
    requires win.stride > 0 && srcBase + win.lines * win.len <= |src| && l <= win.lines
  {
    MulMonotone(l, win.lines, win.len);
    |d| == |orig| &&
    forall i :: 0 <= i < |d| ==>
      CopiedAt(d[i], orig[i], i, dstBase, dstBase + canvasLines * win.stride, src, srcBase, win.(lines := l))
  }

  /** Element i of a buffer whose canvas spans [dstBase, end) holds x after
      the copy of `win` over the background bg. */
  ghost predicate CopiedAt<T>(x: T, bg: T, i: nat, dstBase: nat, end: nat, src: seq<T>, srcBase: nat, win: Window)
    requires win.stride > 0 && srcBase + win.lines * win.len <= |src|
  {
    x == if dstBase <= i < end then Placed(win, src, srcBase, bg, i - dstBase) else bg
  }

  /** One pass of the line loop: line l of the source to canvas line
      lineOff + l, from position posOff on. */
  method CopyLine<T>(dst: array<T>, dstBase: nat, canvasLines: nat, src: seq<T>, srcBase: nat, win: Window,
                     l: nat, ghost orig: seq<T>)
    requires Fits(win, canvasLines) && l < win.lines
    requires dstBase + canvasLines * win.stride <= dst.Length
    requires srcBase + win.lines * win.len <= |src|
    requires LinesCopied(dst[..], orig, dstBase, canvasLines, src, srcBase, win, l)
    modifies dst
    ensures LinesCopied(dst[..], orig, dstBase, canvasLines, src, srcBase, win, l + 1)
  {
    MulMonotone(l + 1, win.lines, win.len);
    assert (l + 1) * win.len == l * win.len + win.len;
    var line := win.lineOff + l;
    MulMonotone(line + 1, canvasLines, win.stride);
    assert (line + 1) * win.stride == line * win.stride + win.stride;
    var dstOff := dstBase + line * win.stride + win.posOff;
    ghost var before := dst[..];
    Memory.Memcpy(dst, dstOff, src, srcBase + l * win.len, win.len);
    LineStep(before, dst[..], orig, dstBase, canvasLines, src, srcBase, win, l);
  }

  /** The memcpy of line l extends the copied lines by one. */
  lemma LineStep<T>(before: seq<T>, after: seq<T>, orig: seq<T>, dstBase: nat, canvasLines: nat,
                    src: seq<T>, srcBase: nat, win: Window, l: nat)
    requires Fits(win, canvasLines) && l < win.lines
    requires srcBase + win.lines * win.len <= |src| && srcBase + l * win.len + win.len <= |src|
    requires dstBase + canvasLines * win.stride <= |before|
    requires LinesCopied(before, orig, dstBase, canvasLines, src, srcBase, win, l)
    requires var a := dstBase + (win.lineOff + l) * win.stride + win.posOff;
      |after| == |before| &&
      forall i :: 0 <= i < |after| ==>
        after[i] == if a <= i < a + win.len then src[srcBase + l * win.len + (i - a)] else before[i]
    ensures LinesCopied(after, orig, dstBase, canvasLines, src, srcBase, win, l + 1)
  {
    MulMonotone(l + 1, win.lines, win.len);
    assert (l + 1) * win.len == l * win.len + win.len;
    MulMonotone(l, win.lines, win.len);
    var line := win.lineOff + l;
    MulMonotone(line + 1, canvasLines, win.stride);
    assert (line + 1) * win.stride == line * win.stride + win.stride;
    var end := dstBase + canvasLines * win.stride;
    forall i | 0 <= i < |after|
      ensures CopiedAt(after[i], orig[i], i, dstBase, end, src, srcBase, win.(lines := l + 1))
    {
      if dstBase <= i < end {
        PlacedStep(win, l, src, srcBase, orig[i], i - dstBase);
      }
    }
  }

  /** Copying line l of the source changes the canvas only on the `len`
      elements of canvas line lineOff + l from posOff on. */
  lemma PlacedStep<T>(win: Window, l: nat, src: seq<T>, srcBase: nat, bg: T, j: nat)
    requires win.stride > 0 && win.posOff + win.len <= win.stride && l < win.lines
    requires srcBase + win.lines * win.len <= |src|
    requires l * win.len + win.len <= win.lines * win.len && srcBase + l * win.len + win.len <= |src|
    ensures (l + 1) * win.len <= win.lines * win.len
    ensures var a := (win.lineOff + l) * win.stride + win.posOff;
      Placed(win.(lines := l + 1), src, srcBase, bg, j)
      == if a <= j < a + win.len then src[srcBase + l * win.len + (j - a)]
         else Placed(win.(lines := l), src, srcBase, bg, j)
  {
    assert (l + 1) * win.len == l * win.len + win.len;
    var a := (win.lineOff + l) * win.stride + win.posOff;
    if a <= j < a + win.len {
      CopyStepIn(win, l, j);
    } else {
      CopyStepOut(win, l, j);
    }
  }

  /** An element of canvas line lineOff + l inside the window receives
      element j - a of source line l once that line is copied. */
  lemma CopyStepIn(win: Window, l: nat, j: nat)
    requires win.stride > 0 && win.posOff + win.len <= win.stride && l < win.lines
    requires var a := (win.lineOff + l) * win.stride + win.posOff; a <= j < a + win.len
    ensures SourceOf(win.(lines := l + 1), j)
         == Some(l * win.len + (j - ((win.lineOff + l) * win.stride + win.posOff)))
  {
    var line := win.lineOff + l;
    DivModOf(line, j - line * win.stride, win.stride);
  }

  /** Every other canvas element receives the same source element, or none,
      before and after source line l is copied. */
  lemma CopyStepOut(win: Window, l: nat, j: nat)
    requires win.stride > 0 && win.posOff + win.len <= win.stride
    requires var a := (win.lineOff + l) * win.stride + win.posOff; !(a <= j < a + win.len)
    ensures SourceOf(win.(lines := l + 1), j) == SourceOf(win.(lines := l), j)
  {
    var jl, jp := j / win.stride, j % win.stride;
    assert j == jl * win.stride + jp;
    if jl == win.lineOff + l {
      assert !(win.posOff <= jp < win.posOff + win.len);
    }
  }

  // ---------------------------------------------------------------------
  // The two padders.

  datatype PadError =
    | SourceShape          // 'arr' must be 3d array with at least 3 planes
    | FillShape            // 'fill' must be a length-3 vector
    | SourceNotNativeRaster
    | DstShape             // 'dst' must be 3d array with exactly 3 planes
    | DstNotNativeRaster
    | DstDims(height: nat, width: nat)  // 'dst' must have the rounded-up dimensions

  predicate PlanarSourceShapeOk(dims: seq<nat>)
  {
    |dims| == 3 && dims[2] >= 3
  }

  predicate PlanarDstShapeOk(dims: seq<nat>)
  {
    |dims| == 3 && dims[2] == 3
  }

  /** Element i of the padded planar array: plane i / (hd*wd), column-major
      within the plane; plane p of the source sits at offset (ro, co) and
      the rest of plane p is fill[p]. Only planes 0, 1 and 2 are read. */
  function PaddedPlanar(src: seq<real>, hs: nat, ws: nat, hd: nat, wd: nat, ro: nat, co: nat, fill: seq<real>, i: nat): real
    requires hd > 0 && wd > 0 && |fill| == 3 && 3 * (hs * ws) <= |src|
    requires i < 3 * (hd * wd)
  {
    var n := hd * wd;
    var p := i / n;
    LineBelow(i, 3, n);
    MulMonotone(p + 1, 3, hs * ws);
    Placed(Window(hd, co, ro, ws, hs), src, p * (hs * ws), fill[p], i % n)
  }

  /** Element i of the padded native raster: the source at offset (ro, co),
      row-major, and `fill` everywhere else. */
  function PaddedNative(src: seq<int>, hs: nat, ws: nat, wd: nat, ro: nat, co: nat, fill: int, i: nat): int
    requires wd > 0 && hs * ws <= |src|
  {
    Placed(Window(wd, ro, co, hs, ws), src, 0, fill, i)
  }

  /** Element j of plane p of the padded planar array is element j of
      that plane's canvas, where plane p of the source was placed over a
      background of fill[p]. */
  lemma PlanarPlane(src: seq<real>, hs: nat, ws: nat, hd: nat, wd: nat, ro: nat, co: nat, fill: seq<real>,
                    p: nat, j: nat)
    requires hd > 0 && wd > 0 && |fill| == 3 && 3 * (hs * ws) <= |src|
    requires p < 3 && j < hd * wd
    ensures p * (hs * ws) + ws * hs <= |src|
    ensures var i := p * (hd * wd) + j;
      0 <= i < 3 * (hd * wd) &&
      PaddedPlanar(src, hs, ws, hd, wd, ro, co, fill, i) == Placed(Window(hd, co, ro, ws, hs), src, p * (hs * ws), fill[p], j)
  {
    DivModOf(p, j, hd * wd);
    CellInBounds(p, j, 3, hd * wd);
    MulMonotone(p + 1, 3, hs * ws);
  }

  /** A planar source of shape [hs, ws, planes] holds at least the three
      planes that are copied. */
  lemma PlanarSourceFits(dims: seq<nat>)
    requires PlanarSourceShapeOk(dims)
    ensures 3 * (dims[0] * dims[1]) <= Product(dims)
  {
    Product3(dims);
    MulMonotone(3, dims[2], dims[0] * dims[1]);
  }

  /** `out` is the planar source `src` of shape `dims` padded to hd x wd x 3
      at offset (ro, co) with fill values `fill`. */
  ghost predicate IsPaddedPlanar(out: seq<real>, src: seq<real>, dims: seq<nat>, hd: nat, wd: nat,
                                 ro: nat, co: nat, fill: seq<real>)
    requires PlanarSourceShapeOk(dims) && |src| == Product(dims)
    requires hd > 0 && wd > 0 && |fill| == 3
  {
    PlanarSourceFits(dims);
    |out| == 3 * (hd * wd) &&
    forall i :: 0 <= i < |out| ==> out[i] == PaddedPlanar(src, dims[0], dims[1], hd, wd, ro, co, fill, i)
  }

  /** `pad_array_`. Checks the source shape and the fill; returns the source
      itself when both dimensions are already multiples of 16; otherwise
      checks the supplied destination (or allocates one) and pads into it. */
  method PadArray(src: RealArray, hjust: real, vjust: real, fill: seq<real>, dst: Option<RealArray>)
    returns (res: Result<RealArray, PadError>)
    requires src.data.Length == Product(src.dims)
    requires dst.Some? ==> dst.value.data.Length == Product(dst.value.dims)
    // One R object carries one `dim` attribute.
    requires dst.Some? && dst.value.data == src.data ==> dst.value.dims == src.dims
    modifies if dst.Some? then {dst.value.data} else {}
    ensures !PlanarSourceShapeOk(src.dims) ==> res == Err(SourceShape)
    ensures PlanarSourceShapeOk(src.dims) && |fill| != 3 ==> res == Err(FillShape)
    ensures PlanarSourceShapeOk(src.dims) && |fill| == 3 ==>
      var hs, ws := src.dims[0], src.dims[1];
      var hd, wd := RoundUp(hs), RoundUp(ws);
      if hs == hd && ws == wd then
        res == Ok(src)
      else if dst.Some? && !PlanarDstShapeOk(dst.value.dims) then
        res == Err(DstShape)
      else if dst.Some? && (dst.value.dims[0] != hd || dst.value.dims[1] != wd) then
        res == Err(DstDims(hd, wd))
      else
        res.Ok? && res.value.dims == [hd, wd, 3] &&
        (if dst.Some? then res.value == dst.value else fresh(res.value.data)) &&
        IsPaddedPlanar(res.value.data[..], old(src.data[..]), src.dims, hd, wd,
                       Offset(vjust, hd - hs), Offset(hjust, wd - ws), fill)
    ensures res.Err? || res == Ok(src) ==> dst.Some? ==> unchanged(dst.value.data)
  {
    if !PlanarSourceShapeOk(src.dims) {
      return Err(SourceShape);
    }
    if |fill| != 3 {
      return Err(FillShape);
    }
    var hs, ws := src.dims[0], src.dims[1];
    var hd, wd := RoundUp(hs), RoundUp(ws);
    if hs == hd && ws == wd {
      return Ok(src);
    }
    res := PadInto(src, hd, wd, hjust, vjust, fill, dst);
  }

  /** The second half of `pad_array_`, once the source is known to need
      padding: check the supplied destination (or allocate one), then fill
      and copy into it. */
  method PadInto(src: RealArray, hd: nat, wd: nat, hjust: real, vjust: real, fill: seq<real>, dst: Option<RealArray>)
    returns (res: Result<RealArray, PadError>)
    requires PlanarSourceShapeOk(src.dims) && src.data.Length == Product(src.dims) && |fill| == 3
    requires hd == RoundUp(src.dims[0]) && wd == RoundUp(src.dims[1])
    requires src.dims[0] != hd || src.dims[1] != wd
    requires dst.Some? ==> dst.value.data.Length == Product(dst.value.dims)
    requires dst.Some? && dst.value.data == src.data ==> dst.value.dims == src.dims
    modifies if dst.Some? then {dst.value.data} else {}
    ensures if dst.Some? && !PlanarDstShapeOk(dst.value.dims) then
        res == Err(DstShape)
      else if dst.Some? && (dst.value.dims[0] != hd || dst.value.dims[1] != wd) then
        res == Err(DstDims(hd, wd))
      else
        res.Ok? && res.value.dims == [hd, wd, 3] &&
        (if dst.Some? then res.value == dst.value else fresh(res.value.data)) &&
        IsPaddedPlanar(res.value.data[..], old(src.data[..]), src.dims, hd, wd,
                       Offset(vjust, hd - src.dims[0]), Offset(hjust, wd - src.dims[1]), fill)
    ensures res.Err? ==> dst.Some? ==> unchanged(dst.value.data)
  {
    var out: RealArray;
    if dst.None? {
      var data := new real[3 * (hd * wd)];
      out := RealArray(data, [hd, wd, 3]);
    } else {
      out := dst.value;
      if !PlanarDstShapeOk(out.dims) {
        return Err(DstShape);
      }
      if out.dims[0] != hd || out.dims[1] != wd {
        return Err(DstDims(hd, wd));
      }
      Product3(out.dims);
    }
    assert out.data != src.data;
    PadPlanes(out.data, src.data, src.dims, hd, wd, vjust, hjust, fill);
    assert src.data[..] == old(src.data[..]);
    return Ok(out);
  }

  /** The fill and copy loops of `pad_array_` on a checked destination,
      with the source placed at the justified offsets. */
  method PadPlanes(out: array<real>, src: array<real>, dims: seq<nat>, hd: nat, wd: nat,
                   vjust: real, hjust: real, fill: seq<real>)
    requires out != src && PlanarSourceShapeOk(dims) && src.Length == Product(dims)
    requires hd > 0 && wd > 0 && |fill| == 3 && out.Length == 3 * (hd * wd)
    requires dims[0] <= hd && dims[1] <= wd
    modifies out
    ensures IsPaddedPlanar(out[..], src[..], dims, hd, wd, Offset(vjust, hd - dims[0]), Offset(hjust, wd - dims[1]), fill)
  {
    var ro, co := Offset(vjust, hd - dims[0]), Offset(hjust, wd - dims[1]);
    FloodPlanes(out, hd * wd, fill);
    PlacePlanes(out, src, dims, hd, wd, ro, co, fill);
  }

  /** The fill value of element i of a three-plane buffer of planes of n
      elements: that of its plane. */
  function FillAt(fill: seq<real>, n: nat, i: nat): real
    requires |fill| == 3 && n > 0 && i < 3 * n
  {
    PlaneOf(i, n);
    fill[i / n]
  }

  /** The fill loops of `pad_array_`: plane p of `out`, of n elements, is
      set to fill[p]. */
  method FloodPlanes(out: array<real>, n: nat, fill: seq<real>)
    requires n > 0 && |fill| == 3 && out.Length == 3 * n
    modifies out
    ensures forall i :: 0 <= i < 3 * n ==> out[i] == FillAt(fill, n, i)
  {
    Memory.Fill(out, 0, n, fill[0]);
    Memory.Fill(out, n, n, fill[1]);
    Memory.Fill(out, 2 * n, n, fill[2]);
    forall i | 0 <= i < 3 * n
      ensures out[i] == FillAt(fill, n, i)
    {
      PlaneOf(i, n);
    }
  }

  /** The first k planes of `out` are padded; the rest still hold their fill. */
  ghost predicate PlanesPlaced(out: seq<real>, src: seq<real>, hs: nat, ws: nat, hd: nat, wd: nat,
                               ro: nat, co: nat, fill: seq<real>, k: nat)
    requires hd > 0 && wd > 0 && |fill| == 3 && 3 * (hs * ws) <= |src|
  {
    |out| == 3 * (hd * wd) &&
    forall i :: 0 <= i < 3 * (hd * wd) ==>
      out[i] == if i < k * (hd * wd) then PaddedPlanar(src, hs, ws, hd, wd, ro, co, fill, i)
                else FillAt(fill, hd * wd, i)
  }

  /** The copy loops of `pad_array_`: planes 0..2 of the source are copied
      into the flooded destination, column by column, at offset (ro, co). */
  method PlacePlanes(out: array<real>, src: array<real>, dims: seq<nat>, hd: nat, wd: nat,
                     ro: nat, co: nat, fill: seq<real>)
    requires out != src && PlanarSourceShapeOk(dims) && src.Length == Product(dims)
    requires hd > 0 && wd > 0 && |fill| == 3 && out.Length == 3 * (hd * wd)
    requires ro + dims[0] <= hd && co + dims[1] <= wd
    requires forall i :: 0 <= i < 3 * (hd * wd) ==> out[i] == FillAt(fill, hd * wd, i)
    modifies out
    ensures IsPaddedPlanar(out[..], src[..], dims, hd, wd, ro, co, fill)
  {
    PlanarSourceFits(dims);
    for plane := 0 to 3
      invariant PlanesPlaced(out[..], src[..], dims[0], dims[1], hd, wd, ro, co, fill, plane)
    {
      PlacePlane(out, src, dims[0], dims[1], hd, wd, ro, co, fill, plane);
    }
  }

  /** One pass of the plane loop: plane p of the source is copied in. */
  method PlacePlane(out: array<real>, src: array<real>, hs: nat, ws: nat, hd: nat, wd: nat,
                    ro: nat, co: nat, fill: seq<real>, p: nat)
    requires out != src && hd > 0 && wd > 0 && |fill| == 3 && 3 * (hs * ws) <= src.Length
    requires ro + hs <= hd && co + ws <= wd && p < 3
    requires PlanesPlaced(out[..], src[..], hs, ws, hd, wd, ro, co, fill, p)
    modifies out
    ensures PlanesPlaced(out[..], src[..], hs, ws, hd, wd, ro, co, fill, p + 1)
  {
    var n := hd * wd;
    assert wd * hd == n;
    MulMonotone(p + 1, 3, hs * ws);
    MulMonotone(p + 1, 3, n);
    assert (p + 1) * n == p * n + n;
    ghost var before := out[..];
    CopyWindow(out, p * n, wd, src[..], p * (hs * ws), Window(hd, co, ro, ws, hs));
    PlaneStep(before, out[..], src[..], hs, ws, hd, wd, ro, co, fill, p);
  }

  /** Placing plane p of the source over a plane still holding fill[p]
      extends the padded prefix by one plane. */
  lemma PlaneStep(before: seq<real>, after: seq<real>, src: seq<real>, hs: nat, ws: nat, hd: nat, wd: nat,
                  ro: nat, co: nat, fill: seq<real>, p: nat)
    requires hd > 0 && wd > 0 && |fill| == 3 && 3 * (hs * ws) <= |src|
    requires ro + hs <= hd && co + ws <= wd && p < 3
    requires p * (hs * ws) + ws * hs <= |src|
    requires PlanesPlaced(before, src, hs, ws, hd, wd, ro, co, fill, p)
    requires |after| == |before|
    requires forall i :: 0 <= i < |after| ==>
      after[i] == if p * (hd * wd) <= i < p * (hd * wd) + hd * wd
                  then Placed(Window(hd, co, ro, ws, hs), src, p * (hs * ws), before[i], i - p * (hd * wd))
                  else before[i]
    ensures PlanesPlaced(after, src, hs, ws, hd, wd, ro, co, fill, p + 1)
  {
    var n := hd * wd;
    assert (p + 1) * n == p * n + n;
    forall i | 0 <= i < 3 * n
      ensures after[i] == if i < (p + 1) * n then PaddedPlanar(src, hs, ws, hd, wd, ro, co, fill, i)
                          else FillAt(fill, n, i)
    {
      if p * n <= i < p * n + n {
        DivModOf(p, i - p * n, n);
        PlanarPlane(src, hs, ws, hd, wd, ro, co, fill, p, i - p * n);
      }
    }
  }

  /** Index i of a three-plane buffer of planes of n elements lies in plane
      i / n, at position i % n. */
  lemma PlaneOf(i: nat, n: nat)
    requires n > 0 && i < 3 * n
    ensures i / n < 3
    ensures i < n ==> i / n == 0
    ensures n <= i < 2 * n ==> i / n == 1
    ensures 2 * n <= i ==> i / n == 2
  {
    if i < n {
      DivModOf(0, i, n);
    } else if i < 2 * n {
      DivModOf(1, i - n, n);
    } else {
      DivModOf(2, i - 2 * n, n);
    }
  }

  /** `pad_nr_`. Checks the native-raster class; returns the source itself
      when both dimensions are already multiples of 16; otherwise checks the
      supplied destination (or allocates one), fills it with `fill` and
      copies the source in, row by row, at the justified offset. */
  method PadNativeRaster(src: NativeRaster, hjust: real, vjust: real, fill: int, dst: Option<NativeRaster>)
    returns (res: Result<NativeRaster, PadError>)
    requires src.data.Length == src.height * src.width
    requires dst.Some? ==> dst.value.data.Length == dst.value.height * dst.value.width
    // One R object carries one `dim` attribute.
    requires dst.Some? && dst.value.data == src.data ==>
      dst.value.height == src.height && dst.value.width == src.width
    modifies if dst.Some? then {dst.value.data} else {}
    ensures !src.isNativeRaster ==> res == Err(SourceNotNativeRaster)
    ensures src.isNativeRaster ==>
      var hs, ws := src.height, src.width;
      var hd, wd := RoundUp(hs), RoundUp(ws);
      if hs == hd && ws == wd then
        res == Ok(src)
      else if dst.Some? && !dst.value.isNativeRaster then
        res == Err(DstNotNativeRaster)
      else if dst.Some? && (dst.value.height != hd || dst.value.width != wd) then
        res == Err(DstDims(hd, wd))
      else
        res.Ok? && res.value.height == hd && res.value.width == wd && res.value.isNativeRaster &&
        (if dst.Some? then res.value == dst.value else fresh(res.value.data)) &&
        res.value.data.Length == hd * wd &&
        forall i :: 0 <= i < res.value.data.Length ==>
          res.value.data[i] == PaddedNative(old(src.data[..]), hs, ws, wd,
                                            Offset(vjust, hd - hs), Offset(hjust, wd - ws), fill, i)
    ensures res.Err? || res == Ok(src) ==> dst.Some? ==> unchanged(dst.value.data)
  {
    if !src.isNativeRaster {
      return Err(SourceNotNativeRaster);
    }
    var hs, ws := src.height, src.width;
    var hd, wd := RoundUp(hs), RoundUp(ws);
    if hs == hd && ws == wd {
      return Ok(src);
    }
    var out: NativeRaster;
    if dst.None? {
      var data := new int[hd * wd];
      out := NativeRaster(data, hd, wd, true);
    } else {
      out := dst.value;
      if !out.isNativeRaster {
        return Err(DstNotNativeRaster);
      }
      if out.height != hd || out.width != wd {
        return Err(DstDims(hd, wd));
      }
    }
    assert out.data != src.data;
    Memory.Fill(out.data, 0, hd * wd, fill);
    var ro, co := Offset(vjust, hd - hs), Offset(hjust, wd - ws);
    CopyWindow(out.data, 0, hd, src.data[..], 0, Window(wd, ro, co, hs, ws));
    return Ok(out);
  }

  // ---------------------------------------------------------------------
  // What the padded buffers hold.

  /** Planar copy: for planes 0..2, source element (r, col) of plane p,
      at src[p][col*hs + r], lands at destination element
      (ro + r, co + col) of plane p, at dst[p][(co + col)*hd + ro + r]. */
  lemma PlanarCopied(src: seq<real>, hs: nat, ws: nat, hd: nat, wd: nat, ro: nat, co: nat, fill: seq<real>,
                     p: nat, col: nat, r: nat)
    requires hd > 0 && wd > 0 && |fill| == 3 && 3 * (hs * ws) <= |src|
    requires ro + hs <= hd && co + ws <= wd
    requires p < 3 && col < ws && r < hs
    ensures var i, k := p * (hd * wd) + ((co + col) * hd + ro + r), p * (hs * ws) + col * hs + r;
      0 <= i < 3 * (hd * wd) && 0 <= k < |src| && PaddedPlanar(src, hs, ws, hd, wd, ro, co, fill, i) == src[k]
  {
    PlanarCellBounds(hs, ws, hd, wd, ro, co, p, col, r);
    var j := (co + col) * hd + ro + r;
    PlanarCellValue(src, hs, ws, hd, wd, ro, co, fill, p, col, r, j, p * (hd * wd) + j, p * (hs * ws), p * (hs * ws) + col * hs + r);
  }

  lemma PlanarCellBounds(hs: nat, ws: nat, hd: nat, wd: nat, ro: nat, co: nat, p: nat, col: nat, r: nat)
    requires ro + hs <= hd && co + ws <= wd
    requires p < 3 && col < ws && r < hs
    ensures 0 <= (co + col) * hd + ro + r < hd * wd
    ensures 0 <= p * (hd * wd) && p * (hd * wd) + ((co + col) * hd + ro + r) < 3 * (hd * wd)
    ensures 0 <= p * (hs * ws) && 0 <= col * hs && p * (hs * ws) + col * hs + r < 3 * (hs * ws)
  {
    MulNonNegative(p, hd * wd);
    MulNonNegative(co + col, hd);
    MulNonNegative(p, hs * ws);
    MulNonNegative(col, hs);
    CellInBounds(co + col, ro + r, wd, hd);
    CellInBounds(p, (co + col) * hd + ro + r, 3, hd * wd);
    CellInBounds(col, r, ws, hs);
    CellInBounds(p, col * hs + r, 3, hs * ws);
  }

  lemma PlanarCellValue(src: seq<real>, hs: nat, ws: nat, hd: nat, wd: nat, ro: nat, co: nat, fill: seq<real>,
                        p: nat, col: nat, r: nat, j: nat, i: nat, base: nat, k: nat)
    requires hd > 0 && wd > 0 && |fill| == 3 && 3 * (hs * ws) <= |src|
    requires ro + hs <= hd && co + ws <= wd
    requires p < 3 && col < ws && r < hs
    requires j == (co + col) * hd + ro + r && j < hd * wd
    requires i == p * (hd * wd) + j && i < 3 * (hd * wd)
    requires base == p * (hs * ws) && k == base + col * hs + r && k < |src|
    ensures PaddedPlanar(src, hs, ws, hd, wd, ro, co, fill, i) == src[k]
  {
    PlanarPlane(src, hs, ws, hd, wd, ro, co, fill, p, j);
    PlacedAt(Window(hd, co, ro, ws, hs), src, base, fill[p], col, r, j);
  }

  /** Line l, position q of the window lands at canvas element
      j = (lineOff + l)*stride + posOff + q and holds source element
      l*len + q. */
  lemma PlacedAt<T>(win: Window, src: seq<T>, srcBase: nat, bg: T, l: nat, q: nat, j: nat)
    requires Fits(win, win.lineOff + win.lines) && srcBase + win.lines * win.len <= |src|
    requires l < win.lines && q < win.len && j == (win.lineOff + l) * win.stride + win.posOff + q
    ensures l * win.len + q < win.lines * win.len
    ensures Placed(win, src, srcBase, bg, j) == src[srcBase + l * win.len + q]
  {
    SourceAt(win, win.lineOff + l, win.posOff + q);
    CellInBounds(l, q, win.lines, win.len);
  }

  /** Planar border: every destination element of plane p outside the
      placed rectangle holds fill[p], whatever the destination held. */
  lemma PlanarBorder(src: seq<real>, hs: nat, ws: nat, hd: nat, wd: nat, ro: nat, co: nat, fill: seq<real>,
                     p: nat, col: nat, row: nat)
    requires hd > 0 && wd > 0 && |fill| == 3 && 3 * (hs * ws) <= |src|
    requires p < 3 && col < wd && row < hd
    requires !(ro <= row < ro + hs && co <= col < co + ws)
    ensures var i := p * (hd * wd) + col * hd + row;
      0 <= i < 3 * (hd * wd) && PaddedPlanar(src, hs, ws, hd, wd, ro, co, fill, i) == fill[p]
  {
    var n := hd * wd;
    CellInBounds(col, row, wd, hd);
    DivModOf(p, col * hd + row, n);
    CellInBounds(p, col * hd + row, 3, n);
    SourceAt(Window(hd, co, ro, ws, hs), col, row);
  }

  /** Source planes beyond the third are never copied: two sources that
      agree on planes 0..2 pad to the same array. */
  lemma PlanarIgnoresExtraPlanes(src: seq<real>, src': seq<real>, hs: nat, ws: nat, hd: nat, wd: nat,
                                 ro: nat, co: nat, fill: seq<real>, i: nat)
    requires hd > 0 && wd > 0 && |fill| == 3 && 3 * (hs * ws) <= |src| && 3 * (hs * ws) <= |src'|
    requires src[..3 * (hs * ws)] == src'[..3 * (hs * ws)]
    requires i < 3 * (hd * wd)
    ensures PaddedPlanar(src, hs, ws, hd, wd, ro, co, fill, i) == PaddedPlanar(src', hs, ws, hd, wd, ro, co, fill, i)
  {
    var n := hd * wd;
    LineBelow(i, 3, n);
    var p, j := i / n, i % n;
    assert i == p * n + j;
    PlanarPlane(src, hs, ws, hd, wd, ro, co, fill, p, j);
    PlanarPlane(src', hs, ws, hd, wd, ro, co, fill, p, j);
    PlaneAgrees(src, src', hs * ws, p);
    PlacedAgree(Window(hd, co, ro, ws, hs), src, src', p * (hs * ws), fill[p], j);
  }

  /** Sources equal on their first three planes of m elements are equal on
      plane p < 3. */
  lemma PlaneAgrees(src: seq<real>, src': seq<real>, m: nat, p: nat)
    requires 3 * m <= |src| && 3 * m <= |src'| && src[..3 * m] == src'[..3 * m] && p < 3
    ensures p * m + m <= |src| && p * m + m <= |src'|
    ensures src[p * m .. p * m + m] == src'[p * m .. p * m + m]
  {
    MulMonotone(p + 1, 3, m);
    assert src[p * m .. p * m + m] == src[..3 * m][p * m .. p * m + m];
    assert src'[p * m .. p * m + m] == src'[..3 * m][p * m .. p * m + m];
  }

  /** The canvas depends only on the source elements the window covers. */
  lemma PlacedAgree<T>(win: Window, src: seq<T>, src': seq<T>, base: nat, bg: T, j: nat)
    requires win.stride > 0 && base + win.lines * win.len <= |src| && base + win.lines * win.len <= |src'|
    requires src[base .. base + win.lines * win.len] == src'[base .. base + win.lines * win.len]
    ensures Placed(win, src, base, bg, j) == Placed(win, src', base, bg, j)
  {
    match SourceOf(win, j)
    case Some(k) =>
      assert src[base + k] == src[base .. base + win.lines * win.len][k];
      assert src'[base + k] == src'[base .. base + win.lines * win.len][k];
    case None =>
  }

  /** Native copy: source element (row, c), at src[row*ws + c], lands at
      dst[(ro + row)*wd + co + c]. */
  lemma NativeCopied(src: seq<int>, hs: nat, ws: nat, hd: nat, wd: nat, ro: nat, co: nat, fill: int,
                     row: nat, c: nat)
    requires wd > 0 && hs * ws <= |src| && ro + hs <= hd && co + ws <= wd
    requires row < hs && c < ws
    ensures var i, k := (ro + row) * wd + co + c, row * ws + c;
      0 <= i < hd * wd && 0 <= k < |src| && PaddedNative(src, hs, ws, wd, ro, co, fill, i) == src[k]
  {
    CellInBounds(ro + row, co + c, hd, wd);
    CellInBounds(row, c, hs, ws);
    SourceAt(Window(wd, ro, co, hs, ws), ro + row, co + c);
  }

  /** Native border: every destination element outside the placed
      rectangle holds `fill`. */
  lemma NativeBorder(src: seq<int>, hs: nat, ws: nat, hd: nat, wd: nat, ro: nat, co: nat, fill: int,
                     row: nat, col: nat)
    requires wd > 0 && hs * ws <= |src|
    requires row < hd && col < wd
    requires !(ro <= row < ro + hs && co <= col < co + ws)
    ensures var i := row * wd + col;
      0 <= i < hd * wd && PaddedNative(src, hs, ws, wd, ro, co, fill, i) == fill
  {
    CellInBounds(row, col, hd, wd);
    SourceAt(Window(wd, ro, co, hs, ws), row, col);
  }

  /** The placed rectangle always fits: the clamped offsets leave room for
      the whole source inside the rounded-up canvas. */
  lemma PlacementFits(hs: nat, ws: nat, hjust: real, vjust: real)
    ensures Offset(vjust, RoundUp(hs) - hs) + hs <= RoundUp(hs)
    ensures Offset(hjust, RoundUp(ws) - ws) + ws <= RoundUp(ws)
    ensures Fits(Window(RoundUp(hs), Offset(hjust, RoundUp(ws) - ws), Offset(vjust, RoundUp(hs) - hs), ws, hs), RoundUp(ws))
    ensures Fits(Window(RoundUp(ws), Offset(vjust, RoundUp(hs) - hs), Offset(hjust, RoundUp(ws) - ws), hs, ws), RoundUp(hs))
  {
  }
}
