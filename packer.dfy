/** The block-major packing loops of src/rgb-to-ycbcr.c: both entry points
    walk the 16x16 block grid in row-major block order and, for every
    block, write its 256 luma, 64 Cb and 64 Cr bytes and then, unless it is
    the last block, the separator 0x0D 0x00. The planar path reads its
    column-major scratch planes one byte at a time; the native path copies
    16-byte (luma) and 8-byte (chroma) rows out of row-major scratch planes.

    This model counts blocks in `mbIdx`, which the C code leaves at 0; see
    MacroblockLayout for what the code does as written. */
module Packer {
  import opened Arith
  import opened MacroblockLayout
  import opened Planes
  import Memory

  /** Byte b of the separator written between two blocks. */
  function SeparatorByte(b: nat): byte
  {
    if b == 0 then SeparatorHead else SeparatorTail
  }

  /** Scratch planes for an h x w image: full-resolution luma and two
      h/2 x w/2 chroma planes. */
  predicate PlanesFit(h: nat, w: nat, y: seq<byte>, cb: seq<byte>, cr: seq<byte>)
  {
    |y| == h * w && |cb| == (h / 2) * (w / 2) && |cr| == (h / 2) * (w / 2)
  }

  /** Output byte i of the stream packed from the scratch planes, stored in
      `order`: the sample of the slot it carries, or a separator byte. */
  function PackedByte(order: Order, h: nat, w: nat, y: seq<byte>, cb: seq<byte>, cr: seq<byte>, i: nat): byte
    requires Aligned(h, w) && PlanesFit(h, w, y, cb, cr) && i < StreamLength(h, w)
  {
    PackedSlot(order, h, w, y, cb, cr, Decode(h, w, i))
  }

  /** The byte a slot of the stream carries, read from the scratch planes. */
  function PackedSlot(order: Order, h: nat, w: nat, y: seq<byte>, cb: seq<byte>, cr: seq<byte>, s: Slot): byte
    requires PlanesFit(h, w, y, cb, cr) && ValidSlot(h, w, s)
  {
    match s
    case Luma(r, c) => y[PlaneIndex(order, h, w, r, c)]
    case Cb(r, c) => cb[PlaneIndex(order, h / 2, w / 2, r, c)]
    case Cr(r, c) => cr[PlaneIndex(order, h / 2, w / 2, r, c)]
    case Separator(_, b) => SeparatorByte(b)
  }

  /** Byte `off` of block (mbRow, mbCol): luma row-major 16 per row, then
      the Cb and the Cr sub-blocks row-major 8 per row. */
  function BlockByte(order: Order, h: nat, w: nat, y: seq<byte>, cb: seq<byte>, cr: seq<byte>,
                     mbRow: nat, mbCol: nat, off: nat): byte
    requires Aligned(h, w) && PlanesFit(h, w, y, cb, cr)
    requires mbRow < h / MbSize && mbCol < w / MbSize && off < BlockBytes
  {
    if off < LumaBytes then y[LumaAt(order, h, w, mbRow, mbCol, off)]
    else if off < CbEnd then cb[ChromaAt(order, h, w, mbRow, mbCol, off - LumaBytes)]
    else cr[ChromaAt(order, h, w, mbRow, mbCol, off - CbEnd)]
  }

  /** The bytes of a block are the stream's bytes from the block's start on. */
  lemma BlockBytesPacked(order: Order, h: nat, w: nat, y: seq<byte>, cb: seq<byte>, cr: seq<byte>,
                         mbRow: nat, mbCol: nat, off: nat)
    requires Aligned(h, w) && PlanesFit(h, w, y, cb, cr)
    requires mbRow < h / MbSize && mbCol < w / MbSize && off < BlockBytes
    ensures BlockStart(w / MbSize, h / MbSize, mbRow, mbCol) + off < StreamLength(h, w)
    ensures PackedByte(order, h, w, y, cb, cr, BlockStart(w / MbSize, h / MbSize, mbRow, mbCol) + off)
         == BlockByte(order, h, w, y, cb, cr, mbRow, mbCol, off)
  {
    if off < LumaBytes {
      LumaBytePacked(order, h, w, y, cb, cr, mbRow, mbCol, off);
    } else if off < CbEnd {
      CbBytePacked(order, h, w, y, cb, cr, mbRow, mbCol, off);
    } else {
      CrBytePacked(order, h, w, y, cb, cr, mbRow, mbCol, off);
    }
  }

  lemma LumaBytePacked(order: Order, h: nat, w: nat, y: seq<byte>, cb: seq<byte>, cr: seq<byte>,
                         mbRow: nat, mbCol: nat, off: nat)
    requires Aligned(h, w) && PlanesFit(h, w, y, cb, cr)
    requires mbRow < h / MbSize && mbCol < w / MbSize && off < LumaBytes
    ensures BlockStart(w / MbSize, h / MbSize, mbRow, mbCol) + off < StreamLength(h, w)
    ensures PackedByte(order, h, w, y, cb, cr, BlockStart(w / MbSize, h / MbSize, mbRow, mbCol) + off)
         == BlockByte(order, h, w, y, cb, cr, mbRow, mbCol, off)
  {
    var r, c := off / MbSize, off % MbSize;
    assert off == r * MbSize + c;
    LumaPacked(order, h, w, y, cb, cr, mbRow, mbCol, r, c);
  }

  lemma CbBytePacked(order: Order, h: nat, w: nat, y: seq<byte>, cb: seq<byte>, cr: seq<byte>,
                         mbRow: nat, mbCol: nat, off: nat)
    requires Aligned(h, w) && PlanesFit(h, w, y, cb, cr)
    requires mbRow < h / MbSize && mbCol < w / MbSize && LumaBytes <= off < CbEnd
    ensures BlockStart(w / MbSize, h / MbSize, mbRow, mbCol) + off < StreamLength(h, w)
    ensures PackedByte(order, h, w, y, cb, cr, BlockStart(w / MbSize, h / MbSize, mbRow, mbCol) + off)
         == BlockByte(order, h, w, y, cb, cr, mbRow, mbCol, off)
  {
    var r, c := (off - LumaBytes) / ChromaSize, (off - LumaBytes) % ChromaSize;
    assert off == LumaBytes + r * ChromaSize + c;
    ChromaPacked(order, h, w, y, cb, cr, mbRow, mbCol, r, c);
  }

  lemma CrBytePacked(order: Order, h: nat, w: nat, y: seq<byte>, cb: seq<byte>, cr: seq<byte>,
                         mbRow: nat, mbCol: nat, off: nat)
    requires Aligned(h, w) && PlanesFit(h, w, y, cb, cr)
    requires mbRow < h / MbSize && mbCol < w / MbSize && CbEnd <= off < BlockBytes
    ensures BlockStart(w / MbSize, h / MbSize, mbRow, mbCol) + off < StreamLength(h, w)
    ensures PackedByte(order, h, w, y, cb, cr, BlockStart(w / MbSize, h / MbSize, mbRow, mbCol) + off)
         == BlockByte(order, h, w, y, cb, cr, mbRow, mbCol, off)
  {
    var r, c := (off - CbEnd) / ChromaSize, (off - CbEnd) % ChromaSize;
    assert off == CbEnd + r * ChromaSize + c;
    ChromaPacked(order, h, w, y, cb, cr, mbRow, mbCol, r, c);
  }

  lemma LumaPacked(order: Order, h: nat, w: nat, y: seq<byte>, cb: seq<byte>, cr: seq<byte>,
                   mbRow: nat, mbCol: nat, r: nat, c: nat)
    requires Aligned(h, w) && PlanesFit(h, w, y, cb, cr)
    requires mbRow < h / MbSize && mbCol < w / MbSize && r < MbSize && c < MbSize
    ensures BlockStart(w / MbSize, h / MbSize, mbRow, mbCol) + r * MbSize + c < StreamLength(h, w)
    ensures mbRow * MbSize + r < h && mbCol * MbSize + c < w
    ensures PackedByte(order, h, w, y, cb, cr, BlockStart(w / MbSize, h / MbSize, mbRow, mbCol) + r * MbSize + c)
         == y[PlaneIndex(order, h, w, mbRow * MbSize + r, mbCol * MbSize + c)]
  {
    LumaPlacement(h, w, mbRow, mbCol, r, c);
  }

  lemma ChromaPacked(order: Order, h: nat, w: nat, y: seq<byte>, cb: seq<byte>, cr: seq<byte>,
                     mbRow: nat, mbCol: nat, r: nat, c: nat)
    requires Aligned(h, w) && PlanesFit(h, w, y, cb, cr)
    requires mbRow < h / MbSize && mbCol < w / MbSize && r < ChromaSize && c < ChromaSize
    ensures BlockStart(w / MbSize, h / MbSize, mbRow, mbCol) + CbEnd + r * ChromaSize + c < StreamLength(h, w)
    ensures mbRow * ChromaSize + r < h / 2 && mbCol * ChromaSize + c < w / 2
    ensures PackedByte(order, h, w, y, cb, cr, BlockStart(w / MbSize, h / MbSize, mbRow, mbCol) + LumaBytes + r * ChromaSize + c)
         == cb[PlaneIndex(order, h / 2, w / 2, mbRow * ChromaSize + r, mbCol * ChromaSize + c)]
    ensures PackedByte(order, h, w, y, cb, cr, BlockStart(w / MbSize, h / MbSize, mbRow, mbCol) + CbEnd + r * ChromaSize + c)
         == cr[PlaneIndex(order, h / 2, w / 2, mbRow * ChromaSize + r, mbCol * ChromaSize + c)]
  {
    ChromaPlacement(h, w, mbRow, mbCol, r, c);
  }

  /** Scratch planes in the two orders that hold the same samples. */
  ghost predicate SamePlanes(h: nat, w: nat, y: seq<byte>, cb: seq<byte>, cr: seq<byte>,
                             y': seq<byte>, cb': seq<byte>, cr': seq<byte>)
    requires PlanesFit(h, w, y, cb, cr) && PlanesFit(h, w, y', cb', cr')
  {
    (forall r: nat, c: nat :: r < h && c < w ==>
      y[PlaneIndex(ColumnMajor, h, w, r, c)] == y'[PlaneIndex(RowMajor, h, w, r, c)]) &&
    (forall r: nat, c: nat :: r < h / 2 && c < w / 2 ==>
      cb[PlaneIndex(ColumnMajor, h / 2, w / 2, r, c)] == cb'[PlaneIndex(RowMajor, h / 2, w / 2, r, c)]) &&
    (forall r: nat, c: nat :: r < h / 2 && c < w / 2 ==>
      cr[PlaneIndex(ColumnMajor, h / 2, w / 2, r, c)] == cr'[PlaneIndex(RowMajor, h / 2, w / 2, r, c)])
  }

  /** Given the same logical Y, Cb and Cr planes, the column-major packer
      and the row-major packer produce identical streams. */
  lemma PackersAgree(h: nat, w: nat, y: seq<byte>, cb: seq<byte>, cr: seq<byte>,
                     y': seq<byte>, cb': seq<byte>, cr': seq<byte>, i: nat)
    requires Aligned(h, w) && PlanesFit(h, w, y, cb, cr) && PlanesFit(h, w, y', cb', cr')
    requires SamePlanes(h, w, y, cb, cr, y', cb', cr')
    requires i < StreamLength(h, w)
    ensures PackedByte(ColumnMajor, h, w, y, cb, cr, i) == PackedByte(RowMajor, h, w, y', cb', cr', i)
  {
    var s := Decode(h, w, i);
    match s
    case Luma(r, c) =>
    case Cb(r, c) =>
    case Cr(r, c) =>
    case Separator(_, _) =>
  }

  /** The packing loops, with `mbIdx` counting blocks: writes the whole
      stream of an aligned image of at least one block into `raw`. */
  method Pack(order: Order, h: nat, w: nat, y: seq<byte>, cb: seq<byte>, cr: seq<byte>, raw: array<byte>)
    requires Aligned(h, w) && BlockCount(h, w) > 0 && PlanesFit(h, w, y, cb, cr)
    requires raw.Length == StreamLength(h, w)
    modifies raw
    ensures forall i :: 0 <= i < raw.Length ==> raw[i] == PackedByte(order, h, w, y, cb, cr, i)
  {
    var bw, bh := w / MbSize, h / MbSize;
    var n := bw * bh;
    var mb: nat, mbIdx: nat := 0, 0;
    for mbRow := 0 to bh
      invariant mbIdx == mbRow * bw
      invariant mb == Emitted(n, mbIdx, false) && mb <= raw.Length
      invariant forall j :: 0 <= j < mb ==> raw[j] == PackedByte(order, h, w, y, cb, cr, j)
    {
      for mbCol := 0 to bw
        invariant mbIdx == mbRow * bw + mbCol
        invariant mb == Emitted(n, mbIdx, false) && mb <= raw.Length
        invariant forall j :: 0 <= j < mb ==> raw[j] == PackedByte(order, h, w, y, cb, cr, j)
      {
        mb := PackStep(order, h, w, y, cb, cr, raw, mbRow, mbCol, mbIdx, mb);
        mbIdx := mbIdx + 1;
      }
      assert mbIdx == (mbRow + 1) * bw;
    }
    assert mbIdx == n;
    EmittedIntended(n, n);
  }

  /** One pass of the block loop: block number mbIdx = (mbRow, mbCol) and,
      unless it is the last block, the separator after it. Returns the
      advanced write cursor. */
  method PackStep(order: Order, h: nat, w: nat, y: seq<byte>, cb: seq<byte>, cr: seq<byte>, raw: array<byte>,
                  mbRow: nat, mbCol: nat, mbIdx: nat, mb: nat) returns (mb': nat)
    requires Aligned(h, w) && PlanesFit(h, w, y, cb, cr) && raw.Length == StreamLength(h, w)
    requires mbRow < h / MbSize && mbCol < w / MbSize && mbIdx == mbRow * (w / MbSize) + mbCol
    requires mb == Emitted(BlockCount(h, w), mbIdx, false) && mb <= raw.Length
    requires forall j :: 0 <= j < mb ==> raw[j] == PackedByte(order, h, w, y, cb, cr, j)
    modifies raw
    ensures mb' == Emitted(BlockCount(h, w), mbIdx + 1, false) && mb' <= raw.Length
    ensures forall j :: 0 <= j < mb' ==> raw[j] == PackedByte(order, h, w, y, cb, cr, j)
    ensures raw[mb'..] == old(raw[mb'..])
  {
    var n := BlockCount(h, w);
    CellInBounds(mbRow, mbCol, h / MbSize, w / MbSize);
    EmittedIntended(n, mbIdx);
    SeparatorPlacement(h, w, mbRow, mbCol);
    ghost var before := raw[..];
    PackBlock(order, h, w, y, cb, cr, raw, mbRow, mbCol, mb);
    mb' := mb + BlockBytes;
    PrefixStep(order, h, w, y, cb, cr, before, raw[..], mb, mb');
    // Write header for next macroblock
    if mbIdx < n - 1 {
      before := raw[..];
      raw[mb'] := SeparatorHead;
      raw[mb' + 1] := SeparatorTail;
      PrefixStep(order, h, w, y, cb, cr, before, raw[..], mb', mb' + 2);
      mb' := mb' + 2;
    }
  }

  /** Writing the stream's bytes from `start` to `end` over a correct
      prefix up to `start` gives a correct prefix up to `end`. */
  lemma PrefixStep(order: Order, h: nat, w: nat, y: seq<byte>, cb: seq<byte>, cr: seq<byte>,
                   before: seq<byte>, after: seq<byte>, start: nat, end: nat)
    requires Aligned(h, w) && PlanesFit(h, w, y, cb, cr)
    requires start <= end <= |after| == |before| == StreamLength(h, w)
    requires forall j :: 0 <= j < start ==> before[j] == PackedByte(order, h, w, y, cb, cr, j)
    requires forall j :: 0 <= j < |after| ==>
      after[j] == if start <= j < end then PackedByte(order, h, w, y, cb, cr, j) else before[j]
    ensures forall j :: 0 <= j < end ==> after[j] == PackedByte(order, h, w, y, cb, cr, j)
  {
  }

  /** One block of the packing loop, at its place in the stream. */
  method PackBlock(order: Order, h: nat, w: nat, y: seq<byte>, cb: seq<byte>, cr: seq<byte>, raw: array<byte>,
                   mbRow: nat, mbCol: nat, base: nat)
    requires Aligned(h, w) && PlanesFit(h, w, y, cb, cr)
    requires mbRow < h / MbSize && mbCol < w / MbSize && raw.Length == StreamLength(h, w)
    requires base == BlockStart(w / MbSize, h / MbSize, mbRow, mbCol)
    modifies raw
    ensures forall j :: 0 <= j < raw.Length ==>
      raw[j] == if base <= j < base + BlockBytes then PackedByte(order, h, w, y, cb, cr, j)
                else old(raw[j])
  {
    if order == ColumnMajor {
      PackBlockColumnMajor(h, w, y, cb, cr, raw, mbRow, mbCol, base);
    } else {
      PackBlockRowMajor(h, w, y, cb, cr, raw, mbRow, mbCol, base);
    }
    forall j | base <= j < base + BlockBytes
      ensures raw[j] == PackedByte(order, h, w, y, cb, cr, j)
    {
      BlockBytesPacked(order, h, w, y, cb, cr, mbRow, mbCol, j - base);
    }
  }

  /** Block (mbRow, mbCol) from column-major planes, one byte at a time:
      `*mb++ = y[this_row + this_col * height]` and, for chroma,
      `cb[this_row + this_col * height/2]`. */
  method PackBlockColumnMajor(h: nat, w: nat, y: seq<byte>, cb: seq<byte>, cr: seq<byte>, raw: array<byte>,
                              mbRow: nat, mbCol: nat, base: nat)
    requires Aligned(h, w) && PlanesFit(h, w, y, cb, cr)
    requires mbRow < h / MbSize && mbCol < w / MbSize && base + BlockBytes <= raw.Length
    modifies raw
    ensures forall j :: 0 <= j < raw.Length ==>
      raw[j] == if base <= j < base + BlockBytes
                then BlockByte(ColumnMajor, h, w, y, cb, cr, mbRow, mbCol, j - base)
                else old(raw[j])
  {
    var mb := base;
    for row := 0 to MbSize
      invariant mb == base + row * MbSize
      invariant forall j :: 0 <= j < raw.Length ==>
        raw[j] == if base <= j < mb then BlockByte(ColumnMajor, h, w, y, cb, cr, mbRow, mbCol, j - base)
                  else old(raw[j])
    {
      var thisRow := mbRow * MbSize + row;
      for col := 0 to MbSize
        invariant mb == base + row * MbSize + col
        invariant forall j :: 0 <= j < raw.Length ==>
          raw[j] == if base <= j < mb then BlockByte(ColumnMajor, h, w, y, cb, cr, mbRow, mbCol, j - base)
                    else old(raw[j])
      {
        var thisCol := mbCol * MbSize + col;
        LumaStep(h, w, mbRow, mbCol, row, col);
        assert mb - base == row * MbSize + col;
        raw[mb] := y[thisRow + thisCol * h];
        mb := mb + 1;
      }
    }
    PackChromaColumnMajor(h, w, cb, raw, mbRow, mbCol, base, LumaBytes);
    PackChromaColumnMajor(h, w, cr, raw, mbRow, mbCol, base, CbEnd);
  }

  /** Luma byte (row, col) of block (mbRow, mbCol) is at block offset
      row*16 + col, and the column-major index the C code computes is the
      plane index of its image position. */
  lemma LumaStep(h: nat, w: nat, mbRow: nat, mbCol: nat, row: nat, col: nat)
    requires Aligned(h, w) && mbRow < h / MbSize && mbCol < w / MbSize && row < MbSize && col < MbSize
    ensures mbRow * MbSize + row < h && mbCol * MbSize + col < w
    ensures (row * MbSize + col) / MbSize == row && (row * MbSize + col) % MbSize == col
    ensures (mbRow * MbSize + row) + (mbCol * MbSize + col) * h
         == PlaneIndex(ColumnMajor, h, w, mbRow * MbSize + row, mbCol * MbSize + col)
  {
    DivModOf(row, col, MbSize);
    MulMonotone(mbRow + 1, h / MbSize, MbSize);
    MulMonotone(mbCol + 1, w / MbSize, MbSize);
  }

  /** One 8x8 chroma sub-block of block (mbRow, mbCol) at block offset
      `start` (256 for Cb, 320 for Cr), from a column-major plane. */
  method PackChromaColumnMajor(h: nat, w: nat, plane: seq<byte>, raw: array<byte>,
                               mbRow: nat, mbCol: nat, base: nat, start: nat)
    requires Aligned(h, w) && |plane| == (h / 2) * (w / 2)
    requires mbRow < h / MbSize && mbCol < w / MbSize
    requires start + ChromaSize * ChromaSize <= BlockBytes && base + BlockBytes <= raw.Length
    modifies raw
    ensures forall j :: 0 <= j < raw.Length ==>
      raw[j] == if base + start <= j < base + start + ChromaSize * ChromaSize
                then plane[ChromaAt(ColumnMajor, h, w, mbRow, mbCol, j - (base + start))]
                else old(raw[j])
  {
    var mb := base + start;
    for row := 0 to ChromaSize
      invariant mb == base + start + row * ChromaSize
      invariant forall j :: 0 <= j < raw.Length ==>
        raw[j] == if base + start <= j < mb then plane[ChromaAt(ColumnMajor, h, w, mbRow, mbCol, j - (base + start))]
                  else old(raw[j])
    {
      var thisRow := mbRow * ChromaSize + row;
      for col := 0 to ChromaSize
        invariant mb == base + start + row * ChromaSize + col
        invariant forall j :: 0 <= j < raw.Length ==>
          raw[j] == if base + start <= j < mb then plane[ChromaAt(ColumnMajor, h, w, mbRow, mbCol, j - (base + start))]
                    else old(raw[j])
      {
        var thisCol := mbCol * ChromaSize + col;
        ChromaStep(h, w, mbRow, mbCol, row, col);
        assert mb - (base + start) == row * ChromaSize + col;
        raw[mb] := plane[thisRow + (thisCol * h) / 2];
        mb := mb + 1;
      }
    }
  }

  /** Plane index of byte `off` of an 8x8 chroma sub-block of block
      (mbRow, mbCol): chroma position (mbRow*8 + off/8, mbCol*8 + off%8). */
  function ChromaAt(order: Order, h: nat, w: nat, mbRow: nat, mbCol: nat, off: nat): (k: nat)
    requires Aligned(h, w) && mbRow < h / MbSize && mbCol < w / MbSize && off < ChromaSize * ChromaSize
    ensures k < (h / 2) * (w / 2)
  {
    ChromaCell(h, w, mbRow, mbCol, off / ChromaSize, off % ChromaSize);
    PlaneIndex(order, h / 2, w / 2, mbRow * ChromaSize + off / ChromaSize, mbCol * ChromaSize + off % ChromaSize)
  }

  /** Chroma row and column of a sub-block byte lie inside the chroma plane. */
  lemma ChromaCell(h: nat, w: nat, mbRow: nat, mbCol: nat, row: nat, col: nat)
    requires Aligned(h, w) && mbRow < h / MbSize && mbCol < w / MbSize && row < ChromaSize && col < ChromaSize
    ensures mbRow * ChromaSize + row < h / 2 && mbCol * ChromaSize + col < w / 2
  {
    MulMonotone(mbRow + 1, h / MbSize, ChromaSize);
    MulMonotone(mbCol + 1, w / MbSize, ChromaSize);
  }

  /** Chroma byte (row, col) of a sub-block is at offset row*8 + col, and
      the C index `this_row + this_col * height/2`, that is
      this_row + (this_col*height)/2, is its column-major plane index. */
  lemma ChromaStep(h: nat, w: nat, mbRow: nat, mbCol: nat, row: nat, col: nat)
    requires Aligned(h, w) && mbRow < h / MbSize && mbCol < w / MbSize && row < ChromaSize && col < ChromaSize
    ensures row * ChromaSize + col < ChromaSize * ChromaSize
    ensures ChromaAt(ColumnMajor, h, w, mbRow, mbCol, row * ChromaSize + col)
         == (mbRow * ChromaSize + row) + ((mbCol * ChromaSize + col) * h) / 2
  {
    var off := row * ChromaSize + col;
    DivModOf(row, col, ChromaSize);
    assert off / ChromaSize == row && off % ChromaSize == col;
    ChromaCell(h, w, mbRow, mbCol, row, col);
    var thisRow, thisCol := mbRow * ChromaSize + row, mbCol * ChromaSize + col;
    assert ChromaAt(ColumnMajor, h, w, mbRow, mbCol, off) == PlaneIndex(ColumnMajor, h / 2, w / 2, thisRow, thisCol);
    HalfProduct(thisCol, h);
  }

  /** Block (mbRow, mbCol) from row-major planes: sixteen 16-byte copies of
      luma rows starting at (mb_row*width + mb_col)*16, then eight pairs of
      8-byte copies of Cb and Cr rows starting at (mb_row*width/2 + mb_col)*8,
      the Cr row going 64 bytes past the Cb row. */
  method PackBlockRowMajor(h: nat, w: nat, y: seq<byte>, cb: seq<byte>, cr: seq<byte>, raw: array<byte>,
                           mbRow: nat, mbCol: nat, base: nat)
    requires Aligned(h, w) && PlanesFit(h, w, y, cb, cr)
    requires mbRow < h / MbSize && mbCol < w / MbSize && base + BlockBytes <= raw.Length
    modifies raw
    ensures forall j :: 0 <= j < raw.Length ==>
      raw[j] == if base <= j < base + BlockBytes
                then BlockByte(RowMajor, h, w, y, cb, cr, mbRow, mbCol, j - base)
                else old(raw[j])
  {
    PackLumaRowMajor(h, w, y, raw, mbRow, mbCol, base);
    PackChromaRowMajor(h, w, cb, cr, raw, mbRow, mbCol, base);
  }

  /** The luma rows of block (mbRow, mbCol): `memcpy(mb, y + offset, 16)`
      with offset starting at (mb_row*width + mb_col)*16 and stepping by
      width. */
  method PackLumaRowMajor(h: nat, w: nat, y: seq<byte>, raw: array<byte>, mbRow: nat, mbCol: nat, base: nat)
    requires Aligned(h, w) && |y| == h * w
    requires mbRow < h / MbSize && mbCol < w / MbSize && base + LumaBytes <= raw.Length
    modifies raw
    ensures forall j :: 0 <= j < raw.Length ==>
      raw[j] == if base <= j < base + LumaBytes
                then y[LumaAt(RowMajor, h, w, mbRow, mbCol, j - base)]
                else old(raw[j])
  {
    var mb := base;
    var offset := (mbRow * w + mbCol) * MbSize;
    for i := 0 to MbSize
      invariant mb == base + i * MbSize
      invariant offset == (mbRow * MbSize + i) * w + mbCol * MbSize
      invariant forall j :: 0 <= j < raw.Length ==>
        raw[j] == if base <= j < mb then y[LumaAt(RowMajor, h, w, mbRow, mbCol, j - base)]
                  else old(raw[j])
    {
      LumaRow(h, w, mbRow, mbCol, i);
      Memory.Memcpy(raw, mb, y, offset, MbSize);
      forall j | mb <= j < mb + MbSize
        ensures raw[j] == y[LumaAt(RowMajor, h, w, mbRow, mbCol, j - base)]
      {
        LumaRowByte(h, w, mbRow, mbCol, i, j - mb);
      }
      mb := mb + MbSize;
      assert (mbRow * MbSize + i + 1) * w == (mbRow * MbSize + i) * w + w;
      offset := offset + w;
    }
  }

  /** The chroma rows of block (mbRow, mbCol): `memcpy(mb, cb + offset, 8)`
      and `memcpy(mb + 64, cr + offset, 8)` with offset starting at
      (mb_row*width/2 + mb_col)*8 and stepping by width/2. */
  method PackChromaRowMajor(h: nat, w: nat, cb: seq<byte>, cr: seq<byte>, raw: array<byte>,
                            mbRow: nat, mbCol: nat, base: nat)
    requires Aligned(h, w) && |cb| == (h / 2) * (w / 2) && |cr| == (h / 2) * (w / 2)
    requires mbRow < h / MbSize && mbCol < w / MbSize && base + BlockBytes <= raw.Length
    modifies raw
    ensures ChromaRowsCopied(h, w, cb, cr, mbRow, mbCol, base, ChromaSize, ChromaSize, old(raw[..]), raw[..])
  {
    var mb := base + LumaBytes;
    var offset := ((mbRow * w) / 2 + mbCol) * ChromaSize;
    ghost var start := offset;
    for i := 0 to ChromaSize
      invariant mb == base + LumaBytes + i * ChromaSize
      invariant offset == start + i * (w / 2)
      invariant ChromaRowsCopied(h, w, cb, cr, mbRow, mbCol, base, i, i, old(raw[..]), raw[..])
    {
      ChromaPass(h, w, cb, cr, raw, mbRow, mbCol, base, i, mb, offset, old(raw[..]));
      mb := mb + ChromaSize;
      offset := offset + w / 2;
    }
  }

  /** The first cbRows rows of the Cb sub-block and the first crRows rows
      of the Cr sub-block of the block at `base` hold their samples, and the
      rest of `s` is as in `orig`. */
  ghost predicate ChromaRowsCopied(h: nat, w: nat, cb: seq<byte>, cr: seq<byte>, mbRow: nat, mbCol: nat,
                                   base: nat, cbRows: nat, crRows: nat, orig: seq<byte>, s: seq<byte>)
    requires Aligned(h, w) && |cb| == (h / 2) * (w / 2) && |cr| == (h / 2) * (w / 2)
    requires mbRow < h / MbSize && mbCol < w / MbSize && cbRows <= ChromaSize && crRows <= ChromaSize
  {
    |s| == |orig| &&
    forall j :: 0 <= j < |s| ==>
      s[j] == if base + LumaBytes <= j < base + LumaBytes + cbRows * ChromaSize
              then cb[ChromaAt(RowMajor, h, w, mbRow, mbCol, j - (base + LumaBytes))]
              else if base + CbEnd <= j < base + CbEnd + crRows * ChromaSize
              then cr[ChromaAt(RowMajor, h, w, mbRow, mbCol, j - (base + CbEnd))]
              else orig[j]
  }

  /** The first memcpy of a pass copies row i of the Cb sub-block. */
  lemma CbRowStep(h: nat, w: nat, cb: seq<byte>, cr: seq<byte>, mbRow: nat, mbCol: nat,
                  base: nat, i: nat, offset: nat, orig: seq<byte>, before: seq<byte>, after: seq<byte>)
    requires Aligned(h, w) && |cb| == (h / 2) * (w / 2) && |cr| == (h / 2) * (w / 2)
    requires mbRow < h / MbSize && mbCol < w / MbSize && i < ChromaSize
    requires ChromaRowsCopied(h, w, cb, cr, mbRow, mbCol, base, i, i, orig, before)
    requires offset == (mbRow * ChromaSize + i) * (w / 2) + mbCol * ChromaSize
    requires offset + ChromaSize <= |cb|
    requires |after| == |before| && base + BlockBytes <= |after|
    requires forall j :: 0 <= j < |after| ==>
      after[j] == if base + LumaBytes + i * ChromaSize <= j < base + LumaBytes + i * ChromaSize + ChromaSize
                  then cb[offset + (j - (base + LumaBytes + i * ChromaSize))]
                  else before[j]
    ensures ChromaRowsCopied(h, w, cb, cr, mbRow, mbCol, base, i + 1, i, orig, after)
  {
    var mb := base + LumaBytes + i * ChromaSize;
    forall j | mb <= j < mb + ChromaSize
      ensures after[j] == cb[ChromaAt(RowMajor, h, w, mbRow, mbCol, j - (base + LumaBytes))]
    {
      ChromaRowByte(h, w, mbRow, mbCol, i, j - mb);
    }
  }

  /** The second memcpy of a pass copies row i of the Cr sub-block. */
  lemma CrRowStep(h: nat, w: nat, cb: seq<byte>, cr: seq<byte>, mbRow: nat, mbCol: nat,
                  base: nat, i: nat, offset: nat, orig: seq<byte>, before: seq<byte>, after: seq<byte>)
    requires Aligned(h, w) && |cb| == (h / 2) * (w / 2) && |cr| == (h / 2) * (w / 2)
    requires mbRow < h / MbSize && mbCol < w / MbSize && i < ChromaSize
    requires ChromaRowsCopied(h, w, cb, cr, mbRow, mbCol, base, i + 1, i, orig, before)
    requires offset == (mbRow * ChromaSize + i) * (w / 2) + mbCol * ChromaSize
    requires offset + ChromaSize <= |cr|
    requires |after| == |before| && base + BlockBytes <= |after|
    requires forall j :: 0 <= j < |after| ==>
      after[j] == if base + CbEnd + i * ChromaSize <= j < base + CbEnd + i * ChromaSize + ChromaSize
                  then cr[offset + (j - (base + CbEnd + i * ChromaSize))]
                  else before[j]
    ensures ChromaRowsCopied(h, w, cb, cr, mbRow, mbCol, base, i + 1, i + 1, orig, after)
  {
    var mb := base + CbEnd + i * ChromaSize;
    forall j | mb <= j < mb + ChromaSize
      ensures after[j] == cr[ChromaAt(RowMajor, h, w, mbRow, mbCol, j - (base + CbEnd))]
    {
      ChromaRowByte(h, w, mbRow, mbCol, i, j - mb);
    }
  }

  /** The body of the chroma loop: one Cb row to `mb`, the Cr row at the
      same offset to `mb + 64`; row i of both sub-blocks is then in place. */
  method ChromaPass(h: nat, w: nat, cb: seq<byte>, cr: seq<byte>, raw: array<byte>, mbRow: nat, mbCol: nat,
                    base: nat, i: nat, mb: nat, offset: nat, ghost orig: seq<byte>)
    requires Aligned(h, w) && |cb| == (h / 2) * (w / 2) && |cr| == (h / 2) * (w / 2)
    requires mbRow < h / MbSize && mbCol < w / MbSize && i < ChromaSize && base + BlockBytes <= raw.Length
    requires mb == base + LumaBytes + i * ChromaSize
    requires offset == ((mbRow * w) / 2 + mbCol) * ChromaSize + i * (w / 2)
    requires ChromaRowsCopied(h, w, cb, cr, mbRow, mbCol, base, i, i, orig, raw[..])
    modifies raw
    ensures ChromaRowsCopied(h, w, cb, cr, mbRow, mbCol, base, i + 1, i + 1, orig, raw[..])
  {
    HalfProduct(mbRow, w);
    ChromaRow(h, w, mbRow, mbCol, i);
    ghost var before := raw[..];
    Memory.Memcpy(raw, mb, cb, offset, ChromaSize);
    CbRowStep(h, w, cb, cr, mbRow, mbCol, base, i, offset, orig, before, raw[..]);
    ghost var middle := raw[..];
    Memory.Memcpy(raw, mb + ChromaSize * ChromaSize, cr, offset, ChromaSize);
    CrRowStep(h, w, cb, cr, mbRow, mbCol, base, i, offset, orig, middle, raw[..]);
  }

  /** Plane index of byte `off` of the 16x16 luma part of block
      (mbRow, mbCol): image position (mbRow*16 + off/16, mbCol*16 + off%16). */
  function LumaAt(order: Order, h: nat, w: nat, mbRow: nat, mbCol: nat, off: nat): (k: nat)
    requires Aligned(h, w) && mbRow < h / MbSize && mbCol < w / MbSize && off < LumaBytes
    ensures k < h * w
  {
    LumaStep(h, w, mbRow, mbCol, off / MbSize, off % MbSize);
    PlaneIndex(order, h, w, mbRow * MbSize + off / MbSize, mbCol * MbSize + off % MbSize)
  }

  /** Luma row i of block (mbRow, mbCol) starts at the row-major index of
      image position (mbRow*16 + i, mbCol*16) and its 16 bytes lie inside
      the plane. */
  lemma LumaRow(h: nat, w: nat, mbRow: nat, mbCol: nat, i: nat)
    requires Aligned(h, w) && mbRow < h / MbSize && mbCol < w / MbSize && i < MbSize
    ensures (mbRow * MbSize + i) * w + mbCol * MbSize + MbSize <= h * w
    ensures (mbRow * w + mbCol) * MbSize + i * w == (mbRow * MbSize + i) * w + mbCol * MbSize
  {
    LumaStep(h, w, mbRow, mbCol, i, MbSize - 1);
    CellInBounds(mbRow * MbSize + i, mbCol * MbSize + MbSize - 1, h, w);
  }

  /** Byte c of luma row i of the block is the row-major plane byte at
      offset c from the row's start. */
  lemma LumaRowByte(h: nat, w: nat, mbRow: nat, mbCol: nat, i: nat, c: nat)
    requires Aligned(h, w) && mbRow < h / MbSize && mbCol < w / MbSize && i < MbSize && c < MbSize
    ensures i * MbSize + c < LumaBytes
    ensures LumaAt(RowMajor, h, w, mbRow, mbCol, i * MbSize + c) == (mbRow * MbSize + i) * w + mbCol * MbSize + c
  {
    LumaStep(h, w, mbRow, mbCol, i, c);
  }

  /** Chroma row i of a sub-block starts at the row-major index of chroma
      position (mbRow*8 + i, mbCol*8) and its 8 bytes lie inside the plane. */
  lemma ChromaRow(h: nat, w: nat, mbRow: nat, mbCol: nat, i: nat)
    requires Aligned(h, w) && mbRow < h / MbSize && mbCol < w / MbSize && i < ChromaSize
    ensures (mbRow * ChromaSize + i) * (w / 2) + mbCol * ChromaSize + ChromaSize <= (h / 2) * (w / 2)
    ensures (mbRow * (w / 2) + mbCol) * ChromaSize + i * (w / 2)
         == (mbRow * ChromaSize + i) * (w / 2) + mbCol * ChromaSize
  {
    ChromaCell(h, w, mbRow, mbCol, i, ChromaSize - 1);
    CellInBounds(mbRow * ChromaSize + i, mbCol * ChromaSize + ChromaSize - 1, h / 2, w / 2);
  }

  /** Byte c of chroma row i of the sub-block is the row-major plane byte
      at offset c from the row's start. */
  lemma ChromaRowByte(h: nat, w: nat, mbRow: nat, mbCol: nat, i: nat, c: nat)
    requires Aligned(h, w) && mbRow < h / MbSize && mbCol < w / MbSize && i < ChromaSize && c < ChromaSize
    ensures i * ChromaSize + c < ChromaSize * ChromaSize
    ensures ChromaAt(RowMajor, h, w, mbRow, mbCol, i * ChromaSize + c)
         == (mbRow * ChromaSize + i) * (w / 2) + mbCol * ChromaSize + c
  {
    DivModOf(i, c, ChromaSize);
    ChromaCell(h, w, mbRow, mbCol, i, c);
  }
}
