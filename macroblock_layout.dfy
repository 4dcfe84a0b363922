/** The byte layout of the macroblock stream written by
    `array_to_macroblocks_` and `nr_to_macroblocks_`: for every 16x16 block,
    in row-major block order, 256 luma bytes, 64 Cb bytes, 64 Cr bytes and,
    between two blocks, the separator 0x0D 0x00.

    `Decode` says which sample (or separator byte) lands at each output
    index; `Encode` is its inverse. The packers in RgbToYcbcr are proved
    against `Decode`. */
module MacroblockLayout {
  import opened Arith

  newtype byte = b: int | 0 <= b < 256

  const MbSize: nat := 16
  const ChromaSize: nat := 8
  const LumaBytes: nat := 256
  const CbEnd: nat := 320
  const BlockBytes: nat := 384
  /** A block followed by its separator. */
  const Stride: nat := 386
  const SeparatorHead: byte := 0x0D
  const SeparatorTail: byte := 0x00

  /** The alignment check both entry points make before anything else. */
  predicate Aligned(h: nat, w: nat)
  {
    h % MbSize == 0 && w % MbSize == 0
  }

  /** Aligned dimensions are even: the chroma planes are exactly half size. */
  lemma AlignedEven(h: nat, w: nat)
    requires Aligned(h, w)
    ensures h % 2 == 0 && w % 2 == 0
    ensures h / 2 == ChromaSize * (h / MbSize) && w / 2 == ChromaSize * (w / MbSize)
  {
    var a, b := h / MbSize, w / MbSize;
    assert h == (ChromaSize * a) * 2 && w == (ChromaSize * b) * 2;
    DivModOf(ChromaSize * a, 0, 2);
    DivModOf(ChromaSize * b, 0, 2);
  }

  function BlockCount(h: nat, w: nat): nat
  {
    (w / MbSize) * (h / MbSize)
  }

  /** `macroblocks_length` as the C code computes it: `width/2 * height/2`
      parses as `((width/2) * height) / 2`, and with no block at all the
      value is -2, which no buffer length matches. */
  function MacroblocksLength(h: nat, w: nat): int
  {
    w * h + ((w / 2) * h) / 2 + ((w / 2) * h) / 2 + (BlockCount(h, w) - 1) * 2
  }

  /** On aligned dimensions the C expression is the intended one: the luma
      plane, two quarter-size chroma planes and one separator between each
      pair of consecutive blocks; that is, n blocks of 386 bytes less the
      separator that does not follow the last one. */
  lemma MacroblocksLengthValue(h: nat, w: nat)
    requires Aligned(h, w)
    ensures MacroblocksLength(h, w) == w * h + 2 * ((w / 2) * (h / 2)) + 2 * (BlockCount(h, w) - 1)
    ensures MacroblocksLength(h, w) == BlockCount(h, w) * Stride - 2
  {
    var a, b := w / MbSize, h / MbSize;
    var n := a * b;
    assert BlockCount(h, w) == n;
    assert w / 2 == 8 * a && h / 2 == 8 * b;
    calc {
      w * h;
      (16 * a) * (16 * b);
      256 * n;
    }
    calc {
      (w / 2) * h;
      (8 * a) * (16 * b);
      128 * n;
    }
    assert ((w / 2) * h) / 2 == 64 * n;
    calc {
      (w / 2) * (h / 2);
      (8 * a) * (8 * b);
      64 * n;
    }
  }

  /** What one output byte carries. */
  datatype Slot =
    | Luma(row: nat, col: nat)          // Y at image position (row, col)
    | Cb(row: nat, col: nat)            // Cb at chroma position (row, col)
    | Cr(row: nat, col: nat)            // Cr at chroma position (row, col)
    | Separator(block: nat, index: nat) // byte `index` of the separator after `block`

  ghost predicate ValidSlot(h: nat, w: nat, s: Slot)
  {
    match s
    case Luma(r, c) => r < h && c < w
    case Cb(r, c) => r < h / 2 && c < w / 2
    case Cr(r, c) => r < h / 2 && c < w / 2
    case Separator(k, b) => k + 1 < BlockCount(h, w) && b < 2
  }

  /** Length of the stream the packers write: n blocks, n - 1 separators. */
  function StreamLength(h: nat, w: nat): int
  {
    BlockCount(h, w) * Stride - 2
  }

  /** The slot carried by output byte i. Block k = i / 386 sits at block row
      k / (w/16) and block column k % (w/16); inside it, luma is row-major
      16 per row and each chroma sub-block row-major 8 per row. */
  function Decode(h: nat, w: nat, i: nat): (s: Slot)
    requires Aligned(h, w) && i < StreamLength(h, w)
    ensures ValidSlot(h, w, s)
  {
    var bw := w / MbSize;
    var k, off := i / Stride, i % Stride;
    BlockOfByte(h, w, i);
    BlockSlotValid(h, w, k / bw, k % bw, k, off);
    BlockSlot(k / bw, k % bw, k, off)
  }

  /** Byte i of the stream lies in block i / 386, on the block grid, and
      only blocks before the last are followed by separator bytes. */
  lemma BlockOfByte(h: nat, w: nat, i: nat)
    requires Aligned(h, w) && i < StreamLength(h, w)
    ensures var bw, k, off := w / MbSize, i / Stride, i % Stride;
      k < BlockCount(h, w) && k / bw < h / MbSize && k % bw < bw && k == (k / bw) * bw + k % bw &&
      (off >= BlockBytes ==> k + 1 < BlockCount(h, w))
  {
    var bw, bh := w / MbSize, h / MbSize;
    var n := BlockCount(h, w);
    var k, off := i / Stride, i % Stride;
    assert i == k * Stride + off;
    if k >= n {
      MulMonotone(n, k, Stride);
    }
    LineBelow(k, bh, bw);
  }

  lemma BlockSlotValid(h: nat, w: nat, mbRow: nat, mbCol: nat, k: nat, off: nat)
    requires Aligned(h, w) && mbRow < h / MbSize && mbCol < w / MbSize && off < Stride
    requires off >= BlockBytes ==> k + 1 < BlockCount(h, w)
    ensures ValidSlot(h, w, BlockSlot(mbRow, mbCol, k, off))
  {
    if off < LumaBytes {
      CellInBounds(mbRow, off / MbSize, h / MbSize, MbSize);
      CellInBounds(mbCol, off % MbSize, w / MbSize, MbSize);
    } else if off < CbEnd {
      CellInBounds(mbRow, (off - LumaBytes) / ChromaSize, h / MbSize, ChromaSize);
      CellInBounds(mbCol, (off - LumaBytes) % ChromaSize, w / MbSize, ChromaSize);
    } else if off < BlockBytes {
      CellInBounds(mbRow, (off - CbEnd) / ChromaSize, h / MbSize, ChromaSize);
      CellInBounds(mbCol, (off - CbEnd) % ChromaSize, w / MbSize, ChromaSize);
    }
  }

  /** The slot carried by byte `off` of block k, at block row mbRow and
      block column mbCol. */
  function BlockSlot(mbRow: nat, mbCol: nat, k: nat, off: nat): Slot
  {
    if off < LumaBytes then
      Luma(mbRow * MbSize + off / MbSize, mbCol * MbSize + off % MbSize)
    else if off < CbEnd then
      Cb(mbRow * ChromaSize + (off - LumaBytes) / ChromaSize, mbCol * ChromaSize + (off - LumaBytes) % ChromaSize)
    else if off < BlockBytes then
      Cr(mbRow * ChromaSize + (off - CbEnd) / ChromaSize, mbCol * ChromaSize + (off - CbEnd) % ChromaSize)
    else
      Separator(k, off - BlockBytes)
  }

  /** The output index that carries slot s. */
  function Encode(h: nat, w: nat, s: Slot): (i: nat)
    requires Aligned(h, w) && ValidSlot(h, w, s)
    ensures i < StreamLength(h, w)
  {
    var bw, bh := w / MbSize, h / MbSize;
    match s
    case Luma(r, c) =>
      BlockStart(bw, bh, r / MbSize, c / MbSize) + (r % MbSize) * MbSize + c % MbSize
    case Cb(r, c) =>
      BlockStart(bw, bh, r / ChromaSize, c / ChromaSize) + LumaBytes + (r % ChromaSize) * ChromaSize + c % ChromaSize
    case Cr(r, c) =>
      BlockStart(bw, bh, r / ChromaSize, c / ChromaSize) + CbEnd + (r % ChromaSize) * ChromaSize + c % ChromaSize
    case Separator(k, b) =>
      k * Stride + BlockBytes + b
  }

  /** First output index of block (mbRow, mbCol) on a grid bw blocks wide. */
  function BlockStart(bw: nat, bh: nat, mbRow: nat, mbCol: nat): (i: nat)
    requires mbRow < bh && mbCol < bw
    ensures i + BlockBytes <= bw * bh * Stride - 2
  {
    CellInBounds(mbRow, mbCol, bh, bw);
    (mbRow * bw + mbCol) * Stride
  }

  /** Every slot of the image is carried by exactly the byte Encode names. */
  lemma DecodeEncode(h: nat, w: nat, s: Slot)
    requires Aligned(h, w) && ValidSlot(h, w, s)
    ensures Decode(h, w, Encode(h, w, s)) == s
  {
    match s
    case Luma(r, c) => LumaDecoded(h, w, r, c);
    case Cb(r, c) => ChromaDecoded(h, w, r, c);
    case Cr(r, c) => ChromaDecoded(h, w, r, c);
    case Separator(k, b) => SeparatorEncoded(h, w, k, b);
  }

  lemma LumaDecoded(h: nat, w: nat, r: nat, c: nat)
    requires Aligned(h, w) && r < h && c < w
    ensures Decode(h, w, Encode(h, w, Luma(r, c))) == Luma(r, c)
  {
    LumaPlacement(h, w, r / MbSize, c / MbSize, r % MbSize, c % MbSize);
  }

  lemma ChromaDecoded(h: nat, w: nat, r: nat, c: nat)
    requires Aligned(h, w) && r < h / 2 && c < w / 2
    ensures Decode(h, w, Encode(h, w, Cb(r, c))) == Cb(r, c)
    ensures Decode(h, w, Encode(h, w, Cr(r, c))) == Cr(r, c)
  {
    AlignedEven(h, w);
    ChromaPlacement(h, w, r / ChromaSize, c / ChromaSize, r % ChromaSize, c % ChromaSize);
  }

  lemma SeparatorEncoded(h: nat, w: nat, k: nat, b: nat)
    requires Aligned(h, w) && k + 1 < BlockCount(h, w) && b < 2
    ensures Decode(h, w, Encode(h, w, Separator(k, b))) == Separator(k, b)
  {
    var bw := w / MbSize;
    LineBelow(k, h / MbSize, bw);
    assert k == (k / bw) * bw + k % bw;
    SeparatorPlacement(h, w, k / bw, k % bw);
  }

  /** Every output byte carries a slot, and Encode finds it again. */
  lemma EncodeDecode(h: nat, w: nat, i: nat)
    requires Aligned(h, w) && i < StreamLength(h, w)
    ensures Encode(h, w, Decode(h, w, i)) == i
  {
    var bw := w / MbSize;
    var k, off := i / Stride, i % Stride;
    BlockOfByte(h, w, i);
    BlockSlotEncoded(h, w, k / bw, k % bw, k, off);
    assert i == k * Stride + off;
  }

  /** Encode sends the slot of byte `off` of block k back to that byte. */
  lemma BlockSlotEncoded(h: nat, w: nat, mbRow: nat, mbCol: nat, k: nat, off: nat)
    requires Aligned(h, w) && mbRow < h / MbSize && mbCol < w / MbSize && off < Stride
    requires k == mbRow * (w / MbSize) + mbCol
    requires off >= BlockBytes ==> k + 1 < BlockCount(h, w)
    ensures ValidSlot(h, w, BlockSlot(mbRow, mbCol, k, off))
    ensures Encode(h, w, BlockSlot(mbRow, mbCol, k, off)) == k * Stride + off
  {
    if off < LumaBytes {
      LumaEncoded(h, w, mbRow, mbCol, k, off);
    } else if off < CbEnd {
      CbEncoded(h, w, mbRow, mbCol, k, off);
    } else if off < BlockBytes {
      CrEncoded(h, w, mbRow, mbCol, k, off);
    }
  }

  /** Luma byte `off` of block k is where Encode puts its pixel. */
  lemma LumaEncoded(h: nat, w: nat, mbRow: nat, mbCol: nat, k: nat, off: nat)
    requires Aligned(h, w) && mbRow < h / MbSize && mbCol < w / MbSize && off < LumaBytes
    requires k == mbRow * (w / MbSize) + mbCol
    ensures ValidSlot(h, w, BlockSlot(mbRow, mbCol, k, off))
    ensures Encode(h, w, BlockSlot(mbRow, mbCol, k, off)) == k * Stride + off
  {
    CellInBounds(mbRow, off / MbSize, h / MbSize, MbSize);
    CellInBounds(mbCol, off % MbSize, w / MbSize, MbSize);
    DivModOf(mbRow, off / MbSize, MbSize);
    DivModOf(mbCol, off % MbSize, MbSize);
  }

  /** Cb byte `off` of block k is where Encode puts its sample. */
  lemma CbEncoded(h: nat, w: nat, mbRow: nat, mbCol: nat, k: nat, off: nat)
    requires Aligned(h, w) && mbRow < h / MbSize && mbCol < w / MbSize && LumaBytes <= off < CbEnd
    requires k == mbRow * (w / MbSize) + mbCol
    ensures ValidSlot(h, w, BlockSlot(mbRow, mbCol, k, off))
    ensures Encode(h, w, BlockSlot(mbRow, mbCol, k, off)) == k * Stride + off
  {
    var o := off - LumaBytes;
    ChromaEncoded(h, w, mbRow, mbCol, o);
    assert BlockSlot(mbRow, mbCol, k, off) == Cb(mbRow * ChromaSize + o / ChromaSize, mbCol * ChromaSize + o % ChromaSize);
    assert BlockStart(w / MbSize, h / MbSize, mbRow, mbCol) == k * Stride;
  }

  /** Cr byte `off` of block k is where Encode puts its sample. */
  lemma CrEncoded(h: nat, w: nat, mbRow: nat, mbCol: nat, k: nat, off: nat)
    requires Aligned(h, w) && mbRow < h / MbSize && mbCol < w / MbSize && CbEnd <= off < BlockBytes
    requires k == mbRow * (w / MbSize) + mbCol
    ensures ValidSlot(h, w, BlockSlot(mbRow, mbCol, k, off))
    ensures Encode(h, w, BlockSlot(mbRow, mbCol, k, off)) == k * Stride + off
  {
    var o := off - CbEnd;
    ChromaEncoded(h, w, mbRow, mbCol, o);
    assert BlockSlot(mbRow, mbCol, k, off) == Cr(mbRow * ChromaSize + o / ChromaSize, mbCol * ChromaSize + o % ChromaSize);
    assert BlockStart(w / MbSize, h / MbSize, mbRow, mbCol) == k * Stride;
  }

  /** Byte `off` of either 8x8 chroma sub-block of block (mbRow, mbCol) is
      where Encode puts its sample. */
  lemma ChromaEncoded(h: nat, w: nat, mbRow: nat, mbCol: nat, off: nat)
    requires Aligned(h, w) && mbRow < h / MbSize && mbCol < w / MbSize && off < ChromaSize * ChromaSize
    ensures var r, c := mbRow * ChromaSize + off / ChromaSize, mbCol * ChromaSize + off % ChromaSize;
      r < h / 2 && c < w / 2 &&
      Encode(h, w, Cb(r, c)) == BlockStart(w / MbSize, h / MbSize, mbRow, mbCol) + LumaBytes + off &&
      Encode(h, w, Cr(r, c)) == BlockStart(w / MbSize, h / MbSize, mbRow, mbCol) + CbEnd + off
  {
    CellInBounds(mbRow, off / ChromaSize, h / MbSize, ChromaSize);
    CellInBounds(mbCol, off % ChromaSize, w / MbSize, ChromaSize);
    DivModOf(mbRow, off / ChromaSize, ChromaSize);
    DivModOf(mbCol, off % ChromaSize, ChromaSize);
  }

  /** Byte `off` of block (mbRow, mbCol) is byte `off` of block index
      mbRow * bw + mbCol, whose row and column are read back unchanged. */
  lemma BlockOf(bw: nat, bh: nat, mbRow: nat, mbCol: nat, off: nat)
    requires mbRow < bh && mbCol < bw && off < BlockBytes
    ensures ((mbRow * bw + mbCol) * Stride + off) / Stride == mbRow * bw + mbCol
    ensures ((mbRow * bw + mbCol) * Stride + off) % Stride == off
    ensures (mbRow * bw + mbCol) / bw == mbRow && (mbRow * bw + mbCol) % bw == mbCol
  {
    DivModOf(mbRow * bw + mbCol, off, Stride);
    DivModOf(mbRow, mbCol, bw);
  }

  /** Luma byte (r, c) of block (mbRow, mbCol) is Y at image position
      (mbRow*16 + r, mbCol*16 + c). */
  lemma LumaPlacement(h: nat, w: nat, mbRow: nat, mbCol: nat, r: nat, c: nat)
    requires Aligned(h, w) && mbRow < h / MbSize && mbCol < w / MbSize
    requires r < MbSize && c < MbSize
    ensures BlockStart(w / MbSize, h / MbSize, mbRow, mbCol) + r * MbSize + c < StreamLength(h, w)
    ensures Decode(h, w, BlockStart(w / MbSize, h / MbSize, mbRow, mbCol) + r * MbSize + c)
         == Luma(mbRow * MbSize + r, mbCol * MbSize + c)
  {
    BlockOf(w / MbSize, h / MbSize, mbRow, mbCol, r * MbSize + c);
  }

  /** Bytes 256 .. 319 of a block are its 8x8 Cb sub-block, row-major, at
      chroma position (mbRow*8 + r, mbCol*8 + c); bytes 320 .. 383 the Cr
      sub-block at the same positions. */
  lemma ChromaPlacement(h: nat, w: nat, mbRow: nat, mbCol: nat, r: nat, c: nat)
    requires Aligned(h, w) && mbRow < h / MbSize && mbCol < w / MbSize
    requires r < ChromaSize && c < ChromaSize
    ensures BlockStart(w / MbSize, h / MbSize, mbRow, mbCol) + CbEnd + r * ChromaSize + c < StreamLength(h, w)
    ensures Decode(h, w, BlockStart(w / MbSize, h / MbSize, mbRow, mbCol) + LumaBytes + r * ChromaSize + c)
         == Cb(mbRow * ChromaSize + r, mbCol * ChromaSize + c)
    ensures Decode(h, w, BlockStart(w / MbSize, h / MbSize, mbRow, mbCol) + CbEnd + r * ChromaSize + c)
         == Cr(mbRow * ChromaSize + r, mbCol * ChromaSize + c)
  {
    CbPlacement(h, w, mbRow, mbCol, r, c);
    CrPlacement(h, w, mbRow, mbCol, r, c);
  }

  lemma CbPlacement(h: nat, w: nat, mbRow: nat, mbCol: nat, r: nat, c: nat)
    requires Aligned(h, w) && mbRow < h / MbSize && mbCol < w / MbSize
    requires r < ChromaSize && c < ChromaSize
    ensures BlockStart(w / MbSize, h / MbSize, mbRow, mbCol) + LumaBytes + r * ChromaSize + c < StreamLength(h, w)
    ensures Decode(h, w, BlockStart(w / MbSize, h / MbSize, mbRow, mbCol) + LumaBytes + r * ChromaSize + c)
         == Cb(mbRow * ChromaSize + r, mbCol * ChromaSize + c)
  {
    BlockOf(w / MbSize, h / MbSize, mbRow, mbCol, LumaBytes + r * ChromaSize + c);
  }

  lemma CrPlacement(h: nat, w: nat, mbRow: nat, mbCol: nat, r: nat, c: nat)
    requires Aligned(h, w) && mbRow < h / MbSize && mbCol < w / MbSize
    requires r < ChromaSize && c < ChromaSize
    ensures BlockStart(w / MbSize, h / MbSize, mbRow, mbCol) + CbEnd + r * ChromaSize + c < StreamLength(h, w)
    ensures Decode(h, w, BlockStart(w / MbSize, h / MbSize, mbRow, mbCol) + CbEnd + r * ChromaSize + c)
         == Cr(mbRow * ChromaSize + r, mbCol * ChromaSize + c)
  {
    BlockOf(w / MbSize, h / MbSize, mbRow, mbCol, CbEnd + r * ChromaSize + c);
  }

  /** Blocks follow each other in row-major block order, 386 bytes apart;
      the two bytes after every block but the last are its separator, and
      the last block ends the stream. */
  lemma SeparatorPlacement(h: nat, w: nat, mbRow: nat, mbCol: nat)
    requires Aligned(h, w) && mbRow < h / MbSize && mbCol < w / MbSize
    ensures BlockStart(w / MbSize, h / MbSize, mbRow, mbCol) == (mbRow * (w / MbSize) + mbCol) * Stride
    ensures mbRow * (w / MbSize) + mbCol + 1 < BlockCount(h, w) ==>
      var i := BlockStart(w / MbSize, h / MbSize, mbRow, mbCol) + BlockBytes;
      i + 1 < StreamLength(h, w) &&
      Decode(h, w, i) == Separator(mbRow * (w / MbSize) + mbCol, 0) &&
      Decode(h, w, i + 1) == Separator(mbRow * (w / MbSize) + mbCol, 1)
    ensures mbRow * (w / MbSize) + mbCol + 1 == BlockCount(h, w) ==>
      BlockStart(w / MbSize, h / MbSize, mbRow, mbCol) + BlockBytes == StreamLength(h, w)
  {
    var bw := w / MbSize;
    var k := mbRow * bw + mbCol;
    if k + 1 < BlockCount(h, w) {
      DivModOf(k, BlockBytes, Stride);
      DivModOf(k, BlockBytes + 1, Stride);
      DivModOf(mbRow, mbCol, bw);
    }
  }

  // ---------------------------------------------------------------------
  // The separator guard. Both packing loops test `mb_idx < n_macroblocks - 1`
  // after each block, but `mb_idx` starts at 0 and is never incremented.

  /** The guard the C code evaluates before writing a separator. */
  predicate SeparatorGuard(mbIdx: int, n: int)
  {
    mbIdx < n - 1
  }

  /** The value of `mb_idx` while block k is written: stuck at 0 in the code
      as written, k when it is incremented after every block. */
  function MbIdx(k: nat, stuck: bool): nat
  {
    if stuck then 0 else k
  }

  /** Bytes written after the first k of n blocks. */
  function Emitted(n: nat, k: nat, stuck: bool): nat
  {
    if k == 0 then 0
    else Emitted(n, k - 1, stuck) + BlockBytes
         + (if SeparatorGuard(MbIdx(k - 1, stuck), n) then 2 else 0)
  }

  /** With `mb_idx` counting blocks, every block but the last is followed by
      a separator: block k < n starts at k * 386 and the n blocks end
      exactly at the checked length. */
  lemma {:induction false} EmittedIntended(n: nat, k: nat)
    requires k <= n
    ensures Emitted(n, k, false) == if k < n || k == 0 then k * Stride else k * Stride - 2
  {
    if k > 0 {
      EmittedIntended(n, k - 1);
    }
  }

  /** With `mb_idx` stuck at 0 and more than one block, every block, the
      last included, is followed by a separator. */
  lemma {:induction false} EmittedStuck(n: nat, k: nat)
    requires n > 1
    ensures Emitted(n, k, true) == k * Stride
  {
    if k > 0 {
      EmittedStuck(n, k - 1);
    }
  }

  /** As written, a stream of more than one block writes two bytes past the
      length `raw_vec_` was checked against. */
  lemma AsWrittenOverrun(h: nat, w: nat)
    requires Aligned(h, w) && BlockCount(h, w) > 1
    ensures Emitted(BlockCount(h, w), BlockCount(h, w), true) == MacroblocksLength(h, w) + 2
  {
    EmittedStuck(BlockCount(h, w), BlockCount(h, w));
    MacroblocksLengthValue(h, w);
  }

  /** The 32x32 case: four blocks, 1542 checked bytes, 1544 written. */
  lemma AsWrittenOverrun32()
    ensures BlockCount(32, 32) == 4
    ensures MacroblocksLength(32, 32) == 1542
    ensures Emitted(4, 4, true) == 1544
  {
    AsWrittenOverrun(32, 32);
  }

  /** As written, a single-block stream still fits: the guard is false for
      the only block. */
  lemma AsWrittenSingleBlock(h: nat, w: nat)
    requires Aligned(h, w) && BlockCount(h, w) == 1
    ensures Emitted(1, 1, true) == MacroblocksLength(h, w)
  {
    MacroblocksLengthValue(h, w);
  }

  /** With the guard reading the block counter, the n blocks fill the
      checked length exactly. */
  lemma IntendedFillsLength(h: nat, w: nat)
    requires Aligned(h, w) && BlockCount(h, w) > 0
    ensures Emitted(BlockCount(h, w), BlockCount(h, w), false) == MacroblocksLength(h, w)
  {
    EmittedIntended(BlockCount(h, w), BlockCount(h, w));
    MacroblocksLengthValue(h, w);
  }
}
