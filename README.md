# mp4encoder core, modelled in Dafny

This project models the two pieces of index arithmetic at the heart of the
mp4encoder R package's C code, and proves what they compute.

- **The macroblock packer** (`src/rgb-to-ycbcr.c`). `array_to_macroblocks_`
  takes a planar R array. Its three planes r, g, b are column-major.
  `nr_to_macroblocks_` takes a native raster, which holds one packed integer
  per pixel in row-major order. Each entry point first checks the input.
  It then converts every pixel to luma (Y) and every 2x2 group to one
  blue-difference (Cb) and one red-difference (Cr) sample, taken from the
  group's top-left pixel. Next it checks the caller's output vector against
  the expected length. Finally it writes the stream: for each 16x16 block,
  in row-major block order, 256 Y bytes, 64 Cb bytes and 64 Cr bytes. The
  separator `0x0D 0x00` is meant to go between blocks (see Findings).
- **Block alignment and padding** (`src/pad-to-size.c`). `round_up` snaps a
  dimension to a multiple of 16. `pad_array_` pads a planar array and
  `pad_nr_` pads a native raster. Each returns the source when it is
  already aligned. Otherwise it checks or allocates the destination, floods
  it with the fill value, and copies the source in at the justified offset:
  column by column for a planar array, row by row for a native raster.

Modules, one per file:

- `MacroblockLayout` (`macroblock_layout.dfy`) is the byte layout of the
  stream. `Decode` maps an output index to the sample or separator byte it
  carries (a `Slot`), and `Encode` is its inverse. The module also holds the
  C length formula and the separator guard as written.
- `Planes` (`planes.dfy`) addresses the scratch planes, column-major or
  row-major, and maps each chroma sample to its source pixel.
- `Packer` (`packer.dfy`) holds the block-major packing loops: byte by byte
  from column-major planes, and by 16-byte and 8-byte `memcpy` rows from
  row-major planes. Both are proved against `Decode`.
- `RgbToYcbcr` (`rgb_to_ycbcr.dfy`) holds the colour-plane loops and the two
  entry points. The colour formulas are an abstract `ColourMatrix`.
- `PadToSize` (`pad_to_size.dfy`) holds `round_up`, the justification
  offsets, the fill loops and the line-by-line copy.
- `Memory`, `Arith`, `Wrappers` and `RValues` are shared helpers: `memcpy`
  and fill loops, index arithmetic, `Option`/`Result`, and the two R value
  shapes.

## Model

| member | source | states |
|---|---|---|
| MacroblockLayout.AlignedEven | src/rgb-to-ycbcr.c:56-58 | aligned dimensions are even, and each chroma dimension is 8 per block |
| MacroblockLayout.MacroblocksLengthValue | src/rgb-to-ycbcr.c:98-103 | on aligned dimensions the C length expression, with `width/2 * height/2` parsed as `((width/2)*height)/2`, equals w*h + 2*(w/2)*(h/2) + 2*(n-1), that is n blocks of 386 bytes less one separator |
| MacroblockLayout.Decode | src/rgb-to-ycbcr.c:114-148 | every output index below the stream length carries a valid slot: a pixel, a chroma position or a byte of a separator that follows a block other than the last |
| MacroblockLayout.BlockOfByte | src/rgb-to-ycbcr.c:114-148 | output byte i lies in block i/386 of the block grid, and a separator byte only follows a block before the last |
| MacroblockLayout.Encode | src/rgb-to-ycbcr.c:114-148 | the index that carries any valid slot lies inside the stream |
| MacroblockLayout.BlockStart | src/rgb-to-ycbcr.c:114-115 | the 384 bytes of every block fit in the stream |
| MacroblockLayout.DecodeEncode | src/rgb-to-ycbcr.c:114-148 | Decode(Encode(s)) == s: every sample of the image is written, at exactly one index |
| MacroblockLayout.EncodeDecode | src/rgb-to-ycbcr.c:114-148 | Encode(Decode(i)) == i: every output byte carries exactly one slot |
| MacroblockLayout.LumaPlacement | src/rgb-to-ycbcr.c:117-124 | byte r*16 + c of block (mbRow, mbCol) is Y at image position (mbRow*16 + r, mbCol*16 + c) |
| MacroblockLayout.ChromaPlacement | src/rgb-to-ycbcr.c:126-142 | bytes 256 + r*8 + c and 320 + r*8 + c of a block are Cb and Cr at chroma position (mbRow*8 + r, mbCol*8 + c) |
| MacroblockLayout.SeparatorPlacement | src/rgb-to-ycbcr.c:144-148 | blocks are 386 bytes apart in row-major block order, every block but the last is followed by 0x0D 0x00, and the last block ends the stream |
| MacroblockLayout.EmittedIntended | src/rgb-to-ycbcr.c:145-148 | when the guard reads the block counter, block k starts at k*386 and the n blocks end at n*386 - 2 |
| MacroblockLayout.EmittedStuck | src/rgb-to-ycbcr.c:145-148 | with `mb_idx` stuck at 0 and n > 1, every block is followed by a separator, the last one included |
| MacroblockLayout.AsWrittenOverrun | src/rgb-to-ycbcr.c:145-148 | as written, a stream of n > 1 blocks writes 2 bytes past the checked length |
| MacroblockLayout.AsWrittenOverrun32 | src/rgb-to-ycbcr.c:145-148 | a 32x32 image is 4 blocks: 1542 bytes are checked and 1544 are written |
| MacroblockLayout.AsWrittenSingleBlock | src/rgb-to-ycbcr.c:145-148 | as written, a single-block stream still fits its checked length |
| MacroblockLayout.IntendedFillsLength | src/rgb-to-ycbcr.c:98-107 | with the intended guard, the bytes written fill the checked length exactly |
| Planes.PlaneIndex | src/rgb-to-ycbcr.c:83 | the flat index of element (r, c), column-major or row-major, lies inside the plane |
| Planes.CellOfIndex | src/rgb-to-ycbcr.c:83 | reading back the cell of a flat index gives the element it was computed from |
| Planes.IndexOfCell | src/rgb-to-ycbcr.c:83 | every flat index of a plane is the index of its own cell |
| Planes.ChromaSource | src/rgb-to-ycbcr.c:81-86 | the source pixel of every chroma sample lies in the image |
| Planes.ChromaTopLeft | src/rgb-to-ycbcr.c:81-86 | chroma sample (r, c) is taken from pixel (2r, 2c), the top-left pixel of its 2x2 group, with no averaging |
| Planes.ChromaSourcesEven | src/rgb-to-ycbcr.c:81-86 | every chroma sample is taken from a pixel whose row and column are both even |
| Planes.ChromaSourcesCover | src/rgb-to-ycbcr.c:81-86 | every pixel with even row and column feeds the chroma sample at cell (r/2, c/2) |
| Planes.ChromaSourcesInjective | src/rgb-to-ycbcr.c:81-86 | no pixel feeds two chroma samples; with the two rows above, the samples come from exactly the even-row, even-column pixels, one each |
| Planes.ColumnSources | src/rgb-to-ycbcr.c:81-86 | the planar chroma loop on even column col appends from cursor (col/2)*(h/2) the samples of pixels col*h, col*h + 2, ... |
| Planes.RowSources | src/rgb-to-ycbcr.c:215-221 | the native chroma loop on even row `row` appends from cursor (row/2)*(w/2) the samples of pixels row*w, row*w + 2, ... |
| Planes.HalfProduct | src/rgb-to-ycbcr.c:131 | `x * height/2`, parsed as (x*height)/2, equals x*(height/2) because height is even |
| Packer.BlockBytesPacked | src/rgb-to-ycbcr.c:114-142 | byte `off` of a block, luma then Cb then Cr, is the stream byte at the block's start + off |
| Packer.LumaPacked | src/rgb-to-ycbcr.c:117-124 | the stream byte at luma offset r*16 + c of a block is the Y plane at image position (mbRow*16 + r, mbCol*16 + c) |
| Packer.ChromaPacked | src/rgb-to-ycbcr.c:126-142 | the stream bytes at offsets 256 + r*8 + c and 320 + r*8 + c of a block are the Cb and Cr planes at chroma position (mbRow*8 + r, mbCol*8 + c) |
| Packer.PackersAgree | src/rgb-to-ycbcr.c:110-151 | for the same logical Y, Cb and Cr planes, the byte the column-major packer must write equals the byte the row-major packer (lines 243-272) must write; this follows almost directly from the definition of that byte, and it is Packer.Pack's ensures that makes it a statement about the two packers' output |
| Packer.Pack | src/rgb-to-ycbcr.c:112-151 | the block loops with the intended guard write every byte of the stream, each byte being the plane sample or separator byte Decode assigns to it |
| Packer.PackStep | src/rgb-to-ycbcr.c:117-148 | one block and, unless it is the last, its separator extend the written prefix of the stream to the next block's start, and the bytes from there on are unchanged |
| Packer.PackBlock | src/rgb-to-ycbcr.c:117-142 | the 384 bytes of a block are written at its start, and nothing else changes |
| Packer.PackBlockColumnMajor | src/rgb-to-ycbcr.c:117-142 | the planar path writes byte `off` of the block from the column-major planes, and nothing outside the block |
| Packer.LumaStep | src/rgb-to-ycbcr.c:118-122 | the index `this_row + this_col * height` is the column-major Y index of image position (this_row, this_col) |
| Packer.PackChromaColumnMajor | src/rgb-to-ycbcr.c:126-142 | one 8x8 chroma sub-block, written row-major from a column-major chroma plane |
| Packer.ChromaAt | src/rgb-to-ycbcr.c:131 | the plane index of a sub-block byte lies inside the chroma plane |
| Packer.ChromaStep | src/rgb-to-ycbcr.c:131 | the C index `this_row + this_col * height/2` is the column-major chroma index of (this_row, this_col) |
| Packer.PackBlockRowMajor | src/rgb-to-ycbcr.c:251-263 | the native path writes byte `off` of the block from the row-major planes, and nothing outside the block |
| Packer.PackLumaRowMajor | src/rgb-to-ycbcr.c:252-254 | the sixteen 16-byte copies, with offset starting at (mb_row*width + mb_col)*16 and stepping by width, place the block's luma rows |
| Packer.PackChromaRowMajor | src/rgb-to-ycbcr.c:257-260 | the eight pairs of 8-byte copies place all eight rows of the Cb sub-block and, 64 bytes further on, of the Cr sub-block |
| Packer.ChromaPass | src/rgb-to-ycbcr.c:257-260 | one pass of the chroma loop adds row i of both sub-blocks to what is already in place |
| Packer.LumaAt | src/rgb-to-ycbcr.c:252-253 | the plane index of a luma byte of the block lies inside the Y plane |
| Packer.LumaRow | src/rgb-to-ycbcr.c:252 | the offset of luma row i, (mb_row*width + mb_col)*16 + i*width, is the row-major index of (mb_row*16 + i, mb_col*16), and the row's 16 bytes lie inside the plane |
| Packer.ChromaRow | src/rgb-to-ycbcr.c:257 | the offset of chroma row i is the row-major index of (mb_row*8 + i, mb_col*8), and the row's 8 bytes lie inside the plane |
| RgbToYcbcr.PlanarImageFirstPlanes | src/rgb-to-ycbcr.c:63-65 | only the first three planes are read: arrays that agree on their first 3*h*w elements give the same pixels |
| RgbToYcbcr.AsWrittenReadsPastArray | src/rgb-to-ycbcr.c:42-44 | a 16x16x2 array passes the dimension and alignment checks as written, although its 512 elements hold fewer than the 768 read |
| RgbToYcbcr.PlanarDimsOkExactly | src/rgb-to-ycbcr.c:42-44 | the corrected check accepts [h, w, planes] exactly when the image is empty or has at least three planes |
| RgbToYcbcr.PlanarLuma | src/rgb-to-ycbcr.c:70-72 | Y sample i is the luma of pixel i, in column-major order |
| RgbToYcbcr.PlanarChroma | src/rgb-to-ycbcr.c:78-87 | both chroma planes are column-major, each sample the conversion of the top-left pixel of its 2x2 group |
| RgbToYcbcr.PlanarChromaColumn | src/rgb-to-ycbcr.c:82-86 | one column of the chroma loop appends h/2 samples, from pixels base, base + 2, ..., and leaves both planes unchanged from the new cursor on |
| RgbToYcbcr.NativeLuma | src/rgb-to-ycbcr.c:206-209 | Y sample i is the luma of packed pixel i, in row-major order |
| RgbToYcbcr.NativeChroma | src/rgb-to-ycbcr.c:211-221 | both chroma planes are row-major, each sample the conversion of the top-left pixel of its 2x2 group |
| RgbToYcbcr.NativeChromaRow | src/rgb-to-ycbcr.c:216-220 | one row of the chroma loop appends w/2 samples, from pixels base, base + 2, ..., and leaves both planes unchanged from the new cursor on |
| RgbToYcbcr.StreamOfPlanes | src/rgb-to-ycbcr.c:110-151 | packing the planes the colour loops produce yields, byte for byte, the stream of the image |
| RgbToYcbcr.EmptyImageRejected | src/rgb-to-ycbcr.c:98-107 | the checked length is non-negative exactly when there is a block; an empty image needs -2 bytes and is always refused |
| RgbToYcbcr.ArrayToMacroblocks | src/rgb-to-ycbcr.c:37-151 | a bad shape, unaligned dimensions and a wrong output length each give their error with the output untouched; otherwise every output byte is the sample or separator byte Decode assigns, computed from the array's pixels |
| RgbToYcbcr.NrToMacroblocks | src/rgb-to-ycbcr.c:180-272 | the same for a native raster: a non-raster, unaligned dimensions and a wrong length are refused with nothing written; otherwise the output is the image's stream |
| PadToSize.RoundUp | src/pad-to-size.c:15-22 | round_up(0) == 16; for v > 0 the result is a multiple of 16 with v <= result < v + 16 |
| PadToSize.RoundUpLeast | src/pad-to-size.c:15-22 | round_up(v) is the least positive multiple of 16 not below v, so an aligned positive v is returned unchanged |
| PadToSize.Clamp01 | src/pad-to-size.c:58-61 | the clamped justification lies in [0, 1], is the value itself inside [0, 1] and the nearest end outside |
| PadToSize.Offset | src/pad-to-size.c:124-125 | `floor(just * room)` of the clamped justification lies in [0, room] |
| PadToSize.OffsetAnchors | src/pad-to-size.c:124-125 | justification 0 gives offset 0, 1 gives the whole room, 0.5 half of it rounded down, and values outside [0, 1] act as the nearest end |
| PadToSize.SourceOf | src/pad-to-size.c:131-133 | the source element a canvas element receives, if any, lies in the source |
| PadToSize.SourceAt | src/pad-to-size.c:132 | canvas element (line, pos) receives source element (line - lineOff, pos - posOff) when that exists, and nothing otherwise |
| PadToSize.CopyWindow | src/pad-to-size.c:131-133 | the line loop of memcpy calls places every source line in the canvas and leaves the rest of the buffer as it was |
| PadToSize.CopyLine | src/pad-to-size.c:132 | one memcpy places source line l at canvas line lineOff + l, from position posOff on |
| PadToSize.LineStep | src/pad-to-size.c:132 | the memcpy of line l extends the copied lines by one, leaving the rest as it was |
| PadToSize.PlacedStep | src/pad-to-size.c:132 | copying line l changes the canvas only on the `len` elements of its canvas line |
| PadToSize.PlanarPlane | src/pad-to-size.c:127-129 | element j of plane p of the padded array is element j of the plane's canvas over fill[p] |
| PadToSize.PlanarSourceFits | src/pad-to-size.c:44-46 | a source that passes the shape check holds the three planes that are copied |
| PadToSize.PadArray | src/pad-to-size.c:29-139 | a bad source shape and a bad fill are refused; an aligned source is returned as is with any destination untouched; a destination without 3 planes or of the wrong size is refused; otherwise the result is the h_dst x w_dst x 3 padding of the source |
| PadToSize.PadInto | src/pad-to-size.c:81-134 | for a source that needs padding: a destination without 3 planes or of the wrong size is refused and left untouched; otherwise the result is the given destination, or a fresh array when none is given, shaped h_dst x w_dst x 3 and holding the padding of the source at the offsets the justifications give |
| PadToSize.PadPlanes | src/pad-to-size.c:107-134 | the fill loops followed by the copy loops leave the destination holding the padded array |
| PadToSize.FloodPlanes | src/pad-to-size.c:114-116 | plane p of the destination holds fill[p] |
| PadToSize.PlacePlanes | src/pad-to-size.c:127-134 | the plane loop over a flooded destination leaves the padded array |
| PadToSize.PlacePlane | src/pad-to-size.c:128-133 | one pass of the plane loop pads one more plane and leaves the others as they were |
| PadToSize.PlaneStep | src/pad-to-size.c:127-134 | placing plane p of the source over a plane of fill[p] extends the padded planes by one |
| PadToSize.PadNativeRaster | src/pad-to-size.c:148-245 | a non-raster source is refused; an aligned source is returned as is with any destination untouched; a non-raster destination or one of the wrong size is refused; otherwise the result is the h_dst x w_dst padding of the source |
| PadToSize.PlanarCopied | src/pad-to-size.c:127-134 | for planes 0..2, dst[p][(col_offset + col)*h_dst + row_offset + r] == src[p][col*h_src + r] |
| PadToSize.PlanarBorder | src/pad-to-size.c:107-116 | every element of plane p outside the placed rectangle is fill[p], whatever the destination held |
| PadToSize.PlanarIgnoresExtraPlanes | src/pad-to-size.c:127-134 | source planes beyond the third are never copied: sources that agree on planes 0..2 pad alike |
| PadToSize.NativeCopied | src/pad-to-size.c:238-240 | dst[(row_offset + row)*w_dst + col_offset + c] == src[row*w_src + c] |
| PadToSize.NativeBorder | src/pad-to-size.c:222-226 | every element outside the placed rectangle is the fill value, whatever the destination held |
| PadToSize.PlacementFits | src/pad-to-size.c:124-125 | the clamped offsets leave room for the whole source inside the rounded-up canvas, in both layouts |
| Memory.Fill | src/pad-to-size.c:224-226 | the fill loop sets its range to the value and leaves the rest alone |
| Memory.Memcpy | src/pad-to-size.c:239 | `memcpy` copies `count` elements to the destination offset and leaves the rest alone |

## Left out

- The floating-point colour formulas and their `(uint8_t)` casts (src/rgb-to-ycbcr.c:71, 84-85, 207, 218-219) are abstract: a `ColourMatrix` holds three functions from a pixel to a byte. The model states which pixel feeds which byte, not the byte's value.
- Native-raster pixels are whole integers. The channel byte order of `p[0..2]` and the `4 *` byte stride are left out, because they depend on the platform's endianness.
- The justification is clamped and floored in exact reals. Double rounding and NaN are not modelled.
- R host API plumbing is not modelled: `PROTECT`, the class attribute, and `Rf_alloc3DArray`/`Rf_allocMatrix` (which become `new`). Error messages become `PackError`/`PadError` values. The checks for numeric, integer, array and matrix type are carried by the Dafny types, so they cannot fail here.
- `malloc`/`free` of the scratch planes are left out. The scratch planes are fresh arrays.
- The `memset` at src/pad-to-size.c:107 is not modelled. The fill loops overwrite everything it writes.
- 32-bit `int` overflow of `height*width` and of the length formula is not modelled: integers are unbounded.
- Memory.Memcpy and PadToSize.CopyWindow take their source as a sequence value, so aliasing between source and destination is not modelled. The padders only require that a destination sharing the source's buffer also has the source's dimensions, as one R object has one `dim` attribute. Under that condition the model proves that any destination it writes to is a different buffer from the source, because a same-sized destination is only written when the source is not aligned, and a shared buffer is then refused by the size check.
- Packer.Pack requires at least one block. The entry points refuse an empty image through the length check before packing (RgbToYcbcr.EmptyImageRejected).
- RgbToYcbcr.ArrayToMacroblocks uses the corrected shape check (see Findings). The out-of-bounds reads of the check as written are exhibited by RgbToYcbcr.AsWrittenReadsPastArray and are not executed by any method.
- Packer.Pack models the intended separator guard, because the guard as written writes past the checked output (see Findings). The guard as written is modelled by MacroblockLayout.Emitted.
- `src/init.c` only registers the routines with R and is not part of this model. `src/pad-array.c` is a superseded revision of the padder and is not part of this model.

## Findings

| source | as written | input that shows it | evidently intended | confidence | as-written member | corrected member |
|---|---|---|---|---|---|---|
| src/rgb-to-ycbcr.c:145-148 | `mb_idx` starts at 0 and is never incremented (also lines 247 and 266), so the separator guard `mb_idx < n_macroblocks - 1` holds after every block, the last included | a 32x32 image: 4 blocks, 1542 bytes checked, 1544 written | a separator after every block but the last, so the stream fills the checked length exactly | high, not executed | MacroblockLayout.AsWrittenOverrun | Packer.Pack |
| src/rgb-to-ycbcr.c:42-44 | only the number of dimensions (3 or 4) is checked, although the message demands at least 3 planes; the colour loops then read planes g and b | a 16x16x2 array: 512 elements, 768 read | refuse arrays that do not hold three h x w planes | high, not executed | RgbToYcbcr.AsWrittenReadsPastArray | RgbToYcbcr.ArrayToMacroblocks |
