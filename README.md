# TexFont and sample pixel helpers, modelled in Dafny

This project models the TXF texture-font code of emscripten-sdl2-ogles2. That code is a C++ and OpenGL ES fork of Mark Kilgard's GLUT TexFont. The project also models the small integer pixel and size helpers of the sample programs.

**The TXF loader (`txfLoadFont`).**
- `TxfFile.ParseFont` states the loader declaratively, over the bytes of a file. The file holds:
  - the magic `"\377txf"`;
  - a 32-bit endianness marker;
  - six 32-bit header ints;
  - one 12-byte record per glyph;
  - the pixel payload.
- `TexFontLoader.LoadFont` is the loader as the C++ code performs it:
  - a `Reader` object stands for the `FILE*` cursor;
  - header ints and glyph fields are byte-swapped in place in byte arrays;
  - the vertex, lookup and image arrays are filled in loops.

  Each step is proved against the declarative reading, and the whole load satisfies `r == ParseFont(file)`.
- The older loader in `texfont.cpp` is the same code without the per-glyph vertex array. Its `SWAPL`/`SWAPS` macros are the same byte reversals as `byteSwap32Bit`/`byteSwap16Bit`. One model covers both copies.
- The host is taken to be little-endian (WebAssembly).

**The font after loading.**
- `GlyphLookup` models `getTCVI`, the range-checked lookup with its retry in the other letter case.
- `TexFontText` models `txfGetStringMetrics` and the escape and colour-mode machine of `txfRenderFancyString`, which exists only in `texfont.cpp`.
- `TxfRoundTrip` writes a font file in either byte order and proves that the loader reads back exactly what was written.

**The samples.**
- `TextureSizing` models `nextPowerOfTwo`, which the three samples define identically, together with the texture sides and the GL format choice.
- `HelloImage` models the checkerboard fill.
- `HelloTextTtf` models the alpha fix-up and the uniform updates of `initTextTexture` in `src/hello_text_ttf.cpp`.
- `HelloTtfText` models the grey clear of `hello_ttf_text.cpp`.
- `HelloTextTxf` models the luminance-to-RGBA expansion of `initFontTexture`.

**Where the descriptions of the format disagree with the code, the model follows the code.**
- **Bit order.** The bitmap payload is unpacked least significant bit first: bit `j & 7` of the byte is tested with `1 << (j & 7)`. Prose descriptions of the format speak of most-significant-bit-first packing.
- **Other format values.** A header `format` other than 0 or 1 matches no case of the loader's `switch`. The load then succeeds with no image.
- **Missing glyphs.** The metrics loop does not skip a missing glyph. It dereferences the NULL that `getTCVI` returns (see Findings).
- **The case retry.** It is a single retry. A lower-case letter whose upper case lies outside the code range ends up at its own NULL slot (`GlyphLookup.GetTCVIIsCaseFallback`).
- **The alpha fix-up is not idempotent.** A second pass turns the empty pixel `0x80808080` into `0xff808080` (`HelloTextTtf.SecondFixUp`). It is idempotent only on the pixels the blit coloured.

**Representation.**
- Bytes are integers 0..255, and fixed-width integers are subset types of `int`.
- The lookup table holds indices into the glyph vertex information, in place of pointers.
- Texture coordinates are floats in the source. A slot of the vertex array that holds one is represented by the corner it belongs to.

## Model

| member | source | states |
|---|---|---|
| ByteOrder.ByteSwap32Bit | src/texfont.cpp:19-28 | the four bytes of the int at `buf[at..at+4]` are reversed in place and nothing else in the buffer changes (the `SWAPL` macro, texfont.cpp:12-18, is the same) |
| ByteOrder.ByteSwap16Bit | src/texfont.cpp:31-37 | the two bytes of the short at `buf[at..at+2]` are exchanged in place and nothing else changes (as `SWAPS`, texfont.cpp:21-24) |
| ByteOrder.ByteSwap32Involutive | src/texfont.cpp:19-28 | swapping the bytes of a 32-bit value twice gives the value back |
| ByteOrder.ByteSwap32Marker | src/texfont.cpp:116-120 | the byte swap maps the marker 0x12345678 to 0x78563412 and back |
| ByteOrder.ByteSwap16Involutive | src/texfont.cpp:31-37 | swapping the bytes of a signed short twice gives it back |
| ByteOrder.ByteSwapU16Involutive | src/texfont.cpp:159 | swapping the bytes of the unsigned code `c` twice gives it back |
| ByteOrder.SwappedRead32 | src/texfont.cpp:138-146 | reading four bytes after reversing them in memory gives the byte swap of the value read without reversing |
| ByteOrder.SwappedRead16 | src/texfont.cpp:155-163 | the same for two bytes, as unsigned and as signed short |
| TexFontTypes.FormatOfCode | src/texfont.h:11 | a header value selects a format exactly when it is 0 (TXF_FORMAT_BYTE) or 1 (TXF_FORMAT_BITMAP), and the format's enumerator value is that value |
| TexFontTypes.FormatCodeRoundTrip | src/texfont.h:11 | each format is selected by its own enumerator value |
| TxfFile.Identify | src/texfont.cpp:109-122 | success exactly when eight bytes are there, the magic is `\377txf` and the marker is 0x12345678 or 0x78563412; the load swaps exactly for the second marker; the error otherwise is "not a texture font file." |
| TxfFile.ParseHeader | src/texfont.cpp:124-136 | the six header ints fail with "premature end of file." exactly when the file ends before them |
| TxfFile.SwapRecordBytes | src/texfont.cpp:155-163 | a swapped record exchanges bytes 0-1, 8-9 and 10-11 and keeps bytes 2-7 |
| TxfFile.SwapRecordInvolutive | src/texfont.cpp:155-163 | swapping a glyph record twice gives it back |
| TxfFile.GlyphTable | src/texfont.cpp:147-153 | the glyph table holds one record per glyph; `TxfRoundTrip.GlyphTableEncoded` shows it reads back what was written |
| TxfFile.Interleave | src/texfont.cpp:192-220 | each vertex takes five slots of the vertex array; `TxfProperties.InterleaveAt` gives their contents |
| TxfFile.VertexInfo | src/texfont.cpp:171-190 | the corners are v0=(xoffset,yoffset), v1=(xoffset+width,yoffset), v2=(xoffset+width,yoffset+height), v3=(xoffset,yoffset+height); the advance is copied; the vertex array has 20 slots |
| TxfFile.MinCode | src/texfont.cpp:223-231 | the loop's minimum is at most every glyph code and is the code of some glyph |
| TxfFile.MaxCode | src/texfont.cpp:223-231 | the loop's maximum is at least every glyph code and is the code of some glyph |
| TxfFile.LastIndexOf | src/texfont.cpp:238-241 | the slot a code ends with is a glyph with that code with no later glyph of that code, and none when no glyph has it |
| TxfFile.RowColumnBound | src/texfont.cpp:279-288 | texel `k` of the image lies in row `k / w`, column `k % w`, and that row is inside the bitmap |
| TxfFile.TexelAt | src/texfont.cpp:279-288 | texel (i, j) of the nested loops is texel `i * width + j` of the row-major image |
| TxfFile.TexelBitAt | src/texfont.cpp:283-286 | texel `i * width + j` is 255 when bit `j & 7` of byte `i * stride + (j >> 3)` is set and 0 otherwise, and both indices are in bounds |
| TxfFile.Unpack | src/texfont.cpp:275-288 | the unpacked image has `width * height` texels, each characterised by `TxfProperties.BitmapTexelIff` |
| TxfFile.SignedStride | src/texfont.cpp:267 | `(width + 7) >> 3` floors: 8 * stride <= width + 7 < 8 * stride + 8, so widths -7..0 give 0 and smaller widths a negative stride; for a nonnegative width it is the row size of the bitmap |
| TxfFile.ParsePixels | src/texfont.cpp:243-300 | an image of `width * height` texels exists exactly when the format is 0 or 1; any other format gives no image and no error |
| TxfFile.VertexInfos | src/texfont.cpp:171-190 | one vertex information per glyph, in glyph order, each derived from its record |
| TxfFile.LookupTable | src/texfont.cpp:235-241 | the table has `range` slots; slot k holds the last glyph with code `min_glyph + k`, and a filled slot refers to a glyph with that code |
| TxfFile.CodeRange | src/texfont.cpp:232-233 | `range` is max code - min code + 1 and is at least 1 |
| TxfFile.TableSlot | src/texfont.cpp:223-241 | the slot of a code within [min, min + range) holds the last glyph with that code; a code outside that range has no glyph at all |
| TxfFile.BuildFont | src/texfont.h:38-52 | a loaded font is well formed: `num_glyphs` glyphs, `range` table slots, every glyph code in range, every filled slot pointing at a glyph with its code |
| TxfFile.ParseFont | src/texfont.cpp:88-304 | a successful load is a well-formed font with at least one glyph, from an identified file holding the whole glyph table, whose image (if any) has `tex_width * tex_height` texels |
| TxfFile.CompleteFont | src/texfont.cpp:164-300 | once the records are read, the load fails exactly when the pixel payload does; otherwise the font is well formed, keeps the records and glyph count, and has an image exactly for format 0 or 1 |
| TxfProperties.NotATextureFontIff | src/texfont.cpp:110-122 | the load fails with "not a texture font file." exactly when fewer than 8 bytes are there, the magic differs, or the marker is neither byte order |
| TxfProperties.ShortHeader | src/texfont.cpp:124-136 | a file identified but ending within the six header ints fails with "premature end of file." |
| TxfProperties.ShortGlyphTable | src/texfont.cpp:152-153 | a file with fewer than `num_glyphs` records after the header fails with "premature end of file." |
| TxfProperties.PixelErrors | src/texfont.cpp:243-300 | a short byte image, or fewer than `stride * height` bitmap bytes, is a premature end of file; an allocation of negative size (`width * height` for a byte image; `stride * height`, or then `width * height`, for a bitmap) is an error; any other format is no error |
| TxfProperties.NegativeBitmapSides | src/texfont.cpp:263-288 | a bitmap with one side negative and the other 0 loads an empty image; with both sides negative it loads an unwritten `width * height` image once the `stride * height` bytes are there (none are needed for widths -7..-1); with exactly one side negative it fails to allocate |
| TxfProperties.ByteImageVerbatim | src/texfont.cpp:245-252 | a byte image is the `width * height` bytes after the glyph table, verbatim |
| TxfProperties.BitmapTexelIff | src/texfont.cpp:279-288 | a bitmap texel is 255 exactly when bit `j & 7`, counted from the least significant end, of byte `i * stride + (j >> 3)` is 1, and 0 exactly when it is 0 |
| TxfProperties.BitSetIsBit | src/texfont.cpp:283 | `b & (1 << bit)` is nonzero exactly when bit number `bit` of `b`, counted from the least significant end, is 1 |
| TxfProperties.LoadedPieces | src/texfont.cpp:88-304 | a successful load is the font built from the parsed header, the glyph table and the parsed pixels |
| TxfProperties.LoadedFontHeader | src/texfont.cpp:124-153 | a loaded font holds the (swapped) header ints and the file's glyph records in file order |
| TxfProperties.LoadedFontTables | src/texfont.cpp:164-241 | a loaded font is well formed, holds each glyph's vertex information, and its code range is exactly [min code, max code] |
| TxfProperties.LoadedFontImage | texfont.cpp:200-255 | a loaded font has an image exactly when the header's format is 0 or 1, and the image has `tex_width * tex_height` texels |
| TxfProperties.LookupSlot | src/texfont.cpp:235-241 | a table slot is NULL exactly when no glyph has its code; otherwise it refers to the last glyph with that code |
| TxfProperties.EveryGlyphReachable | src/texfont.cpp:223-241 | every glyph code lies in the range and its slot is filled with a glyph of that code |
| TxfProperties.SwapRecordFields | src/texfont.cpp:155-163 | swapping a record turns `c`, `x` and `y` into their byte swaps and leaves the 8-bit fields unchanged |
| TxfProperties.SwappedHeaderField | src/texfont.cpp:138-146 | a swapped header int is the byte swap of the unswapped one |
| TxfProperties.InterleaveAt | src/texfont.cpp:192-220 | slots 5k..5k+4 of the vertex array are vertex k's position (z = 0) and its texture corner |
| TxfProperties.StripCornersAgree | src/texfont.cpp:171-220 | the vertex array is the unit quad (0,1),(1,1),(0,0),(1,0) paired with t3, t2, t0, t1, and each texture corner belongs to the glyph corner at the same place of the quad |
| TxfRoundTrip.DecodeEncodeInt32 | src/texfont.cpp:124-146 | an int written in either byte order reads back after the conditional swap |
| TxfRoundTrip.DecodeEncodeGlyph | src/texfont.h:13-23 | a glyph record written in either byte order decodes back to the same glyph |
| TxfRoundTrip.IdentifyEncoded | src/texfont.cpp:109-122 | the marker a writer stores identifies the file and asks for a swap exactly when the byte orders differ |
| TxfRoundTrip.ParseHeaderEncoded | src/texfont.cpp:124-146 | the six header ints read back as written |
| TxfRoundTrip.RecordEncoded | src/texfont.cpp:152-163 | record i reads back as written |
| TxfRoundTrip.GlyphTableEncoded | src/texfont.cpp:147-163 | the glyph table reads back as written |
| TxfRoundTrip.RoundTrip | src/texfont.cpp:88-304 | loading a written file gives the font of the header, glyphs and payload that were written |
| TxfRoundTrip.ByteOrderIrrelevant | src/texfont.cpp:115-163 | a font file loads to the same font whichever byte order wrote it |
| TexFontLoader.Reader.constructor | src/texfont.cpp:96 | an opened file is read from its start |
| TexFontLoader.Reader.ReadInto | src/texfont.cpp:110 | `fread` copies what is left of the file, at most `n` bytes, advances the position by the count it returns, and changes nothing else |
| TexFontLoader.LoadFont | src/texfont.cpp:88-304 | the step-by-step loader returns exactly the declarative load |
| TexFontLoader.CompleteLoad | src/texfont.cpp:164-304 | vertex information, code range, table and pixels give the font built from the records and the rest of the file, or its pixel error |
| TexFontLoader.ReadIdentification | src/texfont.cpp:109-122 | the magic and marker reads give the identification result and leave the cursor after the marker |
| TexFontLoader.ReadInt32 | src/texfont.cpp:116 | one whole int is read exactly when four bytes are left, and then its bytes are those at the cursor |
| TexFontLoader.ReadHeader | src/texfont.cpp:124-146 | the six reads and swaps give the declarative header, or "premature end of file." |
| TexFontLoader.SwapHeader | src/texfont.cpp:138-146 | after the conditional in-place swap of each of the six ints, each holds the value of its bytes in the file's byte order |
| TexFontLoader.HostInt32 | src/texfont.cpp:138-146 | an int's value after the conditional in-place swap |
| TexFontLoader.ReadGlyphTable | src/texfont.cpp:147-163 | the `num_glyphs` records are read, swapped when the marker says so, and equal the declarative glyph table; a short read is "premature end of file." |
| TexFontLoader.SwapGlyphFields | src/texfont.cpp:155-163 | the loop swaps every record of the table and nothing else |
| TexFontLoader.SwapGlyphRecord | src/texfont.cpp:157-162 | one loop iteration swaps `c`, `x` and `y` of one record in place and leaves the rest of the table alone |
| TexFontLoader.BuildVertexInfos | src/texfont.cpp:171-190 | the per-glyph loop yields the vertex information of every glyph |
| TexFontLoader.WriteVertexBuffer | src/texfont.cpp:192-220 | the vertex array written five floats at a time is the interleaved quad strip |
| TexFontLoader.WriteVertex | src/texfont.cpp:195-199 | five consecutive slots get (px, py, 0) and the texture corner; nothing else changes |
| TexFontLoader.QuadStripLayout | src/texfont.cpp:192-220 | the interleaved strip, vertex by vertex |
| TexFontLoader.GlyphCodeRange | src/texfont.cpp:223-233 | the min/max loop computes the smallest and the largest glyph code |
| TexFontLoader.BuildLut | src/texfont.cpp:235-241 | clearing `range` slots and pointing each glyph's slot at it, in glyph order, gives the lookup table |
| TexFontLoader.ReadPixels | src/texfont.cpp:243-300 | the `switch (format)` reads the declarative pixel payload from the rest of the file |
| TexFontLoader.ReadBitmap | src/texfont.cpp:263-288 | the bitmap case, negative sides included: allocation, `fread` of `stride * height` bytes, allocation of the image and the nested loop give the declarative bitmap payload |
| TexFontLoader.UnpackBitmap | src/texfont.cpp:279-288 | the nested loop expands the packed bitmap to the row-major byte image |
| TexFontLoader.UnpackRow | src/texfont.cpp:281-287 | the inner loop fills row i, extending the filled prefix by `width` texels |
| TexFontLoader.UnpackTexel | src/texfont.cpp:283-286 | one texel is written as 255 or 0 according to its bit; no other texel changes |
| GlyphLookup.OtherCase | src/texfont.cpp:58-72 | the other case of a letter is a letter of the other case, and every other code is left as it is |
| GlyphLookup.OtherCaseInvolutive | src/texfont.cpp:58-72 | toggling the case twice gives the code back |
| GlyphLookup.GetTCVI | src/texfont.cpp:47-77 | NULL for a code outside [min_glyph, min_glyph + range); the slot itself when it is filled; a result is always a glyph of the code or of its other case |
| GlyphLookup.GetTCVIIsCaseFallback | src/texfont.cpp:58-73 | the two case tests amount to one retry with the other case, whose slot is returned even when NULL |
| GlyphLookup.LoadedSlot | src/texfont.cpp:235-241 | in a loaded font, an in-range slot holds the last glyph with its code, and an out-of-range code has no glyph |
| GlyphLookup.LookupLoaded | texfont.cpp:34-64 | in a loaded font a code finds its last glyph, otherwise the last glyph of its other case if the code is in range, otherwise NULL |
| TexFontText.MetricsLookups | texfont.cpp:311-328 | every glyph the metrics loop looks up refers into the font |
| TexFontText.StringWidthIsSum | texfont.cpp:310-329 | the measured width is the sum of the advances of the glyphs looked up, escape sequences skipped |
| TexFontText.EscapeSkip | src/texfont.cpp:358-366 | an ESC followed by M, T, L or F skips further bytes (at most 13), and an ESC followed by anything else skips none |
| TexFontText.MeasureAsWritten | src/texfont.cpp:356-373 | the metrics loop as written fails exactly when a looked-up glyph is missing, and otherwise yields the width with missing glyphs adding nothing |
| TexFontText.MeasureMissingGlyph | src/texfont.cpp:370-371 | measuring "?" in a one-glyph font of 'A' dereferences NULL |
| TexFontText.GetStringMetrics | src/texfont.cpp:344-377 | the width is the sum of advances of the looked-up glyphs (missing ones adding nothing), ESC M/T/L/F skipping 4/7/7/13 further bytes; ascent and descent are the font's |
| TexFontText.CopyColours | texfont.cpp:390 | the first `n` colour bytes are the string's bytes after the escape and the rest are kept |
| TexFontText.CopyColourBytes | texfont.cpp:390-400 | `memcpy` into the colour array in place |
| TexFontText.FancyDraws | texfont.cpp:380-486 | the draws of the fancy renderer from a position on: at most one per remaining byte, each referring to a glyph of the font or to none |
| TexFontText.RenderFancyString | texfont.cpp:369-403 | the loop starts in MONO and draws what the escape machine describes: ESC M (5 bytes), ESC T/L (8 bytes, 6 colour bytes), ESC F (14 bytes, 12 colour bytes), other ESC (1 byte) |
| TexFontText.RenderMatchesMetrics | texfont.cpp:380-403 | rendering and measuring step over the same escapes: the glyphs drawn are exactly those the metrics loop adds up |
| TexFontText.MeasuredWidthIsDrawnWidth | texfont.cpp:310-328 | the measured width is the sum of the advances of the drawn glyphs |
| TexFontText.UnreadColoursIrrelevant | texfont.cpp:376-403 | colour bytes the current mode does not read never reach a draw |
| TexFontText.InitialColoursIrrelevant | texfont.cpp:376 | the uninitialised colour array does not affect what is drawn |
| TextureSizing.CeilPowerOfTwo | src/hello_image.cpp:103-109 | the least power of two at least `val`: a power of two, at least `val`, 1 for `val` <= 1, and its half is below `val` |
| TextureSizing.LeastPowerOfTwo | hello_ttf_text.cpp:99-105 | a power of two at least `val` whose half is below `val` is the least one |
| TextureSizing.NextPowerOfTwo | src/hello_image.cpp:103-109 | the doubling loop returns the least power of two at least `val`, without overflowing `int` for `val` up to 2^30 |
| TextureSizing.TextureSide | src/hello_text_ttf.cpp:227 | a texture side is a power of two at least the image side plus the margin, and minimal |
| TextureSizing.TextureSize | hello_ttf_text.cpp:177 | both texture sides are `nextPowerOfTwo(side + margin)` |
| TextureSizing.GlFormat | src/hello_text_ttf.cpp:247-251 | GL_RGB exactly for 24 bits per pixel, GL_RGBA exactly for 32, and -1 exactly otherwise |
| HelloImage.BackgroundPixel | src/hello_image.cpp:231-242 | each pixel is the border colour, light grey or dark grey |
| HelloImage.CheckerColours | src/hello_image.cpp:231-242 | a border pixel is 0xff00ffff; an interior pixel is 0xffc4c4c4 exactly when x mod 100 < 50 agrees with y mod 100 < 50, else 0xff808080 |
| HelloImage.Opaque | src/hello_image.cpp:231-242 | every pixel's alpha byte is 0xff |
| HelloImage.CheckerPeriod | src/hello_image.cpp:235-242 | the interior pattern repeats every 100 pixels on both axes |
| HelloImage.PixelIndex | src/hello_image.cpp:227-230 | index x + y*w is in the image and determines x and y, so each pixel is written at its own place |
| HelloImage.FillRow | src/hello_image.cpp:228-244 | the inner loop colours row y and changes nothing else |
| HelloImage.FillBackground | src/hello_image.cpp:227-244 | every pixel of the buffer gets the colour of its column and row |
| HelloImage.BackgroundTexture | src/hello_image.cpp:248-252 | each texture side is the least power of two at least the image side + 2 |
| HelloTextTtf.FixPixel | src/hello_text_ttf.cpp:239-242 | a fixed-up pixel is never zero and its alpha is at least 0x80 |
| HelloTextTtf.FixPixelEffect | src/hello_text_ttf.cpp:239-242 | a coloured pixel keeps its low 24 bits and gets alpha 0xff; an empty pixel becomes 0x80808080; no pixel is left zero |
| HelloTextTtf.SecondFixUp | src/hello_text_ttf.cpp:236-243 | a second fix-up changes a pixel exactly when the blit left it empty, turning 0x80808080 into 0xff808080 |
| HelloTextTtf.FixUpAlpha | src/hello_text_ttf.cpp:236-243 | every pixel of the texture is fixed up in place, once |
| HelloTextTtf.TextQuad.InitTextTexture | src/hello_text_ttf.cpp:227-283 | the texture is fixed up; with format -1 nothing else changes; otherwise the texture is uploaded with its power-of-two size and format and `texSize`, `textSize` are updated |
| HelloTextTxf.Luminance | src/hello_text_txf.cpp:240-246 | a pixel is zero exactly when its luminance byte is zero |
| HelloTextTxf.LuminanceLanes | src/hello_text_txf.cpp:240-246 | all four byte lanes of a pixel equal the luminance byte, so every pixel is `c * 0x01010101`, zero included |
| HelloTextTxf.ExpandLuminance | src/hello_text_txf.cpp:237-247 | a fresh buffer of `tex_width * tex_height` pixels, each the luminance pixel of the byte at the same index |
| HelloTextTxf.ConvertAsWritten | src/hello_text_txf.cpp:237-247 | the conversion as written fails exactly when the pixel count is negative (the allocation throws) or positive with no image (the NULL read); otherwise it yields one pixel per texel |
| HelloTextTxf.UnknownFormatReadsNull | src/hello_text_txf.cpp:237-240 | a one-glyph file with format 2 loads without an image, and the conversion as written then reads through the NULL image |
| HelloTextTxf.InitFontTexture | src/hello_text_txf.cpp:212-262 | no conversion when the load fails or gives no image; otherwise one pixel per texel, each the luminance pixel of its texel |
| HelloTextTxf.ConvertAsWrittenAgrees | src/hello_text_txf.cpp:237-247 | where the conversion as written does not crash it computes the same pixels as InitFontTexture |
| HelloTtfText.FillCoversPixels | hello_ttf_text.cpp:183 | for 32 and 24 bits per pixel the clear covers exactly 4 and 3 bytes per pixel |
| HelloTtfText.GreyFill | hello_ttf_text.cpp:183 | `memset` sets the first n bytes to 0x80 and leaves the rest |
| HelloTtfText.InitTextTexture | hello_ttf_text.cpp:177-216 | texture sides `nextPowerOfTwo(w + 1)`, `nextPowerOfTwo(h + 1)`, the grey clear of `w * h * bitsPerPixel / 8` bytes, the format choice, and an upload exactly for 24 or 32 bits |

## Left out

- File opening and closing, and `lastError` with its printf logging. The file is a byte sequence, and an error is a returned `LoadError` value whose `Message` is the source's string.
- Out-of-memory branches, which do not occur because `new` does not return NULL.
- Memory release: `txfUnloadFont` and the unload on every error path (`txfLoadFontError`) release memory, which has no counterpart for values. The model asserts nothing about leaks, and the bitmap path does leak `texbitmap` on a short read.
- A negative `num_glyphs` is reported as `BadArraySize`. In the source, `new[]` of a negative size throws.
- `num_glyphs == 0` is reported as `NoGlyphs`. The source reads `tgi[0]` of an empty array, which is undefined behaviour.
- `TxfFile.ParsePixels`: the image that a bitmap with both sides negative allocates and never writes is represented as `width * height` zero texels. In the source its contents are whatever the allocator returns. The stride is `(width + 7) >> 3` taken as an arithmetic shift, which is what the compiler does with a negative `int`.
- 32-bit overflow is not modelled:
  - of `tex_width * tex_height` and `stride * height`;
  - of the width sum in the metrics;
  - of `c << 24` in the luminance expansion: the model computes in `bv32`, where the shift cannot be undefined.
- Float texture coordinates `t0..t3` with the half-texel inset: a texture-coordinate slot of the vertex array names its corner.
- The float conversion of the advance: it stays an integer, as every value it takes is.
- `txfEstablishTexture`, `txfBindFontTexture`, `texobj` and every SDL or GL call (blits, uploads, texture parameters, shaders).
- `txfRenderGlyph`: its GL code is commented out and the rest is printf.
- `txfRenderString`: it is an empty stub in `src/texfont.cpp` and a loop over `txfRenderGlyph` in `texfont.cpp`.
- The `stringVBOs` cache, which is only declared.
- The fancy renderer's draws record the mode, the colour bytes read and the glyph looked up. The GL calls they would make are commented out in the source.
- A byte read at or past `len` in the metrics and fancy loops is taken to be the string's terminating NUL.
- `islower`, `toupper` and the other character classes follow ASCII, not the locale.
- `TexFontLoader.UnpackRow`: the row offsets `i * width` and `i * stride` are passed in as values computed once per row, rather than recomputed for every texel.
- `TexFontLoader.SwapHeader`: the header ints are read into six separate 4-byte arrays. In the source they are fields of the font struct and a local.
- `TextureSizing.NextPowerOfTwo` requires `val <= 2^30`. Beyond that the doubling overflows `int`.
- `HelloTextTtf.TextQuad.InitTextTexture` starts after the blit. Its pixels are the blitted texture, and SDL's row pitch is taken to equal the width.
- `HelloTextTtf.TextQuad.InitTextTexture` keeps the shader's GLfloat sizes as integers.
- `HelloTtfText.InitTextTexture` starts from the texture surface's pixel memory and does not model the blit.

## Findings

| source | as written | input that shows it | evidently intended | confidence | as-written member | corrected member |
|---|---|---|---|---|---|---|
| src/texfont.cpp:370-371 | `w += tgvi->advance` on the result of `getTCVI` without a NULL test (texfont.cpp:325-326 likewise) | a font whose only glyph is 'A', measuring the string "?" | a character the font cannot supply is skipped (advance 0), as `getTCVI`'s message-and-NULL return expects | not executed | TexFontText.MeasureMissingGlyph | TexFontText.GetStringMetrics |
| src/hello_text_txf.cpp:238-240 | reads `texFont->teximage[i]` for every texel without testing it, although the loader returns a font with a NULL `teximage` for a format other than 0 or 1 (src/texfont.cpp:243-300) | a 1 x 1 font file with format 2 and one glyph | convert only a font that has an image | not executed | HelloTextTxf.UnknownFormatReadsNull | HelloTextTxf.InitFontTexture |
