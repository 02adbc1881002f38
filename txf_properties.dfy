/** What a TXF load promises, stated over ParseFont: when it fails and
    with which error, what a loaded font satisfies, what byte swapping
    changes, how the vertex array lines up with the glyph corners, and
    that a file written in either byte order loads back to the same font. */
module TxfProperties {
  import opened ByteOrder
  import opened Results
  import opened TexFontTypes
  import opened TxfFile

  /** Whether the loader swaps: the marker reads as its byte swap. */
  function SwapOf(file: seq<byte>): bool
    requires |file| >= 8
  {
    MarkerOf(file) == SwappedMarker
  }

  /** "not a texture font file." exactly when fewer than eight bytes are
      there, the magic differs, or the marker is neither byte order. */
  lemma NotATextureFontIff(file: seq<byte>)
    ensures ParseFont(file) == Failure(NotATextureFont) <==>
      |file| < 8 || file[..4] != Magic ||
      (MarkerOf(file) != NativeMarker && MarkerOf(file) != SwappedMarker)
  {
  }

  /** "premature end of file." when the six header ints are not all there. */
  lemma ShortHeader(file: seq<byte>)
    requires Identify(file).Success? && |file| < HeaderEnd
    ensures ParseFont(file) == Failure(PrematureEndOfFile)
  {
  }

  /** "premature end of file." when fewer than `num_glyphs` records follow
      the header. */
  lemma ShortGlyphTable(file: seq<byte>)
    requires Identify(file).Success? && HeaderEnd <= |file|
    requires 0 <= HeaderField(file, SwapOf(file), 5) && |file| < TableEnd(HeaderField(file, SwapOf(file), 5))
    ensures ParseFont(file) == Failure(PrematureEndOfFile)
  {
  }

  /** The pixel payload's errors: a short byte image or a short bitmap is a
      premature end of file, an allocation of negative size fails, and any
      other format is no error at all. */
  lemma PixelErrors(format: int32, w: int32, h: int32, payload: seq<byte>)
    ensures ParsePixels(format, w, h, payload) == Failure(PrematureEndOfFile) <==>
      (format == 0 && w * h >= 0 && |payload| < w * h) ||
      (format == 1 && SignedStride(w) * h >= 0 && |payload| < SignedStride(w) * h)
    ensures ParsePixels(format, w, h, payload) == Failure(BadArraySize) <==>
      (format == 0 && w * h < 0) ||
      (format == 1 && (SignedStride(w) * h < 0 || (|payload| >= SignedStride(w) * h && w * h < 0)))
    ensures format != 0 && format != 1 ==> ParsePixels(format, w, h, payload) == Success(None)
  {
  }

  /** A bitmap with a negative side: an empty image when the other side is
      0; an unwritten image of `w * h` texels when both are negative and the
      `stride * h` bytes are there; an allocation error when only one is. */
  lemma NegativeBitmapSides(w: int32, h: int32, payload: seq<byte>)
    requires w < 0 || h < 0
    ensures w * h == 0 ==> ParsePixels(1, w, h, payload) == Success(Some([]))
    ensures w < 0 && h < 0 && SignedStride(w) * h <= |payload| ==>
      ParsePixels(1, w, h, payload) == Success(Some(UnwrittenImage(w * h)))
    ensures -7 <= w < 0 && h < 0 ==> SignedStride(w) * h == 0
    ensures w < 0 && h < 0 && |payload| < SignedStride(w) * h ==>
      ParsePixels(1, w, h, payload) == Failure(PrematureEndOfFile)
    ensures w * h < 0 ==> ParsePixels(1, w, h, payload) == Failure(BadArraySize)
  {
  }

  /** A byte image is the `w * h` bytes after the glyph table, verbatim. */
  lemma ByteImageVerbatim(format: int32, w: int32, h: int32, payload: seq<byte>)
    requires format == 0 && 0 <= w * h <= |payload|
    ensures ParsePixels(format, w, h, payload) == Success(Some(payload[..w * h]))
  {
  }

  /** A bitmap texel is 255 exactly when its bit is set; bit `j & 7` of byte
      `i * stride + (j >> 3)`, counted from the least significant bit. */
  lemma BitmapTexelIff(bm: seq<byte>, w: nat, h: nat, i: nat, j: nat)
    requires |bm| == Stride(w) * h && i < h && j < w
    ensures i * w + j < |Unpack(bm, w, h)|
    ensures i * Stride(w) + j / 8 < |bm|
    ensures Unpack(bm, w, h)[i * w + j] == 255 <==> (bm[i * Stride(w) + j / 8] / Pow2(j % 8)) % 2 == 1
    ensures Unpack(bm, w, h)[i * w + j] == 0 <==> (bm[i * Stride(w) + j / 8] / Pow2(j % 8)) % 2 == 0
  {
    TexelBitAt(bm, w, h, i, j);
    var k, b := i * w + j, bm[i * Stride(w) + j / 8];
    BitSetIsBit(b, j % 8);
    assert Unpack(bm, w, h)[k] == UnpackedTexel(bm, w, h, k);
  }

  function Pow2(n: nat): (p: nat)
    ensures p >= 1
  {
    if n == 0 then 1 else 2 * Pow2(n - 1)
  }

  /** The test `b & (1 << bit)` picks bit number `bit` counted from the
      least significant end. */
  lemma BitSetIsBit(b: byte, bit: nat)
    requires bit < 8
    ensures BitSet(b, bit) <==> (b / Pow2(bit)) % 2 == 1
    ensures !BitSet(b, bit) <==> (b / Pow2(bit)) % 2 == 0
  {
    var m := Pow2(bit);
    if bit == 0 { assert m == 1 && (1 as bv8) << 0 == 1; }
    else if bit == 1 { assert m == 2 && (1 as bv8) << 1 == 2; }
    else if bit == 2 { assert m == 4 && (1 as bv8) << 2 == 4; }
    else if bit == 3 { assert m == 8 && (1 as bv8) << 3 == 8; }
    else if bit == 4 { assert m == 16 && (1 as bv8) << 4 == 16; }
    else if bit == 5 { assert m == 32 && (1 as bv8) << 5 == 32; }
    else if bit == 6 { assert m == 64 && (1 as bv8) << 6 == 64; }
    else { assert m == 128 && (1 as bv8) << 7 == 128; }
  }

  /** The pieces a successful load is built from. */
  lemma LoadedPieces(file: seq<byte>) returns (hdr: Header, tgi: seq<TexGlyphInfo>, image: Option<seq<byte>>)
    requires ParseFont(file).Success?
    ensures |file| >= HeaderEnd && ParseHeader(file, SwapOf(file)) == Success(hdr)
    ensures hdr.format == HeaderField(file, SwapOf(file), 0)
    ensures 1 <= hdr.numGlyphs && TableEnd(hdr.numGlyphs) <= |file|
    ensures tgi == GlyphTable(file, SwapOf(file), hdr.numGlyphs)
    ensures ParsePixels(hdr.format, hdr.texWidth, hdr.texHeight, file[TableEnd(hdr.numGlyphs)..]) == Success(image)
    ensures ParseFont(file) == Success(BuildFont(hdr, tgi, image))
  {
    assert Identify(file).Success?;
    var swap := SwapOf(file);
    assert ParseHeader(file, swap).Success?;
    hdr := ParseHeader(file, swap).value;
    var n := hdr.numGlyphs;
    tgi := GlyphTable(file, swap, n);
    var pixels := ParsePixels(hdr.format, hdr.texWidth, hdr.texHeight, file[TableEnd(n)..]);
    assert pixels.Success?;
    image := pixels.value;
  }

  /** A loaded font carries the header's fields and the file's glyph records
      in file order. */
  lemma LoadedFontHeader(file: seq<byte>)
    requires ParseFont(file).Success?
    ensures |file| >= HeaderEnd
    ensures var f := ParseFont(file).value;
      var swap := SwapOf(file);
      && f.numGlyphs == HeaderField(file, swap, 5) && TableEnd(f.numGlyphs) <= |file|
      && f.texWidth == HeaderField(file, swap, 1) && f.texHeight == HeaderField(file, swap, 2)
      && f.maxAscent == HeaderField(file, swap, 3) && f.maxDescent == HeaderField(file, swap, 4)
      && f.tgi == GlyphTable(file, swap, f.numGlyphs)
  {
    var hdr, tgi, image := LoadedPieces(file);
  }

  /** A loaded font is well formed, holds the vertex information of every
      glyph, and its code range is exactly [min code, max code]. */
  lemma LoadedFontTables(file: seq<byte>)
    requires ParseFont(file).Success?
    ensures var f := ParseFont(file).value;
      && WellFormed(f)
      && f.tgvi == VertexInfos(f.tgi)
      && f.minGlyph == MinCode(f.tgi) && f.range == MaxCode(f.tgi) - MinCode(f.tgi) + 1
  {
    var hdr, tgi, image := LoadedPieces(file);
  }

  /** A loaded font has an image exactly when the header's format is
      TXF_FORMAT_BYTE or TXF_FORMAT_BITMAP, and the image has
      `tex_width * tex_height` texels. */
  lemma LoadedFontImage(file: seq<byte>)
    requires ParseFont(file).Success?
    ensures |file| >= HeaderEnd
    ensures var f := ParseFont(file).value;
      var format := HeaderField(file, SwapOf(file), 0);
      && (f.teximage.Some? <==> format == 0 || format == 1)
      && (f.teximage.Some? ==> |f.teximage.value| == f.texWidth * f.texHeight)
  {
    var hdr, tgi, image := LoadedPieces(file);
    BuildFontFields(hdr, tgi, image);
  }

  /** A lookup-table slot is NULL exactly when no glyph has its code, and
      otherwise refers to the last glyph with that code. */
  lemma LookupSlot(hdr: Header, tgi: seq<TexGlyphInfo>, image: Option<seq<byte>>, k: nat)
    requires 1 <= |tgi| == hdr.numGlyphs
    requires k < BuildFont(hdr, tgi, image).range
    ensures var f := BuildFont(hdr, tgi, image);
      && (f.lut[k].None? <==> forall i :: 0 <= i < |tgi| ==> tgi[i].c != f.minGlyph + k)
      && (f.lut[k].Some? ==>
            && f.lut[k].value < |tgi| && tgi[f.lut[k].value].c == f.minGlyph + k
            && forall j :: f.lut[k].value < j < |tgi| ==> tgi[j].c != f.minGlyph + k)
  {
  }

  /** Every glyph code has a non-NULL slot, and the slot's glyph has that code. */
  lemma EveryGlyphReachable(hdr: Header, tgi: seq<TexGlyphInfo>, image: Option<seq<byte>>, i: nat)
    requires 1 <= |tgi| == hdr.numGlyphs && i < |tgi|
    ensures var f := BuildFont(hdr, tgi, image);
      && 0 <= tgi[i].c - f.minGlyph < f.range
      && f.lut[tgi[i].c - f.minGlyph].Some?
      && tgi[f.lut[tgi[i].c - f.minGlyph].value].c == tgi[i].c
  {
    BuildFontTables(hdr, tgi, image);
    TableSlot(tgi, tgi[i].c);
  }

  /** Swapping a record changes exactly its 16-bit fields c, x and y, each
      to its byte swap; the 8-bit fields are untouched. */
  lemma SwapRecordFields(b: seq<byte>)
    requires |b| == GlyphRecordSize
    ensures var g, s := DecodeGlyph(b), DecodeGlyph(SwapRecord(b));
      && s.c == ByteSwapU16(g.c) && s.x == ByteSwap16(g.x) && s.y == ByteSwap16(g.y)
      && s.width == g.width && s.height == g.height
      && s.xoffset == g.xoffset && s.yoffset == g.yoffset && s.advance == g.advance
      && s.dummy == g.dummy
  {
    var r := SwapRecord(b);
    assert r[0..2] == Swap2(b[0..2]) && r[8..10] == Swap2(b[8..10]) && r[10..12] == Swap2(b[10..12]);
    SwappedRead16(b[0..2]);
    SwappedRead16(b[8..10]);
    SwappedRead16(b[10..12]);
  }

  /** Swapping a header int gives the byte swap of the unswapped value. */
  lemma SwappedHeaderField(file: seq<byte>, k: nat)
    requires k < 6 && |file| >= HeaderEnd
    ensures HeaderField(file, true, k) == ByteSwap32(HeaderField(file, false, k))
  {
    SwappedRead32(file[8 + 4 * k .. 12 + 4 * k]);
  }

  /** Slots 5k .. 5k+4 of an interleaved array are vertex k's position
      (z = 0) and texture corner. */
  lemma {:induction false} InterleaveAt(vs: seq<StripVertex>, k: nat)
    requires k < |vs|
    ensures Interleave(vs)[5 * k .. 5 * k + 5]
      == [Coord(vs[k].px), Coord(vs[k].py), Coord(0), TexU(vs[k].corner), TexV(vs[k].corner)]
  {
    if k > 0 {
      InterleaveAt(vs[1..], k - 1);
      var head := [Coord(vs[0].px), Coord(vs[0].py), Coord(0), TexU(vs[0].corner), TexV(vs[0].corner)];
      assert Interleave(vs) == head + Interleave(vs[1..]);
      assert Interleave(vs)[5 * k .. 5 * k + 5] == Interleave(vs[1..])[5 * (k - 1) .. 5 * (k - 1) + 5];
    }
  }

  /** Each vertex of the strip samples the texture corner that belongs to the
      glyph corner at the same place of the quad: the vertex at unit position
      (px, py) is paired with the corner at xoffset, moved right by the width
      when px is 1, and yoffset, moved up by the height when py is 1. */
  lemma StripCornersAgree(g: TexGlyphInfo, k: nat)
    requires k < |QuadStrip|
    ensures var t, s := VertexInfo(g), QuadStrip[k];
      && t.vertexBuffer[5 * k .. 5 * k + 3] == [Coord(s.px), Coord(s.py), Coord(0)]
      && t.vertexBuffer[5 * k + 3] == TexU(s.corner) && t.vertexBuffer[5 * k + 4] == TexV(s.corner)
      && CornerPoint(t, s.corner) == ShortPoint(
           if s.px == 1 then g.xoffset + g.width else g.xoffset,
           if s.py == 1 then g.yoffset + g.height else g.yoffset)
  {
    InterleaveAt(QuadStrip, k);
    var vb := VertexInfo(g).vertexBuffer;
    assert vb[5 * k .. 5 * k + 3] == vb[5 * k .. 5 * k + 5][..3];
    assert vb[5 * k + 3] == vb[5 * k .. 5 * k + 5][3];
    assert vb[5 * k + 4] == vb[5 * k .. 5 * k + 5][4];
  }
}
