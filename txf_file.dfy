/** The TXF file layout and what a load of it yields, stated declaratively:
    the reference that the step-by-step loader in TexFontLoader is proved
    against.

    Layout: the magic "\377txf", a 32-bit endianness marker, six 32-bit header
    ints (format, width, height, max ascent, max descent, glyph count), one
    12-byte record per glyph, then the pixel payload. */
module TxfFile {
  import opened Arithmetic
  import opened ByteOrder
  import opened Results
  import opened TexFontTypes

  /** "\377txf" */
  const Magic: seq<byte> := [0xff, 0x74, 0x78, 0x66]

  /** The marker as read when the file has the host's byte order. */
  const NativeMarker: int := 0x12345678
  /** The marker as read when the file has the other byte order. */
  const SwappedMarker: int := 0x78563412

  /** Offset of the first glyph record: magic, marker and six header ints. */
  const HeaderEnd: nat := 4 + 4 + 6 * 4

  /** The errors of txfLoadFont, in the terms of its `lastError` messages;
      BadArraySize and NoGlyphs stand for the cases where the C++ code has no
      message (see README). */
  datatype LoadError =
    | NotATextureFont
    | PrematureEndOfFile
    | BadArraySize
    | NoGlyphs

  function Message(e: LoadError): string
  {
    match e
    case NotATextureFont => "not a texture font file."
    case PrematureEndOfFile => "premature end of file."
    case BadArraySize => "invalid array size."
    case NoGlyphs => "no glyphs."
  }

  /** The six header ints, after any byte swap. */
  datatype Header = Header(
    format: int32,
    texWidth: int32,
    texHeight: int32,
    maxAscent: int32,
    maxDescent: int32,
    numGlyphs: int32)

  /** The marker as the host reads it. */
  function MarkerOf(file: seq<byte>): int32
    requires |file| >= 8
  {
    Int32Of(LE32(file[4..8]))
  }

  /** Checks the magic and the marker; on success, whether the rest of the
      file must be byte-swapped. */
  function Identify(file: seq<byte>): (r: Result<bool, LoadError>)
    ensures r.Success? <==>
      |file| >= 8 && file[..4] == Magic && (MarkerOf(file) == NativeMarker || MarkerOf(file) == SwappedMarker)
    ensures r.Success? ==> r.value == (MarkerOf(file) == SwappedMarker)
    ensures r.Failure? ==> r.error == NotATextureFont
  {
    if |file| < 4 || file[..4] != Magic then Failure(NotATextureFont)
    else if |file| < 8 then Failure(NotATextureFont)
    else if MarkerOf(file) == NativeMarker then Success(false)
    else if MarkerOf(file) == SwappedMarker then Success(true)
    else Failure(NotATextureFont)
  }

  /** Header int number `k` (0..5), swapped when the marker says so. */
  function HeaderField(file: seq<byte>, swap: bool, k: nat): int32
    requires k < 6 && |file| >= HeaderEnd
  {
    Int32Of(LE32(Swap4If(swap, file[8 + 4 * k .. 12 + 4 * k])))
  }

  function ParseHeader(file: seq<byte>, swap: bool): (r: Result<Header, LoadError>)
    ensures r.Failure? <==> |file| < HeaderEnd
    ensures r.Failure? ==> r.error == PrematureEndOfFile
  {
    if |file| < HeaderEnd then Failure(PrematureEndOfFile)
    else Success(Header(
      HeaderField(file, swap, 0), HeaderField(file, swap, 1), HeaderField(file, swap, 2),
      HeaderField(file, swap, 3), HeaderField(file, swap, 4), HeaderField(file, swap, 5)))
  }

  /** A glyph record read from memory in host order. */
  function DecodeGlyph(b: seq<byte>): TexGlyphInfo
    requires |b| == GlyphRecordSize
  {
    TexGlyphInfo(
      c := LE16(b[0..2]),
      width := b[2],
      height := b[3],
      xoffset := Int8Of(b[4]),
      yoffset := Int8Of(b[5]),
      advance := Int8Of(b[6]),
      dummy := b[7],
      x := Int16Of(LE16(b[8..10])),
      y := Int16Of(LE16(b[10..12])))
  }

  /** The bytes of one record after its 16-bit fields c, x and y are swapped. */
  function SwapRecord(b: seq<byte>): (r: seq<byte>)
    requires |b| == GlyphRecordSize
    ensures |r| == GlyphRecordSize
  {
    Swap2(b[0..2]) + b[2..8] + Swap2(b[8..10]) + Swap2(b[10..12])
  }

  /** The bytes of a swapped record, one by one. */
  lemma SwapRecordBytes(b: seq<byte>)
    requires |b| == GlyphRecordSize
    ensures SwapRecord(b) == [b[1], b[0], b[2], b[3], b[4], b[5], b[6], b[7], b[9], b[8], b[11], b[10]]
  {
  }

  /** Swapping a record twice gives it back. */
  lemma SwapRecordInvolutive(b: seq<byte>)
    requires |b| == GlyphRecordSize
    ensures SwapRecord(SwapRecord(b)) == b
  {
    SwapRecordBytes(b);
    SwapRecordBytes(SwapRecord(b));
  }

  /** End of the glyph table of `n` records. */
  function TableEnd(n: nat): nat
  {
    HeaderEnd + GlyphRecordSize * n
  }

  /** Glyph record `i` of the file, swapped when the marker says so. */
  function GlyphRecord(file: seq<byte>, swap: bool, i: nat): TexGlyphInfo
    requires TableEnd(i + 1) <= |file|
  {
    var raw := file[TableEnd(i) .. TableEnd(i + 1)];
    DecodeGlyph(if swap then SwapRecord(raw) else raw)
  }

  function GlyphTable(file: seq<byte>, swap: bool, n: nat): (tgi: seq<TexGlyphInfo>)
    requires TableEnd(n) <= |file|
    ensures |tgi| == n
  {
    seq(n, i requires 0 <= i < n => GlyphRecord(file, swap, i))
  }

  /** The unit quad in triangle-strip order, each vertex paired with the
      texture corner it samples. */
  datatype StripVertex = StripVertex(px: int, py: int, corner: Corner)

  const QuadStrip: seq<StripVertex> := [
    StripVertex(0, 1, T3),
    StripVertex(1, 1, T2),
    StripVertex(0, 0, T0),
    StripVertex(1, 0, T1)]

  /** Vertices laid out as 3 position floats (z = 0) and 2 texture floats each. */
  function Interleave(vs: seq<StripVertex>): (slots: seq<VertexSlot>)
    ensures |slots| == 5 * |vs|
  {
    if vs == [] then []
    else
      var v := vs[0];
      [Coord(v.px), Coord(v.py), Coord(0), TexU(v.corner), TexV(v.corner)] + Interleave(vs[1..])
  }

  /** The integer corner of a glyph quad that a texture corner belongs to. */
  function CornerPoint(t: TexGlyphVertexInfo, c: Corner): ShortPoint
  {
    match c
    case T0 => t.v0
    case T1 => t.v1
    case T2 => t.v2
    case T3 => t.v3
  }

  /** The vertex information the loader derives from a glyph record. */
  function VertexInfo(g: TexGlyphInfo): (t: TexGlyphVertexInfo)
    ensures t.v0 == ShortPoint(g.xoffset, g.yoffset)
    ensures t.v2 == ShortPoint(g.xoffset + g.width, g.yoffset + g.height)
    ensures t.v1.x == t.v2.x && t.v1.y == t.v0.y
    ensures t.v3.x == t.v0.x && t.v3.y == t.v2.y
    ensures t.advance == g.advance
    ensures |t.vertexBuffer| == VertexArrayFloats
  {
    TexGlyphVertexInfo(
      v0 := ShortPoint(g.xoffset, g.yoffset),
      v1 := ShortPoint(g.xoffset + g.width, g.yoffset),
      v2 := ShortPoint(g.xoffset + g.width, g.yoffset + g.height),
      v3 := ShortPoint(g.xoffset, g.yoffset + g.height),
      advance := g.advance,
      vertexBuffer := Interleave(QuadStrip))
  }

  /** The smallest glyph code, computed as the loader's loop does (first record
      first, then each later one that is smaller). */
  function MinCode(tgi: seq<TexGlyphInfo>): (m: int)
    requires |tgi| >= 1
    ensures forall i :: 0 <= i < |tgi| ==> m <= tgi[i].c
    ensures exists i :: 0 <= i < |tgi| && tgi[i].c == m
  {
    if |tgi| == 1 then tgi[0].c
    else
      var m' := MinCode(tgi[..|tgi| - 1]);
      if tgi[|tgi| - 1].c < m' then tgi[|tgi| - 1].c else m'
  }

  function MaxCode(tgi: seq<TexGlyphInfo>): (m: int)
    requires |tgi| >= 1
    ensures forall i :: 0 <= i < |tgi| ==> tgi[i].c <= m
    ensures exists i :: 0 <= i < |tgi| && tgi[i].c == m
  {
    if |tgi| == 1 then tgi[0].c
    else
      var m' := MaxCode(tgi[..|tgi| - 1]);
      if tgi[|tgi| - 1].c > m' then tgi[|tgi| - 1].c else m'
  }

  /** The last of the first `n` glyphs whose code is `code`, if any: the glyph
      a lookup-table slot ends up pointing to when later glyphs overwrite
      earlier ones. */
  function LastIndexOf(tgi: seq<TexGlyphInfo>, n: nat, code: int): (r: Option<nat>)
    requires n <= |tgi|
    ensures r.Some? ==> r.value < n && tgi[r.value].c == code
    ensures r.Some? ==> forall j :: r.value < j < n ==> tgi[j].c != code
    ensures r.None? ==> forall j :: 0 <= j < n ==> tgi[j].c != code
  {
    if n == 0 then None
    else if tgi[n - 1].c == code then Some(n - 1)
    else LastIndexOf(tgi, n - 1, code)
  }

  /** Bytes per bitmap row: `(width + 7) >> 3`. */
  function Stride(w: nat): nat
  {
    (w + 7) / 8
  }

  /** `(width + 7) >> 3` for any width: the arithmetic shift floors, so a
      width of -7 to 0 gives 0 and a width below -7 a negative stride. */
  function SignedStride(w: int): (s: int)
    ensures 8 * s <= w + 7 < 8 * s + 8
    ensures w >= 0 ==> s == Stride(w)
  {
    (w + 7) / 8
  }

  /** The image `new unsigned char[n]` allocates and no loop writes. */
  function UnwrittenImage(n: nat): (img: seq<byte>)
    ensures |img| == n
  {
    seq(n, _ => 0)
  }

  /** The test `byte & (1 << bit)` of the bitmap unpacking. */
  predicate BitSet(b: byte, bit: nat)
    requires bit < 8
  {
    (b as bv8) & (1 << bit) != 0
  }

  /** Texel (i, j) of a packed bitmap of width `w`: 255 when bit `j & 7` of
      byte `i * stride + (j >> 3)` is set, 0 otherwise. */
  function BitmapTexel(bm: seq<byte>, w: nat, i: nat, j: nat): byte
    requires j < w && (i + 1) * Stride(w) <= |bm|
  {
    StrideBound(w, i, j);
    if BitSet(bm[i * Stride(w) + j / 8], j % 8) then 255 else 0
  }

  lemma StrideBound(w: nat, i: nat, j: nat)
    requires j < w
    ensures j / 8 < Stride(w)
    ensures 0 <= i * Stride(w) && i * Stride(w) + j / 8 < (i + 1) * Stride(w)
  {
  }

  /** Texel `k` of a w x h image lies in row `k / w` and column `k % w`,
      and that row is inside the bitmap. */
  lemma RowColumnBound(bm: seq<byte>, w: nat, h: nat, k: nat)
    requires |bm| == Stride(w) * h && k < w * h
    ensures w > 0 && 0 <= k / w && 0 <= k % w < w
    ensures (k / w + 1) * Stride(w) <= |bm|
  {
    var q, r := k / w, k % w;
    assert k == q * w + r && 0 <= r < w;
    assert q >= 0 by {
      if q < 0 {
        MulStep(q, 0, w);
      }
    }
    assert q < h by {
      if q >= h {
        MulMonotone(h, q, w);
      }
    }
    MulMonotone(q + 1, h, Stride(w));
  }

  /** Texel (i, j) of the loops is texel `i * width + j` of Unpack. */
  lemma TexelAt(bm: seq<byte>, width: nat, height: nat, i: nat, j: nat)
    requires |bm| == Stride(width) * height && i < height && j < width
    ensures 0 <= i * width && i * width + j < width * height
    ensures (i + 1) * Stride(width) <= |bm|
    ensures UnpackedTexel(bm, width, height, i * width + j) == BitmapTexel(bm, width, i, j)
  {
    MulMonotone(i + 1, height, width);
    MulMonotone(i + 1, height, Stride(width));
    DivModUnique(i * width + j, width, i, j);
  }

  /** Texel (i, j) of the image is 255 exactly when its bit is set. */
  lemma TexelBitAt(bm: seq<byte>, w: nat, h: nat, i: nat, j: nat)
    requires |bm| == Stride(w) * h && i < h && j < w
    ensures 0 <= i * w + j < w * h
    ensures 0 <= i * Stride(w) + j / 8 < |bm|
    ensures UnpackedTexel(bm, w, h, i * w + j) == if BitSet(bm[i * Stride(w) + j / 8], j % 8) then 255 else 0
  {
    TexelAt(bm, w, h, i, j);
    StrideBound(w, i, j);
  }

  /** The byte-per-texel image of a packed bitmap, row-major. */
  function Unpack(bm: seq<byte>, w: nat, h: nat): (img: seq<byte>)
    requires |bm| == Stride(w) * h
    ensures |img| == w * h
  {
    seq(w * h, k requires 0 <= k < w * h => UnpackedTexel(bm, w, h, k))
  }

  /** Texel `k` of the row-major image: row `k / w`, column `k % w`. */
  function UnpackedTexel(bm: seq<byte>, w: nat, h: nat, k: nat): byte
    requires |bm| == Stride(w) * h && k < w * h
  {
    RowColumnBound(bm, w, h, k);
    BitmapTexel(bm, w, k / w, k % w)
  }

  /** The pixel payload: the image the loader keeps, or None when the format
      matches no case of its switch. A bitmap with a negative side is read
      with the floored stride; when both allocations succeed its loops run
      no iteration and the image stays unwritten. */
  function ParsePixels(format: int32, w: int32, h: int32, payload: seq<byte>)
    : (r: Result<Option<seq<byte>>, LoadError>)
    ensures r.Success? && r.value.Some? ==> |r.value.value| == w * h
    ensures r.Success? ==> (r.value.Some? <==> format == 0 || format == 1)
  {
    match FormatOfCode(format)
    case None => Success(None)
    case Some(TxfFormatByte) =>
      if w * h < 0 then Failure(BadArraySize)
      else if |payload| < w * h then Failure(PrematureEndOfFile)
      else Success(Some(payload[..w * h]))
    case Some(TxfFormatBitmap) =>
      if SignedStride(w) * h < 0 then Failure(BadArraySize)
      else if |payload| < SignedStride(w) * h then Failure(PrematureEndOfFile)
      else if w * h < 0 then Failure(BadArraySize)
      else if w < 0 || h < 0 then Success(Some(UnwrittenImage(w * h)))
      else Success(Some(Unpack(payload[..Stride(w) * h], w, h)))
  }

  /** The vertex information of every glyph, in glyph order. */
  function VertexInfos(tgi: seq<TexGlyphInfo>): (tgvi: seq<TexGlyphVertexInfo>)
    ensures |tgvi| == |tgi|
    ensures forall i :: 0 <= i < |tgi| ==> tgvi[i] == VertexInfo(tgi[i])
  {
    seq(|tgi|, i requires 0 <= i < |tgi| => VertexInfo(tgi[i]))
  }

  /** The lookup table over codes lo .. lo + range - 1: each slot holds the
      last glyph with that code, or None. */
  function LookupTable(tgi: seq<TexGlyphInfo>, lo: int, range: nat): (lut: seq<Option<nat>>)
    ensures |lut| == range
    ensures forall k :: 0 <= k < range ==> lut[k] == LastIndexOf(tgi, |tgi|, lo + k)
    ensures forall k :: 0 <= k < range && lut[k].Some? ==>
      lut[k].value < |tgi| && tgi[lut[k].value].c == lo + k
  {
    seq(range, k requires 0 <= k < range => LastIndexOf(tgi, |tgi|, lo + k))
  }

  /** The number of codes from the smallest to the largest glyph code. */
  function CodeRange(tgi: seq<TexGlyphInfo>): (n: nat)
    requires |tgi| >= 1
    ensures n == MaxCode(tgi) - MinCode(tgi) + 1 >= 1
  {
    MaxCode(tgi) - MinCode(tgi) + 1
  }

  /** The slot of a code within the range of glyph codes holds the last
      glyph with that code; a code outside that range has no glyph. */
  lemma TableSlot(tgi: seq<TexGlyphInfo>, c: int)
    requires |tgi| >= 1
    ensures var lo, n := MinCode(tgi), CodeRange(tgi);
      && (lo <= c < lo + n ==> LookupTable(tgi, lo, n)[c - lo] == LastIndexOf(tgi, |tgi|, c))
      && (!(lo <= c < lo + n) ==> LastIndexOf(tgi, |tgi|, c).None?)
  {
    var lo := MinCode(tgi);
    assert lo + (c - lo) == c;
  }

  /** The font built from a header, its glyph records and its image. */
  function BuildFont(hdr: Header, tgi: seq<TexGlyphInfo>, image: Option<seq<byte>>): (f: TexFont)
    requires 1 <= |tgi| == hdr.numGlyphs
    ensures WellFormed(f)
  {
    TexFont(
      texWidth := hdr.texWidth,
      texHeight := hdr.texHeight,
      maxAscent := hdr.maxAscent,
      maxDescent := hdr.maxDescent,
      numGlyphs := hdr.numGlyphs,
      minGlyph := MinCode(tgi),
      range := CodeRange(tgi),
      teximage := image,
      tgi := tgi,
      tgvi := VertexInfos(tgi),
      lut := LookupTable(tgi, MinCode(tgi), CodeRange(tgi)))
  }

  /** The fields BuildFont copies from the header and the image. */
  lemma BuildFontFields(hdr: Header, tgi: seq<TexGlyphInfo>, image: Option<seq<byte>>)
    requires 1 <= |tgi| == hdr.numGlyphs
    ensures BuildFont(hdr, tgi, image).texWidth == hdr.texWidth
    ensures BuildFont(hdr, tgi, image).texHeight == hdr.texHeight
    ensures BuildFont(hdr, tgi, image).maxAscent == hdr.maxAscent
    ensures BuildFont(hdr, tgi, image).maxDescent == hdr.maxDescent
    ensures BuildFont(hdr, tgi, image).numGlyphs == hdr.numGlyphs
    ensures BuildFont(hdr, tgi, image).teximage == image
    ensures BuildFont(hdr, tgi, image).tgi == tgi
  {
  }

  /** The tables BuildFont derives from the glyph records. */
  lemma BuildFontTables(hdr: Header, tgi: seq<TexGlyphInfo>, image: Option<seq<byte>>)
    requires 1 <= |tgi| == hdr.numGlyphs
    ensures BuildFont(hdr, tgi, image).tgvi == VertexInfos(tgi)
    ensures BuildFont(hdr, tgi, image).minGlyph == MinCode(tgi)
    ensures BuildFont(hdr, tgi, image).range == MaxCode(tgi) - MinCode(tgi) + 1
    ensures BuildFont(hdr, tgi, image).lut == LookupTable(tgi, MinCode(tgi), CodeRange(tgi))
  {
  }

  /** txfLoadFont on the bytes of a file. */
  function ParseFont(file: seq<byte>): (r: Result<TexFont, LoadError>)
    ensures r.Success? ==> WellFormed(r.value) && r.value.numGlyphs >= 1
    ensures r.Success? ==> Identify(file).Success? && |file| >= TableEnd(r.value.numGlyphs)
    ensures r.Success? && r.value.teximage.Some? ==> |r.value.teximage.value| == r.value.texWidth * r.value.texHeight
  {
    var swap :- Identify(file);
    var hdr :- ParseHeader(file, swap);
    if hdr.numGlyphs < 0 then Failure(BadArraySize)
    else if |file| < TableEnd(hdr.numGlyphs) then Failure(PrematureEndOfFile)
    else if hdr.numGlyphs == 0 then Failure(NoGlyphs)
    else CompleteFont(hdr, GlyphTable(file, swap, hdr.numGlyphs), file[TableEnd(hdr.numGlyphs)..])
  }

  /** The font once its glyph records are read: the pixel payload decides
      between an error and the built font. */
  function CompleteFont(hdr: Header, tgi: seq<TexGlyphInfo>, payload: seq<byte>): (r: Result<TexFont, LoadError>)
    requires 1 <= |tgi| == hdr.numGlyphs
    ensures r.Failure? <==> ParsePixels(hdr.format, hdr.texWidth, hdr.texHeight, payload).Failure?
    ensures r.Success? ==> WellFormed(r.value) && r.value.tgi == tgi && r.value.numGlyphs == hdr.numGlyphs
    ensures r.Success? ==> (r.value.teximage.Some? <==> hdr.format == 0 || hdr.format == 1)
  {
    var image :- ParsePixels(hdr.format, hdr.texWidth, hdr.texHeight, payload);
    Success(BuildFont(hdr, tgi, image))
  }
}
