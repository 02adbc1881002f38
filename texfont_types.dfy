/** The data declared by src/texfont.h: the pixel format enumeration, the
    on-disk glyph record, the per-glyph vertex information derived from it,
    and the loaded font with its dense glyph lookup table. */
module TexFontTypes {
  import opened ByteOrder
  import opened Results

  /** TxfFormat: how the pixel payload of a font file is stored. */
  datatype TxfFormat = TxfFormatByte | TxfFormatBitmap

  /** The value the C enumeration gives each format. */
  function FormatCode(f: TxfFormat): int
  {
    match f
    case TxfFormatByte => 0
    case TxfFormatBitmap => 1
  }

  /** The format a header value selects, if any: the `switch (format)` of the
      loader has a case for the two enumerators only. */
  function FormatOfCode(v: int): (r: Option<TxfFormat>)
    ensures r.Some? <==> v == 0 || v == 1
    ensures r.Some? ==> FormatCode(r.value) == v
  {
    if v == 0 then Some(TxfFormatByte)
    else if v == 1 then Some(TxfFormatBitmap)
    else None
  }

  lemma FormatCodeRoundTrip(f: TxfFormat)
    ensures FormatOfCode(FormatCode(f)) == Some(f)
  {
  }

  /** TexGlyphInfo: one glyph record exactly as it is stored in the file. */
  datatype TexGlyphInfo = TexGlyphInfo(
    c: uint16,        // character code
    width: byte,
    height: byte,
    xoffset: int8,
    yoffset: int8,
    advance: int8,
    dummy: byte,      // alignment padding
    x: int16,         // position of the glyph in the texture
    y: int16)

  /** Size in bytes of one TexGlyphInfo record: 2 + 1 + 1 + 1 + 1 + 1 + 1 + 2 + 2. */
  const GlyphRecordSize: nat := 12

  /** A vertex position held in two GLshort values. */
  datatype ShortPoint = ShortPoint(x: int16, y: int16)

  /** The four texture coordinates t0..t3 of a glyph are floats and are not
      modelled by value; a vertex refers to the corner whose coordinate it uses. */
  datatype Corner = T0 | T1 | T2 | T3

  /** One float slot of the interleaved vertex array: an exact position
      coordinate, or the u or v texture coordinate of a corner. */
  datatype VertexSlot = Coord(value: int) | TexU(corner: Corner) | TexV(corner: Corner)

  /** Floats per glyph in the vertex array: 4 vertices of 3 position and 2
      texture coordinates. */
  const VertexArrayFloats: nat := (3 + 2) * 4

  /** TexGlyphVertexInfo: the quad corners v0..v3, the advance, and the
      interleaved vertex array of one glyph. */
  datatype TexGlyphVertexInfo = TexGlyphVertexInfo(
    v0: ShortPoint,
    v1: ShortPoint,
    v2: ShortPoint,
    v3: ShortPoint,
    advance: int,
    vertexBuffer: seq<VertexSlot>)

  /** TexFont: a loaded font. `lut[k]` is the index in `tgvi` of the glyph for
      character code `minGlyph + k`, or None (the NULL entry). `teximage` is
      None when the header's format matched neither case of the loader. */
  datatype TexFont = TexFont(
    texWidth: int32,
    texHeight: int32,
    maxAscent: int32,
    maxDescent: int32,
    numGlyphs: int32,
    minGlyph: int,
    range: int,
    teximage: Option<seq<byte>>,
    tgi: seq<TexGlyphInfo>,
    tgvi: seq<TexGlyphVertexInfo>,
    lut: seq<Option<nat>>)

  /** What every font returned by the loader satisfies: the glyph arrays hold
      `numGlyphs` entries, the lookup table holds `range` entries, every glyph
      code lies in [minGlyph, minGlyph + range), and every non-NULL table
      entry refers to a glyph with that code. */
  ghost predicate WellFormed(f: TexFont)
  {
    && 1 <= f.numGlyphs == |f.tgi| == |f.tgvi|
    && 1 <= f.range == |f.lut|
    && (forall i :: 0 <= i < |f.tgi| ==> f.minGlyph <= f.tgi[i].c < f.minGlyph + f.range)
    && (forall k :: 0 <= k < |f.lut| && f.lut[k].Some? ==>
          f.lut[k].value < |f.tgi| && f.tgi[f.lut[k].value].c == f.minGlyph + k)
  }
}
