/** The TXF layout written out, as a machine of either byte order stores
    it, and the round trip: the loader reads back exactly the header, the
    glyph records and the pixel payload that were written, whatever the
    writer's byte order. */
module TxfRoundTrip {
  import opened ByteOrder
  import opened Results
  import opened TexFontTypes
  import opened TxfFile

  /** The four bytes of an int as stored by a machine of the host's byte
      order, or of the other one when `other` holds. */
  function EncodeInt32(v: int32, other: bool): (b: seq<byte>)
    ensures |b| == 4
  {
    Swap4If(other, Bytes32(Uint32OfInt32(v)))
  }

  /** A glyph record in host order: c, width, height, xoffset, yoffset,
      advance, the padding byte, x, y. */
  function HostRecord(g: TexGlyphInfo): (b: seq<byte>)
    ensures |b| == GlyphRecordSize
  {
    Bytes16(g.c)
      + [g.width, g.height, ByteOfInt8(g.xoffset), ByteOfInt8(g.yoffset), ByteOfInt8(g.advance), g.dummy]
      + Bytes16(Uint16OfInt16(g.x)) + Bytes16(Uint16OfInt16(g.y))
  }

  function EncodeGlyph(g: TexGlyphInfo, other: bool): (b: seq<byte>)
    ensures |b| == GlyphRecordSize
  {
    if other then SwapRecord(HostRecord(g)) else HostRecord(g)
  }

  function EncodeTable(tgi: seq<TexGlyphInfo>, other: bool): (b: seq<byte>)
    ensures |b| == GlyphRecordSize * |tgi|
  {
    if tgi == [] then []
    else EncodeTable(tgi[..|tgi| - 1], other) + EncodeGlyph(tgi[|tgi| - 1], other)
  }

  /** The header part of a file: magic, marker and the six ints. */
  function EncodeHeader(hdr: Header, other: bool): (b: seq<byte>)
    ensures |b| == HeaderEnd
  {
    Magic + EncodeInt32(NativeMarker, other)
      + EncodeInt32(hdr.format, other) + EncodeInt32(hdr.texWidth, other)
      + EncodeInt32(hdr.texHeight, other) + EncodeInt32(hdr.maxAscent, other)
      + EncodeInt32(hdr.maxDescent, other) + EncodeInt32(hdr.numGlyphs, other)
  }

  /** A whole font file. */
  function EncodeFile(hdr: Header, tgi: seq<TexGlyphInfo>, payload: seq<byte>, other: bool): seq<byte>
  {
    EncodeHeader(hdr, other) + (EncodeTable(tgi, other) + payload)
  }

  lemma DecodeEncodeInt32(v: int32, other: bool)
    ensures Int32Of(LE32(Swap4If(other, EncodeInt32(v, other)))) == v
  {
    var b := Bytes32(Uint32OfInt32(v));
    assert Swap4(Swap4(b)) == b;
  }

  /** The glyph a loader decodes from a written record is the one written. */
  lemma DecodeEncodeGlyph(g: TexGlyphInfo, other: bool)
    ensures var b := EncodeGlyph(g, other);
      DecodeGlyph(if other then SwapRecord(b) else b) == g
  {
    var h := HostRecord(g);
    SwapRecordInvolutive(h);
    assert h[0..2] == Bytes16(g.c);
    assert h[8..10] == Bytes16(Uint16OfInt16(g.x));
    assert h[10..12] == Bytes16(Uint16OfInt16(g.y));
  }

  /** A slice of a concatenation that lies within one of its parts. */
  lemma SliceOfConcat(a: seq<byte>, b: seq<byte>, lo: nat, hi: nat)
    requires lo <= hi <= |a| + |b|
    ensures hi <= |a| ==> (a + b)[lo .. hi] == a[lo .. hi]
    ensures |a| <= lo ==> (a + b)[lo .. hi] == b[lo - |a| .. hi - |a|]
  {
  }

  lemma DropOfConcat(a: seq<byte>, b: seq<byte>)
    ensures (a + b)[|a|..] == b
  {
  }

  /** Record `i` of a written table sits at bytes 12i .. 12i + 11. */
  lemma {:induction false} EncodeTableRecord(tgi: seq<TexGlyphInfo>, other: bool, i: nat)
    requires i < |tgi|
    ensures EncodeTable(tgi, other)[GlyphRecordSize * i .. GlyphRecordSize * i + GlyphRecordSize]
      == EncodeGlyph(tgi[i], other)
  {
    var front := tgi[..|tgi| - 1];
    var a, b := EncodeTable(front, other), EncodeGlyph(tgi[|tgi| - 1], other);
    assert EncodeTable(tgi, other) == a + b;
    var lo := GlyphRecordSize * i;
    SliceOfConcat(a, b, lo, lo + GlyphRecordSize);
    if i < |tgi| - 1 {
      EncodeTableRecord(front, other, i);
      assert front[i] == tgi[i];
    }
  }

  /** The marker a writer of either byte order stores identifies the file,
      and tells the loader to swap exactly when the orders differ. */
  lemma IdentifyEncoded(hdr: Header, rest: seq<byte>, other: bool)
    ensures Identify(EncodeHeader(hdr, other) + rest) == Success(other)
  {
    var file := EncodeHeader(hdr, other) + rest;
    assert file[..4] == Magic;
    assert file[4..8] == EncodeInt32(NativeMarker, other);
    assert Bytes32(0x12345678) == [0x78, 0x56, 0x34, 0x12];
  }

  /** The header ints read back as written. */
  lemma ParseHeaderEncoded(hdr: Header, rest: seq<byte>, other: bool)
    ensures ParseHeader(EncodeHeader(hdr, other) + rest, other) == Success(hdr)
  {
    var file := EncodeHeader(hdr, other) + rest;
    assert file[8..12] == EncodeInt32(hdr.format, other);
    assert file[12..16] == EncodeInt32(hdr.texWidth, other);
    assert file[16..20] == EncodeInt32(hdr.texHeight, other);
    assert file[20..24] == EncodeInt32(hdr.maxAscent, other);
    assert file[24..28] == EncodeInt32(hdr.maxDescent, other);
    assert file[28..32] == EncodeInt32(hdr.numGlyphs, other);
    DecodeEncodeInt32(hdr.format, other);
    DecodeEncodeInt32(hdr.texWidth, other);
    DecodeEncodeInt32(hdr.texHeight, other);
    DecodeEncodeInt32(hdr.maxAscent, other);
    DecodeEncodeInt32(hdr.maxDescent, other);
    DecodeEncodeInt32(hdr.numGlyphs, other);
  }

  /** The glyph records read back as written. */
  lemma GlyphTableEncoded(hdr: Header, tgi: seq<TexGlyphInfo>, payload: seq<byte>, other: bool)
    ensures TableEnd(|tgi|) <= |EncodeFile(hdr, tgi, payload, other)|
    ensures GlyphTable(EncodeFile(hdr, tgi, payload, other), other, |tgi|) == tgi
  {
    var file := EncodeFile(hdr, tgi, payload, other);
    forall i | 0 <= i < |tgi|
      ensures GlyphTable(file, other, |tgi|)[i] == tgi[i]
    {
      RecordEncoded(hdr, tgi, payload, other, i);
    }
  }

  /** Record `i` reads back as written. */
  lemma RecordEncoded(hdr: Header, tgi: seq<TexGlyphInfo>, payload: seq<byte>, other: bool, i: nat)
    requires i < |tgi|
    ensures TableEnd(i + 1) <= |EncodeFile(hdr, tgi, payload, other)|
    ensures GlyphRecord(EncodeFile(hdr, tgi, payload, other), other, i) == tgi[i]
  {
    var head, table := EncodeHeader(hdr, other), EncodeTable(tgi, other);
    SliceOfConcat(head, table + payload, TableEnd(i), TableEnd(i + 1));
    SliceOfConcat(table, payload, GlyphRecordSize * i, GlyphRecordSize * i + GlyphRecordSize);
    EncodeTableRecord(tgi, other, i);
    DecodeEncodeGlyph(tgi[i], other);
  }

  /** Loading a written file gives the font of the header, records and
      payload that were written. */
  lemma RoundTrip(hdr: Header, tgi: seq<TexGlyphInfo>, payload: seq<byte>, other: bool)
    requires 1 <= |tgi| == hdr.numGlyphs
    ensures ParseFont(EncodeFile(hdr, tgi, payload, other)) == CompleteFont(hdr, tgi, payload)
  {
    var file := EncodeFile(hdr, tgi, payload, other);
    var head, table := EncodeHeader(hdr, other), EncodeTable(tgi, other);
    IdentifyEncoded(hdr, table + payload, other);
    ParseHeaderEncoded(hdr, table + payload, other);
    GlyphTableEncoded(hdr, tgi, payload, other);
    DropOfConcat(head, table + payload);
    DropOfConcat(table, payload);
    assert file[TableEnd(|tgi|)..] == file[|head|..][|table|..];
    ParseFontOfParts(file, other, hdr, tgi, payload);
  }

  /** A file whose marker, header, records and payload read as given loads
      to the font of those parts. */
  lemma ParseFontOfParts(file: seq<byte>, swap: bool, hdr: Header, tgi: seq<TexGlyphInfo>, payload: seq<byte>)
    requires 1 <= |tgi| == hdr.numGlyphs && TableEnd(|tgi|) <= |file|
    requires Identify(file) == Success(swap) && ParseHeader(file, swap) == Success(hdr)
    requires GlyphTable(file, swap, |tgi|) == tgi && file[TableEnd(|tgi|)..] == payload
    ensures ParseFont(file) == CompleteFont(hdr, tgi, payload)
  {
  }

  /** A font file loads to the same font whichever byte order wrote it. */
  lemma ByteOrderIrrelevant(hdr: Header, tgi: seq<TexGlyphInfo>, payload: seq<byte>)
    requires 1 <= |tgi| == hdr.numGlyphs
    ensures ParseFont(EncodeFile(hdr, tgi, payload, false)) == ParseFont(EncodeFile(hdr, tgi, payload, true))
  {
    RoundTrip(hdr, tgi, payload, false);
    RoundTrip(hdr, tgi, payload, true);
  }
}
