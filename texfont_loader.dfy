/** txfLoadFont as the C++ code performs it: reads through a file cursor,
    swaps header and glyph fields in place, fills the vertex, lookup and image
    arrays in loops. Each step is proved against the declarative reading of
    the file in TxfFile, and the whole load against ParseFont. */
module TexFontLoader {
  import opened Arithmetic
  import opened ByteOrder
  import opened Results
  import opened TexFontTypes
  import opened TxfFile

  /** An open font file: its bytes and the read position. */
  class Reader {
    const contents: seq<byte>
    var pos: nat

    constructor (contents: seq<byte>)
      ensures this.contents == contents && pos == 0
    {
      this.contents := contents;
      pos := 0;
    }

    /** fread of up to `n` bytes into `buf[at..]`: copies what is left of the
        file, at most `n` bytes, advances the position and returns the count. */
    method ReadInto(buf: array<byte>, at: nat, n: nat) returns (got: nat)
      requires pos <= |contents| && at + n <= buf.Length
      modifies this, buf
      ensures pos <= |contents|
      ensures got == if n <= |contents| - old(pos) then n else |contents| - old(pos)
      ensures pos == old(pos) + got
      ensures buf[at .. at + got] == contents[old(pos) .. pos]
      ensures forall k :: 0 <= k < buf.Length && !(at <= k < at + got) ==> buf[k] == old(buf[k])
    {
      got := if n <= |contents| - pos then n else |contents| - pos;
      forall k | at <= k < at + got {
        buf[k] := contents[pos + (k - at)];
      }
      pos := pos + got;
    }
  }

  /** txfLoadFont on an opened file. */
  method LoadFont(file: seq<byte>) returns (r: Result<TexFont, LoadError>)
    ensures r == ParseFont(file)
  {
    var reader := new Reader(file);
    var id := ReadIdentification(reader);
    if id.Failure? {
      return Failure(id.error);
    }
    var swap := id.value;
    var header := ReadHeader(reader, swap);
    if header.Failure? {
      return Failure(header.error);
    }
    var hdr := header.value;
    if hdr.numGlyphs < 0 {
      return Failure(BadArraySize);
    }
    var table := ReadGlyphTable(reader, swap, hdr.numGlyphs);
    if table.Failure? {
      return Failure(table.error);
    }
    var tgi := table.value;
    if hdr.numGlyphs == 0 {
      return Failure(NoGlyphs);
    }
    r := CompleteLoad(reader, hdr, tgi);
  }

  /** The rest of txfLoadFont once the glyph records are in: vertex
      information, code range, lookup table and pixels. */
  method CompleteLoad(reader: Reader, hdr: Header, tgi: seq<TexGlyphInfo>) returns (r: Result<TexFont, LoadError>)
    requires 1 <= |tgi| == hdr.numGlyphs
    requires reader.pos <= |reader.contents|
    modifies reader
    ensures r == CompleteFont(hdr, tgi, old(reader.contents[reader.pos..]))
  {
    var tgvi := BuildVertexInfos(tgi);
    var minGlyph, maxGlyph := GlyphCodeRange(tgi);
    var range := maxGlyph - minGlyph + 1;
    var lut := BuildLut(tgi, minGlyph, range);
    var image := ReadPixels(reader, hdr.format, hdr.texWidth, hdr.texHeight);
    if image.Failure? {
      return Failure(image.error);
    }
    BuildFontFields(hdr, tgi, image.value);
    BuildFontTables(hdr, tgi, image.value);
    r := Success(TexFont(
      texWidth := hdr.texWidth,
      texHeight := hdr.texHeight,
      maxAscent := hdr.maxAscent,
      maxDescent := hdr.maxDescent,
      numGlyphs := hdr.numGlyphs,
      minGlyph := minGlyph,
      range := range,
      teximage := image.value,
      tgi := tgi,
      tgvi := tgvi,
      lut := lut));
  }

  /** The magic check and the endianness marker. */
  method ReadIdentification(reader: Reader) returns (r: Result<bool, LoadError>)
    requires reader.pos == 0
    modifies reader
    ensures r == Identify(reader.contents)
    ensures r.Success? ==> reader.pos == 8
  {
    var fileid := new byte[4];
    var got := reader.ReadInto(fileid, 0, 4);
    if got != 4 || fileid[..] != Magic {
      return Failure(NotATextureFont);
    }
    var endianness, count := ReadInt32(reader);
    if count == 1 && Int32Of(LE32(endianness[..])) == NativeMarker {
      return Success(false);
    } else if count == 1 && Int32Of(LE32(endianness[..])) == SwappedMarker {
      return Success(true);
    } else {
      return Failure(NotATextureFont);
    }
  }

  /** `fread(&value, sizeof(int), 1, file)`: the four bytes of one int, and
      the number of whole ints read (0 or 1). */
  method ReadInt32(reader: Reader) returns (cell: array<byte>, count: nat)
    requires reader.pos <= |reader.contents|
    modifies reader
    ensures fresh(cell) && cell.Length == 4
    ensures reader.pos <= |reader.contents|
    ensures count == if old(reader.pos) + 4 <= |reader.contents| then 1 else 0
    ensures count == 1 ==>
      reader.pos == old(reader.pos) + 4 && cell[..] == reader.contents[old(reader.pos) .. reader.pos]
  {
    cell := new byte[4];
    var got := reader.ReadInto(cell, 0, 4);
    count := if got == 4 then 1 else 0;
  }

  /** The six header ints, each read on its own, then byte-swapped in place
      when the marker says so. */
  method ReadHeader(reader: Reader, swap: bool) returns (r: Result<Header, LoadError>)
    requires reader.pos == 8 <= |reader.contents|
    modifies reader
    ensures r == ParseHeader(reader.contents, swap)
    ensures r.Success? ==> reader.pos == HeaderEnd
  {
    ghost var file := reader.contents;
    var format, got := ReadInt32(reader);
    if got != 1 { return Failure(PrematureEndOfFile); }
    ghost var b0 := format[..];
    assert reader.pos == 12 && b0 == file[8..12];
    var texWidth, got1 := ReadInt32(reader);
    if got1 != 1 { return Failure(PrematureEndOfFile); }
    ghost var b1 := texWidth[..];
    assert reader.pos == 16 && b1 == file[12..16];
    var texHeight, got2 := ReadInt32(reader);
    if got2 != 1 { return Failure(PrematureEndOfFile); }
    ghost var b2 := texHeight[..];
    assert reader.pos == 20 && b2 == file[16..20];
    var maxAscent, got3 := ReadInt32(reader);
    if got3 != 1 { return Failure(PrematureEndOfFile); }
    ghost var b3 := maxAscent[..];
    assert reader.pos == 24 && b3 == file[20..24];
    var maxDescent, got4 := ReadInt32(reader);
    if got4 != 1 { return Failure(PrematureEndOfFile); }
    ghost var b4 := maxDescent[..];
    assert reader.pos == 28 && b4 == file[24..28];
    var numGlyphs, got5 := ReadInt32(reader);
    if got5 != 1 { return Failure(PrematureEndOfFile); }
    ghost var b5 := numGlyphs[..];
    assert reader.pos == 32 && b5 == file[28..32];
    r := SwapHeader(format, texWidth, texHeight, maxAscent, maxDescent, numGlyphs, swap);
    HeaderFieldAt(file, swap, 0, b0);
    HeaderFieldAt(file, swap, 1, b1);
    HeaderFieldAt(file, swap, 2, b2);
    HeaderFieldAt(file, swap, 3, b3);
    HeaderFieldAt(file, swap, 4, b4);
    HeaderFieldAt(file, swap, 5, b5);
  }

  /** `if (swap) { byteSwap32Bit(&format); ... }` on the six ints as read,
      and the header they then hold. */
  method SwapHeader(format: array<byte>, texWidth: array<byte>, texHeight: array<byte>,
                    maxAscent: array<byte>, maxDescent: array<byte>, numGlyphs: array<byte>, swap: bool)
    returns (r: Result<Header, LoadError>)
    requires format.Length == texWidth.Length == texHeight.Length == 4
    requires maxAscent.Length == maxDescent.Length == numGlyphs.Length == 4
    requires format != texWidth && format != texHeight && format != maxAscent && format != maxDescent && format != numGlyphs
    requires texWidth != texHeight && texWidth != maxAscent && texWidth != maxDescent && texWidth != numGlyphs
    requires texHeight != maxAscent && texHeight != maxDescent && texHeight != numGlyphs
    requires maxAscent != maxDescent && maxAscent != numGlyphs && maxDescent != numGlyphs
    modifies format, texWidth, texHeight, maxAscent, maxDescent, numGlyphs
    ensures r == Success(Header(
      Int32Of(LE32(Swap4If(swap, old(format[..])))), Int32Of(LE32(Swap4If(swap, old(texWidth[..])))),
      Int32Of(LE32(Swap4If(swap, old(texHeight[..])))), Int32Of(LE32(Swap4If(swap, old(maxAscent[..])))),
      Int32Of(LE32(Swap4If(swap, old(maxDescent[..])))), Int32Of(LE32(Swap4If(swap, old(numGlyphs[..]))))))
  {
    var f0 := HostInt32(format, swap);
    var f1 := HostInt32(texWidth, swap);
    var f2 := HostInt32(texHeight, swap);
    var f3 := HostInt32(maxAscent, swap);
    var f4 := HostInt32(maxDescent, swap);
    var f5 := HostInt32(numGlyphs, swap);
    r := Success(Header(f0, f1, f2, f3, f4, f5));
  }

  /** Header int `k` is the value of the four bytes after the previous ones. */
  lemma HeaderFieldAt(file: seq<byte>, swap: bool, k: nat, b: seq<byte>)
    requires k < 6 && |file| >= HeaderEnd && b == file[8 + 4 * k .. 12 + 4 * k]
    ensures HeaderField(file, swap, k) == Int32Of(LE32(Swap4If(swap, b)))
  {
  }

  /** The value of an int read from the file: `byteSwap32Bit` on its bytes
      in place when the file has the other byte order, then read in host order. */
  method HostInt32(cell: array<byte>, swap: bool) returns (v: int32)
    requires cell.Length == 4
    modifies cell
    ensures v == Int32Of(LE32(Swap4If(swap, old(cell[..]))))
  {
    if swap {
      ByteSwap32Bit(cell, 0);
    }
    assert cell[..] == cell[0..4];
    v := Int32Of(LE32(cell[..]));
  }

  /** The glyph records: one read of `n` records, then the swap loop. */
  method ReadGlyphTable(reader: Reader, swap: bool, n: nat) returns (r: Result<seq<TexGlyphInfo>, LoadError>)
    requires reader.pos == HeaderEnd <= |reader.contents|
    modifies reader
    ensures r.Success? <==> TableEnd(n) <= |reader.contents|
    ensures r.Success? ==> r.value == GlyphTable(reader.contents, swap, n) && reader.pos == TableEnd(n)
    ensures r.Failure? ==> r.error == PrematureEndOfFile
  {
    var table := new byte[GlyphRecordSize * n];
    var got := reader.ReadInto(table, 0, GlyphRecordSize * n);
    if got != GlyphRecordSize * n {
      return Failure(PrematureEndOfFile);
    }
    ghost var raw := table[..];
    assert raw == table[0 .. GlyphRecordSize * n] == reader.contents[HeaderEnd .. TableEnd(n)];
    if swap {
      SwapGlyphFields(table, n);
    }
    var tbl := table[..];
    var tgi := seq(n, i requires 0 <= i < n => DecodeGlyph(tbl[GlyphRecordSize * i .. GlyphRecordSize * i + GlyphRecordSize]));
    forall i | 0 <= i < n
      ensures tgi[i] == GlyphRecord(reader.contents, swap, i)
    {
      RecordOfTable(reader.contents, raw, n, i);
    }
    return Success(tgi);
  }

  /** Record `i` of the table bytes read after the header is record `i` of
      the file. */
  lemma RecordOfTable(contents: seq<byte>, raw: seq<byte>, n: nat, i: nat)
    requires TableEnd(n) <= |contents| && raw == contents[HeaderEnd .. TableEnd(n)] && i < n
    ensures raw[GlyphRecordSize * i .. GlyphRecordSize * i + GlyphRecordSize]
      == contents[TableEnd(i) .. TableEnd(i + 1)]
  {
    var lo := GlyphRecordSize * i;
    assert TableEnd(i) == HeaderEnd + lo && TableEnd(i + 1) == HeaderEnd + lo + GlyphRecordSize;
    var a, b := raw[lo .. lo + GlyphRecordSize], contents[TableEnd(i) .. TableEnd(i + 1)];
    forall k | 0 <= k < GlyphRecordSize
      ensures a[k] == b[k]
    {
      assert a[k] == raw[lo + k] == contents[HeaderEnd + lo + k];
    }
    assert a == b;
  }

  /** Each of the first `i` records of `t` is the swapped record of `orig`. */
  ghost predicate RecordsSwapped(t: seq<byte>, orig: seq<byte>, i: nat)
    requires |t| == |orig| >= GlyphRecordSize * i
  {
    forall j :: 0 <= j < i ==>
      t[GlyphRecordSize * j .. GlyphRecordSize * j + GlyphRecordSize]
        == SwapRecord(orig[GlyphRecordSize * j .. GlyphRecordSize * j + GlyphRecordSize])
  }

  /** The swap loop over the glyph table: in every record the bytes of `c`,
      `x` and `y` are exchanged in place; the 8-bit fields stay where they are. */
  method SwapGlyphFields(table: array<byte>, n: nat)
    requires table.Length == GlyphRecordSize * n
    modifies table
    ensures RecordsSwapped(table[..], old(table[..]), n)
  {
    ghost var orig := table[..];
    for i := 0 to n
      invariant RecordsSwapped(table[..], orig, i)
      invariant forall k :: GlyphRecordSize * i <= k < table.Length ==> table[k] == orig[k]
    {
      ghost var before := table[..];
      var at := GlyphRecordSize * i;
      SliceUntouched(before, orig, at, at + GlyphRecordSize);
      SwapGlyphRecord(table, at);
      assert table[..][at .. at + GlyphRecordSize] == table[at .. at + GlyphRecordSize];
      RecordsSwappedStep(before, table[..], orig, i);
    }
  }

  /** Swapping record `i` after the first `i` extends the swapped prefix by
      one record. */
  lemma RecordsSwappedStep(before: seq<byte>, after: seq<byte>, orig: seq<byte>, i: nat)
    requires |before| == |after| == |orig| >= GlyphRecordSize * i + GlyphRecordSize
    requires forall k :: 0 <= k < GlyphRecordSize * i ==> after[k] == before[k]
    requires RecordsSwapped(before, orig, i)
    requires before[GlyphRecordSize * i .. GlyphRecordSize * i + GlyphRecordSize]
      == orig[GlyphRecordSize * i .. GlyphRecordSize * i + GlyphRecordSize]
    requires after[GlyphRecordSize * i .. GlyphRecordSize * i + GlyphRecordSize]
      == SwapRecord(before[GlyphRecordSize * i .. GlyphRecordSize * i + GlyphRecordSize])
    ensures RecordsSwapped(after, orig, i + 1)
  {
    forall j | 0 <= j < i
      ensures after[GlyphRecordSize * j .. GlyphRecordSize * j + GlyphRecordSize]
        == SwapRecord(orig[GlyphRecordSize * j .. GlyphRecordSize * j + GlyphRecordSize])
    {
      SliceUntouched(after, before, GlyphRecordSize * j, GlyphRecordSize * j + GlyphRecordSize);
    }
  }

  /** Two sequences that agree at every position of a slice agree on the slice. */
  lemma SliceUntouched(a: seq<byte>, b: seq<byte>, lo: nat, hi: nat)
    requires lo <= hi <= |a| && hi <= |b|
    requires forall k :: lo <= k < hi ==> a[k] == b[k]
    ensures a[lo .. hi] == b[lo .. hi]
  {
    assert forall k :: 0 <= k < hi - lo ==> a[lo .. hi][k] == a[lo + k];
  }

  /** The body of the swap loop for the record at `at`. */
  method SwapGlyphRecord(table: array<byte>, at: nat)
    requires at + GlyphRecordSize <= table.Length
    modifies table
    ensures table[at .. at + GlyphRecordSize] == SwapRecord(old(table[at .. at + GlyphRecordSize]))
    ensures forall k :: 0 <= k < table.Length && !(at <= k < at + GlyphRecordSize) ==> table[k] == old(table[k])
  {
    ghost var b := table[at .. at + GlyphRecordSize];
    ghost var r := SwapRecord(b);
    SwapRecordBytes(b);
    ByteSwap16Bit(table, at);
    ByteSwap16Bit(table, at + 8);
    ByteSwap16Bit(table, at + 10);
    forall k | 0 <= k < GlyphRecordSize
      ensures table[at + k] == r[k]
    {
    }
    assert table[at .. at + GlyphRecordSize] == r;
  }

  /** The per-glyph loop that derives corners, advance and vertex array. */
  method BuildVertexInfos(tgi: seq<TexGlyphInfo>) returns (tgvi: seq<TexGlyphVertexInfo>)
    ensures tgvi == VertexInfos(tgi)
  {
    var a := new TexGlyphVertexInfo[|tgi|];
    for i := 0 to |tgi|
      invariant forall j :: 0 <= j < i ==> a[j] == VertexInfo(tgi[j])
    {
      var g := tgi[i];
      var vb := WriteVertexBuffer();
      a[i] := TexGlyphVertexInfo(
        v0 := ShortPoint(g.xoffset, g.yoffset),
        v1 := ShortPoint(g.xoffset + g.width, g.yoffset),
        v2 := ShortPoint(g.xoffset + g.width, g.yoffset + g.height),
        v3 := ShortPoint(g.xoffset, g.yoffset + g.height),
        advance := g.advance,
        vertexBuffer := vb);
    }
    tgvi := a[..];
  }

  /** One glyph's vertex array, written five floats at a time with
      `offset += 5`: the unit quad in strip order with its texture corners. */
  method WriteVertexBuffer() returns (vb: seq<VertexSlot>)
    ensures vb == Interleave(QuadStrip)
  {
    var a := new VertexSlot[VertexArrayFloats];
    var offset := 0;
    WriteVertex(a, offset, 0, 1, T3);
    offset := offset + 5;
    WriteVertex(a, offset, 1, 1, T2);
    offset := offset + 5;
    WriteVertex(a, offset, 0, 0, T0);
    offset := offset + 5;
    WriteVertex(a, offset, 1, 0, T1);
    vb := a[..];
    assert vb[0..5] == [Coord(0), Coord(1), Coord(0), TexU(T3), TexV(T3)];
    assert vb[5..10] == [Coord(1), Coord(1), Coord(0), TexU(T2), TexV(T2)];
    assert vb[10..15] == [Coord(0), Coord(0), Coord(0), TexU(T0), TexV(T0)];
    QuadStripLayout();
    FourVertices(vb);
  }

  /** The vertex array is its four five-slot vertices one after the other. */
  lemma FourVertices(vb: seq<VertexSlot>)
    requires |vb| == VertexArrayFloats
    ensures vb == vb[0..5] + vb[5..10] + vb[10..15] + vb[15..20]
  {
  }

  /** `vb[offset + 0..4]`: position (px, py, 0) and the texture corner. */
  method WriteVertex(a: array<VertexSlot>, offset: nat, px: int, py: int, corner: Corner)
    requires offset + 5 <= a.Length
    modifies a
    ensures a[offset .. offset + 5] == [Coord(px), Coord(py), Coord(0), TexU(corner), TexV(corner)]
    ensures a[offset] == Coord(px) && a[offset + 1] == Coord(py) && a[offset + 2] == Coord(0)
    ensures a[offset + 3] == TexU(corner) && a[offset + 4] == TexV(corner)
    ensures forall k :: 0 <= k < a.Length && !(offset <= k < offset + 5) ==> a[k] == old(a[k])
  {
    a[offset + 0] := Coord(px);
    a[offset + 1] := Coord(py);
    a[offset + 2] := Coord(0);
    a[offset + 3] := TexU(corner);
    a[offset + 4] := TexV(corner);
  }

  /** The interleaved strip, vertex by vertex. */
  lemma QuadStripLayout()
    ensures Interleave(QuadStrip)
      == [Coord(0), Coord(1), Coord(0), TexU(T3), TexV(T3)]
       + [Coord(1), Coord(1), Coord(0), TexU(T2), TexV(T2)]
       + [Coord(0), Coord(0), Coord(0), TexU(T0), TexV(T0)]
       + [Coord(1), Coord(0), Coord(0), TexU(T1), TexV(T1)]
  {
    assert QuadStrip[1..][1..][1..][1..] == [];
  }

  /** The min/max loop over the glyph codes. */
  method GlyphCodeRange(tgi: seq<TexGlyphInfo>) returns (minGlyph: int, maxGlyph: int)
    requires |tgi| >= 1
    ensures minGlyph == MinCode(tgi) && maxGlyph == MaxCode(tgi)
  {
    minGlyph := tgi[0].c;
    maxGlyph := minGlyph;
    for i := 1 to |tgi|
      invariant minGlyph == MinCode(tgi[..i]) && maxGlyph == MaxCode(tgi[..i])
    {
      CodeStep(tgi, i);
      if tgi[i].c < minGlyph {
        minGlyph := tgi[i].c;
      }
      if tgi[i].c > maxGlyph {
        maxGlyph := tgi[i].c;
      }
    }
    assert tgi[..|tgi|] == tgi;
  }

  /** One more glyph extends the smallest and largest code seen so far. */
  lemma CodeStep(tgi: seq<TexGlyphInfo>, i: nat)
    requires 1 <= i < |tgi|
    ensures MinCode(tgi[..i + 1]) == if tgi[i].c < MinCode(tgi[..i]) then tgi[i].c else MinCode(tgi[..i])
    ensures MaxCode(tgi[..i + 1]) == if tgi[i].c > MaxCode(tgi[..i]) then tgi[i].c else MaxCode(tgi[..i])
  {
    var t := tgi[..i + 1];
    assert t[..|t| - 1] == tgi[..i] && t[|t| - 1] == tgi[i];
  }

  /** The lookup table: `range` NULL entries, then for each glyph in order the
      entry of its code is pointed at it. */
  method BuildLut(tgi: seq<TexGlyphInfo>, minGlyph: int, range: nat) returns (lut: seq<Option<nat>>)
    requires forall i :: 0 <= i < |tgi| ==> minGlyph <= tgi[i].c < minGlyph + range
    ensures lut == LookupTable(tgi, minGlyph, range)
  {
    var a := new Option<nat>[range];
    for k := 0 to range
      invariant forall j :: 0 <= j < k ==> a[j] == None
    {
      a[k] := None;
    }
    for i := 0 to |tgi|
      invariant forall k :: 0 <= k < range ==> a[k] == LastIndexOf(tgi, i, minGlyph + k)
    {
      a[tgi[i].c - minGlyph] := Some(i);
    }
    lut := a[..];
  }

  /** The `switch (format)` reading the pixel payload. */
  method ReadPixels(reader: Reader, format: int32, w: int32, h: int32)
    returns (r: Result<Option<seq<byte>>, LoadError>)
    requires reader.pos <= |reader.contents|
    modifies reader
    ensures r == ParsePixels(format, w, h, old(reader.contents[reader.pos..]))
  {
    ghost var payload := reader.contents[reader.pos..];
    match FormatOfCode(format)
    case Some(TxfFormatByte) =>
      if w * h < 0 {
        return Failure(BadArraySize);
      }
      var teximage := new byte[w * h];
      var got := reader.ReadInto(teximage, 0, w * h);
      if got != w * h {
        return Failure(PrematureEndOfFile);
      }
      assert teximage[..] == teximage[0 .. w * h] == payload[..w * h];
      return Success(Some(teximage[..]));
    case Some(TxfFormatBitmap) =>
      r := ReadBitmap(reader, w, h);
    case None =>
      return Success(None);
  }

  /** The TXF_FORMAT_BITMAP case: the packed bitmap of `stride * height`
      bytes is read and expanded; with a negative side the loops run no
      iteration and the image stays unwritten. */
  method ReadBitmap(reader: Reader, w: int32, h: int32)
    returns (r: Result<Option<seq<byte>>, LoadError>)
    requires reader.pos <= |reader.contents|
    modifies reader
    ensures r == ParsePixels(1, w, h, old(reader.contents[reader.pos..]))
  {
    ghost var payload := reader.contents[reader.pos..];
    var stride := (w + 7) / 8;
    assert stride == SignedStride(w);
    if stride * h < 0 {
      return Failure(BadArraySize);
    }
    var texbitmap := new byte[stride * h];
    var got := reader.ReadInto(texbitmap, 0, stride * h);
    if got != stride * h {
      return Failure(PrematureEndOfFile);
    }
    if w * h < 0 {
      return Failure(BadArraySize);
    }
    if w < 0 || h < 0 {
      var teximage := new byte[w * h](_ => 0);
      assert teximage[..] == UnwrittenImage(w * h);
      return Success(Some(teximage[..]));
    }
    assert texbitmap[..] == texbitmap[0 .. stride * h] == payload[..stride * h];
    var teximage := UnpackBitmap(texbitmap[..], w, h);
    return Success(Some(teximage));
  }

  /** The nested loop expanding the packed bitmap to one byte per texel. */
  method UnpackBitmap(texbitmap: seq<byte>, width: nat, height: nat) returns (teximage: seq<byte>)
    requires |texbitmap| == Stride(width) * height
    ensures teximage == Unpack(texbitmap, width, height)
  {
    var img := new byte[width * height];
    var stride := (width + 7) / 8;
    var row, rowBits := 0, 0;
    for i := 0 to height
      invariant row == i * width <= img.Length && rowBits == i * Stride(width)
      invariant forall k :: 0 <= k < row ==> img[k] == UnpackedTexel(texbitmap, width, height, k)
    {
      MulMonotone(i + 1, height, width);
      UnpackRow(texbitmap, width, height, img, i, row, rowBits);
      assert (i + 1) * width == row + width && (i + 1) * Stride(width) == rowBits + stride;
      row, rowBits := row + width, rowBits + stride;
    }
    assert row == img.Length;
    teximage := img[..];
    assert forall k :: 0 <= k < |teximage| ==> teximage[k] == Unpack(texbitmap, width, height)[k];
  }

  /** The inner loop: row `i` of the image, one texel per column; `row` is
      `i * width` and `rowBits` is `i * stride`. */
  method UnpackRow(texbitmap: seq<byte>, width: nat, height: nat, img: array<byte>, i: nat, row: nat, rowBits: nat)
    requires |texbitmap| == Stride(width) * height && img.Length == width * height && i < height
    requires row == i * width && rowBits == i * Stride(width) && row + width <= img.Length
    requires forall k :: 0 <= k < row ==> img[k] == UnpackedTexel(texbitmap, width, height, k)
    modifies img
    ensures forall k :: 0 <= k < row + width ==> img[k] == UnpackedTexel(texbitmap, width, height, k)
  {
    for j := 0 to width
      invariant forall k :: 0 <= k < row + j ==> img[k] == UnpackedTexel(texbitmap, width, height, k)
    {
      TexelBit(texbitmap, width, height, i, j, row, rowBits);
      UnpackTexel(texbitmap, width, height, img, row, rowBits, j);
    }
  }

  /** The body of the inner loop: `teximage[i * width + j]` is 255 when bit
      `j & 7` of byte `i * stride + (j >> 3)` is set, 0 otherwise; `row` is
      `i * width` and `rowBits` is `i * stride`. */
  method UnpackTexel(texbitmap: seq<byte>, width: nat, height: nat, img: array<byte>, row: nat, rowBits: nat, j: nat)
    requires |texbitmap| == Stride(width) * height && img.Length == width * height
    requires row + j < img.Length && rowBits + j / 8 < |texbitmap| && j < width
    requires UnpackedTexel(texbitmap, width, height, row + j)
      == if BitSet(texbitmap[rowBits + j / 8], j % 8) then 255 else 0
    modifies img
    ensures img[row + j] == UnpackedTexel(texbitmap, width, height, row + j)
    ensures forall k :: 0 <= k < img.Length && k != row + j ==> img[k] == old(img[k])
  {
    if texbitmap[rowBits + j / 8] as bv8 & (1 << (j % 8)) != 0 {
      img[row + j] := 255;
    } else {
      img[row + j] := 0;
    }
  }

  /** Where texel (i, j) of the image and its bit in the bitmap lie. */
  lemma TexelBit(bm: seq<byte>, w: nat, h: nat, i: nat, j: nat, row: nat, rowBits: nat)
    requires |bm| == Stride(w) * h && i < h && j < w
    requires row == i * w && rowBits == i * Stride(w)
    ensures row + j < w * h
    ensures rowBits + j / 8 < |bm|
    ensures UnpackedTexel(bm, w, h, row + j) == if BitSet(bm[rowBits + j / 8], j % 8) then 255 else 0
  {
    TexelBitAt(bm, w, h, i, j);
  }
}
