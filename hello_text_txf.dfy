/** initFontTexture of src/hello_text_txf.cpp: the font atlas loaded from a
    TXF file holds one luminance byte per texel, and each is replicated into
    the four byte lanes of a 32-bit RGBA pixel before the upload. */
module HelloTextTxf {
  import opened ByteOrder
  import opened Results
  import opened TexFontTypes
  import opened TxfFile
  import opened TxfProperties
  import opened TxfRoundTrip
  import opened TexFontLoader
  import opened TexFontText

  /** The pixel for a luminance byte, as the loop writes it: the byte in
      all four lanes, and 0 for a zero byte. */
  function Luminance(c: bv8): (p: bv32)
    ensures p == 0 <==> c == 0
  {
    if c != 0 then
      var w := c as bv32;
      w | (w << 8) | (w << 16) | (w << 24)
    else 0
  }

  /** Every lane of the pixel, alpha included, is the luminance byte, so the
      pixel is `c * 0x01010101`; in particular the zero branch gives what the
      replication formula would. */
  lemma LuminanceLanes(c: bv8)
    ensures Luminance(c) & 0xff == c as bv32
    ensures (Luminance(c) >> 8) & 0xff == c as bv32
    ensures (Luminance(c) >> 16) & 0xff == c as bv32
    ensures Luminance(c) >> 24 == c as bv32
    ensures Luminance(c) == (c as bv32) * 0x0101_0101
  {
  }

  /** The conversion loop over the first `n` texels of the atlas. */
  method ExpandLuminance(teximage: seq<byte>, n: int) returns (pixels: array<bv32>)
    requires 0 <= n <= |teximage|
    ensures fresh(pixels) && pixels.Length == n
    ensures forall i :: 0 <= i < n ==> pixels[i] == Luminance(teximage[i] as bv8)
  {
    pixels := new bv32[n];
    for i := 0 to n
      invariant forall k :: 0 <= k < i ==> pixels[k] == Luminance(teximage[k] as bv8)
    {
      if teximage[i] != 0 {
        var c := teximage[i] as bv8 as bv32;
        pixels[i] := c | (c << 8) | (c << 16) | (c << 24);
      } else {
        pixels[i] := 0;
      }
    }
  }

  /** The conversion as written: it allocates `tex_width * tex_height`
      pixels and indexes `teximage` for every texel without testing it for
      NULL. None stands for the allocation of a negative size, which throws,
      and for the NULL read. */
  function ConvertAsWritten(f: TexFont): (r: Option<seq<bv32>>)
    requires f.teximage.Some? ==> f.texWidth * f.texHeight <= |f.teximage.value|
    ensures r.None? <==> f.texWidth * f.texHeight < 0 || (f.texWidth * f.texHeight > 0 && f.teximage.None?)
    ensures r.Some? ==> |r.value| == f.texWidth * f.texHeight
  {
    var n := f.texWidth * f.texHeight;
    if n < 0 then None
    else if n == 0 then Some([])
    else
      match f.teximage
      case None => None
      case Some(img) => Some(seq(n, i requires 0 <= i < n => Luminance(img[i] as bv8)))
  }

  /** A header whose format is neither TXF_FORMAT_BYTE nor TXF_FORMAT_BITMAP. */
  function UnknownFormatHeader(): Header
  {
    Header(format := 2, texWidth := 1, texHeight := 1, maxAscent := 10, maxDescent := 0, numGlyphs := 1)
  }

  /** A one-glyph file with format 2 loads, without an image, and the
      conversion as written then reads through the NULL image. */
  lemma UnknownFormatReadsNull()
    ensures var file := EncodeFile(UnknownFormatHeader(), [OnlyCapitalA()], [], false);
      && ParseFont(file).Success?
      && ParseFont(file).value.teximage.None?
      && ConvertAsWritten(ParseFont(file).value).None?
  {
    var hdr := UnknownFormatHeader();
    RoundTrip(hdr, [OnlyCapitalA()], [], false);
    assert ParsePixels(hdr.format, hdr.texWidth, hdr.texHeight, []) == Success(None);
  }

  /** initFontTexture: load the font and, when it loaded with an image,
      convert the atlas; a failed load, or a font without an image, yields
      no texture. */
  method InitFontTexture(file: seq<byte>) returns (pixels: Option<array<bv32>>)
    ensures ParseFont(file).Failure? ==> pixels.None?
    ensures ParseFont(file).Success? && ParseFont(file).value.teximage.None? ==> pixels.None?
    ensures ParseFont(file).Success? && ParseFont(file).value.teximage.Some? ==>
      var f := ParseFont(file).value;
      && pixels.Some? && fresh(pixels.value)
      && pixels.value.Length == f.texWidth * f.texHeight == |f.teximage.value|
      && forall i :: 0 <= i < pixels.value.Length ==> pixels.value[i] == Luminance(f.teximage.value[i] as bv8)
  {
    var r := LoadFont(file);
    if r.Failure? {
      return None;
    }
    var f := r.value;
    if f.teximage.None? {
      return None;
    }
    LoadedFontImage(file);
    var p := ExpandLuminance(f.teximage.value, f.texWidth * f.texHeight);
    pixels := Some(p);
  }

  /** Where the conversion as written does not crash, it computes what
      InitFontTexture's conversion does. */
  lemma ConvertAsWrittenAgrees(f: TexFont)
    requires f.teximage.Some? && f.texWidth * f.texHeight == |f.teximage.value|
    ensures var r := ConvertAsWritten(f);
      && r.Some? && |r.value| == |f.teximage.value|
      && forall i :: 0 <= i < |r.value| ==> r.value[i] == Luminance(f.teximage.value[i] as bv8)
  {
  }
}
