/** initTextTexture of hello_ttf_text.cpp: the text image goes into a
    power-of-two texture with a single texel of margin per axis, the
    texture's pixel bytes are cleared to grey before the blit, and the
    texture is uploaded only for a 24- or 32-bit surface. */
module HelloTtfText {
  import opened ByteOrder
  import opened TextureSizing

  const Grey: byte := 0x80

  /** The bytes the clear covers: `w * h * bitsPerPixel / 8`. */
  function FillBytes(w: nat, h: nat, bitsPerPixel: nat): nat
  {
    w * h * bitsPerPixel / 8
  }

  /** For the two depths that are uploaded the clear covers exactly the
      w * h pixels: 4 bytes each at 32 bits, 3 at 24. */
  lemma FillCoversPixels(w: nat, h: nat)
    ensures FillBytes(w, h, 32) == 4 * (w * h)
    ensures FillBytes(w, h, 24) == 3 * (w * h)
  {
    assert w * h * 32 == (4 * (w * h)) * 8;
    assert w * h * 24 == (3 * (w * h)) * 8;
  }

  /** `memset(pixels, 0x80, n)`. */
  method GreyFill(pixels: array<byte>, n: nat)
    requires n <= pixels.Length
    modifies pixels
    ensures forall i :: 0 <= i < n ==> pixels[i] == Grey
    ensures forall i :: n <= i < pixels.Length ==> pixels[i] == old(pixels[i])
  {
    forall i | 0 <= i < n {
      pixels[i] := Grey;
    }
  }

  /** The sizing, clearing and format steps for a w x h text image;
      `pixels` is the texture surface's pixel memory. */
  method InitTextTexture(w: nat, h: nat, bitsPerPixel: nat, pixels: array<byte>)
    returns (tw: int, th: int, format: int, uploaded: bool)
    requires w + 1 <= LargestArgument && h + 1 <= LargestArgument
    requires FillBytes(TextureSide(w, 1), TextureSide(h, 1), bitsPerPixel) <= pixels.Length
    modifies pixels
    ensures tw == TextureSide(w, 1) && th == TextureSide(h, 1)
    ensures tw >= w + 1 && th >= h + 1
    ensures forall i :: 0 <= i < FillBytes(tw, th, bitsPerPixel) ==> pixels[i] == Grey
    ensures forall i :: FillBytes(tw, th, bitsPerPixel) <= i < pixels.Length ==> pixels[i] == old(pixels[i])
    ensures format == GlFormat(bitsPerPixel)
    ensures uploaded <==> bitsPerPixel == 24 || bitsPerPixel == 32
  {
    tw, th := TextureSize(w, h, 1);
    GreyFill(pixels, tw * th * bitsPerPixel / 8);
    format := -1;
    if bitsPerPixel == 24 {
      format := GlRgb;
    } else if bitsPerPixel == 32 {
      format := GlRgba;
    }
    uploaded := format != -1;
  }
}
