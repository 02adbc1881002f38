/** initTextTexture of src/hello_text_ttf.cpp: the text image is placed in
    a power-of-two texture with a one-texel margin, every 32-bit pixel of
    the texture has its alpha fixed up (opaque where the blit wrote colour,
    half-transparent grey where it wrote nothing), and the texture is
    uploaded only for a 24- or 32-bit surface, in which case the shader's
    texture and text sizes are updated. */
module HelloTextTtf {
  import opened TextureSizing

  const OpaqueAlpha: bv32 := 0xff00_0000
  const EmptyPixel: bv32 := 0x8080_8080

  /** The fix-up of one pixel. */
  function FixPixel(p: bv32): (q: bv32)
    ensures q != 0 && q >> 24 >= 0x80
  {
    if p != 0 then p | OpaqueAlpha else EmptyPixel
  }

  /** A coloured pixel keeps its colour (the low 24 bits) and becomes
      opaque; an empty pixel becomes 0x80808080; no pixel is left zero. */
  lemma FixPixelEffect(p: bv32)
    ensures p != 0 ==> FixPixel(p) & 0x00ff_ffff == p & 0x00ff_ffff && FixPixel(p) >> 24 == 0xff
    ensures p == 0 ==> FixPixel(p) == EmptyPixel
    ensures FixPixel(p) != 0
  {
  }

  /** A second fix-up leaves a coloured pixel alone but would turn a
      half-transparent empty pixel opaque: the fix-up is idempotent exactly
      on the pixels the blit coloured. */
  lemma SecondFixUp(p: bv32)
    ensures FixPixel(FixPixel(p)) == FixPixel(p) <==> p != 0
    ensures p == 0 ==> FixPixel(FixPixel(p)) == 0xff80_8080
  {
    if p != 0 {
      assert (p | OpaqueAlpha) | OpaqueAlpha == p | OpaqueAlpha;
    } else {
      assert EmptyPixel | OpaqueAlpha == 0xff80_8080;
    }
  }

  /** The fix-up loop over all `texture->w * texture->h` pixels. */
  method FixUpAlpha(pixels: array<bv32>)
    modifies pixels
    ensures forall i :: 0 <= i < pixels.Length ==> pixels[i] == FixPixel(old(pixels[i]))
  {
    for i := 0 to pixels.Length
      invariant forall k :: 0 <= k < i ==> pixels[k] == FixPixel(old(pixels[k]))
      invariant forall k :: i <= k < pixels.Length ==> pixels[k] == old(pixels[k])
    {
      if pixels[i] != 0 {
        pixels[i] := pixels[i] | OpaqueAlpha;
      } else {
        pixels[i] := EmptyPixel;
      }
    }
  }

  /** A texture handed to GL: its size, format and pixels. */
  datatype Texture = Texture(width: int, height: int, format: int, pixels: seq<bv32>)

  /** The sample's GL-side state that initTextTexture updates: the textures
      created, and the `texSize` and `textSize` uniforms of the quad shader
      (GLfloat pairs holding integer values). */
  class TextQuad {
    var textures: seq<Texture>
    var texSize: (int, int)
    var textSize: (int, int)

    constructor()
      ensures textures == [] && texSize == (0, 0) && textSize == (0, 0)
    {
      textures := [];
      texSize := (0, 0);
      textSize := (0, 0);
    }

    /** The steps after the blit: `pixels` is the texture of size
        TextureSide(w, 2) x TextureSide(h, 2) holding the blitted text image
        of size w x h, and `bitsPerPixel` the depth of its surface. */
    method InitTextTexture(w: nat, h: nat, pixels: array<bv32>, bitsPerPixel: int)
      requires w + 2 <= LargestArgument && h + 2 <= LargestArgument
      requires pixels.Length == TextureSide(w, 2) * TextureSide(h, 2)
      modifies this, pixels
      ensures forall i :: 0 <= i < pixels.Length ==> pixels[i] == FixPixel(old(pixels[i]))
      ensures GlFormat(bitsPerPixel) == -1 ==>
        textures == old(textures) && texSize == old(texSize) && textSize == old(textSize)
      ensures GlFormat(bitsPerPixel) != -1 ==>
        && textures == old(textures) + [Texture(TextureSide(w, 2), TextureSide(h, 2), GlFormat(bitsPerPixel), pixels[..])]
        && texSize == (TextureSide(w, 2), TextureSide(h, 2))
        && textSize == (w + 2, h + 2)
    {
      var tw, th := TextureSize(w, h, 2);
      FixUpAlpha(pixels);
      var format := -1;
      if bitsPerPixel == 24 {
        format := GlRgb;
      } else if bitsPerPixel == 32 {
        format := GlRgba;
      }
      if format != -1 {
        textures := textures + [Texture(tw, th, format, pixels[..])];
        texSize := (tw, th);
        textSize := (w + 2, h + 2);
      }
    }
  }
}
