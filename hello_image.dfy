/** The background image of src/hello_image.cpp: a checkerboard of 100 x 100
    squares in two greys, framed by a one-pixel border, written pixel by
    pixel into a 32-bit buffer, and the power-of-two texture that holds it
    with a one-texel margin on each side. */
module HelloImage {
  import opened Arithmetic
  import opened TextureSizing

  const BorderColour: bv32 := 0xff00ffff
  const LightGrey: bv32 := 0xffc4c4c4
  const DarkGrey: bv32 := 0xff808080
  const CheckerSize: nat := 100
  const HalfChecker: nat := CheckerSize / 2

  predicate OnBorder(x: nat, y: nat, w: nat, h: nat)
  {
    y == 0 || x == 0 || y == h - 1 || x == w - 1
  }

  /** The colour the fill loop gives pixel (x, y) of a w x h image. */
  function BackgroundPixel(x: nat, y: nat, w: nat, h: nat): (p: bv32)
    ensures p == BorderColour || p == LightGrey || p == DarkGrey
  {
    if OnBorder(x, y, w, h) then BorderColour
    else
      var yMod, xMod := y % CheckerSize, x % CheckerSize;
      if (yMod < HalfChecker && xMod < HalfChecker) || (yMod >= HalfChecker && xMod >= HalfChecker)
      then LightGrey
      else DarkGrey
  }

  /** An interior pixel is light grey exactly when its column and its row
      lie in the same half of their 100-pixel square, and dark grey
      otherwise; a border pixel has the border colour. */
  lemma CheckerColours(x: nat, y: nat, w: nat, h: nat)
    ensures OnBorder(x, y, w, h) ==> BackgroundPixel(x, y, w, h) == BorderColour
    ensures !OnBorder(x, y, w, h) ==>
      (BackgroundPixel(x, y, w, h) == LightGrey <==> (x % 100 < 50 <==> y % 100 < 50))
    ensures !OnBorder(x, y, w, h) ==>
      (BackgroundPixel(x, y, w, h) == DarkGrey <==> !(x % 100 < 50 <==> y % 100 < 50))
  {
  }

  /** Every pixel is opaque: its top byte, the alpha of 0xAARRGGBB, is 0xff. */
  lemma Opaque(x: nat, y: nat, w: nat, h: nat)
    ensures BackgroundPixel(x, y, w, h) >> 24 == 0xff
  {
  }

  /** The checkerboard repeats every 100 pixels across and down. */
  lemma CheckerPeriod(x: nat, y: nat, w: nat, h: nat)
    requires !OnBorder(x, y, w, h)
    ensures !OnBorder(x + CheckerSize, y, w, h) ==>
      BackgroundPixel(x + CheckerSize, y, w, h) == BackgroundPixel(x, y, w, h)
    ensures !OnBorder(x, y + CheckerSize, w, h) ==>
      BackgroundPixel(x, y + CheckerSize, w, h) == BackgroundPixel(x, y, w, h)
  {
    assert (x + CheckerSize) % CheckerSize == x % CheckerSize;
    assert (y + CheckerSize) % CheckerSize == y % CheckerSize;
  }

  /** Index x + y * w lies in the image, and distinct pixels have distinct
      indices: each pixel is written at its own place. */
  lemma PixelIndex(x: nat, y: nat, w: nat, h: nat)
    requires x < w && y < h
    ensures x + y * w < w * h
    ensures (x + y * w) % w == x && (x + y * w) / w == y
  {
    MulMonotone(y + 1, h, w);
    DivModUnique(x + y * w, w, y, x);
  }

  /** The colour of the pixel at index `i` of the row-major buffer: column
      `i % w`, row `i / w`. */
  function PixelAtIndex(i: nat, w: nat, h: nat): bv32
    requires w > 0
  {
    BackgroundPixel(i % w, i / w, w, h)
  }

  /** Row `y` of the fill, which starts at index `row == y * w`. */
  method FillRow(pixels: array<bv32>, w: nat, h: nat, y: nat, row: nat)
    requires w > 0 && row == y * w && row + w <= pixels.Length
    modifies pixels
    ensures forall i :: row <= i < row + w ==> pixels[i] == PixelAtIndex(i, w, h)
    ensures forall i :: 0 <= i < pixels.Length && !(row <= i < row + w) ==> pixels[i] == old(pixels[i])
  {
    for x := 0 to w
      invariant forall i :: row <= i < row + x ==> pixels[i] == PixelAtIndex(i, w, h)
      invariant forall i :: 0 <= i < pixels.Length && !(row <= i < row + x) ==> pixels[i] == old(pixels[i])
    {
      DivModUnique(row + x, w, y, x);
      pixels[row + x] := BackgroundPixel(x, y, w, h);
    }
  }

  /** The nested fill loop of initTexture: every pixel of the w x h buffer
      gets the colour of its column and row. */
  method FillBackground(pixels: array<bv32>, w: nat, h: nat)
    requires pixels.Length == w * h
    modifies pixels
    ensures forall i :: 0 <= i < pixels.Length ==> pixels[i] == BackgroundPixel(i % w, i / w, w, h)
  {
    if w == 0 {
      // Every row is empty: the inner loop writes nothing.
      return;
    }
    var row := 0;
    for y := 0 to h
      invariant row == y * w && row <= pixels.Length
      invariant forall i :: 0 <= i < row ==> pixels[i] == PixelAtIndex(i, w, h)
    {
      MulMonotone(y + 1, h, w);
      FillRow(pixels, w, h, y, row);
      row := row + w;
    }
  }

  /** The texture of initTexture: each side the least power of two that
      leaves a one-texel margin on both sides of the image. */
  method BackgroundTexture(w: nat, h: nat) returns (tw: int, th: int)
    requires w + 2 <= LargestArgument && h + 2 <= LargestArgument
    ensures IsPowerOfTwo(tw) && IsPowerOfTwo(th)
    ensures tw >= w + 2 && th >= h + 2
    ensures tw / 2 < w + 2 && th / 2 < h + 2
  {
    tw, th := TextureSize(w, h, 2);
  }
}
