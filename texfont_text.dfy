/** Strings set in a loaded font: txfGetStringMetrics, which adds up glyph
    advances and steps over ESC colour sequences, and the escape and colour
    mode machine of txfRenderFancyString.

    A string is the `len` bytes the caller passes. The loops look one byte
    past the current position (`string[i + 1]`) and copy colour bytes after
    an escape; a byte at or past `len` is taken to be the terminating NUL.
    Each byte reaches getTCVI as a signed `char`. */
module TexFontText {
  import opened ByteOrder
  import opened Results
  import opened TexFontTypes
  import opened TxfFile
  import opened GlyphLookup

  /** The byte that starts a colour escape. */
  const Esc: byte := 27

  /** `string[k]`, with every position at or past the end reading as NUL. */
  function CharAt(s: seq<byte>, k: int): byte
  {
    if 0 <= k < |s| then s[k] else 0
  }

  /** The code getTCVI receives for a string byte. */
  function CodeOf(b: byte): int
  {
    Int8Of(b)
  }

  /** How many bytes after an ESC the metrics loop jumps over, given the byte
      that follows the ESC (the loop's own `i++` then skips one more). */
  function EscapeSkip(next: byte): (n: nat)
    ensures n == 0 <==> next != 'M' as int && next != 'T' as int && next != 'L' as int && next != 'F' as int
    ensures n <= 13
  {
    if next == 'M' as int then 4
    else if next == 'T' as int || next == 'L' as int then 7
    else if next == 'F' as int then 13
    else 0
  }

  /** Glyph indices that all refer into the font's vertex information. */
  ghost predicate ValidGlyphs(f: TexFont, gs: seq<Option<nat>>)
  {
    forall k :: 0 <= k < |gs| && gs[k].Some? ==> gs[k].value < |f.tgvi|
  }

  /** The advance a looked-up glyph adds; a missing glyph adds nothing. */
  function AdvanceOf(f: TexFont, g: Option<nat>): int
    requires g.Some? ==> g.value < |f.tgvi|
  {
    if g.Some? then f.tgvi[g.value].advance else 0
  }

  function SumAdvances(f: TexFont, gs: seq<Option<nat>>): int
    requires ValidGlyphs(f, gs)
  {
    if gs == [] then 0 else AdvanceOf(f, gs[0]) + SumAdvances(f, gs[1..])
  }

  /** The glyph lookups the metrics loop performs from position `i` on, in
      order: one per byte that is not part of an escape. */
  function MetricsLookups(f: TexFont, s: seq<byte>, i: nat): (gs: seq<Option<nat>>)
    requires WellFormed(f)
    ensures ValidGlyphs(f, gs)
    decreases |s| - i
  {
    if i >= |s| then []
    else if s[i] == Esc then MetricsLookups(f, s, i + EscapeSkip(CharAt(s, i + 1)) + 1)
    else [GetTCVI(f, CodeOf(s[i]))] + MetricsLookups(f, s, i + 1)
  }

  /** The width of the string from position `i` on, a character the font
      cannot supply adding nothing. */
  function StringWidth(f: TexFont, s: seq<byte>, i: nat): int
    requires WellFormed(f)
    decreases |s| - i
  {
    if i >= |s| then 0
    else if s[i] == Esc then StringWidth(f, s, i + EscapeSkip(CharAt(s, i + 1)) + 1)
    else AdvanceOf(f, GetTCVI(f, CodeOf(s[i]))) + StringWidth(f, s, i + 1)
  }

  /** The width is the sum of the advances of the glyphs the loop looks up. */
  lemma {:induction false} StringWidthIsSum(f: TexFont, s: seq<byte>, i: nat)
    requires WellFormed(f)
    ensures StringWidth(f, s, i) == SumAdvances(f, MetricsLookups(f, s, i))
    decreases |s| - i
  {
    if i >= |s| {
    } else if s[i] == Esc {
      StringWidthIsSum(f, s, i + EscapeSkip(CharAt(s, i + 1)) + 1);
    } else {
      StringWidthIsSum(f, s, i + 1);
      var gs := MetricsLookups(f, s, i);
      assert gs[1..] == MetricsLookups(f, s, i + 1);
    }
  }

  /** The width txfGetStringMetrics computes as written: None stands for the
      dereference of the NULL that getTCVI returns for a character the font
      cannot supply. It fails exactly when some looked-up character is
      missing, and otherwise yields the width. */
  function MeasureAsWritten(f: TexFont, s: seq<byte>, i: nat): (r: Option<int>)
    requires WellFormed(f)
    ensures r.None? <==> None in MetricsLookups(f, s, i)
    ensures r.Some? ==> r.value == StringWidth(f, s, i)
    decreases |s| - i
  {
    if i >= |s| then Some(0)
    else if s[i] == Esc then MeasureAsWritten(f, s, i + EscapeSkip(CharAt(s, i + 1)) + 1)
    else
      assert MetricsLookups(f, s, i) == [GetTCVI(f, CodeOf(s[i]))] + MetricsLookups(f, s, i + 1);
      match GetTCVI(f, CodeOf(s[i]))
      case None => None
      case Some(g) =>
        match MeasureAsWritten(f, s, i + 1)
        case None => None
        case Some(rest) => Some(f.tgvi[g].advance + rest)
  }

  /** A one-glyph font holding only 'A'. */
  function OnlyCapitalA(): TexGlyphInfo
  {
    TexGlyphInfo(c := 'A' as int, width := 8, height := 10, xoffset := 0, yoffset := 0,
      advance := 9, dummy := 0, x := 0, y := 0)
  }

  function OnlyCapitalAFont(): (f: TexFont)
    ensures WellFormed(f)
  {
    BuildFont(Header(format := 0, texWidth := 16, texHeight := 16, maxAscent := 10,
      maxDescent := 0, numGlyphs := 1), [OnlyCapitalA()], Some(seq(256, k => 0)))
  }

  /** Measuring "?" with a font the loader built from a single glyph 'A'
      dereferences NULL: '?' is out of range and not a letter. Skipping the
      missing glyph gives width 0. */
  lemma MeasureMissingGlyph()
    ensures MeasureAsWritten(OnlyCapitalAFont(), ['?' as int], 0).None?
    ensures StringWidth(OnlyCapitalAFont(), ['?' as int], 0) == 0
  {
    var f := OnlyCapitalAFont();
    assert f.minGlyph == 'A' as int && f.range == 1;
    assert !InRange(f, CodeOf('?' as int));
  }

  /** txfGetStringMetrics with missing characters adding nothing: the width,
      and the font's ascent and descent. */
  method GetStringMetrics(f: TexFont, s: seq<byte>) returns (width: int, maxAscent: int, maxDescent: int)
    requires WellFormed(f)
    ensures width == SumAdvances(f, MetricsLookups(f, s, 0))
    ensures maxAscent == f.maxAscent && maxDescent == f.maxDescent
  {
    var w := 0;
    var i: nat := 0;
    while i < |s|
      invariant w + StringWidth(f, s, i) == StringWidth(f, s, 0)
      decreases |s| - i
    {
      if s[i] == Esc {
        var next := CharAt(s, i + 1);
        if next == 'M' as int {
          i := i + 4;
        } else if next == 'T' as int {
          i := i + 7;
        } else if next == 'L' as int {
          i := i + 7;
        } else if next == 'F' as int {
          i := i + 13;
        }
      } else {
        var g := GetTCVI(f, CodeOf(s[i]));
        if g.Some? {
          w := w + f.tgvi[g.value].advance;
        }
      }
      i := i + 1;
    }
    StringWidthIsSum(f, s, 0);
    width := w;
    maxAscent := f.maxAscent;
    maxDescent := f.maxDescent;
  }

  /** The vertex colouring modes of the fancy renderer. */
  datatype RenderMode = Mono | TopBottom | LeftRight | Four

  /** One character drawn by the fancy renderer: the mode in force, the
      colour bytes that mode's drawing code reads (two RGB colours for
      TOP_BOTTOM and LEFT_RIGHT, four for FOUR, none for MONO) and the glyph
      looked up. */
  datatype Draw = Draw(mode: RenderMode, colours: seq<byte>, glyph: Option<nat>)

  /** Bytes of the colour array `c[4][3]`. */
  const ColourBytes: nat := 12

  function ModeColours(mode: RenderMode, c: seq<byte>): seq<byte>
    requires |c| == ColourBytes
  {
    match mode
    case Mono => []
    case TopBottom => c[..6]
    case LeftRight => c[..6]
    case Four => c
  }

  function CopiedByte(c: seq<byte>, s: seq<byte>, from: int, n: nat, k: nat): byte
    requires k < |c|
  {
    if k < n then CharAt(s, from + k) else c[k]
  }

  /** The colour array after `memcpy(c, &string[from], n)`. */
  function CopyColours(c: seq<byte>, s: seq<byte>, from: int, n: nat): (c': seq<byte>)
    requires |c| == ColourBytes && n <= ColourBytes
    ensures |c'| == ColourBytes
    ensures forall k :: 0 <= k < n ==> c'[k] == CharAt(s, from + k)
    ensures forall k :: n <= k < ColourBytes ==> c'[k] == c[k]
  {
    seq(ColourBytes, k requires 0 <= k < ColourBytes => CopiedByte(c, s, from, n, k))
  }

  /** The characters txfRenderFancyString draws from position `i` on, in
      mode `mode` with colour array `c`: ESC M selects MONO and consumes 5
      bytes, ESC T and ESC L select TOP_BOTTOM and LEFT_RIGHT with the next 6
      bytes as colours and consume 8, ESC F selects FOUR with the next 12
      bytes and consumes 14, and ESC before any other byte consumes the ESC
      alone. */
  function FancyDraws(f: TexFont, s: seq<byte>, i: nat, mode: RenderMode, c: seq<byte>): (ds: seq<Draw>)
    requires WellFormed(f) && |c| == ColourBytes
    ensures i <= |s| ==> |ds| <= |s| - i
    ensures forall k :: 0 <= k < |ds| && ds[k].glyph.Some? ==> ds[k].glyph.value < |f.tgvi|
    decreases |s| - i
  {
    if i >= |s| then []
    else if s[i] == Esc then
      var next := CharAt(s, i + 1);
      if next == 'M' as int then FancyDraws(f, s, i + 5, Mono, c)
      else if next == 'T' as int then FancyDraws(f, s, i + 8, TopBottom, CopyColours(c, s, i + 2, 6))
      else if next == 'L' as int then FancyDraws(f, s, i + 8, LeftRight, CopyColours(c, s, i + 2, 6))
      else if next == 'F' as int then FancyDraws(f, s, i + 14, Four, CopyColours(c, s, i + 2, 12))
      else FancyDraws(f, s, i + 1, mode, c)
    else [Draw(mode, ModeColours(mode, c), GetTCVI(f, CodeOf(s[i])))] + FancyDraws(f, s, i + 1, mode, c)
  }

  /** The glyphs of a sequence of draws. */
  function DrawnGlyphs(ds: seq<Draw>): (gs: seq<Option<nat>>)
    ensures |gs| == |ds|
    ensures forall k :: 0 <= k < |ds| ==> gs[k] == ds[k].glyph
  {
    seq(|ds|, k requires 0 <= k < |ds| => ds[k].glyph)
  }

  /** `memcpy(c, &string[from], n)` into the colour array. */
  method CopyColourBytes(c: array<byte>, s: seq<byte>, from: int, n: nat)
    requires c.Length == ColourBytes && n <= ColourBytes
    modifies c
    ensures c[..] == CopyColours(old(c[..]), s, from, n)
  {
    forall k | 0 <= k < n {
      c[k] := CharAt(s, from + k);
    }
  }

  /** txfRenderFancyString. The colour array starts with whatever `garbage`
      holds, as the uninitialised local of the source does. */
  method RenderFancyString(f: TexFont, s: seq<byte>, garbage: seq<byte>) returns (draws: seq<Draw>)
    requires WellFormed(f) && |garbage| == ColourBytes
    ensures draws == FancyDraws(f, s, 0, Mono, garbage)
  {
    var c := new byte[ColourBytes](k requires 0 <= k < ColourBytes => garbage[k]);
    var mode := Mono;
    var i: nat := 0;
    draws := [];
    assert c[..] == garbage;
    while i < |s|
      invariant c.Length == ColourBytes
      invariant draws + FancyDraws(f, s, i, mode, c[..]) == FancyDraws(f, s, 0, Mono, garbage)
      decreases |s| - i
    {
      if s[i] == Esc {
        var next := CharAt(s, i + 1);
        if next == 'M' as int {
          mode := Mono;
          i := i + 4;
        } else if next == 'T' as int {
          mode := TopBottom;
          CopyColourBytes(c, s, i + 2, 6);
          i := i + 7;
        } else if next == 'L' as int {
          mode := LeftRight;
          CopyColourBytes(c, s, i + 2, 6);
          i := i + 7;
        } else if next == 'F' as int {
          mode := Four;
          CopyColourBytes(c, s, i + 2, 12);
          i := i + 13;
        }
      } else {
        var g := GetTCVI(f, CodeOf(s[i]));
        draws := draws + [Draw(mode, ModeColours(mode, c[..]), g)];
      }
      i := i + 1;
    }
  }

  /** Rendering and measuring step over the same escape sequences: the
      renderer draws exactly the glyphs the metrics loop adds up, in the same
      order, whatever mode and colours it starts with. */
  lemma {:induction false} RenderMatchesMetrics(f: TexFont, s: seq<byte>, i: nat, mode: RenderMode, c: seq<byte>)
    requires WellFormed(f) && |c| == ColourBytes
    ensures DrawnGlyphs(FancyDraws(f, s, i, mode, c)) == MetricsLookups(f, s, i)
    decreases |s| - i
  {
    if i >= |s| {
    } else if s[i] == Esc {
      var next := CharAt(s, i + 1);
      if next == 'M' as int {
        RenderMatchesMetrics(f, s, i + 5, Mono, c);
      } else if next == 'T' as int {
        RenderMatchesMetrics(f, s, i + 8, TopBottom, CopyColours(c, s, i + 2, 6));
      } else if next == 'L' as int {
        RenderMatchesMetrics(f, s, i + 8, LeftRight, CopyColours(c, s, i + 2, 6));
      } else if next == 'F' as int {
        RenderMatchesMetrics(f, s, i + 14, Four, CopyColours(c, s, i + 2, 12));
      } else {
        RenderMatchesMetrics(f, s, i + 1, mode, c);
      }
    } else {
      RenderMatchesMetrics(f, s, i + 1, mode, c);
      var d := Draw(mode, ModeColours(mode, c), GetTCVI(f, CodeOf(s[i])));
      var rest := FancyDraws(f, s, i + 1, mode, c);
      assert DrawnGlyphs([d] + rest) == [d.glyph] + DrawnGlyphs(rest);
    }
  }

  /** The measured width is the sum of the advances of the drawn glyphs. */
  lemma MeasuredWidthIsDrawnWidth(f: TexFont, s: seq<byte>, garbage: seq<byte>)
    requires WellFormed(f) && |garbage| == ColourBytes
    ensures ValidGlyphs(f, DrawnGlyphs(FancyDraws(f, s, 0, Mono, garbage)))
    ensures StringWidth(f, s, 0) == SumAdvances(f, DrawnGlyphs(FancyDraws(f, s, 0, Mono, garbage)))
  {
    RenderMatchesMetrics(f, s, 0, Mono, garbage);
    StringWidthIsSum(f, s, 0);
  }

  /** Two colour arrays that agree on every byte a mode reads. */
  predicate ColoursAgree(mode: RenderMode, c1: seq<byte>, c2: seq<byte>)
    requires |c1| == ColourBytes && |c2| == ColourBytes
  {
    ModeColours(mode, c1) == ModeColours(mode, c2)
  }

  /** Colour bytes the current mode does not read never reach a draw: the
      draws agree for colour arrays that agree on what the mode reads. */
  lemma {:induction false} UnreadColoursIrrelevant(f: TexFont, s: seq<byte>, i: nat, mode: RenderMode, c1: seq<byte>, c2: seq<byte>)
    requires WellFormed(f) && |c1| == ColourBytes && |c2| == ColourBytes
    requires ColoursAgree(mode, c1, c2)
    ensures FancyDraws(f, s, i, mode, c1) == FancyDraws(f, s, i, mode, c2)
    decreases |s| - i
  {
    if i >= |s| {
    } else if s[i] == Esc {
      var next := CharAt(s, i + 1);
      if next == 'M' as int {
        UnreadColoursIrrelevant(f, s, i + 5, Mono, c1, c2);
      } else if next == 'T' as int || next == 'L' as int {
        var m := if next == 'T' as int then TopBottom else LeftRight;
        var d1, d2 := CopyColours(c1, s, i + 2, 6), CopyColours(c2, s, i + 2, 6);
        assert d1[..6] == d2[..6];
        UnreadColoursIrrelevant(f, s, i + 8, m, d1, d2);
      } else if next == 'F' as int {
        var d1, d2 := CopyColours(c1, s, i + 2, 12), CopyColours(c2, s, i + 2, 12);
        assert d1 == d2;
        UnreadColoursIrrelevant(f, s, i + 14, Four, d1, d2);
      } else {
        UnreadColoursIrrelevant(f, s, i + 1, mode, c1, c2);
      }
    } else {
      UnreadColoursIrrelevant(f, s, i + 1, mode, c1, c2);
    }
  }

  /** The uninitialised colour array is never read before an escape has
      written the bytes read: what is drawn does not depend on it. */
  lemma InitialColoursIrrelevant(f: TexFont, s: seq<byte>, g1: seq<byte>, g2: seq<byte>)
    requires WellFormed(f) && |g1| == ColourBytes && |g2| == ColourBytes
    ensures FancyDraws(f, s, 0, Mono, g1) == FancyDraws(f, s, 0, Mono, g2)
  {
    UnreadColoursIrrelevant(f, s, 0, Mono, g1, g2);
  }
}
