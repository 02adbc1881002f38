/** getTCVI: the glyph for a character code in a loaded font, with the
    automatic substitution of the other letter case when the requested
    letter has no glyph. Character classes follow ASCII. */
module GlyphLookup {
  import opened Results
  import opened TexFontTypes
  import opened ByteOrder
  import opened TxfFile

  predicate IsLower(c: int)
  {
    'a' as int <= c <= 'z' as int
  }

  predicate IsUpper(c: int)
  {
    'A' as int <= c <= 'Z' as int
  }

  function ToUpper(c: int): int
  {
    if IsLower(c) then c - 32 else c
  }

  function ToLower(c: int): int
  {
    if IsUpper(c) then c + 32 else c
  }

  /** The same letter in the other case; any other code is left as it is. */
  function OtherCase(c: int): (o: int)
    ensures IsLower(c) <==> IsUpper(o)
    ensures IsUpper(c) <==> IsLower(o)
    ensures IsLower(c) || IsUpper(c) <==> o != c
  {
    if IsLower(c) then ToUpper(c) else ToLower(c)
  }

  lemma OtherCaseInvolutive(c: int)
    ensures OtherCase(OtherCase(c)) == c
  {
  }

  /** Whether a code has a slot in the font's lookup table. */
  predicate InRange(f: TexFont, c: int)
  {
    f.minGlyph <= c < f.minGlyph + f.range
  }

  /** The lookup with the control flow of the source: the slot of `c` when it
      is in range and not NULL; otherwise a lower-case letter is turned into
      upper case and, when that is in range, its slot is the answer even if
      NULL; otherwise an upper-case code (possibly the one just produced) is
      turned into lower case and, when that is in range, its slot is the
      answer; every other path gives NULL (None). The result indexes `tgvi`. */
  function GetTCVI(f: TexFont, c: int): (r: Option<nat>)
    requires WellFormed(f)
    ensures !InRange(f, c) ==> r.None?
    ensures InRange(f, c) && f.lut[c - f.minGlyph].Some? ==> r == f.lut[c - f.minGlyph]
    ensures r.Some? ==> r.value < |f.tgvi| && (f.tgi[r.value].c == c || f.tgi[r.value].c == OtherCase(c))
  {
    if InRange(f, c) then
      if f.lut[c - f.minGlyph].Some? then f.lut[c - f.minGlyph]
      else
        var c1 := if IsLower(c) then ToUpper(c) else c;
        if IsLower(c) && InRange(f, c1) then f.lut[c1 - f.minGlyph]
        else if IsUpper(c1) then
          var c2 := ToLower(c1);
          if InRange(f, c2) then f.lut[c2 - f.minGlyph] else None
        else None
    else None
  }

  /** The behaviour the lookup is meant to have, stated directly: an
      in-range code answers with its own slot if present, and otherwise,
      for a letter, with the slot of the other case if that is in range. */
  function CaseFallback(f: TexFont, c: int): (r: Option<nat>)
    requires |f.lut| == f.range
  {
    if !InRange(f, c) then None
    else if f.lut[c - f.minGlyph].Some? then f.lut[c - f.minGlyph]
    else if OtherCase(c) != c && InRange(f, OtherCase(c)) then f.lut[OtherCase(c) - f.minGlyph]
    else None
  }

  /** The source's two consecutive case tests amount to a single retry with
      the other case: a lower-case letter whose upper case is out of range
      falls through to the upper-case test and comes back to its own NULL
      slot. */
  lemma GetTCVIIsCaseFallback(f: TexFont, c: int)
    requires WellFormed(f)
    ensures GetTCVI(f, c) == CaseFallback(f, c)
  {
    if InRange(f, c) && f.lut[c - f.minGlyph].None? && IsLower(c) && !InRange(f, ToUpper(c)) {
      assert ToLower(ToUpper(c)) == c;
    }
  }

  /** In a font built by the loader, the slot of an in-range code holds
      the last glyph with that code, and a code out of range has no glyph. */
  lemma LoadedSlot(hdr: Header, tgi: seq<TexGlyphInfo>, image: Option<seq<byte>>, c: int)
    requires 1 <= |tgi| == hdr.numGlyphs
    ensures var f := BuildFont(hdr, tgi, image);
      && (InRange(f, c) ==> f.lut[c - f.minGlyph] == LastIndexOf(tgi, |tgi|, c))
      && (!InRange(f, c) ==> LastIndexOf(tgi, |tgi|, c).None?)
  {
    BuildFontTables(hdr, tgi, image);
    TableSlot(tgi, c);
  }

  /** In a font built by the loader, a code that has a glyph finds the last
      glyph with that code; a code without one finds the last glyph of the
      other case of the letter, provided the code itself is in range. */
  lemma LookupLoaded(hdr: Header, tgi: seq<TexGlyphInfo>, image: Option<seq<byte>>, c: int)
    requires 1 <= |tgi| == hdr.numGlyphs
    ensures var f := BuildFont(hdr, tgi, image);
      GetTCVI(f, c) ==
        if !InRange(f, c) then None
        else if LastIndexOf(tgi, |tgi|, c).Some? then LastIndexOf(tgi, |tgi|, c)
        else if OtherCase(c) != c then LastIndexOf(tgi, |tgi|, OtherCase(c))
        else None
  {
    var f, o := BuildFont(hdr, tgi, image), OtherCase(c);
    GetTCVIIsCaseFallback(f, c);
    LoadedSlot(hdr, tgi, image, c);
    LoadedSlot(hdr, tgi, image, o);
    if InRange(f, c) && LastIndexOf(tgi, |tgi|, c).None? && o != c {
      assert GetTCVI(f, c) == if InRange(f, o) then f.lut[o - f.minGlyph] else None;
    }
  }
}
