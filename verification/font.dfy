/** PC Screen Font version 1 (PSF1) layout as the kernel's compile-time
    constants slice it, the unicode-table lookup, and glyph slicing
    (kernel/src/frame_buffer.rs). The font bytes are a parameter. */
module Font {
  import opened Common

  /** Every PSF1 glyph is 8 pixels wide, one byte per row. */
  const CHAR_WIDTH: nat := 8
  /** The glyph count the constants hard-code. */
  const GLYPH_COUNT: nat := 512
  /** Unicode-table entry that ends a group of code points. */
  const GROUP_END: nat := 0xFFFF

  /** A byte of the font file. */
  type Byte = x: int | 0 <= x < 256

  /** The constants derived from the font bytes. */
  datatype Layout = Layout(
    headerSize: nat,
    charSize: nat,
    charsData: seq<Byte>,
    unicodeTable: seq<Byte>)

  /** Where the glyph data is cut: `512 * CHAR_SIZE`. */
  function GlyphsEnd(charSize: nat): nat {
    GLYPH_COUNT * charSize
  }

  /** The indices and slices of the constant definitions are all in range;
      otherwise constant evaluation, and so the build, fails. */
  predicate Evaluable(font: seq<Byte>) {
    && |font| >= 2
    && 4 <= font[1] <= |font|
    && font[1] <= GlyphsEnd(font[3]) <= |font|
  }

  /** The constants as written: the header is `font[1]` bytes, the glyph
      size is header byte 3, the glyph data runs from the end of the header
      to `512 * CHAR_SIZE`, and the unicode table starts at
      `HEADER_SIZE + CHARS_DATA.len()`. `None` when they cannot be evaluated. */
  function LayoutOf(font: seq<Byte>): (r: Option<Layout>)
    ensures r.Some? <==> Evaluable(font)
    ensures r.Some? ==> r.value.headerSize == font[1] && r.value.charSize == font[3]
    ensures r.Some? ==> r.value.charsData == font[r.value.headerSize .. GlyphsEnd(r.value.charSize)]
    ensures r.Some? ==> r.value.unicodeTable == font[GlyphsEnd(r.value.charSize) ..]
    ensures r.Some? ==> r.value.headerSize + |r.value.charsData| == GlyphsEnd(r.value.charSize)
  {
    if !Evaluable(font) then None
    else
      var headerSize := font[1];
      var header := font[0 .. headerSize];
      var charSize := header[3];
      var glyphsEnd := GlyphsEnd(charSize);
      var charsData := font[headerSize .. glyphsEnd];
      var unicodeTable := font[headerSize + |charsData| ..];
      Some(Layout(headerSize, charSize, charsData, unicodeTable))
  }

  /** Header, glyph data and unicode table, in that order, are the whole
      font: nothing is skipped and nothing is read twice. */
  lemma LayoutPartition(font: seq<Byte>)
    requires LayoutOf(font).Some?
    ensures var layout := LayoutOf(font).value;
      font == font[.. layout.headerSize] + layout.charsData + layout.unicodeTable
  {
    var layout := LayoutOf(font).value;
    SplitAt(font, layout.headerSize, GlyphsEnd(layout.charSize));
  }

  /** A sequence is its three slices at two cut points put back together. */
  lemma SplitAt<T>(s: seq<T>, i: nat, j: nat)
    requires i <= j <= |s|
    ensures s == s[.. i] + s[i .. j] + s[j ..]
  {
  }

  /** Number of complete 16-bit entries in the unicode table. */
  function EntryCount(table: seq<Byte>): nat {
    |table| / 2
  }

  /** Entry `i` of the table, read as a little-endian u16. */
  function Entry(table: seq<Byte>, i: nat): (v: nat)
    requires i < EntryCount(table)
    ensures v < 0x1_0000
  {
    table[2 * i] as int + 256 * (table[2 * i + 1] as int)
  }

  /** `c as u16`: the code point truncated to its low 16 bits. */
  function CharCode(c: char): (code: nat)
    ensures code < 0x1_0000
  {
    (c as int) % 0x1_0000
  }

  /** Entry `i` selects the glyph for `code`: it equals the code and is not
      a group terminator (the terminator test comes first). */
  predicate IsMatch(table: seq<Byte>, i: nat, code: nat)
    requires i < EntryCount(table)
  {
    Entry(table, i) != GROUP_END && Entry(table, i) == code
  }

  /** Number of group terminators among the first `j` entries. */
  function Terminators(table: seq<Byte>, j: nat): nat
    requires j <= EntryCount(table)
  {
    if j == 0 then 0
    else Terminators(table, j - 1) + (if Entry(table, j - 1) == GROUP_END then 1 else 0)
  }

  /** The lookup loop written as a recursion: `codeIndex` counts the groups
      closed so far. */
  function ScanFrom(table: seq<Byte>, code: nat, charSize: nat, i: nat, codeIndex: nat): Option<nat>
    requires i <= EntryCount(table)
    decreases EntryCount(table) - i
  {
    if i == EntryCount(table) then None
    else if Entry(table, i) == GROUP_END then ScanFrom(table, code, charSize, i + 1, codeIndex + 1)
    else if Entry(table, i) == code then Some(codeIndex * charSize)
    else ScanFrom(table, code, charSize, i + 1, codeIndex)
  }

  /** Byte offset of the glyph of `c` in the glyph data, if the table lists it. */
  function CharPosition(table: seq<Byte>, charSize: nat, c: char): Option<nat> {
    ScanFrom(table, CharCode(c), charSize, 0, 0)
  }

  /** One step of the scan, entered with the count of terminators before
      `i`: a match at `i` is returned, otherwise the scan continues from
      `i + 1` with the count of terminators before `i + 1`. */
  lemma ScanStep(table: seq<Byte>, code: nat, charSize: nat, i: nat)
    requires i < EntryCount(table)
    ensures IsMatch(table, i, code) ==>
      ScanFrom(table, code, charSize, i, Terminators(table, i)) == Some(Terminators(table, i) * charSize)
    ensures !IsMatch(table, i, code) ==>
      ScanFrom(table, code, charSize, i, Terminators(table, i))
        == ScanFrom(table, code, charSize, i + 1, Terminators(table, i + 1))
  {
  }

  /** No entry in `[i, j)` selects a glyph for `code`. */
  predicate NoMatchBetween(table: seq<Byte>, code: nat, i: nat, j: nat)
    requires i <= j <= EntryCount(table)
  {
    forall k | i <= k < j :: !IsMatch(table, k, code)
  }

  /** The scan from entry `i`, entered with the count of terminators before
      `i`, finds nothing exactly when no entry at or after `i` matches. */
  lemma {:induction false} ScanFromNone(table: seq<Byte>, code: nat, charSize: nat, i: nat)
    requires i <= EntryCount(table)
    ensures ScanFrom(table, code, charSize, i, Terminators(table, i)).None?
      <==> NoMatchBetween(table, code, i, EntryCount(table))
    decreases EntryCount(table) - i
  {
    if i < EntryCount(table) {
      ScanFromNone(table, code, charSize, i + 1);
      ScanStep(table, code, charSize, i);
    }
  }

  /** When the scan from entry `i` finds a position, it is `CHAR_SIZE` times
      the terminators before the first matching entry at or after `i`. */
  lemma {:induction false} ScanFromSome(table: seq<Byte>, code: nat, charSize: nat, i: nat)
    requires i <= EntryCount(table)
    ensures var r := ScanFrom(table, code, charSize, i, Terminators(table, i));
      r.Some? ==> exists j | i <= j < EntryCount(table) ::
        && IsMatch(table, j, code)
        && NoMatchBetween(table, code, i, j)
        && r.value == Terminators(table, j) * charSize
    decreases EntryCount(table) - i
  {
    if i < EntryCount(table) {
      ScanStep(table, code, charSize, i);
      var r := ScanFrom(table, code, charSize, i, Terminators(table, i));
      if IsMatch(table, i, code) {
        assert NoMatchBetween(table, code, i, i);
      } else if r.Some? {
        ScanFromSome(table, code, charSize, i + 1);
        var j :| i + 1 <= j < EntryCount(table)
          && IsMatch(table, j, code)
          && NoMatchBetween(table, code, i + 1, j)
          && r.value == Terminators(table, j) * charSize;
        assert NoMatchBetween(table, code, i, j);
      }
    }
  }

  /** `get_char_position` returns `k * CHAR_SIZE` where `k` counts the group
      terminators before the first entry equal to `c as u16`, and `None`
      exactly when no entry matches. */
  lemma CharPositionSpec(table: seq<Byte>, charSize: nat, c: char)
    ensures var r := CharPosition(table, charSize, c);
      && (r.None? <==> forall j | 0 <= j < EntryCount(table) :: !IsMatch(table, j, CharCode(c)))
      && (r.Some? ==> exists j | 0 <= j < EntryCount(table) ::
            && IsMatch(table, j, CharCode(c))
            && (forall k | 0 <= k < j :: !IsMatch(table, k, CharCode(c)))
            && r.value == Terminators(table, j) * charSize)
  {
    ScanFromNone(table, CharCode(c), charSize, 0);
    ScanFromSome(table, CharCode(c), charSize, 0);
  }

  /** A code point whose low 16 bits are 0xFFFF is never found: that entry
      value always reads as a group terminator. */
  lemma TerminatorCodeNeverFound(table: seq<Byte>, charSize: nat, c: char)
    requires CharCode(c) == GROUP_END
    ensures CharPosition(table, charSize, c) == None
  {
    CharPositionSpec(table, charSize, c);
  }

  /** The lookup loop itself (frame_buffer.rs, `get_char_position`). */
  method GetCharPosition(table: seq<Byte>, charSize: nat, c: char) returns (r: Option<nat>)
    ensures r == CharPosition(table, charSize, c)
  {
    var code := CharCode(c);
    var codeIndex := 0;
    var i := 0;
    while i < EntryCount(table)
      invariant i <= EntryCount(table)
      invariant ScanFrom(table, code, charSize, i, codeIndex) == CharPosition(table, charSize, c)
    {
      var value := table[i * 2] as int + 256 * (table[i * 2 + 1] as int);
      if value == GROUP_END {
        codeIndex := codeIndex + 1;
      } else if value == code {
        return Some(codeIndex * charSize);
      }
      i := i + 1;
    }
    return None;
  }

  /** `get_glyph_data`: the `CHAR_SIZE` bytes at the character's position,
      provided they lie wholly inside the glyph data. */
  function GlyphData(layout: Layout, c: char): (r: Option<seq<Byte>>)
    ensures r.Some? ==> |r.value| == layout.charSize
    ensures r.Some? <==>
      && CharPosition(layout.unicodeTable, layout.charSize, c).Some?
      && CharPosition(layout.unicodeTable, layout.charSize, c).value + layout.charSize <= |layout.charsData|
    ensures r.Some? ==>
      var start := CharPosition(layout.unicodeTable, layout.charSize, c).value;
      forall k | 0 <= k < layout.charSize :: r.value[k] == layout.charsData[start + k]
  {
    var start :- CharPosition(layout.unicodeTable, layout.charSize, c);
    var end := start + layout.charSize;
    if end <= |layout.charsData| then Some(layout.charsData[start .. end]) else None
  }

  /** With the glyph data cut at `512 * CHAR_SIZE` instead of after the header
      plus 512 glyphs, a glyph is returned only if it ends `HEADER_SIZE` bytes
      before the 512th glyph would: the last glyph of a 512-glyph font is
      never available. */
  lemma LastGlyphUnavailable(font: seq<Byte>, c: char)
    requires LayoutOf(font).Some?
    ensures var layout := LayoutOf(font).value;
      GlyphData(layout, c).Some? ==>
        CharPosition(layout.unicodeTable, layout.charSize, c).value + layout.charSize
          <= GLYPH_COUNT * layout.charSize - layout.headerSize
  {
  }

  /** The unicode table as sliced starts `HEADER_SIZE` bytes before the end of
      glyph 511 in the PSF1 file layout (header, then 512 glyphs): when the
      header is no longer than a glyph, its first `HEADER_SIZE` bytes are the
      tail of that glyph's bitmap. */
  lemma TableStartsInsideLastGlyph(font: seq<Byte>)
    requires LayoutOf(font).Some?
    requires var layout := LayoutOf(font).value;
      layout.headerSize <= layout.charSize && layout.headerSize + GLYPH_COUNT * layout.charSize <= |font|
    ensures var layout := LayoutOf(font).value;
      var lastGlyph := font[layout.headerSize + (GLYPH_COUNT - 1) * layout.charSize ..
                            layout.headerSize + GLYPH_COUNT * layout.charSize];
      forall b | 0 <= b < layout.headerSize ::
        layout.unicodeTable[b] == lastGlyph[layout.charSize - layout.headerSize + b]
  {
  }

  /** The PSF1 file holds the header and all 512 glyphs. */
  predicate HoldsAllGlyphs(font: seq<Byte>) {
    && |font| >= 4
    && 4 <= font[1]
    && font[1] + GlyphsEnd(font[3]) <= |font|
  }

  /** The layout the PSF1 format defines: the glyph data is the
      `512 * CHAR_SIZE` bytes after the header and the unicode table follows
      it (`FONT[HEADER_SIZE..HEADER_SIZE + 512 * CHAR_SIZE]`). */
  function IntendedLayoutOf(font: seq<Byte>): (r: Option<Layout>)
    ensures r.Some? <==> HoldsAllGlyphs(font)
    ensures r.Some? ==> r.value.headerSize == font[1] && r.value.charSize == font[3]
    ensures r.Some? ==> r.value.charsData == font[font[1] .. font[1] + GlyphsEnd(font[3])]
    ensures r.Some? ==> r.value.unicodeTable == font[font[1] + GlyphsEnd(font[3]) ..]
  {
    if HoldsAllGlyphs(font) then
      var headerSize := font[1];
      var charSize := font[3];
      var glyphsEnd := headerSize + GlyphsEnd(charSize);
      Some(Layout(headerSize, charSize, font[headerSize .. glyphsEnd], font[glyphsEnd ..]))
    else None
  }

  /** Where glyph `k` starts in the glyph data: after `k` glyphs of
      `charSize` bytes. */
  function GlyphOffset(k: nat, charSize: nat): nat {
    if k == 0 then 0 else GlyphOffset(k - 1, charSize) + charSize
  }

  lemma {:induction false} GlyphOffsetIsProduct(k: nat, charSize: nat)
    ensures GlyphOffset(k, charSize) == k * charSize
  {
    if k > 0 {
      GlyphOffsetIsProduct(k - 1, charSize);
    }
  }

  /** With the intended layout every one of the 512 glyphs lies wholly in
      the glyph data and is the `k`-th glyph of the file. */
  lemma IntendedGlyphsAvailable(font: seq<Byte>, k: nat)
    requires IntendedLayoutOf(font).Some?
    requires k < GLYPH_COUNT
    ensures var layout := IntendedLayoutOf(font).value;
      var start := GlyphOffset(k, layout.charSize);
      && start + layout.charSize <= |layout.charsData|
      && layout.charsData[start .. start + layout.charSize]
         == font[layout.headerSize + start .. layout.headerSize + start + layout.charSize]
  {
    var layout := IntendedLayoutOf(font).value;
    var hs := layout.headerSize;
    var cs := layout.charSize;
    var g := GlyphsEnd(cs);
    assert layout.charsData == font[hs .. hs + g];
    GlyphOffsetIsProduct(k, cs);
    GlyphFits(k, cs);
    SliceOfSlice(font, hs, hs + g, k * cs, k * cs + cs);
  }

  /** `k * c + c <= 512 * c` for every glyph index `k`. */
  lemma GlyphFits(k: nat, c: nat)
    requires k < GLYPH_COUNT
    ensures k * c + c <= GlyphsEnd(c)
  {
    var d := GLYPH_COUNT - (k + 1);
    assert GLYPH_COUNT * c == (k + 1) * c + d * c;
  }

  lemma SliceOfSlice(s: seq<Byte>, i: nat, j: nat, a: nat, b: nat)
    requires i <= j <= |s| && a <= b <= j - i
    ensures s[i .. j][a .. b] == s[i + a .. i + b]
  {
    forall n | 0 <= n < b - a
      ensures s[i .. j][a .. b][n] == s[i + a .. i + b][n]
    {
    }
  }

  lemma SliceConcat(s: seq<Byte>, i: nat, j: nat, k: nat)
    requires i <= j <= k <= |s|
    ensures s[i .. j] + s[j .. k] == s[i .. k]
    ensures s[j ..] == s[j .. k] + s[k ..]
  {
  }

  /** Where both layouts can be evaluated, the one as written is the
      intended one with its cut moved `HEADER_SIZE` bytes earlier: the glyph
      data loses its last `HEADER_SIZE` bytes and the unicode table gains
      them in front. */
  lemma AsWrittenShiftsTable(font: seq<Byte>)
    requires LayoutOf(font).Some? && IntendedLayoutOf(font).Some?
    ensures var written := LayoutOf(font).value;
      var intended := IntendedLayoutOf(font).value;
      var moved := font[GlyphsEnd(written.charSize) .. written.headerSize + GlyphsEnd(written.charSize)];
      && |moved| == written.headerSize
      && written.charsData + moved == intended.charsData
      && written.unicodeTable == moved + intended.unicodeTable
  {
    var written := LayoutOf(font).value;
    var intended := IntendedLayoutOf(font).value;
    var hs := written.headerSize;
    var g := GlyphsEnd(written.charSize);
    assert intended.headerSize == hs && intended.charSize == written.charSize;
    assert hs <= g && hs + g <= |font|;
    assert written.charsData == font[hs .. g];
    assert written.unicodeTable == font[g ..];
    assert intended.charsData == font[hs .. hs + g];
    assert intended.unicodeTable == font[hs + g ..];
    var moved := font[g .. hs + g];
    SliceConcat(font, hs, g, hs + g);
    assert font[hs .. g] + font[g .. hs + g] == font[hs .. hs + g];
    assert written.charsData + moved == intended.charsData;
    assert written.unicodeTable == moved + intended.unicodeTable;
  }

  /** A PSF1 font in mode 0x03 (512 glyphs and a unicode table) whose
      glyphs are one byte, whose last four glyph bytes are 0xFF, and whose
      unicode table lists only 'A', for glyph 0. */
  const SHIFTED_FONT: seq<Byte> :=
    [0x36, 0x04, 0x03, 0x01] + seq(GLYPH_COUNT, _ => 0xFF) + [0x41, 0x00, 0xFF, 0xFF]

  /** On that font the lookup as written reads the four glyph bytes as two
      group terminators and places 'A' at glyph 2; the intended layout
      places it at glyph 0. */
  lemma ShiftedTableMisplacesGlyph()
    ensures LayoutOf(SHIFTED_FONT).Some? && IntendedLayoutOf(SHIFTED_FONT).Some?
    ensures CharPosition(LayoutOf(SHIFTED_FONT).value.unicodeTable, 1, 'A') == Some(2)
    ensures CharPosition(IntendedLayoutOf(SHIFTED_FONT).value.unicodeTable, 1, 'A') == Some(0)
  {
    var f := SHIFTED_FONT;
    assert |f| == 520;
    assert f[1] == 0x04 && f[3] == 0x01;
    var written := f[512 ..];
    assert written == [0xFF, 0xFF, 0xFF, 0xFF, 0x41, 0x00, 0xFF, 0xFF];
    assert LayoutOf(f).value.unicodeTable == written;
    var intended := f[516 ..];
    assert intended == [0x41, 0x00, 0xFF, 0xFF];
    assert IntendedLayoutOf(f).value.unicodeTable == intended;
    assert CharCode('A') == 0x41;
    assert Entry(written, 0) == GROUP_END && Entry(written, 1) == GROUP_END && Entry(written, 2) == 0x41;
    assert ScanFrom(written, 0x41, 1, 2, 2) == Some(2);
    assert ScanFrom(written, 0x41, 1, 0, 0) == Some(2);
    assert Entry(intended, 0) == 0x41;
  }
}
