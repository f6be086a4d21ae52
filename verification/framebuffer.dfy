/** The framebuffer text writer (kernel/src/frame_buffer.rs): a cursor
    `(xPos, yPos)` over a byte framebuffer, drawing PSF1 glyphs pixel by
    pixel. The framebuffer description and the font layout are parameters. */
module FrameBuffer {
  import opened Common
  import opened Font

  const LINE_SPACING: nat := 3
  const LETTER_SPACING: nat := 1
  const SCREEN_PADDING: nat := 5
  const BACKUP_CHAR: char := '?'

  /** The pixel formats a bootloader may report. */
  datatype PixelFormat =
    | Rgb
    | Bgr
    | U8
    | Unknown(redPosition: nat, greenPosition: nat, bluePosition: nat)

  /** The framebuffer description the writer uses. */
  datatype Info = Info(
    width: nat,
    height: nat,
    stride: nat,
    bytesPerPixel: nat,
    pixelFormat: PixelFormat)

  datatype Color = Color(r: bv8, g: bv8, b: bv8, a: bv8)

  /** The one text colour. */
  const COLOR: Color := Color(243, 98, 95, 0)

  datatype Writer = Writer(framebuffer: seq<bv8>, info: Info, xPos: nat, yPos: nat)

  /** Why drawing panics. */
  datatype Fault =
    | UnsupportedPixelFormat
    | PixelOutOfRange
    | NoBackupGlyph

  type Outcome = Result<Writer, Fault>

  // ---------------------------------------------------------------- cursor

  /** `carriage_return`: back to the left padding, nothing else changes. */
  function CarriageReturn(w: Writer): (r: Writer)
    ensures r.xPos == SCREEN_PADDING
    ensures r.yPos == w.yPos && r.framebuffer == w.framebuffer && r.info == w.info
  {
    w.(xPos := SCREEN_PADDING)
  }

  /** `newline`: one text line down, then a carriage return. */
  function Newline(font: Layout, w: Writer): (r: Writer)
    ensures r.yPos == w.yPos + font.charSize + LINE_SPACING
    ensures r.xPos == SCREEN_PADDING
    ensures r.framebuffer == w.framebuffer && r.info == w.info
  {
    CarriageReturn(w.(yPos := w.yPos + font.charSize + LINE_SPACING))
  }

  /** `clear`: cursor to the top-left padding and every framebuffer byte zero. */
  function Clear(w: Writer): (r: Writer)
    ensures r.xPos == SCREEN_PADDING && r.yPos == SCREEN_PADDING
    ensures r.info == w.info
    ensures |r.framebuffer| == |w.framebuffer|
    ensures forall i | 0 <= i < |r.framebuffer| :: r.framebuffer[i] == 0
  {
    Writer(seq(|w.framebuffer|, _ => 0), w.info, SCREEN_PADDING, SCREEN_PADDING)
  }

  /** `FrameBufferWriter::new`: a writer on a cleared screen. */
  function NewWriter(framebuffer: seq<bv8>, info: Info): (r: Writer)
    ensures r.xPos == SCREEN_PADDING && r.yPos == SCREEN_PADDING
    ensures r.info == info && |r.framebuffer| == |framebuffer|
    ensures forall i | 0 <= i < |r.framebuffer| :: r.framebuffer[i] == 0
  {
    Clear(Writer(framebuffer, info, 0, 0))
  }

  // ---------------------------------------------------------------- pixels

  /** The colour's bytes in framebuffer order; only RGB and BGR are supported. */
  function ColorBytes(format: PixelFormat, color: Color): Option<seq<bv8>> {
    match format
    case Rgb => Some([color.r, color.g, color.b, color.a])
    case Bgr => Some([color.b, color.g, color.r, color.a])
    case _ => None
  }

  /** First byte of pixel `(x, y)`. */
  function ByteOffset(info: Info, x: nat, y: nat): nat {
    (y * info.stride + x) * info.bytesPerPixel
  }

  /** `write_pixel` at `(x, y)` completes: the format is supported, the
      colour has `bytes_per_pixel` bytes, the pixel lies in the buffer, and
      so does the byte read back after the copy. */
  predicate PixelWritable(size: nat, info: Info, x: nat, y: nat) {
    && (info.pixelFormat == Rgb || info.pixelFormat == Bgr)
    && info.bytesPerPixel <= 4
    && ByteOffset(info, x, y) + info.bytesPerPixel <= size
    && ByteOffset(info, x, y) < size
  }

  /** `write_pixel`: copies the first `bytes_per_pixel` colour bytes to the
      pixel's bytes; an unsupported format or a pixel outside the buffer panics.
      The volatile read of the pixel's first byte only adds its bounds check. */
  function WritePixel(w: Writer, x: nat, y: nat, color: Color): (r: Outcome)
    ensures r.Ok? <==> PixelWritable(|w.framebuffer|, w.info, x, y)
    ensures !(w.info.pixelFormat == Rgb || w.info.pixelFormat == Bgr) ==> r == Err(UnsupportedPixelFormat)
    ensures r.Ok? ==>
      && r.value.info == w.info && r.value.xPos == w.xPos && r.value.yPos == w.yPos
      && |r.value.framebuffer| == |w.framebuffer|
      && var start := ByteOffset(w.info, x, y);
         forall i | 0 <= i < |w.framebuffer| ::
           r.value.framebuffer[i] ==
             if start <= i < start + w.info.bytesPerPixel
             then ColorBytes(w.info.pixelFormat, color).value[i - start]
             else w.framebuffer[i]
  {
    var bytes :- ColorBytes(w.info.pixelFormat, color).ToResultOr(UnsupportedPixelFormat);
    var bpp := w.info.bytesPerPixel;
    var start := ByteOffset(w.info, x, y);
    if start + bpp <= |w.framebuffer| && bpp <= |bytes| && start < |w.framebuffer| then
      Ok(w.(framebuffer := w.framebuffer[.. start] + bytes[.. bpp] + w.framebuffer[start + bpp ..]))
    else
      Err(PixelOutOfRange)
  }

  // ---------------------------------------------------------------- glyphs

  /** Bit `7 - index % 8` of byte `index / 8`: glyph rows are read most
      significant bit first. */
  function GlyphBit(glyph: seq<Byte>, index: nat): bool
    requires index < CHAR_WIDTH * |glyph|
  {
    (glyph[index / 8] as bv8) & ((1 as bv8) << (7 - index % 8)) != 0
  }

  /** Screen pixel of glyph bit `index` for a glyph drawn at `(x0, y0)`:
      column `index % CHAR_WIDTH`, row `index / CHAR_WIDTH`. */
  function PixelX(x0: nat, index: nat): nat { x0 + index % CHAR_WIDTH }
  function PixelY(y0: nat, index: nat): nat { y0 + index / CHAR_WIDTH }

  /** Byte `b` belongs to the pixel of glyph bit `index`. */
  predicate InPixel(info: Info, x0: nat, y0: nat, index: nat, b: nat) {
    var start := ByteOffset(info, PixelX(x0, index), PixelY(y0, index));
    start <= b < start + info.bytesPerPixel
  }

  /** Byte `b` belongs to a pixel whose glyph bit, at or after `from`, is set. */
  ghost predicate Painted(info: Info, glyph: seq<Byte>, x0: nat, y0: nat, from: nat, b: nat) {
    exists index | from <= index < CHAR_WIDTH * |glyph| ::
      GlyphBit(glyph, index) && InPixel(info, x0, y0, index, b)
  }

  /** Every pixel whose glyph bit, at or after `from`, is set can be written. */
  ghost predicate GlyphWritable(size: nat, info: Info, glyph: seq<Byte>, x0: nat, y0: nat, from: nat) {
    forall index | from <= index < CHAR_WIDTH * |glyph| && GlyphBit(glyph, index) ::
      PixelWritable(size, info, PixelX(x0, index), PixelY(y0, index))
  }

  /** The colour byte a painted byte receives: its position within its pixel
      selects it. */
  function PaintByte(info: Info, b: nat): bv8 {
    var bytes := ColorBytes(info.pixelFormat, COLOR);
    if info.bytesPerPixel == 0 || bytes.None? || b % info.bytesPerPixel >= 4 then 0
    else bytes.value[b % info.bytesPerPixel]
  }

  /** The two nested loops of `render_char`, flattened: bit `index` is row
      `index / 8`, column `index % 8`, and both loops visit the bits in this
      order. */
  function PaintFrom(w: Writer, glyph: seq<Byte>, x0: nat, y0: nat, from: nat): Outcome
    requires from <= CHAR_WIDTH * |glyph|
    decreases CHAR_WIDTH * |glyph| - from
  {
    if from == CHAR_WIDTH * |glyph| then Ok(w)
    else if GlyphBit(glyph, from) then
      var w' :- WritePixel(w, PixelX(x0, from), PixelY(y0, from), COLOR);
      PaintFrom(w', glyph, x0, y0, from + 1)
    else
      PaintFrom(w, glyph, x0, y0, from + 1)
  }

  lemma MulStep(a: nat, b: nat, m: nat)
    ensures a < b ==> a * m + m <= b * m
  {
    if a < b {
      var d := b - a;
      assert b * m == a * m + d * m;
      assert d * m >= m;
    }
  }

  /** A byte at distance `r < m` past a multiple `q * m` has remainder `r`. */
  lemma ModUnique(x: nat, m: nat, q: nat, r: nat)
    requires m > 0 && r < m && x == q * m + r
    ensures x % m == r
  {
    MulStep(x / m, q, m);
    MulStep(q, x / m, m);
  }

  /** Painting the set bits from `from` on completes exactly when all their
      pixels are writable, and changes neither the cursor, the description
      nor the framebuffer size. */
  lemma {:induction false} PaintFromCompletes(w: Writer, glyph: seq<Byte>, x0: nat, y0: nat, from: nat)
    requires from <= CHAR_WIDTH * |glyph|
    ensures var r := PaintFrom(w, glyph, x0, y0, from);
      && (r.Ok? <==> GlyphWritable(|w.framebuffer|, w.info, glyph, x0, y0, from))
      && (r.Ok? ==>
            && r.value.info == w.info && r.value.xPos == w.xPos && r.value.yPos == w.yPos
            && |r.value.framebuffer| == |w.framebuffer|)
    decreases CHAR_WIDTH * |glyph| - from
  {
    if from < CHAR_WIDTH * |glyph| {
      if !GlyphBit(glyph, from) {
        PaintFromCompletes(w, glyph, x0, y0, from + 1);
      } else {
        var step := WritePixel(w, PixelX(x0, from), PixelY(y0, from), COLOR);
        if step.Ok? {
          PaintFromCompletes(step.value, glyph, x0, y0, from + 1);
        }
      }
    }
  }

  /** One pixel write of the painting loop: the bytes of that pixel receive
      their colour byte, the others keep their value. */
  lemma PaintStep(w: Writer, glyph: seq<Byte>, x0: nat, y0: nat, from: nat, b: nat)
    requires from < CHAR_WIDTH * |glyph|
    requires WritePixel(w, PixelX(x0, from), PixelY(y0, from), COLOR).Ok?
    requires b < |w.framebuffer|
    ensures WritePixel(w, PixelX(x0, from), PixelY(y0, from), COLOR).value.framebuffer[b] ==
      if InPixel(w.info, x0, y0, from, b) then PaintByte(w.info, b) else w.framebuffer[b]
  {
    var x, y := PixelX(x0, from), PixelY(y0, from);
    if InPixel(w.info, x0, y0, from, b) {
      var start := ByteOffset(w.info, x, y);
      ModUnique(b, w.info.bytesPerPixel, y * w.info.stride + x, b - start);
    }
  }

  /** When painting completes, every byte of a painted pixel holds its
      colour byte and every other byte is unchanged. */
  lemma {:induction false} PaintFromBytes(w: Writer, glyph: seq<Byte>, x0: nat, y0: nat, from: nat)
    requires from <= CHAR_WIDTH * |glyph|
    requires PaintFrom(w, glyph, x0, y0, from).Ok?
    ensures var r := PaintFrom(w, glyph, x0, y0, from).value;
      |r.framebuffer| == |w.framebuffer| &&
      forall b | 0 <= b < |w.framebuffer| ::
        r.framebuffer[b] ==
          if Painted(w.info, glyph, x0, y0, from, b) then PaintByte(w.info, b) else w.framebuffer[b]
    decreases CHAR_WIDTH * |glyph| - from
  {
    PaintFromCompletes(w, glyph, x0, y0, from);
    if from == CHAR_WIDTH * |glyph| {
      assert forall b :: !Painted(w.info, glyph, x0, y0, from, b);
    } else {
      var w1 := w;
      if GlyphBit(glyph, from) {
        w1 := WritePixel(w, PixelX(x0, from), PixelY(y0, from), COLOR).value;
        forall b | 0 <= b < |w.framebuffer|
          ensures w1.framebuffer[b] ==
            if InPixel(w.info, x0, y0, from, b) then PaintByte(w.info, b) else w.framebuffer[b]
        {
          PaintStep(w, glyph, x0, y0, from, b);
        }
      }
      assert PaintFrom(w, glyph, x0, y0, from) == PaintFrom(w1, glyph, x0, y0, from + 1);
      PaintFromBytes(w1, glyph, x0, y0, from + 1);
      forall b | 0 <= b < |w.framebuffer|
        ensures Painted(w.info, glyph, x0, y0, from, b) <==>
          (GlyphBit(glyph, from) && InPixel(w.info, x0, y0, from, b))
          || Painted(w.info, glyph, x0, y0, from + 1, b)
      {
        if Painted(w.info, glyph, x0, y0, from, b) {
          var index :| from <= index < CHAR_WIDTH * |glyph|
            && GlyphBit(glyph, index) && InPixel(w.info, x0, y0, index, b);
          if index != from {
            assert Painted(w.info, glyph, x0, y0, from + 1, b);
          }
        }
      }
    }
  }

  /** Painting the set bits from `from` on completes exactly when all their
      pixels are writable, and leaves every byte of a painted pixel holding
      its colour byte and every other byte as it was. */
  lemma PaintFromSpec(w: Writer, glyph: seq<Byte>, x0: nat, y0: nat, from: nat)
    requires from <= CHAR_WIDTH * |glyph|
    ensures var r := PaintFrom(w, glyph, x0, y0, from);
      && (r.Ok? <==> GlyphWritable(|w.framebuffer|, w.info, glyph, x0, y0, from))
      && (r.Ok? ==>
            && r.value.info == w.info && r.value.xPos == w.xPos && r.value.yPos == w.yPos
            && |r.value.framebuffer| == |w.framebuffer|
            && forall b | 0 <= b < |w.framebuffer| ::
                 r.value.framebuffer[b] ==
                   if Painted(w.info, glyph, x0, y0, from, b) then PaintByte(w.info, b) else w.framebuffer[b])
  {
    PaintFromCompletes(w, glyph, x0, y0, from);
    if PaintFrom(w, glyph, x0, y0, from).Ok? {
      PaintFromBytes(w, glyph, x0, y0, from);
    }
  }

  /** The glyph for `c`, or the backup glyph `'?'` when `c` has none; a font
      without `'?'` panics. */
  function Glyph(font: Layout, c: char): (r: Result<seq<Byte>, Fault>)
    ensures r.Ok? ==> |r.value| == font.charSize
    ensures GlyphData(font, c).Some? ==> r == Ok(GlyphData(font, c).value)
    ensures GlyphData(font, c).None? && GlyphData(font, BACKUP_CHAR).Some? ==>
      r == Ok(GlyphData(font, BACKUP_CHAR).value)
    ensures r.Err? <==> GlyphData(font, c).None? && GlyphData(font, BACKUP_CHAR).None?
  {
    match GlyphData(font, c)
    case Some(glyph) => Ok(glyph)
    case None => GlyphData(font, BACKUP_CHAR).ToResultOr(NoBackupGlyph)
  }

  /** `render_char`: draws the glyph at the cursor, then advances the cursor
      by `8 + LETTER_SPACING`. */
  function RenderChar(font: Layout, w: Writer, c: char): Outcome {
    var glyph :- Glyph(font, c);
    var painted :- PaintFrom(w, glyph, w.xPos, w.yPos, 0);
    Ok(painted.(xPos := painted.xPos + 8 + LETTER_SPACING))
  }

  /** `render_char` sets the pixel at `(xPos + col, yPos + row)` exactly when
      bit `7 - index % 8` of glyph byte `index / 8` is set, `index` being
      `row * CHAR_WIDTH + col`; it completes exactly when all those pixels are
      writable, moves the cursor right by 9 and keeps the row. */
  lemma RenderCharSpec(font: Layout, w: Writer, c: char)
    ensures var r := RenderChar(font, w, c);
      var glyph := Glyph(font, c);
      && (r.Ok? <==> glyph.Ok? && GlyphWritable(|w.framebuffer|, w.info, glyph.value, w.xPos, w.yPos, 0))
      && (r.Ok? ==>
            && r.value.xPos == w.xPos + 8 + LETTER_SPACING
            && r.value.yPos == w.yPos
            && r.value.info == w.info
            && |r.value.framebuffer| == |w.framebuffer|
            && forall b | 0 <= b < |w.framebuffer| ::
                 r.value.framebuffer[b] ==
                   if Painted(w.info, glyph.value, w.xPos, w.yPos, 0, b) then PaintByte(w.info, b)
                   else w.framebuffer[b])
  {
    var glyph := Glyph(font, c);
    if glyph.Ok? {
      PaintFromSpec(w, glyph.value, w.xPos, w.yPos, 0);
    }
  }

  // ---------------------------------------------------------------- text

  /** `write_char`: a line feed or carriage return only moves the cursor;
      any other character wraps first when it would reach the right edge,
      then clears the screen when the (possibly wrapped) line would reach
      the bottom edge, then is rendered. */
  function WriteChar(font: Layout, w: Writer, c: char): Outcome {
    match c
    case '\n' => Ok(Newline(font, w))
    case '\r' => Ok(CarriageReturn(w))
    case _ =>
      var wrapped := if w.xPos + CHAR_WIDTH >= w.info.width then Newline(font, w) else w;
      var fitted :=
        if wrapped.yPos + font.charSize + SCREEN_PADDING >= wrapped.info.height then Clear(wrapped) else wrapped;
      RenderChar(font, fitted, c)
  }

  /** `write_str`: `write_char` on every character in order; it reports
      success unless a character panics. */
  function WriteStr(font: Layout, w: Writer, s: string): Outcome
    decreases |s|
  {
    if s == [] then Ok(w)
    else
      var w' :- WriteChar(font, w, s[0]);
      WriteStr(font, w', s[1..])
  }

  /** Continues an outcome with more text. */
  function ThenWrite(font: Layout, r: Outcome, s: string): Outcome {
    match r
    case Ok(w) => WriteStr(font, w, s)
    case Err(e) => Err(e)
  }

  /** Line feed and carriage return draw nothing and never fail. */
  lemma ControlCharsDrawNothing(font: Layout, w: Writer, c: char)
    requires c == '\n' || c == '\r'
    ensures var r := WriteChar(font, w, c);
      && r.Ok?
      && r.value.framebuffer == w.framebuffer
      && r.value.xPos == SCREEN_PADDING
      && r.value.yPos == (if c == '\n' then w.yPos + font.charSize + LINE_SPACING else w.yPos)
  {
  }

  /** Where a printable character lands. With `wrap` meaning the glyph would
      reach the right edge and `row` the line after wrapping, the glyph is
      drawn at the cursor, at the start of the next line, or, when `row`
      would reach the bottom edge, at the top-left of a cleared screen; in
      that case every byte the glyph does not paint is zero. */
  lemma WriteCharPlacement(font: Layout, w: Writer, c: char)
    requires c != '\n' && c != '\r'
    requires WriteChar(font, w, c).Ok?
    ensures
      var r := WriteChar(font, w, c).value;
      var glyph := Glyph(font, c).value;
      var wrap := w.xPos + CHAR_WIDTH >= w.info.width;
      var row := if wrap then w.yPos + font.charSize + LINE_SPACING else w.yPos;
      var cleared := row + font.charSize + SCREEN_PADDING >= w.info.height;
      var x0 := if cleared || wrap then SCREEN_PADDING else w.xPos;
      var y0 := if cleared then SCREEN_PADDING else row;
      && r.xPos == x0 + 8 + LETTER_SPACING
      && r.yPos == y0
      && r.info == w.info
      && |r.framebuffer| == |w.framebuffer|
      && forall b | 0 <= b < |w.framebuffer| ::
           r.framebuffer[b] ==
             if Painted(w.info, glyph, x0, y0, 0, b) then PaintByte(w.info, b)
             else if cleared then 0
             else w.framebuffer[b]
  {
    var wrapped := if w.xPos + CHAR_WIDTH >= w.info.width then Newline(font, w) else w;
    var fitted :=
      if wrapped.yPos + font.charSize + SCREEN_PADDING >= wrapped.info.height then Clear(wrapped) else wrapped;
    RenderCharSpec(font, fitted, c);
  }

  /** The cursor part of `WriteCharPlacement`. */
  lemma WriteCharCursor(font: Layout, w: Writer, c: char)
    requires c != '\n' && c != '\r'
    requires WriteChar(font, w, c).Ok?
    ensures
      var r := WriteChar(font, w, c).value;
      var wrap := w.xPos + CHAR_WIDTH >= w.info.width;
      var row := if wrap then w.yPos + font.charSize + LINE_SPACING else w.yPos;
      var cleared := row + font.charSize + SCREEN_PADDING >= w.info.height;
      && r.xPos == (if cleared || wrap then SCREEN_PADDING else w.xPos) + 8 + LETTER_SPACING
      && r.yPos == (if cleared then SCREEN_PADDING else row)
      && r.info == w.info
      && |r.framebuffer| == |w.framebuffer|
  {
    var wrapped := if w.xPos + CHAR_WIDTH >= w.info.width then Newline(font, w) else w;
    var fitted :=
      if wrapped.yPos + font.charSize + SCREEN_PADDING >= wrapped.info.height then Clear(wrapped) else wrapped;
    var glyph := Glyph(font, c).value;
    PaintFromCompletes(fitted, glyph, fitted.xPos, fitted.yPos, 0);
  }

  /** The bottom-edge test uses the line after wrapping: a character that
      wraps from a line that still fits onto one that does not clears the
      screen and is drawn at the top-left. */
  lemma WrapThenClear(font: Layout, w: Writer, c: char)
    requires c != '\n' && c != '\r'
    requires w.xPos + CHAR_WIDTH >= w.info.width
    requires w.yPos + font.charSize + SCREEN_PADDING < w.info.height
    requires w.yPos + font.charSize + LINE_SPACING + font.charSize + SCREEN_PADDING >= w.info.height
    requires WriteChar(font, w, c).Ok?
    ensures WriteChar(font, w, c).value.yPos == SCREEN_PADDING
    ensures WriteChar(font, w, c).value.xPos == SCREEN_PADDING + 8 + LETTER_SPACING
  {
    WriteCharCursor(font, w, c);
  }

  /** Writing `s + t` is writing `s`, then `t`. */
  lemma {:induction false} WriteStrAppend(font: Layout, w: Writer, s: string, t: string)
    ensures WriteStr(font, w, s + t) == ThenWrite(font, WriteStr(font, w, s), t)
    decreases |s|
  {
    if s == [] {
      assert s + t == t;
    } else {
      assert (s + t)[0] == s[0];
      assert (s + t)[1..] == s[1..] + t;
      var r := WriteChar(font, w, s[0]);
      if r.Ok? {
        WriteStrAppend(font, r.value, s[1..], t);
      }
    }
  }

  /** The cursor sits on the text grid: whole letter cells right of, and
      whole text lines below, the padding. */
  ghost predicate OnGrid(font: Layout, w: Writer) {
    && w.xPos >= SCREEN_PADDING
    && w.yPos >= SCREEN_PADDING
    && (w.xPos - SCREEN_PADDING) % (8 + LETTER_SPACING) == 0
    && (w.yPos - SCREEN_PADDING) % (font.charSize + LINE_SPACING) == 0
  }

  lemma ModAddStep(a: nat, m: nat)
    requires m > 0
    ensures (a + m) % m == a % m
  {
    ModUnique(a + m, m, a / m + 1, a % m);
  }

  /** A printable character keeps the cursor on the grid. */
  lemma PrintableKeepsGrid(font: Layout, w: Writer, c: char)
    requires OnGrid(font, w)
    requires c != '\n' && c != '\r'
    requires WriteChar(font, w, c).Ok?
    ensures OnGrid(font, WriteChar(font, w, c).value)
  {
    WriteCharCursor(font, w, c);
    var r := WriteChar(font, w, c).value;
    var wrap := w.xPos + CHAR_WIDTH >= w.info.width;
    var row := if wrap then w.yPos + font.charSize + LINE_SPACING else w.yPos;
    var cleared := row + font.charSize + SCREEN_PADDING >= w.info.height;
    GridStep(w.xPos, w.yPos, r.xPos, r.yPos, font.charSize + LINE_SPACING, wrap, cleared);
  }

  /** The cursor arithmetic of a printable character, on its own: from a
      grid point, the next cell, the start of the next line, or the
      top-left cell is again a grid point. */
  lemma GridStep(x: nat, y: nat, x': nat, y': nat, m: nat, wrap: bool, cleared: bool)
    requires m > 0
    requires x >= SCREEN_PADDING && (x - SCREEN_PADDING) % (8 + LETTER_SPACING) == 0
    requires y >= SCREEN_PADDING && (y - SCREEN_PADDING) % m == 0
    requires x' == (if cleared || wrap then SCREEN_PADDING else x) + 8 + LETTER_SPACING
    requires y' == (if cleared then SCREEN_PADDING else if wrap then y + m else y)
    ensures x' >= SCREEN_PADDING && (x' - SCREEN_PADDING) % (8 + LETTER_SPACING) == 0
    ensures y' >= SCREEN_PADDING && (y' - SCREEN_PADDING) % m == 0
  {
    if !cleared && wrap {
      ModAddStep(y - SCREEN_PADDING, m);
    }
    if !cleared && !wrap {
      ModAddStep(x - SCREEN_PADDING, 8 + LETTER_SPACING);
    }
  }

  /** Every character keeps the cursor on the grid, the framebuffer size and
      the framebuffer description. */
  lemma WriteCharKeepsGrid(font: Layout, w: Writer, c: char)
    requires OnGrid(font, w)
    requires WriteChar(font, w, c).Ok?
    ensures OnGrid(font, WriteChar(font, w, c).value)
    ensures WriteChar(font, w, c).value.info == w.info
    ensures |WriteChar(font, w, c).value.framebuffer| == |w.framebuffer|
  {
    if c == '\n' {
      ModAddStep(w.yPos - SCREEN_PADDING, font.charSize + LINE_SPACING);
    } else if c != '\r' {
      WriteCharCursor(font, w, c);
      PrintableKeepsGrid(font, w, c);
    }
  }

  /** A whole string keeps the cursor on the grid, the framebuffer size and
      the framebuffer description. */
  lemma {:induction false} WriteStrKeepsGrid(font: Layout, w: Writer, s: string)
    requires OnGrid(font, w)
    requires WriteStr(font, w, s).Ok?
    ensures OnGrid(font, WriteStr(font, w, s).value)
    ensures WriteStr(font, w, s).value.info == w.info
    ensures |WriteStr(font, w, s).value.framebuffer| == |w.framebuffer|
    decreases |s|
  {
    if s != [] {
      WriteCharKeepsGrid(font, w, s[0]);
      WriteStrKeepsGrid(font, WriteChar(font, w, s[0]).value, s[1..]);
    }
  }

  /** A new writer starts on the grid. */
  lemma NewWriterOnGrid(font: Layout, framebuffer: seq<bv8>, info: Info)
    ensures OnGrid(font, NewWriter(framebuffer, info))
  {
  }
}
