/** The VBE software renderer: one flat back buffer, written in place by the loops of vbe.c.

  Each method is proved to do to the picture in the buffer exactly what the operation of the
  same meaning in modules Picture and Text does, where the laws are proved. */
module Vbe {
  import opened Bits
  import opened CStrings
  import opened Grid
  import opened Pixel
  import opened Picture
  import opened Text

  class Display {
    var width: uint32
    var height: uint32
    var backbuffer: array<uint32>
    var fontWidth: uint32
    var fontHeight: uint32
    const defaultFont: FontTable

    /** The byte size of the buffer is computed in 32 bits, so it must fit */
    ghost predicate Valid()
      reads this
    {
      backbuffer.Length == Span(height, width) && Span(height, width) * 4 < WORD
    }

    /** The picture in the back buffer */
    ghost function Shown(): (s: Pixels)
      requires Valid()
      reads this, backbuffer
      ensures Rect(s, width, height)
    {
      Rows(backbuffer[..], width, height)
    }

    /** `vbe_draw_char` reads 16 glyph rows of 8 bits, so only such a font size can be drawn */
    ghost predicate FontDrawable()
      reads this
    {
      fontWidth <= 8 && fontHeight <= 16
    }

    ghost function FontFace(): Face
      requires FontDrawable()
      reads this
    {
      Face(defaultFont, fontWidth, fontHeight)
    }

    constructor Init(width: uint32, height: uint32, font: FontTable)
      requires width * height * 4 < WORD
      ensures Valid() && FontDrawable() && fresh(backbuffer)
      ensures this.width == width && this.height == height && defaultFont == font
      ensures fontWidth == 8 && fontHeight == 16
      ensures Shown() == Blank(width, height, 0)
      ensures forall p | 0 <= p < backbuffer.Length :: backbuffer[p] == 0
    {
      this.width, this.height := width, height;
      SpanIsProduct(height, width);
      AreaFits(width, height);
      backbuffer := new uint32[width * height];
      fontWidth, fontHeight := 8, 16;
      defaultFont := font;
      new;
      Fill(0, U32(width * height * 4) / 4, 0);
      RowsConstant(backbuffer[..], width, height, 0);
    }

    /** Store one word into `count` consecutive words */
    method Fill(from: nat, count: nat, word: uint32)
      requires from + count <= backbuffer.Length
      modifies backbuffer
      ensures forall p | 0 <= p < backbuffer.Length ::
                backbuffer[p] == if from <= p < from + count then word else old(backbuffer[p])
    {
      var n := 0;
      while n < count
        invariant n <= count
        invariant forall p | 0 <= p < backbuffer.Length ::
                    backbuffer[p] == if from <= p < from + n then word else old(backbuffer[p])
      {
        backbuffer[from + n] := word;
        n := n + 1;
      }
    }

    /** Move the `count` words from position `from` to the front, lowest first, so that an
        overlap is harmless */
    method MoveToFront(from: nat, count: nat)
      requires from + count <= backbuffer.Length
      modifies backbuffer
      ensures forall p | 0 <= p < backbuffer.Length ::
                backbuffer[p] == if p < count then old(backbuffer[from + p]) else old(backbuffer[p])
    {
      var n := 0;
      while n < count
        invariant n <= count
        invariant forall p | 0 <= p < backbuffer.Length ::
                    backbuffer[p] == if p < n then old(backbuffer[from + p]) else old(backbuffer[p])
      {
        backbuffer[n] := backbuffer[from + n];
        n := n + 1;
      }
    }

    /** Word count and byte count of a buffer */
    static lemma AreaFits(w: nat, h: nat)
      requires Span(h, w) * 4 < WORD
      ensures U32(w * h) == Span(h, w) && U32(w * h * 4) == Span(h, w) * 4
    {
      SpanIsProduct(h, w);
    }

    /** The index of column x in row y, as computed in 32 bits: inside a buffer of h rows of
        w pixels it does not wrap */
    static lemma IndexFits(x: nat, y: nat, w: nat, h: nat)
      requires x < w && y < h && Span(h, w) < WORD
      ensures U32(y * w + x) == Span(y, w) + x < Span(h, w)
    {
      SpanIsProduct(y, w);
      SpanGrows(y, h, w);
    }

    lemma PixelStored(before: seq<uint32>, after: seq<uint32>, x: uint32, y: uint32, at: nat, color: uint32)
      requires Valid() && x < width && y < height
      requires |before| == |after| == Span(height, width) && at == Span(y, width) + x < |before|
      requires after == before[at := Blend(before[at], color)]
      ensures Rows(after, width, height) == PutPixel(Rows(before, width, height), x, y, color)
    {
      RowsAt(before, width, height, y, x);
      RowsUpdate(before, width, height, y, x, Blend(before[at], color));
    }

    method DrawPixel(x: uint32, y: uint32, color: uint32)
      requires Valid()
      modifies backbuffer
      ensures Shown() == PutPixel(old(Shown()), x, y, color)
      ensures x >= width || y >= height || color < 0x100_0000 ==> backbuffer[..] == old(backbuffer[..])
      ensures x < width && y < height ==>
                forall p | 0 <= p < backbuffer.Length && p != Span(y, width) + x :: backbuffer[p] == old(backbuffer[p])
      ensures x < width && y < height && color >= 0xFF00_0000 ==>
                Span(y, width) + x < backbuffer.Length && backbuffer[Span(y, width) + x] == color
    {
      if x >= width || y >= height {
        return;
      }
      IndexFits(x, y, width, height);
      var at := U32(y * width + x);
      var alpha := Alpha(color);
      var under := backbuffer[at];
      ghost var before := backbuffer[..];
      if alpha == 0xFF {
        backbuffer[at] := color;
      } else if alpha > 0 {
        var r := Red(color);
        var g := Green(color);
        var b := Blue(color);

        var underR := Red(under);
        var underG := Green(under);
        var underB := Blue(under);

        r := Mix(r, underR, alpha);
        g := Mix(g, underG, alpha);
        b := Mix(b, underB, alpha);

        backbuffer[at] := Rgb(r, g, b);
      }
      BlendEnds(under, color);
      PixelStored(before, backbuffer[..], x, y, at, color);
    }

    /** The ink at (i, j) is the word that the 32-bit index selects */
    static lemma BitmapStep(start: Pixels, width: nat, height: nat, bits: seq<uint32>, st: Stamp,
                            w: nat, h: nat, i: nat, j: nat)
      requires Rect(start, width, height) && width <= WORD && height <= WORD
      requires |bits| == Span(h, w) && Span(h, w) * 4 < WORD && i < w < WORD && j < h < WORD
      requires st.ink == Rows(bits, w, h)
      ensures U32(j * w + i) < |bits|
      ensures CompositeBefore(start, st, i + 1, j) ==
              PutPixel(CompositeBefore(start, st, i, j), U32(st.x + i), U32(st.y + j), bits[U32(j * w + i)])
    {
      IndexFits(i, j, w, h);
      RowsAt(bits, w, h, j, i);
      CompositeStep(start, st, width, height, i, j);
    }

    method DrawBitmap(x: uint32, y: uint32, w: uint32, h: uint32, bitmap: array<uint32>)
      requires Valid()
      requires bitmap.Length == Span(h, w) && Span(h, w) * 4 < WORD && bitmap != backbuffer
      modifies backbuffer
      ensures Shown() == Composite(old(Shown()), Stamp(x, y, Rows(old(bitmap[..]), w, h)))
    {
      ghost var start := Shown();
      ghost var bits := bitmap[..];
      ghost var st := Stamp(x, y, Rows(bits, w, h));
      CompositeStarts(start, st);
      var j := 0;
      while j < h
        invariant j <= h && bitmap[..] == bits
        invariant Shown() == CompositeBefore(start, st, 0, j)
      {
        DrawBitmapRow(x, y, w, h, bitmap, j, start, st, bits);
        j := j + 1;
      }
      CompositeEnds(start, st);
    }

    /** The inner loop of `vbe_draw_bitmap`: row j of the bitmap */
    method DrawBitmapRow(x: uint32, y: uint32, w: uint32, h: uint32, bitmap: array<uint32>, j: uint32,
                         ghost start: Pixels, ghost st: Stamp, ghost bits: seq<uint32>)
      requires Valid() && Rect(start, width, height) && j < h
      requires bitmap.Length == |bits| == Span(h, w) && Span(h, w) * 4 < WORD && bitmap != backbuffer
      requires st.x == x && st.y == y && st.ink == Rows(bits, w, h) && bitmap[..] == bits
      requires Shown() == CompositeBefore(start, st, 0, j)
      modifies backbuffer
      ensures Shown() == CompositeBefore(start, st, 0, j + 1)
    {
      var i := 0;
      while i < w
        invariant i <= w && bitmap[..] == bits
        invariant Shown() == CompositeBefore(start, st, i, j)
      {
        var px := U32(x + i);
        var py := U32(y + j);
        BitmapStep(start, width, height, bits, st, w, h, i, j);
        DrawClipped(px, py, bitmap[U32(j * w + i)]);
        i := i + 1;
      }
      CompositeRow(start, st, w, j);
    }

    /** The guard of `vbe_draw_bitmap` around its pixel write */
    method DrawClipped(px: uint32, py: uint32, color: uint32)
      requires Valid()
      modifies backbuffer
      ensures Shown() == PutPixel(old(Shown()), px, py, color)
    {
      if px < width && py < height {
        DrawPixel(px, py, color);
      }
    }

    /** The ink at (i, j) is the glyph bit that the mask selects */
    static lemma GlyphStep(start: Pixels, w: nat, h: nat, st: Stamp, face: Face, fg: uint32, bg: uint32,
                           c: uint8, i: nat, j: nat)
      requires Rect(start, w, h) && w <= WORD && h <= WORD
      requires st.ink == GlyphInk(face, fg, bg, c) && i < face.w && j < face.h
      ensures CompositeBefore(start, st, i + 1, j) ==
              PutPixel(CompositeBefore(start, st, i, j), U32(st.x + i), U32(st.y + j),
                       if And(face.table[c][j], Shl(1, 7 - i)) != 0 then fg else bg)
    {
      MaskSelects(face, fg, bg, c, i, j);
      CompositeStep(start, st, w, h, i, j);
    }

    static lemma MaskSelects(face: Face, fg: uint32, bg: uint32, c: uint8, i: nat, j: nat)
      requires i < face.w && j < face.h
      ensures GlyphInk(face, fg, bg, c)[j][i] == if And(face.table[c][j], Shl(1, 7 - i)) != 0 then fg else bg
    {
      AndBit(face.table[c][j], 7 - i);
    }

    method DrawChar(c: uint8, x: uint32, y: uint32, fg: uint32, bg: uint32)
      requires Valid() && FontDrawable()
      modifies backbuffer
      ensures Shown() == Composite(old(Shown()), Stamp(x, y, GlyphInk(FontFace(), fg, bg, c)))
    {
      ghost var start := Shown();
      ghost var face := FontFace();
      ghost var st := Stamp(x, y, GlyphInk(face, fg, bg, c));
      CompositeStarts(start, st);
      var font := defaultFont[c];
      var j := 0;
      while j < fontHeight
        invariant j <= fontHeight
        invariant Shown() == CompositeBefore(start, st, 0, j)
      {
        DrawCharRow(font[j], x, y, fg, bg, j, start, st, face, c);
        j := j + 1;
      }
      CompositeEnds(start, st);
    }

    /** The inner loop of `vbe_draw_char`: row j of the glyph */
    method DrawCharRow(row: uint8, x: uint32, y: uint32, fg: uint32, bg: uint32, j: uint32,
                       ghost start: Pixels, ghost st: Stamp, ghost face: Face, ghost c: uint8)
      requires Valid() && Rect(start, width, height)
      requires st.x == x && st.y == y && st.ink == GlyphInk(face, fg, bg, c)
      requires face.w == fontWidth && j < face.h && row == face.table[c][j]
      requires Shown() == CompositeBefore(start, st, 0, j)
      modifies backbuffer
      ensures Shown() == CompositeBefore(start, st, 0, j + 1)
    {
      var i := 0;
      while i < fontWidth
        invariant i <= fontWidth
        invariant Shown() == CompositeBefore(start, st, i, j)
      {
        GlyphStep(start, width, height, st, face, fg, bg, c, i, j);
        var color := if And(row, Shl(1, 7 - i)) != 0 then fg else bg;
        DrawPixel(U32(x + i), U32(y + j), color);
        i := i + 1;
      }
      CompositeRow(start, st, fontWidth, j);
    }

    method DrawString(str: seq<uint8>, x: uint32, y: uint32, fg: uint32, bg: uint32)
      requires Valid() && FontDrawable() && Terminated(str)
      modifies backbuffer
      ensures Shown() == DrawText(old(Shown()), Chars(str), Pen(FontFace(), x, y, fg, bg))
    {
      var cursorX := x;
      var cursorY := y;
      ghost var start := Shown();
      ghost var pen := Pen(FontFace(), x, y, fg, bg);
      ghost var n := Length(str);
      ghost var done: seq<uint8> := [];
      var p := 0;
      while str[p] != NUL
        invariant p <= n && done == str[..p]
        invariant cursorX == CursorX(pen, done) && cursorY == CursorY(pen, done)
        invariant Shown() == DrawText(start, done, pen)
        decreases n - p
      {
        BeforeNul(str, p);
        ghost var x0, y0, s0 := cursorX, cursorY, Shown();
        cursorX, cursorY := DrawNext(str[p], x, cursorX, cursorY, fg, bg, pen.face);
        DrawnNext(start, done, str[p], pen, x0, y0, s0, cursorX, cursorY, Shown());
        done := done + [str[p]];
        p := p + 1;
      }
    }

    /** The loop body of `vbe_draw_string`: draw one character and move the cursor */
    method DrawNext(ch: uint8, x: uint32, cursorX: uint32, cursorY: uint32, fg: uint32, bg: uint32, ghost face: Face)
      returns (nextX: uint32, nextY: uint32)
      requires Valid() && FontDrawable() && face == FontFace()
      modifies backbuffer
      ensures nextX == if ch == NEWLINE then x else U32(cursorX + face.w)
      ensures nextY == if ch == NEWLINE then U32(cursorY + face.h) else cursorY
      ensures Shown() == if ch == NEWLINE then old(Shown())
                         else Composite(old(Shown()), Stamp(cursorX, cursorY, GlyphInk(face, fg, bg, ch)))
    {
      if ch == NEWLINE {
        return x, U32(cursorY + fontHeight);
      }
      DrawChar(ch, cursorX, cursorY, fg, bg);
      return U32(cursorX + fontWidth), cursorY;
    }

    method Clear(color: uint32)
      requires Valid()
      modifies backbuffer
      ensures Shown() == Blank(width, height, color)
      ensures forall p | 0 <= p < backbuffer.Length :: backbuffer[p] == color
      ensures forall r, c | 0 <= r < height && 0 <= c < width :: Shown()[r][c] == color
    {
      AreaFits(width, height);
      var i := 0;
      while i < U32(width * height)
        invariant i <= backbuffer.Length == U32(width * height)
        invariant forall p | 0 <= p < i :: backbuffer[p] == color
      {
        backbuffer[i] := color;
        i := i + 1;
      }
      RowsConstant(backbuffer[..], width, height, color);
    }

    /** The word positions and byte counts of `vbe_scroll` do not wrap */
    static lemma ScrollSizes(k: nat, w: nat, h: nat)
      requires k < h && Span(h, w) * 4 < WORD
      ensures Span(h, w) == Span(h - k, w) + Span(k, w)
      ensures U32(k * w) == Span(k, w)
      ensures U32((h - k) * w) == Span(h - k, w)
      ensures U32((h - k) * U32(w * 4)) == 4 * Span(h - k, w)
      ensures U32(k * U32(w * 4)) == 4 * Span(k, w)
    {
      SpanAdds(h - k, k, w);
      SpanIsProduct(k, w);
      SpanIsProduct(h - k, w);
      SpanGrows(0, h, w);
      MulAssoc(h - k, w, 4);
      MulAssoc(k, w, 4);
    }

    method Scroll(lines: uint32)
      requires Valid()
      modifies backbuffer
      ensures Shown() == Picture.Scroll(old(Shown()), width, ScrollRows(lines, fontHeight))
    {
      var lineSize := U32(width * 4);
      var scrollPixels := U32(lines * fontHeight);
      if scrollPixels >= height {
        Clear(0);
        return;
      }
      ScrollSizes(scrollPixels, width, height);
      var first := U32(scrollPixels * width);
      var kept := U32((height - scrollPixels) * lineSize) / 4;
      var tail := U32((height - scrollPixels) * width);
      var cleared := U32(scrollPixels * lineSize) / 4;
      MoveRowsUp(scrollPixels, first, kept, tail, cleared);
    }

    /** The memmove and the memset of `vbe_scroll` */
    method MoveRowsUp(ghost k: nat, first: nat, kept: nat, tail: nat, cleared: nat)
      requires Valid() && k < height && kept + first == tail + cleared == Span(height, width)
      requires first == cleared == Span(k, width) && kept == tail == Span(height - k, width)
      modifies backbuffer
      ensures Shown() == old(Shown())[k..] + Blank(width, k, 0)
    {
      ghost var before := backbuffer[..];
      MoveToFront(first, kept);
      ghost var moved := backbuffer[..];
      assert forall p | 0 <= p < kept :: moved[p] == before[first + p];
      Fill(tail, cleared, 0);
      ghost var after := backbuffer[..];
      assert forall p | 0 <= p < kept :: after[p] == moved[p];
      RowsShift(before, after, width, height, k, 0);
    }

    /** The bitmap given to `vbe_set_font` is stored but never read; the sizes are used */
    method SetFont(w: uint32, h: uint32)
      modifies this`fontWidth, this`fontHeight
      ensures fontWidth == w && fontHeight == h
    {
      fontWidth := w;
      fontHeight := h;
    }
  }
}
