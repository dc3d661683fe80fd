/** What drawing a string leaves on a picture: cursor arithmetic that wraps, one glyph
  stamp per character, and the grid of cells those stamps occupy. */
module Text {
  import opened Bits
  import opened CStrings
  import opened Grid
  import opened Pixel
  import opened Picture
  import opened Seqs

  type FontTable = t: seq<seq<uint8>> | |t| == 256 && forall c | 0 <= c < 256 :: |t[c]| == 16
    witness seq(256, _ => seq(16, _ => 0))

  /** The font table and the glyph size in use.  A glyph row is one byte and a glyph has 16
      rows, so no larger size can be drawn. */
  datatype RawFace = Face(table: FontTable, w: nat, h: nat)
  type Face = f: RawFace | f.w <= 8 && f.h <= 16
    witness Face(seq(256, _ => seq(16, _ => 0)), 8, 16)

  datatype Pen = Pen(face: Face, x: uint32, y: uint32, fg: uint32, bg: uint32)

  /** Bit 7 of a glyph row is its leftmost pixel */
  predicate GlyphBit(row: uint8, i: nat)
    requires i < 8
  {
    Shr(row, 7 - i) % 2 == 1
  }

  function GlyphPixel(face: Face, fg: uint32, bg: uint32, ch: uint8, i: nat, j: nat): uint32
    requires i < face.w && j < face.h
  {
    if GlyphBit(face.table[ch][j], i) then fg else bg
  }

  function GlyphInk(face: Face, fg: uint32, bg: uint32, ch: uint8): (ink: Pixels)
    ensures |ink| == face.h && forall j | 0 <= j < |ink| :: |ink[j]| == face.w
  {
    seq(face.h, j requires 0 <= j < face.h =>
      seq(face.w, i requires 0 <= i < face.w => GlyphPixel(face, fg, bg, ch, i, j)))
  }

  // ----- the string as the loop meets it -----

  /** The cursor after a text */
  function CursorX(pen: Pen, t: seq<uint8>): uint32 {
    if t == [] || t[|t| - 1] == NEWLINE then pen.x
    else U32(CursorX(pen, t[..|t| - 1]) + pen.face.w)
  }

  function CursorY(pen: Pen, t: seq<uint8>): uint32 {
    if t == [] then pen.y
    else if t[|t| - 1] == NEWLINE then U32(CursorY(pen, t[..|t| - 1]) + pen.face.h)
    else CursorY(pen, t[..|t| - 1])
  }

  /** What one character lays at the cursor: its glyph, or nothing for a newline */
  function CharStamp(pen: Pen, before: seq<uint8>, ch: uint8): Stamp {
    Stamp(CursorX(pen, before), CursorY(pen, before),
          if ch == NEWLINE then [] else GlyphInk(pen.face, pen.fg, pen.bg, ch))
  }

  function Cells(pen: Pen, t: seq<uint8>): (cells: seq<Stamp>)
    ensures |cells| == |t|
  {
    if t == [] then []
    else Cells(pen, t[..|t| - 1]) + [CharStamp(pen, t[..|t| - 1], t[|t| - 1])]
  }

  function DrawText(s: Pixels, t: seq<uint8>, pen: Pen): (s': Pixels)
    ensures |s'| == |s| && forall r | 0 <= r < |s| :: |s'[r]| == |s[r]|
  {
    Lay(s, Cells(pen, t))
  }

  lemma CellsNext(pen: Pen, before: seq<uint8>, ch: uint8)
    ensures Cells(pen, before + [ch]) == Cells(pen, before) + [CharStamp(pen, before, ch)]
  {
    assert (before + [ch])[..|before|] == before;
  }

  lemma DrawTextNext(s: Pixels, before: seq<uint8>, ch: uint8, pen: Pen)
    ensures DrawText(s, before + [ch], pen) ==
            if ch == NEWLINE then DrawText(s, before, pen)
            else Composite(DrawText(s, before, pen), CharStamp(pen, before, ch))
  {
    CellsNext(pen, before, ch);
    LayNext(s, Cells(pen, before), CharStamp(pen, before, ch));
    if ch == NEWLINE {
      NoInk(DrawText(s, before, pen), CharStamp(pen, before, ch));
    }
  }

  /** One iteration of the loop over the string */
  lemma NextChar(s: Pixels, before: seq<uint8>, ch: uint8, pen: Pen)
    ensures CursorX(pen, before + [ch]) == if ch == NEWLINE then pen.x else U32(CursorX(pen, before) + pen.face.w)
    ensures CursorY(pen, before + [ch]) ==
            if ch == NEWLINE then U32(CursorY(pen, before) + pen.face.h) else CursorY(pen, before)
    ensures DrawText(s, before + [ch], pen) ==
            if ch == NEWLINE then DrawText(s, before, pen)
            else Composite(DrawText(s, before, pen),
                           Stamp(CursorX(pen, before), CursorY(pen, before), GlyphInk(pen.face, pen.fg, pen.bg, ch)))
  {
    DrawTextNext(s, before, ch, pen);
    CursorNext(pen, before, ch);
  }

  /** So the loop keeps its cursor and its picture in step with the text it has passed */
  lemma DrawnNext(start: Pixels, before: seq<uint8>, ch: uint8, pen: Pen,
                  x: uint32, y: uint32, s: Pixels, x': uint32, y': uint32, s': Pixels)
    requires x == CursorX(pen, before) && y == CursorY(pen, before) && s == DrawText(start, before, pen)
    requires x' == if ch == NEWLINE then pen.x else U32(x + pen.face.w)
    requires y' == if ch == NEWLINE then U32(y + pen.face.h) else y
    requires s' == if ch == NEWLINE then s else Composite(s, Stamp(x, y, GlyphInk(pen.face, pen.fg, pen.bg, ch)))
    ensures x' == CursorX(pen, before + [ch]) && y' == CursorY(pen, before + [ch])
    ensures s' == DrawText(start, before + [ch], pen)
  {
    NextChar(start, before, ch, pen);
  }

  lemma CursorNext(pen: Pen, before: seq<uint8>, ch: uint8)
    ensures CursorX(pen, before + [ch]) == if ch == NEWLINE then pen.x else U32(CursorX(pen, before) + pen.face.w)
    ensures CursorY(pen, before + [ch]) ==
            if ch == NEWLINE then U32(CursorY(pen, before) + pen.face.h) else CursorY(pen, before)
  {
    assert (before + [ch])[..|before|] == before;
  }

  // ----- the grid -----

  /** Newlines in a text */
  function Line(t: seq<uint8>): nat {
    if t == [] then 0
    else Line(t[..|t| - 1]) + if t[|t| - 1] == NEWLINE then 1 else 0
  }

  /** The coordinate of grid line n */
  function Corner(base: uint32, n: nat, size: nat): uint32 {
    U32(base + Span(n, size))
  }

  lemma CornerFormula(base: uint32, n: nat, size: nat)
    ensures Corner(base, n, size) == U32(base + n * size)
  {
    SpanIsProduct(n, size);
  }

  lemma NextCorner(base: uint32, n: nat, size: nat)
    ensures U32(Corner(base, n, size) + size) == Corner(base, n + 1, size)
    ensures Corner(base, 0, size) == base
  {
    WrapInside(size, base + Span(n, size));
  }

  lemma {:induction false} CursorOnGrid(pen: Pen, t: seq<uint8>)
    ensures CursorX(pen, t) == Corner(pen.x, Column(0, t), pen.face.w)
    ensures CursorY(pen, t) == Corner(pen.y, Line(t), pen.face.h)
  {
    NextCorner(pen.x, 0, pen.face.w);
    NextCorner(pen.y, 0, pen.face.h);
    if t != [] {
      var before := t[..|t| - 1];
      CursorOnGrid(pen, before);
      NextCorner(pen.x, Column(0, before), pen.face.w);
      NextCorner(pen.y, Line(before), pen.face.h);
    }
  }

  /** Each character's cell is placed by its line and column alone */
  lemma {:induction false} CellOnGrid(pen: Pen, t: seq<uint8>, n: nat)
    requires n < |t|
    ensures Cells(pen, t)[n] ==
            Stamp(Corner(pen.x, Column(0, t[..n]), pen.face.w), Corner(pen.y, Line(t[..n]), pen.face.h),
                  if t[n] == NEWLINE then [] else GlyphInk(pen.face, pen.fg, pen.bg, t[n]))
  {
    if n == |t| - 1 {
      CursorOnGrid(pen, t[..n]);
    } else {
      var before := t[..|t| - 1];
      CellOnGrid(pen, before, n);
      assert before[..n] == t[..n];
    }
  }

  predicate InCell(pen: Pen, t: seq<uint8>, n: int, c: int, r: int) {
    0 <= n < |t| && Cells(pen, t)[n].Covers(c, r)
  }

  /** The cell of a character is one glyph wide and high and shows the bits of the glyph;
      a newline has no cell */
  lemma CellShows(pen: Pen, t: seq<uint8>, n: nat, c: int, r: int)
    requires n < |t|
    ensures var cell := Cells(pen, t)[n];
            && (InCell(pen, t, n, c, r) <==> t[n] != NEWLINE && cell.I(c) < pen.face.w && cell.J(r) < pen.face.h)
            && (InCell(pen, t, n, c, r) ==>
                  cell.At(c, r) == GlyphPixel(pen.face, pen.fg, pen.bg, t[n], cell.I(c), cell.J(r)))
  {
    CellOnGrid(pen, t, n);
    if t[n] != NEWLINE {
      InkOfStamp(pen, Cells(pen, t)[n], t[n], c, r);
    }
  }

  lemma InkOfStamp(pen: Pen, st: Stamp, ch: uint8, c: int, r: int)
    requires st.ink == GlyphInk(pen.face, pen.fg, pen.bg, ch)
    ensures st.Covers(c, r) <==> st.I(c) < pen.face.w && st.J(r) < pen.face.h
    ensures st.Covers(c, r) ==> st.At(c, r) == GlyphPixel(pen.face, pen.fg, pen.bg, ch, st.I(c), st.J(r))
  {
  }

  /** The cells of a text go at most once around the 2^32 by 2^32 plane.  Every text whose
      cells end before coordinate 2^32 fits, and so does every text when the plane merely
      wraps under it. */
  ghost predicate FitsPlane(face: Face, t: seq<uint8>) {
    forall n | 0 <= n < |t| && t[n] != NEWLINE ::
      Span(Column(0, t[..n]) + 1, face.w) <= WORD && Span(Line(t[..n]) + 1, face.h) <= WORD
  }

  lemma {:induction false} LineAndColumnGrow(t: seq<uint8>, n: nat, m: nat)
    requires n <= m <= |t|
    ensures Line(t[..n]) <= Line(t[..m])
    ensures Line(t[..n]) == Line(t[..m]) ==> Column(0, t[..m]) == Column(0, t[..n]) + (m - n)
  {
    if n < m {
      LineAndColumnGrow(t, n, m - 1);
      assert t[..m][..m - 1] == t[..m - 1];
    }
  }

  /** Two grid cells with a common coordinate are the same cell, if the grid goes at most
      once around the plane */
  lemma GridIntervals(at: int, base: uint32, size: nat, a: nat, b: nat)
    requires Span(a + 1, size) <= WORD && Span(b + 1, size) <= WORD
    requires U32(at - Corner(base, a, size)) < size && U32(at - Corner(base, b, size)) < size
    ensures a == b
  {
    FromCorner(at, base, size, a);
    FromCorner(at, base, size, b);
    if a < b {
      SpanGrows(a, b, size);
    } else if b < a {
      SpanGrows(b, a, size);
    }
  }

  lemma FromCorner(at: int, base: uint32, size: nat, n: nat)
    requires Span(n + 1, size) <= WORD && U32(at - Corner(base, n, size)) < size
    ensures U32(at - base) == Span(n, size) + U32(at - Corner(base, n, size))
  {
    PastCorner(at, base, Span(n, size), size);
  }

  lemma PastCorner(at: int, base: uint32, p: nat, size: nat)
    requires p + size <= WORD && U32(at - U32(base + p)) < size
    ensures U32(at - base) == p + U32(at - U32(base + p))
  {
    WrapInside(at, base + p);
    WrapInside(p, at - (base + p));
  }

  /** No position lies in two cells */
  lemma CellsDisjoint(pen: Pen, t: seq<uint8>, n: nat, m: nat, c: int, r: int)
    requires FitsPlane(pen.face, t) && n < m < |t|
    ensures !(InCell(pen, t, n, c, r) && InCell(pen, t, m, c, r))
  {
    CellShows(pen, t, n, c, r);
    CellShows(pen, t, m, c, r);
    CellOnGrid(pen, t, n);
    CellOnGrid(pen, t, m);
    LineAndColumnGrow(t, n, m);
    if InCell(pen, t, n, c, r) && InCell(pen, t, m, c, r) {
      SameGridPlace(pen, Cells(pen, t)[n], Cells(pen, t)[m],
                    Column(0, t[..n]), Line(t[..n]), Column(0, t[..m]), Line(t[..m]), c, r);
    }
  }

  lemma SameGridPlace(pen: Pen, a: Stamp, b: Stamp, ca: nat, la: nat, cb: nat, lb: nat, c: int, r: int)
    requires a.x == Corner(pen.x, ca, pen.face.w) && a.y == Corner(pen.y, la, pen.face.h)
    requires b.x == Corner(pen.x, cb, pen.face.w) && b.y == Corner(pen.y, lb, pen.face.h)
    requires Span(ca + 1, pen.face.w) <= WORD && Span(cb + 1, pen.face.w) <= WORD
    requires Span(la + 1, pen.face.h) <= WORD && Span(lb + 1, pen.face.h) <= WORD
    requires a.I(c) < pen.face.w && b.I(c) < pen.face.w && a.J(r) < pen.face.h && b.J(r) < pen.face.h
    ensures ca == cb && la == lb
  {
    GridIntervals(c, pen.x, pen.face.w, ca, cb);
    GridIntervals(r, pen.y, pen.face.h, la, lb);
  }

  /** Closed form of a drawn string, for any colours and any origin: a pixel in the cell of
      character n is its old value blended once with the glyph's ink, and a pixel in no cell
      keeps its value */
  lemma TextClosedForm(s: Pixels, t: seq<uint8>, pen: Pen, c: nat, r: nat)
    requires FitsPlane(pen.face, t) && r < |s| && c < |s[r]|
    ensures forall n | InCell(pen, t, n, c, r) ::
              DrawText(s, t, pen)[r][c] == Blend(s[r][c], Cells(pen, t)[n].At(c, r))
    ensures (forall n :: !InCell(pen, t, n, c, r)) ==> DrawText(s, t, pen)[r][c] == s[r][c]
  {
    var cells := Cells(pen, t);
    forall n, m | 0 <= n < m < |cells|
      ensures !(cells[n].Covers(c, r) && cells[m].Covers(c, r))
    {
      CellsDisjoint(pen, t, n, m, c, r);
    }
    LaidOnce(s, cells, c, r);
    assert forall n | 0 <= n < |cells| :: cells[n].Covers(c, r) <==> InCell(pen, t, n, c, r);
  }

  /** With opaque colours the cell shows the glyph in foreground and background colour */
  lemma OpaqueTextClosedForm(s: Pixels, t: seq<uint8>, pen: Pen, n: nat, c: nat, r: nat)
    requires FitsPlane(pen.face, t) && r < |s| && c < |s[r]|
    requires Alpha(pen.fg) == 0xFF && Alpha(pen.bg) == 0xFF
    requires InCell(pen, t, n, c, r)
    ensures var i, j := Cells(pen, t)[n].I(c), Cells(pen, t)[n].J(r);
            && i < pen.face.w && j < pen.face.h
            && DrawText(s, t, pen)[r][c] == if GlyphBit(pen.face.table[t[n]][j], i) then pen.fg else pen.bg
  {
    CellShows(pen, t, n, c, r);
    TextClosedForm(s, t, pen, c, r);
  }

  /** Every string whose cells stay below coordinate 2^32 fits the plane */
  lemma UnwrappedTextFits(pen: Pen, t: seq<uint8>)
    requires forall n | 0 <= n < |t| && t[n] != NEWLINE ::
               pen.x + (Column(0, t[..n]) + 1) * pen.face.w <= WORD && pen.y + (Line(t[..n]) + 1) * pen.face.h <= WORD
    ensures FitsPlane(pen.face, t)
  {
    forall n | 0 <= n < |t| && t[n] != NEWLINE
      ensures Span(Column(0, t[..n]) + 1, pen.face.w) <= WORD && Span(Line(t[..n]) + 1, pen.face.h) <= WORD
    {
      SpanIsProduct(Column(0, t[..n]) + 1, pen.face.w);
      SpanIsProduct(Line(t[..n]) + 1, pen.face.h);
    }
  }

  /** So does every string of at most 2^28 characters, wherever it is drawn */
  lemma ShortTextFits(face: Face, t: seq<uint8>)
    requires |t| <= 0x1000_0000
    ensures FitsPlane(face, t)
  {
    forall n | 0 <= n < |t| && t[n] != NEWLINE
      ensures Span(Column(0, t[..n]) + 1, face.w) <= WORD && Span(Line(t[..n]) + 1, face.h) <= WORD
    {
      CountsBounded(t[..n]);
      SpanBounded(Column(0, t[..n]) + 1, face.w);
      SpanBounded(Line(t[..n]) + 1, face.h);
    }
  }

  lemma {:induction false} SpanBounded(n: nat, size: nat)
    requires size <= 16
    ensures Span(n, size) <= 16 * n
  {
    if n > 0 {
      SpanBounded(n - 1, size);
    }
  }

  lemma {:induction false} CountsBounded(t: seq<uint8>)
    ensures Column(0, t) <= |t| && Line(t) <= |t|
  {
    if t != [] {
      CountsBounded(t[..|t| - 1]);
    }
  }

  // ----- laws -----

  /** The pen for what follows the next line break after a text */
  function PenBelow(pen: Pen, t: seq<uint8>): Pen {
    pen.(y := Corner(pen.y, Line(t) + 1, pen.face.h))
  }

  lemma PenBelowFormula(pen: Pen, t: seq<uint8>)
    ensures PenBelow(pen, t).y == U32(pen.y + (Line(t) + 1) * pen.face.h)
    ensures PenBelow(pen, t).x == pen.x
  {
    CornerFormula(pen.y, Line(t) + 1, pen.face.h);
  }

  lemma {:induction false} CursorAfterBreak(s1: seq<uint8>, s2: seq<uint8>, pen: Pen)
    ensures CursorX(pen, s1 + [NEWLINE] + s2) == CursorX(PenBelow(pen, s1), s2)
    ensures CursorY(pen, s1 + [NEWLINE] + s2) == CursorY(PenBelow(pen, s1), s2)
  {
    var t := s1 + [NEWLINE] + s2;
    if s2 == [] {
      assert t[..|t| - 1] == s1;
      CursorOnGrid(pen, s1);
      NextCorner(pen.y, Line(s1), pen.face.h);
    } else {
      assert t[..|t| - 1] == s1 + [NEWLINE] + s2[..|s2| - 1];
      CursorAfterBreak(s1, s2[..|s2| - 1], pen);
    }
  }

  lemma {:induction false} CellsSplit(pen: Pen, s1: seq<uint8>, s2: seq<uint8>)
    ensures Cells(pen, s1 + [NEWLINE] + s2) == Cells(pen, s1 + [NEWLINE]) + Cells(PenBelow(pen, s1), s2)
  {
    if s2 == [] {
      assert s1 + [NEWLINE] + s2 == s1 + [NEWLINE];
    } else {
      var before, ch := s2[..|s2| - 1], s2[|s2| - 1];
      var top, below := s1 + [NEWLINE], PenBelow(pen, s1);
      Unsnoc(s2);
      Regroup(top, before, [ch]);
      CellsSplit(pen, s1, before);
      CellsNext(pen, top + before, ch);
      StampAfterBreak(pen, s1, before, ch);
      CellsNext(below, before, ch);
      Regroup(Cells(pen, top), Cells(below, before), [CharStamp(below, before, ch)]);
    }
  }

  lemma StampAfterBreak(pen: Pen, s1: seq<uint8>, before: seq<uint8>, ch: uint8)
    ensures CharStamp(pen, s1 + [NEWLINE] + before, ch) == CharStamp(PenBelow(pen, s1), before, ch)
  {
    CursorAfterBreak(s1, before, pen);
  }

  /** Drawing a text with a line break is drawing the first part, then the second part
      at the left margin, lower by one font height for every newline so far */
  lemma TextSplits(s: Pixels, s1: seq<uint8>, s2: seq<uint8>, pen: Pen)
    ensures DrawText(s, s1 + [NEWLINE] + s2, pen) == DrawText(DrawText(s, s1, pen), s2, PenBelow(pen, s1))
  {
    CellsSplit(pen, s1, s2);
    LayAppend(s, Cells(pen, s1 + [NEWLINE]), Cells(PenBelow(pen, s1), s2));
    DrawTextNext(s, s1, NEWLINE, pen);
  }

  /** Redrawing an opaque text in place changes nothing, even where its cells overlap */
  lemma OpaqueRedraw(s: Pixels, t: seq<uint8>, pen: Pen)
    requires Alpha(pen.fg) == 0xFF && Alpha(pen.bg) == 0xFF
    ensures DrawText(DrawText(s, t, pen), t, pen) == DrawText(s, t, pen)
  {
    forall n | 0 <= n < |t|
      ensures OpaqueStamp(Cells(pen, t)[n])
    {
      CellOnGrid(pen, t, n);
    }
    OpaqueLayIdempotent(s, Cells(pen, t));
  }

  /** The pen k rows higher, on the plane that wraps */
  function PenAbove(pen: Pen, k: nat): Pen {
    pen.(y := U32(pen.y - k))
  }

  lemma {:induction false} LiftedCursor(t: seq<uint8>, pen: Pen, k: nat)
    ensures CursorX(PenAbove(pen, k), t) == CursorX(pen, t)
    ensures CursorY(PenAbove(pen, k), t) == U32(CursorY(pen, t) - k)
  {
    if t != [] {
      LiftedCursor(t[..|t| - 1], pen, k);
      LiftThenStep(CursorY(pen, t[..|t| - 1]), pen.face.h, k);
    }
  }

  lemma LiftThenStep(y: uint32, step: nat, k: nat)
    ensures U32(U32(y - k) + step) == U32(U32(y + step) - k)
  {
    var up := 0 - k;
    WrapInside(step, y + up);
    WrapInside(up, y + step);
  }

  lemma {:induction false} LiftedCells(t: seq<uint8>, pen: Pen, k: nat)
    ensures Cells(PenAbove(pen, k), t) == LiftAll(Cells(pen, t), k)
  {
    if t != [] {
      var before, ch := t[..|t| - 1], t[|t| - 1];
      Unsnoc(t);
      LiftedCells(before, pen, k);
      LiftedCharStamp(before, ch, pen, k);
      CellsNext(pen, before, ch);
      CellsNext(PenAbove(pen, k), before, ch);
      LiftAllNext(Cells(pen, before), CharStamp(pen, before, ch), k);
    }
  }

  lemma LiftedCharStamp(before: seq<uint8>, ch: uint8, pen: Pen, k: nat)
    ensures CharStamp(PenAbove(pen, k), before, ch) == Lift(CharStamp(pen, before, ch), k)
  {
    LiftedCursor(before, pen, k);
  }

  /** Drawing a string and then scrolling by k rows shows, on every row not blanked by the
      scroll, what scrolling first and drawing the string k rows higher shows */
  lemma ScrollCommutesWithText(s: Pixels, w: nat, h: nat, k: nat, t: seq<uint8>, pen: Pen)
    requires Rect(s, w, h)
    ensures AgreeAbove(Scroll(DrawText(s, t, pen), w, k),
                       DrawText(Scroll(s, w, k), t, PenAbove(pen, k)), h - k)
  {
    LiftedCells(t, pen, k);
    ScrollCommutesWithLay(s, w, h, k, Cells(pen, t));
  }

  // ----- the text in bytes and numbers -----

  lemma {:induction false} PlainLine(t: seq<uint8>)
    requires 10 !in t
    ensures Column(0, t) == |t| && Line(t) == 0
  {
    if t != [] {
      assert t[|t| - 1] in t;
      PlainLine(t[..|t| - 1]);
    }
  }

  lemma PlainCursor(pen: Pen, t: seq<uint8>)
    requires 10 !in t
    ensures CursorX(pen, t) == (pen.x + |t| * pen.face.w) % 0x1_0000_0000 && CursorY(pen, t) == pen.y
  {
    PlainLine(t);
    CursorOnGrid(pen, t);
    CornerFormula(pen.x, |t|, pen.face.w);
    U32IsRemainder(pen.x + |t| * pen.face.w);
  }

  /** In a line without byte 10 each character is drawn one font width to the right of the one
      before, in the row of the line */
  lemma LineAdvances(s: Pixels, line: seq<uint8>, ch: uint8, pen: Pen)
    requires 10 !in line && ch != 10
    ensures DrawText(s, [], pen) == s
    ensures DrawText(s, line + [ch], pen) ==
            Composite(DrawText(s, line, pen),
                      Stamp((pen.x + |line| * pen.face.w) % 0x1_0000_0000, pen.y,
                            GlyphInk(pen.face, pen.fg, pen.bg, ch)))
  {
    DrawTextNext(s, line, ch, pen);
    PlainCursor(pen, line);
  }

  /** Byte 10 draws nothing and continues at the left margin, one font height lower */
  lemma ByteTenBreaks(s: Pixels, line: seq<uint8>, rest: seq<uint8>, pen: Pen)
    requires 10 !in line
    ensures DrawText(s, line + [10] + rest, pen) ==
            DrawText(DrawText(s, line, pen), rest, pen.(y := (pen.y + pen.face.h) % 0x1_0000_0000))
  {
    PenOneLower(pen, line);
    TextSplits(s, line, rest, pen);
  }

  lemma PenOneLower(pen: Pen, line: seq<uint8>)
    requires 10 !in line
    ensures PenBelow(pen, line) == pen.(y := (pen.y + pen.face.h) % 0x1_0000_0000)
  {
    PlainLine(line);
    PenBelowFormula(pen, line);
    U32IsRemainder(pen.y + pen.face.h);
  }

  /** The leftmost of eight pixels is bit 7 of the glyph row, and a set bit is foreground */
  lemma GlyphPixels(face: Face, fg: uint32, bg: uint32, ch: uint8, i: nat, j: nat)
    requires i < face.w && j < face.h
    ensures GlyphInk(face, fg, bg, ch)[j][i] ==
            if face.table[ch][j] / [128, 64, 32, 16, 8, 4, 2, 1][i] % 2 == 1 then fg else bg
  {
    ShrIsQuotient(face.table[ch][j], 7 - i);
    Pow2Bits(i);
  }

  lemma Pow2Bits(i: nat)
    requires i < 8
    ensures Pow2(7 - i) == [128, 64, 32, 16, 8, 4, 2, 1][i]
  {
    assert Pow2(4) == 16;
    assert Pow2(7) == 128;
  }
}
