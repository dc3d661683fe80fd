/** The VGA text console: a cursor that wraps late, writing cells of a fixed screen. */
module Vga {
  import opened Bits
  import opened CStrings

  const WIDTH: uint32 := 80
  const HEIGHT: uint32 := 25
  const CELLS: nat := 2000
  const SPACE: uint8 := 32

  type CellGrid = seq<uint16>

  /** A column of 80 means that the line is full and the wrap is still to come */
  datatype Cursor = Cursor(row: uint32, column: uint32)

  /** Colour in the high byte, character in the low one */
  function Cell(color: uint8, ch: uint8): (cell: uint16)
    ensures cell / 0x100 == color && cell % 0x100 == ch
  {
    assert Pow2(8) == 0x100;
    OrDisjoint(color, ch, 8);
    ShlIsProduct(color, 8);
    Or(Shl(color, 8), ch)
  }

  /** Where the next character goes */
  function Place(at: Cursor): Cursor {
    if at.column >= WIDTH then Cursor(U32(at.row + 1), 0) else at
  }

  function Index(at: Cursor): uint32 {
    U32(at.row * WIDTH + at.column)
  }

  function Advance(at: Cursor, ch: uint8): Cursor {
    if ch == NEWLINE then Cursor(U32(at.row + 1), 0)
    else Cursor(Place(at).row, U32(Place(at).column + 1))
  }

  function CursorAfter(at: Cursor, t: seq<uint8>): Cursor {
    if t == [] then at else Advance(CursorAfter(at, t[..|t| - 1]), t[|t| - 1])
  }

  /** Where character n of a text goes */
  function PlaceOf(at: Cursor, t: seq<uint8>, n: nat): Cursor
    requires n < |t|
  {
    Place(CursorAfter(at, t[..n]))
  }

  function PutCell(cells: CellGrid, at: Cursor, color: uint8, ch: uint8): CellGrid {
    if Index(Place(at)) < |cells| then cells[Index(Place(at)) := Cell(color, ch)] else cells
  }

  function Write(cells: CellGrid, color: uint8, at: Cursor, t: seq<uint8>): (cells': CellGrid)
    ensures |cells'| == |cells|
  {
    if t == [] then cells
    else
      var before, ch := t[..|t| - 1], t[|t| - 1];
      if ch == NEWLINE then Write(cells, color, at, before)
      else PutCell(Write(cells, color, at, before), CursorAfter(at, before), color, ch)
  }

  /** Every character lands on the screen; the console neither scrolls nor clips */
  ghost predicate Fits(at: Cursor, t: seq<uint8>) {
    forall n | 0 <= n < |t| && t[n] != NEWLINE :: PlaceOf(at, t, n).row < HEIGHT
  }

  predicate SevenBit(t: seq<uint8>) {
    forall n | 0 <= n < |t| :: t[n] < 128
  }

  class Console {
    const buffer: array<uint16>
    var row: uint32
    var column: uint32
    var color: uint8

    ghost predicate Valid()
      reads this
    {
      buffer.Length == CELLS && column <= WIDTH
    }

    ghost function At(): Cursor
      reads this
    {
      Cursor(row, column)
    }

    /** The statics at load time, over screen memory that holds anything */
    constructor (buffer: array<uint16>)
      requires buffer.Length == CELLS
      ensures Valid() && this.buffer == buffer && At() == Cursor(0, 0) && color == 0
    {
      this.buffer := buffer;
      row, column, color := 0, 0, 0;
    }

    method SetColor(fg: uint8, bg: uint8)
      modifies this`color
      ensures color == U8(Or(fg, Shl(bg, 4)))
      ensures fg < 16 ==> color == U8(bg * 16 + fg)
    {
      ColorNibbles(fg, bg);
      color := U8(Or(fg, Shl(bg, 4)));
    }

    /** Clears the screen; the cursor stays where it is */
    method Init()
      requires Valid()
      modifies this`color, buffer
      ensures Valid() && color == 7
      ensures buffer.Length == 2000 && forall i | 0 <= i < 2000 :: buffer[i] == 0x720
    {
      SetColor(7, 0);
      var y := 0;
      while y < HEIGHT
        invariant y <= HEIGHT && color == 7
        invariant forall i | 0 <= i < y * 80 :: buffer[i] == Cell(7, SPACE)
      {
        var x := 0;
        while x < WIDTH
          invariant x <= WIDTH && color == 7
          invariant forall i | 0 <= i < y * 80 + x :: buffer[i] == Cell(7, SPACE)
        {
          buffer[y * WIDTH + x] := Cell(color, SPACE);
          x := x + 1;
        }
        y := y + 1;
      }
    }

    method WriteString(data: seq<uint8>)
      requires Valid() && Terminated(data)
      requires SevenBit(Chars(data)) && Fits(At(), Chars(data))
      modifies this`row, this`column, buffer
      ensures Valid() && At() == CursorAfter(old(At()), Chars(data))
      ensures buffer[..] == Write(old(buffer[..]), color, old(At()), Chars(data))
    {
      ghost var start, cells := At(), buffer[..];
      ghost var n := Length(data);
      ghost var done: seq<uint8> := [];
      var p := 0;
      while data[p] != NUL
        invariant p <= n && done == data[..p]
        invariant column <= WIDTH && At() == CursorAfter(start, done)
        invariant buffer[..] == Write(cells, color, start, done)
        decreases n - p
      {
        BeforeNul(data, p);
        PlaceFits(start, Chars(data), done);
        WriteNext(cells, color, start, done, data[p]);
        PutNext(data[p]);
        done := done + [data[p]];
        p := p + 1;
      }
    }

    /** The loop body of `vga_write_string` */
    method PutNext(ch: uint8)
      requires Valid() && (ch != NEWLINE ==> Place(At()).row < HEIGHT)
      modifies this`row, this`column, buffer
      ensures Valid() && At() == Advance(old(At()), ch)
      ensures buffer[..] == if ch == NEWLINE then old(buffer[..]) else PutCell(old(buffer[..]), old(At()), color, ch)
    {
      if ch == NEWLINE {
        column := 0;
        row := U32(row + 1);
        return;
      }
      if column >= WIDTH {
        column := 0;
        row := U32(row + 1);
      }
      var index := U32(row * WIDTH + column);
      buffer[index] := Cell(color, ch);
      column := column + 1;
    }
  }

  lemma ColorNibbles(fg: uint8, bg: uint8)
    ensures fg < 16 ==> Or(fg, Shl(bg, 4)) == bg * 16 + fg
  {
    assert Pow2(4) == 16;
    ShlIsProduct(bg, 4);
    if fg < 16 {
      OrDisjoint(bg, fg, 4);
      OrCommutes(fg, Shl(bg, 4));
    }
  }

  lemma {:induction false} OrCommutes(x: nat, y: nat)
    ensures Or(x, y) == Or(y, x)
  {
    if x > 0 && y > 0 {
      OrCommutes(x / 2, y / 2);
    }
  }

  lemma WriteNext(cells: CellGrid, color: uint8, at: Cursor, before: seq<uint8>, ch: uint8)
    ensures CursorAfter(at, before + [ch]) == Advance(CursorAfter(at, before), ch)
    ensures Write(cells, color, at, before + [ch]) ==
            if ch == NEWLINE then Write(cells, color, at, before)
            else PutCell(Write(cells, color, at, before), CursorAfter(at, before), color, ch)
  {
    assert (before + [ch])[..|before|] == before;
  }

  lemma PlaceFits(at: Cursor, t: seq<uint8>, before: seq<uint8>)
    requires Fits(at, t) && |before| < |t| && before == t[..|before|]
    ensures t[|before|] != NEWLINE ==> Place(CursorAfter(at, before)).row < HEIGHT
  {
    assert t[|before|] != NEWLINE ==> PlaceOf(at, t, |before|).row < HEIGHT;
  }

  // ----- the layout of a text -----

  /** The rows that a segment of n characters takes: its 80-character pieces, at least one */
  function RowsTaken(n: nat): nat {
    if n == 0 then 1 else (n + 79) / 80
  }

  /** The rows taken by the segments that newlines have ended */
  function RowsAbove(first: nat, t: seq<uint8>): nat {
    if t == [] then 0
    else
      var before := t[..|t| - 1];
      RowsAbove(first, before) + if t[|t| - 1] == NEWLINE then RowsTaken(Column(first, before)) else 0
  }

  /** The cursor in closed form, as long as the row count does not wrap at 2^32 */
  lemma {:induction false} CursorLayout(at: Cursor, t: seq<uint8>)
    requires at.column <= WIDTH && at.row + |t| < WORD
    ensures var n, above, end := Column(at.column, t), RowsAbove(at.column, t), CursorAfter(at, t);
            && end.row == at.row + above + (if n == 0 then 0 else (n - 1) / 80)
            && end.column == (if n == 0 then 0 else (n - 1) % 80 + 1)
    ensures CursorAfter(at, t).row <= at.row + |t|
  {
    if t != [] {
      var before := t[..|t| - 1];
      CursorLayout(at, before);
      FullLine(Column(at.column, before));
    }
  }

  lemma FullLine(n: nat)
    ensures n > 0 && (n - 1) % 80 + 1 == 80 ==> n / 80 == (n - 1) / 80 + 1 && n % 80 == 0
    ensures n > 0 && (n - 1) % 80 + 1 < 80 ==> n / 80 == (n - 1) / 80 && n % 80 == (n - 1) % 80 + 1
    ensures n > 0 ==> RowsTaken(n) == (n - 1) / 80 + 1
  {
  }

  /** Character number m of a segment goes to row m / 80 of that segment, column m % 80 */
  lemma GlyphLayout(at: Cursor, t: seq<uint8>, n: nat)
    requires at.column <= WIDTH && at.row + |t| < WORD && n < |t|
    ensures var m := Column(at.column, t[..n]);
            && PlaceOf(at, t, n).row == at.row + RowsAbove(at.column, t[..n]) + m / 80
            && PlaceOf(at, t, n).column == m % 80
  {
    CursorLayout(at, t[..n]);
    FullLine(Column(at.column, t[..n]));
  }

  /** Byte 10 after a line without it: no cell is written, and the cursor goes to column 0 of
      the first row below the line.  From column 0 the line takes max(1, ceil(length / 80))
      rows: 80 characters and a newline leave no blank row. */
  lemma LineTakesRows(cells: CellGrid, color: uint8, at: Cursor, line: seq<uint8>)
    requires 10 !in line && at.column <= 80 && at.row + |line| + 1 < 0x1_0000_0000
    ensures Write(cells, color, at, line + [10]) == Write(cells, color, at, line)
    ensures var n := at.column + |line|;
            CursorAfter(at, line + [10]) == Cursor(at.row + (if n == 0 then 1 else (n + 79) / 80), 0)
  {
    WriteNext(cells, color, at, line, 10);
    UnbrokenLine(at.column, line);
    CursorLayout(at, line);
    FullLine(at.column + |line|);
  }

  lemma {:induction false} UnbrokenLine(first: nat, line: seq<uint8>)
    requires 10 !in line
    ensures Column(first, line) == first + |line| && RowsAbove(first, line) == 0
  {
    if line != [] {
      assert line[|line| - 1] in line;
      UnbrokenLine(first, line[..|line| - 1]);
    }
  }

  /** The cell index the cursor stands for; a full line counts as the start of the next */
  function Linear(at: Cursor): nat {
    at.row * 80 + at.column
  }

  lemma AdvanceLinear(at: Cursor, ch: uint8)
    requires at.column <= WIDTH && at.row + 1 < WORD
    ensures Linear(Place(at)) == Linear(at) && Advance(at, ch).column <= WIDTH && Advance(at, ch).row <= at.row + 1
    ensures if ch == NEWLINE then Linear(at) <= Linear(Advance(at, ch)) else Linear(Advance(at, ch)) == Linear(at) + 1
  {
  }

  /** Later characters go to later cells */
  lemma {:induction false} LinearGrows(at: Cursor, t: seq<uint8>, n: nat)
    requires at.column <= WIDTH && at.row + |t| < WORD && n <= |t|
    ensures CursorAfter(at, t).column <= WIDTH && CursorAfter(at, t).row <= at.row + |t|
    ensures Linear(CursorAfter(at, t[..n])) <= Linear(CursorAfter(at, t))
    ensures n < |t| && t[n] != NEWLINE ==> Linear(CursorAfter(at, t[..n])) < Linear(CursorAfter(at, t))
  {
    if t != [] {
      var before := t[..|t| - 1];
      if n < |t| {
        LinearGrows(at, before, n);
        assert before[..n] == t[..n];
      } else {
        LinearGrows(at, before, n - 1);
        assert t[..n] == t;
      }
      AdvanceLinear(CursorAfter(at, before), t[|t| - 1]);
    } else {
      assert t[..n] == t;
    }
  }

  lemma DistinctPlaces(at: Cursor, t: seq<uint8>, n: nat, m: nat)
    requires at.column <= WIDTH && at.row + |t| < WORD && n < m < |t| && t[n] != NEWLINE
    ensures Linear(PlaceOf(at, t, n)) < Linear(PlaceOf(at, t, m))
  {
    LinearGrows(at, t[..m], n);
    assert t[..m][..n] == t[..n];
    LinearGrows(at, t[..n], n);
    AdvanceLinear(CursorAfter(at, t[..n]), t[n]);
    AdvanceLinear(CursorAfter(at, t[..m]), t[m]);
  }

  /** The cell that character n belongs in: character number m of its segment stands at row
      m / 80, column m % 80 of the segment, which begins below the rows of the segments before */
  function Target(at: Cursor, t: seq<uint8>, n: nat): nat
    requires n < |t|
  {
    var m := Column(at.column, t[..n]);
    (at.row + RowsAbove(at.column, t[..n]) + m / 80) * 80 + m % 80
  }

  lemma TargetIsPlace(at: Cursor, t: seq<uint8>, n: nat)
    requires at.column <= WIDTH && at.row + |t| < WORD && n < |t|
    ensures Target(at, t, n) == Linear(PlaceOf(at, t, n))
    ensures Fits(at, t) && t[n] != NEWLINE ==> Index(PlaceOf(at, t, n)) == Target(at, t, n) < CELLS
  {
    GlyphLayout(at, t, n);
  }

  lemma TargetsDistinct(at: Cursor, t: seq<uint8>, n: nat, m: nat)
    requires at.column <= WIDTH && at.row + |t| < WORD && n < m < |t| && t[n] != NEWLINE
    ensures Target(at, t, n) < Target(at, t, m)
  {
    TargetIsPlace(at, t, n);
    TargetIsPlace(at, t, m);
    DistinctPlaces(at, t, n, m);
  }

  predicate Holds(at: Cursor, t: seq<uint8>, n: int, i: nat) {
    0 <= n < |t| && t[n] != NEWLINE && Target(at, t, n) == i
  }

  lemma {:induction false} CharacterStays(cells: CellGrid, color: uint8, at: Cursor, t: seq<uint8>, k: nat, n: nat)
    requires |cells| == CELLS && at.column <= WIDTH && at.row + |t| < WORD && Fits(at, t)
    requires n < k <= |t| && t[n] != NEWLINE
    ensures Target(at, t, n) < CELLS && Write(cells, color, at, t[..k])[Target(at, t, n)] == Cell(color, t[n])
  {
    TargetIsPlace(at, t, n);
    LastPut(cells, color, at, t, k, Target(at, t, n));
    if n < k - 1 {
      TargetsDistinct(at, t, n, k - 1);
      CharacterStays(cells, color, at, t, k - 1, n);
    }
  }

  lemma {:induction false} CellUntouched(cells: CellGrid, color: uint8, at: Cursor, t: seq<uint8>, k: nat, i: nat)
    requires |cells| == CELLS && at.column <= WIDTH && at.row + |t| < WORD && Fits(at, t) && k <= |t| && i < CELLS
    requires forall n | 0 <= n < k :: !Holds(at, t, n, i)
    ensures Write(cells, color, at, t[..k])[i] == cells[i]
  {
    if k > 0 {
      LastPut(cells, color, at, t, k, i);
      CellUntouched(cells, color, at, t, k - 1, i);
    }
  }

  lemma LastPut(cells: CellGrid, color: uint8, at: Cursor, t: seq<uint8>, k: nat, i: nat)
    requires |cells| == CELLS && at.column <= WIDTH && at.row + |t| < WORD && Fits(at, t) && 0 < k <= |t| && i < CELLS
    ensures Write(cells, color, at, t[..k])[i] ==
            if Holds(at, t, k - 1, i) then Cell(color, t[k - 1]) else Write(cells, color, at, t[..k - 1])[i]
  {
    TargetIsPlace(at, t, k - 1);
    assert t[..k] == t[..k - 1] + [t[k - 1]];
    WriteNext(cells, color, at, t[..k - 1], t[k - 1]);
  }

  /** The layout theorem: after a text that fits, written from any cursor, each cell holds
      the character that belongs there, and every other cell is as it was */
  lemma TextLayout(cells: CellGrid, color: uint8, at: Cursor, t: seq<uint8>)
    requires |cells| == CELLS && at.column <= WIDTH && at.row + |t| < WORD && Fits(at, t)
    ensures forall n | 0 <= n < |t| && t[n] != NEWLINE ::
              Target(at, t, n) < CELLS && Write(cells, color, at, t)[Target(at, t, n)] == Cell(color, t[n])
    ensures forall i | 0 <= i < CELLS && (forall n | 0 <= n < |t| :: !Holds(at, t, n, i)) ::
              Write(cells, color, at, t)[i] == cells[i]
  {
    assert t[..|t|] == t;
    forall n | 0 <= n < |t| && t[n] != NEWLINE
      ensures Target(at, t, n) < CELLS && Write(cells, color, at, t)[Target(at, t, n)] == Cell(color, t[n])
    {
      CharacterStays(cells, color, at, t, |t|, n);
    }
    forall i | 0 <= i < CELLS && (forall n | 0 <= n < |t| :: !Holds(at, t, n, i))
      ensures Write(cells, color, at, t)[i] == cells[i]
    {
      CellUntouched(cells, color, at, t, |t|, i);
    }
  }

  /** Writing two texts in turn is writing their concatenation */
  lemma {:induction false} WriteAppend(cells: CellGrid, color: uint8, at: Cursor, s: seq<uint8>, t: seq<uint8>)
    ensures CursorAfter(at, s + t) == CursorAfter(CursorAfter(at, s), t)
    ensures Write(cells, color, at, s + t) == Write(Write(cells, color, at, s), color, CursorAfter(at, s), t)
  {
    if t == [] {
      assert s + t == s;
    } else {
      var before, ch := t[..|t| - 1], t[|t| - 1];
      assert t == before + [ch];
      assert s + t == (s + before) + [ch];
      WriteAppend(cells, color, at, s, before);
      WriteNext(cells, color, at, s + before, ch);
      WriteNext(Write(cells, color, at, s), color, CursorAfter(at, s), before, ch);
    }
  }

  /** What a caller can check: every character's row, by the layout, is on the screen */
  lemma FitsExactly(at: Cursor, t: seq<uint8>)
    requires at.column <= WIDTH && at.row + |t| < WORD
    ensures Fits(at, t) <==> forall n | 0 <= n < |t| && t[n] != 10 :: Target(at, t, n) < 2000
  {
    forall n | 0 <= n < |t|
      ensures PlaceOf(at, t, n).row < HEIGHT <==> Target(at, t, n) < CELLS
    {
      GlyphLayout(at, t, n);
    }
  }

  /** A text without byte 10 fills the cells from the cursor on, and no other: the character in
      the low byte, the colour in the high one */
  lemma PlainTextCells(cells: CellGrid, color: uint8, at: Cursor, line: seq<uint8>, i: nat)
    requires 10 !in line && at.column <= 80 && at.row * 80 + at.column + |line| <= 2000
    requires |cells| == 2000 && i < 2000
    ensures Fits(at, line)
    ensures var from := at.row * 80 + at.column;
            Write(cells, color, at, line)[i] ==
            if from <= i < from + |line| then color * 256 + line[i - from] else cells[i]
  {
    var from := at.row * 80 + at.column;
    forall n | 0 <= n < |line|
      ensures line[n] != NEWLINE && Target(at, line, n) == from + n
    {
      assert line[n] in line;
      PlainTarget(at, line, n);
    }
    FitsExactly(at, line);
    TextLayout(cells, color, at, line);
    if from <= i < from + |line| {
      assert Target(at, line, i - from) == i;
    } else {
      assert forall n | 0 <= n < |line| :: !Holds(at, line, n, i);
    }
  }

  lemma PlainTarget(at: Cursor, line: seq<uint8>, n: nat)
    requires 10 !in line && n < |line|
    ensures Target(at, line, n) == at.row * 80 + at.column + n
  {
    assert forall ch | ch in line[..n] :: ch in line;
    UnbrokenLine(at.column, line[..n]);
  }

  lemma PlaceInFirst(at: Cursor, s: seq<uint8>, t: seq<uint8>, n: nat)
    requires n < |s|
    ensures PlaceOf(at, s + t, n) == PlaceOf(at, s, n)
  {
    assert (s + t)[..n] == s[..n];
  }

  lemma PlaceInSecond(at: Cursor, s: seq<uint8>, t: seq<uint8>, n: nat)
    requires n < |t|
    ensures PlaceOf(at, s + t, |s| + n) == PlaceOf(CursorAfter(at, s), t, n)
  {
    assert (s + t)[..|s| + n] == s + t[..n];
    WriteAppend([], 0, at, s, t[..n]);
  }

  /** A text fits exactly when its first part fits and its second part fits from where the
      first ends, so two calls are allowed when one call with the concatenation is */
  lemma FitsAppend(at: Cursor, s: seq<uint8>, t: seq<uint8>)
    ensures Fits(at, s + t) <==> Fits(at, s) && Fits(CursorAfter(at, s), t)
  {
    forall n | 0 <= n < |s|
      ensures (s + t)[n] == s[n] && PlaceOf(at, s + t, n) == PlaceOf(at, s, n)
    {
      PlaceInFirst(at, s, t, n);
    }
    forall n | 0 <= n < |t|
      ensures (s + t)[|s| + n] == t[n] && PlaceOf(at, s + t, |s| + n) == PlaceOf(CursorAfter(at, s), t, n)
    {
      PlaceInSecond(at, s, t, n);
    }
    forall n | |s| <= n < |s + t|
      ensures (s + t)[n] == t[n - |s|] && PlaceOf(at, s + t, n) == PlaceOf(CursorAfter(at, s), t, n - |s|)
    {
      PlaceInSecond(at, s, t, n - |s|);
    }
  }

  lemma SevenBitAppend(s: seq<uint8>, t: seq<uint8>)
    ensures SevenBit(s + t) <==> SevenBit(s) && SevenBit(t)
  {
    assert forall n | 0 <= n < |s| :: (s + t)[n] == s[n];
    assert forall n | 0 <= n < |t| :: (s + t)[|s| + n] == t[n];
  }

  /** Two calls leave the console as one call with the concatenation does */
  method WriteTwice(console: Console, first: seq<uint8>, second: seq<uint8>)
    requires console.Valid() && Terminated(first) && Terminated(second)
    requires SevenBit(Chars(first) + Chars(second)) && Fits(console.At(), Chars(first) + Chars(second))
    modifies console`row, console`column, console.buffer
    ensures console.Valid()
    ensures console.At() == CursorAfter(old(console.At()), Chars(first) + Chars(second))
    ensures console.buffer[..] ==
            Write(old(console.buffer[..]), console.color, old(console.At()), Chars(first) + Chars(second))
  {
    ghost var at, cells := console.At(), console.buffer[..];
    ghost var s, t := Chars(first), Chars(second);
    FitsAppend(at, s, t);
    SevenBitAppend(s, t);
    WriteAppend(cells, console.color, at, s, t);
    console.WriteString(first);
    console.WriteString(second);
  }
}
