/** The image encoder: pixels printed as a C array of hexadecimal words, and a reader of that
  text that recovers them. */
module Encode {
  import opened Bits
  import opened Grid
  import opened Pixel
  import opened Seqs

  datatype Rgba = Rgba(r: uint8, g: uint8, b: uint8, a: uint8)

  datatype Option<+T> = None | Some(value: T)

  function Color(p: Rgba): uint32 {
    Argb(p.a, p.r, p.g, p.b)
  }

  // ----- hexadecimal -----

  const DIGITS: string := "0123456789ABCDEF"

  predicate IsHex(c: char) {
    '0' <= c <= '9' || 'A' <= c <= 'F'
  }

  function DigitValue(c: char): nat
    requires IsHex(c)
  {
    if c <= '9' then c as int - '0' as int else c as int - 'A' as int + 10
  }

  lemma DigitRoundTrip(d: nat)
    requires d < 16
    ensures IsHex(DIGITS[d]) && DigitValue(DIGITS[d]) == d && DIGITS[d] != '\n'
  {
  }

  /** The digits of n without leading zeros, at least one */
  function Hex(n: nat): string {
    if n < 16 then [DIGITS[n]] else Hex(n / 16) + [DIGITS[n % 16]]
  }

  function Zeros(k: nat): string {
    seq(k, _ => '0')
  }

  /** The format 08X: padded with zeros to eight digits, longer if the number needs more */
  function Hex08(n: nat): string {
    Zeros(if |Hex(n)| < 8 then 8 - |Hex(n)| else 0) + Hex(n)
  }

  predicate AllHex(s: string) {
    forall i | 0 <= i < |s| :: IsHex(s[i])
  }

  function HexValue(s: string): nat
    requires AllHex(s)
  {
    if s == "" then 0 else 16 * HexValue(s[..|s| - 1]) + DigitValue(s[|s| - 1])
  }

  lemma {:induction false} HexRoundTrip(n: nat)
    ensures AllHex(Hex(n)) && HexValue(Hex(n)) == n && '\n' !in Hex(n)
  {
    DigitRoundTrip(n % 16);
    if n < 16 {
      assert Hex(n)[..0] == "";
    } else {
      HexRoundTrip(n / 16);
      assert Hex(n)[..|Hex(n)| - 1] == Hex(n / 16);
    }
  }

  lemma {:induction false} HexLength(n: nat, k: nat)
    requires k > 0 && n < Pow2(4 * k)
    ensures 1 <= |Hex(n)| <= k
  {
    if n >= 16 {
      assert Pow2(4 * k) == 2 * Pow2(4 * k - 1) == 4 * Pow2(4 * k - 2) == 8 * Pow2(4 * k - 3) == 16 * Pow2(4 * (k - 1));
      HexLength(n / 16, k - 1);
    }
  }

  lemma {:induction false} LeadingZeros(k: nat, s: string)
    requires AllHex(s)
    ensures AllHex(Zeros(k) + s) && HexValue(Zeros(k) + s) == HexValue(s)
  {
    var t := Zeros(k) + s;
    if s == "" {
      if k > 0 {
        LeadingZeros(k - 1, "");
        assert t[..|t| - 1] == Zeros(k - 1) + "";
      }
    } else {
      LeadingZeros(k, s[..|s| - 1]);
      assert t[..|t| - 1] == Zeros(k) + s[..|s| - 1];
    }
  }

  /** A 32-bit word is printed as exactly eight digits that determine it */
  lemma WordRoundTrip(n: uint32)
    ensures |Hex08(n)| == 8 && AllHex(Hex08(n)) && HexValue(Hex08(n)) == n && '\n' !in Hex08(n)
  {
    Pow2Values();
    assert Pow2(32) == 2 * Pow2(31) == 4 * Pow2(30) == 8 * Pow2(29) == 16 * Pow2(28);
    HexLength(n, 8);
    HexRoundTrip(n);
    LeadingZeros(8 - |Hex(n)|, Hex(n));
  }

  /** Digit k of the eight is the hexadecimal digit of its weight */
  lemma WordDigits(n: uint32, k: nat)
    requires k < 8
    ensures |Hex08(n)| == 8
    ensures Hex08(n)[k] ==
            "0123456789ABCDEF"[n / [0x1000_0000, 0x100_0000, 0x10_0000, 0x1_0000, 0x1000, 0x100, 16, 1][k] % 16]
  {
    var s := Hex08(n);
    WordRoundTrip(n);
    DigitAt(s, k);
    DigitOf(s[k]);
    ShrIsQuotient(n, 4 * (7 - k));
    Pow16Values(k);
  }

  lemma DigitOf(c: char)
    requires IsHex(c)
    ensures DigitValue(c) < 16 && "0123456789ABCDEF"[DigitValue(c)] == c
  {
  }

  lemma {:induction false} DigitAt(s: string, k: nat)
    requires AllHex(s) && k < |s|
    ensures DigitValue(s[k]) == Shr(HexValue(s), 4 * (|s| - 1 - k)) % 16
  {
    var before, last := s[..|s| - 1], s[|s| - 1];
    assert IsHex(last);
    if k < |s| - 1 {
      DigitAt(before, k);
      var v, m := HexValue(s), 4 * (|s| - 1 - k);
      assert v / 2 / 2 / 2 / 2 == HexValue(before);
      assert Shr(v, m) == Shr(v / 2, m - 1) == Shr(v / 2 / 2, m - 2) == Shr(v / 2 / 2 / 2, m - 3);
    }
  }

  lemma Pow16Values(k: nat)
    requires k < 8
    ensures Pow2(4 * (7 - k)) == [0x1000_0000, 0x100_0000, 0x10_0000, 0x1_0000, 0x1000, 0x100, 16, 1][k]
  {
    Pow2Values();
    assert Pow2(4) == 16;
    assert Pow2(12) == 2 * Pow2(11) == 4 * Pow2(10) == 8 * Pow2(9) == 16 * Pow2(8);
    assert Pow2(20) == 2 * Pow2(19) == 4 * Pow2(18) == 8 * Pow2(17) == 16 * Pow2(16);
  }

  // ----- the printed array -----

  function Token(p: Rgba): string {
    "0x" + Hex08(Color(p)) + ", "
  }

  function Tokens(row: seq<Rgba>): string {
    if row == [] then "" else Tokens(row[..|row| - 1]) + Token(row[|row| - 1])
  }

  function RowText(row: seq<Rgba>): string {
    "    " + Tokens(row) + "\n"
  }

  function Body(rows: seq<seq<Rgba>>): string {
    if rows == [] then "" else Body(rows[..|rows| - 1]) + RowText(rows[|rows| - 1])
  }

  /** The loop over the rows */
  method PrintBody(pixels: seq<Rgba>, width: nat, height: nat) returns (text: string)
    requires |pixels| == Span(height, width)
    ensures text == Body(Rows(pixels, width, height))
  {
    ghost var rows := Rows(pixels, width, height);
    text := "";
    var y := 0;
    while y < height
      invariant y <= height
      invariant text == Body(rows[..y])
    {
      BodyNext(rows, y);
      text := PrintRow(pixels, width, height, y, text);
      y := y + 1;
    }
    assert rows[..height] == rows;
  }

  /** The loop over the pixels of row y, with the indentation before and the newline after */
  method PrintRow(pixels: seq<Rgba>, width: nat, height: nat, y: nat, before: string) returns (text: string)
    requires |pixels| == Span(height, width) && y < height
    ensures text == before + RowText(Rows(pixels, width, height)[y])
  {
    ghost var row := Rows(pixels, width, height)[y];
    ghost var printed := "";
    text := before + "    ";
    var x := 0;
    while x < width
      invariant x <= width
      invariant printed == Tokens(row[..x]) && text == before + ("    " + printed)
    {
      PixelAt(pixels, width, height, x, y);
      TokensNext(row, x);
      var p := pixels[y * width + x];
      text := text + ("0x" + Hex08(Color(p)) + ", ");
      Regroup("    ", printed, Token(p));
      Regroup(before, "    " + printed, Token(p));
      printed := printed + Token(p);
      x := x + 1;
    }
    assert row[..width] == row;
    text := text + "\n";
    Regroup(before, "    " + printed, "\n");
  }

  lemma TokensNext(row: seq<Rgba>, x: nat)
    requires x < |row|
    ensures Tokens(row[..x + 1]) == Tokens(row[..x]) + Token(row[x])
  {
    assert row[..x + 1][..x] == row[..x];
  }

  lemma BodyNext(rows: seq<seq<Rgba>>, y: nat)
    requires y < |rows|
    ensures Body(rows[..y + 1]) == Body(rows[..y]) + RowText(rows[y])
  {
    assert rows[..y + 1][..y] == rows[..y];
  }

  lemma PixelAt(pixels: seq<Rgba>, width: nat, height: nat, x: nat, y: nat)
    requires |pixels| == Span(height, width) && x < width && y < height
    ensures 0 <= y * width + x < |pixels| && pixels[y * width + x] == Rows(pixels, width, height)[y][x]
  {
    SpanIsProduct(y, width);
    RowsAt(pixels, width, height, y, x);
  }

  /** A row of the array: four spaces, twelve characters for each pixel, in order, and a newline */
  lemma RowShape(row: seq<Rgba>, n: nat)
    ensures |RowText(row)| == 4 + 12 * |row| + 1
    ensures RowText(row)[..4] == "    " && RowText(row)[4 + 12 * |row|] == '\n'
    ensures n < |row| ==> RowText(row)[4 + 12 * n..4 + 12 * n + 12] == "0x" + Hex08(Color(row[n])) + ", "
  {
    TokensLength(row);
    if n < |row| {
      TokenAt(row, n);
      assert RowText(row)[4 + 12 * n..4 + 12 * n + 12] == Tokens(row)[12 * n..12 * n + 12];
    }
  }

  lemma {:induction false} TokensLength(row: seq<Rgba>)
    ensures |Tokens(row)| == 12 * |row|
  {
    if row != [] {
      TokensLength(row[..|row| - 1]);
      WordRoundTrip(Color(row[|row| - 1]));
    }
  }

  lemma {:induction false} TokenAt(row: seq<Rgba>, n: nat)
    requires n < |row|
    ensures |Tokens(row)| == 12 * |row| && Tokens(row)[12 * n..12 * n + 12] == Token(row[n])
  {
    var before := row[..|row| - 1];
    TokensLength(row);
    TokensLength(before);
    if n < |row| - 1 {
      TokenAt(before, n);
      assert Tokens(row)[12 * n..12 * n + 12] == Tokens(before)[12 * n..12 * n + 12];
    } else {
      assert Tokens(row)[12 * n..12 * n + 12] == Token(row[n]);
    }
  }

  /** The body is the rows back to back: row y takes the characters from y times the row length on */
  lemma BodyShape(rows: seq<seq<Rgba>>, width: nat, y: nat)
    requires y < |rows| && forall r | 0 <= r < |rows| :: |rows[r]| == width
    ensures |Body(rows)| == Span(|rows|, 12 * width + 5)
    ensures Span(y, 12 * width + 5) + 12 * width + 5 <= |Body(rows)|
    ensures Body(rows)[Span(y, 12 * width + 5)..][..12 * width + 5] == RowText(rows[y])
  {
    forall r | 0 <= r < |rows|
      ensures |RowText(rows[r])| == 12 * width + 5
    {
      RowShape(rows[r], 0);
    }
    BodyLength(rows, 12 * width + 5);
    RowInBody(rows, 12 * width + 5, y);
  }

  lemma {:induction false} BodyLength(rows: seq<seq<Rgba>>, size: nat)
    requires forall r | 0 <= r < |rows| :: |RowText(rows[r])| == size
    ensures |Body(rows)| == Span(|rows|, size)
  {
    if rows != [] {
      var before, row := rows[..|rows| - 1], rows[|rows| - 1];
      BodyLength(before, size);
      LengthAdds(Body(before), RowText(row));
    }
  }

  lemma {:induction false} RowInBody(rows: seq<seq<Rgba>>, size: nat, y: nat)
    requires y < |rows| && forall r | 0 <= r < |rows| :: |RowText(rows[r])| == size
    ensures Span(y, size) + size <= |Body(rows)| && Body(rows)[Span(y, size)..][..size] == RowText(rows[y])
  {
    var before, row := rows[..|rows| - 1], rows[|rows| - 1];
    BodyLength(before, size);
    if y < |before| {
      RowInBody(before, size, y);
      SliceOfFirst(Body(before), RowText(row), Span(y, size), size);
    } else {
      assert (Body(before) + RowText(row))[|Body(before)|..] == RowText(row);
      assert RowText(row)[..size] == RowText(row);
    }
  }

  lemma LengthAdds(s: string, t: string)
    ensures |s + t| == |s| + |t|
  {
  }

  lemma SliceOfFirst(s: string, t: string, from: nat, size: nat)
    requires from + size <= |s|
    ensures (s + t)[from..][..size] == s[from..][..size]
  {
  }

  // ----- reading the array back -----

  predicate IsSpace(c: char) {
    c == ' ' || c == '\n'
  }

  /** A reader of eight-digit hexadecimal tokens, each followed by a comma, between blanks */
  function Decode(text: string): Option<seq<uint32>> {
    if text == "" then Some([])
    else if IsSpace(text[0]) then Decode(text[1..])
    else if |text| < 11 || text[..2] != "0x" || !AllHex(text[2..10]) || text[10] != ',' then None
    else
      EightDigits(text[2..10]);
      match Decode(text[11..])
      case None => None
      case Some(rest) => Some([HexValue(text[2..10])] + rest)
  }

  lemma EightDigits(s: string)
    requires |s| == 8 && AllHex(s)
    ensures HexValue(s) < 0x1_0000_0000
  {
    HexValueBound(s);
    Pow2Values();
    assert Pow2(32) == 2 * Pow2(31) == 4 * Pow2(30) == 8 * Pow2(29) == 16 * Pow2(28);
  }

  lemma {:induction false} HexValueBound(s: string)
    requires AllHex(s)
    ensures HexValue(s) < Pow2(4 * |s|)
  {
    if s != "" {
      var k := 4 * |s|;
      HexValueBound(s[..|s| - 1]);
      assert Pow2(k) == 2 * Pow2(k - 1) == 4 * Pow2(k - 2) == 8 * Pow2(k - 3) == 16 * Pow2(k - 4);
    }
  }

  function Colors(row: seq<Rgba>): (cs: seq<uint32>)
    ensures |cs| == |row|
  {
    seq(|row|, i requires 0 <= i < |row| => Color(row[i]))
  }

  lemma ColorsAppend(a: seq<Rgba>, b: seq<Rgba>)
    ensures Colors(a + b) == Colors(a) + Colors(b)
  {
  }

  lemma TokenShape(digits: string, rest: string)
    requires |digits| == 8
    ensures var text := "0x" + digits + ", " + rest;
            && |text| >= 11 && text[0] == '0' && text[..2] == "0x" && text[2..10] == digits && text[10] == ','
            && text[11..] == " " + rest
  {
  }

  lemma DecodeToken(p: Rgba, rest: string)
    requires Decode(rest).Some?
    ensures Decode(Token(p) + rest) == Some([Color(p)] + Decode(rest).value)
  {
    WordRoundTrip(Color(p));
    TokenShape(Hex08(Color(p)), rest);
    DecodeSpace(' ', rest);
  }

  lemma DecodeSpace(c: char, rest: string)
    requires IsSpace(c)
    ensures Decode([c] + rest) == Decode(rest)
  {
    assert ([c] + rest)[1..] == rest;
  }

  lemma {:induction false} DecodeTokens(row: seq<Rgba>, rest: string)
    requires Decode(rest).Some?
    ensures Decode(Tokens(row) + rest) == Some(Colors(row) + Decode(rest).value)
  {
    if row == [] {
      assert Tokens(row) + rest == rest;
      assert Colors(row) + Decode(rest).value == Decode(rest).value;
    } else {
      var before, p := row[..|row| - 1], row[|row| - 1];
      assert row == before + [p] && Colors([p]) == [Color(p)];
      ColorsAppend(before, [p]);
      DecodeToken(p, rest);
      DecodeTokens(before, Token(p) + rest);
      Regroup(Tokens(before), Token(p), rest);
      Regroup(Colors(before), Colors([p]), Decode(rest).value);
    }
  }

  lemma DecodeRow(row: seq<Rgba>, rest: string)
    requires Decode(rest).Some?
    ensures Decode(RowText(row) + rest) == Some(Colors(row) + Decode(rest).value)
  {
    DecodeSpace('\n', rest);
    DecodeTokens(row, "\n" + rest);
    DecodeIndent(Tokens(row) + ("\n" + rest));
    Regroup("    ", Tokens(row), "\n");
    Regroup("    ", Tokens(row) + "\n", rest);
    Regroup(Tokens(row), "\n", rest);
  }

  lemma DecodeIndent(text: string)
    ensures Decode("    " + text) == Decode(text)
  {
    var one, two, three := " " + text, "  " + text, "   " + text;
    DecodeSpace(' ', text);
    DecodeSpace(' ', one);
    DecodeSpace(' ', two);
    DecodeSpace(' ', three);
    assert two == " " + one && three == " " + two && "    " + text == " " + three;
  }

  function Flatten<T>(rows: seq<seq<T>>): seq<T> {
    if rows == [] then [] else Flatten(rows[..|rows| - 1]) + rows[|rows| - 1]
  }

  lemma {:induction false} DecodeRows(rows: seq<seq<Rgba>>, rest: string)
    requires Decode(rest).Some?
    ensures Decode(Body(rows) + rest) == Some(Colors(Flatten(rows)) + Decode(rest).value)
  {
    if rows == [] {
      assert Body(rows) + rest == rest;
      assert Colors(Flatten(rows)) + Decode(rest).value == Decode(rest).value;
    } else {
      var before, row := rows[..|rows| - 1], rows[|rows| - 1];
      ColorsAppend(Flatten(before), row);
      DecodeRow(row, rest);
      DecodeRows(before, RowText(row) + rest);
      Regroup(Body(before), RowText(row), rest);
      Regroup(Colors(Flatten(before)), Colors(row), Decode(rest).value);
    }
  }

  lemma {:induction false} FlattenRows<T>(flat: seq<T>, w: nat, h: nat, k: nat)
    requires |flat| == Span(h, w) && k <= h
    ensures Span(k, w) <= |flat| && Flatten(Rows(flat, w, h)[..k]) == flat[..Span(k, w)]
  {
    if k < h {
      SpanGrows(k, h, w);
    }
    if k > 0 {
      FlattenRows(flat, w, h, k - 1);
      assert Rows(flat, w, h)[..k][..k - 1] == Rows(flat, w, h)[..k - 1];
      assert flat[..Span(k - 1, w)] + Row(flat, w, h, k - 1) == flat[..Span(k, w)];
    }
  }

  /** Round trip: the printed body of a width by height image reads back as its width * height
      ARGB values in row-major order, and the channel extraction of the renderer recovers each
      pixel from its value */
  lemma EncoderRoundTrip(pixels: seq<Rgba>, width: nat, height: nat)
    requires |pixels| == Span(height, width)
    ensures |pixels| == width * height
    ensures var read := Decode(Body(Rows(pixels, width, height)));
            && read.Some? && |read.value| == |pixels|
            && forall i | 0 <= i < |pixels| ::
                 pixels[i] == Rgba(Red(read.value[i]), Green(read.value[i]), Blue(read.value[i]), Alpha(read.value[i]))
  {
    SpanIsProduct(height, width);
    var rows := Rows(pixels, width, height);
    DecodeRows(rows, "");
    assert Body(rows) + "" == Body(rows);
    FlattenRows(pixels, width, height, height);
    assert rows[..height] == rows && pixels[..|pixels|] == pixels;
    assert Colors(pixels) + [] == Colors(pixels);
    assert Decode(Body(rows)) == Some(Colors(pixels));
    forall i | 0 <= i < |pixels|
      ensures var c := Colors(pixels)[i]; pixels[i] == Rgba(Red(c), Green(c), Blue(c), Alpha(c))
    {
      PackExtract(pixels[i].a, pixels[i].r, pixels[i].g, pixels[i].b, 0);
    }
  }

  function Newlines(s: string): nat {
    if s == "" then 0 else Newlines(s[..|s| - 1]) + if s[|s| - 1] == '\n' then 1 else 0
  }

  lemma {:induction false} NewlinesAppend(s: string, t: string)
    ensures Newlines(s + t) == Newlines(s) + Newlines(t)
  {
    if t == "" {
      assert s + t == s;
    } else {
      NewlinesAppend(s, t[..|t| - 1]);
      assert (s + t)[..|s + t| - 1] == s + t[..|t| - 1];
    }
  }

  lemma {:induction false} NoNewlines(s: string)
    requires '\n' !in s
    ensures Newlines(s) == 0
  {
    if s != "" {
      assert s[|s| - 1] in s;
      NoNewlines(s[..|s| - 1]);
    }
  }

  lemma {:induction false} TokensOnOneLine(row: seq<Rgba>)
    ensures '\n' !in Tokens(row)
  {
    if row != [] {
      TokensOnOneLine(row[..|row| - 1]);
      WordRoundTrip(Color(row[|row| - 1]));
    }
  }

  lemma {:induction false} OneNewlineARow(rows: seq<seq<Rgba>>)
    ensures Newlines(Body(rows)) == |rows|
  {
    if rows != [] {
      var before, row := rows[..|rows| - 1], rows[|rows| - 1];
      OneNewlineARow(before);
      TokensOnOneLine(row);
      NoNewlines("    " + Tokens(row));
      NewlinesAppend("    " + Tokens(row), "\n");
      NewlinesAppend(Body(before), RowText(row));
    }
  }

  /** The text determines the image: its height, its pixels, and its width unless it is empty */
  lemma TextDeterminesImage(p1: seq<Rgba>, w1: nat, h1: nat, p2: seq<Rgba>, w2: nat, h2: nat)
    requires |p1| == Span(h1, w1) && |p2| == Span(h2, w2)
    requires Body(Rows(p1, w1, h1)) == Body(Rows(p2, w2, h2))
    ensures p1 == p2 && h1 == h2 && (h1 > 0 ==> w1 == w2)
  {
    EncoderRoundTrip(p1, w1, h1);
    EncoderRoundTrip(p2, w2, h2);
    OneNewlineARow(Rows(p1, w1, h1));
    OneNewlineARow(Rows(p2, w2, h2));
    if h1 > 0 {
      SameSpan(h1, w1, w2);
    }
  }

  lemma {:induction false} SameSpan(h: nat, w1: nat, w2: nat)
    requires h > 0 && Span(h, w1) == Span(h, w2)
    ensures w1 == w2
  {
    if w1 < w2 {
      SpanNarrower(h, w1, w2);
    } else if w2 < w1 {
      SpanNarrower(h, w2, w1);
    }
  }

  lemma {:induction false} SpanNarrower(h: nat, w1: nat, w2: nat)
    requires w1 < w2
    ensures Span(h, w1) + h <= Span(h, w2)
  {
    if h > 0 {
      SpanNarrower(h - 1, w1, w2);
    }
  }
}
