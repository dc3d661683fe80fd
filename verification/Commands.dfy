/** Whole runs of drawing calls, and the pixel format they keep. */
module Commands {
  import opened Bits
  import opened CStrings
  import opened Grid
  import opened Pixel
  import opened Picture
  import opened Text
  import Vbe

  /** One call into vbe.c, with the pixels of a bitmap and the characters of a string */
  datatype Command =
    | DrawPixel(x: uint32, y: uint32, color: uint32)
    | DrawBitmap(x: uint32, y: uint32, width: uint32, height: uint32, bits: seq<uint32>)
    | DrawChar(ch: uint8, x: uint32, y: uint32, fg: uint32, bg: uint32)
    | DrawString(text: seq<uint8>, x: uint32, y: uint32, fg: uint32, bg: uint32)
    | Clear(color: uint32)
    | ScrollLines(lines: uint32)
    | SetFont(fontWidth: uint32, fontHeight: uint32)

  datatype Screen = Screen(
    w: uint32, h: uint32, table: FontTable, fontWidth: uint32, fontHeight: uint32, shown: Pixels)
  {
    ghost predicate Valid() {
      Rect(shown, w, h)
    }
  }

  function Booted(w: uint32, h: uint32, table: FontTable): Screen {
    Screen(w, h, table, 8, 16, Blank(w, h, 0))
  }

  /** Glyph drawing is defined for the font sizes that the font table holds, and a bitmap has
      width * height pixels that fit in memory */
  predicate Defined(s: Screen, cmd: Command) {
    && (cmd.DrawChar? || cmd.DrawString? ==> s.fontWidth <= 8 && s.fontHeight <= 16)
    && (cmd.DrawString? ==> NUL !in cmd.text)
    && (cmd.DrawBitmap? ==> |cmd.bits| == Span(cmd.height, cmd.width) && |cmd.bits| * 4 < WORD)
  }

  /** The effect of one call; Perform proves it of the methods of Vbe.Display */
  function Apply(s: Screen, cmd: Command): Screen
    requires Defined(s, cmd)
  {
    match cmd
    case DrawPixel(x, y, color) => s.(shown := PutPixel(s.shown, x, y, color))
    case DrawBitmap(x, y, width, height, bits) =>
      s.(shown := Composite(s.shown, Stamp(x, y, Rows(bits, width, height))))
    case DrawChar(ch, x, y, fg, bg) =>
      s.(shown := Composite(s.shown, Stamp(x, y, GlyphInk(Face(s.table, s.fontWidth, s.fontHeight), fg, bg, ch))))
    case DrawString(text, x, y, fg, bg) =>
      s.(shown := DrawText(s.shown, text, Pen(Face(s.table, s.fontWidth, s.fontHeight), x, y, fg, bg)))
    case Clear(color) => s.(shown := Blank(s.w, s.h, color))
    case ScrollLines(lines) => s.(shown := Scroll(s.shown, s.w, ScrollRows(lines, s.fontHeight)))
    case SetFont(w, h) => s.(fontWidth := w, fontHeight := h)
  }

  ghost function View(d: Vbe.Display): (s: Screen)
    requires d.Valid()
    reads d, d.backbuffer
    ensures s.Valid()
  {
    Screen(d.width, d.height, d.defaultFont, d.fontWidth, d.fontHeight, d.Shown())
  }

  /** Runs begin with the display that `vbe_init` leaves */
  method PowerOn(w: uint32, h: uint32, font: FontTable) returns (d: Vbe.Display)
    requires w * h * 4 < WORD
    ensures fresh(d) && fresh(d.backbuffer) && d.Valid() && View(d) == Booted(w, h, font)
  {
    d := new Vbe.Display.Init(w, h, font);
  }

  /** Each call on a display has the effect that runs are built from */
  method Perform(d: Vbe.Display, cmd: Command)
    requires d.Valid() && Defined(View(d), cmd)
    modifies d`fontWidth, d`fontHeight, d.backbuffer
    ensures d.Valid() && View(d) == Apply(old(View(d)), cmd)
  {
    match cmd
    case DrawPixel(x, y, color) =>
      d.DrawPixel(x, y, color);
    case DrawBitmap(x, y, width, height, bits) =>
      var bitmap := new uint32[|bits|](i requires 0 <= i < |bits| => bits[i]);
      assert bitmap[..] == bits;
      d.DrawBitmap(x, y, width, height, bitmap);
    case DrawChar(ch, x, y, fg, bg) =>
      d.DrawChar(ch, x, y, fg, bg);
    case DrawString(text, x, y, fg, bg) =>
      TerminatedChars(text, text + [NUL]);
      d.DrawString(text + [NUL], x, y, fg, bg);
    case Clear(color) =>
      d.Clear(color);
    case ScrollLines(lines) =>
      d.Scroll(lines);
    case SetFont(w, h) =>
      d.SetFont(w, h);
  }

  /** A run of calls that are all defined where they happen */
  predicate Runs(s: Screen, cmds: seq<Command>)
    decreases |cmds|
  {
    cmds == [] || (Defined(s, cmds[0]) && Runs(Apply(s, cmds[0]), cmds[1..]))
  }

  function Run(s: Screen, cmds: seq<Command>): Screen
    requires Runs(s, cmds)
    decreases |cmds|
  {
    if cmds == [] then s else Run(Apply(s, cmds[0]), cmds[1..])
  }

  lemma {:induction false} RunAppend(s: Screen, first: seq<Command>, second: seq<Command>)
    requires Runs(s, first + second)
    ensures Runs(s, first) && Runs(Run(s, first), second)
    ensures Run(s, first + second) == Run(Run(s, first), second)
    decreases |first|
  {
    if first == [] {
      assert first + second == second;
    } else {
      assert (first + second)[0] == first[0] && (first + second)[1..] == first[1..] + second;
      RunAppend(Apply(s, first[0]), first[1..], second);
    }
  }

  /** A run is what the methods of a display do, one call after the other */
  method PerformAll(d: Vbe.Display, cmds: seq<Command>)
    requires d.Valid() && Runs(View(d), cmds)
    modifies d`fontWidth, d`fontHeight, d.backbuffer
    ensures d.Valid() && View(d) == Run(old(View(d)), cmds)
  {
    ghost var start := View(d);
    var n := 0;
    while n < |cmds|
      invariant n <= |cmds| && d.Valid() && d.backbuffer == old(d.backbuffer)
      invariant Runs(View(d), cmds[n..]) && Run(View(d), cmds[n..]) == Run(start, cmds)
    {
      assert cmds[n..][0] == cmds[n] && cmds[n..][1..] == cmds[n + 1..];
      Perform(d, cmds[n]);
      n := n + 1;
    }
  }

  // ----- the pixel format -----

  predicate Formatted(p: uint32) {
    p == 0 || Alpha(p) == 0xFF
  }

  ghost predicate AllFormatted(s: Pixels) {
    forall r, c | 0 <= r < |s| && 0 <= c < |s[r]| :: Formatted(s[r][c])
  }

  /** A blend over a formatted pixel is formatted, whatever the alpha of the colour */
  lemma BlendFormatted(bg: uint32, color: uint32)
    requires Formatted(bg)
    ensures Formatted(Blend(bg, color))
  {
    if 0 < Alpha(color) < 255 {
      BlendChannel(bg, color, R);
    }
  }

  lemma CompositeFormatted(s: Pixels, st: Stamp)
    requires AllFormatted(s)
    ensures AllFormatted(Composite(s, st))
  {
    var s' := Composite(s, st);
    forall r, c | 0 <= r < |s'| && 0 <= c < |s'[r]|
      ensures Formatted(s'[r][c])
    {
      if st.Covers(c, r) {
        BlendFormatted(s[r][c], st.At(c, r));
      }
    }
  }

  lemma {:induction false} LayFormatted(s: Pixels, stamps: seq<Stamp>)
    requires AllFormatted(s)
    ensures AllFormatted(Lay(s, stamps))
  {
    if stamps != [] {
      LayFormatted(s, stamps[..|stamps| - 1]);
      CompositeFormatted(Lay(s, stamps[..|stamps| - 1]), stamps[|stamps| - 1]);
    }
  }

  lemma ScrollFormatted(s: Pixels, w: nat, k: nat)
    requires AllFormatted(s)
    ensures AllFormatted(Scroll(s, w, k))
  {
    forall r, c | 0 <= r < |s| && 0 <= c < |Scroll(s, w, k)[r]|
      ensures Formatted(Scroll(s, w, k)[r][c])
    {
      ScrollAt(s, w, k, r);
    }
  }

  /** Clearing keeps the format exactly when the colour has it, or there is no pixel */
  lemma ClearFormatted(w: nat, h: nat, color: uint32)
    ensures AllFormatted(Blank(w, h, color)) <==> Formatted(color) || w == 0 || h == 0
  {
    if w > 0 && h > 0 {
      assert Blank(w, h, color)[0][0] == color;
    }
  }

  /** One call, which may clear only to 0 or to an opaque colour */
  lemma ApplyFormatted(s: Screen, cmd: Command)
    requires s.Valid() && Defined(s, cmd) && AllFormatted(s.shown)
    requires cmd.Clear? ==> Formatted(cmd.color)
    ensures Apply(s, cmd).Valid() && AllFormatted(Apply(s, cmd).shown)
  {
    match cmd
    case DrawPixel(x, y, color) =>
      if y < |s.shown| && x < |s.shown[y]| {
        BlendFormatted(s.shown[y][x], color);
      }
    case DrawBitmap(x, y, width, height, bits) =>
      CompositeFormatted(s.shown, Stamp(x, y, Rows(bits, width, height)));
    case DrawChar(ch, x, y, fg, bg) =>
      CompositeFormatted(s.shown, Stamp(x, y, GlyphInk(Face(s.table, s.fontWidth, s.fontHeight), fg, bg, ch)));
    case DrawString(text, x, y, fg, bg) =>
      LayFormatted(s.shown, Cells(Pen(Face(s.table, s.fontWidth, s.fontHeight), x, y, fg, bg), text));
    case Clear(color) =>
      ClearFormatted(s.w, s.h, color);
    case ScrollLines(lines) =>
      ScrollFormatted(s.shown, s.w, ScrollRows(lines, s.fontHeight));
    case SetFont(w, h) =>
  }

  lemma {:induction false} RunFormatted(s: Screen, cmds: seq<Command>)
    requires s.Valid() && AllFormatted(s.shown) && Runs(s, cmds)
    requires forall n | 0 <= n < |cmds| && cmds[n].Clear? :: Formatted(cmds[n].color)
    ensures Run(s, cmds).Valid() && AllFormatted(Run(s, cmds).shown)
    decreases |cmds|
  {
    if cmds != [] {
      ApplyFormatted(s, cmds[0]);
      RunFormatted(Apply(s, cmds[0]), cmds[1..]);
    }
  }

  /** From power-on, every reachable back buffer holds only blank and opaque pixels,
      whatever alphas are drawn with */
  lemma PixelFormatInvariant(w: uint32, h: uint32, table: FontTable, cmds: seq<Command>)
    requires Runs(Booted(w, h, table), cmds)
    requires forall n | 0 <= n < |cmds| && cmds[n].Clear? :: Formatted(cmds[n].color)
    ensures var end := Run(Booted(w, h, table), cmds).shown;
            Rect(end, w, h) && forall r, c | 0 <= r < h && 0 <= c < w :: end[r][c] == 0 || Alpha(end[r][c]) == 0xFF
  {
    var s := Booted(w, h, table);
    assert s.Valid();
    ClearFormatted(w, h, 0);
    RunFormatted(s, cmds);
    RunKeepsSize(s, cmds);
    var end := Run(s, cmds).shown;
    assert forall r, c | 0 <= r < h && 0 <= c < w :: Formatted(end[r][c]);
  }

  lemma {:induction false} RunKeepsSize(s: Screen, cmds: seq<Command>)
    requires Runs(s, cmds)
    ensures Run(s, cmds).w == s.w && Run(s, cmds).h == s.h
    decreases |cmds|
  {
    if cmds != [] {
      RunKeepsSize(Apply(s, cmds[0]), cmds[1..]);
    }
  }
}
