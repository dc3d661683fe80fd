/** What the drawing operations of vbe.c do to a picture, stated pixel by pixel.

  A picture is a sequence of rows.  Operations here neither loop nor index a flat
  buffer; module Vbe proves that the loops over the back buffer compute exactly them. */
module Picture {
  import opened Bits
  import opened Grid
  import opened Pixel
  import opened Seqs

  type Pixels = seq<seq<uint32>>

  ghost predicate Rect(s: Pixels, w: nat, h: nat) {
    |s| == h && forall r | 0 <= r < h :: |s[r]| == w
  }

  function Blank(w: nat, h: nat, color: uint32): Pixels {
    Constant(w, h, color)
  }

  /** One pixel, clipped to the picture */
  function PutPixel(s: Pixels, x: uint32, y: uint32, color: uint32): (s': Pixels)
  {
    if y < |s| && x < |s[y]| then SetPixel(s, x, y, Blend(s[y][x], color)) else s
  }

  function SetPixel(s: Pixels, x: nat, y: nat, color: uint32): (s': Pixels)
    requires y < |s| && x < |s[y]|
  {
    var row: seq<uint32> := s[y];
    s[y := row[x := color]]
  }

  /** Ink to be laid with its top left corner at (x, y), on a plane that wraps modulo 2^32 */
  datatype Stamp = Stamp(x: uint32, y: uint32, ink: Pixels) {
    /** Column and row of the ink that falls on screen position (c, r) */
    function I(c: int): uint32 { U32(c - x) }
    function J(r: int): uint32 { U32(r - y) }

    predicate Covers(c: int, r: int) {
      J(r) < |ink| && I(c) < |ink[J(r)]|
    }

    function At(c: int, r: int): uint32
      requires Covers(c, r)
    {
      ink[J(r)][I(c)]
    }
  }

  /** Every covered pixel is blended with the ink on it, once; the others stay */
  function Composite(s: Pixels, st: Stamp): (s': Pixels)
    ensures |s'| == |s| && forall r | 0 <= r < |s| :: |s'[r]| == |s[r]|
  {
    seq(|s|, r requires 0 <= r < |s| =>
      seq(|s[r]|, c requires 0 <= c < |s[r]| => Dab(s[r][c], st, c, r)))
  }

  function Dab(bg: uint32, st: Stamp, c: int, r: int): uint32 {
    if st.Covers(c, r) then Blend(bg, st.At(c, r)) else bg
  }

  // ----- from single pixels to a whole stamp -----

  /** The ink position (i, j) comes before (i0, j0) in row-major order */
  predicate Before(i: int, j: int, i0: int, j0: int) {
    j < j0 || (j == j0 && i < i0)
  }

  function DabBefore(bg: uint32, st: Stamp, c: int, r: int, i0: int, j0: int): uint32 {
    if Before(st.I(c), st.J(r), i0, j0) then Dab(bg, st, c, r) else bg
  }

  /** The part of a stamp laid once row-major order has reached ink position (i0, j0) */
  function CompositeBefore(s: Pixels, st: Stamp, i0: nat, j0: nat): (s': Pixels)
  {
    seq(|s|, r requires 0 <= r < |s| =>
      seq(|s[r]|, c requires 0 <= c < |s[r]| => DabBefore(s[r][c], st, c, r, i0, j0)))
  }

  /** Blending one more ink pixel at its wrapped screen position extends the laid part by
      exactly that pixel, whether the position is on screen or not */
  lemma CompositeStep(s: Pixels, st: Stamp, w: nat, h: nat, i: nat, j: nat)
    requires Rect(s, w, h) && w <= WORD && h <= WORD
    requires j < |st.ink| && i < |st.ink[j]| && j < WORD && i < WORD
    ensures PutPixel(CompositeBefore(s, st, i, j), U32(st.x + i), U32(st.y + j), st.ink[j][i])
            == CompositeBefore(s, st, i + 1, j)
  {
    var x, y := U32(st.x + i), U32(st.y + j);
    var now := CompositeBefore(s, st, i, j);
    var put := PutPixel(now, x, y, st.ink[j][i]);
    var next := CompositeBefore(s, st, i + 1, j);
    forall r | 0 <= r < h
      ensures put[r] == next[r]
    {
      forall c | 0 <= c < w
        ensures put[r][c] == next[r][c]
      {
        DabStep(s[r][c], st, c, r, i, j);
      }
    }
  }

  lemma DabStep(bg: uint32, st: Stamp, c: uint32, r: uint32, i: uint32, j: uint32)
    requires j < |st.ink| && i < |st.ink[j]|
    ensures DabBefore(bg, st, c, r, i + 1, j) ==
            if r == U32(st.y + j) && c == U32(st.x + i) then Blend(DabBefore(bg, st, c, r, i, j), st.ink[j][i])
            else DabBefore(bg, st, c, r, i, j)
  {
    OffsetRoundTrip(st.x, i, c);
    OffsetRoundTrip(st.y, j, r);
  }

  /** Between two rows of ink nothing is left to lay in the row just finished */
  lemma CompositeRow(s: Pixels, st: Stamp, n: nat, j: nat)
    requires j < |st.ink| && |st.ink[j]| == n
    ensures CompositeBefore(s, st, n, j) == CompositeBefore(s, st, 0, j + 1)
  {
    var a, b := CompositeBefore(s, st, n, j), CompositeBefore(s, st, 0, j + 1);
    assert forall r, c | 0 <= r < |s| && 0 <= c < |s[r]| :: a[r][c] == b[r][c];
    assert forall r | 0 <= r < |s| :: a[r] == b[r];
  }

  lemma CompositeStarts(s: Pixels, st: Stamp)
    ensures CompositeBefore(s, st, 0, 0) == s
  {
    var now := CompositeBefore(s, st, 0, 0);
    assert forall r, c | 0 <= r < |s| && 0 <= c < |s[r]| :: now[r][c] == s[r][c];
    assert forall r | 0 <= r < |s| :: now[r] == s[r];
  }

  lemma CompositeEnds(s: Pixels, st: Stamp)
    ensures CompositeBefore(s, st, 0, |st.ink|) == Composite(s, st)
  {
    var now, all := CompositeBefore(s, st, 0, |st.ink|), Composite(s, st);
    assert forall r, c | 0 <= r < |s| && 0 <= c < |s[r]| :: now[r][c] == all[r][c];
    assert forall r | 0 <= r < |s| :: now[r] == all[r];
  }

  // ----- laws of compositing -----

  /** Stamps that share no screen pixel can be laid in either order */
  lemma DisjointStampsCommute(s: Pixels, a: Stamp, b: Stamp)
    requires forall r, c | 0 <= r < |s| && 0 <= c < |s[r]| :: !(a.Covers(c, r) && b.Covers(c, r))
    ensures Composite(Composite(s, a), b) == Composite(Composite(s, b), a)
  {
    var ab, ba := Composite(Composite(s, a), b), Composite(Composite(s, b), a);
    forall r, c | 0 <= r < |s| && 0 <= c < |s[r]|
      ensures ab[r][c] == ba[r][c]
    {
      assert !(a.Covers(c, r) && b.Covers(c, r));
    }
    assert forall r | 0 <= r < |s| :: ab[r] == ba[r];
  }

  function CompositeTimes(s: Pixels, st: Stamp, n: nat): (s': Pixels)
    ensures |s'| == |s| && forall r | 0 <= r < |s| :: |s'[r]| == |s[r]|
  {
    if n == 0 then s else Composite(CompositeTimes(s, st, n - 1), st)
  }

  lemma {:induction false} CompositeTimesAt(s: Pixels, st: Stamp, n: nat, r: nat, c: nat)
    requires r < |s| && c < |s[r]|
    ensures CompositeTimes(s, st, n)[r][c] ==
            if st.Covers(c, r) then BlendTimes(s[r][c], st.At(c, r), n) else s[r][c]
  {
    if n > 0 {
      CompositeTimesAt(s, st, n - 1, r, c);
    }
  }

  /** Whatever mixture of alphas a stamp holds, 255 draws of it in one place exhaust it */
  lemma RepeatedStampSettles(s: Pixels, st: Stamp, n: nat)
    requires n >= 255
    ensures Composite(CompositeTimes(s, st, n), st) == CompositeTimes(s, st, n)
  {
    var last := CompositeTimes(s, st, n);
    var more := Composite(last, st);
    forall r, c | 0 <= r < |s| && 0 <= c < |s[r]|
      ensures more[r][c] == last[r][c]
    {
      CompositeTimesAt(s, st, n, r, c);
      if st.Covers(c, r) {
        BlendReachesFixedPoint(s[r][c], st.At(c, r), n);
      }
    }
    assert forall r | 0 <= r < |s| :: more[r] == last[r];
  }

  /** Stamps laid one after the other */
  function Lay(s: Pixels, stamps: seq<Stamp>): (s': Pixels)
    ensures |s'| == |s| && forall r | 0 <= r < |s| :: |s'[r]| == |s[r]|
  {
    if stamps == [] then s
    else Composite(Lay(s, stamps[..|stamps| - 1]), stamps[|stamps| - 1])
  }

  lemma LayNext(s: Pixels, stamps: seq<Stamp>, st: Stamp)
    ensures Lay(s, stamps + [st]) == Composite(Lay(s, stamps), st)
  {
    assert (stamps + [st])[..|stamps|] == stamps;
  }

  lemma {:induction false} LayAppend(s: Pixels, a: seq<Stamp>, b: seq<Stamp>)
    ensures Lay(s, a + b) == Lay(Lay(s, a), b)
  {
    if b == [] {
      assert a + b == a;
    } else {
      var b', st := b[..|b| - 1], b[|b| - 1];
      Unsnoc(b);
      Regroup(a, b', [st]);
      LayAppend(s, a, b');
      LayNext(s, a + b', st);
    }
  }

  /** A stamp without ink leaves no trace */
  lemma NoInk(s: Pixels, st: Stamp)
    requires st.ink == []
    ensures Composite(s, st) == s
  {
    var s' := Composite(s, st);
    assert forall r, c | 0 <= r < |s| && 0 <= c < |s[r]| :: s'[r][c] == s[r][c];
    assert forall r | 0 <= r < |s| :: s'[r] == s[r];
  }

  /** At most one of the stamps covers (c, r) */
  ghost predicate CoveredOnce(stamps: seq<Stamp>, c: int, r: int) {
    forall i, j | 0 <= i < j < |stamps| :: !(stamps[i].Covers(c, r) && stamps[j].Covers(c, r))
  }

  /** A pixel covered by one stamp is blended once with that stamp's ink; a pixel covered
      by none keeps its value */
  lemma {:induction false} LaidOnce(s: Pixels, stamps: seq<Stamp>, c: nat, r: nat)
    requires r < |s| && c < |s[r]| && CoveredOnce(stamps, c, r)
    ensures forall n | 0 <= n < |stamps| && stamps[n].Covers(c, r) ::
              Lay(s, stamps)[r][c] == Blend(s[r][c], stamps[n].At(c, r))
    ensures (forall n | 0 <= n < |stamps| :: !stamps[n].Covers(c, r)) ==> Lay(s, stamps)[r][c] == s[r][c]
  {
    if stamps != [] {
      var before, st := stamps[..|stamps| - 1], stamps[|stamps| - 1];
      LaidOnce(s, before, c, r);
      assert Lay(s, stamps)[r][c] == Dab(Lay(s, before)[r][c], st, c, r);
      forall n | 0 <= n < |before|
        ensures before[n] == stamps[n] && !(before[n].Covers(c, r) && st.Covers(c, r))
      {
      }
    }
  }

  ghost predicate OpaqueStamp(st: Stamp) {
    forall j, i | 0 <= j < |st.ink| && 0 <= i < |st.ink[j]| :: Alpha(st.ink[j][i]) == 0xFF
  }

  /** Either both pictures end up with the same pixel, or the stamps do not touch it */
  lemma {:induction false} OpaqueOverwrites(s: Pixels, s': Pixels, stamps: seq<Stamp>, c: nat, r: nat)
    requires forall n | 0 <= n < |stamps| :: OpaqueStamp(stamps[n])
    requires |s| == |s'| && r < |s| && c < |s[r]| == |s'[r]|
    ensures var p, p' := Lay(s, stamps)[r][c], Lay(s', stamps)[r][c];
            p == p' || (p == s[r][c] && p' == s'[r][c])
  {
    if stamps != [] {
      var before, st := stamps[..|stamps| - 1], stamps[|stamps| - 1];
      OpaqueOverwrites(s, s', before, c, r);
      assert OpaqueStamp(st);
      assert Lay(s, stamps)[r][c] == Dab(Lay(s, before)[r][c], st, c, r);
      assert Lay(s', stamps)[r][c] == Dab(Lay(s', before)[r][c], st, c, r);
    }
  }

  /** Laying opaque stamps again changes nothing, even where they overlap each other */
  lemma OpaqueLayIdempotent(s: Pixels, stamps: seq<Stamp>)
    requires forall n | 0 <= n < |stamps| :: OpaqueStamp(stamps[n])
    ensures Lay(Lay(s, stamps), stamps) == Lay(s, stamps)
  {
    var once := Lay(s, stamps);
    var twice := Lay(once, stamps);
    forall r, c | 0 <= r < |s| && 0 <= c < |s[r]|
      ensures twice[r][c] == once[r][c]
    {
      OpaqueOverwrites(s, once, stamps, c, r);
    }
    assert forall r | 0 <= r < |s| :: twice[r] == once[r];
  }

  // ----- scrolling -----

  /** Rows move up by k and blank rows follow; past the height everything is blank */
  function Scroll(s: Pixels, w: nat, k: nat): (s': Pixels)
    ensures |s'| == |s|
  {
    if k >= |s| then Blank(w, |s|, 0) else s[k..] + Blank(w, k, 0)
  }

  lemma ScrollAt(s: Pixels, w: nat, k: nat, r: nat)
    requires r < |s|
    ensures Scroll(s, w, k)[r] == if r + k < |s| then s[r + k] else seq(w, _ => 0)
  {
  }

  lemma ScrollComposes(s: Pixels, w: nat, a: nat, b: nat)
    ensures Scroll(Scroll(s, w, a), w, b) == Scroll(s, w, a + b)
  {
    forall r | 0 <= r < |s|
      ensures Scroll(Scroll(s, w, a), w, b)[r] == Scroll(s, w, a + b)[r]
    {
      ScrollTwiceAt(s, w, a, b, r);
    }
  }

  lemma ScrollTwiceAt(s: Pixels, w: nat, a: nat, b: nat, r: nat)
    requires r < |s|
    ensures Scroll(Scroll(s, w, a), w, b)[r] == Scroll(s, w, a + b)[r]
  {
    var once := Scroll(s, w, a);
    ScrollAt(once, w, b, r);
    ScrollAt(s, w, a + b, r);
    if r + b < |s| {
      ScrollAt(s, w, a, r + b);
    }
  }

  /** The pixel rows that `vbe_scroll(lines)` moves: a product that wraps */
  function ScrollRows(lines: uint32, fontHeight: uint32): uint32 {
    U32(lines * fontHeight)
  }

  /** Scrolling every picture by ka rows, then by kb rows, is scrolling it by kc rows */
  ghost predicate ScrollsAdd(w: nat, h: nat, ka: nat, kb: nat, kc: nat) {
    forall s | Rect(s, w, h) :: Scroll(Scroll(s, w, ka), w, kb) == Scroll(s, w, kc)
  }

  lemma ScrollRowsAdd(a: uint32, b: uint32, fontHeight: uint32)
    ensures ScrollRows(U32(a + b), fontHeight) == U32(ScrollRows(a, fontHeight) + ScrollRows(b, fontHeight))
    ensures (a + b) * fontHeight < WORD ==>
              ScrollRows(a, fontHeight) + ScrollRows(b, fontHeight) < WORD
  {
    MulCommutes(a + b, fontHeight);
    MulCommutes(U32(a + b), fontHeight);
    MulCommutes(a, fontHeight);
    MulCommutes(b, fontHeight);
    WrapProduct(a + b, fontHeight);
    MulDistributes(fontHeight, a, b);
    MulMonotone(fontHeight, 0, a);
    MulMonotone(fontHeight, 0, b);
    WrappedParts(fontHeight * a, fontHeight * b);
  }

  lemma WrappedParts(p: nat, q: nat)
    ensures U32(p + q) == U32(U32(p) + U32(q))
    ensures p + q < WORD ==> U32(p) + U32(q) < WORD
  {
    WrapSum(p, q);
  }

  /** `scroll(a); scroll(b)` is `scroll(a + b)` on every picture exactly when the two row
      counts do not overflow together, or their wrapped sum still clears the screen */
  lemma ScrollsAddExactly(w: nat, h: uint32, fontHeight: uint32, a: uint32, b: uint32)
    requires w > 0
    ensures var (ka, kb) := (ScrollRows(a, fontHeight), ScrollRows(b, fontHeight));
            ScrollsAdd(w, h, ka, kb, ScrollRows(U32(a + b), fontHeight)) <==> (ka + kb < WORD || U32(ka + kb) >= h)
  {
    ScrollRowsAdd(a, b, fontHeight);
    RowCountsAdd(w, h, ScrollRows(a, fontHeight), ScrollRows(b, fontHeight));
  }

  /** On a 640 by 480 screen with the 16-row font, two scrolls by 2^27 lines clear the screen,
      but the scroll by 2^28 lines moves nothing */
  lemma ScrollsAddFails()
    ensures var a: uint32 := 0x800_0000;
            !ScrollsAdd(640, 480, ScrollRows(a, 16), ScrollRows(a, 16), ScrollRows(U32(a + a), 16))
    ensures ScrollRows(0x800_0000, 16) == 0x8000_0000 && ScrollRows(0x1000_0000, 16) == 0
  {
    U32IsRemainder(0x8000_0000 + 0x8000_0000);
    U32IsRemainder(0x1000_0000 * 16);
    ScrollsAddExactly(640, 480, 16, 0x800_0000, 0x800_0000);
  }

  /** In particular they add up whenever the total number of rows fits in 32 bits, whether
      each scroll moves rows or clears */
  lemma ScrollsAddWithoutOverflow(s: Pixels, w: nat, fontHeight: uint32, a: uint32, b: uint32)
    requires (a + b) * fontHeight < WORD
    ensures Scroll(Scroll(s, w, ScrollRows(a, fontHeight)), w, ScrollRows(b, fontHeight))
            == Scroll(s, w, ScrollRows(U32(a + b), fontHeight))
  {
    ScrollRowsAdd(a, b, fontHeight);
    ScrollComposes(s, w, ScrollRows(a, fontHeight), ScrollRows(b, fontHeight));
  }

  lemma RowCountsAdd(w: nat, h: uint32, ka: uint32, kb: uint32)
    requires w > 0
    ensures ScrollsAdd(w, h, ka, kb, U32(ka + kb)) <==> (ka + kb < WORD || U32(ka + kb) >= h)
  {
    var kc := U32(ka + kb);
    if ka + kb < WORD || kc >= h {
      assert ka + kb == kc || (ka + kb >= h && kc >= h);
      forall s | Rect(s, w, h)
        ensures Scroll(Scroll(s, w, ka), w, kb) == Scroll(s, w, kc)
      {
        ScrollComposes(s, w, ka, kb);
      }
    } else {
      OverflowKeepsRows(w, h, ka, kb, kc);
    }
  }

  /** On a white picture the two scrolls clear the screen and the wrapped one does not */
  lemma OverflowKeepsRows(w: nat, h: uint32, ka: uint32, kb: uint32, kc: uint32)
    requires w > 0 && ka + kb >= WORD && kc < h
    ensures !ScrollsAdd(w, h, ka, kb, kc)
  {
    var s := Blank(w, h, 0xFFFF_FFFF);
    assert Rect(s, w, h);
    ScrollComposes(s, w, ka, kb);
    ScrollAt(s, w, kc, 0);
    assert Scroll(s, w, kc)[0][0] != 0;
    assert Scroll(s, w, ka + kb)[0][0] == 0;
  }

  /** The first n rows agree */
  ghost predicate AgreeAbove(s: Pixels, t: Pixels, n: int) {
    |s| == |t| && forall r | 0 <= r < |s| && r < n :: s[r] == t[r]
  }

  lemma CompositeKeepsAgreement(s: Pixels, t: Pixels, st: Stamp, n: int)
    requires AgreeAbove(s, t, n)
    ensures AgreeAbove(Composite(s, st), Composite(t, st), n)
  {
    var a, b := Composite(s, st), Composite(t, st);
    forall r | 0 <= r < |s| && r < n
      ensures a[r] == b[r]
    {
      assert s[r] == t[r];
      assert forall c | 0 <= c < |s[r]| :: a[r][c] == b[r][c];
    }
  }

  /** The stamp k rows higher */
  function Lift(st: Stamp, k: nat): Stamp {
    st.(y := U32(st.y - k))
  }

  /** Drawing and then scrolling by k rows shows, on every row not blanked by the scroll,
      what scrolling first and drawing k rows higher shows */
  lemma ScrollCommutesWithStamp(s: Pixels, w: nat, h: nat, k: nat, st: Stamp)
    requires Rect(s, w, h)
    ensures AgreeAbove(Scroll(Composite(s, st), w, k), Composite(Scroll(s, w, k), Lift(st, k)), h - k)
  {
    var up := Lift(st, k);
    var a, b := Scroll(Composite(s, st), w, k), Composite(Scroll(s, w, k), up);
    forall r | 0 <= r < h && r < h - k
      ensures a[r] == b[r]
    {
      ScrollAt(Composite(s, st), w, k, r);
      ScrollAt(s, w, k, r);
      forall c | 0 <= c < w
        ensures a[r][c] == b[r][c]
      {
        LiftedStamp(st, k, c, r);
      }
    }
  }

  lemma LiftedStamp(st: Stamp, k: nat, c: int, r: int)
    ensures var up := Lift(st, k);
            up.I(c) == st.I(c) && up.J(r) == st.J(r + k)
  {
    WrapInside(r, st.y - k);
    assert r - (st.y - k) == r + k - st.y;
  }

  function LiftAll(stamps: seq<Stamp>, k: nat): (up: seq<Stamp>)
    ensures |up| == |stamps|
  {
    seq(|stamps|, n requires 0 <= n < |stamps| => Lift(stamps[n], k))
  }

  lemma LiftAllNext(stamps: seq<Stamp>, st: Stamp, k: nat)
    ensures LiftAll(stamps + [st], k) == LiftAll(stamps, k) + [Lift(st, k)]
  {
  }

  lemma {:induction false} LayKeepsRect(s: Pixels, stamps: seq<Stamp>, w: nat, h: nat)
    requires Rect(s, w, h)
    ensures Rect(Lay(s, stamps), w, h)
  {
  }

  lemma ScrollStampStep(drawn: Pixels, lifted: Pixels, w: nat, h: nat, k: nat, st: Stamp)
    requires Rect(drawn, w, h)
    requires AgreeAbove(Scroll(drawn, w, k), lifted, h - k)
    ensures AgreeAbove(Scroll(Composite(drawn, st), w, k), Composite(lifted, Lift(st, k)), h - k)
  {
    ScrollCommutesWithStamp(drawn, w, h, k, st);
    CompositeKeepsAgreement(Scroll(drawn, w, k), lifted, Lift(st, k), h - k);
  }

  /** The same for any sequence of stamps */
  lemma {:induction false} ScrollCommutesWithLay(s: Pixels, w: nat, h: nat, k: nat, stamps: seq<Stamp>)
    requires Rect(s, w, h)
    ensures AgreeAbove(Scroll(Lay(s, stamps), w, k), Lay(Scroll(s, w, k), LiftAll(stamps, k)), h - k)
  {
    if stamps != [] {
      var before, st := stamps[..|stamps| - 1], stamps[|stamps| - 1];
      Unsnoc(stamps);
      ScrollCommutesWithLay(s, w, h, k, before);
      LiftAllNext(before, st, k);
      LayNext(Scroll(s, w, k), LiftAll(before, k), Lift(st, k));
      LayKeepsRect(s, before, w, h);
      ScrollStampStep(Lay(s, before), Lay(Scroll(s, w, k), LiftAll(before, k)), w, h, k, st);
    }
  }

  // ----- single pixels of the results -----

  /** A colour of alpha 0 draws nothing, wherever it is drawn */
  lemma TransparentPixel(s: Pixels, x: uint32, y: uint32, color: uint32)
    requires color < 0x100_0000
    ensures PutPixel(s, x, y, color) == s
  {
    if y < |s| && x < |s[y]| {
      BlendEnds(s[y][x], color);
      var row: seq<uint32> := s[y];
      assert row[x := row[x]] == row;
      assert s[y := row] == s;
    }
  }

  /** A drawn bitmap, pixel by pixel: with i and j the distances of screen column c and row r
      from the origin modulo 2^32, a pixel outside the bitmap stays, one under transparent ink
      stays, one under opaque ink becomes the ink, and any other is blended with it once */
  lemma BitmapPixel(s: Pixels, x: uint32, y: uint32, w: uint32, h: uint32, bits: seq<uint32>, r: nat, c: nat)
    requires |bits| == Span(h, w) && r < |s| && c < |s[r]|
    ensures var (i, j) := ((c - x) % 0x1_0000_0000, (r - y) % 0x1_0000_0000);
            var out := Composite(s, Stamp(x, y, Rows(bits, w, h)))[r][c];
            if i < w && j < h then
              && 0 <= Span(j, w) + i < |bits|
              && (bits[Span(j, w) + i] < 0x100_0000 ==> out == s[r][c])
              && (bits[Span(j, w) + i] >= 0xFF00_0000 ==> out == bits[Span(j, w) + i])
              && out == Blend(s[r][c], bits[Span(j, w) + i])
            else out == s[r][c]
  {
    U32IsRemainder(c - x);
    U32IsRemainder(r - y);
    BitmapDab(s[r][c], Stamp(x, y, Rows(bits, w, h)), w, h, bits, U32(c - x), U32(r - y), c, r);
  }

  lemma BitmapDab(bg: uint32, st: Stamp, w: uint32, h: uint32, bits: seq<uint32>, i: nat, j: nat, c: int, r: int)
    requires |bits| == Span(h, w) && st.ink == Rows(bits, w, h) && st.I(c) == i && st.J(r) == j
    ensures if i < w && j < h then
              && 0 <= Span(j, w) + i < |bits|
              && (bits[Span(j, w) + i] < 0x100_0000 ==> Dab(bg, st, c, r) == bg)
              && (bits[Span(j, w) + i] >= 0xFF00_0000 ==> Dab(bg, st, c, r) == bits[Span(j, w) + i])
              && Dab(bg, st, c, r) == Blend(bg, bits[Span(j, w) + i])
            else Dab(bg, st, c, r) == bg
  {
    if i < w && j < h {
      RowsAt(bits, w, h, j, i);
      BlendEnds(bg, bits[Span(j, w) + i]);
    }
  }

  /** Every pixel of a cleared picture is the colour */
  lemma BlankPixel(w: nat, h: nat, color: uint32, r: nat, c: nat)
    requires r < h && c < w
    ensures |Blank(w, h, color)| == h && |Blank(w, h, color)[r]| == w && Blank(w, h, color)[r][c] == color
  {
  }

  /** Every pixel after `vbe_scroll(lines)`: the row is the one lines * fontHeight modulo 2^32
      below, or black where there is none */
  lemma ScrolledPixel(s: Pixels, w: nat, h: nat, lines: uint32, fontHeight: uint32, r: nat, c: nat)
    requires Rect(s, w, h) && r < h && c < w
    ensures var k := lines * fontHeight % 0x1_0000_0000;
            && |Scroll(s, w, ScrollRows(lines, fontHeight))[r]| == w
            && Scroll(s, w, ScrollRows(lines, fontHeight))[r][c] == if r + k < h then s[r + k][c] else 0
  {
    U32IsRemainder(lines * fontHeight);
    ScrollAt(s, w, U32(lines * fontHeight), r);
  }
}
