/** printk: expanding a format into a 256-byte buffer and writing it to the console. */
module Printk {
  import opened Bits
  import opened CStrings
  import opened Seqs
  import opened Vga

  const BUFFER_SIZE: nat := 256

  // ----- what a format means -----

  /** "%s" gives the next argument, '%' and any other character give nothing, and every other
      character gives itself.  Nothing follows a '%' at the very end or a missing argument. */
  function Expand(fmt: seq<uint8>, args: seq<seq<uint8>>): seq<uint8> {
    if fmt == [] then []
    else if fmt[0] != PERCENT then [fmt[0]] + Expand(fmt[1..], args)
    else if |fmt| == 1 then []
    else if fmt[1] != LOWER_S then Expand(fmt[2..], args)
    else if args == [] then []
    else args[0] + Expand(fmt[2..], args[1..])
  }

  /** No '%' ends the format, and there is an argument for every "%s" */
  predicate WellFormed(fmt: seq<uint8>, args: seq<seq<uint8>>) {
    if fmt == [] then true
    else if fmt[0] != PERCENT then WellFormed(fmt[1..], args)
    else if |fmt| == 1 then false
    else if fmt[1] != LOWER_S then WellFormed(fmt[2..], args)
    else args != [] && WellFormed(fmt[2..], args[1..])
  }

  /** The buffer position where the loop stops if it starts at position i.  The loop compares
      the position with 255 only between the pieces of the format, and an argument is copied
      to its end, so this can be any number. */
  function Ends(fmt: seq<uint8>, args: seq<seq<uint8>>, i: nat): (e: nat)
    ensures e >= i
  {
    if fmt == [] || i >= 255 then i
    else if fmt[0] != PERCENT then Ends(fmt[1..], args, i + 1)
    else if |fmt| == 1 then i
    else if fmt[1] != LOWER_S then Ends(fmt[2..], args, i)
    else if args == [] then i
    else Ends(fmt[2..], args[1..], i + |args[0]|)
  }

  /** From position i on, the loop meets no '%' at the end of the format and no missing argument */
  predicate Readable(fmt: seq<uint8>, args: seq<seq<uint8>>, i: nat) {
    if fmt == [] || i >= 255 then true
    else if fmt[0] != PERCENT then Readable(fmt[1..], args, i + 1)
    else if |fmt| == 1 then false
    else if fmt[1] != LOWER_S then Readable(fmt[2..], args, i)
    else args != [] && Readable(fmt[2..], args[1..], i + |args[0]|)
  }

  /** What the caller must guarantee: the loop reads what is there, and its final NUL is the
      last of the 256 bytes at the latest */
  predicate Safe(fmt: seq<uint8>, args: seq<seq<uint8>>) {
    Readable(fmt, args, 0) && Ends(fmt, args, 0) < BUFFER_SIZE
  }

  /** The text that reaches the console */
  function Printed(fmt: seq<uint8>, args: seq<seq<uint8>>): seq<uint8> {
    var text := Expand(fmt, args);
    if |text| <= 255 then text else text[..255]
  }

  predicate NoStrings(fmt: seq<uint8>) {
    forall n | 0 <= n < |fmt| - 1 && fmt[n] == PERCENT :: fmt[n + 1] != LOWER_S
  }

  lemma {:induction false} WellFormedIsReadable(fmt: seq<uint8>, args: seq<seq<uint8>>, i: nat)
    requires WellFormed(fmt, args)
    ensures Readable(fmt, args, i)
  {
    if fmt != [] && i < 255 {
      if fmt[0] != PERCENT {
        WellFormedIsReadable(fmt[1..], args, i + 1);
      } else if fmt[1] != LOWER_S {
        WellFormedIsReadable(fmt[2..], args, i);
      } else {
        WellFormedIsReadable(fmt[2..], args[1..], i + |args[0]|);
      }
    }
  }

  /** The loop stops with the expansion used up, or not before position 255 */
  lemma {:induction false} EndsWithinExpansion(fmt: seq<uint8>, args: seq<seq<uint8>>, i: nat)
    requires Readable(fmt, args, i)
    ensures Ends(fmt, args, i) <= i + |Expand(fmt, args)|
    ensures Ends(fmt, args, i) == i + |Expand(fmt, args)| || Ends(fmt, args, i) >= 255
  {
    if fmt != [] && i < 255 {
      if fmt[0] != PERCENT {
        EndsWithinExpansion(fmt[1..], args, i + 1);
      } else if fmt[1] != LOWER_S {
        EndsWithinExpansion(fmt[2..], args, i);
      } else {
        EndsWithinExpansion(fmt[2..], args[1..], i + |args[0]|);
      }
    }
  }

  lemma {:induction false} NoStringsEndsInside(fmt: seq<uint8>, args: seq<seq<uint8>>, i: nat)
    requires NoStrings(fmt) && i <= 255
    ensures Ends(fmt, args, i) <= 255
  {
    if fmt != [] && i < 255 {
      if fmt[0] != PERCENT {
        assert forall n | 0 <= n < |fmt[1..]| :: fmt[1..][n] == fmt[n + 1];
        NoStringsEndsInside(fmt[1..], args, i + 1);
      } else if |fmt| > 1 {
        assert fmt[0 + 1] != LOWER_S;
        assert forall n | 0 <= n < |fmt[2..]| :: fmt[2..][n] == fmt[n + 2];
        NoStringsEndsInside(fmt[2..], args, i);
      }
    }
  }

  /** In bytes: without 37 a text stands for itself; 37 and 115 take the next argument; 37 and
      any other byte give nothing; a 37 that ends the format and a missing argument end it */
  lemma {:induction false} ExpandByBytes(t: seq<uint8>, rest: seq<uint8>, args: seq<seq<uint8>>, c: uint8)
    requires 37 !in t
    ensures Expand(t + rest, args) == t + Expand(rest, args) && Expand(t + [37], args) == t
    ensures args != [] ==> Expand(t + ([37, 115] + rest), args) == t + (args[0] + Expand(rest, args[1..]))
    ensures args == [] ==> Expand(t + ([37, 115] + rest), args) == t
    ensures c != 115 ==> Expand(t + ([37, c] + rest), args) == t + Expand(rest, args)
  {
    PlainFormat(t, rest, args);
    PlainFormat(t, [37], args);
    PlainFormat(t, [37, 115] + rest, args);
    PlainFormat(t, [37, c] + rest, args);
    assert ([37, 115] + rest)[2..] == rest && ([37, c] + rest)[2..] == rest;
  }

  lemma {:induction false} PlainFormat(t: seq<uint8>, rest: seq<uint8>, args: seq<seq<uint8>>)
    requires 37 !in t
    ensures Expand(t + rest, args) == t + Expand(rest, args)
    ensures WellFormed(t + rest, args) <==> WellFormed(rest, args)
  {
    if t == [] {
      assert t + rest == rest;
    } else {
      assert t[0] in t && forall ch | ch in t[1..] :: ch in t;
      assert (t + rest)[1..] == t[1..] + rest;
      PlainFormat(t[1..], rest, args);
      Regroup([t[0]], t[1..], Expand(rest, args));
      assert t == [t[0]] + t[1..];
    }
  }

  /** In bytes: a format is well formed unless a 37 ends it or an argument is missing */
  lemma WellFormedByBytes(t: seq<uint8>, rest: seq<uint8>, args: seq<seq<uint8>>, c: uint8)
    requires 37 !in t
    ensures WellFormed(t, args) && !WellFormed(t + [37], args)
    ensures WellFormed(t + ([37, 115] + rest), args) <==> args != [] && WellFormed(rest, args[1..])
    ensures c != 115 ==> (WellFormed(t + ([37, c] + rest), args) <==> WellFormed(rest, args))
  {
    PlainFormat(t, [], args);
    assert t + [] == t;
    PlainFormat(t, [37], args);
    PlainFormat(t, [37, 115] + rest, args);
    PlainFormat(t, [37, c] + rest, args);
    assert ([37, 115] + rest)[2..] == rest && ([37, c] + rest)[2..] == rest;
  }

  /** A well-formed format whose expansion is at most 255 long is printed whole */
  lemma PrintsWhole(fmt: seq<uint8>, args: seq<seq<uint8>>)
    requires WellFormed(fmt, args) && |Expand(fmt, args)| <= 255
    ensures Safe(fmt, args) && Printed(fmt, args) == Expand(fmt, args)
  {
    WellFormedIsReadable(fmt, args, 0);
    EndsWithinExpansion(fmt, args, 0);
  }

  /** A well-formed format without "%s" is printed up to its 255th expanded character */
  lemma PrintsTruncated(fmt: seq<uint8>, args: seq<seq<uint8>>)
    requires WellFormed(fmt, args) && NoStrings(fmt)
    ensures Safe(fmt, args) && Printed(fmt, args) <= Expand(fmt, args)
    ensures |Expand(fmt, args)| > 255 ==> |Printed(fmt, args)| == 255
    ensures |Expand(fmt, args)| <= 255 ==> Printed(fmt, args) == Expand(fmt, args)
  {
    WellFormedIsReadable(fmt, args, 0);
    NoStringsEndsInside(fmt, args, 0);
  }

  /** What a format is made of: one character, one argument, or a directive that gives nothing */
  datatype Piece = Char(ch: uint8) | Argument(arg: seq<uint8>) | Nothing {
    function Text(): seq<uint8> {
      match this
      case Char(ch) => [ch]
      case Argument(arg) => arg
      case Nothing => []
    }

    function Size(): nat {
      |Text()|
    }
  }

  function Pieces(fmt: seq<uint8>, args: seq<seq<uint8>>): seq<Piece>
    requires WellFormed(fmt, args)
  {
    if fmt == [] then []
    else if fmt[0] != PERCENT then [Char(fmt[0])] + Pieces(fmt[1..], args)
    else if fmt[1] != LOWER_S then [Nothing] + Pieces(fmt[2..], args)
    else [Argument(args[0])] + Pieces(fmt[2..], args[1..])
  }

  function Total(pieces: seq<Piece>): nat {
    if pieces == [] then 0 else pieces[0].Size() + Total(pieces[1..])
  }

  function Joined(pieces: seq<Piece>): (text: seq<uint8>)
    ensures |text| == Total(pieces)
  {
    if pieces == [] then [] else pieces[0].Text() + Joined(pieces[1..])
  }

  /** The texts of the pieces, joined, are the expansion */
  lemma {:induction false} PiecesExpand(fmt: seq<uint8>, args: seq<seq<uint8>>)
    requires WellFormed(fmt, args)
    ensures Joined(Pieces(fmt, args)) == Expand(fmt, args)
  {
    if fmt != [] {
      if fmt[0] != PERCENT {
        PiecesExpand(fmt[1..], args);
      } else if fmt[1] != LOWER_S {
        PiecesExpand(fmt[2..], args);
      } else {
        PiecesExpand(fmt[2..], args[1..]);
      }
    }
  }

  /** Every argument whose turn comes before position 255 ends by position 255 */
  ghost predicate ArgumentsFit(pieces: seq<Piece>, i: nat) {
    forall k | 0 <= k < |pieces| && pieces[k].Argument? && i + Total(pieces[..k]) < 255 ::
      i + Total(pieces[..k]) + pieces[k].Size() <= 255
  }

  lemma ArgumentsFitNext(p: Piece, rest: seq<Piece>, i: nat)
    ensures ArgumentsFit([p] + rest, i) <==>
            (p.Argument? && i < 255 ==> i + p.Size() <= 255) && ArgumentsFit(rest, i + p.Size())
  {
    var all := [p] + rest;
    assert Total(all[..0]) == 0;
    forall k | 0 <= k < |rest|
      ensures rest[k] == all[k + 1] && Total(all[..k + 1]) == p.Size() + Total(rest[..k])
    {
      assert all[..k + 1][1..] == rest[..k];
    }
    if ArgumentsFit(all, i) {
      forall k | 0 <= k < |rest| && rest[k].Argument? && i + p.Size() + Total(rest[..k]) < 255
        ensures i + p.Size() + Total(rest[..k]) + rest[k].Size() <= 255
      {
        assert all[k + 1].Argument? && i + Total(all[..k + 1]) < 255;
      }
      assert all[0] == p;
    }
    if (p.Argument? && i < 255 ==> i + p.Size() <= 255) && ArgumentsFit(rest, i + p.Size()) {
      forall k | 0 <= k < |all| && all[k].Argument? && i + Total(all[..k]) < 255
        ensures i + Total(all[..k]) + all[k].Size() <= 255
      {
        if k > 0 {
          assert rest[k - 1] == all[k];
        }
      }
    }
  }

  /** The same, piece after piece */
  predicate FitFrom(pieces: seq<Piece>, i: nat) {
    if pieces == [] then true
    else
      && (pieces[0].Argument? && i < 255 ==> i + pieces[0].Size() <= 255)
      && FitFrom(pieces[1..], i + pieces[0].Size())
  }

  lemma {:induction false} FitFromIsFit(pieces: seq<Piece>, i: nat)
    ensures FitFrom(pieces, i) <==> ArgumentsFit(pieces, i)
  {
    if pieces != [] {
      FitFromIsFit(pieces[1..], i + pieces[0].Size());
      ArgumentsFitNext(pieces[0], pieces[1..], i);
      assert pieces == [pieces[0]] + pieces[1..];
    }
  }

  lemma {:induction false} FitPastEnd(pieces: seq<Piece>, i: nat)
    requires i >= 255
    ensures FitFrom(pieces, i)
  {
    if pieces != [] {
      FitPastEnd(pieces[1..], i + pieces[0].Size());
    }
  }

  lemma FitFromNext(p: Piece, rest: seq<Piece>, i: nat)
    ensures FitFrom([p] + rest, i) <==>
            (p.Argument? && i < 255 ==> i + p.Size() <= 255) && FitFrom(rest, i + p.Size())
  {
    assert ([p] + rest)[1..] == rest;
  }

  lemma {:induction false} EndsInsideIsFitFrom(fmt: seq<uint8>, args: seq<seq<uint8>>, i: nat)
    requires WellFormed(fmt, args) && i <= 255
    ensures Ends(fmt, args, i) <= 255 <==> FitFrom(Pieces(fmt, args), i)
  {
    if i >= 255 {
      FitPastEnd(Pieces(fmt, args), i);
    } else if fmt != [] {
      if fmt[0] != PERCENT {
        EndsInsideIsFitFrom(fmt[1..], args, i + 1);
        FitFromNext(Char(fmt[0]), Pieces(fmt[1..], args), i);
      } else if fmt[1] != LOWER_S {
        EndsInsideIsFitFrom(fmt[2..], args, i);
        FitFromNext(Nothing, Pieces(fmt[2..], args), i);
      } else {
        FitFromNext(Argument(args[0]), Pieces(fmt[2..], args[1..]), i);
        if i + |args[0]| <= 255 {
          EndsInsideIsFitFrom(fmt[2..], args[1..], i + |args[0]|);
        }
      }
    }
  }

  /** The exact condition on a well-formed format: the loop stops inside the buffer, with room
      for the NUL, if and only if every argument reached before position 255 fits as a whole */
  lemma EndsInsideExactly(fmt: seq<uint8>, args: seq<seq<uint8>>, i: nat)
    requires WellFormed(fmt, args) && i <= 255
    ensures Ends(fmt, args, i) <= 255 <==> ArgumentsFit(Pieces(fmt, args), i)
  {
    EndsInsideIsFitFrom(fmt, args, i);
    FitFromIsFit(Pieces(fmt, args), i);
  }

  lemma SafeExactly(fmt: seq<uint8>, args: seq<seq<uint8>>)
    requires WellFormed(fmt, args)
    ensures Safe(fmt, args) <==> ArgumentsFit(Pieces(fmt, args), 0)
  {
    WellFormedIsReadable(fmt, args, 0);
    EndsInsideExactly(fmt, args, 0);
  }

  /** The inputs that overflow at once: "%s" with an argument of n characters stops the loop at
      position n.  At n = 256 every character is inside the buffer and only the NUL, at index
      256, falls outside. */
  lemma LongArgumentOverflows(arg: seq<uint8>)
    ensures WellFormed([37, 115], [arg]) && Ends([37, 115], [arg], 0) == |arg|
    ensures Safe([37, 115], [arg]) <==> |arg| <= 255
  {
    var fmt := [PERCENT, LOWER_S];
    assert fmt[2..] == [] && [arg][1..] == [];
    assert Ends(fmt, [arg], 0) == Ends([], [], |arg|);
    assert WellFormed([], []);
    WellFormedIsReadable(fmt, [arg], 0);
  }

  // ----- the loop -----

  ghost function Bodies(args: seq<seq<uint8>>): (bodies: seq<seq<uint8>>)
    requires forall n | 0 <= n < |args| :: Terminated(args[n])
    ensures |bodies| == |args|
  {
    seq(|args|, n requires 0 <= n < |args| => Chars(args[n]))
  }

  lemma {:induction false} ExpandHasNoNul(fmt: seq<uint8>, args: seq<seq<uint8>>)
    requires NUL !in fmt && forall n | 0 <= n < |args| :: NUL !in args[n]
    ensures NUL !in Expand(fmt, args)
  {
    if fmt != [] {
      if fmt[0] != PERCENT {
        ExpandHasNoNul(fmt[1..], args);
      } else if |fmt| > 1 && fmt[1] != LOWER_S {
        ExpandHasNoNul(fmt[2..], args);
      } else if |fmt| > 1 && args != [] {
        ExpandHasNoNul(fmt[2..], args[1..]);
      }
    }
  }

  /** Copy a string to position `from` of the buffer, up to its NUL */
  method CopyString(buffer: array<uint8>, from: nat, str: seq<uint8>) returns (i: nat)
    requires Terminated(str) && from + |Chars(str)| <= buffer.Length
    modifies buffer
    ensures i == from + |Chars(str)|
    ensures buffer[..i] == old(buffer[..from]) + Chars(str)
    ensures forall p | i <= p < buffer.Length :: buffer[p] == old(buffer[p])
  {
    ghost var n := Length(str);
    i := from;
    var p := 0;
    while str[p] != NUL
      invariant p <= n && i == from + p
      invariant buffer[..i] == old(buffer[..from]) + str[..p]
      invariant forall q | i <= q < buffer.Length :: buffer[q] == old(buffer[q])
      decreases n - p
    {
      BeforeNul(str, p);
      buffer[i] := str[p];
      i := i + 1;
      p := p + 1;
    }
  }

  /** One iteration, as the functions of the remaining format and arguments see it */
  lemma NextPiece(fmt: seq<uint8>, args: seq<seq<uint8>>, i: nat)
    requires fmt != [] && i < 255 && Readable(fmt, args, i)
    ensures fmt[0] != PERCENT ==>
              && Readable(fmt[1..], args, i + 1) && Ends(fmt, args, i) == Ends(fmt[1..], args, i + 1)
              && Expand(fmt, args) == [fmt[0]] + Expand(fmt[1..], args)
    ensures fmt[0] == PERCENT ==> |fmt| > 1
    ensures fmt[0] == PERCENT && fmt[1] != LOWER_S ==>
              && Readable(fmt[2..], args, i) && Ends(fmt, args, i) == Ends(fmt[2..], args, i)
              && Expand(fmt, args) == Expand(fmt[2..], args)
    ensures fmt[0] == PERCENT && fmt[1] == LOWER_S ==>
              && args != [] && Readable(fmt[2..], args[1..], i + |args[0]|)
              && Ends(fmt, args, i) == Ends(fmt[2..], args[1..], i + |args[0]|)
              && Expand(fmt, args) == args[0] + Expand(fmt[2..], args[1..])
  {
  }

  /** The loop of printk and its final NUL, over memory of any size that begins with the
      buffer.  It writes positions 0 to Ends and no other, so it leaves a buffer of 256 bytes
      exactly when Ends is 256 or more; up to Ends it writes the expansion. */
  method FormatInto(memory: array<uint8>, fmt: seq<uint8>, args: seq<seq<uint8>>) returns (i: nat)
    requires Terminated(fmt) && forall n | 0 <= n < |args| :: Terminated(args[n])
    requires Readable(Chars(fmt), Bodies(args), 0) && Ends(Chars(fmt), Bodies(args), 0) < memory.Length
    modifies memory
    ensures i == Ends(Chars(fmt), Bodies(args), 0)
    ensures memory[..i] <= Expand(Chars(fmt), Bodies(args)) && memory[i] == 0
    ensures forall p | i < p < memory.Length :: memory[p] == old(memory[p])
  {
    ghost var whole, bodies := Chars(fmt), Bodies(args);
    ghost var text, end := Expand(whole, bodies), Ends(whole, bodies, 0);
    ghost var rest, left := whole, bodies;
    i := 0;
    var f, a := 0, 0;
    while fmt[f] != NUL && i < 255
      invariant f <= |whole| && a <= |args| && i <= end
      invariant NUL !in whole && rest == whole[f..] && left == bodies[a..]
      invariant Readable(rest, left, i) && Ends(rest, left, i) == end
      invariant memory[..i] + Expand(rest, left) == text
      invariant forall p | i <= p < memory.Length :: memory[p] == old(memory[p])
      decreases |rest|
    {
      ghost var done := memory[..i];
      NextPiece(rest, left, i);
      if fmt[f] == PERCENT {
        f := f + 1;
        if fmt[f] == LOWER_S {
          Regroup(done, left[0], Expand(rest[2..], left[1..]));
          i := CopyString(memory, i, args[a]);
          a := a + 1;
          left := left[1..];
        }
        f := f + 1;
        rest := rest[2..];
      } else {
        Regroup(done, [rest[0]], Expand(rest[1..], left));
        memory[i] := fmt[f];
        i := i + 1;
        f := f + 1;
        assert memory[..i] == done + [rest[0]];
        rest := rest[1..];
      }
    }
    ghost var done := memory[..i];
    memory[i] := NUL;
    assert memory[..i] == done;
  }

  /** On the 256-byte buffer itself */
  method Format(fmt: seq<uint8>, args: seq<seq<uint8>>) returns (buffer: array<uint8>)
    requires Terminated(fmt) && forall n | 0 <= n < |args| :: Terminated(args[n])
    requires Safe(Chars(fmt), Bodies(args))
    ensures fresh(buffer) && buffer.Length == 256
    ensures Terminated(buffer[..]) && Chars(buffer[..]) == Printed(Chars(fmt), Bodies(args))
  {
    buffer := new uint8[BUFFER_SIZE];
    var i := FormatInto(buffer, fmt, args);
    EndsWithinExpansion(Chars(fmt), Bodies(args), 0);
    ExpandHasNoNul(Chars(fmt), Bodies(args));
    PrefixHasNoNul(buffer[..i], Expand(Chars(fmt), Bodies(args)));
    TerminatedChars(buffer[..i], buffer[..]);
  }

  lemma PrefixHasNoNul(s: seq<uint8>, t: seq<uint8>)
    requires s <= t && NUL !in t
    ensures NUL !in s && s == t[..|s|]
  {
    assert forall n | 0 <= n < |s| :: s[n] == t[n] && t[n] in t;
  }

  /** printk: the console shows the expansion, cut after 255 characters */
  method Print(fmt: seq<uint8>, args: seq<seq<uint8>>, console: Console)
    requires console.Valid()
    requires Terminated(fmt) && forall n | 0 <= n < |args| :: Terminated(args[n])
    requires Safe(Chars(fmt), Bodies(args))
    requires SevenBit(Printed(Chars(fmt), Bodies(args)))
    requires Fits(console.At(), Printed(Chars(fmt), Bodies(args)))
    modifies console`row, console`column, console.buffer
    ensures console.Valid()
    ensures console.At() == CursorAfter(old(console.At()), Printed(Chars(fmt), Bodies(args)))
    ensures console.buffer[..] ==
            Write(old(console.buffer[..]), console.color, old(console.At()), Printed(Chars(fmt), Bodies(args)))
  {
    var buffer := Format(fmt, args);
    console.WriteString(buffer[..]);
  }
}
