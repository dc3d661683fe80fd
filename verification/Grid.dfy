/** Reading a flat row-major buffer as a sequence of rows. */
module Grid {

  /** The extent of n items of one size: n * size (SpanIsProduct), counted up one item at a
      time so that the proofs that use it stay in linear arithmetic */
  function Span(n: nat, size: nat): nat {
    if n == 0 then 0 else Span(n - 1, size) + size
  }

  lemma {:induction false} SpanIsProduct(n: nat, size: nat)
    ensures Span(n, size) == n * size == size * n
  {
    if n > 0 {
      SpanIsProduct(n - 1, size);
      assert (n - 1) * size == n * size - size;
    }
  }

  lemma {:induction false} SpanGrows(a: nat, b: nat, size: nat)
    requires a < b
    ensures Span(a, size) + size <= Span(b, size)
  {
    if a < b - 1 {
      SpanGrows(a, b - 1, size);
    }
  }

  lemma {:induction false} SpanAdds(a: nat, b: nat, size: nat)
    ensures Span(a + b, size) == Span(a, size) + Span(b, size)
  {
    if b > 0 {
      SpanAdds(a, b - 1, size);
    }
  }

  /** Row `r` of a buffer of `h` rows of `w` elements */
  function Row<T>(flat: seq<T>, w: nat, h: nat, r: nat): (row: seq<T>)
    requires |flat| == Span(h, w) && r < h
    ensures |row| == w
  {
    SpanGrows(r, h, w);
    flat[Span(r, w)..Span(r, w) + w]
  }

  function Rows<T>(flat: seq<T>, w: nat, h: nat): (rows: seq<seq<T>>)
    requires |flat| == Span(h, w)
    ensures |rows| == h
    ensures forall r | 0 <= r < h :: |rows[r]| == w
  {
    seq(h, r requires 0 <= r < h => Row(flat, w, h, r))
  }

  function Constant<T>(w: nat, h: nat, v: T): seq<seq<T>> {
    seq(h, _ => seq(w, _ => v))
  }

  /** Column c of row r is element r * w + c */
  lemma RowsAt<T>(flat: seq<T>, w: nat, h: nat, r: nat, c: nat)
    requires |flat| == Span(h, w) && r < h && c < w
    ensures 0 <= Span(r, w) + c < |flat| && Rows(flat, w, h)[r][c] == flat[Span(r, w) + c]
  {
    SpanGrows(r, h, w);
  }

  /** Writing at element r * w + c changes exactly column c of row r */
  lemma RowsUpdate<T>(flat: seq<T>, w: nat, h: nat, r: nat, c: nat, v: T)
    requires |flat| == Span(h, w) && r < h && c < w
    ensures 0 <= Span(r, w) + c < |flat|
    ensures var rows := Rows(flat, w, h);
            Rows(flat[Span(r, w) + c := v], w, h) == rows[r := rows[r][c := v]]
  {
    SpanGrows(r, h, w);
    var flat' := flat[Span(r, w) + c := v];
    var rows := Rows(flat, w, h);
    forall r' | 0 <= r' < h
      ensures Row(flat', w, h, r') == rows[r := rows[r][c := v]][r']
    {
      SpanGrows(r', h, w);
      if r' < r {
        SpanGrows(r', r, w);
      } else if r < r' {
        SpanGrows(r, r', w);
      }
    }
  }

  /** A buffer filled with one value */
  lemma RowsConstant<T>(flat: seq<T>, w: nat, h: nat, v: T)
    requires |flat| == Span(h, w)
    requires forall p | 0 <= p < |flat| :: flat[p] == v
    ensures Rows(flat, w, h) == Constant(w, h, v)
  {
    forall r | 0 <= r < h
      ensures Row(flat, w, h, r) == seq(w, _ => v)
    {
      SpanGrows(r, h, w);
    }
  }

  /** Moving everything from row `k` on to the front and filling the rest moves whole rows */
  lemma RowsShift<T>(flat: seq<T>, flat': seq<T>, w: nat, h: nat, k: nat, v: T)
    requires |flat| == |flat'| == Span(h, w) && k <= h
    requires Span(h - k, w) + Span(k, w) == |flat|
    requires forall p | 0 <= p < Span(h - k, w) :: flat'[p] == flat[Span(k, w) + p]
    requires forall p | Span(h - k, w) <= p < |flat| :: flat'[p] == v
    ensures Rows(flat', w, h) == Rows(flat, w, h)[k..] + Constant(w, k, v)
  {
    var want := Rows(flat, w, h)[k..] + Constant(w, k, v);
    forall r | 0 <= r < h
      ensures Row(flat', w, h, r) == want[r]
    {
      SpanGrows(r, h, w);
      if r < h - k {
        SpanGrows(r, h - k, w);
        SpanGrows(r + k, h, w);
        SpanAdds(r, k, w);
        assert want[r] == Row(flat, w, h, r + k);
      } else if h - k < r {
        SpanGrows(h - k, r, w);
      }
    }
  }
}
