/** NUL-terminated strings: what `while(*str)` walks over. */
module CStrings {
  import opened Bits

  const NUL: uint8 := 0
  const NEWLINE: uint8 := 10
  const PERCENT: uint8 := 37
  const LOWER_S: uint8 := 115

  predicate Terminated(s: seq<uint8>) {
    NUL in s
  }

  ghost predicate FirstNul(s: seq<uint8>, n: nat) {
    n < |s| && s[n] == NUL && NUL !in s[..n]
  }

  /** The position of the first NUL */
  ghost function Length(s: seq<uint8>): (n: nat)
    requires Terminated(s)
    ensures FirstNul(s, n)
  {
    FirstNulExists(s);
    var n :| FirstNul(s, n);
    n
  }

  lemma FirstNulExists(s: seq<uint8>)
    requires Terminated(s)
    ensures exists n :: FirstNul(s, n)
  {
    var k :| 0 <= k < |s| && s[k] == NUL;
    FirstNulUpTo(s, k);
  }

  lemma {:induction false} FirstNulUpTo(s: seq<uint8>, k: nat)
    requires k < |s| && s[k] == NUL
    ensures exists n :: FirstNul(s, n)
  {
    if NUL in s[..k] {
      var m :| 0 <= m < k && s[m] == NUL;
      FirstNulUpTo(s, m);
    } else {
      assert FirstNul(s, k);
    }
  }

  /** A walk that has met no NUL yet has not passed the end */
  lemma BeforeNul(s: seq<uint8>, p: nat)
    requires Terminated(s) && p <= Length(s) && s[p] != NUL
    ensures p < Length(s) && s[..p + 1] == s[..p] + [s[p]]
  {
  }

  /** The characters before the terminator */
  ghost function Chars(s: seq<uint8>): (t: seq<uint8>)
    requires Terminated(s)
    ensures NUL !in t
  {
    s[..Length(s)]
  }

  lemma TerminatedChars(t: seq<uint8>, s: seq<uint8>)
    requires NUL !in t && |t| < |s| && s[..|t|] == t && s[|t|] == NUL
    ensures Terminated(s) && Chars(s) == t
  {
    assert s[|t|] in s;
    OnlyOneFirst(s, |t|, Length(s));
  }

  lemma OnlyOneFirst(s: seq<uint8>, n: nat, m: nat)
    requires FirstNul(s, n) && FirstNul(s, m)
    ensures n == m
  {
  }

  /** Characters since the last newline, `first` of them before the text began */
  function Column(first: nat, t: seq<uint8>): nat {
    if t == [] then first
    else if t[|t| - 1] == NEWLINE then 0
    else Column(first, t[..|t| - 1]) + 1
  }

  /** In bytes: a string ends at its first 0, and without a 0 it is no string */
  lemma EndsAtZero(t: seq<uint8>, rest: seq<uint8>)
    requires 0 !in t
    ensures !Terminated(t) && Terminated(t + [0] + rest) && Chars(t + [0] + rest) == t
  {
    var s := t + [0] + rest;
    assert s[|t|] == 0;
    TerminatedChars(t, s);
  }
}
