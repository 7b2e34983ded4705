/**
 * Bytes and the ASCII whitespace trimming of byte slices (`<[u8]>::trim_ascii`),
 * which the operator parser applies before matching.
 */
module Ascii {

  /** An unsigned 8-bit value (`u8`). */
  type byte = b: nat | b < 0x100

  /**
   * `u8::is_ascii_whitespace`: space, horizontal tab, line feed, form feed and
   * carriage return. Vertical tab (0x0B) is deliberately not in the set.
   */
  predicate IsAsciiWhitespace(b: byte) {
    b == 0x20 || b == 0x09 || b == 0x0A || b == 0x0C || b == 0x0D
  }

  /** Every byte of `s` is ASCII whitespace (an empty `s` included). */
  predicate AllWhitespace(s: seq<byte>) {
    forall i :: 0 <= i < |s| ==> IsAsciiWhitespace(s[i])
  }

  /** `s` neither starts nor ends with ASCII whitespace. */
  predicate Trimmed(s: seq<byte>) {
    s == [] || (!IsAsciiWhitespace(s[0]) && !IsAsciiWhitespace(s[|s| - 1]))
  }

  /**
   * `<[u8]>::trim_ascii_start`: the suffix of `s` left after dropping its
   * leading whitespace.
   */
  function TrimAsciiStart(s: seq<byte>): (r: seq<byte>)
    ensures |r| <= |s| && r == s[|s| - |r|..]
    ensures AllWhitespace(s[..|s| - |r|])
    ensures r != [] ==> !IsAsciiWhitespace(r[0])
  {
    if s != [] && IsAsciiWhitespace(s[0]) then
      var r := TrimAsciiStart(s[1..]);
      assert s[..|s| - |r|] == [s[0]] + s[1..][..|s| - 1 - |r|];
      r
    else
      s
  }

  /**
   * `<[u8]>::trim_ascii_end`: the prefix of `s` left after dropping its
   * trailing whitespace.
   */
  function TrimAsciiEnd(s: seq<byte>): (r: seq<byte>)
    ensures |r| <= |s| && r == s[..|r|]
    ensures AllWhitespace(s[|r|..])
    ensures r != [] ==> !IsAsciiWhitespace(r[|r| - 1])
  {
    if s != [] && IsAsciiWhitespace(s[|s| - 1]) then
      var r := TrimAsciiEnd(s[..|s| - 1]);
      assert s[|r|..] == s[..|s| - 1][|r|..] + [s[|s| - 1]];
      r
    else
      s
  }

  /**
   * `<[u8]>::trim_ascii`: `s` without its leading and trailing whitespace.
   * The result is a prefix of `TrimAsciiStart(s)`, so a slice of `s`, and all
   * that it leaves off that suffix is whitespace.
   */
  function TrimAscii(s: seq<byte>): (r: seq<byte>)
    ensures |r| <= |s|
    ensures Trimmed(r)
    ensures |r| <= |TrimAsciiStart(s)| && r == TrimAsciiStart(s)[..|r|]
    ensures AllWhitespace(TrimAsciiStart(s)[|r|..])
  {
    TrimAsciiEnd(TrimAsciiStart(s))
  }

  /** Leading whitespace is skipped whatever follows it. */
  lemma {:induction false} TrimStartSkips(p: seq<byte>, u: seq<byte>)
    requires AllWhitespace(p)
    ensures TrimAsciiStart(p + u) == TrimAsciiStart(u)
  {
    if p != [] {
      assert (p + u)[1..] == p[1..] + u;
      TrimStartSkips(p[1..], u);
    } else {
      assert p + u == u;
    }
  }

  /** Trailing whitespace is skipped whatever precedes it. */
  lemma {:induction false} TrimEndSkips(u: seq<byte>, q: seq<byte>)
    requires AllWhitespace(q)
    ensures TrimAsciiEnd(u + q) == TrimAsciiEnd(u)
  {
    if q != [] {
      assert (u + q)[..|u + q| - 1] == u + q[..|q| - 1];
      TrimEndSkips(u, q[..|q| - 1]);
    } else {
      assert u + q == u;
    }
  }

  /** The whitespace `TrimAscii(s)` removes from the front of `s`. */
  function Leading(s: seq<byte>): (p: seq<byte>)
    ensures AllWhitespace(p)
  {
    s[..|s| - |TrimAsciiStart(s)|]
  }

  /** The whitespace `TrimAscii(s)` removes from the back of `s`. */
  function Trailing(s: seq<byte>): (q: seq<byte>)
    ensures AllWhitespace(q)
  {
    TrimAsciiStart(s)[|TrimAscii(s)|..]
  }

  /** `TrimAscii` splits `s` into whitespace, the trimmed core, and whitespace. */
  lemma {:induction false} TrimAsciiDecomposes(s: seq<byte>)
    ensures s == Leading(s) + TrimAscii(s) + Trailing(s)
  {
    var p, u, r, q := Leading(s), TrimAsciiStart(s), TrimAscii(s), Trailing(s);
    assert s == p + u by {
      SplitAt(s, |s| - |u|);
    }
    assert u == r + q by {
      SplitAt(u, |r|);
    }
    SeqAssociative(p, r, q);
  }

  /** Concatenation is associative. */
  lemma SeqAssociative<T>(a: seq<T>, b: seq<T>, c: seq<T>)
    ensures a + (b + c) == a + b + c
  {
  }

  /** A sequence is its prefix followed by the rest. */
  lemma SplitAt<T>(s: seq<T>, k: nat)
    requires k <= |s|
    ensures s == s[..k] + s[k..]
  {
  }

  /** Whitespace followed by whitespace is whitespace. */
  lemma {:induction false} AllWhitespaceAppend(p: seq<byte>, q: seq<byte>)
    requires AllWhitespace(p) && AllWhitespace(q)
    ensures AllWhitespace(p + q)
  {
    forall i | 0 <= i < |p + q| ensures IsAsciiWhitespace((p + q)[i]) {
      if i < |p| { assert (p + q)[i] == p[i]; } else { assert (p + q)[i] == q[i - |p|]; }
    }
  }

  /**
   * `TrimAscii` is determined by the decomposition: whitespace around a
   * trimmed core is removed, and nothing else is.
   */
  lemma {:induction false} TrimAsciiUnique(p: seq<byte>, t: seq<byte>, q: seq<byte>)
    requires AllWhitespace(p) && AllWhitespace(q) && Trimmed(t)
    ensures TrimAscii(p + t + q) == t
  {
    assert p + t + q == p + (t + q);
    TrimStartSkips(p, t + q);
    if t == [] {
      assert t + q == q;
      TrimStartSkips(q, []);
      assert q + [] == q;
    } else {
      assert (t + q)[0] == t[0];
      TrimEndSkips(t, q);
    }
  }

  /** Padding with whitespace on either side never changes what is trimmed out. */
  lemma {:induction false} TrimAsciiIgnoresPadding(p: seq<byte>, s: seq<byte>, q: seq<byte>)
    requires AllWhitespace(p) && AllWhitespace(q)
    ensures TrimAscii(p + s + q) == TrimAscii(s)
  {
    var t, p', q' := TrimAscii(s), Leading(s), Trailing(s);
    TrimAsciiDecomposes(s);
    calc {
      p + s + q;
      p + (p' + t + q') + q;
      { SeqRegroup(p, p', t, q', q); }
      (p + p') + t + (q' + q);
    }
    AllWhitespaceAppend(p, p');
    AllWhitespaceAppend(q', q);
    TrimAsciiUnique(p + p', t, q' + q);
  }

  /** Regrouping a concatenation of five pieces. */
  lemma SeqRegroup<T>(a: seq<T>, b: seq<T>, c: seq<T>, d: seq<T>, e: seq<T>)
    ensures a + (b + c + d) + e == (a + b) + c + (d + e)
  {
  }

  /** Trimming twice is trimming once. */
  lemma {:induction false} TrimAsciiIdempotent(s: seq<byte>)
    ensures TrimAscii(TrimAscii(s)) == TrimAscii(s)
  {
    assert [] + TrimAscii(s) + [] == TrimAscii(s);
    TrimAsciiUnique([], TrimAscii(s), []);
  }
}
