/**
 * `str::as_bytes`: the UTF-8 bytes of a string. A Dafny `char` is a Unicode
 * scalar value, so a `string` stands for a Rust `&str`.
 */
module Utf8 {
  import opened Ascii

  /** A character below 0x80, encoded as the single byte of the same value. */
  predicate IsAsciiChar(c: char) {
    c as int < 0x80
  }

  /** `char::is_ascii_whitespace`: the whitespace bytes, read as characters. */
  predicate IsAsciiWhitespaceChar(c: char) {
    IsAsciiChar(c) && IsAsciiWhitespace(c as int)
  }

  /** Every character of `s` is ASCII whitespace. */
  predicate AllWhitespaceChars(s: string) {
    forall i :: 0 <= i < |s| ==> IsAsciiWhitespaceChar(s[i])
  }

  /**
   * The UTF-8 encoding of one scalar value: ASCII stays one byte of the same
   * value; anything else starts with a lead byte of at least 0xC0 followed by
   * continuation bytes in 0x80..0xBF.
   */
  function EncodeChar(c: char): (r: seq<byte>)
    ensures 1 <= |r| <= 4
    ensures IsAsciiChar(c) <==> |r| == 1
    ensures IsAsciiChar(c) ==> r[0] == c as int
    ensures !IsAsciiChar(c) ==> r[0] >= 0xC0 && forall i :: 1 <= i < |r| ==> 0x80 <= r[i] < 0xC0
  {
    var n := c as int;
    if n < 0x80 then
      [n]
    else if n < 0x800 then
      [0xC0 + n / 0x40, 0x80 + n % 0x40]
    else if n < 0x10000 then
      [0xE0 + n / 0x1000, 0x80 + n / 0x40 % 0x40, 0x80 + n % 0x40]
    else
      [0xF0 + n / 0x40000, 0x80 + n / 0x1000 % 0x40, 0x80 + n / 0x40 % 0x40, 0x80 + n % 0x40]
  }

  /** `str::as_bytes`: the concatenated encodings of the characters of `s`. */
  function Encode(s: string): (r: seq<byte>)
    ensures |r| >= |s|
    ensures s == [] <==> r == []
  {
    if s == [] then [] else EncodeChar(s[0]) + Encode(s[1..])
  }

  /** Encoding distributes over concatenation. */
  lemma {:induction false} EncodeAppend(s: string, t: string)
    ensures Encode(s + t) == Encode(s) + Encode(t)
  {
    if s == [] {
      assert s + t == t;
    } else {
      assert (s + t)[0] == s[0];
      assert (s + t)[1..] == s[1..] + t;
      EncodeAppend(s[1..], t);
    }
  }

  /** The encoding of a non-empty string ends with the encoding of its last character. */
  lemma {:induction false} EncodeLast(s: string)
    requires s != []
    ensures Encode(s) == Encode(s[..|s| - 1]) + EncodeChar(s[|s| - 1])
  {
    assert s == s[..|s| - 1] + [s[|s| - 1]];
    EncodeAppend(s[..|s| - 1], [s[|s| - 1]]);
    assert Encode([s[|s| - 1]]) == EncodeChar(s[|s| - 1]) + Encode([]);
  }

  /**
   * When every byte of the encoding is below 0x80, the string is ASCII and
   * its encoding is the string itself, character by character.
   */
  lemma {:induction false} EncodeBelow0x80(s: string)
    requires forall i :: 0 <= i < |Encode(s)| ==> Encode(s)[i] < 0x80
    ensures |Encode(s)| == |s|
    ensures forall i :: 0 <= i < |s| ==> Encode(s)[i] == s[i] as int
  {
    if s != [] {
      var e, rest := EncodeChar(s[0]), Encode(s[1..]);
      assert Encode(s) == e + rest;
      assert Encode(s)[0] == e[0];
      assert IsAsciiChar(s[0]);
      forall i | 0 <= i < |rest| ensures rest[i] < 0x80 {
        assert rest[i] == Encode(s)[i + 1];
      }
      EncodeBelow0x80(s[1..]);
    }
  }

  /** Two strings with the same ASCII encoding are the same string. */
  lemma {:induction false} EncodeInjectiveOnAscii(s: string, t: string)
    requires forall i :: 0 <= i < |Encode(t)| ==> Encode(t)[i] < 0x80
    requires Encode(s) == Encode(t)
    ensures s == t
  {
    EncodeBelow0x80(s);
    EncodeBelow0x80(t);
    forall i | 0 <= i < |s| ensures s[i] == t[i] {
      assert s[i] as int == t[i] as int;
    }
  }

  /** A string of whitespace characters encodes to whitespace bytes. */
  lemma {:induction false} EncodeWhitespace(s: string)
    requires AllWhitespaceChars(s)
    ensures AllWhitespace(Encode(s))
  {
    if s != [] {
      EncodeWhitespace(s[1..]);
      var e, rest := EncodeChar(s[0]), Encode(s[1..]);
      forall i | 0 <= i < |e + rest| ensures IsAsciiWhitespace((e + rest)[i]) {
        if i == 0 { assert (e + rest)[0] == e[0]; } else { assert (e + rest)[i] == rest[i - 1]; }
      }
    }
  }

  /**
   * A string that neither starts nor ends with an ASCII whitespace character
   * has an encoding that neither starts nor ends with a whitespace byte.
   */
  lemma {:induction false} EncodeTrimmed(s: string)
    requires s == [] || (!IsAsciiWhitespaceChar(s[0]) && !IsAsciiWhitespaceChar(s[|s| - 1]))
    ensures Trimmed(Encode(s))
  {
    if s != [] {
      var first, last := EncodeChar(s[0]), EncodeChar(s[|s| - 1]);
      var r := Encode(s);
      assert r[0] == first[0];
      EncodeLast(s);
      assert r[|r| - 1] == last[|last| - 1];
      assert !IsAsciiWhitespace(first[0]);
      assert !IsAsciiWhitespace(last[|last| - 1]);
    }
  }
}
