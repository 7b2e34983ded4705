/**
 * `ComparisonOperator`: the six relational operators, their canonical text, and
 * the parser that reads them back from bytes or strings.
 */
module Cmp {
  import opened Wrappers
  import opened Ascii
  import opened Utf8
  import Errors

  /** The six comparison operators, in declaration order. */
  datatype ComparisonOperator = Ne | Lt | Le | Eq | Ge | Gt

  /** The ASCII bytes the tokens are made of. */
  const BANG: byte := 0x21     // '!'
  const LESS: byte := 0x3C     // '<'
  const EQUALS: byte := 0x3D   // '='
  const GREATER: byte := 0x3E  // '>'

  /**
   * The match arms of `TryFrom<&[u8]>`: the already trimmed bytes must be
   * exactly one of the six canonical tokens or the alias `=` for `==`. Any
   * other input is refused with the one error value.
   */
  function Match(t: seq<byte>): (r: Result<ComparisonOperator, Errors.Error>)
    ensures r.Ok? ==> t == AsBytes(r.value) || (r.value == Eq && t == [EQUALS])
    ensures r.Err? ==> r == Err(Errors.ComparisonOperator)
  {
    if t == [BANG, EQUALS] then Ok(Ne)
    else if t == [LESS] then Ok(Lt)
    else if t == [LESS, EQUALS] then Ok(Le)
    else if t == [EQUALS, EQUALS] || t == [EQUALS] then Ok(Eq)
    else if t == [GREATER, EQUALS] then Ok(Ge)
    else if t == [GREATER] then Ok(Gt)
    else Err(Errors.ComparisonOperator)
  }

  /**
   * `TryFrom<&[u8]>`: trims ASCII whitespace, then matches the tokens. A
   * success names the operator whose token (or alias) the trimmed input is.
   */
  function Parse(src: seq<byte>): (r: Result<ComparisonOperator, Errors.Error>)
    ensures r.Ok? ==> TrimAscii(src) == AsBytes(r.value) || (r.value == Eq && TrimAscii(src) == [EQUALS])
    ensures r.Err? ==> r == Err(Errors.ComparisonOperator)
  {
    Match(TrimAscii(src))
  }

  /**
   * `TryFrom<&str>` and `FromStr`: both parse the string's bytes. A success
   * names the operator whose token (or alias) the trimmed bytes are.
   */
  function ParseStr(src: string): (r: Result<ComparisonOperator, Errors.Error>)
    ensures r.Ok? ==> TrimAscii(Encode(src)) == AsBytes(r.value) || (r.value == Eq && TrimAscii(Encode(src)) == [EQUALS])
    ensures r.Err? ==> r == Err(Errors.ComparisonOperator)
  {
    Parse(Encode(src))
  }

  /** `as_bytes`: the canonical token, one or two ASCII bytes with no whitespace. */
  function AsBytes(op: ComparisonOperator): (r: seq<byte>)
    ensures 1 <= |r| <= 2 && Trimmed(r)
    ensures forall i :: 0 <= i < |r| ==> r[i] < 0x80
  {
    match op
    case Lt => [LESS]
    case Le => [LESS, EQUALS]
    case Eq => [EQUALS, EQUALS]
    case Ge => [GREATER, EQUALS]
    case Gt => [GREATER]
    case Ne => [BANG, EQUALS]
  }

  /** `as_str`: the canonical token as a string; its bytes are `as_bytes`. */
  function AsStr(op: ComparisonOperator): (r: string)
    ensures Encode(r) == AsBytes(op)
  {
    match op
    case Lt => "<"
    case Le => "<="
    case Eq => "=="
    case Ge => ">="
    case Gt => ">"
    case Ne => "!="
  }

  /**
   * `len`: the byte length of the canonical token, 1 for `<` and `>` and 2
   * for the others.
   */
  function Len(op: ComparisonOperator): (r: nat)
    ensures r == |AsBytes(op)| == |AsStr(op)|
    ensures r == 1 <==> op == Lt || op == Gt
  {
    match op
    case Lt | Gt => 1
    case _ => 2
  }

  /** `is_empty`: whether the canonical token is empty, which it never is. */
  function IsEmpty(op: ComparisonOperator): (r: bool)
    ensures r <==> Len(op) == 0
    ensures r <==> AsBytes(op) == []
    ensures !r
  {
    false
  }

  /** `is_ne` and its five siblings: whether the operator is that variant, the one written as the named token. */
  function IsNe(op: ComparisonOperator): (r: bool) ensures r <==> AsStr(op) == "!=" { op.Ne? }
  function IsLt(op: ComparisonOperator): (r: bool) ensures r <==> AsStr(op) == "<" { op.Lt? }
  function IsLe(op: ComparisonOperator): (r: bool) ensures r <==> AsStr(op) == "<=" { op.Le? }
  function IsEq(op: ComparisonOperator): (r: bool) ensures r <==> AsStr(op) == "==" { op.Eq? }
  function IsGe(op: ComparisonOperator): (r: bool) ensures r <==> AsStr(op) == ">=" { op.Ge? }
  function IsGt(op: ComparisonOperator): (r: bool) ensures r <==> AsStr(op) == ">" { op.Gt? }

  /**
   * `PartialEq<str> for ComparisonOperator`: equal to the canonical token, that
   * is, the string's bytes are `as_bytes`; such a string parses back to `op`.
   */
  function OpEqStr(op: ComparisonOperator, other: string): (r: bool)
    ensures r <==> Encode(other) == AsBytes(op)
    ensures r ==> ParseStr(other) == Ok(op)
  {
    EncodeIsToken(other, op);
    ParseStrAsStr(op);
    AsStr(op) == other
  }

  /** `PartialEq<ComparisonOperator> for str`: the same test, from the other side. */
  function StrEqOp(s: string, other: ComparisonOperator): (r: bool)
    ensures r <==> OpEqStr(other, s)
  {
    s == AsStr(other)
  }

  /** Parsing the canonical bytes of an operator gives back that operator. */
  lemma {:induction false} ParseAsBytes(op: ComparisonOperator)
    ensures Parse(AsBytes(op)) == Ok(op)
  {
    ParseUntrimmed(AsBytes(op));
    MatchOk(AsBytes(op), op);
  }

  /** Input without surrounding whitespace goes to the match arms unchanged. */
  lemma {:induction false} ParseUntrimmed(t: seq<byte>)
    requires Trimmed(t)
    ensures Parse(t) == Match(t)
  {
    assert [] + t + [] == t;
    TrimAsciiUnique([], t, []);
  }

  /** Parsing the canonical string of an operator gives back that operator. */
  lemma {:induction false} ParseStrAsStr(op: ComparisonOperator)
    ensures ParseStr(AsStr(op)) == Ok(op)
  {
    ParseAsBytes(op);
  }

  /**
   * What parsing accepts: `Parse(src)` is `Ok(op)` exactly when the trimmed
   * input is the canonical token of `op`, or is `=` and `op` is `Eq`.
   */
  lemma {:induction false} ParseOk(src: seq<byte>, op: ComparisonOperator)
    ensures Parse(src) == Ok(op) <==>
      TrimAscii(src) == AsBytes(op) || (op == Eq && TrimAscii(src) == [EQUALS])
  {
    MatchOk(TrimAscii(src), op);
  }

  /** The match arms accept exactly the canonical tokens and the alias. */
  lemma {:induction false} MatchOk(t: seq<byte>, op: ComparisonOperator)
    ensures Match(t) == Ok(op) <==> t == AsBytes(op) || (op == Eq && t == [EQUALS])
  {
  }

  /**
   * What parsing rejects: any trimmed input other than the seven tokens, and
   * every rejection is the one error value.
   */
  lemma {:induction false} ParseErr(src: seq<byte>)
    ensures Parse(src).Err? <==>
      TrimAscii(src) != [EQUALS] && forall op :: TrimAscii(src) != AsBytes(op)
    ensures Parse(src).Err? ==> Parse(src) == Err(Errors.ComparisonOperator)
  {
    MatchErr(TrimAscii(src));
  }

  /** The match arms reject everything but the seven tokens, with the one error. */
  lemma {:induction false} MatchErr(t: seq<byte>)
    ensures Match(t).Err? <==> t != [EQUALS] && forall op :: t != AsBytes(op)
    ensures Match(t).Err? ==> Match(t) == Err(Errors.ComparisonOperator)
  {
    if Match(t).Ok? {
      MatchOk(t, Match(t).value);
    }
  }

  /** The alias `=` parses like `==`, but `Eq` is always written `==`. */
  lemma {:induction false} ParseAlias()
    ensures ParseStr("=") == ParseStr("==") == Ok(Eq)
    ensures AsStr(Eq) == "==" != "="
  {
    assert ParseStr("=") == Ok(Eq) by {
      assert Encode("=") == [EQUALS];
      ParseUntrimmed([EQUALS]);
      MatchOk([EQUALS], Eq);
    }
    ParseStrAsStr(Eq);
  }

  /** Leading and trailing ASCII whitespace bytes never change the outcome. */
  lemma {:induction false} ParseIgnoresPadding(p: seq<byte>, src: seq<byte>, q: seq<byte>)
    requires AllWhitespace(p) && AllWhitespace(q)
    ensures Parse(p + src + q) == Parse(src)
  {
    TrimAsciiIgnoresPadding(p, src, q);
  }

  /** Leading and trailing ASCII whitespace characters never change the outcome. */
  lemma {:induction false} ParseStrIgnoresPadding(p: string, src: string, q: string)
    requires AllWhitespaceChars(p) && AllWhitespaceChars(q)
    ensures ParseStr(p + src + q) == ParseStr(src)
  {
    EncodeAppend(p, src);
    EncodeAppend(p + src, q);
    EncodeWhitespace(p);
    EncodeWhitespace(q);
    ParseIgnoresPadding(Encode(p), Encode(src), Encode(q));
  }

  /** A padded canonical token parses to its operator. */
  lemma {:induction false} ParsePaddedToken(p: seq<byte>, op: ComparisonOperator, q: seq<byte>)
    requires AllWhitespace(p) && AllWhitespace(q)
    ensures Parse(p + AsBytes(op) + q) == Ok(op)
  {
    ParseIgnoresPadding(p, AsBytes(op), q);
    ParseAsBytes(op);
  }

  /**
   * Inputs that are rejected: empty, whitespace only, an unknown symbol, a
   * reversed or unknown pair, and internal whitespace.
   */
  lemma {:induction false} ParseRejectsExamples(s: string)
    requires s in ["", " ", "~", "<>", "=<", "< ="]
    ensures ParseStr(s) == Err(Errors.ComparisonOperator)
  {
    if s == "" {
      RejectsString(s, [], []);
    } else if s == " " {
      RejectsString(s, [0x20], []);
    } else if s == "~" {
      RejectsString(s, [], [0x7E]);
    } else if s == "<>" {
      RejectsString(s, [], [LESS, GREATER]);
    } else if s == "=<" {
      RejectsString(s, [], [EQUALS, LESS]);
    } else {
      RejectsString(s, [], [LESS, 0x20, EQUALS]);
    }
  }

  /** A helper for `ParseRejectsExamples`: `s` is whitespace then a core no arm matches. */
  lemma {:induction false} RejectsString(s: string, p: seq<byte>, t: seq<byte>)
    requires Encode(s) == p + t && AllWhitespace(p) && Trimmed(t)
    requires t != [EQUALS] && forall op :: t != AsBytes(op)
    ensures ParseStr(s) == Err(Errors.ComparisonOperator)
  {
    RejectsPadded(p, t, []);
    assert p + t + [] == p + t;
  }

  /**
   * A vertical tab (0x0B) is not ASCII whitespace, so it is not trimmed and
   * the input is rejected.
   */
  lemma {:induction false} ParseRejectsVerticalTab()
    ensures Parse([0x0B, LESS]) == Err(Errors.ComparisonOperator)
    ensures Parse([0x20, LESS]) == Ok(Lt)
  {
    var t: seq<byte> := [0x0B, LESS];
    assert Trimmed(t);
    assert t != [EQUALS];
    assert forall op :: t != AsBytes(op) by {
      forall op ensures t != AsBytes(op) { assert AsBytes(op)[0] != 0x0B; }
    }
    RejectsPadded([], t, []);
    assert [] + t + [] == t;
    ParsePaddedToken([0x20], Lt, []);
    assert [0x20] + AsBytes(Lt) + [] == [0x20, LESS];
  }

  /**
   * An input that trims to something other than the seven tokens is rejected:
   * whitespace around a trimmed core that no arm matches gives the one error.
   */
  lemma {:induction false} RejectsPadded(p: seq<byte>, t: seq<byte>, q: seq<byte>)
    requires AllWhitespace(p) && AllWhitespace(q) && Trimmed(t)
    requires t != [EQUALS] && forall op :: t != AsBytes(op)
    ensures Parse(p + t + q) == Err(Errors.ComparisonOperator)
  {
    TrimAsciiUnique(p, t, q);
    MatchErr(t);
  }

  /** Exactly one of the six variant predicates holds, the one naming the variant. */
  lemma {:induction false} PredicatesExclusive(op: ComparisonOperator)
    ensures (if IsNe(op) then 1 else 0) + (if IsLt(op) then 1 else 0) + (if IsLe(op) then 1 else 0)
          + (if IsEq(op) then 1 else 0) + (if IsGe(op) then 1 else 0) + (if IsGt(op) then 1 else 0) == 1
    ensures IsNe(op) <==> op == Ne
    ensures IsLt(op) <==> op == Lt
    ensures IsLe(op) <==> op == Le
    ensures IsEq(op) <==> op == Eq
    ensures IsGe(op) <==> op == Ge
    ensures IsGt(op) <==> op == Gt
  {
  }

  /**
   * Text equality is symmetric and canonical only: an operator equals a string
   * from either side exactly when the string is its token, that string parses
   * back to it, and `Eq` does not equal its alias `=`.
   */
  lemma {:induction false} TextEqualitySymmetric(op: ComparisonOperator, s: string)
    ensures OpEqStr(op, s) <==> StrEqOp(s, op)
    ensures OpEqStr(op, s) ==> ParseStr(s) == Ok(op)
    ensures !OpEqStr(Eq, "=") && !StrEqOp("=", Eq)
  {
    if OpEqStr(op, s) {
      ParseStrAsStr(op);
    }
  }

  /**
   * On a string with no surrounding ASCII whitespace, parsing succeeds exactly
   * for the operator the string equals, plus the alias `=` for `Eq`.
   */
  lemma {:induction false} ParseStrUnpadded(s: string, op: ComparisonOperator)
    requires s == [] || (!IsAsciiWhitespaceChar(s[0]) && !IsAsciiWhitespaceChar(s[|s| - 1]))
    ensures ParseStr(s) == Ok(op) <==> OpEqStr(op, s) || (op == Eq && s == "=")
  {
    EncodeTrimmed(s);
    ParseUntrimmed(Encode(s));
    MatchOk(Encode(s), op);
    EncodeIsToken(s, op);
    EncodeIsAlias(s);
  }

  /** A string's bytes are an operator's token exactly when the string is its `as_str`. */
  lemma {:induction false} EncodeIsToken(s: string, op: ComparisonOperator)
    ensures Encode(s) == AsBytes(op) <==> s == AsStr(op)
  {
    if Encode(s) == AsBytes(op) {
      EncodeInjectiveOnAscii(s, AsStr(op));
    }
  }

  /** A string's bytes are the alias `=` exactly when the string is "=". */
  lemma {:induction false} EncodeIsAlias(s: string)
    ensures Encode(s) == [EQUALS] <==> s == "="
  {
    assert Encode("=") == [EQUALS];
    if Encode(s) == [EQUALS] {
      EncodeInjectiveOnAscii(s, "=");
    }
  }
}
