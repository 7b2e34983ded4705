# later_operator in Dafny

A model of the `later_operator` crate. The crate defines `ComparisonOperator`, a
closed enum of the six relational operators `!=`, `<`, `<=`, `==`, `>=`, `>`,
together with:

- a byte-level parser (`TryFrom<&[u8]>`) that trims ASCII whitespace and then
  accepts exactly one of seven tokens: the six canonical ones, plus `=` as a
  parse-only alias of `==`;
- the string parsers `TryFrom<&str>` and `FromStr`, which parse the string's bytes;
- the formatters `as_bytes`, `as_str`, `len` and `is_empty`;
- one variant predicate per operator (`is_ne` … `is_gt`);
- `PartialEq<str>` in both directions;
- `compare`, which applies an operator to two values through their type's own
  `PartialEq`/`PartialOrd` operators;
- the one-value `Error` type and its fixed diagnostic
  `unable to parse comparison operator`.

Everything in the core is pure, so the model is made of datatypes, functions
and lemmas:

- `wrappers.dfy`: `Option` and `Result`.
- `ascii.dfy` (module `Ascii`): bytes, `u8::is_ascii_whitespace`, and
  `trim_ascii_start`, `trim_ascii_end` and `trim_ascii` on byte slices. The
  contracts of the first two determine their results; the contract of
  `trim_ascii` places its result inside `trim_ascii_start`'s, and the lemmas
  `TrimAsciiDecomposes` and `TrimAsciiUnique` fix it exactly. Further lemmas
  show that the trim ignores padding and is idempotent.
- `utf8.dfy` (module `Utf8`): `str::as_bytes` as UTF-8 encoding of Dafny
  strings (a `char` is a Unicode scalar value), with the facts the `&str`
  entry points need.
- `errors.dfy` (module `Errors`): the error value and its views (`as_str`,
  `Display`, `AsRef`, `Borrow`).
- `cmp.dfy` (module `Cmp`): the operator, the parsers, the formatters, the
  predicates, text equality, and the laws relating them.
- `comparator.dfy` (module `Comparator`): `compare` over a model of a
  `PartialOrd` implementation, the integer instance, and the pivot counts used
  in the crate's tests.

Two points about the code that the model makes explicit:

- **Whitespace.** `trim_ascii` uses `u8::is_ascii_whitespace`, which trims
  0x20, 0x09, 0x0A, 0x0C and 0x0D but not vertical tab (0x0B);
  `Cmp.ParseRejectsVerticalTab` shows this.
- **The error value.** src/cmp.rs:169 writes `Err(Error)` as if `Error` were a
  unit struct. src/error.rs:11-13 declares an enum with the single variant
  `ComparisonOperator`. Either way it is one value, so the model uses a datatype
  with one constructor.

## Model

| member | source | states |
|---|---|---|
| `Ascii.TrimAsciiStart` | src/cmp.rs:162 | the result is a suffix of the input; everything dropped is ASCII whitespace; the result is empty or starts with a non-whitespace byte |
| `Ascii.TrimAsciiEnd` | src/cmp.rs:162 | the result is a prefix of the input; everything dropped is ASCII whitespace; the result is empty or ends with a non-whitespace byte |
| `Ascii.IsAsciiWhitespace` | src/cmp.rs:162 | the five bytes `trim_ascii` removes: 0x20, 0x09, 0x0A, 0x0C, 0x0D, and not 0x0B |
| `Ascii.TrimAscii` | src/cmp.rs:162 | the trimmed bytes neither start nor end with whitespace; they are a prefix of what `trim_ascii_start` leaves, and the rest of that is whitespace |
| `Ascii.TrimStartSkips` | src/cmp.rs:162 | leading whitespace is dropped whatever follows it |
| `Ascii.TrimEndSkips` | src/cmp.rs:162 | trailing whitespace is dropped whatever precedes it |
| `Ascii.TrimAsciiDecomposes` | src/cmp.rs:162 | every input is leading whitespace, the trimmed core, then trailing whitespace |
| `Ascii.TrimAsciiUnique` | src/cmp.rs:162 | whitespace around a core that is already trimmed is removed, and nothing else is |
| `Ascii.TrimAsciiIgnoresPadding` | src/cmp.rs:162 | adding whitespace on either side never changes the trimmed result |
| `Ascii.TrimAsciiIdempotent` | src/cmp.rs:162 | trimming twice is the same as trimming once |
| `Utf8.EncodeChar` | src/cmp.rs:178 | an ASCII character encodes to one byte of the same value; any other character encodes to a lead byte of at least 0xC0 followed by continuation bytes below 0xC0 |
| `Utf8.Encode` | src/cmp.rs:178 | the bytes of a string are at least as many as its characters, and only the empty string has no bytes |
| `Utf8.EncodeAppend` | src/cmp.rs:178 | the bytes of a concatenation are the concatenation of the bytes |
| `Utf8.EncodeWhitespace` | src/cmp.rs:178 | a string of ASCII whitespace characters has only whitespace bytes |
| `Utf8.EncodeTrimmed` | src/cmp.rs:178 | a string with no whitespace character at either end has no whitespace byte at either end |
| `Utf8.EncodeLast` | src/cmp.rs:178 | the bytes of a non-empty string end with the bytes of its last character |
| `Utf8.EncodeBelow0x80` | src/cmp.rs:178 | a string whose bytes are all below 0x80 has one byte per character, each equal to the character |
| `Utf8.EncodeInjectiveOnAscii` | src/cmp.rs:178 | two strings with the same bytes, one of them ASCII, are the same string |
| `Errors.ErrorIsUnique` | src/error.rs:9-13 | there is exactly one error value |
| `Errors.AsStr` | src/error.rs:20-29 | the diagnostic is "unable to parse comparison operator" |
| `Errors.Fmt` | src/error.rs:16 | `Display` keeps what was already written and appends exactly `as_str` after it |
| `Errors.AsRef` | src/error.rs:15 | `as_ref` is the text `Display` writes into an empty formatter |
| `Errors.Borrow` | src/error.rs:15 | `borrow` gives the same text as `as_ref` |
| `Errors.ErrorRendering` | src/error.rs:15-29 | `as_str` is exactly "unable to parse comparison operator", and `Display`, `AsRef` and `Borrow` all render `as_str` |
| `Cmp.AsBytes` | src/cmp.rs:194-203 | each canonical token is one or two ASCII bytes, with no whitespace at either end |
| `Cmp.AsStr` | src/cmp.rs:217-226 | the bytes of `as_str` are exactly `as_bytes` |
| `Cmp.Len` | src/cmp.rs:238-243 | `len` is the length of `as_bytes` and of `as_str`; it is 1 exactly for `Lt` and `Gt` |
| `Cmp.IsEmpty` | src/cmp.rs:228-232 | `is_empty` is always false, and holds exactly when `len` is 0, that is, when `as_bytes` is empty |
| `Cmp.Match` | src/cmp.rs:162-170 | a success names the operator whose canonical token the bytes are, or `Eq` for `=`; a failure is the one error value |
| `Cmp.Parse` | src/cmp.rs:157-171 | a success names the operator whose token (or, for `Eq`, the alias) the trimmed input is; a failure is the one error value |
| `Cmp.ParseStr` | src/cmp.rs:174-179 | the same for the bytes of a string: a success names the operator the trimmed bytes spell, a failure is the one error value |
| `Cmp.MatchOk` | src/cmp.rs:163-168 | the match arms give `Ok(op)` exactly for the canonical token of `op`, and for `=` when `op` is `Eq` |
| `Cmp.MatchErr` | src/cmp.rs:169 | the match arms reject every other byte sequence, always with the one error value |
| `Cmp.ParseOk` | src/cmp.rs:161-171 | parsing gives `Ok(op)` exactly when the trimmed input is the token of `op`, or is `=` and `op` is `Eq` |
| `Cmp.ParseErr` | src/cmp.rs:161-171 | parsing fails exactly when the trimmed input is none of the seven tokens, and every failure is the one error value |
| `Cmp.ParseUntrimmed` | src/cmp.rs:162 | input with no whitespace at either end reaches the match arms unchanged |
| `Cmp.ParseAsBytes` | src/cmp.rs:162-203 | parsing the canonical bytes of any operator gives back that operator |
| `Cmp.ParseStrAsStr` | src/cmp.rs:130-136 | parsing the canonical string of any operator through the `&str` entry points gives back that operator |
| `Cmp.ParseAlias` | src/cmp.rs:166 | `=` parses to `Eq`, the same as `==`, but `Eq` is written `==`, never `=` |
| `Cmp.ParseIgnoresPadding` | src/cmp.rs:162 | for any input, whitespace bytes added on either side never change the parse result |
| `Cmp.ParseStrIgnoresPadding` | src/cmp.rs:174-179 | for any string, whitespace characters added on either side never change the parse result |
| `Cmp.ParsePaddedToken` | src/cmp.rs:328-336 | a canonical token with whitespace on either side parses to its operator |
| `Cmp.ParseRejectsExamples` | src/cmp.rs:169 | "", " ", "~", "<>", "=<" and "< =" all fail with the one error value |
| `Cmp.RejectsPadded` | src/cmp.rs:162-169 | whitespace around any trimmed core that is none of the seven tokens fails with the one error value |
| `Cmp.ParseRejectsVerticalTab` | src/cmp.rs:162 | a leading vertical tab is not trimmed, so the input is rejected, while a leading space is trimmed |
| `Cmp.IsNe` | src/cmp.rs:258 | `is_ne` holds exactly for the operator written `!=` |
| `Cmp.IsLt` | src/cmp.rs:259 | `is_lt` holds exactly for the operator written `<` |
| `Cmp.IsLe` | src/cmp.rs:260 | `is_le` holds exactly for the operator written `<=` |
| `Cmp.IsEq` | src/cmp.rs:261 | `is_eq` holds exactly for the operator written `==` |
| `Cmp.IsGe` | src/cmp.rs:262 | `is_ge` holds exactly for the operator written `>=` |
| `Cmp.IsGt` | src/cmp.rs:263 | `is_gt` holds exactly for the operator written `>` |
| `Cmp.OpEqStr` | src/cmp.rs:139-142 | `op == s` holds exactly when the bytes of `s` are `as_bytes(op)`, and then `s` parses back to `op` |
| `Cmp.StrEqOp` | src/cmp.rs:144-147 | `s == op` holds exactly when `op == s` does |
| `Cmp.PredicatesExclusive` | src/cmp.rs:247-264 | for every operator exactly one of the six `is_*` predicates holds, the one that names its variant |
| `Cmp.TextEqualitySymmetric` | src/cmp.rs:139-147 | `op == s` holds exactly when `s == op` does; a string equal to an operator parses back to it; `Eq` does not equal `"="` from either side |
| `Cmp.ParseStrUnpadded` | src/cmp.rs:139-178 | on a string with no whitespace at either end, parsing gives `Ok(op)` exactly when the string equals `op`, or is `"="` and `op` is `Eq` |
| `Cmp.EncodeIsToken` | src/cmp.rs:217-226 | a string's bytes are the token of `op` exactly when the string is `as_str(op)` |
| `Cmp.EncodeIsAlias` | src/cmp.rs:166 | a string's bytes are the alias `=` exactly when the string is "=" |
| `Comparator.Compare` | src/cmp.rs:286-295 | `compare` dispatches to `ne`, `lt`, `le`, `eq`, `ge`, `gt` (modelled by `OrdNe` … `OrdGt` on `partial_cmp`); when `eq` agrees with `partial_cmp`, it holds exactly for the outcomes `Accepts` names |
| `Comparator.CompareAccepts` | src/cmp.rs:286-295 | when `==` agrees with `partial_cmp`, `compare` holds exactly for the `partial_cmp` outcomes that the operator names |
| `Comparator.CompareIncomparable` | src/cmp.rs:286-295 | for incomparable values, every operator except `!=` is false |
| `Comparator.CompareNeIsNotEq` | src/cmp.rs:288-291 | `!=` is always the negation of `==` |
| `Comparator.CompareConverse` | src/cmp.rs:289-293 | when `partial_cmp` is antisymmetric, `a < b` is `b > a` and `a <= b` is `b >= a`, so the operands are not swapped |
| `Comparator.CompareInt` | src/cmp.rs:286-295 | on integers, each operator is the relation it names: `!=`, `<`, `<=`, `==`, `>=`, `>` |
| `Comparator.Count` | src/cmp.rs:393 | the number of values an operator accepts against the pivot is at most the number of values |
| `Comparator.Range` | src/cmp.rs:389 | the set is the values 0 to n - 1, in order |
| `Comparator.CountAppend` | src/cmp.rs:393 | counting over a concatenation adds the counts of the two parts |
| `Comparator.CountUniform` | src/cmp.rs:393 | when every value gives the same answer, the count is all of them or none |
| `Comparator.PivotCounts` | src/cmp.rs:387-411 | with pivot p against 0..n-1: `!=` gives n-1, `<` gives n-1-p, `<=` gives n-p, `==` gives 1, `>=` gives p+1, `>` gives p |
| `Comparator.CompareCountsOverSet` | src/cmp.rs:398-410 | over 0..6, pivot 3 gives 6, 3, 4, 1, 4, 3; pivot 0 gives 6 for `<` and 7 for `<=`; pivot 6 gives 7 for `>=` and 6 for `>` |
| `Comparator.CompareExamples` | src/cmp.rs:275-284 | `<=` parsed from text holds of 3 and 255; for 50 against 60, the six operators give true, true, true, false, false, false |

## Left out

- Serde support (src/cmp.rs:97-128, 149-155; src/macros.rs:19-51, 90-100) is not modelled: it adapts an external library. Serializing writes `as_str`, and deserializing calls the same `&str` and `&[u8]` parsers that are modelled here.
- `Display`, `AsRef<[u8]>`, `AsRef<str>` and `Borrow<str>` for the operator (src/cmp.rs:75-95) are not modelled as separate members. Each one only forwards to `as_str` or `as_bytes`.
- The derived `Debug`, `Clone`, `Copy`, `Hash` and `Ord` of the enum (src/cmp.rs:14) are left out. Dafny datatype equality stands for the derived `PartialEq`, and the declaration order has no meaning.
- The `std::error::Error` impl (src/error.rs:18) is left out: it is a marker with no behaviour.
- src/macros.rs only generates trait impls. It is modelled only through what those impls do for `Error`: `Display` writes `as_str`; `AsRef` and `Borrow` return it.
- src/lib.rs holds only lint settings, module declarations and re-exports. Nothing in it is modelled.
- `FromStr` and `TryFrom<&str>` run the same call, `try_from(src.as_bytes())`. Both are one function, `Cmp.ParseStr`.
- `Errors.Fmt` models `Display` as appending to the text already written. Formatter failure (`fmt::Result`) is left out.
- `Comparator.Compare` models `T: PartialOrd` as a pair of functions, `eq` and `partial_cmp`. It uses Rust's provided `ne`, `lt`, `le`, `gt` and `ge` on top of them. A type that overrides those methods with results that disagree with `partial_cmp` is not modelled. Floating point is not modelled; incomparable values are modelled by `partial_cmp` returning `None`.
- The crate's tests count over `u8` values. `Comparator.Count` counts over mathematical integers, which is the same for 0..6.
- The `usize` width of `len` is left out, since the length is always 1 or 2.
