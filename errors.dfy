/** The library's error type: one value, one fixed diagnostic. */
module Errors {

  /** The only error: the input is not a comparison operator. */
  datatype Error = ComparisonOperator

  /** `Error::as_str`: the diagnostic for the error. */
  function AsStr(e: Error): (r: string)
    ensures r == "unable to parse comparison operator"
  {
    match e
    case ComparisonOperator => "unable to parse comparison operator"
  }

  /**
   * `Display::fmt`, generated as `f.write_str(self.as_str())`: appends the
   * diagnostic to what the formatter has written so far.
   */
  function Fmt(e: Error, written: string): (r: string)
    ensures |r| == |written| + |AsStr(e)|
    ensures r[..|written|] == written && r[|written|..] == AsStr(e)
  {
    written + AsStr(e)
  }

  /**
   * `AsRef<str>::as_ref`, generated to return `as_str`: the same text that
   * `Display` writes into an empty formatter.
   */
  function AsRef(e: Error): (r: string)
    ensures r == Fmt(e, "")
  {
    AsStr(e)
  }

  /** `Borrow<str>::borrow`, generated to return `as_str`, as `as_ref` does. */
  function Borrow(e: Error): (r: string)
    ensures r == AsRef(e)
  {
    AsStr(e)
  }

  /** There is exactly one error value: any two errors are equal. */
  lemma {:induction false} ErrorIsUnique(e1: Error, e2: Error)
    ensures e1 == e2 == ComparisonOperator
  {
  }

  /**
   * Every textual view of the error (`as_str`, `Display`, `AsRef`, `Borrow`)
   * is the one fixed diagnostic.
   */
  lemma {:induction false} ErrorRendering(e: Error, written: string)
    ensures AsStr(e) == "unable to parse comparison operator"
    ensures Fmt(e, written) == written + AsStr(e)
    ensures AsRef(e) == AsStr(e) && Borrow(e) == AsStr(e)
  {
  }
}
