/**
 * `ComparisonOperator::compare`: applying an operator to two values through
 * the value type's own `PartialEq`/`PartialOrd` operators.
 */
module Comparator {
  import opened Wrappers
  import opened Cmp

  /** `std::cmp::Ordering`. */
  datatype Ordering = Less | Equal | Greater

  /**
   * What a `T: PartialOrd` supplies: `PartialEq::eq` and `PartialOrd::partial_cmp`.
   * `partialCmp` yields `None` for values that are not comparable (as NaN is).
   */
  datatype PartialOrd<!T> = PartialOrd(eq: (T, T) -> bool, partialCmp: (T, T) -> Option<Ordering>)

  /** The provided `ne` of `PartialEq`: not `eq`. */
  predicate OrdNe<T>(ord: PartialOrd<T>, a: T, b: T) {
    !ord.eq(a, b)
  }

  /** The provided `lt` of `PartialOrd`: `partial_cmp` is `Some(Less)`. */
  predicate OrdLt<T>(ord: PartialOrd<T>, a: T, b: T) {
    ord.partialCmp(a, b) == Some(Less)
  }

  /** The provided `le` of `PartialOrd`: `partial_cmp` is `Some(Less)` or `Some(Equal)`. */
  predicate OrdLe<T>(ord: PartialOrd<T>, a: T, b: T) {
    var o := ord.partialCmp(a, b);
    o == Some(Less) || o == Some(Equal)
  }

  /** The provided `ge` of `PartialOrd`: `partial_cmp` is `Some(Greater)` or `Some(Equal)`. */
  predicate OrdGe<T>(ord: PartialOrd<T>, a: T, b: T) {
    var o := ord.partialCmp(a, b);
    o == Some(Greater) || o == Some(Equal)
  }

  /** The provided `gt` of `PartialOrd`: `partial_cmp` is `Some(Greater)`. */
  predicate OrdGt<T>(ord: PartialOrd<T>, a: T, b: T) {
    ord.partialCmp(a, b) == Some(Greater)
  }

  /**
   * `compare`: a six-way dispatch onto the value type's own operators. When
   * `eq` agrees with `partial_cmp` (as `PartialOrd` requires), the result is
   * the reference reading `Accepts` of the operator.
   */
  function Compare<T>(op: ComparisonOperator, ord: PartialOrd<T>, lhs: T, rhs: T): (r: bool)
    ensures (ord.eq(lhs, rhs) <==> ord.partialCmp(lhs, rhs) == Some(Equal)) ==>
      r == Accepts(op, ord.partialCmp(lhs, rhs))
  {
    match op
    case Ne => OrdNe(ord, lhs, rhs)
    case Lt => OrdLt(ord, lhs, rhs)
    case Le => OrdLe(ord, lhs, rhs)
    case Eq => ord.eq(lhs, rhs)
    case Ge => OrdGe(ord, lhs, rhs)
    case Gt => OrdGt(ord, lhs, rhs)
  }

  /**
   * Reference reading of each operator: the outcomes of `partial_cmp` for
   * which the relation it names holds.
   */
  function Accepts(op: ComparisonOperator, o: Option<Ordering>): bool {
    match op
    case Ne => o != Some(Equal)
    case Lt => o == Some(Less)
    case Le => o == Some(Less) || o == Some(Equal)
    case Eq => o == Some(Equal)
    case Ge => o == Some(Equal) || o == Some(Greater)
    case Gt => o == Some(Greater)
  }

  /** The reverse of an ordering outcome, as `partial_cmp(b, a)` relates to `partial_cmp(a, b)`. */
  function Reverse(o: Option<Ordering>): Option<Ordering> {
    match o
    case None => None
    case Some(Less) => Some(Greater)
    case Some(Equal) => Some(Equal)
    case Some(Greater) => Some(Less)
  }

  /**
   * When `eq` agrees with `partial_cmp` on the two values (as `PartialOrd`
   * requires), `compare` holds exactly for the outcomes the operator names.
   */
  lemma {:induction false} CompareAccepts<T>(op: ComparisonOperator, ord: PartialOrd<T>, a: T, b: T)
    requires ord.eq(a, b) <==> ord.partialCmp(a, b) == Some(Equal)
    ensures Compare(op, ord, a, b) == Accepts(op, ord.partialCmp(a, b))
  {
  }

  /**
   * Incomparable values are passed through, not special-cased: every
   * operator but `!=` is false for them.
   */
  lemma {:induction false} CompareIncomparable<T>(op: ComparisonOperator, ord: PartialOrd<T>, a: T, b: T)
    requires ord.eq(a, b) <==> ord.partialCmp(a, b) == Some(Equal)
    requires ord.partialCmp(a, b) == None
    ensures Compare(op, ord, a, b) <==> op == Ne
  {
    CompareAccepts(op, ord, a, b);
  }

  /** `!=` is always the negation of `==`, whatever the value type does. */
  lemma {:induction false} CompareNeIsNotEq<T>(ord: PartialOrd<T>, a: T, b: T)
    ensures Compare(Ne, ord, a, b) == !Compare(Eq, ord, a, b)
  {
  }

  /**
   * Operand order matters and is not mixed up: when `partial_cmp(b, a)` is the
   * reverse of `partial_cmp(a, b)` (as `PartialOrd` requires), `a < b` is
   * `b > a` and `a <= b` is `b >= a`.
   */
  lemma {:induction false} CompareConverse<T>(ord: PartialOrd<T>, a: T, b: T)
    requires ord.partialCmp(b, a) == Reverse(ord.partialCmp(a, b))
    ensures Compare(Lt, ord, a, b) == Compare(Gt, ord, b, a)
    ensures Compare(Le, ord, a, b) == Compare(Ge, ord, b, a)
    ensures Compare(Gt, ord, a, b) == Compare(Lt, ord, b, a)
    ensures Compare(Ge, ord, a, b) == Compare(Le, ord, b, a)
  {
  }

  /** The integers' `PartialEq` and (total) `PartialOrd`. */
  function IntOrd(): PartialOrd<int> {
    PartialOrd(
      (a: int, b: int) => a == b,
      (a: int, b: int) => if a < b then Some(Less) else if a == b then Some(Equal) else Some(Greater))
  }

  /** On integers, `compare` is the relation the operator names. */
  lemma {:induction false} CompareInt(op: ComparisonOperator, a: int, b: int)
    ensures op == Ne ==> (Compare(op, IntOrd(), a, b) <==> a != b)
    ensures op == Lt ==> (Compare(op, IntOrd(), a, b) <==> a < b)
    ensures op == Le ==> (Compare(op, IntOrd(), a, b) <==> a <= b)
    ensures op == Eq ==> (Compare(op, IntOrd(), a, b) <==> a == b)
    ensures op == Ge ==> (Compare(op, IntOrd(), a, b) <==> a >= b)
    ensures op == Gt ==> (Compare(op, IntOrd(), a, b) <==> a > b)
  {
  }

  /** How many values of `xs` satisfy `compare(op, lhs, v)`. */
  function Count(op: ComparisonOperator, lhs: int, xs: seq<int>): (n: nat)
    ensures n <= |xs|
  {
    if xs == [] then 0
    else (if Compare(op, IntOrd(), lhs, xs[0]) then 1 else 0) + Count(op, lhs, xs[1..])
  }

  /** Counting over a concatenation adds the counts of the parts. */
  lemma {:induction false} CountAppend(op: ComparisonOperator, lhs: int, xs: seq<int>, ys: seq<int>)
    ensures Count(op, lhs, xs + ys) == Count(op, lhs, xs) + Count(op, lhs, ys)
  {
    if xs == [] {
      assert xs + ys == ys;
    } else {
      assert (xs + ys)[0] == xs[0];
      assert (xs + ys)[1..] == xs[1..] + ys;
      CountAppend(op, lhs, xs[1..], ys);
    }
  }

  /** When `compare` gives the same answer for every value, the count is all or nothing. */
  lemma {:induction false} CountUniform(op: ComparisonOperator, lhs: int, xs: seq<int>, answer: bool)
    requires forall i :: 0 <= i < |xs| ==> Compare(op, IntOrd(), lhs, xs[i]) == answer
    ensures Count(op, lhs, xs) == if answer then |xs| else 0
  {
    if xs != [] {
      assert Compare(op, IntOrd(), lhs, xs[0]) == answer;
      CountUniform(op, lhs, xs[1..], answer);
    }
  }

  /** The values 0, 1, ..., n - 1. */
  function Range(n: nat): (r: seq<int>)
    ensures |r| == n && forall i :: 0 <= i < n ==> r[i] == i
  {
    seq(n, i => i)
  }

  /**
   * With pivot `p` on the left and the values 0..n-1 on the right, the number
   * of values each operator accepts: `!=` all but one, `<` those above `p`,
   * `<=` those from `p` up, `==` one, `>=` those up to `p`, `>` those below it.
   */
  lemma {:induction false} PivotCounts(p: nat, n: nat)
    requires p < n
    ensures Count(Ne, p, Range(n)) == n - 1
    ensures Count(Lt, p, Range(n)) == n - 1 - p
    ensures Count(Le, p, Range(n)) == n - p
    ensures Count(Eq, p, Range(n)) == 1
    ensures Count(Ge, p, Range(n)) == p + 1
    ensures Count(Gt, p, Range(n)) == p
  {
    var xs := Range(n);
    var below, above := xs[..p], xs[p + 1..];
    assert xs == below + [p] + above;
    forall op: ComparisonOperator
      ensures Count(op, p, xs) == Count(op, p, below) + Count(op, p, [p]) + Count(op, p, above)
    {
      CountAppend(op, p, below + [p], above);
      CountAppend(op, p, below, [p]);
    }
    forall op: ComparisonOperator ensures
      && Count(op, p, below) == (if Compare(op, IntOrd(), p, 0) then p else 0)
      && Count(op, p, above) == (if Compare(op, IntOrd(), p, n) then n - 1 - p else 0)
    {
      forall i | 0 <= i < |below| ensures Compare(op, IntOrd(), p, below[i]) == Compare(op, IntOrd(), p, 0) {
        CompareInt(op, p, below[i]);
        CompareInt(op, p, 0);
      }
      forall i | 0 <= i < |above| ensures Compare(op, IntOrd(), p, above[i]) == Compare(op, IntOrd(), p, n) {
        CompareInt(op, p, above[i]);
        CompareInt(op, p, n);
      }
      CountUniform(op, p, below, Compare(op, IntOrd(), p, 0));
      CountUniform(op, p, above, Compare(op, IntOrd(), p, n));
    }
  }

  /**
   * The counts for the set 0..6: pivot 3 gives 6, 3, 4, 1, 4, 3 for
   * `!=`, `<`, `<=`, `==`, `>=`, `>`; pivot 0 gives 6 for `<` and 7 for `<=`;
   * pivot 6 gives 7 for `>=` and 6 for `>`.
   */
  lemma {:induction false} CompareCountsOverSet()
    ensures Count(Ne, 3, Range(7)) == 6 && Count(Lt, 3, Range(7)) == 3
    ensures Count(Le, 3, Range(7)) == 4 && Count(Eq, 3, Range(7)) == 1
    ensures Count(Ge, 3, Range(7)) == 4 && Count(Gt, 3, Range(7)) == 3
    ensures Count(Lt, 0, Range(7)) == 6 && Count(Le, 0, Range(7)) == 7
    ensures Count(Ge, 6, Range(7)) == 7 && Count(Gt, 6, Range(7)) == 6
  {
    PivotCounts(3, 7);
    PivotCounts(0, 7);
    PivotCounts(6, 7);
  }

  /**
   * The worked example: `<=` parsed from text holds of 3 and 255, and the six
   * operators give true, true, true, false, false, false for 50 against 60.
   */
  lemma {:induction false} CompareExamples()
    ensures ParseStr("<=") == Ok(Le) && Compare(Le, IntOrd(), 3, 255)
    ensures Compare(Ne, IntOrd(), 50, 60) && Compare(Lt, IntOrd(), 50, 60)
    ensures Compare(Le, IntOrd(), 50, 60) && !Compare(Eq, IntOrd(), 50, 60)
    ensures !Compare(Ge, IntOrd(), 50, 60) && !Compare(Gt, IntOrd(), 50, 60)
  {
    ParseStrAsStr(Le);
  }
}
