/** The offset/limit to page conversion of both PageableConverter classes, with
    Java's 32-bit truncating division and the checks of Spring's PageRequest.of. */
module Pageable {
  import opened Wrappers
  import opened Errors

  const MinInt: int := -0x8000_0000
  const MaxInt: int := 0x7fff_ffff

  /** A Java `int` (the converters take `Integer` parameters). */
  type Int32 = x: int | MinInt <= x <= MaxInt

  function Abs(x: int): nat {
    if x < 0 then -x else x
  }

  lemma {:induction false} MulMonotone(q: nat, a: nat, b: nat)
    requires a <= b
    ensures q * a <= q * b
  {
  }

  /** Java's `a / b` on `int`: rounds toward zero, throws ArithmeticException
      when `b` is zero, and wraps `MIN_VALUE / -1` back to `MIN_VALUE`. */
  function JavaDiv(a: Int32, b: Int32): (r: Result<Int32, Error>)
    ensures r.Failure? <==> b == 0
    ensures r.Failure? ==> r.error == DivisionByZero
    ensures a == MinInt && b == -1 ==> r == Success(MinInt)
  {
    if b == 0 then Failure(DivisionByZero)
    else if a == MinInt && b == -1 then Success(MinInt)
    else
      var q := Abs(a) / Abs(b);
      QuotientFits(a, b);
      Success(if (a < 0) == (b < 0) then q else -q)
  }

  /** `q` is `a / b` rounded toward zero: the remainder it leaves is smaller
      than the divisor and has the dividend's sign, as `%` does in Java. */
  predicate RoundsTowardZero(a: int, b: int, q: int) {
    var rem := a - q * b;
    Abs(rem) < Abs(b) && (rem == 0 || (rem < 0) == (a < 0))
  }

  lemma {:induction false} TruncatedRemainder(a: int, b: int)
    requires b != 0
    ensures var q := Abs(a) / Abs(b); RoundsTowardZero(a, b, if (a < 0) == (b < 0) then q else -q)
  {
    var x: int, y: int := Abs(a), Abs(b);
    var q: int := x / y;
    DivBlock(x, y);
    SignedProduct(a, b, q);
    assert a - (if (a < 0) == (b < 0) then q else -q) * b == (if a < 0 then -(x - q * y) else x - q * y);
  }

  /** The quotient's sign times the divisor's is the dividend's sign. */
  lemma {:induction false} SignedProduct(a: int, b: int, q: int)
    requires b != 0
    ensures (if (a < 0) == (b < 0) then q else -q) * b == (if a < 0 then -(q * Abs(b)) else q * Abs(b))
  {
    var y: int := Abs(b);
    if b > 0 {
      assert b == y;
      assert (-q) * y == -(q * y);
    } else {
      assert b == -y;
      assert (-q) * (-y) == q * y;
      assert q * (-y) == -(q * y);
    }
  }

  /** The truncated quotient fits in an `int` except for `MIN_VALUE / -1`. */
  lemma {:induction false} QuotientFits(a: Int32, b: Int32)
    requires b != 0 && !(a == MinInt && b == -1)
    ensures var q := Abs(a) / Abs(b); MinInt <= -q && ((a < 0) == (b < 0) ==> q <= MaxInt)
  {
    QuotientHalves(Abs(a), Abs(b));
  }

  /** Dividing by one keeps the dividend; by anything larger at most halves it. */
  lemma {:induction false} QuotientHalves(x: nat, y: nat)
    requires y >= 1
    ensures y == 1 ==> x / y == x
    ensures y >= 2 ==> 2 * (x / y) <= x
  {
    var q: int := x / y;
    var r: int := x % y;
    assert x == q * y + r && 0 <= r;
    if y >= 2 {
      assert q >= 0;
      MulMonotone(q, 2, y);
    }
  }

  /** For a non-negative dividend and a positive divisor Java's division is the
      mathematical floor, so the dividend falls inside the quotient's block. */
  lemma {:induction false} JavaDivNonNegative(a: Int32, b: Int32)
    requires a >= 0 && b > 0
    ensures JavaDiv(a, b) == Success(a / b)
    ensures (a / b) * b <= a < (a / b + 1) * b
  {
    assert Abs(a) == a && Abs(b) == b;
    DivBlock(a, b);
  }

  /** Every quotient but the wrapped `MIN_VALUE / -1` is rounded toward zero. */
  lemma {:induction false} JavaDivRoundsTowardZero(a: Int32, b: Int32)
    requires b != 0 && !(a == MinInt && b == -1)
    ensures JavaDiv(a, b).Success? && RoundsTowardZero(a, b, JavaDiv(a, b).value)
  {
    TruncatedRemainder(a, b);
  }

  lemma {:induction false} DivBlock(a: int, b: int)
    requires a >= 0 && b > 0
    ensures (a / b) * b <= a < (a / b + 1) * b
  {
    var q, r := a / b, a % b;
    assert a == q * b + r && 0 <= r < b;
    assert (q + 1) * b == q * b + b;
  }

  /** What PageRequest.of keeps: the page index and the page size (the sort is fixed at each call site). */
  datatype PageRequest = PageRequest(page: int, size: int)

  /** Spring's `PageRequest.of(page, size, ...)`: a page index below zero or a
      size below one is an IllegalArgumentException. */
  function PageRequestOf(page: int, size: int): (r: Result<PageRequest, Error>)
    ensures r.Success? <==> page >= 0 && size >= 1
    ensures r.Success? ==> r.value == PageRequest(page, size)
    ensures r.Failure? ==> r.error == IllegalArgument
  {
    if page < 0 || size < 1 then Failure(IllegalArgument) else Success(PageRequest(page, size))
  }

  /** src PageableConverter.getPageable: the sign guard, then `from / size`. */
  function MonolithGetPageable(from: Int32, size: Int32): (r: Result<PageRequest, Error>)
    ensures r.Success? ==> r.value.page >= 0 && r.value.size >= 1
  {
    if from < 0 || size < 0 then Failure(BadPageRequest)
    else
      var page :- JavaDiv(from, size);
      PageRequestOf(page, size)
  }

  /** server PageableConverter.getPageable: `from / size` with no guard. */
  function ServerGetPageable(from: Int32, size: Int32): (r: Result<PageRequest, Error>)
    ensures r.Success? ==> r.value.page >= 0 && r.value.size >= 1
  {
    var page :- JavaDiv(from, size);
    PageRequestOf(page, size)
  }

  /** The rows that page `p` of an ordered result holds: `size` rows from offset
      `page * size`, fewer at the end, none past it. */
  function PageOf<T>(rows: seq<T>, p: PageRequest): (r: seq<T>)
    requires p.page >= 0 && p.size >= 1
    ensures |r| <= p.size
    ensures p.page * p.size >= |rows| ==> r == []
    ensures p.page * p.size < |rows| ==> |r| == (if |rows| - p.page * p.size < p.size then |rows| - p.page * p.size else p.size)
    ensures forall k :: 0 <= k < |r| ==> p.page * p.size + k < |rows| && r[k] == rows[p.page * p.size + k]
  {
    var lo := p.page * p.size;
    if lo >= |rows| then []
    else rows[lo .. if lo + p.size < |rows| then lo + p.size else |rows|]
  }

  /** Every row of a page is a row of the result it was cut from. */
  lemma {:induction false} PageOfMembers<T>(rows: seq<T>, p: PageRequest)
    requires p.page >= 0 && p.size >= 1
    ensures forall x :: x in PageOf(rows, p) ==> x in rows
  {
    var r := PageOf(rows, p);
    forall x | x in r ensures x in rows {
      var k :| 0 <= k < |r| && r[k] == x;
      assert rows[p.page * p.size + k] == x;
    }
  }

  /** src: a negative offset or size is a BadPageRequestException. */
  lemma {:induction false} MonolithRejectsNegative(from: Int32, size: Int32)
    requires from < 0 || size < 0
    ensures MonolithGetPageable(from, size) == Failure(BadPageRequest)
  {
  }

  /** src: otherwise the page index is `from / size` and the size is `size`, and
      the offset lies inside that page. */
  lemma {:induction false} MonolithPageIndex(from: Int32, size: Int32)
    requires from >= 0 && size > 0
    ensures MonolithGetPageable(from, size) == Success(PageRequest(from / size, size))
    ensures var p := from / size; p * size <= from < (p + 1) * size
  {
    assert JavaDiv(from, size) == Success(from / size) by {
      JavaDivNonNegative(from, size);
    }
    DivBlock(from, size);
  }

  /** src: a size of zero passes the guard and then divides by zero. */
  lemma {:induction false} MonolithSizeZeroDividesByZero(from: Int32)
    requires from >= 0
    ensures MonolithGetPageable(from, 0) == Failure(DivisionByZero)
  {
  }

  /** server: page index `from / size`, size passed through, offset inside the page. */
  lemma {:induction false} ServerPageIndex(from: Int32, size: Int32)
    requires from >= 0 && size > 0
    ensures ServerGetPageable(from, size) == Success(PageRequest(from / size, size))
    ensures var p := from / size; p * size <= from < (p + 1) * size
  {
    assert JavaDiv(from, size) == Success(from / size) by {
      JavaDivNonNegative(from, size);
    }
    DivBlock(from, size);
  }

  /** server: with no sign check, a negative offset closer to zero than one page
      is rounded toward zero and silently read as page 0; anything further is
      refused only by PageRequest.of. */
  lemma {:induction false} ServerNegativeOffset(from: Int32, size: Int32)
    requires from < 0 && size > 0
    ensures -size < from ==> ServerGetPageable(from, size) == Success(PageRequest(0, size))
    ensures from <= -size ==> ServerGetPageable(from, size) == Failure(IllegalArgument)
  {
    var q := Abs(from) / size;
    assert -size < from ==> q == 0;
    assert from <= -size ==> q >= 1;
  }

  /** server: a negative size is not caught by any sign check either; the
      quotient may be a negative page (`5 / -1` is `-5`) or page 0, and
      PageRequest.of refuses the size in both cases. */
  lemma {:induction false} ServerNegativeSize(from: Int32, size: Int32)
    requires size < 0
    ensures ServerGetPageable(from, size) == Failure(IllegalArgument)
    ensures JavaDiv(5, -1) == Success(-5)
  {
  }

  /** On every input the src guard lets through, the two converters agree
      (including the division by zero at size 0). */
  lemma {:induction false} ConvertersAgree(from: Int32, size: Int32)
    requires from >= 0 && size >= 0
    ensures MonolithGetPageable(from, size) == ServerGetPageable(from, size)
  {
  }

  /** An offset that is not a multiple of the size is rounded down to its page's
      start: asking from offset 1 with size 10 serves the first row first. */
  lemma {:induction false} OffsetRoundsDownToPageStart<T>(rows: seq<T>)
    requires |rows| > 0
    ensures MonolithGetPageable(1, 10).Success?
    ensures var p := MonolithGetPageable(1, 10).value;
      p.page >= 0 && p.size >= 1 && PageOf(rows, p)[0] == rows[0]
  {
    MonolithPageIndex(1, 10);
  }
}
