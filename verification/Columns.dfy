/** Pixel columns of a time window (internal/store/columns.go, `pooler.column` and `pooler.start`).
    Times are int64 seconds and the arithmetic is the source's: unsigned 64-bit, wrapping, with
    128-bit products. */
module Columns {
  import opened Arithmetic

  const TWO64: int := 0x1_0000_0000_0000_0000
  const TWO63: int := 0x8000_0000_0000_0000

  newtype Int64 = x: int | -0x8000_0000_0000_0000 <= x < 0x8000_0000_0000_0000
  newtype Uint64 = x: int | 0 <= x < 0x1_0000_0000_0000_0000

  /** Go's conversion uint64(x): two's complement, so a negative time becomes a large one. */
  function ToUnsigned(x: Int64): Uint64 {
    if x < 0 then (x as int + TWO64) as Uint64 else x as Uint64
  }

  /** Go's conversion int64(x). */
  function ToSigned(x: Uint64): Int64 {
    if x as int >= TWO63 then (x as int - TWO64) as Int64 else x as Int64
  }

  function Wrap(x: int): Uint64 {
    (x % TWO64) as Uint64
  }

  /** `bits.Mul64`: the 128-bit product as high and low words. */
  function Mul64(x: Uint64, y: Uint64): (p: (Uint64, Uint64))
    ensures p.0 as int * TWO64 + p.1 as int == x as int * y as int
  {
    var p := x as int * y as int;
    ProductFits(x as int, y as int);
    ((p / TWO64) as Uint64, (p % TWO64) as Uint64)
  }

  lemma ProductFits(x: int, y: int)
    requires 0 <= x < TWO64 && 0 <= y < TWO64
    ensures 0 <= x * y / TWO64 < TWO64
  {
    MulMonotone(x, TWO64 - 1, y);
    MulMonotone(0, x, y);
    assert (TWO64 - 1) * y <= (TWO64 - 1) * TWO64;
    QuotientBelow(x * y, TWO64, TWO64);
    QuotientBelow(x * y, TWO64, 0);
  }

  /** `bits.Div64` panics unless y is non-zero and above the high word. */
  predicate Div64Defined(hi: Uint64, y: Uint64) {
    y != 0 && hi < y
  }

  function Div64(hi: Uint64, lo: Uint64, y: Uint64): (r: (Uint64, Uint64))
    requires Div64Defined(hi, y)
  {
    var x := hi as int * TWO64 + lo as int;
    QuotientFits(hi as int, lo as int, y as int);
    ((x / y as int) as Uint64, (x % y as int) as Uint64)
  }

  lemma QuotientFits(hi: int, lo: int, y: int)
    requires 0 <= hi < y && 0 <= lo < TWO64
    ensures 0 <= (hi * TWO64 + lo) / y < TWO64
  {
    MulMonotone(hi + 1, y, TWO64);
    MulMonotone(0, hi, TWO64);
    QuotientBelow(hi * TWO64 + lo, y, TWO64);
    QuotientBelow(hi * TWO64 + lo, y, 0);
  }

  /** The window of a pooled read: `newPooler` keeps from, the span and n. */
  datatype Window = Window(from: Int64, span: Uint64, n: Uint64)

  function NewWindow(from: Int64, to: Int64, n: Int64): Window
    requires n >= 1
  {
    Window(from, Wrap(ToUnsigned(to) as int - ToUnsigned(from) as int), n as Uint64)
  }

  /** What a window spans, as the caller gave it. */
  ghost predicate Spans(w: Window, from: Int64, to: Int64) {
    w.from == from && from < to && w.span as int == to as int - from as int && 1 <= w.n && w.n as int < TWO63
  }

  lemma WindowSpans(from: Int64, to: Int64, n: Int64)
    requires from < to && n >= 1
    ensures Spans(NewWindow(from, to, n), from, to)
  {
  }

  function Offset(w: Window, ts: Int64): Uint64 {
    Wrap(ToUnsigned(ts) as int - ToUnsigned(w.from) as int)
  }

  /** The precondition `column` needs of its division, which the source only comments on. */
  predicate ColumnDefined(w: Window, ts: Int64) {
    Div64Defined(Mul64(Offset(w, ts), w.n).0, w.span)
  }

  function Column(w: Window, ts: Int64): Uint64
    requires ColumnDefined(w, ts)
  {
    var (hi, lo) := Mul64(Offset(w, ts), w.n);
    Div64(hi, lo, w.span).0
  }

  predicate StartDefined(w: Window, i: Uint64) {
    Div64Defined(Mul64(i, w.span).0, w.n)
  }

  function Start(w: Window, i: Uint64): Int64
    requires StartDefined(w, i)
  {
    var (hi, lo) := Mul64(i, w.span);
    var (q, r) := Div64(hi, lo, w.n);
    Advance(w.from, if r != 0 then Wrap(q as int + 1) else q)
  }

  /** int64(uint64(from) + up). */
  function Advance(from: Int64, up: Uint64): Int64 {
    ToSigned(Wrap(ToUnsigned(from) as int + up as int))
  }

  lemma AdvanceIs(from: Int64, up: Uint64, to: Int64)
    requires from as int + up as int <= to as int
    ensures Advance(from, up) as int == from as int + up as int
  {
  }

  // ---------------------------------------------------------------- what they compute

  lemma HighWordBelow(x: Uint64, y: Uint64, bound: Uint64)
    requires x as int * y as int < bound as int * TWO64
    ensures Mul64(x, y).0 < bound
  {
    QuotientBelow(x as int * y as int, TWO64, bound as int);
  }

  /** Inside the window the division is defined and `column` is the exact quotient, with no
      overflow anywhere in the int64 range. */
  lemma ColumnIs(w: Window, from: Int64, to: Int64, ts: Int64)
    requires Spans(w, from, to) && from <= ts < to
    ensures ColumnDefined(w, ts)
    ensures Column(w, ts) as int == (ts as int - from as int) * w.n as int / (to as int - from as int)
    ensures Column(w, ts) < w.n
  {
    hide Mul64, Div64, Offset;
    OffsetIs(w, from, to, ts);
    ProductBelow(ts as int - from as int, w.span as int, w.n as int);
    DivOfMul(Offset(w, ts), w.n, w.span);
  }

  lemma OffsetIs(w: Window, from: Int64, to: Int64, ts: Int64)
    requires Spans(w, from, to) && from <= ts < to
    ensures Offset(w, ts) as int == ts as int - from as int
  {
  }

  lemma ProductBelow(d: int, span: int, n: int)
    requires 0 <= d < span && 0 < n < TWO64
    ensures d * n < n * span && d * n < span * TWO64
  {
    MulStrict(d, span, n);
    MulMonotone(n, TWO64, span);
    assert span * n == n * span && TWO64 * span == span * TWO64;
  }

  /** A product divided: defined, and the exact quotient, when that is below n. */
  lemma DivOfMul(x: Uint64, n: Uint64, span: Uint64)
    requires x as int * n as int < span as int * TWO64 && x as int * n as int < n as int * span as int && span > 0
    ensures Div64Defined(Mul64(x, n).0, span)
    ensures var q := Div64(Mul64(x, n).0, Mul64(x, n).1, span).0;
      q as int == x as int * n as int / span as int && q < n
  {
    HighWordBelow(x, n, span);
    hide Mul64;
    QuotientBelow(x as int * n as int, span as int, n as int);
  }

  function CeilDiv(x: int, d: int): int
    requires d > 0
  {
    if x % d != 0 then x / d + 1 else x / d
  }

  lemma CeilDivAtMost(x: int, d: int, c: int)
    requires d > 0
    ensures CeilDiv(x, d) <= c <==> x <= c * d
  {
    var q, r := x / d, x % d;
    assert x == q * d + r;
    if q < c {
      MulMonotone(q + 1, c, d);
      MulDistributes(q, 1, d);
    } else if q > c {
      MulMonotone(c + 1, q, d);
      MulDistributes(c, 1, d);
    }
  }

  lemma CeilDivWithin(k: int, n: int, span: int)
    requires 0 <= k <= n && 0 < n && 0 <= span
    ensures 0 <= CeilDiv(k * span, n) <= span
  {
    MulMonotone(k, n, span);
    MulMonotone(0, k, span);
    assert n * span == span * n;
    CeilDivAtMost(k * span, n, span);
    CeilDivAtMost(k * span, n, -1);
  }

  /** For every column index up to n, `start` is defined and is the first second at or past i/n of
      the window. */
  lemma StartIs(w: Window, from: Int64, to: Int64, i: Uint64)
    requires Spans(w, from, to) && i <= w.n
    ensures StartDefined(w, i)
    ensures Start(w, i) as int == from as int + CeilDiv(i as int * (to as int - from as int), w.n as int)
    ensures from <= Start(w, i) <= to
  {
    hide CeilDiv, Mul64, Div64, Advance;
    StartHolds(w, i);
    CeilDivWithin(i as int, w.n as int, w.span as int);
    RoundedUp(i, w.span, w.n);
    var (hi, lo) := Mul64(i, w.span);
    var (q, r) := Div64(hi, lo, w.n);
    AdvanceIs(from, if r != 0 then Wrap(q as int + 1) else q, to);
  }

  lemma StartHolds(w: Window, i: Uint64)
    requires 1 <= w.n && i <= w.n
    ensures StartDefined(w, i)
  {
    var k, n, span := i as int, w.n as int, w.span as int;
    MulMonotone(k, n, span);
    MulStrict(span, TWO64, n);
    assert n * span == span * n && TWO64 * n == n * TWO64;
    HighWordBelow(i, w.span, w.n);
  }

  lemma RoundedUp(i: Uint64, span: Uint64, n: Uint64)
    requires Div64Defined(Mul64(i, span).0, n)
    ensures var (hi, lo) := Mul64(i, span);
            var (q, r) := Div64(hi, lo, n);
            q as int + (if r != 0 then 1 else 0) == CeilDiv(i as int * span as int, n as int)
  {
  }

  lemma StartAtEnds(w: Window, from: Int64, to: Int64)
    requires Spans(w, from, to)
    ensures StartDefined(w, 0) && Start(w, 0) == from
    ensures StartDefined(w, w.n) && Start(w, w.n) == to
  {
    StartIs(w, from, to, 0);
    StartIs(w, from, to, w.n);
    var n, span := w.n as int, w.span as int;
    CeilDivAtMost(n * span, n, span);
    CeilDivAtMost(n * span, n, span - 1);
    MulDistributes(span, 1, n);
    assert n * span == span * n;
    CeilDivAtMost(0, n, 0);
    CeilDivAtMost(0, n, -1);
  }

  /** The Galois connection: a time is at or past the start of column i exactly when its own column
      is i or later. */
  lemma StartColumnGalois(w: Window, from: Int64, to: Int64, ts: Int64, i: Uint64)
    requires Spans(w, from, to) && from <= ts < to && i <= w.n
    ensures StartDefined(w, i) && ColumnDefined(w, ts)
    ensures Start(w, i) <= ts <==> i <= Column(w, ts)
  {
    ColumnIs(w, from, to, ts);
    StartIs(w, from, to, i);
    var d, k, n, span := ts as int - from as int, i as int, w.n as int, w.span as int;
    CeilDivAtMost(k * span, n, d);
    QuotientBelow(d * n, span, k);
  }

  /** A time falls in column i exactly when it lies in [start(i), start(i+1)). */
  lemma ColumnIsInterval(w: Window, from: Int64, to: Int64, ts: Int64, i: Uint64)
    requires Spans(w, from, to) && from <= ts < to && i < w.n
    ensures StartDefined(w, i) && StartDefined(w, i + 1) && ColumnDefined(w, ts)
    ensures Column(w, ts) == i <==> Start(w, i) <= ts < Start(w, i + 1)
  {
    StartColumnGalois(w, from, to, ts, i);
    StartColumnGalois(w, from, to, ts, i + 1);
  }

  /** Starts never go backwards, so the n columns tile [from, to) with no gap or overlap, empty
      columns included when n exceeds the number of seconds. */
  lemma StartsAscend(w: Window, from: Int64, to: Int64, i: Uint64, j: Uint64)
    requires Spans(w, from, to) && i <= j <= w.n
    ensures StartDefined(w, i) && StartDefined(w, j)
    ensures Start(w, i) <= Start(w, j)
  {
    StartIs(w, from, to, i);
    StartIs(w, from, to, j);
    if Start(w, j) < to {
      StartColumnGalois(w, from, to, Start(w, j), j);
      StartColumnGalois(w, from, to, Start(w, j), i);
    }
  }

  lemma ColumnsAscend(w: Window, from: Int64, to: Int64, t1: Int64, t2: Int64)
    requires Spans(w, from, to) && from <= t1 <= t2 < to
    ensures ColumnDefined(w, t1) && ColumnDefined(w, t2)
    ensures Column(w, t1) <= Column(w, t2)
  {
    ColumnIs(w, from, to, t1);
    ColumnIs(w, from, to, t2);
    StartColumnGalois(w, from, to, t1, Column(w, t1));
    StartColumnGalois(w, from, to, t2, Column(w, t1));
  }
}
