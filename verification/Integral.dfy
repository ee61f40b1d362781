/** The two summation rules of examples/integral.c over exact reals, and what splitting an interval
    does to them. */
module Integral {

  const LONG_METHOD_STEPS: real := 200000000.0

  type Func = real -> real

  /** The C conversion `(long)x`: towards zero. */
  function Trunc(x: real): int {
    if x >= 0.0 then x.Floor else -((-x).Floor)
  }

  lemma TruncMonotone(x: real, y: real)
    requires x <= y
    ensures Trunc(x) <= Trunc(y)
  {
  }

  // ----- LongMethod: the sum of f over the integers of an interval -----

  function SumRange(f: Func, lo: int, hi: int): real
    decreases hi - lo
  {
    if hi <= lo then 0.0 else SumRange(f, lo, hi - 1) + f((hi - 1) as real)
  }

  function LongSum(f: Func, a: real, b: real): real {
    SumRange(f, Trunc(a), Trunc(b))
  }

  method LongMethod(f: Func, a: real, b: real, eps: real) returns (sum: real)
    ensures sum == LongSum(f, a, b)
  {
    sum := 0.0;
    var i := Trunc(a);
    while i < Trunc(b)
      invariant Trunc(a) <= i && (i <= Trunc(b) || i == Trunc(a))
      invariant sum == SumRange(f, Trunc(a), i)
    {
      sum := sum + f(i as real);
      i := i + 1;
    }
  }

  lemma {:induction false} SumRangeJoin(f: Func, lo: int, mid: int, hi: int)
    requires lo <= mid <= hi
    ensures SumRange(f, lo, hi) == SumRange(f, lo, mid) + SumRange(f, mid, hi)
    decreases hi - mid
  {
    if mid < hi {
      SumRangeJoin(f, lo, mid, hi - 1);
    }
  }

  // ----- LongMethod2: the midpoint rule -----

  function Steps(length: real): (n: nat)
    requires length > 0.0
    ensures n >= 1
  {
    var n := Trunc(LONG_METHOD_STEPS * length);
    if n < 1 then 1 else n
  }

  /** The width of the steps that fill `length`. */
  function Width(length: real): real
    requires length > 0.0
  {
    length / Steps(length) as real
  }

  function StepWidth(a: real, b: real): real
    requires a < b
  {
    Width(b - a)
  }

  /** `n` steps of width `h`. */
  function Times(n: nat, h: real): real {
    if n == 0 then 0.0 else Times(n - 1, h) + h
  }

  lemma {:induction false} TimesIsProduct(n: nat, h: real)
    ensures Times(n, h) == n as real * h
  {
    if n > 0 {
      TimesIsProduct(n - 1, h);
      assert n as real * h == (n - 1) as real * h + h;
    }
  }

  lemma {:induction false} TimesJoin(m: nat, n: nat, h: real)
    ensures Times(m + n, h) == Times(m, h) + Times(n, h)
  {
    if n > 0 {
      TimesJoin(m, n - 1, h);
    }
  }

  /** The midpoint of step `i`. */
  function Sample(a: real, h: real, i: nat): real {
    a + Times(i, h) + 0.5 * h
  }

  lemma SampleIsMidpoint(a: real, h: real, i: nat)
    ensures Sample(a, h, i) == a + (i as real + 0.5) * h
  {
    TimesIsProduct(i, h);
    assert (i as real + 0.5) * h == i as real * h + 0.5 * h;
  }

  /** The midpoint rule: `n` rectangles of width `h`. */
  function Rectangles(f: Func, a: real, h: real, n: nat): real {
    if n == 0 then 0.0 else Rectangles(f, a, h, n - 1) + f(Sample(a, h, n - 1)) * h
  }

  function MidpointSum(f: Func, a: real, b: real): real {
    if b - a <= 0.0 then 0.0 else Rectangles(f, a, StepWidth(a, b), Steps(b - a))
  }

  /** The sum that the loop accumulates, without the width. */
  function MidSum(f: Func, a: real, h: real, n: nat): real {
    if n == 0 then 0.0 else MidSum(f, a, h, n - 1) + f(Sample(a, h, n - 1))
  }

  lemma Distribute(x: real, y: real, h: real)
    ensures (x + y) * h == x * h + y * h
  {
  }

  lemma {:induction false} WidthFactors(f: Func, a: real, h: real, n: nat)
    ensures Rectangles(f, a, h, n) == MidSum(f, a, h, n) * h
  {
    if n > 0 {
      WidthFactors(f, a, h, n - 1);
      Distribute(MidSum(f, a, h, n - 1), f(Sample(a, h, n - 1)), h);
    }
  }

  method LongMethod2(f: Func, a: real, b: real, eps: real) returns (result: real)
    ensures result == MidpointSum(f, a, b)
  {
    var length := b - a;
    if length <= 0.0 {
      return 0.0;
    }
    var steps := Trunc(LONG_METHOD_STEPS * length);
    if steps < 1 {
      steps := 1;
    }
    var h := length / steps as real;
    var sum := SumSamples(f, a, h, steps);
    result := sum * h;
    WidthFactors(f, a, h, steps);
  }

  /** The loop of `LongMethod2`. */
  method SumSamples(f: Func, a: real, h: real, steps: nat) returns (sum: real)
    ensures sum == MidSum(f, a, h, steps)
  {
    sum := 0.0;
    var i := 0;
    while i < steps
      invariant 0 <= i <= steps
      invariant sum == MidSum(f, a, h, i)
    {
      var x := a + (i as real + 0.5) * h;
      SampleIsMidpoint(a, h, i);
      sum := sum + f(x);
      i := i + 1;
    }
  }

  lemma WidthTimesSteps(a: real, b: real)
    requires a < b
    ensures StepWidth(a, b) > 0.0
    ensures Steps(b - a) as real * StepWidth(a, b) == b - a
  {
    var n := Steps(b - a) as real;
    assert n * ((b - a) / n) == b - a;
  }

  // ----- Splitting an interval into a chain of pieces -----

  datatype Rule = Long | Midpoint

  function Integrate(rule: Rule, f: Func, a: real, b: real): real {
    if rule == Long then LongSum(f, a, b) else MidpointSum(f, a, b)
  }

  datatype Piece = Piece(a: real, b: real)

  function Total(rule: Rule, f: Func, ps: seq<Piece>): real {
    if ps == [] then 0.0
    else Total(rule, f, ps[..|ps| - 1]) + Integrate(rule, f, ps[|ps| - 1].a, ps[|ps| - 1].b)
  }

  /** Each piece starts where the one before it ends; the first starts at `begin`, the last ends at `end`. */
  ghost predicate IsChain(ps: seq<Piece>, begin: real, end: real) {
    && (ps == [] ==> begin == end)
    && (ps != [] ==> ps[0].a == begin && ps[|ps| - 1].b == end)
    && forall k :: 0 < k < |ps| ==> ps[k - 1].b == ps[k].a
  }

  ghost predicate Ascending(ps: seq<Piece>) {
    forall k :: 0 <= k < |ps| ==> ps[k].a <= ps[k].b
  }

  ghost predicate Descending(ps: seq<Piece>) {
    forall k :: 0 <= k < |ps| ==> ps[k].a >= ps[k].b
  }

  ghost predicate StrictlyAscending(ps: seq<Piece>) {
    forall k :: 0 <= k < |ps| ==> ps[k].a < ps[k].b
  }

  lemma ChainInit(ps: seq<Piece>, begin: real, end: real)
    requires IsChain(ps, begin, end) && ps != []
    ensures IsChain(ps[..|ps| - 1], begin, ps[|ps| - 1].a)
  {
  }

  lemma {:induction false} ChainOrder(ps: seq<Piece>, begin: real, end: real)
    requires IsChain(ps, begin, end)
    ensures Ascending(ps) ==> begin <= end
    ensures Descending(ps) ==> begin >= end
    decreases |ps|
  {
    if ps != [] {
      ChainInit(ps, begin, end);
      ChainOrder(ps[..|ps| - 1], begin, ps[|ps| - 1].a);
    }
  }

  /** However an interval is cut, forwards or backwards, `LongMethod` over the pieces adds up to
      `LongMethod` over the whole: the truncated bounds telescope. */
  lemma {:induction false} LongDistributes(f: Func, ps: seq<Piece>, begin: real, end: real)
    requires IsChain(ps, begin, end) && (Ascending(ps) || Descending(ps))
    ensures Total(Long, f, ps) == Integrate(Long, f, begin, end)
    decreases |ps|
  {
    if ps != [] {
      var n := |ps| - 1;
      var mid := ps[n].a;
      ChainInit(ps, begin, end);
      LongDistributes(f, ps[..n], begin, mid);
      ChainOrder(ps[..n], begin, mid);
      if Ascending(ps) {
        TruncMonotone(begin, mid);
        TruncMonotone(mid, end);
        SumRangeJoin(f, Trunc(begin), Trunc(mid), Trunc(end));
      } else {
        TruncMonotone(mid, begin);
        TruncMonotone(end, mid);
      }
    }
  }

  // ----- The midpoint rule on a function c + m * x -----

  ghost predicate IsAffine(f: Func, c: real, m: real) {
    forall x :: f(x) == c + m * x
  }

  /** The integral of c + m * x. */
  function AffineIntegral(c: real, m: real, a: real, b: real): real {
    c * (b - a) + m * (b * b - a * a) / 2.0
  }

  lemma {:induction false} LinearSamples(f: Func, a: real, h: real, u: real, w: real, n: nat)
    requires forall i: nat :: f(Sample(a, h, i)) == u + w * (i as real + 0.5)
    ensures MidSum(f, a, h, n) == AffinePartial(u, w, n as real)
  {
    if n > 0 {
      LinearSamples(f, a, h, u, w, n - 1);
      AffineStep(u, w, (n - 1) as real);
    }
  }

  lemma AffineMidSum(f: Func, c: real, m: real, a: real, h: real, n: nat)
    requires IsAffine(f, c, m)
    ensures MidSum(f, a, h, n) == AffinePartial(c + m * a, m * h, n as real)
  {
    var u, w := c + m * a, m * h;
    forall i: nat
      ensures f(Sample(a, h, i)) == u + w * (i as real + 0.5)
    {
      AffineAt(f, c, m, a, h, i);
    }
    LinearSamples(f, a, h, u, w, n);
  }

  lemma AffineAt(f: Func, c: real, m: real, a: real, h: real, i: nat)
    requires IsAffine(f, c, m)
    ensures f(Sample(a, h, i)) == (c + m * a) + (m * h) * (i as real + 0.5)
  {
    SampleIsMidpoint(a, h, i);
    AffineSample(c, m, a, h, i as real);
  }

  /** The closed form of the first `k` samples `u + w * (i + 0.5)`. */
  function AffinePartial(u: real, w: real, k: real): real {
    k * u + w * (k * k) / 2.0
  }

  lemma AffineSample(c: real, m: real, a: real, h: real, k: real)
    ensures c + m * (a + (k + 0.5) * h) == (c + m * a) + (m * h) * (k + 0.5)
  {
  }

  lemma AffineStep(u: real, w: real, k: real)
    ensures AffinePartial(u, w, k) + (u + w * (k + 0.5)) == AffinePartial(u, w, k + 1.0)
  {
  }

  lemma AffineExactArith(c: real, m: real, a: real, b: real, h: real, n: real)
    requires n * h == b - a
    ensures AffinePartial(c + m * a, m * h, n) * h == AffineIntegral(c, m, a, b)
  {
    var w, u := n * h, c + m * a;
    assert AffinePartial(u, m * h, n) * h == w * u + m * (w * w) / 2.0 by {
      PartialTimesWidth(u, m, h, n);
    }
    IntegralIdentity(c, m, a, b);
  }

  lemma PartialTimesWidth(u: real, m: real, h: real, n: real)
    ensures AffinePartial(u, m * h, n) * h == (n * h) * u + m * ((n * h) * (n * h)) / 2.0
  {
  }

  lemma IntegralIdentity(c: real, m: real, a: real, b: real)
    ensures (b - a) * (c + m * a) + m * ((b - a) * (b - a)) / 2.0 == AffineIntegral(c, m, a, b)
  {
  }

  /** On one interval the midpoint rule is exact for c + m * x. */
  lemma MidpointAffineExact(f: Func, c: real, m: real, a: real, b: real)
    requires IsAffine(f, c, m) && a <= b
    ensures MidpointSum(f, a, b) == AffineIntegral(c, m, a, b)
  {
    if a < b {
      var h, n := StepWidth(a, b), Steps(b - a);
      WidthTimesSteps(a, b);
      AffineMidSum(f, c, m, a, h, n);
      WidthFactors(f, a, h, n);
      AffineExactArith(c, m, a, b, h, n as real);
    }
  }

  /** Split any way, forwards, the midpoint sums of c + m * x add up to its integral, exactly. */
  lemma {:induction false} AffineDistributes(f: Func, c: real, m: real, ps: seq<Piece>, begin: real, end: real)
    requires IsAffine(f, c, m)
    requires IsChain(ps, begin, end) && Ascending(ps)
    ensures Total(Midpoint, f, ps) == AffineIntegral(c, m, begin, end)
    decreases |ps|
  {
    if ps != [] {
      var n := |ps| - 1;
      ChainInit(ps, begin, end);
      AffineDistributes(f, c, m, ps[..n], begin, ps[n].a);
      MidpointAffineExact(f, c, m, ps[n].a, end);
    }
  }

  // ----- The midpoint rule on arbitrary functions -----

  lemma {:induction false} RectanglesJoin(f: Func, a: real, h: real, m: nat, n: nat)
    ensures Rectangles(f, a, h, m + n) == Rectangles(f, a, h, m) + Rectangles(f, a + Times(m, h), h, n)
  {
    if n > 0 {
      RectanglesJoin(f, a, h, m, n - 1);
      TimesJoin(m, n - 1, h);
      assert Sample(a, h, m + n - 1) == Sample(a + Times(m, h), h, n - 1);
    }
  }

  /** Every piece is sampled with step width `h`. */
  ghost predicate SameGrid(ps: seq<Piece>, h: real)
    requires StrictlyAscending(ps)
  {
    forall k :: 0 <= k < |ps| ==> StepWidth(ps[k].a, ps[k].b) == h
  }

  function SumOf(g: Piece -> real, ps: seq<Piece>): real {
    if ps == [] then 0.0 else SumOf(g, ps[..|ps| - 1]) + g(ps[|ps| - 1])
  }

  /** Piece by piece: `count(p)` steps of width `h` span `p`, and `v(p)` is their rectangles. */
  ghost predicate GridSoFar(v: Piece -> real, count: Piece -> nat, f: Func, ps: seq<Piece>, h: real) {
    ps == [] ||
    (var last := ps[|ps| - 1];
     && Times(count(last), h) == last.b - last.a
     && v(last) == Rectangles(f, last.a, h, count(last))
     && GridSoFar(v, count, f, ps[..|ps| - 1], h))
  }

  /** Pieces with a common step width are sampled on one grid. */
  lemma {:induction false} SameGridSamples(v: Piece -> real, count: Piece -> nat, f: Func, ps: seq<Piece>,
                                           begin: real, end: real, h: real)
    returns (n: nat)
    requires IsChain(ps, begin, end) && GridSoFar(v, count, f, ps, h)
    ensures Times(n, h) == end - begin
    ensures SumOf(v, ps) == Rectangles(f, begin, h, n)
    decreases |ps|
  {
    n := 0;
    if ps != [] {
      var last := ps[|ps| - 1];
      ChainInit(ps, begin, end);
      var m := SameGridSamples(v, count, f, ps[..|ps| - 1], begin, last.a, h);
      TimesJoin(m, count(last), h);
      RectanglesJoin(f, begin, h, m, count(last));
      n := m + count(last);
    }
  }

  function Parts(rule: Rule, f: Func): Piece -> real {
    (p: Piece) => Integrate(rule, f, p.a, p.b)
  }

  lemma {:induction false} TotalIsSum(rule: Rule, f: Func, ps: seq<Piece>)
    ensures Total(rule, f, ps) == SumOf(Parts(rule, f), ps)
    decreases |ps|
  {
    if ps != [] {
      TotalIsSum(rule, f, ps[..|ps| - 1]);
    }
  }

  function PieceSteps(): Piece -> nat {
    (p: Piece) => if p.a < p.b then Steps(p.b - p.a) else 0
  }

  lemma PieceOnGrid(f: Func, a: real, b: real, h: real)
    requires a < b && StepWidth(a, b) == h
    ensures h > 0.0
    ensures Times(Steps(b - a), h) == b - a
    ensures MidpointSum(f, a, b) == Rectangles(f, a, h, Steps(b - a))
  {
    WidthTimesSteps(a, b);
    TimesIsProduct(Steps(b - a), h);
  }

  lemma {:induction false} SameGridSoFar(f: Func, ps: seq<Piece>, h: real)
    requires StrictlyAscending(ps) && SameGrid(ps, h)
    ensures GridSoFar(Parts(Midpoint, f), PieceSteps(), f, ps, h)
    decreases |ps|
  {
    if ps != [] {
      var last := ps[|ps| - 1];
      assert StepWidth(last.a, last.b) == h;
      PieceOnGrid(f, last.a, last.b, h);
      SameGridSoFar(f, ps[..|ps| - 1], h);
    }
  }

  lemma MulPositive(x: real, y: real)
    requires x > 0.0 && y > 0.0
    ensures x * y > 0.0
  {
  }

  lemma CancelRight(m: nat, n: nat, h: real)
    requires h > 0.0 && m as real * h == n as real * h
    ensures m == n
  {
    var d := m as real - n as real;
    assert d * h == 0.0;
    if d > 0.0 {
      MulPositive(d, h);
      assert false;
    }
    if d < 0.0 {
      MulPositive(-d, h);
      assert false;
    }
  }

  lemma GridIsWhole(v: Piece -> real, count: Piece -> nat, f: Func, ps: seq<Piece>, begin: real, end: real, h: real)
    requires IsChain(ps, begin, end) && GridSoFar(v, count, f, ps, h)
    requires begin < end && h == StepWidth(begin, end)
    ensures SumOf(v, ps) == MidpointSum(f, begin, end)
  {
    var n := SameGridSamples(v, count, f, ps, begin, end, h);
    PieceOnGrid(f, begin, end, h);
    SameSpan(n, Steps(end - begin), h);
  }

  lemma SameGridSuffices(f: Func, ps: seq<Piece>, begin: real, end: real, h: real)
    requires IsChain(ps, begin, end) && StrictlyAscending(ps) && begin < end
    requires SameGrid(ps, h) && h == StepWidth(begin, end)
    ensures Total(Midpoint, f, ps) == Integrate(Midpoint, f, begin, end)
  {
    SameGridSoFar(f, ps, h);
    GridIsWhole(Parts(Midpoint, f), PieceSteps(), f, ps, begin, end, h);
    TotalIsSum(Midpoint, f, ps);
  }

  lemma SameSpan(m: nat, n: nat, h: real)
    requires h > 0.0 && Times(m, h) == Times(n, h)
    ensures m == n
  {
    TimesIsProduct(m, h);
    TimesIsProduct(n, h);
    CancelRight(m, n, h);
  }

  /** The function that is 1 at `p` and 0 elsewhere. */
  function Spike(p: real): Func {
    x => if x == p then 1.0 else 0.0
  }

  lemma TimesOrder(m: nat, n: nat, h: real)
    requires h > 0.0 && m <= n
    ensures Times(m, h) + Times(n - m, h) == Times(n, h)
    ensures Times(n - m, h) >= 0.0
    ensures m < n ==> Times(n - m, h) >= h
  {
    TimesJoin(m, n - m, h);
    TimesNonNegative(n - m, h);
  }

  lemma {:induction false} TimesNonNegative(n: nat, h: real)
    requires h > 0.0
    ensures Times(n, h) >= 0.0
    ensures n > 0 ==> Times(n, h) >= h
  {
    if n > 0 {
      TimesNonNegative(n - 1, h);
    }
  }

  lemma SampleOrder(a: real, h: real, i: nat, j: nat)
    requires h > 0.0 && i < j
    ensures a < Sample(a, h, i) < Sample(a, h, j)
    ensures Sample(a, h, i) < a + Times(j, h)
  {
    TimesOrder(i, j, h);
    TimesNonNegative(i, h);
  }

  /** The samples of a piece lie strictly inside it, so a spike outside contributes nothing. */
  lemma {:induction false} SpikeOutside(p: real, a: real, h: real, n: nat)
    requires h > 0.0 && (p <= a || p >= a + Times(n, h))
    ensures Rectangles(Spike(p), a, h, n) == 0.0
  {
    if n > 0 {
      SampleOrder(a, h, n - 1, n);
      SpikeOutside(p, a, h, n - 1);
    }
  }

  /** A spike at a sample contributes one rectangle. */
  lemma {:induction false} SpikeAt(a: real, h: real, i: nat, n: nat)
    requires h > 0.0 && i < n
    ensures Rectangles(Spike(Sample(a, h, i)), a, h, n) == h
  {
    if i == n - 1 {
      SpikeBeyond(a, h, i, i);
    } else {
      SpikeAt(a, h, i, n - 1);
      SampleOrder(a, h, i, n - 1);
    }
  }

  /** A spike at a later sample is not reached yet. */
  lemma {:induction false} SpikeBeyond(a: real, h: real, i: nat, n: nat)
    requires h > 0.0 && n <= i
    ensures Rectangles(Spike(Sample(a, h, i)), a, h, n) == 0.0
  {
    if n > 0 {
      SpikeBeyond(a, h, i, n - 1);
      SampleOrder(a, h, n - 1, i);
    }
  }

  /** Any spike is hit at most once. */
  lemma {:induction false} SpikeOnce(p: real, a: real, h: real, n: nat)
    requires h > 0.0
    ensures Rectangles(Spike(p), a, h, n) == 0.0 || Rectangles(Spike(p), a, h, n) == h
    ensures Rectangles(Spike(p), a, h, n) == h ==> exists i :: 0 <= i < n && Sample(a, h, i) == p
  {
    if n > 0 {
      SpikeOnce(p, a, h, n - 1);
      if Rectangles(Spike(p), a, h, n - 1) == h {
        var i :| 0 <= i < n - 1 && Sample(a, h, i) == p;
        SampleOrder(a, h, i, n - 1);
      } else if Sample(a, h, n - 1) == p {
        assert 0 <= n - 1 < n && Sample(a, h, n - 1) == p;
      }
    }
  }

  lemma SpikeOutsidePiece(p: real, a: real, b: real)
    requires a < b && (p <= a || p >= b)
    ensures MidpointSum(Spike(p), a, b) == 0.0
  {
    PieceOnGrid(Spike(p), a, b, StepWidth(a, b));
    SpikeOutside(p, a, StepWidth(a, b), Steps(b - a));
  }

  /** A spike outside the whole chain contributes nothing. */
  lemma {:induction false} SpikeOutsideChain(p: real, ps: seq<Piece>, begin: real, end: real)
    requires IsChain(ps, begin, end) && StrictlyAscending(ps)
    requires p <= begin || p >= end
    ensures Total(Midpoint, Spike(p), ps) == 0.0
    ensures begin <= end
    decreases |ps|
  {
    if ps != [] {
      var n := |ps| - 1;
      ChainInit(ps, begin, end);
      ChainOrder(ps[..n], begin, ps[n].a);
      SpikeOutsideChain(p, ps[..n], begin, ps[n].a);
      SpikeOutsidePiece(p, ps[n].a, end);
    }
  }

  /** A spike at the first sample of piece `k` contributes that piece's step width. */
  lemma {:induction false} SpikeInPiece(ps: seq<Piece>, begin: real, end: real, k: nat)
    requires IsChain(ps, begin, end) && StrictlyAscending(ps) && k < |ps|
    ensures var h := StepWidth(ps[k].a, ps[k].b);
            Total(Midpoint, Spike(Sample(ps[k].a, h, 0)), ps) == h
    decreases |ps|
  {
    var n := |ps| - 1;
    var h := StepWidth(ps[k].a, ps[k].b);
    var p := Sample(ps[k].a, h, 0);
    WidthTimesSteps(ps[k].a, ps[k].b);
    FirstSampleInside(ps[k].a, ps[k].b);
    ChainInit(ps, begin, end);
    if k == n {
      SpikeOutsideChain(p, ps[..n], begin, ps[n].a);
      SpikeAt(ps[n].a, h, 0, Steps(ps[n].b - ps[n].a));
    } else {
      SpikeInPiece(ps[..n], begin, ps[n].a, k);
      LaterPieces(ps, begin, end, k, n);
      SpikeOutsidePiece(p, ps[n].a, ps[n].b);
    }
  }

  lemma FirstSampleInside(a: real, b: real)
    requires a < b
    ensures a < Sample(a, StepWidth(a, b), 0) < b
  {
    var h, n := StepWidth(a, b), Steps(b - a);
    WidthTimesSteps(a, b);
    TimesIsProduct(n, h);
    SampleOrder(a, h, 0, n);
  }

  lemma {:induction false} LaterPieces(ps: seq<Piece>, begin: real, end: real, k: nat, n: nat)
    requires IsChain(ps, begin, end) && StrictlyAscending(ps) && k < n < |ps|
    ensures ps[k].b <= ps[n].a
    decreases n
  {
    if k < n - 1 {
      LaterPieces(ps, begin, end, k, n - 1);
    }
  }

  lemma SameGridNecessary(ps: seq<Piece>, begin: real, end: real, k: nat)
    requires IsChain(ps, begin, end) && StrictlyAscending(ps) && begin < end && k < |ps|
    requires var p := Sample(ps[k].a, StepWidth(ps[k].a, ps[k].b), 0);
             Total(Midpoint, Spike(p), ps) == Integrate(Midpoint, Spike(p), begin, end)
    ensures StepWidth(ps[k].a, ps[k].b) == StepWidth(begin, end)
  {
    var h := StepWidth(ps[k].a, ps[k].b);
    var p := Sample(ps[k].a, h, 0);
    WidthTimesSteps(ps[k].a, ps[k].b);
    WidthTimesSteps(begin, end);
    SpikeInPiece(ps, begin, end, k);
    SpikeOnce(p, begin, StepWidth(begin, end), Steps(end - begin));
  }

  /** Exactly when distributing `LongMethod2` changes nothing: the pieces add up to the sequential sum
      for every function if and only if every piece has the step width of the whole interval. */
  lemma MidpointDistributesIff(ps: seq<Piece>, begin: real, end: real)
    requires IsChain(ps, begin, end) && StrictlyAscending(ps) && begin < end
    ensures (forall f: Func :: Total(Midpoint, f, ps) == Integrate(Midpoint, f, begin, end)) <==>
            SameGrid(ps, StepWidth(begin, end))
  {
    if SameGrid(ps, StepWidth(begin, end)) {
      forall f: Func
        ensures Total(Midpoint, f, ps) == Integrate(Midpoint, f, begin, end)
      {
        SameGridSuffices(f, ps, begin, end, StepWidth(begin, end));
      }
    }
    if forall f: Func :: Total(Midpoint, f, ps) == Integrate(Midpoint, f, begin, end) {
      forall k | 0 <= k < |ps|
        ensures StepWidth(ps[k].a, ps[k].b) == StepWidth(begin, end)
      {
        SameGridNecessary(ps, begin, end, k);
      }
    }
  }
}
