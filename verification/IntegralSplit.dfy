/** The two cuts of the integration interval: the master cuts it into one piece per worker
    (examples/integral_master.c), each worker cuts its piece into one per thread
    (examples/integral_worker.c). */
module IntegralSplit {
  import opened Integral
  import Common

  /** Where part `i` of `n` parts of an interval starts. */
  function Cut(begin: real, end: real, i: nat, n: nat): real
    requires n > 0
  {
    begin + (end - begin) * i as real / n as real
  }

  lemma CutEnds(begin: real, end: real, n: nat)
    requires n > 0
    ensures Cut(begin, end, 0, n) == begin
    ensures Cut(begin, end, n, n) == end
  {
    assert (end - begin) * n as real / n as real == end - begin;
  }

  /** All parts have the same length. */
  lemma CutStep(begin: real, end: real, i: nat, n: nat)
    requires n > 0
    ensures Cut(begin, end, i + 1, n) - Cut(begin, end, i, n) == (end - begin) / n as real
  {
    var length, r, k := end - begin, n as real, i as real;
    assert (i + 1) as real == k + 1.0;
    assert length * (k + 1.0) == length * k + length;
    assert (length * k + length) / r == length * k / r + length / r;
  }

  /** The first `k` of `n` parts. */
  function Cuts(begin: real, end: real, k: nat, n: nat): (ps: seq<Piece>)
    requires k <= n && n > 0
    ensures |ps| == k
  {
    if k == 0 then []
    else Cuts(begin, end, k - 1, n) + [Piece(Cut(begin, end, k - 1, n), Cut(begin, end, k, n))]
  }

  function Split(p: Piece, n: nat): (ps: seq<Piece>)
    requires n > 0
    ensures |ps| == n
  {
    Cuts(p.a, p.b, n, n)
  }

  /** A piece is cut forwards, or, if its ends are swapped, backwards. */
  ghost predicate Oriented(ps: seq<Piece>, begin: real, end: real) {
    && (begin <= end ==> Ascending(ps))
    && (begin >= end ==> Descending(ps))
    && (begin < end ==> StrictlyAscending(ps))
  }

  lemma CutSign(length: real, n: nat)
    requires n > 0
    ensures length > 0.0 ==> length / n as real > 0.0
    ensures length < 0.0 ==> length / n as real < 0.0
    ensures length == 0.0 ==> length / n as real == 0.0
  {
  }

  lemma {:induction false} CutsChain(begin: real, end: real, k: nat, n: nat)
    requires k <= n && n > 0
    ensures IsChain(Cuts(begin, end, k, n), begin, Cut(begin, end, k, n))
    ensures Oriented(Cuts(begin, end, k, n), begin, end)
  {
    CutEnds(begin, end, n);
    if k > 0 {
      CutsChain(begin, end, k - 1, n);
      CutStep(begin, end, k - 1, n);
      CutSign(end - begin, n);
    }
  }

  lemma SplitChain(p: Piece, n: nat)
    requires n > 0
    ensures IsChain(Split(p, n), p.a, p.b)
    ensures Oriented(Split(p, n), p.a, p.b)
  {
    CutsChain(p.a, p.b, n, n);
    CutEnds(p.a, p.b, n);
  }

  lemma ChainJoin(ps: seq<Piece>, qs: seq<Piece>, begin: real, mid: real, end: real)
    requires IsChain(ps, begin, mid) && IsChain(qs, mid, end)
    ensures IsChain(ps + qs, begin, end)
  {
  }

  // ----- Both cuts together -----

  ghost predicate Positive(threads: seq<nat>) {
    forall i :: 0 <= i < |threads| ==> threads[i] > 0
  }

  /** Every piece `ps[i]` cut into `threads[i]` parts. */
  function Refine(ps: seq<Piece>, threads: seq<nat>): seq<Piece>
    requires |ps| == |threads| && Positive(threads)
    decreases |ps|
  {
    if ps == [] then []
    else Refine(ps[..|ps| - 1], threads[..|ps| - 1]) + Split(ps[|ps| - 1], threads[|ps| - 1])
  }

  lemma {:induction false} RefineChain(ps: seq<Piece>, threads: seq<nat>, begin: real, end: real)
    requires |ps| == |threads| && Positive(threads)
    requires IsChain(ps, begin, end)
    ensures IsChain(Refine(ps, threads), begin, end)
    ensures Ascending(ps) ==> Ascending(Refine(ps, threads))
    ensures Descending(ps) ==> Descending(Refine(ps, threads))
    ensures StrictlyAscending(ps) ==> StrictlyAscending(Refine(ps, threads))
    decreases |ps|
  {
    if ps != [] {
      var n := |ps| - 1;
      ChainInit(ps, begin, end);
      RefineChain(ps[..n], threads[..n], begin, ps[n].a);
      SplitChain(ps[n], threads[n]);
      ChainJoin(Refine(ps[..n], threads[..n]), Split(ps[n], threads[n]), begin, ps[n].a, end);
    }
  }

  /** The pieces that all threads of all workers integrate: worker `i` of `|threads|` runs `threads[i]`. */
  function AllPieces(begin: real, end: real, threads: seq<nat>): seq<Piece>
    requires |threads| > 0 && Positive(threads)
  {
    Refine(Split(Piece(begin, end), |threads|), threads)
  }

  lemma AllPiecesChain(begin: real, end: real, threads: seq<nat>)
    requires |threads| > 0 && Positive(threads)
    ensures IsChain(AllPieces(begin, end, threads), begin, end)
    ensures Oriented(AllPieces(begin, end, threads), begin, end)
  {
    SplitChain(Piece(begin, end), |threads|);
    RefineChain(Split(Piece(begin, end), |threads|), threads, begin, end);
  }

  // ----- What the threads add up to -----

  /** `LongMethod` gives the sequential answer for all workers, all thread counts and all bounds. */
  lemma DistributedLongMethod(f: Func, begin: real, end: real, threads: seq<nat>)
    requires |threads| > 0 && Positive(threads)
    ensures Total(Long, f, AllPieces(begin, end, threads)) == LongSum(f, begin, end)
  {
    AllPiecesChain(begin, end, threads);
    LongDistributes(f, AllPieces(begin, end, threads), begin, end);
  }

  /** `LongMethod2` integrates c + m * x exactly, for all workers and all thread counts. */
  lemma DistributedAffine(f: Func, c: real, m: real, begin: real, end: real, threads: seq<nat>)
    requires |threads| > 0 && Positive(threads)
    requires IsAffine(f, c, m) && begin <= end
    ensures Total(Midpoint, f, AllPieces(begin, end, threads)) == AffineIntegral(c, m, begin, end)
  {
    AllPiecesChain(begin, end, threads);
    AffineDistributes(f, c, m, AllPieces(begin, end, threads), begin, end);
  }

  /** `LongMethod2` gives the sequential answer for every function exactly when the interval is empty or
      backwards, or every thread's step width is that of the sequential run. */
  lemma DistributedLongMethod2(begin: real, end: real, threads: seq<nat>)
    requires |threads| > 0 && Positive(threads)
    ensures begin < end ==> StrictlyAscending(AllPieces(begin, end, threads))
    ensures (forall f: Func ::
               Total(Midpoint, f, AllPieces(begin, end, threads)) == Integrate(Midpoint, f, begin, end)) <==>
            (begin < end ==> SameGrid(AllPieces(begin, end, threads), StepWidth(begin, end)))
  {
    AllPiecesChain(begin, end, threads);
    if begin < end {
      MidpointDistributesIff(AllPieces(begin, end, threads), begin, end);
    } else {
      forall f: Func
        ensures Total(Midpoint, f, AllPieces(begin, end, threads)) == Integrate(Midpoint, f, begin, end)
      {
        BackwardsIsZero(f, AllPieces(begin, end, threads));
      }
    }
  }

  lemma {:induction false} BackwardsIsZero(f: Func, ps: seq<Piece>)
    requires Descending(ps)
    ensures Total(Midpoint, f, ps) == 0.0
    decreases |ps|
  {
    if ps != [] {
      BackwardsIsZero(f, ps[..|ps| - 1]);
    }
  }

  // ----- The condition in whole numbers -----

  lemma Quotients(length: real, k: nat, m: nat, j: nat)
    requires length > 0.0 && k > 0 && m > 0 && j > 0
    ensures (length / m as real) / j as real == length / k as real <==> k == m * j
  {
    var part, w := length / m as real, length / k as real;
    assert part * m as real == length && w * k as real == length;
    if k == m * j {
      assert (w * j as real) * m as real == w * k as real by {
        assert k as real == m as real * j as real;
      }
      CancelFactor(w * j as real, part, m as real);
      QuotientUnique(part, j as real, w);
    }
    if part / j as real == w {
      assert w * j as real == part;
      assert (w * j as real) * m as real == w * (m * j) as real by {
        assert (m * j) as real == m as real * j as real;
      }
      SamePositive(w, k, m * j);
    }
  }

  lemma CancelFactor(x: real, y: real, m: real)
    requires m > 0.0 && x * m == y * m
    ensures x == y
  {
    QuotientUnique(x * m, m, x);
    QuotientUnique(y * m, m, y);
  }

  lemma SamePositive(w: real, k: nat, n: nat)
    requires w > 0.0 && w * k as real == w * n as real
    ensures k == n
  {
    CancelRight(k, n, w);
  }

  lemma PartProduct(length: real, r: real)
    requires r > 0.0
    ensures (LONG_METHOD_STEPS * (length / r)) * r == LONG_METHOD_STEPS * length
  {
    assert (length / r) * r == length;
  }

  /** If `m` divides the number of steps, an `m`-th of the length has an `m`-th of the steps. */
  lemma StepsOfPart(length: real, m: nat, q: nat)
    requires length > 0.0 && m > 0 && Steps(length) == m * q
    ensures Steps(length / m as real) == q
  {
    CutSign(length, m);
    PartProduct(length, m as real);
    var x := LONG_METHOD_STEPS * length;
    if x < 1.0 {
      OneStep(m, q);
    } else {
      assert (m * q) as real == m as real * q as real;
      FloorOfPart(x, LONG_METHOD_STEPS * (length / m as real), m as real, q);
    }
  }

  lemma OneStep(m: nat, q: nat)
    requires m * q == 1
    ensures m == 1 && q == 1
  {
  }

  lemma LessByFactor(x: real, y: real, r: real)
    requires r > 0.0 && x * r < y * r
    ensures x < y
  {
    if x > y {
      MulPositive(x - y, r);
      assert false;
    }
  }

  lemma FloorOfPart(x: real, y: real, r: real, q: nat)
    requires r >= 1.0 && y * r == x && x.Floor as real == r * q as real
    ensures y.Floor == q
  {
    var z := q as real;
    assert x.Floor as real <= x < x.Floor as real + 1.0;
    assert (z + 1.0) * r == r * z + r;
    LessByFactor(y, z + 1.0, r);
    if y < z {
      MulPositive(z - y, r);
      assert false;
    }
  }

  /** An `m`-th of an interval has steps of the same width exactly if `m` divides the number of steps. */
  lemma PartWidth(length: real, m: nat)
    requires length > 0.0 && m > 0
    ensures length / m as real > 0.0
    ensures Width(length / m as real) == Width(length) <==> Steps(length) % m == 0
  {
    CutSign(length, m);
    var k, j := Steps(length), Steps(length / m as real);
    Quotients(length, k, m, j);
    if k % m == 0 {
      StepsOfPart(length, m, k / m);
      assert k == m * j;
    }
    if k == m * j {
      Common.FloorUnique(k, m, j);
    }
  }

  ghost predicate WidthIs(length: real, h: real) {
    length > 0.0 && Width(length) == h
  }

  lemma SameGridJoin(ps: seq<Piece>, qs: seq<Piece>, h: real)
    requires StrictlyAscending(ps) && StrictlyAscending(qs) && StrictlyAscending(ps + qs)
    ensures SameGrid(ps + qs, h) <==> SameGrid(ps, h) && SameGrid(qs, h)
  {
    if SameGrid(ps + qs, h) {
      forall k | 0 <= k < |ps|
        ensures StepWidth(ps[k].a, ps[k].b) == h
      {
        assert (ps + qs)[k] == ps[k];
      }
      forall k | 0 <= k < |qs|
        ensures StepWidth(qs[k].a, qs[k].b) == h
      {
        assert (ps + qs)[|ps| + k] == qs[k];
      }
    }
  }

  lemma SameLengthGrid(ps: seq<Piece>, length: real, h: real)
    requires StrictlyAscending(ps) && AllOfLength(ps, length) && ps != []
    ensures SameGrid(ps, h) <==> WidthIs(length, h)
  {
    assert ps[0].b - ps[0].a == length;
    assert StepWidth(ps[0].a, ps[0].b) == Width(length);
  }

  lemma {:induction false} RefineSameGrid(ps: seq<Piece>, threads: seq<nat>, length: real, h: real)
    requires |ps| == |threads| && Positive(threads) && length > 0.0
    requires AllOfLength(ps, length)
    ensures StrictlyAscending(Refine(ps, threads))
    ensures SameGrid(Refine(ps, threads), h) <==>
            forall i :: 0 <= i < |threads| ==> WidthIs(length / threads[i] as real, h)
    decreases |ps|
  {
    if ps != [] {
      var n := |ps| - 1;
      assert ps[n].b - ps[n].a == length;
      RefineSameGrid(ps[..n], threads[..n], length, h);
      SplitChain(ps[n], threads[n]);
      CutsLength(ps[n].a, ps[n].b, threads[n], threads[n]);
      SameLengthGrid(Split(ps[n], threads[n]), length / threads[n] as real, h);
      SameGridJoin(Refine(ps[..n], threads[..n]), Split(ps[n], threads[n]), h);
      assert forall i :: 0 <= i < n ==> threads[..n][i] == threads[i];
    }
  }

  lemma TwoQuotients(length: real, w: nat, t: nat)
    requires w > 0 && t > 0
    ensures w * t > 0
    ensures (length / w as real) / t as real == length / (w * t) as real
  {
    var x := (length / w as real) / t as real;
    var m := (w * t) as real;
    assert m == w as real * t as real;
    assert x * t as real == length / w as real;
    assert (x * t as real) * w as real == length;
    QuotientUnique(length, m, x);
  }

  /** All threads' step widths are the sequential one exactly if every product of the number of workers
      and a worker's number of threads divides the sequential number of steps. */
  lemma SameGridIffDivides(begin: real, end: real, threads: seq<nat>)
    requires |threads| > 0 && Positive(threads) && begin < end
    ensures StrictlyAscending(AllPieces(begin, end, threads))
    ensures SameGrid(AllPieces(begin, end, threads), StepWidth(begin, end)) <==> Divide(threads, Steps(end - begin))
  {
    var length, w := end - begin, |threads|;
    CutSign(length, w);
    CutsLength(begin, end, w, w);
    RefineSameGrid(Split(Piece(begin, end), w), threads, length / w as real, StepWidth(begin, end));
    forall i | 0 <= i < w
      ensures WidthIs((length / w as real) / threads[i] as real, StepWidth(begin, end)) <==>
              Divides(w, threads[i], Steps(length))
    {
      TwoQuotients(length, w, threads[i]);
      PartWidth(length, w * threads[i]);
    }
  }

  predicate Divides(workers: nat, threads: nat, steps: nat) {
    workers * threads > 0 && steps % (workers * threads) == 0
  }

  predicate Divide(threads: seq<nat>, steps: nat) {
    forall i :: 0 <= i < |threads| ==> Divides(|threads|, threads[i], steps)
  }

  /** Where the cuts change nothing: always for `LongMethod`; for `LongMethod2` on an empty or backward
      interval, or if, for each worker, the number of workers times its number of threads divides the
      number of steps of the sequential run. */
  predicate CutsChangeNothing(rule: Rule, begin: real, end: real, threads: seq<nat>) {
    rule == Long || begin >= end || Divide(threads, Steps(end - begin))
  }

  /** The threads' total is the sequential answer, for every function, exactly when the cuts change nothing. */
  lemma DistributionIff(rule: Rule, begin: real, end: real, threads: seq<nat>)
    requires |threads| > 0 && Positive(threads)
    ensures (forall f: Func :: Total(rule, f, AllPieces(begin, end, threads)) == Integrate(rule, f, begin, end)) <==>
            CutsChangeNothing(rule, begin, end, threads)
  {
    if rule == Long {
      forall f: Func
        ensures Total(rule, f, AllPieces(begin, end, threads)) == Integrate(rule, f, begin, end)
      {
        DistributedLongMethod(f, begin, end, threads);
      }
    } else {
      DistributedLongMethod2(begin, end, threads);
      if begin < end {
        SameGridIffDivides(begin, end, threads);
      }
    }
  }

  // ----- When the step widths agree -----

  /** Whole steps of width 1 / LONG_METHOD_STEPS fill the length. */
  predicate WholeSteps(length: real) {
    var x := LONG_METHOD_STEPS * length;
    x >= 1.0 && x == x.Floor as real
  }

  lemma WholeStepsWidth(a: real, b: real)
    requires WholeSteps(b - a)
    ensures a < b
    ensures StepWidth(a, b) == 1.0 / LONG_METHOD_STEPS
  {
    var n := Steps(b - a) as real;
    assert n == LONG_METHOD_STEPS * (b - a);
    QuotientUnique(b - a, n, 1.0 / LONG_METHOD_STEPS);
  }

  lemma QuotientUnique(length: real, n: real, q: real)
    requires n > 0.0 && q * n == length
    ensures length / n == q
  {
    var d := length / n - q;
    assert d * n == 0.0;
    if d > 0.0 {
      MulPositive(d, n);
      assert false;
    }
    if d < 0.0 {
      MulPositive(-d, n);
      assert false;
    }
  }

  lemma WholeStepsAdd(x: real, y: real)
    requires WholeSteps(x) && WholeSteps(y)
    ensures WholeSteps(x + y)
  {
    var m, n := (LONG_METHOD_STEPS * x).Floor, (LONG_METHOD_STEPS * y).Floor;
    FloorOfWhole(LONG_METHOD_STEPS * (x + y), m + n);
  }

  lemma FloorOfWhole(x: real, k: int)
    requires x == k as real
    ensures x.Floor == k
  {
  }

  lemma {:induction false} WholeChain(ps: seq<Piece>, begin: real, end: real)
    requires IsChain(ps, begin, end) && ps != []
    requires forall k :: 0 <= k < |ps| ==> WholeSteps(ps[k].b - ps[k].a)
    ensures WholeSteps(end - begin)
    decreases |ps|
  {
    var n := |ps| - 1;
    if n > 0 {
      ChainInit(ps, begin, end);
      WholeChain(ps[..n], begin, ps[n].a);
      WholeStepsAdd(ps[n].a - begin, end - ps[n].a);
    }
  }

  /** If whole steps fill every piece, all pieces are sampled on the grid of the sequential run. */
  lemma WholePiecesDistribute(f: Func, ps: seq<Piece>, begin: real, end: real)
    requires IsChain(ps, begin, end) && ps != []
    requires forall k :: 0 <= k < |ps| ==> WholeSteps(ps[k].b - ps[k].a)
    ensures Total(Midpoint, f, ps) == Integrate(Midpoint, f, begin, end)
  {
    WholeChain(ps, begin, end);
    WholeStepsWidth(begin, end);
    forall k | 0 <= k < |ps|
      ensures ps[k].a < ps[k].b && StepWidth(ps[k].a, ps[k].b) == StepWidth(begin, end)
    {
      WholeStepsWidth(ps[k].a, ps[k].b);
    }
    SameGridSuffices(f, ps, begin, end, StepWidth(begin, end));
  }

  ghost predicate AllOfLength(ps: seq<Piece>, length: real) {
    forall k :: 0 <= k < |ps| ==> ps[k].b - ps[k].a == length
  }

  lemma {:induction false} CutsLength(begin: real, end: real, k: nat, n: nat)
    requires k <= n && n > 0
    ensures AllOfLength(Cuts(begin, end, k, n), (end - begin) / n as real)
  {
    if k > 0 {
      CutsLength(begin, end, k - 1, n);
      CutStep(begin, end, k - 1, n);
    }
  }

  lemma {:induction false} RefineLength(ps: seq<Piece>, threads: seq<nat>, length: real, t: nat)
    requires |ps| == |threads| && Positive(threads) && t > 0
    requires AllOfLength(ps, length)
    requires forall i :: 0 <= i < |threads| ==> threads[i] == t
    ensures AllOfLength(Refine(ps, threads), length / t as real)
    decreases |ps|
  {
    if ps != [] {
      var n := |ps| - 1;
      RefineLength(ps[..n], threads[..n], length, t);
      CutsLength(ps[n].a, ps[n].b, t, t);
    }
  }

  /** With `t` threads in each of `w` workers, all pieces have the same length. */
  lemma EqualPieces(begin: real, end: real, threads: seq<nat>, t: nat)
    requires |threads| > 0 && Positive(threads) && t > 0
    requires forall i :: 0 <= i < |threads| ==> threads[i] == t
    ensures AllOfLength(AllPieces(begin, end, threads), (end - begin) / |threads| as real / t as real)
  {
    CutsLength(begin, end, |threads|, |threads|);
    RefineLength(Split(Piece(begin, end), |threads|), threads, (end - begin) / |threads| as real, t);
  }

  /** Equal thread counts whose pieces are filled by whole steps leave `LongMethod2` unchanged. */
  lemma EqualGridDistributes(f: Func, begin: real, end: real, threads: seq<nat>, t: nat)
    requires |threads| > 0 && Positive(threads) && t > 0
    requires forall i :: 0 <= i < |threads| ==> threads[i] == t
    requires WholeSteps((end - begin) / |threads| as real / t as real)
    ensures Total(Midpoint, f, AllPieces(begin, end, threads)) == Integrate(Midpoint, f, begin, end)
  {
    var ps := AllPieces(begin, end, threads);
    AllPiecesChain(begin, end, threads);
    EqualPieces(begin, end, threads, t);
    WholePiecesDistribute(f, ps, begin, end);
  }

  /** Not every configuration qualifies: on the example's interval from 0 to 1, three workers with two
      threads each sample some function at other points than one sequential run does, because 6 does not
      divide the number of steps. */
  lemma ThreeWorkersDiffer()
    ensures var threads := [2, 2, 2];
            && Positive(threads)
            && exists f: Func ::
                 Total(Midpoint, f, AllPieces(0.0, 1.0, threads)) != Integrate(Midpoint, f, 0.0, 1.0)
  {
    var threads := [2, 2, 2];
    DistributionIff(Midpoint, 0.0, 1.0, threads);
    assert Steps(1.0) == 200000000;
    assert !Divides(3, threads[0], Steps(1.0));
  }
}
