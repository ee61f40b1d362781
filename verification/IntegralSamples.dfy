/** Where the two rules of examples/integral.c look at a function and with what weight: what they answer to
    spikes, and that they are linear and depend on their samples only. */
module IntegralSamples {
  import opened Integral

  ghost predicate Combination(h: Func, s: real, f: Func, t: real, g: Func) {
    forall x :: h(x) == s * f(x) + t * g(x)
  }

  lemma Combine(s: real, t: real, x: real, y: real, u: real, v: real)
    ensures s * (x + u) + t * (y + v) == (s * x + t * y) + (s * u + t * v)
  {
  }

  // ----- LongMethod -----

  lemma {:induction false} SpikeInRange(k: int, lo: int, hi: int)
    ensures SumRange(Spike(k as real), lo, hi) == if lo <= k < hi then 1.0 else 0.0
    decreases hi - lo
  {
    if lo < hi {
      SpikeInRange(k, lo, hi - 1);
    }
  }

  lemma {:induction false} SpikeBetween(p: real, lo: int, hi: int)
    requires p != p.Floor as real
    ensures SumRange(Spike(p), lo, hi) == 0.0
    decreases hi - lo
  {
    if lo < hi {
      SpikeBetween(p, lo, hi - 1);
    }
  }

  /** Each integer between the bounds, cut towards zero, counts once, and no other integer counts. */
  lemma LongMethodSamples(k: int, a: real, b: real)
    ensures LongSum(Spike(k as real), a, b) ==
            if && (if a >= 0.0 then a - 1.0 < k as real else a <= k as real)
               && (if b >= 0.0 then k as real <= b - 1.0 else (k as real) < b)
            then 1.0 else 0.0
  {
    SpikeInRange(k, Trunc(a), Trunc(b));
  }

  /** `LongMethod` sees nothing between the integers. */
  lemma LongMethodMisses(p: real, a: real, b: real)
    requires p != p.Floor as real
    ensures LongSum(Spike(p), a, b) == 0.0
  {
    SpikeBetween(p, Trunc(a), Trunc(b));
  }

  lemma {:induction false} RangeLinear(h: Func, s: real, f: Func, t: real, g: Func, lo: int, hi: int)
    requires Combination(h, s, f, t, g)
    ensures SumRange(h, lo, hi) == s * SumRange(f, lo, hi) + t * SumRange(g, lo, hi)
    decreases hi - lo
  {
    if lo < hi {
      RangeLinear(h, s, f, t, g, lo, hi - 1);
      var x := (hi - 1) as real;
      Combine(s, t, SumRange(f, lo, hi - 1), SumRange(g, lo, hi - 1), f(x), g(x));
    }
  }

  lemma LongMethodLinear(h: Func, s: real, f: Func, t: real, g: Func, a: real, b: real)
    requires Combination(h, s, f, t, g)
    ensures LongSum(h, a, b) == s * LongSum(f, a, b) + t * LongSum(g, a, b)
  {
    RangeLinear(h, s, f, t, g, Trunc(a), Trunc(b));
  }

  lemma {:induction false} RangeLocal(f: Func, g: Func, lo: int, hi: int)
    requires forall p :: SumRange(Spike(p), lo, hi) != 0.0 ==> f(p) == g(p)
    ensures SumRange(f, lo, hi) == SumRange(g, lo, hi)
    decreases hi - lo
  {
    if lo < hi {
      SpikeInRange(hi - 1, lo, hi);
      assert f((hi - 1) as real) == g((hi - 1) as real);
      forall p | SumRange(Spike(p), lo, hi - 1) != 0.0
        ensures f(p) == g(p)
      {
        SpikeShows(p, lo, hi - 1, hi);
      }
      RangeLocal(f, g, lo, hi - 1);
    }
  }

  /** What a part of a range sees, the range sees. */
  lemma SpikeShows(p: real, lo: int, mid: int, hi: int)
    requires mid <= hi && SumRange(Spike(p), lo, mid) != 0.0
    ensures SumRange(Spike(p), lo, hi) != 0.0
  {
    if p == p.Floor as real {
      SpikeInRange(p.Floor, lo, mid);
      SpikeInRange(p.Floor, lo, hi);
    } else {
      SpikeBetween(p, lo, mid);
    }
  }

  /** Functions that agree where `LongMethod` looks have the same sum. */
  lemma LongMethodLocal(f: Func, g: Func, a: real, b: real)
    requires forall p :: LongSum(Spike(p), a, b) != 0.0 ==> f(p) == g(p)
    ensures LongSum(f, a, b) == LongSum(g, a, b)
  {
    forall p | SumRange(Spike(p), Trunc(a), Trunc(b)) != 0.0
      ensures f(p) == g(p)
    {
      assert LongSum(Spike(p), a, b) != 0.0;
    }
    RangeLocal(f, g, Trunc(a), Trunc(b));
  }

  // ----- LongMethod2 -----

  /** `n` is the number of steps for `length`: 200000000 a unit, cut to a whole number, and at least one. */
  predicate StepCount(n: nat, length: real) {
    if 200000000.0 * length < 1.0 then n == 1
    else n as real <= 200000000.0 * length < n as real + 1.0
  }

  lemma StepsCounted(n: nat, length: real)
    requires length > 0.0
    ensures StepCount(n, length) <==> n == Steps(length)
  {
  }

  /** The midpoint of step `i`, where steps of width `h` start at `a`. */
  function MidpointAt(a: real, h: real, i: int): real {
    a + (i as real + 0.5) * h
  }

  /** Each of the `n` midpoints counts with the width of a step, where there are 200000000 steps a unit,
      cut to a whole number but at least one. */
  lemma LongMethod2Samples(a: real, b: real, n: nat, k: nat)
    requires a < b && k < n
    requires if 200000000.0 * (b - a) < 1.0 then n == 1
             else n as real <= 200000000.0 * (b - a) < n as real + 1.0
    ensures MidpointSum(Spike(a + (k as real + 0.5) * ((b - a) / n as real)), a, b) == (b - a) / n as real
  {
    StepsCounted(n, b - a);
    var h := StepWidth(a, b);
    WidthTimesSteps(a, b);
    assert h == (b - a) / n as real;
    SampleIsMidpoint(a, h, k);
    assert MidpointSum(Spike(Sample(a, h, k)), a, b) == h by {
      SpikeAt(a, h, k, n);
    }
  }

  /** A spike beside the midpoints shows in no rectangle. */
  lemma SpikeMissed(p: real, a: real, h: real, n: nat)
    requires h > 0.0 && forall i :: 0 <= i < n ==> MidpointAt(a, h, i) != p
    ensures Rectangles(Spike(p), a, h, n) == 0.0
  {
    forall i | 0 <= i < n
      ensures Sample(a, h, i) != p
    {
      SampleIsMidpoint(a, h, i);
      assert MidpointAt(a, h, i) != p;
    }
    SpikeOnce(p, a, h, n);
  }

  /** `LongMethod2` sees nothing beside the midpoints, and nothing at all when the interval is empty or reversed. */
  lemma LongMethod2Misses(p: real, a: real, b: real, h: real, n: nat)
    requires n > 0 && StepCount(n, b - a) && h == (b - a) / n as real
    requires b <= a || forall i :: 0 <= i < n ==> MidpointAt(a, h, i) != p
    ensures MidpointSum(Spike(p), a, b) == 0.0
  {
    if a < b {
      StepsCounted(n, b - a);
      WidthTimesSteps(a, b);
      SpikeMissed(p, a, h, n);
    }
  }

  lemma LinearTerm(h: real, s: real, x: real, t: real, y: real)
    ensures (s * x + t * y) * h == s * (x * h) + t * (y * h)
  {
  }

  lemma {:induction false} RectanglesLinear(u: Func, s: real, f: Func, t: real, g: Func, a: real, h: real, n: nat)
    requires Combination(u, s, f, t, g)
    ensures Rectangles(u, a, h, n) == s * Rectangles(f, a, h, n) + t * Rectangles(g, a, h, n)
  {
    if n > 0 {
      RectanglesLinear(u, s, f, t, g, a, h, n - 1);
      var x := Sample(a, h, n - 1);
      LinearTerm(h, s, f(x), t, g(x));
      Combine(s, t, Rectangles(f, a, h, n - 1), Rectangles(g, a, h, n - 1), f(x) * h, g(x) * h);
    }
  }

  lemma LongMethod2Linear(u: Func, s: real, f: Func, t: real, g: Func, a: real, b: real)
    requires Combination(u, s, f, t, g)
    ensures MidpointSum(u, a, b) == s * MidpointSum(f, a, b) + t * MidpointSum(g, a, b)
  {
    if a < b {
      RectanglesLinear(u, s, f, t, g, a, StepWidth(a, b), Steps(b - a));
    }
  }

  lemma {:induction false} RectanglesLocal(f: Func, g: Func, a: real, h: real, n: nat)
    requires forall i :: 0 <= i < n ==> f(Sample(a, h, i)) == g(Sample(a, h, i))
    ensures Rectangles(f, a, h, n) == Rectangles(g, a, h, n)
  {
    if n > 0 {
      RectanglesLocal(f, g, a, h, n - 1);
    }
  }

  /** Functions that agree where `LongMethod2` looks have the same sum. */
  lemma LongMethod2Local(f: Func, g: Func, a: real, b: real)
    requires forall p :: MidpointSum(Spike(p), a, b) != 0.0 ==> f(p) == g(p)
    ensures MidpointSum(f, a, b) == MidpointSum(g, a, b)
  {
    if a < b {
      var h, n := StepWidth(a, b), Steps(b - a);
      WidthTimesSteps(a, b);
      forall i | 0 <= i < n
        ensures f(Sample(a, h, i)) == g(Sample(a, h, i))
      {
        SpikeAt(a, h, i, n);
        assert MidpointSum(Spike(Sample(a, h, i)), a, b) != 0.0;
      }
      RectanglesLocal(f, g, a, h, n);
    }
  }
}
