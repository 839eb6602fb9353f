/** The quadrature engine of src/common/integrator.cpp over exact reals. The
    integrand 1/ln(x) is left abstract: every rule takes it as a parameter f. */
module Integrator {
  import opened DataStream
  import opened Protocol

  const StepError := "Step h must be > 0"
  const SingularityError := "Integration interval contains x=1 singularity"
  const MethodError := "Unknown method type"

  function Min(a: real, b: real): real { if a <= b then a else b }
  function Max(a: real, b: real): real { if a <= b then b else a }
  function Abs(x: real): real { if x < 0.0 then -x else x }

  /** The closed interval between a and b, in either order, holds 1. */
  predicate ContainsSingularity(a: real, b: real)
  {
    Min(a, b) <= 1.0 <= Max(a, b)
  }

  /** The number of whole steps of length h that fit between a and b. */
  function StepsCount(a: real, b: real, h: real): (n: nat)
    requires h > 0.0
    ensures n as real * h <= Abs(b - a) < (n + 1) as real * h
  {
    StepBounds(Abs(b - a), h);
    (Abs(b - a) / h).Floor
  }

  /** The signed step: h pointing from a toward b. */
  function StepOf(a: real, b: real, h: real): real
  {
    (if b > a then 1.0 else -1.0) * h
  }

  /** The i-th grid point a + i*step. */
  function Point(a: real, step: real, i: int): real
  {
    a + i as real * step
  }

  lemma PointNext(a: real, step: real, i: int)
    ensures Point(a, step, i + 1) == Point(a, step, i) + step
  {
    assert (i + 1) as real == i as real + 1.0;
  }

  // ------------------------------------------------- the three rules' sums

  /** f at the midpoints of the first k cells. */
  function MidpointSum(f: real -> real, a: real, step: real, k: nat): real
  {
    if k == 0 then 0.0 else MidpointSum(f, a, step, k - 1) + f(Point(a, step, k - 1) + step * 0.5)
  }

  /** The averaged end values of the first k cells. */
  function TrapezoidSum(f: real -> real, a: real, step: real, k: nat): real
  {
    if k == 0 then 0.0
    else TrapezoidSum(f, a, step, k - 1) + 0.5 * (f(Point(a, step, k - 1)) + f(Point(a, step, k)))
  }

  /** Composite Simpson weights over grid points 0..m: 1, 4, 2, 4, ..., 2, 4, 1. */
  function SimpsonWeight(i: nat, m: nat): real
  {
    if i == 0 || i == m then 1.0 else if i % 2 == 1 then 4.0 else 2.0
  }

  /** The Simpson-weighted values at grid points 0..k-1. */
  function WeightedSum(f: real -> real, a: real, step: real, m: nat, k: nat): real
  {
    if k == 0 then 0.0 else WeightedSum(f, a, step, m, k - 1) + SimpsonWeight(k - 1, m) * f(Point(a, step, k - 1))
  }

  /** f at the interior grid points 1..k-1 whose index has the given parity. */
  function InteriorSum(f: real -> real, a: real, step: real, k: nat, parity: nat): real
  {
    if k <= 1 then 0.0
    else InteriorSum(f, a, step, k - 1, parity) + (if (k - 1) % 2 == parity then f(Point(a, step, k - 1)) else 0.0)
  }

  lemma InteriorNext(f: real -> real, a: real, step: real, i: nat)
    requires i >= 1
    ensures InteriorSum(f, a, step, i + 1, 1)
         == InteriorSum(f, a, step, i, 1) + (if i % 2 == 1 then f(a + i as real * step) else 0.0)
    ensures InteriorSum(f, a, step, i + 1, 0)
         == InteriorSum(f, a, step, i, 0) + (if i % 2 == 0 then f(a + i as real * step) else 0.0)
  {
    assert Point(a, step, i) == a + i as real * step;
  }

  /** The even step count Simpson's rule uses: one step is dropped when n is odd. */
  function SimpsonCount(n: nat): (m: nat)
    requires n >= 2
    ensures m % 2 == 0 && 2 <= m <= n && n - m <= 1
  {
    if n % 2 == 1 then n - 1 else n
  }

  function MidpointRule(f: real -> real, a: real, b: real, h: real): real
    requires h > 0.0
  {
    var step := StepOf(a, b, h);
    MidpointSum(f, a, step, StepsCount(a, b, h)) * step
  }

  function TrapezoidRule(f: real -> real, a: real, b: real, h: real): real
    requires h > 0.0
  {
    var n := StepsCount(a, b, h);
    var step := StepOf(a, b, h);
    if n == 0 then 0.0 else TrapezoidSum(f, a, step, n) * step
  }

  function SimpsonRule(f: real -> real, a: real, b: real, h: real): real
    requires h > 0.0
  {
    var n := StepsCount(a, b, h);
    if n < 2 then TrapezoidRule(f, a, b, h)
    else
      var m := SimpsonCount(n);
      var step := StepOf(a, b, h);
      (step / 3.0) * WeightedSum(f, a, step, m, m + 1)
  }

  /** Integrator::integrate: the value, or the message of the invalid_argument
      it throws. The checks run in the order: step, empty interval, singularity,
      method. */
  function Integral(f: real -> real, a: real, b: real, h: real, methodType: u8): Result<real, string>
  {
    if !(h > 0.0) then Err(StepError)
    else if a == b then Ok(0.0)
    else if ContainsSingularity(a, b) then Err(SingularityError)
    else if methodType == MidpointRectangles then Ok(MidpointRule(f, a, b, h))
    else if methodType == Trapezoids then Ok(TrapezoidRule(f, a, b, h))
    else if methodType == Simpson then Ok(SimpsonRule(f, a, b, h))
    else Err(MethodError)
  }

  // ------------------------------------------------------------ the methods

  method IntegrateMidpoint(f: real -> real, a: real, b: real, h: real) returns (r: real)
    requires h > 0.0
    ensures r == MidpointRule(f, a, b, h)
  {
    var n := StepsCount(a, b, h);
    var step := StepOf(a, b, h);
    var sum := 0.0;
    var x := a;
    var i := 0;
    while i < n
      invariant 0 <= i <= n
      invariant x == Point(a, step, i)
      invariant sum == MidpointSum(f, a, step, i)
    {
      var mid := x + step * 0.5;
      sum := sum + f(mid);
      PointNext(a, step, i);
      x := x + step;
      i := i + 1;
    }
    r := sum * step;
  }

  method IntegrateTrapezoids(f: real -> real, a: real, b: real, h: real) returns (r: real)
    requires h > 0.0
    ensures r == TrapezoidRule(f, a, b, h)
  {
    var n := StepsCount(a, b, h);
    var step := StepOf(a, b, h);
    if n == 0 {
      return 0.0;
    }
    var sum := 0.0;
    var x0 := a;
    var i := 0;
    while i < n
      invariant 0 <= i <= n
      invariant x0 == Point(a, step, i)
      invariant sum == TrapezoidSum(f, a, step, i)
    {
      var x1 := x0 + step;
      PointNext(a, step, i);
      sum := sum + 0.5 * (f(x0) + f(x1));
      x0 := x1;
      i := i + 1;
    }
    r := sum * step;
  }

  method IntegrateSimpson(f: real -> real, a: real, b: real, h: real) returns (r: real)
    requires h > 0.0
    ensures r == SimpsonRule(f, a, b, h)
  {
    var n := StepsCount(a, b, h);
    if n < 2 {
      r := IntegrateTrapezoids(f, a, b, h);
      return;
    }
    if n % 2 == 1 {
      n := n - 1;
    }
    assert n == SimpsonCount(StepsCount(a, b, h));
    var step := StepOf(a, b, h);
    r := SimpsonFrom(f, a, step, n);
    SimpsonValue(f, a, b, h, n, step);
  }

  /** The Simpson formula over the grid a + i*step, i = 0..n, from its accumulators. */
  method SimpsonFrom(f: real -> real, a: real, step: real, n: nat) returns (r: real)
    requires n >= 2
    ensures r == (step / 3.0) * (f(a) + 4.0 * InteriorSum(f, a, step, n, 1)
                                 + 2.0 * InteriorSum(f, a, step, n, 0) + f(a + n as real * step))
  {
    var s0 := f(a);
    var s1, s2 := SimpsonSums(f, a, step, n);
    var xn := a + n as real * step;
    var sn := f(xn);
    r := (step / 3.0) * (s0 + 4.0 * s1 + 2.0 * s2 + sn);
  }

  /** The loop of integrateSimpson: f at the odd and at the even interior grid
      points, accumulated separately. */
  method SimpsonSums(f: real -> real, a: real, step: real, n: nat) returns (s1: real, s2: real)
    requires n >= 1
    ensures s1 == InteriorSum(f, a, step, n, 1)
    ensures s2 == InteriorSum(f, a, step, n, 0)
  {
    s1, s2 := 0.0, 0.0;
    var i := 1;
    while i < n
      invariant 1 <= i <= n
      invariant s1 == InteriorSum(f, a, step, i, 1)
      invariant s2 == InteriorSum(f, a, step, i, 0)
    {
      var x := a + i as real * step;
      InteriorNext(f, a, step, i);
      if i % 2 == 1 {
        s1 := s1 + f(x);
      } else {
        s2 := s2 + f(x);
      }
      i := i + 1;
    }
  }

  method Integrate(f: real -> real, a: real, b: real, h: real, methodType: u8)
    returns (r: Result<real, string>)
    ensures r == Integral(f, a, b, h, methodType)
  {
    if !(h > 0.0) {
      return Err(StepError);
    }
    if a == b {
      return Ok(0.0);
    }
    if ContainsSingularity(a, b) {
      return Err(SingularityError);
    }
    var v: real;
    if methodType == MidpointRectangles {
      v := IntegrateMidpoint(f, a, b, h);
    } else if methodType == Trapezoids {
      v := IntegrateTrapezoids(f, a, b, h);
    } else if methodType == Simpson {
      v := IntegrateSimpson(f, a, b, h);
    } else {
      return Err(MethodError);
    }
    return Ok(v);
  }

  // -------------------------------------------------------------- lemmas

  /** Simpson's weighted sum is the endpoint values plus 4 times the odd
      interior values plus 2 times the even ones. */
  lemma {:induction false} WeightedPrefix(f: real -> real, a: real, step: real, m: nat, k: nat)
    requires 1 <= k <= m
    ensures WeightedSum(f, a, step, m, k)
         == f(a) + 4.0 * InteriorSum(f, a, step, k, 1) + 2.0 * InteriorSum(f, a, step, k, 0)
  {
    if k == 1 {
      assert Point(a, step, 0) == a;
    } else {
      WeightedPrefix(f, a, step, m, k - 1);
    }
  }

  /** The full Simpson-weighted sum over m steps in accumulator form. */
  lemma SimpsonAccumulators(f: real -> real, a: real, step: real, m: nat)
    requires m >= 2
    ensures WeightedSum(f, a, step, m, m + 1)
         == f(a) + 4.0 * InteriorSum(f, a, step, m, 1) + 2.0 * InteriorSum(f, a, step, m, 0)
            + f(a + m as real * step)
  {
    WeightedPrefix(f, a, step, m, m);
    assert SimpsonWeight(m, m) == 1.0;
    assert Point(a, step, m) == a + m as real * step;
  }

  /** Simpson's rule in the accumulator form the loop computes. */
  lemma SimpsonValue(f: real -> real, a: real, b: real, h: real, m: nat, step: real)
    requires h > 0.0 && StepsCount(a, b, h) >= 2
    requires m == SimpsonCount(StepsCount(a, b, h)) && step == StepOf(a, b, h)
    ensures SimpsonRule(f, a, b, h)
         == (step / 3.0) * (f(a) + 4.0 * InteriorSum(f, a, step, m, 1)
                            + 2.0 * InteriorSum(f, a, step, m, 0) + f(a + m as real * step))
  {
    assert SimpsonRule(f, a, b, h) == (step / 3.0) * WeightedSum(f, a, step, m, m + 1);
    SimpsonAccumulators(f, a, step, m);
  }

  lemma StepBounds(d: real, h: real)
    requires d >= 0.0 && h > 0.0
    ensures (d / h).Floor >= 0
    ensures (d / h).Floor as real * h <= d < ((d / h).Floor + 1) as real * h
  {
    var q := d / h;
    var n := q.Floor;
    assert n as real <= q < n as real + 1.0;
    assert q * h == d;
    MulMono(n as real, q, h);
    MulStrict(q, n as real + 1.0, h);
    assert d < (n as real + 1.0) * h;
    assert (n + 1) as real == n as real + 1.0;
  }

  lemma MulStrict(x: real, y: real, h: real)
    requires x < y && h > 0.0
    ensures x * h < y * h
  {
    assert y * h - x * h == (y - x) * h;
  }

  lemma MulMono(x: real, y: real, h: real)
    requires x <= y && h > 0.0
    ensures x * h <= y * h
  {
    assert y * h - x * h == (y - x) * h;
  }

  /** The order of the checks and what each outcome means. */
  lemma IntegralChecks(f: real -> real, a: real, b: real, h: real, methodType: u8)
    ensures !(h > 0.0) ==> Integral(f, a, b, h, methodType) == Err(StepError)
    ensures h > 0.0 && a == b ==> Integral(f, a, b, h, methodType) == Ok(0.0)
    ensures h > 0.0 && a != b && ContainsSingularity(a, b) ==>
              Integral(f, a, b, h, methodType) == Err(SingularityError)
    ensures h > 0.0 && a != b && !ContainsSingularity(a, b)
              && methodType !in {MidpointRectangles, Trapezoids, Simpson} ==>
              Integral(f, a, b, h, methodType) == Err(MethodError)
    ensures Integral(f, a, b, h, methodType).Ok? <==>
              h > 0.0 && (a == b || (!ContainsSingularity(a, b)
                                     && methodType in {MidpointRectangles, Trapezoids, Simpson}))
  {
  }

  /** The two rejections tests/integrator_tests.cpp expects: both calls throw
      (an Err here), whatever the message. */
  lemma TestedCases(f: real -> real)
    ensures Integral(f, 0.5, 2.0, 0.1, Trapezoids).Err?
    ensures Integral(f, 2.0, 10.0, 0.0, Simpson).Err?
  {
  }

  /** Beyond what the tests check: which message each tested rejection
      carries, and that an empty interval integrates to 0 even at x = 1. */
  lemma TestedCasesMessages(f: real -> real)
    ensures Integral(f, 0.5, 2.0, 0.1, Trapezoids) == Err(SingularityError)
    ensures Integral(f, 2.0, 10.0, 0.0, Simpson) == Err(StepError)
    ensures forall h: real, m: u8 :: h > 0.0 ==> Integral(f, 1.0, 1.0, h, m) == Ok(0.0)
  {
  }

  /** Every grid point the rules sample lies in the closed interval. */
  lemma {:induction false} GridPointInInterval(a: real, b: real, h: real, i: nat)
    requires h > 0.0 && i <= StepsCount(a, b, h)
    ensures Min(a, b) <= Point(a, StepOf(a, b, h), i) <= Max(a, b)
  {
    var n := StepsCount(a, b, h);
    MulMono(i as real, n as real, h);
    assert i as real * h <= Abs(b - a);
    assert 0.0 <= i as real * h;
  }

  /** Every midpoint the midpoint rule samples lies in the closed interval. */
  lemma {:induction false} MidpointInInterval(a: real, b: real, h: real, i: nat)
    requires h > 0.0 && i < StepsCount(a, b, h)
    ensures Min(a, b) <= Point(a, StepOf(a, b, h), i) + StepOf(a, b, h) * 0.5 <= Max(a, b)
  {
    var n := StepsCount(a, b, h);
    MulMono(i as real + 0.5, n as real, h);
    assert (i as real + 0.5) * h <= Abs(b - a);
    assert 0.0 <= (i as real + 0.5) * h;
  }

  /** So once the singularity check has passed, f is never sampled at 1. */
  lemma SamplesAvoidSingularity(a: real, b: real, h: real, i: nat)
    requires h > 0.0 && !ContainsSingularity(a, b)
    requires i <= StepsCount(a, b, h)
    ensures Point(a, StepOf(a, b, h), i) != 1.0
    ensures i < StepsCount(a, b, h) ==> Point(a, StepOf(a, b, h), i) + StepOf(a, b, h) * 0.5 != 1.0
  {
    GridPointInInterval(a, b, h, i);
    if i < StepsCount(a, b, h) {
      MidpointInInterval(a, b, h, i);
    }
  }

  // A constant integrand: every rule returns c times the signed length of the
  // steps it covers.

  lemma {:induction false} MidpointConstant(c: real, a: real, step: real, k: nat)
    ensures MidpointSum(_ => c, a, step, k) == k as real * c
  {
    if k > 0 {
      MidpointConstant(c, a, step, k - 1);
    }
  }

  lemma {:induction false} TrapezoidConstant(c: real, a: real, step: real, k: nat)
    ensures TrapezoidSum(_ => c, a, step, k) == k as real * c
  {
    if k > 0 {
      TrapezoidConstant(c, a, step, k - 1);
    }
  }

  lemma {:induction false} InteriorConstant(c: real, a: real, step: real, k: nat)
    requires k >= 1
    ensures InteriorSum(_ => c, a, step, k, 1) == (k / 2) as real * c
    ensures InteriorSum(_ => c, a, step, k, 0) == ((k - 1) / 2) as real * c
  {
    if k > 1 {
      InteriorConstant(c, a, step, k - 1);
      if (k - 1) % 2 == 1 {
        assert k / 2 == (k - 1) / 2 + 1 && (k - 1) / 2 == (k - 2) / 2;
        assert (k / 2) as real * c == ((k - 1) / 2) as real * c + c;
      } else {
        assert k / 2 == (k - 1) / 2 && (k - 1) / 2 == (k - 2) / 2 + 1;
        assert ((k - 1) / 2) as real * c == ((k - 2) / 2) as real * c + c;
      }
    }
  }

  lemma MidpointRuleConstant(c: real, a: real, b: real, h: real)
    requires h > 0.0
    ensures MidpointRule(_ => c, a, b, h) == c * StepsCount(a, b, h) as real * StepOf(a, b, h)
  {
    MidpointConstant(c, a, StepOf(a, b, h), StepsCount(a, b, h));
  }

  lemma TrapezoidRuleConstant(c: real, a: real, b: real, h: real)
    requires h > 0.0
    ensures TrapezoidRule(_ => c, a, b, h) == c * StepsCount(a, b, h) as real * StepOf(a, b, h)
  {
    TrapezoidConstant(c, a, StepOf(a, b, h), StepsCount(a, b, h));
  }

  lemma SimpsonRuleConstant(c: real, a: real, b: real, h: real)
    requires h > 0.0 && StepsCount(a, b, h) >= 2
    ensures SimpsonRule(_ => c, a, b, h)
         == c * SimpsonCount(StepsCount(a, b, h)) as real * StepOf(a, b, h)
  {
    var m := SimpsonCount(StepsCount(a, b, h));
    var step := StepOf(a, b, h);
    SimpsonValue(_ => c, a, b, h, m, step);
    InteriorConstant(c, a, step, m);
    var k := m / 2;
    assert m == 2 * k && (m - 1) / 2 == k - 1;
    var total := c + 4.0 * ((k as real) * c) + 2.0 * ((k - 1) as real * c) + c;
    assert total == 6.0 * k as real * c;
    assert (step / 3.0) * total == c * m as real * step;
  }

  /** On a constant integrand c each rule yields c times the signed length it
      covers: n steps, or the even count Simpson's rule uses. */
  lemma ConstantExact(c: real, a: real, b: real, h: real, methodType: u8)
    requires Integral(_ => c, a, b, h, methodType).Ok? && a != b
    ensures var n := StepsCount(a, b, h);
            var covered := if methodType == Simpson && n >= 2 then SimpsonCount(n) else n;
            Integral(_ => c, a, b, h, methodType).value == c * covered as real * StepOf(a, b, h)
  {
    var n := StepsCount(a, b, h);
    if methodType == MidpointRectangles {
      MidpointRuleConstant(c, a, b, h);
    } else if methodType == Trapezoids || n < 2 {
      TrapezoidRuleConstant(c, a, b, h);
    } else {
      SimpsonRuleConstant(c, a, b, h);
    }
  }

  /** Integrating from b back to a does not in general negate the result: the
      dropped partial step sits at the far end in each direction. With f(x)=x
      on [2, 2.5] and h = 0.3 the midpoint rule samples 2.15 forwards and 2.35
      backwards. */
  lemma ReversalNotAntisymmetric()
    ensures Integral(x => x, 2.0, 2.5, 0.3, MidpointRectangles) == Ok(0.645)
    ensures Integral(x => x, 2.5, 2.0, 0.3, MidpointRectangles) == Ok(-0.705)
  {
    assert StepsCount(2.0, 2.5, 0.3) == 1;
    assert StepsCount(2.5, 2.0, 0.3) == 1;
  }
}
