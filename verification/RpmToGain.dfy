/** The gain for a wanted speed: the least admissible root of a quadratic, with the sign of the speed. */
module RpmToGain {
  const MAX_GAIN := 8191.0
  const DEAD_BAND := 50.0

  /** Coefficients of speed as a polynomial in gain g and voltage v. */
  datatype Coefficients = Coefficients(
    g2: real, g2v: real, g: real, gv: real, gv2: real, c0: real, v: real, v2: real, v3: real)

  datatype Equations = Equations(positive: Coefficients, negative: Coefficients)

  /** The library's root finder, by what it returns: the real roots of a x^2 + b x + c, none for the zero polynomial. */
  type Roots = (real, real, real) -> seq<real>

  function Eval(a: real, b: real, c: real, x: real): real {
    a * x * x + b * x + c
  }

  predicate IsRoot(a: real, b: real, c: real, x: real) {
    (a != 0.0 || b != 0.0 || c != 0.0) && Eval(a, b, c, x) == 0.0
  }

  ghost predicate FindsRealRoots(roots: Roots) {
    forall a, b, c, x {:trigger x in roots(a, b, c)} {:trigger IsRoot(a, b, c, x)} ::
      x in roots(a, b, c) <==> IsRoot(a, b, c, x)
  }

  function Abs(x: real): real {
    if x < 0.0 then -x else x
  }

  function A(c: Coefficients, v: real): real {
    c.g2 + c.g2v * v
  }

  function B(c: Coefficients, v: real): real {
    c.g + c.gv * v + c.gv2 * v * v
  }

  function C(c: Coefficients, v: real, rpm: real): real {
    c.c0 + c.v * v + c.v2 * v * v + c.v3 * v * v * v - rpm
  }

  /** The speed that the equations give at a gain and a voltage. */
  function Speed(c: Coefficients, gain: real, v: real): real {
    Eval(A(c, v), B(c, v), C(c, v, 0.0), gain)
  }

  predicate InBounds(x: real) {
    0.0 <= x <= MAX_GAIN
  }

  function Candidates(rs: seq<real>): seq<real> {
    if rs == [] then []
    else if InBounds(rs[0]) then [rs[0]] + Candidates(rs[1..])
    else Candidates(rs[1..])
  }

  function Min(xs: seq<real>): real
    requires xs != []
  {
    if |xs| == 1 then xs[0]
    else var m := Min(xs[1..]); if xs[0] < m then xs[0] else m
  }

  function For(eq: Equations, rpm: real): Coefficients {
    if rpm >= 0.0 then eq.positive else eq.negative
  }

  function Gain(eq: Equations, roots: Roots, rpm: real, v: real): real {
    if Abs(rpm) < DEAD_BAND then 0.0
    else
      var c := For(eq, rpm);
      var candidates := Candidates(roots(A(c, v), B(c, v), C(c, v, rpm)));
      if candidates == [] then 0.0
      else Min(candidates) * (if rpm >= 0.0 then 1.0 else -1.0)
  }

  // ---- What the gain is, without reference to how the roots are found ----

  lemma {:induction false} CandidatesFilter(rs: seq<real>, x: real)
    ensures x in Candidates(rs) <==> x in rs && InBounds(x)
  {
    if rs != [] {
      CandidatesFilter(rs[1..], x);
      assert rs == [rs[0]] + rs[1..];
    }
  }

  lemma {:induction false} MinIsLeast(xs: seq<real>)
    requires xs != []
    ensures Min(xs) in xs && forall x :: x in xs ==> Min(xs) <= x
  {
    if |xs| > 1 {
      MinIsLeast(xs[1..]);
      assert xs == [xs[0]] + xs[1..];
    }
  }

  lemma Distribute(a: real, b: real, c: real, x: real, y: real)
    ensures (a + b) * x == a * x + b * x && (a + b + c) * x == a * x + b * x + c * x && (a * x) * y == (a * y) * x
  {
  }

  /** The speed as one polynomial in gain and voltage. */
  lemma SpeedIsPolynomial(c: Coefficients, gain: real, v: real)
    ensures Speed(c, gain, v)
      == c.g2 * gain * gain + c.g2v * gain * gain * v
       + c.g * gain + c.gv * gain * v + c.gv2 * gain * v * v
       + c.c0 + c.v * v + c.v2 * v * v + c.v3 * v * v * v
  {
    var a, b := c.g2v * v, c.gv * v;
    Distribute(c.g2, a, 0.0, gain, gain);
    Distribute(c.g2 * gain, a * gain, 0.0, gain, gain);
    Distribute(c.g2v, 0.0, 0.0, v, gain);
    Distribute(c.g2v * gain, 0.0, 0.0, v, gain);
    Distribute(c.g, b, b * 0.0 + c.gv2 * v * v, gain, gain);
    Distribute(c.gv, 0.0, 0.0, v, gain);
    Distribute(c.gv2 * v, 0.0, 0.0, v, gain);
    Distribute(c.gv2, 0.0, 0.0, v, gain);
  }

  /** At this voltage the equations give the same speed for every gain. */
  ghost predicate SpeedIsAlways(c: Coefficients, v: real, rpm: real) {
    forall x: real :: Speed(c, x, v) == rpm
  }

  lemma AlwaysExactly(c: Coefficients, v: real, rpm: real)
    ensures SpeedIsAlways(c, v, rpm) <==> A(c, v) == 0.0 && B(c, v) == 0.0 && C(c, v, rpm) == 0.0
  {
    if SpeedIsAlways(c, v, rpm) {
      assert Speed(c, 0.0, v) == rpm && Speed(c, 1.0, v) == rpm && Speed(c, -1.0, v) == rpm;
    }
  }

  /** An admissible gain that gives exactly the wanted speed; equations that always give it have none. */
  ghost predicate Solves(c: Coefficients, rpm: real, v: real, gain: real) {
    0.0 <= gain <= 8191.0 && Speed(c, gain, v) == rpm && !SpeedIsAlways(c, v, rpm)
  }

  lemma EvalShifts(a: real, b: real, c: real, d: real, x: real)
    ensures Eval(a, b, c - d, x) == Eval(a, b, c, x) - d
  {
  }

  lemma SolvesIsRoot(c: Coefficients, rpm: real, v: real, gain: real)
    ensures Solves(c, rpm, v, gain) <==> InBounds(gain) && IsRoot(A(c, v), B(c, v), C(c, v, rpm), gain)
  {
    EvalShifts(A(c, v), B(c, v), C(c, v, 0.0), rpm, gain);
    assert C(c, v, rpm) == C(c, v, 0.0) - rpm;
    AlwaysExactly(c, v, rpm);
  }

  /** The magnitude of the gain is the least admissible one that gives the wanted speed; it is 0 exactly when that is, or none is. */
  lemma GainIsLeastSolution(eq: Equations, roots: Roots, rpm: real, v: real)
    requires FindsRealRoots(roots) && (rpm <= -50.0 || 50.0 <= rpm)
    ensures var c, m := if rpm >= 0.0 then eq.positive else eq.negative, Abs(Gain(eq, roots, rpm, v));
      && (forall g :: Solves(c, rpm, v, g) ==> Solves(c, rpm, v, m) && m <= g)
      && (!Solves(c, rpm, v, m) ==> m == 0.0)
    ensures rpm >= 0.0 ==> Gain(eq, roots, rpm, v) >= 0.0
    ensures rpm < 0.0 ==> Gain(eq, roots, rpm, v) <= 0.0
  {
    var c := For(eq, rpm);
    var rs := roots(A(c, v), B(c, v), C(c, v, rpm));
    var xs := Candidates(rs);
    forall g ensures g in xs <==> Solves(c, rpm, v, g) {
      CandidatesFilter(rs, g);
      SolvesIsRoot(c, rpm, v, g);
    }
    if xs != [] {
      MinIsLeast(xs);
      assert Solves(c, rpm, v, Min(xs));
    }
  }

  /** In the dead band the gain is 0. */
  lemma DeadBandIsZero(eq: Equations, roots: Roots, rpm: real, v: real)
    requires -50.0 < rpm < 50.0
    ensures Gain(eq, roots, rpm, v) == 0.0
  {
  }

  /** The least admissible gain that gives the wanted speed. */
  ghost predicate IsLeast(c: Coefficients, rpm: real, v: real, gain: real) {
    Solves(c, rpm, v, gain) && forall g :: Solves(c, rpm, v, g) ==> gain <= g
  }

  /** When exactly a gain is not 0: outside the dead band, if the least solution exists and is positive; then it is that, with the sign of the speed. */
  lemma NonZeroExactly(eq: Equations, roots: Roots, rpm: real, v: real)
    requires FindsRealRoots(roots)
    ensures var c, gain := if rpm >= 0.0 then eq.positive else eq.negative, Gain(eq, roots, rpm, v);
      && (gain != 0.0 <==> (rpm <= -50.0 || 50.0 <= rpm) && exists g :: g > 0.0 && IsLeast(c, rpm, v, g))
      && (gain != 0.0 ==> IsLeast(c, rpm, v, if rpm >= 0.0 then gain else -gain))
  {
    var c, gain := if rpm >= 0.0 then eq.positive else eq.negative, Gain(eq, roots, rpm, v);
    if -50.0 < rpm < 50.0 {
      DeadBandIsZero(eq, roots, rpm, v);
    } else {
      GainIsLeastSolution(eq, roots, rpm, v);
      if gain != 0.0 {
        assert IsLeast(c, rpm, v, Abs(gain));
      }
    }
  }

  /** Every gain is within the bounds of the command. */
  lemma GainInBounds(eq: Equations, roots: Roots, rpm: real, v: real)
    ensures -8191.0 <= Gain(eq, roots, rpm, v) <= 8191.0
  {
    if Abs(rpm) >= DEAD_BAND {
      var c := For(eq, rpm);
      var rs := roots(A(c, v), B(c, v), C(c, v, rpm));
      if Candidates(rs) != [] {
        MinIsLeast(Candidates(rs));
        CandidatesFilter(rs, Min(Candidates(rs)));
      }
    }
  }

  /** So the gain is determined by the equations: in which order, or how often, the roots are listed does not matter. */
  lemma GainIsDetermined(eq: Equations, roots: Roots, others: Roots, rpm: real, v: real)
    requires FindsRealRoots(roots) && FindsRealRoots(others)
    ensures Gain(eq, roots, rpm, v) == Gain(eq, others, rpm, v)
  {
    if Abs(rpm) >= DEAD_BAND {
      GainIsLeastSolution(eq, roots, rpm, v);
      GainIsLeastSolution(eq, others, rpm, v);
      var c, m, n := For(eq, rpm), Abs(Gain(eq, roots, rpm, v)), Abs(Gain(eq, others, rpm, v));
      assert Solves(c, rpm, v, m) <==> Solves(c, rpm, v, n);
      assert m == n;
    }
  }

  lemma Difference(a: real, b: real, c: real, x: real, y: real)
    requires Eval(a, b, c, x) == 0.0 && Eval(a, b, c, y) == 0.0 && x != y
    ensures a * (x + y) + b == 0.0
  {
    assert (x - y) * (a * (x + y) + b) == Eval(a, b, c, x) - Eval(a, b, c, y);
    NoZeroDivisors(x - y, a * (x + y) + b);
  }

  lemma NoZeroDivisors(d: real, e: real)
    requires d * e == 0.0 && d != 0.0
    ensures e == 0.0
  {
  }

  lemma TrulyQuadratic(a: real, b: real, c: real, x: real, y: real)
    requires IsRoot(a, b, c, x) && IsRoot(a, b, c, y) && x != y
    ensures a != 0.0
  {
    Difference(a, b, c, x, y);
  }

  lemma SameSum(a: real, b: real, x: real, y: real, z: real)
    requires a != 0.0 && a * (x + y) + b == 0.0 && a * (x + z) + b == 0.0
    ensures y == z
  {
    assert a * (y - z) == (a * (x + y) + b) - (a * (x + z) + b);
    NoZeroDivisors(a, y - z);
  }

  lemma AtMostTwoRoots(a: real, b: real, c: real, x: real, y: real, z: real)
    requires IsRoot(a, b, c, x) && IsRoot(a, b, c, y) && IsRoot(a, b, c, z) && x != y && x != z
    ensures y == z
  {
    TrulyQuadratic(a, b, c, x, y);
    Difference(a, b, c, x, y);
    Difference(a, b, c, x, z);
    SameSum(a, b, x, y, z);
  }

  /** There are at most two gains to choose from. */
  lemma AtMostTwoSolutions(c: Coefficients, rpm: real, v: real, x: real, y: real, z: real)
    requires Solves(c, rpm, v, x) && Solves(c, rpm, v, y) && Solves(c, rpm, v, z)
    requires x != y && x != z
    ensures y == z
  {
    SolvesIsRoot(c, rpm, v, x);
    SolvesIsRoot(c, rpm, v, y);
    SolvesIsRoot(c, rpm, v, z);
    AtMostTwoRoots(A(c, v), B(c, v), C(c, v, rpm), x, y, z);
  }
}
