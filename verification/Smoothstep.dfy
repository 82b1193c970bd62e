/** The sigmoid of jemalloc's smoothstep.h: the "smoother" curve in 200 steps with a 24-bit
    binary fixed point, which rises and never exceeds one. */
module Smoothstep {
  import opened Arith

  const NSTEPS: nat := 200
  const ONE: nat := 0x100_0000                  // 1.0 in fixed point

  /** 6x^5 - 15x^4 + 10x^3 at x = s / NSTEPS, scaled by NSTEPS^5. */
  function Curve(s: nat): int { s * s * s * (6 * s * s - 3000 * s + 400000) }

  lemma Cube(s: nat)
    ensures (s + 1) * (s + 1) * (s + 1) == s * s * s + 3 * (s * s) + 3 * s + 1
  {
  }

  lemma CurveAt(s: nat, a: nat, c: nat)
    requires a == s * s && c == s * s * s
    ensures Curve(s) == 6 * (c * a) - 3000 * (c * s) + 400000 * c
  {
  }

  lemma Distribute(c: int, a: int, s: int, x: int)
    ensures (c + 3 * a + 3 * s + 1) * x == c * x + 3 * (a * x) + 3 * (s * x) + x
  {
  }

  lemma Square(s: int, a: int, c: int, d: int)
    requires a == s * s && c == a * s && d == a * a
    ensures d == c * s && (199 * s - a) * (199 * s - a) == 39601 * a - 398 * c + d
  {
  }

  lemma Distribute2(cc: int, a: int, s: int)
    ensures cc * (a + 2 * s + 1) == cc * a + 2 * (cc * s) + cc
    ensures cc * (s + 1) == cc * s + cc
  {
  }

  /** With a, c, d and e the powers of s, the curve rises by 30p^2 + 5970p + 397006 where
      p = s(199 - s). */
  lemma RiseIs(s: int, a: int, c: int, d: int, e: int, p: int, pp: int, ca: int, cs: int, cc: int)
    requires ca == e + 3 * d + 3 * c + a && cs == d + 3 * c + 3 * a + s && cc == c + 3 * a + 3 * s + 1
    requires p == 199 * s - a && pp == 39601 * a - 398 * c + d
    ensures 6 * (ca + 2 * cs + cc) - 3000 * (cs + cc) + 400000 * cc
         == 6 * e - 3000 * d + 400000 * c + 30 * pp + 5970 * p + 397006
  {
  }

  lemma Rise(s: nat, a: nat, c: nat)
    requires s < NSTEPS && a == s * s && c == a * s
    ensures var cc := c + 3 * a + 3 * s + 1;
            var aa := a + 2 * s + 1;
            6 * (c * a) - 3000 * (c * s) + 400000 * c <= 6 * (cc * aa) - 3000 * (cc * (s + 1)) + 400000 * cc
  {
    var d, p, cc := a * a, 199 * s - a, c + 3 * a + 3 * s + 1;
    Square(s, a, c, d);
    Distribute(c, a, s, a);
    Distribute(c, a, s, s);
    Distribute2(cc, a, s);
    Grows(s, a);
    RiseIs(s, a, c, d, c * a, p, p * p, cc * a, cc * s, cc);
  }

  lemma Grows(s: nat, a: nat)
    requires s < NSTEPS && a == s * s
    ensures 0 <= 199 * s - a && 0 <= (199 * s - a) * (199 * s - a)
  {
    MulMonotone(s, 199, s);
  }

  lemma CurveRises(s: nat)
    requires s < NSTEPS
    ensures Curve(s) <= Curve(s + 1)
  {
    var a := s * s;
    var c, t := a * s, s + 1;
    assert t * t == a + 2 * s + 1;
    assert t * t * t == c + 3 * a + 3 * s + 1 by { Cube(s); }
    CurveAt(s, a, c);
    CurveAt(t, t * t, t * t * t);
    Rise(s, a, c);
  }

  lemma {:induction false} CurveMonotone(s: nat, t: nat)
    requires s <= t <= NSTEPS
    ensures 0 <= Curve(s) <= Curve(t) <= 320000000000
  {
    hide Curve;
    assert Curve(0) == 0 && Curve(NSTEPS) == 320000000000 by { Ends(); }
    CurveBetween(0, s);
    CurveBetween(s, t);
    CurveBetween(t, NSTEPS);
  }

  lemma Ends()
    ensures Curve(0) == 0 && Curve(NSTEPS) == 320000000000
  {
  }

  lemma {:induction false} CurveBetween(s: nat, t: nat)
    requires s <= t <= NSTEPS
    ensures Curve(s) <= Curve(t)
  {
    hide Curve;
    if s < t {
      CurveBetween(s, t - 1);
      CurveRises(t - 1);
    }
  }

  /** The table's entry for step i + 1: the curve rounded down to fixed point. */
  function HStep(i: nat): (h: nat)
    requires i < NSTEPS
    ensures h <= ONE
  {
    CurveMonotone(i + 1, i + 1);
    ONE * Curve(i + 1) / 320000000000
  }

  lemma HStepRises(i: nat, j: nat)
    requires i <= j < NSTEPS
    ensures HStep(i) <= HStep(j)
  {
    CurveMonotone(i + 1, j + 1);
  }
}
