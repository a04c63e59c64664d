/** The numeric primitives shared by every part of the kernel: the tolerance
    used for approximate equality, the approximate comparison itself, and the
    slab helper used by the cube intersection. */
module Primitives {

  /** The tolerance of every approximate comparison (0.00001). */
  const EPSILON: real := 1.0 / 100000.0

  function Abs(x: real): real {
    if x < 0.0 then -x else x
  }

  /** A double restricted to the values the kernel produces: finite values
      and the two infinities of the slab test. */
  datatype ExtReal = NegInf | Fin(v: real) | PosInf

  /** The ordering of the extended reals (IEEE `<=` without NaN). */
  predicate Le(a: ExtReal, b: ExtReal) {
    match (a, b)
    case (NegInf, _) => true
    case (_, PosInf) => true
    case (Fin(x), Fin(y)) => x <= y
    case _ => false
  }

  predicate Lt(a: ExtReal, b: ExtReal) {
    Le(a, b) && a != b
  }

  function Max(a: ExtReal, b: ExtReal): (r: ExtReal)
    ensures Le(a, r) && Le(b, r)
    ensures r == a || r == b
  {
    if Le(a, b) then b else a
  }

  function Min(a: ExtReal, b: ExtReal): (r: ExtReal)
    ensures Le(r, a) && Le(r, b)
    ensures r == a || r == b
  {
    if Le(a, b) then a else b
  }

  /** `equal`: exact equality as soon as one side is infinite, otherwise a
      difference strictly below EPSILON. */
  predicate Equal(a: ExtReal, b: ExtReal) {
    if a.Fin? && b.Fin? then Abs(a.v - b.v) < EPSILON else a == b
  }

  /** `equal` on two finite doubles, the only way the rest of the kernel uses it. */
  predicate ApproxEq(a: real, b: real) {
    Equal(Fin(a), Fin(b))
  }

  lemma EqualOnInfinity(a: ExtReal, b: ExtReal)
    requires !a.Fin? || !b.Fin?
    ensures Equal(a, b) <==> a == b
  {
  }

  lemma ApproxEqIsTolerance(a: real, b: real)
    ensures ApproxEq(a, b) <==> -EPSILON < a - b < EPSILON
  {
  }

  lemma EqualReflexive(a: ExtReal)
    ensures Equal(a, a)
  {
  }

  lemma EqualSymmetric(a: ExtReal, b: ExtReal)
    ensures Equal(a, b) <==> Equal(b, a)
  {
  }

  /** The sign of `numerator * INFINITY`; a zero numerator, for which IEEE
      arithmetic yields NaN, is given the bound that leaves the slab open. */
  function TimesInfinity(numerator: real, onZero: ExtReal): (r: ExtReal)
    requires !onZero.Fin?
    ensures numerator > 0.0 ==> r == PosInf
    ensures numerator < 0.0 ==> r == NegInf
  {
    if numerator > 0.0 then PosInf
    else if numerator < 0.0 then NegInf
    else onZero
  }

  /** `check_axis`: the range of ray parameters t for which
      `origin + t * direction` lies between `min` and `max` on one axis,
      returned as an ordered pair. */
  function CheckAxis(origin: real, direction: real, min: real := -1.0, max: real := 1.0): (r: (ExtReal, ExtReal))
    ensures Le(r.0, r.1)
    ensures Abs(direction) >= EPSILON ==>
              var lo, hi := (min - origin) / direction, (max - origin) / direction;
              (r == (Fin(lo), Fin(hi)) || r == (Fin(hi), Fin(lo)))
    ensures Abs(direction) < EPSILON ==> !r.0.Fin? && !r.1.Fin?
  {
    var tminNumerator := min - origin;
    var tmaxNumerator := max - origin;
    var (tmin, tmax) :=
      if Abs(direction) >= EPSILON then
        (Fin(tminNumerator / direction), Fin(tmaxNumerator / direction))
      else
        (TimesInfinity(tminNumerator, NegInf), TimesInfinity(tmaxNumerator, PosInf));
    if Lt(tmax, tmin) then (tmax, tmin) else (tmin, tmax)
  }

  /** t lies in the closed interval of a slab pair. */
  predicate Within(t: real, bounds: (ExtReal, ExtReal)) {
    Le(bounds.0, Fin(t)) && Le(Fin(t), bounds.1)
  }

  lemma QuotientBelow(a: real, d: real, t: real)
    requires d != 0.0
    ensures d > 0.0 ==> (a / d <= t <==> a <= t * d)
    ensures d < 0.0 ==> (a / d <= t <==> t * d <= a)
  {
    var q := a / d;
    assert q * d == a;
    assert t * d - a == (t - q) * d;
  }

  lemma QuotientAbove(a: real, d: real, t: real)
    requires d != 0.0
    ensures d > 0.0 ==> (t <= a / d <==> t * d <= a)
    ensures d < 0.0 ==> (t <= a / d <==> a <= t * d)
  {
    var q := a / d;
    assert q * d == a;
    assert a - t * d == (q - t) * d;
  }

  /** The pair returned by CheckAxis is exactly the set of parameters at which
      the ray is inside the slab [min, max]; a direction below EPSILON is
      treated as parallel, so the answer then depends on the origin alone. */
  lemma {:induction false} CheckAxisIsSlab(origin: real, direction: real, min: real, max: real, t: real)
    requires min <= max
    ensures Within(t, CheckAxis(origin, direction, min, max)) <==>
              if Abs(direction) >= EPSILON then min <= origin + t * direction <= max
              else min <= origin <= max
  {
    var r := CheckAxis(origin, direction, min, max);
    if Abs(direction) >= EPSILON {
      var lo, hi := (min - origin) / direction, (max - origin) / direction;
      QuotientBelow(min - origin, direction, t);
      QuotientAbove(min - origin, direction, t);
      QuotientBelow(max - origin, direction, t);
      QuotientAbove(max - origin, direction, t);
      if direction > 0.0 {
        assert lo <= hi by { QuotientBelow(min - origin, direction, hi); }
        assert r == (Fin(lo), Fin(hi));
      } else {
        assert hi <= lo by { QuotientBelow(max - origin, direction, lo); }
        assert r == (Fin(hi), Fin(lo));
      }
    } else {
      if min <= origin <= max {
        assert r == (NegInf, PosInf);
      } else if origin < min {
        assert r == (PosInf, PosInf);
      } else {
        assert r == (NegInf, NegInf);
      }
    }
  }
}
