/** Physical constants of the projectile and the air, and the drag and lift
    coefficients of a spinning sphere. `Math.pow` stays abstract: it is passed
    in as a function value. */
module Aero {

  const Mass: real := 0.215
  const Gravity: real := 9.8
  const RhoAir: real := 1.21
  const MuAir: real := 0.0000181
  const Radius: real := 0.075
  /** `Math.PI` as the decimal value of the double. */
  const Pi: real := 3.141592653589793
  const Area: real := Pi * Radius * Radius

  /** Below this speed there is no relative airflow to model. */
  const StillSpeed: real := 0.000001
  /** Reynolds number at which the flat post-critical drag regime starts. */
  const CriticalReynolds: real := 200000.0
  const DragFloor: real := 0.35
  const StillDrag: real := 0.46
  const LiftCap: real := 0.6

  function Reynolds(v: real): real {
    (RhoAir * v * (2.0 * Radius)) / MuAir
  }

  /** Drag coefficient at speed `v`. */
  function CalculateCd(v: real, pow: (real, real) -> real): (cd: real)
    ensures cd >= DragFloor
    ensures v < StillSpeed ==> cd == StillDrag
    ensures v >= StillSpeed && Reynolds(v) >= CriticalReynolds ==> cd == DragFloor
  {
    if v < StillSpeed then StillDrag
    else
      var re := Reynolds(v);
      if re < CriticalReynolds then
        var cd := (24.0 / re) * (1.0 + 0.15 * pow(re, 0.687));
        Max(cd, DragFloor)
      else DragFloor
  }

  /** The drag coefficient is not continuous at the still-air threshold: just
      below 1e-6 m/s it is 0.46, and at 1e-6 m/s the low-Reynolds formula
      already gives about 2393 (24 over a Reynolds number near 0.01), whatever
      non-negative value `Math.pow` returns. */
  lemma DragJumpAtStillSpeed(pow: (real, real) -> real)
    requires pow(Reynolds(StillSpeed), 0.687) >= 0.0
    ensures CalculateCd(StillSpeed / 2.0, pow) == StillDrag
    ensures CalculateCd(StillSpeed, pow) >= 2393.0
  {
    var re := Reynolds(StillSpeed);
    assert re < CriticalReynolds;
    assert 24.0 / re >= 2393.0;
    var p := pow(re, 0.687);
    assert 1.0 + 0.15 * p >= 1.0;
    assert (24.0 / re) * (1.0 + 0.15 * p) >= 24.0 / re;
  }

  function Max(a: real, b: real): real {
    if a >= b then a else b
  }

  function Min(a: real, b: real): real {
    if a <= b then a else b
  }

  /** Lift coefficient at speed `v` and spin rate `omega`. */
  function CalculateCl(v: real, omega: real): (cl: real)
    ensures cl <= LiftCap
    ensures SpinRatio(v, omega) <= 1.5 ==> cl == 0.4 * SpinRatio(v, omega)
    ensures SpinRatio(v, omega) >= 1.5 ==> cl == LiftCap
  {
    Min(0.4 * SpinRatio(v, omega), LiftCap)
  }

  /** Surface speed of the spin over the airspeed, the airspeed floored at 1e-6. */
  function SpinRatio(v: real, omega: real): real {
    (omega * Radius) / Max(v, StillSpeed)
  }

  lemma QuotientMonotone(a: real, b: real, c: real)
    requires a <= b && c > 0.0
    ensures a / c <= b / c
  {
    assert b / c - a / c == (b - a) / c;
  }

  /** At a fixed airspeed more spin never lowers the lift coefficient. */
  lemma LiftMonotoneInSpin(v: real, omega1: real, omega2: real)
    requires omega1 <= omega2
    ensures CalculateCl(v, omega1) <= CalculateCl(v, omega2)
  {
    QuotientMonotone(omega1 * Radius, omega2 * Radius, Max(v, StillSpeed));
  }
}
