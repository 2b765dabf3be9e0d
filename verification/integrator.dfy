/** The projectile's equations of motion and one classic fourth-order
    Runge-Kutta step. The transcendental functions of `Math` that the equations
    use stay abstract: they arrive as function values in a `MathFns`. */
module Integrator {
  import opened Aero

  /** `[x, z, vx, vz]`: position and velocity in the vertical plane of flight. */
  datatype State = State(x: real, z: real, vx: real, vz: real)

  /** The `Math` functions the simulation calls, left uninterpreted. */
  datatype MathFns = MathFns(
    hypot: (real, real) -> real,
    pow: (real, real) -> real,
    cos: real -> real,
    sin: real -> real,
    atan2: (real, real) -> real)

  const Rest := State(0.0, 0.0, 0.0, 0.0)

  /** Speed below which the state counts as stalled and nothing moves. */
  const StallSpeed: real := 0.001

  predicate Stalled(s: State, m: MathFns) {
    m.hypot(s.vx, s.vz) < StallSpeed
  }

  /** Time derivative of a state under gravity, drag and Magnus lift, for
      spin rate `omega`. */
  function Derivs(s: State, omega: real, m: MathFns): (d: State)
    ensures Stalled(s, m) ==> d == Rest
    ensures !Stalled(s, m) ==> d.x == s.vx && d.z == s.vz
  {
    var v := m.hypot(s.vx, s.vz);
    if v < StallSpeed then Rest
    else
      var cd := CalculateCd(v, m.pow);
      var cl := CalculateCl(v, omega);
      var factorDrag := (0.5 * RhoAir * cd * Area) / Mass;
      var factorMagnus := (0.5 * RhoAir * Area * cl * Radius) / Mass;
      var axDrag := -factorDrag * v * s.vx;
      var azDrag := -factorDrag * v * s.vz;
      var axMagnus := -factorMagnus * v * s.vz;
      var azMagnus := factorMagnus * v * s.vx;
      State(s.vx, s.vz, axDrag + axMagnus, -Gravity + azDrag + azMagnus)
  }

  /** `s + h * k`, component by component. */
  function Advance(s: State, h: real, k: State): State {
    State(s.x + h * k.x, s.z + h * k.z, s.vx + h * k.vx, s.vz + h * k.vz)
  }

  /** One Runge-Kutta step of length `dt`. A stalled state is a fixed point. */
  function RK4Step(s: State, omega: real, dt: real, m: MathFns): (r: State)
    ensures Stalled(s, m) ==> r == s
  {
    var k1 := Derivs(s, omega, m);
    var k2 := Derivs(Advance(s, 0.5 * dt, k1), omega, m);
    var k3 := Derivs(Advance(s, 0.5 * dt, k2), omega, m);
    var k4 := Derivs(Advance(s, dt, k3), omega, m);
    State(
      s.x + (dt / 6.0) * (k1.x + 2.0 * k2.x + 2.0 * k3.x + k4.x),
      s.z + (dt / 6.0) * (k1.z + 2.0 * k2.z + 2.0 * k3.z + k4.z),
      s.vx + (dt / 6.0) * (k1.vx + 2.0 * k2.vx + 2.0 * k3.vx + k4.vx),
      s.vz + (dt / 6.0) * (k1.vz + 2.0 * k2.vz + 2.0 * k3.vz + k4.vz))
  }
}
