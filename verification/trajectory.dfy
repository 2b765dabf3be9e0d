/** Forward simulation of one shot: the spin imparted by the two flywheels,
    the launch state, and the fixed-step integration loop that records the
    trajectory until the ball drops below the ground or the step budget runs
    out. */
module Trajectory {
  import opened Aero
  import opened Integrator

  /** Integration step, in seconds. */
  const DT: real := 0.005
  /** Step budget of one simulation. */
  const MaxSteps: nat := 5000
  /** Default launch height, in metres. */
  const ShooterHeight: real := 0.55

  const FlywheelRadius1: real := (4.0 * 0.0254) / 2.0
  const FlywheelRadius2: real := (2.0 * 0.0254) / 2.0
  const SpinTransferEfficiency: real := 0.8

  datatype TrajectoryPoint = TrajectoryPoint(x: real, z: real, t: real)

  datatype SimulationResult = SimulationResult(
    trajectory: seq<TrajectoryPoint>,
    impactAngle: real,
    maxHeight: real,
    valid: bool)

  /** Spin rate of the ball for exit speed `vShooter`: two flywheels on a
      common shaft, whose surface-speed difference is transferred to the
      ball's equator with 80% efficiency. */
  function SpinRate(vShooter: real): (omega: real)
    ensures omega == vShooter * 64.0 / 9.0
  {
    var avgFlywheelRadius := (FlywheelRadius1 + FlywheelRadius2) / 2.0;
    var flywheelOmega := vShooter / avgFlywheelRadius;
    var vFlywheel1 := flywheelOmega * FlywheelRadius1;
    var vFlywheel2 := flywheelOmega * FlywheelRadius2;
    ((vFlywheel1 - vFlywheel2) / Radius) * SpinTransferEfficiency
  }

  /** The state at launch: the robot's velocity adds to the horizontal component. */
  function LaunchState(vShooter: real, thetaDeg: real, robotVel: real, shooterHeight: real, m: MathFns): (s: State)
    ensures s.x == 0.0 && s.z == shooterHeight
  {
    var thetaRad := (thetaDeg * Pi) / 180.0;
    State(0.0, shooterHeight, vShooter * m.cos(thetaRad) + robotVel, vShooter * m.sin(thetaRad))
  }

  /** One integration step of length `DT` at spin rate `omega`. */
  function Stepper(omega: real, m: MathFns): State -> State {
    s => RK4Step(s, omega, DT, m)
  }

  /** The state after `k` applications of `step` to `s0`. */
  function Orbit(step: State -> State, s0: State, k: nat): State {
    if k == 0 then s0 else step(Orbit(step, s0, k - 1))
  }

  /** The state `k` steps into the flight of a shot. */
  function Flight(vShooter: real, thetaDeg: real, robotVel: real, shooterHeight: real, m: MathFns, k: nat): State {
    Orbit(Stepper(SpinRate(vShooter), m), LaunchState(vShooter, thetaDeg, robotVel, shooterHeight, m), k)
  }

  /** The recorded sample of a state reached after `k` steps. */
  function PointAt(s: State, k: nat): TrajectoryPoint {
    TrajectoryPoint(s.x, s.z, k as real * DT)
  }

  /** Angle of the velocity below the horizontal, in degrees. */
  function ImpactAngle(s: State, m: MathFns): real {
    m.atan2(-s.vz, s.vx) * (180.0 / Pi)
  }

  /** Some point after the launch point is at height `z`. */
  ghost predicate Reached(trajectory: seq<TrajectoryPoint>, z: real) {
    exists k :: 1 <= k < |trajectory| && trajectory[k].z == z
  }

  /** The integration loop: records the launch point, then steps and records
      until the first point below ground or until the step budget is spent,
      keeping the running maximum height. */
  method Integrate(s0: State, step: State -> State)
    returns (trajectory: seq<TrajectoryPoint>, last: State, maxHeight: real)
    ensures 2 <= |trajectory| <= MaxSteps + 1
    ensures trajectory[0] == TrajectoryPoint(s0.x, s0.z, 0.0)
    ensures forall k {:trigger Orbit(step, s0, k)} :: 1 <= k < |trajectory| ==> trajectory[k] == PointAt(Orbit(step, s0, k), k)
    ensures last == Orbit(step, s0, |trajectory| - 1)
    ensures forall k :: 1 <= k < |trajectory| - 1 ==> trajectory[k].z >= 0.0
    ensures |trajectory| < MaxSteps + 1 ==> last.z < 0.0
    ensures s0.z <= maxHeight
    ensures forall k :: 0 <= k < |trajectory| ==> trajectory[k].z <= maxHeight
    ensures maxHeight == s0.z || Reached(trajectory, maxHeight)
  {
    var state := s0;
    var t := 0.0;
    maxHeight := s0.z;
    trajectory := [TrajectoryPoint(s0.x, s0.z, 0.0)];
    ghost var highest := 0;
    var i := 0;
    while i < MaxSteps
      invariant 0 <= i <= MaxSteps
      invariant |trajectory| == i + 1
      invariant trajectory[0] == TrajectoryPoint(s0.x, s0.z, 0.0)
      invariant state == Orbit(step, s0, i)
      invariant t == i as real * DT
      invariant forall k {:trigger Orbit(step, s0, k)} :: 1 <= k < |trajectory| ==> trajectory[k] == PointAt(Orbit(step, s0, k), k)
      invariant forall k :: 1 <= k < |trajectory| ==> trajectory[k].z >= 0.0
      invariant s0.z <= maxHeight
      invariant forall k :: 0 <= k < |trajectory| ==> trajectory[k].z <= maxHeight
      invariant 0 <= highest < |trajectory| && trajectory[highest].z == maxHeight
      invariant highest == 0 || maxHeight != s0.z || trajectory[highest].z == s0.z
    {
      state := step(state);
      t := t + DT;
      if state.z > maxHeight {
        maxHeight := state.z;
        highest := i + 1;
      }
      trajectory := trajectory + [TrajectoryPoint(state.x, state.z, t)];
      if state.z < 0.0 {
        break;
      }
      i := i + 1;
    }
    last := state;
    assert maxHeight == s0.z || (1 <= highest < |trajectory| && trajectory[highest].z == maxHeight);
  }

  /** The postcondition of `SimulateTrajectory`, gathered for a launch at
      height `h`: between 2 and 5001 points, starting at the launch point,
      point k being the k-th Runge-Kutta state; no point between the first and
      the last below ground and the last one below ground unless the step
      budget ran out; `maxHeight` the exact maximum; the impact angle taken at
      the last recorded state; `valid` always set; and a launch too slow to
      move spending the whole step budget when it starts at or above ground. */
  ghost predicate Simulates(r: SimulationResult, vShooter: real, thetaDeg: real, robotVel: real, h: real, m: MathFns) {
    && 2 <= |r.trajectory| <= MaxSteps + 1
    && r.valid
    && r.trajectory[0] == TrajectoryPoint(0.0, h, 0.0)
    && (forall k {:trigger Flight(vShooter, thetaDeg, robotVel, h, m, k)} :: 1 <= k < |r.trajectory| ==>
          r.trajectory[k] == PointAt(Flight(vShooter, thetaDeg, robotVel, h, m, k), k))
    && (forall k :: 1 <= k < |r.trajectory| - 1 ==> r.trajectory[k].z >= 0.0)
    && (|r.trajectory| < MaxSteps + 1 ==> r.trajectory[|r.trajectory| - 1].z < 0.0)
    && h <= r.maxHeight
    && (forall k :: 0 <= k < |r.trajectory| ==> r.trajectory[k].z <= r.maxHeight)
    && (r.maxHeight == h || Reached(r.trajectory, r.maxHeight))
    && r.impactAngle == ImpactAngle(Flight(vShooter, thetaDeg, robotVel, h, m, |r.trajectory| - 1), m)
    && (Stalled(LaunchState(vShooter, thetaDeg, robotVel, h, m), m) && h >= 0.0 ==> |r.trajectory| == MaxSteps + 1)
  }

  /** Simulates a shot of exit speed `vShooter` at `thetaDeg` degrees from a
      robot moving at `robotVel`, launched at height `shooterHeight`. A launch
      too slow to move never leaves its height, so from a non-negative height
      it spends the whole step budget. */
  method SimulateTrajectory(vShooter: real, thetaDeg: real, robotVel: real, shooterHeight: real, m: MathFns)
    returns (r: SimulationResult)
    ensures 2 <= |r.trajectory| <= MaxSteps + 1
    ensures r.valid
    ensures r.trajectory[0] == TrajectoryPoint(0.0, shooterHeight, 0.0)
    ensures forall k {:trigger Flight(vShooter, thetaDeg, robotVel, shooterHeight, m, k)} :: 1 <= k < |r.trajectory| ==>
              r.trajectory[k] == PointAt(Flight(vShooter, thetaDeg, robotVel, shooterHeight, m, k), k)
    ensures forall k :: 1 <= k < |r.trajectory| - 1 ==> r.trajectory[k].z >= 0.0
    ensures |r.trajectory| < MaxSteps + 1 ==> r.trajectory[|r.trajectory| - 1].z < 0.0
    ensures shooterHeight <= r.maxHeight
    ensures forall k :: 0 <= k < |r.trajectory| ==> r.trajectory[k].z <= r.maxHeight
    ensures r.maxHeight == shooterHeight || Reached(r.trajectory, r.maxHeight)
    ensures r.impactAngle == ImpactAngle(Flight(vShooter, thetaDeg, robotVel, shooterHeight, m, |r.trajectory| - 1), m)
    ensures Stalled(LaunchState(vShooter, thetaDeg, robotVel, shooterHeight, m), m) && shooterHeight >= 0.0 ==>
              |r.trajectory| == MaxSteps + 1
  {
    var omega := SpinRate(vShooter);
    var s0 := LaunchState(vShooter, thetaDeg, robotVel, shooterHeight, m);
    var trajectory, last, maxHeight := Integrate(s0, Stepper(omega, m));
    assert last == Flight(vShooter, thetaDeg, robotVel, shooterHeight, m, |trajectory| - 1);
    if Stalled(s0, m) && shooterHeight >= 0.0 {
      StalledLaunchHovers(vShooter, thetaDeg, robotVel, shooterHeight, m, |trajectory| - 1);
    }
    var impactAngle := ImpactAngle(last, m);
    r := SimulationResult(trajectory, impactAngle, maxHeight, |trajectory| > 1);
  }

  /** `SimulateTrajectory` with the launch height left at its default,
      `ShooterHeight`. */
  method SimulateFromShooter(vShooter: real, thetaDeg: real, robotVel: real, m: MathFns)
    returns (r: SimulationResult)
    ensures Simulates(r, vShooter, thetaDeg, robotVel, ShooterHeight, m)
  {
    r := SimulateTrajectory(vShooter, thetaDeg, robotVel, ShooterHeight, m);
  }

  /** A stalled state never moves: every later state of its orbit is itself. */
  lemma {:induction false} StalledOrbit(s0: State, omega: real, k: nat, m: MathFns)
    requires Stalled(s0, m)
    ensures Orbit(Stepper(omega, m), s0, k) == s0
  {
    if k > 0 {
      StalledOrbit(s0, omega, k - 1, m);
    }
  }

  /** A launch whose speed is below the stall threshold stays at the launch
      height at every step. (`SimulateTrajectory` draws the consequence: from
      a non-negative height such a trajectory runs to the full 5001 points.) */
  lemma StalledLaunchHovers(vShooter: real, thetaDeg: real, robotVel: real, shooterHeight: real, m: MathFns, k: nat)
    requires Stalled(LaunchState(vShooter, thetaDeg, robotVel, shooterHeight, m), m)
    ensures Flight(vShooter, thetaDeg, robotVel, shooterHeight, m, k).z == shooterHeight
  {
    StalledOrbit(LaunchState(vShooter, thetaDeg, robotVel, shooterHeight, m), SpinRate(vShooter), k, m);
  }
}
