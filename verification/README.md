# Shooter model: shot table and trajectory loop

A Dafny model of `lib/physics.ts` from the shooter-model project. The file has two jobs.

- It recommends launch parameters for a target distance. Each recommendation is an exit speed and a launch angle. They come from a sample table keyed by distance and then by robot velocity, read back by two nested linear interpolations.
- It simulates the flight of a spinning ball under gravity, drag and Magnus lift with a fixed-step Runge-Kutta integrator.

Modules, one per component of the file:

- `Aero` (`aero.dfy`): the physical constants and the drag and lift coefficients (`calculateCd`, `calculateCl`).
- `Integrator` (`integrator.dfy`): the equations of motion (`derivs`) and one Runge-Kutta step (`rk4Step`).
- `Trajectory` (`trajectory.dfy`): the flywheel spin model, the launch state and the integration loop of `simulateTrajectory`.
- `Keys` (`keys.dfy`): sorting a map's keys, and the bracket search with end clamping. `interpolateVelocityPlane` and `lookupModel` both contain a copy of that search; here it is written once.
- `ShotTable` (`shot_table.dfy`): `buildTable`, `interpolateModel`, `interpolateVelocityPlane`, `lookupModel` and `findOptimalShot`.

Modelling choices:

- Numbers are `real`. Rounding of doubles is not modelled.
- `Math.pow`, `Math.hypot`, `Math.cos`, `Math.sin` and `Math.atan2` are function values passed in a `MathFns` record. Nothing is assumed about them. `Math.PI` is the decimal value of the double.
- The module-level `modelTable` becomes a parameter of type `Option<Table>`. `None` stands for `null`.
- The loops of `interpolateVelocityPlane`, `lookupModel`, `buildTable` and `simulateTrajectory` are methods. Each is proved equal to a specification function (`PlaneAt`, `Lookup`, `Orbit`), or against an explicit description of its result. `findOptimalShot` has no loop, but it calls `lookupModel`, so it is a method too; it is proved equal to the specification function `OptimalShot`. The lemmas state the properties of those specification functions.
- The specification functions describe the bracket at the level of key sets. Below the smallest key, both ends are the smallest key. Above the largest key, both ends are the largest key. Otherwise the ends are the largest key below the query and the smallest key at or above it. `Keys.Bracket` proves that the code's scan over the sorted keys finds exactly this pair: the first adjacent pair with `k[i] <= q <= k[i+1]`, then clamped.
- The loop of `simulateTrajectory` is split in two. `Trajectory.Integrate` runs the loop over an arbitrary step function. `Trajectory.SimulateTrajectory` computes the spin and the launch state, then runs the loop with the Runge-Kutta step.

The code sets `valid` to `trajectory.length > 1`, which looks meant to flag a launch that never moved. But the loop always records the launch point and at least one more point, so `valid` is always true. The model keeps the code's behaviour:

- `SimulateTrajectory` ensures `r.valid` for every input.
- A launch with zero exit speed from a robot at rest is therefore not reported invalid. Its state is stalled: `derivs` returns zero below speed 1e-3, so the state is a fixed point of the step (`StalledOrbit`, `StalledLaunchHovers`). From a non-negative height it never drops below ground, and `SimulateTrajectory` ensures its trajectory runs to all 5001 points.

## Model

| member | source | states |
|---|---|---|
| `Aero.CalculateCd` | lib/physics.ts:19-29 | The drag coefficient is never below 0.35. It is exactly 0.46 below 1e-6 m/s and exactly 0.35 once the Reynolds number reaches 2e5. These hold whatever `Math.pow` returns. |
| `Aero.DragJumpAtStillSpeed` | lib/physics.ts:19-29 | The drag coefficient jumps at the still-air threshold. It is 0.46 at 0.5e-6 m/s, but at least 2393 at 1e-6 m/s (24/Re with Re ≈ 0.01) for any non-negative `Math.pow`. |
| `Aero.CalculateCl` | lib/physics.ts:31-35 | The lift coefficient is at most 0.6. It is 0.4 times the spin ratio up to ratio 1.5 and saturates at 0.6 from there on. The airspeed in the ratio is floored at 1e-6. |
| `Aero.LiftMonotoneInSpin` | lib/physics.ts:31-35 | At a fixed airspeed, a higher spin rate never gives a lower lift coefficient. |
| `Integrator.Derivs` | lib/physics.ts:39-61 | Below speed 1e-3 (by `hypot`) the derivative is all zeros. Otherwise the position derivatives are the velocity components. |
| `Integrator.RK4Step` | lib/physics.ts:63-99 | A stalled state is a fixed point of the Runge-Kutta step. |
| `Trajectory.SpinRate` | lib/physics.ts:124-133 | The two-flywheel model reduces to a linear law: spin rate = 64/9 × exit speed. |
| `Trajectory.LaunchState` | lib/physics.ts:121-138 | The launch state is at x = 0 and at the launch height. |
| `Trajectory.Integrate` | lib/physics.ts:138-157 | The loop returns between 2 and 5001 points. Point 0 is the launch point. Point k is the state after k steps, stamped k·DT. No point between the first and the last is below ground. If fewer than 5001 points were recorded, the last one is below ground. The maximum height is at least the launch height, bounds every point and is reached by some point. |
| `Trajectory.SimulateTrajectory` | lib/physics.ts:115-168 | The same facts for a shot: point k is the k-th Runge-Kutta state from the launch state, with the spin from `SpinRate`. `valid` is always true. The impact angle is `atan2(-vz, vx)` in degrees at the last recorded state. A launch below the stall speed from a non-negative height records all 5001 points. |
| `Trajectory.SimulateFromShooter` | lib/physics.ts:114-119 | With the launch height left at its default of 0.55 m, the result satisfies everything `SimulateTrajectory` promises for that height, gathered in the predicate `Simulates`. |
| `Trajectory.StalledOrbit` | lib/physics.ts:43-98 | From a stalled state, every later state of the integration is that same state. |
| `Trajectory.StalledLaunchHovers` | lib/physics.ts:135-157 | A launch whose speed is below the stall threshold stays at the launch height at every step. |
| `Keys.Neighbours` | lib/physics.ts:235-250 | The interpolation ends are keys of the bucket. At or below the smallest key both ends are that key; at or above the largest key both ends are that key. Strictly inside the range, the lower end is below the query, the upper end is at or above it, and no key lies strictly between them. |
| `Keys.InsertSorted` | lib/physics.ts:233 | Inserting a new key into a strictly increasing sequence keeps it strictly increasing, adds exactly that key and grows the length by one. |
| `Keys.SortKeys` | lib/physics.ts:233 | Sorting a map's keys yields a strictly increasing sequence that holds exactly those keys, one entry per key. |
| `Keys.Bracket` | lib/physics.ts:235-250 | Scanning the sorted keys for the first bracketing pair and then clamping at either end gives exactly `Neighbours`. |
| `Keys.NoBracketMeansOutside` | lib/physics.ts:238-244 | If no adjacent pair of sorted keys brackets the query, the query is at or below the first key or above the last. |
| `Keys.InteriorBracket` | lib/physics.ts:238-244 | For a query strictly inside the range, the first bracketing pair is the pair of neighbours of the query. |
| `ShotTable.BuildTable` | lib/physics.ts:208-223 | The distance keys are exactly the records' distances, and no bucket is empty. An entry (d, v) exists exactly when some record has that pair. The entry holds the fields of the last record with that pair (last write wins). |
| `ShotTable.BuildStep` | lib/physics.ts:211-220 | Storing one more record keeps the table consistent with the records stored so far. |
| `ShotTable.BuiltComplete` | lib/physics.ts:208-223 | Once all records are stored, the table's keys and entries are exactly those of the records. |
| `ShotTable.Interpolate` | lib/physics.ts:263-269 | The interpolated model equals `a` at fraction 0 and `b` at fraction 1, field by field. |
| `ShotTable.InterpolateBetween` | lib/physics.ts:263-269 | For a fraction in [0, 1], each field of the result lies between the two samples' fields. |
| `ShotTable.PlaneAt` | lib/physics.ts:225-261 | An empty bucket gives the all-zero model. A velocity at or below the smallest key gives that key's model unchanged. A velocity at or above the largest key gives the largest key's model. |
| `ShotTable.InterpolateVelocityPlane` | lib/physics.ts:225-261 | The sort, scan, clamp and interpolation compute exactly `PlaneAt`. |
| `ShotTable.PlaneAtKnot` | lib/physics.ts:246-269 | At a velocity that is a key of the bucket, the result is that key's model. At a key strictly inside the range, the upper bracket end is that key itself, so the interpolation fraction is 1. |
| `ShotTable.PlaneInterior` | lib/physics.ts:238-268 | Strictly inside the range, the bracket has v0 < q <= v1 with no key between them. The fraction lies in (0, 1], and every field of the result lies between the two samples' fields. |
| `ShotTable.Abs` | lib/physics.ts:276 | The absolute value is non-negative and equals the input or its negation. |
| `ShotTable.Lookup` | lib/physics.ts:271-306 | With no table, or an empty one, the result is the fallback {12, 45, 1.0}. |
| `ShotTable.LookupModel` | lib/physics.ts:271-306 | The method's sort, scan, clamp and two-level interpolation compute exactly `Lookup`. |
| `ShotTable.LookupEven` | lib/physics.ts:276 | The lookup depends on the distance only through its absolute value: the results for d and -d are equal. |
| `ShotTable.LookupClamped` | lib/physics.ts:290-299 | At or below the smallest distance key, the result is the velocity interpolation of that one bucket. At or above the largest key, it is the largest bucket's. No second bucket is consulted. |
| `ShotTable.LookupAtKnot` | lib/physics.ts:290-305 | At a distance that is a key, the result is that bucket's velocity interpolation. |
| `ShotTable.LookupInterior` | lib/physics.ts:282-305 | Strictly inside the distance range, each field of the result lies between the two bracketing buckets' results. |
| `ShotTable.OptimalShot` | lib/physics.ts:308-325 | There is no shot exactly when the looked-up exit speed is 0. Otherwise the speed is the looked-up exit speed. The angle is the table angle for d >= 0 and 180 minus the table angle for d < 0. |
| `ShotTable.FindOptimalShot` | lib/physics.ts:308-325 | The method computes exactly `OptimalShot`. |
| `ShotTable.MirroredShots` | lib/physics.ts:312-319 | For d > 0, the shots for d and -d are either both present or both absent. When present they have equal speeds and angles summing to 180. |
| `ShotTable.MidpointExample` | lib/physics.ts:271-325 | Samples (2 m: 10 m/s, 50°) and (4 m: 12 m/s, 45°) give the shot (11 m/s, 47.5°) at 3 m and (11 m/s, 132.5°) at -3 m. |

## Left out

- `loadModelTable` (lib/physics.ts:186-206) is I/O: fetch, JSON parsing, logging and rethrow. The model starts from an already parsed sequence of records handed to `BuildTable`, and the assignment to the global table becomes the `Option<Table>` parameter.
- The numerical content of the physics is not modelled: no accuracy, energy or trajectory-shape claims. `Math.pow`, `Math.hypot`, `Math.cos`, `Math.sin` and `Math.atan2` are uninterpreted function values.
- Floating point is not modelled. Over reals, `t += DT` stamps point k with exactly k·DT, and the knot identities hold exactly. Doubles round in both places. JavaScript `Map` key quirks (`NaN`, `-0`) are not modelled.
- `Aero.CalculateCd`: no continuity in the speed is stated, because the code has none. The coefficient jumps from 0.46 just below 1e-6 m/s to about 2400 at 1e-6 m/s (`DragJumpAtStillSpeed`). Continuity at the Reynolds threshold of 2e5 is not stated either, because `Math.pow` is left abstract.
- `Trajectory.SimulateTrajectory`: the `error: 0` field of the result is left out, since it is a constant.
- Unused declarations are left out: `isBackward`, `MIN_IMPACT_ANGLE_DEG` and `TARGET_HEIGHT` carry no behaviour.
- `components/ShooterSimulator.tsx` is not part of this model: it is React UI (canvas drawing, mouse dragging, loading screen). `next.config.ts` is build configuration.
