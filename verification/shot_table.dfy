/** The shot-table lookup engine: a table keyed first by target distance and
    then by robot velocity, read back by two nested one-dimensional linear
    interpolations with clamping at the ends of each key range. */
module ShotTable {
  import opened Keys

  /** One parsed record of the sample dataset. */
  datatype ModelPoint = ModelPoint(
    distance: real,
    robotVel: real,
    finalVel: real,
    finalAngle: real,
    flightTime: real)

  /** Launch parameters stored in, and interpolated from, the table. */
  datatype ShotModel = ShotModel(exitSpeedMps: real, launchAngleDeg: real, flightTimeSec: real)

  /** One distance bucket: robot velocity to shot model. */
  type Plane = map<real, ShotModel>

  /** Distance to bucket. */
  type Table = map<real, Plane>

  datatype Option<T> = None | Some(value: T)

  /** The recommendation returned by `findOptimalShot`. */
  datatype Shot = Shot(vShooter: real, thetaDeg: real)

  /** What an empty velocity bucket interpolates to. */
  const Zero := ShotModel(0.0, 0.0, 0.0)

  /** What a lookup answers when there is no table or the table is empty. */
  const Fallback := ShotModel(12.0, 45.0, 1.0)

  function ModelOf(p: ModelPoint): ShotModel {
    ShotModel(p.finalVel, p.finalAngle, p.flightTime)
  }

  predicate HasKey(p: ModelPoint, d: real, v: real) {
    p.distance == d && p.robotVel == v
  }

  /** No record after index `i` carries the same (distance, robot velocity) pair. */
  ghost predicate LastWithKey(points: seq<ModelPoint>, i: int)
    requires 0 <= i < |points|
  {
    forall j :: i < j < |points| ==> !HasKey(points[j], points[i].distance, points[i].robotVel)
  }

  /** Some record carries distance `d`. */
  ghost predicate HasDistance(points: seq<ModelPoint>, d: real) {
    exists i :: 0 <= i < |points| && points[i].distance == d
  }

  /** One of the first `n` records carries the key pair (`d`, `v`). */
  ghost predicate Seen(points: seq<ModelPoint>, n: int, d: real, v: real)
    requires 0 <= n <= |points|
  {
    exists i :: 0 <= i < n && HasKey(points[i], d, v)
  }

  // ---------------------------------------------------------------------------
  // Building the table

  /** The table built from the first `n` records: its entries are exactly the
      key pairs seen so far, no bucket is empty, and each entry holds the last
      record seen with its key pair. */
  ghost predicate BuiltFrom(points: seq<ModelPoint>, n: int, table: Table)
    requires 0 <= n <= |points|
  {
    && (forall d :: d in table ==> table[d] != map[])
    && (forall d, v :: d in table && v in table[d] ==> Seen(points, n, d, v))
    && (forall i :: 0 <= i < n ==>
          points[i].distance in table && points[i].robotVel in table[points[i].distance])
    && (forall i :: 0 <= i < n && (forall j :: i < j < n ==> !HasKey(points[j], points[i].distance, points[i].robotVel)) ==>
          table[points[i].distance][points[i].robotVel] == ModelOf(points[i]))
  }

  /** Groups the records by distance, then by robot velocity; a later record
      with the same key pair replaces an earlier one. */
  method BuildTable(points: seq<ModelPoint>) returns (table: Table)
    ensures forall d :: d in table <==> HasDistance(points, d)
    ensures forall d :: d in table ==> table[d] != map[]
    ensures forall d, v :: d in table && v in table[d] <==> Seen(points, |points|, d, v)
    ensures forall i :: 0 <= i < |points| && LastWithKey(points, i) ==>
              points[i].distance in table && points[i].robotVel in table[points[i].distance] &&
              table[points[i].distance][points[i].robotVel] == ModelOf(points[i])
  {
    table := map[];
    for n := 0 to |points|
      invariant BuiltFrom(points, n, table)
    {
      var p := points[n];
      var plane := if p.distance in table then table[p.distance] else map[];
      BuildStep(points, n, table);
      table := table[p.distance := plane[p.robotVel := ModelOf(p)]];
    }
    BuiltComplete(points, table);
  }

  /** Storing record `n` keeps the table built from the records before it. */
  lemma BuildStep(points: seq<ModelPoint>, n: int, table: Table)
    requires 0 <= n < |points| && BuiltFrom(points, n, table)
    ensures var p := points[n];
      var plane := if p.distance in table then table[p.distance] else map[];
      BuiltFrom(points, n + 1, table[p.distance := plane[p.robotVel := ModelOf(p)]])
  {
    var p := points[n];
    var plane := if p.distance in table then table[p.distance] else map[];
    var table' := table[p.distance := plane[p.robotVel := ModelOf(p)]];
    forall d, v | d in table' && v in table'[d]
      ensures Seen(points, n + 1, d, v)
    {
      if HasKey(p, d, v) {
        assert HasKey(points[n], d, v);
      } else {
        assert d in table && v in table[d];
        var i :| 0 <= i < n && HasKey(points[i], d, v);
        assert HasKey(points[i], d, v);
      }
    }
    forall i | 0 <= i < n + 1 && (forall j :: i < j < n + 1 ==> !HasKey(points[j], points[i].distance, points[i].robotVel))
      ensures table'[points[i].distance][points[i].robotVel] == ModelOf(points[i])
    {
      if i < n {
        assert !HasKey(points[n], points[i].distance, points[i].robotVel);
      }
    }
  }

  /** Once every record is stored, the table holds exactly the records' key
      pairs and distances, and each entry is the last record with its pair. */
  lemma BuiltComplete(points: seq<ModelPoint>, table: Table)
    requires BuiltFrom(points, |points|, table)
    ensures forall d :: d in table <==> HasDistance(points, d)
    ensures forall d, v :: d in table && v in table[d] <==> Seen(points, |points|, d, v)
    ensures forall i :: 0 <= i < |points| && LastWithKey(points, i) ==>
              table[points[i].distance][points[i].robotVel] == ModelOf(points[i])
  {
    forall d | d in table
      ensures HasDistance(points, d)
    {
      Inhabited(table[d].Keys);
      var v :| v in table[d];
      assert Seen(points, |points|, d, v);
      var i :| 0 <= i < |points| && HasKey(points[i], d, v);
      assert points[i].distance == d;
    }
    forall d | HasDistance(points, d)
      ensures d in table
    {
      var i :| 0 <= i < |points| && points[i].distance == d;
    }
    forall d, v | Seen(points, |points|, d, v)
      ensures d in table && v in table[d]
    {
      var i :| 0 <= i < |points| && HasKey(points[i], d, v);
    }
  }

  // ---------------------------------------------------------------------------
  // Interpolation

  /** Linear interpolation of every field from `a` (at t = 0) to `b` (at t = 1). */
  function Interpolate(a: ShotModel, b: ShotModel, t: real): (r: ShotModel)
    ensures t == 0.0 ==> r == a
    ensures t == 1.0 ==> r == b
  {
    ShotModel(
      a.exitSpeedMps + (b.exitSpeedMps - a.exitSpeedMps) * t,
      a.launchAngleDeg + (b.launchAngleDeg - a.launchAngleDeg) * t,
      a.flightTimeSec + (b.flightTimeSec - a.flightTimeSec) * t)
  }

  predicate Within(x: real, y: real, z: real) {
    (x <= z <= y) || (y <= z <= x)
  }

  /** Every field of `m` lies between the corresponding fields of `a` and `b`. */
  predicate Between(a: ShotModel, b: ShotModel, m: ShotModel) {
    && Within(a.exitSpeedMps, b.exitSpeedMps, m.exitSpeedMps)
    && Within(a.launchAngleDeg, b.launchAngleDeg, m.launchAngleDeg)
    && Within(a.flightTimeSec, b.flightTimeSec, m.flightTimeSec)
  }

  lemma LerpWithin(x: real, y: real, t: real)
    requires 0.0 <= t <= 1.0
    ensures Within(x, y, x + (y - x) * t)
  {
  }

  /** For a fraction in [0, 1] the interpolated model never leaves the box
      spanned by its two samples. */
  lemma InterpolateBetween(a: ShotModel, b: ShotModel, t: real)
    requires 0.0 <= t <= 1.0
    ensures Between(a, b, Interpolate(a, b, t))
  {
    LerpWithin(a.exitSpeedMps, b.exitSpeedMps, t);
    LerpWithin(a.launchAngleDeg, b.launchAngleDeg, t);
    LerpWithin(a.flightTimeSec, b.flightTimeSec, t);
  }

  /** What `interpolateVelocityPlane` yields for a bucket and a robot velocity. */
  ghost function PlaneAt(plane: Plane, q: real): (m: ShotModel)
    ensures plane == map[] ==> m == Zero
    ensures plane != map[] && q <= Least(plane.Keys) ==> m == plane[Least(plane.Keys)]
    ensures plane != map[] && q >= Greatest(plane.Keys) ==> m == plane[Greatest(plane.Keys)]
  {
    if plane == map[] then Zero
    else
      var (v0, v1) := Neighbours(plane.Keys, q);
      if v0 == v1 then plane[v0]
      else Interpolate(plane[v0], plane[v1], (q - v0) / (v1 - v0))
  }

  /** What `lookupModel` yields for an optional table, a distance and a robot velocity. */
  ghost function Lookup(table: Option<Table>, distance: real, vel: real): (m: ShotModel)
    ensures table == None || table == Some(map[]) ==> m == Fallback
  {
    if table.None? || table.value == map[] then Fallback
    else
      var t := table.value;
      var ad := Abs(distance);
      var (d0, d1) := Neighbours(t.Keys, ad);
      var m0 := PlaneAt(t[d0], vel);
      if d0 == d1 then m0
      else Interpolate(m0, PlaneAt(t[d1], vel), (ad - d0) / (d1 - d0))
  }

  function Abs(x: real): (r: real)
    ensures r >= 0.0 && (r == x || r == -x)
  {
    if x < 0.0 then -x else x
  }

  /** Interpolates a distance bucket at robot velocity `q`. */
  method InterpolateVelocityPlane(plane: Plane, q: real) returns (m: ShotModel)
    ensures m == PlaneAt(plane, q)
  {
    if |plane| == 0 {
      return Zero;
    }
    var velocities := SortKeys(plane.Keys);
    var v0Key, v1Key := Bracket(velocities, q, plane.Keys);
    var v0, v1 := plane[v0Key], plane[v1Key];
    if v0Key == v1Key {
      return v0;
    }
    var t := (q - v0Key) / (v1Key - v0Key);
    m := Interpolate(v0, v1, t);
  }

  /** Looks up the launch parameters for a distance and a robot velocity. */
  method LookupModel(table: Option<Table>, distance: real, vel: real) returns (m: ShotModel)
    ensures m == Lookup(table, distance, vel)
  {
    if table.None? || |table.value| == 0 {
      return Fallback;
    }
    var t := table.value;
    var absDistance := Abs(distance);
    var distances := SortKeys(t.Keys);
    var d0, d1 := Bracket(distances, absDistance, t.Keys);
    var m0 := InterpolateVelocityPlane(t[d0], vel);
    if d0 == d1 {
      return m0;
    }
    var m1 := InterpolateVelocityPlane(t[d1], vel);
    var f := (absDistance - d0) / (d1 - d0);
    m := Interpolate(m0, m1, f);
  }

  /** What `findOptimalShot` answers: nothing when the looked-up exit speed is
      zero; otherwise that speed and the table angle, mirrored to 180 minus the
      angle for a negative (rearward) distance. */
  ghost function OptimalShot(table: Option<Table>, distance: real, vel: real): (r: Option<Shot>)
    ensures r == None <==> Lookup(table, distance, vel).exitSpeedMps == 0.0
    ensures r != None ==> r.value.vShooter == Lookup(table, distance, vel).exitSpeedMps
    ensures r != None && distance >= 0.0 ==> r.value.thetaDeg == Lookup(table, distance, vel).launchAngleDeg
    ensures r != None && distance < 0.0 ==> r.value.thetaDeg == 180.0 - Lookup(table, distance, vel).launchAngleDeg
  {
    var model := Lookup(table, distance, vel);
    if model.exitSpeedMps == 0.0 then None
    else
      var angle := if distance < 0.0 then 180.0 - model.launchAngleDeg else model.launchAngleDeg;
      Some(Shot(model.exitSpeedMps, angle))
  }

  method FindOptimalShot(table: Option<Table>, distance: real, vel: real) returns (r: Option<Shot>)
    ensures r == OptimalShot(table, distance, vel)
  {
    var model := LookupModel(table, distance, vel);
    if model.exitSpeedMps == 0.0 {
      return None;
    }
    var isNegative := distance < 0.0;
    var angle := if isNegative then 180.0 - model.launchAngleDeg else model.launchAngleDeg;
    r := Some(Shot(model.exitSpeedMps, angle));
  }

  // ---------------------------------------------------------------------------
  // Properties of the lookup

  /** Identity at the knots: at a robot velocity that is a key of the bucket,
      the bucket's own model comes back unchanged. At an interior key the
      bracketing pair ends at that key, so the fraction is exactly 1. */
  lemma PlaneAtKnot(plane: Plane, q: real)
    requires q in plane
    ensures PlaneAt(plane, q) == plane[q]
    ensures Least(plane.Keys) < q < Greatest(plane.Keys) ==> Neighbours(plane.Keys, q).1 == q
  {
    var (v0, v1) := Neighbours(plane.Keys, q);
    if Least(plane.Keys) < q < Greatest(plane.Keys) {
      UnitFraction(q, v0, v1);
    }
  }

  /** A query that coincides with the upper end of its bracket sits at
      fraction 1. */
  lemma UnitFraction(q: real, lo: real, hi: real)
    requires lo < q && q == hi
    ensures (q - lo) / (hi - lo) == 1.0
  {
  }

  /** Strictly inside the key range the result is the interpolation between
      two adjacent keys that bracket the query, with a fraction in (0, 1], so
      every field lies between the two samples' fields. */
  lemma PlaneInterior(plane: Plane, q: real)
    requires plane != map[] && Least(plane.Keys) < q < Greatest(plane.Keys)
    ensures var (v0, v1) := Neighbours(plane.Keys, q);
      && v0 < q <= v1
      && (forall k :: k in plane ==> k <= v0 || v1 <= k)
      && 0.0 < (q - v0) / (v1 - v0) <= 1.0
      && PlaneAt(plane, q) == Interpolate(plane[v0], plane[v1], (q - v0) / (v1 - v0))
      && Between(plane[v0], plane[v1], PlaneAt(plane, q))
  {
    var (v0, v1) := Neighbours(plane.Keys, q);
    FractionInUnit(q - v0, v1 - v0);
    InterpolateBetween(plane[v0], plane[v1], (q - v0) / (v1 - v0));
  }

  lemma FractionInUnit(a: real, b: real)
    requires 0.0 < a <= b
    ensures 0.0 < a / b <= 1.0
  {
    assert a / b * b == a;
  }

  /** The lookup sees the distance only through its absolute value. */
  lemma LookupEven(table: Option<Table>, distance: real, vel: real)
    ensures Lookup(table, distance, vel) == Lookup(table, -distance, vel)
  {
    assert Abs(distance) == Abs(-distance);
  }

  /** Clamping in distance: at or below the smallest distance key, and at or
      above the largest, the lookup is the velocity interpolation of that one
      bucket; no second bucket is consulted. */
  lemma LookupClamped(t: Table, distance: real, vel: real)
    requires t != map[]
    ensures Abs(distance) <= Least(t.Keys) ==>
              Lookup(Some(t), distance, vel) == PlaneAt(t[Least(t.Keys)], vel)
    ensures Abs(distance) >= Greatest(t.Keys) ==>
              Lookup(Some(t), distance, vel) == PlaneAt(t[Greatest(t.Keys)], vel)
  {
  }

  /** At a distance that is a key of the table the lookup is that bucket's
      velocity interpolation. */
  lemma LookupAtKnot(t: Table, distance: real, vel: real)
    requires Abs(distance) in t
    ensures Lookup(Some(t), distance, vel) == PlaneAt(t[Abs(distance)], vel)
  {
    var ad := Abs(distance);
    var (d0, d1) := Neighbours(t.Keys, ad);
    if Least(t.Keys) < ad < Greatest(t.Keys) {
      assert d1 == ad;
      UnitFraction(ad, d0, d1);
    }
  }

  /** Strictly inside the distance range the lookup blends the two bracketing
      buckets' results, and each field lies between theirs. */
  lemma LookupInterior(t: Table, distance: real, vel: real)
    requires t != map[] && Least(t.Keys) < Abs(distance) < Greatest(t.Keys)
    ensures var (d0, d1) := Neighbours(t.Keys, Abs(distance));
      && d0 < Abs(distance) <= d1
      && Between(PlaneAt(t[d0], vel), PlaneAt(t[d1], vel), Lookup(Some(t), distance, vel))
  {
    var ad := Abs(distance);
    var (d0, d1) := Neighbours(t.Keys, ad);
    FractionInUnit(ad - d0, d1 - d0);
    InterpolateBetween(PlaneAt(t[d0], vel), PlaneAt(t[d1], vel), (ad - d0) / (d1 - d0));
  }

  /** A rearward shot mirrors the forward one: same exit speed, angles summing
      to 180 degrees, and one is absent exactly when the other is. */
  lemma MirroredShots(table: Option<Table>, distance: real, vel: real)
    requires distance > 0.0
    ensures OptimalShot(table, distance, vel).Some? <==> OptimalShot(table, -distance, vel).Some?
    ensures OptimalShot(table, distance, vel).Some? ==>
              && OptimalShot(table, -distance, vel).value.vShooter == OptimalShot(table, distance, vel).value.vShooter
              && OptimalShot(table, -distance, vel).value.thetaDeg + OptimalShot(table, distance, vel).value.thetaDeg == 180.0
  {
    LookupEven(table, distance, vel);
  }

  /** Two samples at distances 2 and 4 (robot at rest): a shot at distance 3
      is their midpoint, and a shot at distance -3 mirrors its angle. */
  lemma MidpointExample()
    ensures var t := map[2.0 := map[0.0 := ShotModel(10.0, 50.0, 0.8)],
                         4.0 := map[0.0 := ShotModel(12.0, 45.0, 1.0)]];
      && OptimalShot(Some(t), 3.0, 0.0) == Some(Shot(11.0, 47.5))
      && OptimalShot(Some(t), -3.0, 0.0) == Some(Shot(11.0, 132.5))
  {
    var near := map[0.0 := ShotModel(10.0, 50.0, 0.8)];
    var far := map[0.0 := ShotModel(12.0, 45.0, 1.0)];
    var t := map[2.0 := near, 4.0 := far];
    assert t.Keys == {2.0, 4.0};
    assert Least(t.Keys) == 2.0 && Greatest(t.Keys) == 4.0;
    assert Neighbours(t.Keys, 3.0) == (2.0, 4.0);
    PlaneAtKnot(near, 0.0);
    PlaneAtKnot(far, 0.0);
    assert Lookup(Some(t), 3.0, 0.0) == ShotModel(11.0, 47.5, 0.9);
    LookupEven(Some(t), 3.0, 0.0);
  }
}
