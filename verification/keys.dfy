/** Key handling shared by the two levels of the shot table: sorting a map's
    keys ascending and finding the pair of adjacent keys that brackets a query,
    clamped at both ends. */
module Keys {

  predicate StrictlyIncreasing(ks: seq<real>) {
    forall i, j :: 0 <= i < j < |ks| ==> ks[i] < ks[j]
  }

  ghost predicate IsLeast(s: set<real>, k: real) {
    k in s && forall j :: j in s ==> k <= j
  }

  ghost predicate IsGreatest(s: set<real>, k: real) {
    k in s && forall j :: j in s ==> j <= k
  }

  /** A non-empty set has an element. */
  lemma Inhabited(s: set<real>)
    ensures s == {} || exists k :: k in s
  {
    if forall k :: k !in s {
      assert s == {};
    }
  }

  lemma {:induction false} LeastExists(s: set<real>)
    requires s != {}
    ensures exists k :: IsLeast(s, k)
  {
    Inhabited(s);
    var x :| x in s;
    var rest := s - {x};
    if rest == {} {
      forall j | j in s ensures j == x {
        assert j in rest || j == x;
      }
      assert IsLeast(s, x);
    } else {
      LeastExists(rest);
      var m :| IsLeast(rest, m);
      var k := if x <= m then x else m;
      forall j | j in s ensures k <= j {
        if j != x { assert j in rest; }
      }
      assert IsLeast(s, k);
    }
  }

  lemma {:induction false} GreatestExists(s: set<real>)
    requires s != {}
    ensures exists k :: IsGreatest(s, k)
  {
    Inhabited(s);
    var x :| x in s;
    var rest := s - {x};
    if rest == {} {
      forall j | j in s ensures j == x {
        assert j in rest || j == x;
      }
      assert IsGreatest(s, x);
    } else {
      GreatestExists(rest);
      var m :| IsGreatest(rest, m);
      var k := if m <= x then x else m;
      forall j | j in s ensures j <= k {
        if j != x { assert j in rest; }
      }
      assert IsGreatest(s, k);
    }
  }

  /** The smallest element of a non-empty finite set of keys. */
  ghost function Least(s: set<real>): (k: real)
    requires s != {}
    ensures IsLeast(s, k)
  {
    LeastExists(s);
    var k :| IsLeast(s, k); k
  }

  /** The largest element of a non-empty finite set of keys. */
  ghost function Greatest(s: set<real>): (k: real)
    requires s != {}
    ensures IsGreatest(s, k)
  {
    GreatestExists(s);
    var k :| IsGreatest(s, k); k
  }

  /** The interpolation endpoints for query `q` among `keys`: both collapse to
      the smallest key when `q` is at or below it, to the largest key when `q`
      is at or above it, and otherwise they are the largest key below `q` and
      the smallest key at or above `q`. */
  ghost function Neighbours(keys: set<real>, q: real): (r: (real, real))
    requires keys != {}
    ensures r.0 in keys && r.1 in keys && r.0 <= r.1
    ensures q <= Least(keys) ==> r.0 == r.1 == Least(keys)
    ensures Least(keys) < q && Greatest(keys) <= q ==> r.0 == r.1 == Greatest(keys)
    ensures Least(keys) < q < Greatest(keys) ==>
              r.0 < q <= r.1 && forall k :: k in keys ==> k <= r.0 || r.1 <= k
  {
    var lo, hi := Least(keys), Greatest(keys);
    if q <= lo then (lo, lo)
    else if hi <= q then (hi, hi)
    else
      var below := set k | k in keys && k < q;
      var above := set k | k in keys && q <= k;
      assert lo in below && hi in above;
      assert forall k :: k in keys ==> k in below || k in above;
      (Greatest(below), Least(above))
  }

  /** Inserts a new key into a strictly increasing sequence of keys. */
  function InsertSorted(ks: seq<real>, x: real): (r: seq<real>)
    requires StrictlyIncreasing(ks) && x !in ks
    ensures StrictlyIncreasing(r)
    ensures forall k :: k in r <==> k in ks || k == x
    ensures |r| == |ks| + 1
  {
    if ks == [] || x < ks[0] then
      PrependIncreasing(x, ks);
      [x] + ks
    else
      var tail := InsertSorted(ks[1..], x);
      PrependIncreasing(ks[0], tail);
      [ks[0]] + tail
  }

  /** A key below every key of an increasing sequence may go in front of it. */
  lemma PrependIncreasing(a: real, t: seq<real>)
    requires StrictlyIncreasing(t) && forall k :: k in t ==> a < k
    ensures StrictlyIncreasing([a] + t)
  {
    forall i, j | 0 <= i < j < |t| + 1
      ensures ([a] + t)[i] < ([a] + t)[j]
    {
      assert ([a] + t)[j] == t[j - 1] && t[j - 1] in t;
      if i > 0 {
        assert ([a] + t)[i] == t[i - 1];
      }
    }
  }

  /** The keys of a map, sorted ascending with a numeric comparator. */
  method SortKeys(keys: set<real>) returns (ks: seq<real>)
    ensures StrictlyIncreasing(ks)
    ensures forall k :: k in ks <==> k in keys
    ensures |ks| == |keys|
  {
    ks := [];
    var rest := keys;
    while rest != {}
      invariant rest <= keys
      invariant StrictlyIncreasing(ks)
      invariant forall k :: k in ks <==> k in keys && k !in rest
      invariant |ks| + |rest| == |keys|
      decreases |rest|
    {
      Inhabited(rest);
      var x :| x in rest;
      ks := InsertSorted(ks, x);
      rest := rest - {x};
    }
  }

  /** The first and last elements of a sorted key sequence are the least and
      greatest keys of the set it enumerates. */
  lemma SortedEnds(ks: seq<real>, keys: set<real>)
    requires StrictlyIncreasing(ks) && |ks| > 0
    requires forall k :: k in ks <==> k in keys
    ensures keys != {}
    ensures ks[0] == Least(keys) && ks[|ks| - 1] == Greatest(keys)
  {
    assert ks[0] in ks && ks[|ks| - 1] in ks;
    assert IsLeast(keys, ks[0]) by {
      forall j | j in keys ensures ks[0] <= j {
        var i :| 0 <= i < |ks| && ks[i] == j;
      }
    }
    assert IsGreatest(keys, ks[|ks| - 1]) by {
      forall j | j in keys ensures j <= ks[|ks| - 1] {
        var i :| 0 <= i < |ks| && ks[i] == j;
      }
    }
  }

  /** Scans a sorted key sequence for the first adjacent pair that brackets
      `q`, then clamps both ends of the pair to the first (last) key when `q`
      is at or below (above) the whole range. */
  method Bracket(ks: seq<real>, q: real, ghost keys: set<real>) returns (k0: real, k1: real)
    requires StrictlyIncreasing(ks) && |ks| > 0
    requires forall k :: k in ks <==> k in keys
    ensures keys != {} && (k0, k1) == Neighbours(keys, q)
  {
    var n := |ks|;
    k0, k1 := ks[0], ks[n - 1];
    ghost var found := false;
    var i := 0;
    while i < n - 1
      invariant 0 <= i <= n - 1
      invariant forall j :: 0 <= j < i ==> !(ks[j] <= q <= ks[j + 1])
      invariant !found && k0 == ks[0] && k1 == ks[n - 1]
    {
      if ks[i] <= q && ks[i + 1] >= q {
        k0, k1 := ks[i], ks[i + 1];
        found := true;
        break;
      }
      i := i + 1;
    }
    if q <= ks[0] {
      k0, k1 := ks[0], ks[0];
    } else if q >= ks[n - 1] {
      k0, k1 := ks[n - 1], ks[n - 1];
    }
    SortedEnds(ks, keys);
    if ks[0] < q < ks[n - 1] {
      if !found {
        NoBracketMeansOutside(ks, q);
      }
      assert found && i < n - 1 && k0 == ks[i] && k1 == ks[i + 1] && ks[i] <= q <= ks[i + 1];
      InteriorBracket(ks, keys, q, i);
    }
  }

  /** When no adjacent pair of a sorted sequence brackets `q`, then `q` lies at
      or below the first key or strictly above the last one. */
  lemma {:induction false} NoBracketMeansOutside(ks: seq<real>, q: real)
    requires StrictlyIncreasing(ks) && |ks| > 0
    requires forall j :: 0 <= j < |ks| - 1 ==> !(ks[j] <= q <= ks[j + 1])
    ensures q <= ks[0] || ks[|ks| - 1] < q
  {
    if q > ks[0] && |ks| > 1 {
      assert q > ks[1];
      NoBracketMeansOutside(ks[1..], q);
    }
  }

  /** The first bracketing pair of an interior query is the pair of neighbours
      of the query among the keys. */
  lemma InteriorBracket(ks: seq<real>, keys: set<real>, q: real, i: int)
    requires StrictlyIncreasing(ks) && |ks| > 0
    requires forall k :: k in ks <==> k in keys
    requires ks[0] < q < ks[|ks| - 1]
    requires 0 <= i < |ks| - 1 && ks[i] <= q <= ks[i + 1]
    requires forall j :: 0 <= j < i ==> !(ks[j] <= q <= ks[j + 1])
    ensures keys != {} && Neighbours(keys, q) == (ks[i], ks[i + 1])
  {
    SortedEnds(ks, keys);
    if i > 0 {
      assert !(ks[i - 1] <= q <= ks[i]);
    }
    assert ks[i] < q;
    var r := Neighbours(keys, q);
    var j0 :| 0 <= j0 < |ks| && ks[j0] == r.0;
    var j1 :| 0 <= j1 < |ks| && ks[j1] == r.1;
    assert ks[i] in keys && ks[i + 1] in keys;
  }
}
