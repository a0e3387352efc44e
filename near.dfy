/** `search_near` of the final report (report/main.py): the five stop names
    closest to a coordinate, by plain distance in degrees. */
module Near {
  import opened Wrappers
  import opened Text
  import opened Dict
  import opened Sorting
  import opened StopIndex

  const BadCoordinate: string := "could not convert string to float"
  const Shown: nat := 5

  /** `key.split("_")[0]`: the text before the first `_`. */
  function BaseName(key: string): (r: string)
    ensures |r| <= |key|
  {
    match IndexOf(key, '_')
    case None => key
    case Some(i) => key[..i]
  }

  /** The base name is the longest prefix without `_`. */
  lemma {:induction false} BaseNameSpec(key: string)
    ensures var r := BaseName(key);
      && r == key[..|r|]
      && (forall i :: 0 <= i < |r| ==> r[i] != '_')
      && (|r| < |key| ==> key[|r|] == '_')
  {
  }

  /** A stop key names its stop again when the name has no `_` of its own. */
  lemma {:induction false} BaseNameOfKey(n: string, suffix: string)
    requires forall i :: 0 <= i < |n| ==> n[i] != '_'
    requires |suffix| > 0 && suffix[0] == '_'
    ensures BaseName(Key(n, suffix)) == n
  {
    var k := Key(n, suffix);
    BaseNameSpec(k);
    assert k[|n|] == '_';
    assert forall i :: 0 <= i < |n| ==> k[i] == n[i];
  }

  /** The squared distance in degrees; `search_near` takes its square root,
      which orders the same. */
  function SqDist(lat: real, lon: real, stopLat: real, stopLon: real): (d: real)
    ensures d >= 0.0
  {
    (lat - stopLat) * (lat - stopLat) + (lon - stopLon) * (lon - stopLon)
  }

  /** A stop takes part when both of its coordinates are non-empty. */
  predicate HasPosition(info: StopInfo) {
    info.stopLatitude != "" && info.stopLongitude != ""
  }

  /** The distance of one stop, or `None` when a coordinate is not a number. */
  function StopDist(info: StopInfo, lat: real, lon: real): Option<real> {
    match ParseDecimal(info.stopLatitude)
    case None => None
    case Some(a) =>
      match ParseDecimal(info.stopLongitude)
      case None => None
      case Some(b) => Some(SqDist(lat, lon, a, b))
  }

  /** Every stop `search_near` visits, in order: the lines of the index in
      order and, within a line, the outbound map before the inbound one. */
  function Visits(index: Dict<string, LineDetail>): seq<(string, StopInfo)> {
    if index == [] then []
    else
      var e := index[|index| - 1];
      Visits(index[..|index| - 1]) + e.1.outbound + e.1.inbound
  }

  /** One visited stop: with a position, it writes its distance under its
      base name, overwriting what an earlier stop of that name wrote. */
  function Visit(t: Result<Dict<string, real>>, v: (string, StopInfo), lat: real, lon: real)
    : Result<Dict<string, real>>
  {
    match t
    case Err(m) => Err(m)
    case Ok(dist) =>
      if !HasPosition(v.1) then Ok(dist)
      else
        match StopDist(v.1, lat, lon)
        case None => Err(BadCoordinate)
        case Some(d) => Ok(Put(dist, BaseName(v.0), d))
  }

  /** The `dist` dict after visiting `visits`, or the ValueError of the
      first coordinate that is not a number. */
  function DistTable(visits: seq<(string, StopInfo)>, lat: real, lon: real): Result<Dict<string, real>> {
    if visits == [] then Ok([])
    else Visit(DistTable(visits[..|visits| - 1], lat, lon), visits[|visits| - 1], lat, lon)
  }

  predicate ByDistance(a: (string, real), b: (string, real)) {
    a.1 <= b.1
  }

  function Take<T>(s: seq<T>, n: nat): (r: seq<T>)
    ensures |r| <= n && |r| <= |s| && r == s[..|r|]
    ensures |s| >= n ==> |r| == n
    ensures |s| < n ==> r == s
  {
    if |s| <= n then s else s[..n]
  }

  /** What `search_near` shows: `sorted(dist.items(), key=distance)[:5]`. */
  function Nearest(index: Dict<string, LineDetail>, lat: real, lon: real)
    : (r: Result<seq<(string, real)>>)
    ensures r.Ok? ==> |r.value| <= Shown
  {
    match DistTable(Visits(index), lat, lon)
    case Err(m) => Err(m)
    case Ok(t) => Ok(Take(SortBy(t, ByDistance), Shown))
  }

  // ---------------------------------------------------------------------
  // The loops
  // ---------------------------------------------------------------------

  /** One more visited stop of a direction map. */
  lemma {:induction false} DistExtend(before: seq<(string, StopInfo)>, way: StopMap, j: nat, lat: real, lon: real)
    requires j < |way|
    ensures DistTable(before + way[..j + 1], lat, lon) == Visit(DistTable(before + way[..j], lat, lon), way[j], lat, lon)
  {
    assert (before + way[..j + 1])[..|before + way[..j + 1]| - 1] == before + way[..j];
  }

  /** Once a coordinate has failed to parse, later stops do not matter. */
  lemma {:induction false} DistErrSticky(a: seq<(string, StopInfo)>, b: seq<(string, StopInfo)>, lat: real, lon: real)
    requires DistTable(a, lat, lon).Err?
    ensures DistTable(a + b, lat, lon) == DistTable(a, lat, lon)
    decreases |b|
  {
    if b == [] {
      assert a + b == a;
    } else {
      DistErrSticky(a, b[..|b| - 1], lat, lon);
      assert (a + b)[..|a + b| - 1] == a + b[..|b| - 1];
    }
  }

  /** A failure at the `j`-th stop of `way` is the failure of the whole map. */
  lemma {:induction false} DistErrAt(before: seq<(string, StopInfo)>, way: StopMap, j: nat, lat: real, lon: real)
    requires j < |way| && DistTable(before + way[..j + 1], lat, lon).Err?
    ensures DistTable(before + way, lat, lon) == DistTable(before + way[..j + 1], lat, lon)
  {
    DistErrSticky(before + way[..j + 1], way[j + 1..], lat, lon);
    assert before + way[..j + 1] + way[j + 1..] == before + way;
  }

  /** The loop over the stops of one direction map, continuing `dist`. */
  method VisitWay(dist: Dict<string, real>, ghost before: seq<(string, StopInfo)>, way: StopMap, lat: real, lon: real)
    returns (r: Result<Dict<string, real>>)
    requires DistTable(before, lat, lon) == Ok(dist)
    ensures r == DistTable(before + way, lat, lon)
  {
    var t := dist;
    assert before + way[..0] == before;
    for j := 0 to |way|
      invariant DistTable(before + way[..j], lat, lon) == Ok(t)
    {
      var (name, info) := way[j];
      DistExtend(before, way, j, lat, lon);
      if info.stopLatitude != "" && info.stopLongitude != "" {
        var stopLat := ParseDecimal(info.stopLatitude);
        var stopLon := ParseDecimal(info.stopLongitude);
        if stopLat.None? || stopLon.None? {
          DistErrAt(before, way, j, lat, lon);
          return Err(BadCoordinate);
        }
        t := Put(t, BaseName(name), SqDist(lat, lon, stopLat.value, stopLon.value));
      }
    }
    assert way[..|way|] == way;
    return Ok(t);
  }

  /** The loops of `search_near` that fill `dist`, then the ranking. */
  method SearchNear(index: Dict<string, LineDetail>, lat: real, lon: real)
    returns (r: Result<seq<(string, real)>>)
    ensures r == Nearest(index, lat, lon)
  {
    var dist: Dict<string, real> := [];
    for i := 0 to |index|
      invariant DistTable(Visits(index[..i]), lat, lon) == Ok(dist)
    {
      assert index[..i + 1][..i] == index[..i];
      ghost var before := Visits(index[..i]);
      var stops := index[i].1;
      var r0 := VisitWay(dist, before, stops.outbound, lat, lon);
      assert Visits(index[..i + 1]) == before + stops.outbound + stops.inbound;
      if r0.Err? {
        DistErrSticky(before + stops.outbound, stops.inbound, lat, lon);
        VisitsErr(index, i + 1, before + stops.outbound + stops.inbound, lat, lon);
        return Err(r0.message);
      }
      var r1 := VisitWay(r0.value, before + stops.outbound, stops.inbound, lat, lon);
      if r1.Err? {
        VisitsErr(index, i + 1, before + stops.outbound + stops.inbound, lat, lon);
        return Err(r1.message);
      }
      dist := r1.value;
    }
    assert index[..|index|] == index;
    return Ok(Take(SortBy(dist, ByDistance), Shown));
  }

  /** A visit order extended by later lines keeps its prefix. */
  lemma {:induction false} VisitsPrefix(index: Dict<string, LineDetail>, k: nat)
    requires k <= |index|
    ensures exists rest :: Visits(index) == Visits(index[..k]) + rest
    decreases |index|
  {
    if k < |index| {
      var p := index[..|index| - 1];
      assert p[..k] == index[..k];
      VisitsPrefix(p, k);
      var rest :| Visits(p) == Visits(p[..k]) + rest;
      var e := index[|index| - 1];
      assert Visits(index) == Visits(index[..k]) + (rest + e.1.outbound + e.1.inbound);
    } else {
      assert index[..k] == index;
      assert Visits(index) == Visits(index[..k]) + [];
    }
  }

  lemma {:induction false} VisitsErr(index: Dict<string, LineDetail>, k: nat, pre: seq<(string, StopInfo)>, lat: real, lon: real)
    requires 0 < k <= |index| && pre == Visits(index[..k]) && DistTable(pre, lat, lon).Err?
    ensures DistTable(Visits(index), lat, lon) == DistTable(pre, lat, lon)
  {
    VisitsPrefix(index, k);
    var rest :| Visits(index) == Visits(index[..k]) + rest;
    DistErrSticky(pre, rest, lat, lon);
  }

  // ---------------------------------------------------------------------
  // Properties
  // ---------------------------------------------------------------------

  /** Each base name enters the table at most once. */
  lemma {:induction false} DistUnique(visits: seq<(string, StopInfo)>, lat: real, lon: real)
    ensures DistTable(visits, lat, lon).Ok? ==> UniqueKeys(DistTable(visits, lat, lon).value)
    decreases |visits|
  {
    if visits != [] {
      var p := visits[..|visits| - 1];
      DistUnique(p, lat, lon);
      var v := visits[|visits| - 1];
      if DistTable(p, lat, lon).Ok? && HasPosition(v.1) && StopDist(v.1, lat, lon).Some? {
        PutUnique(DistTable(p, lat, lon).value, BaseName(v.0), StopDist(v.1, lat, lon).value);
      }
    }
  }

  /** The stop counts for base name `n`. */
  predicate CountsFor(v: (string, StopInfo), n: string) {
    BaseName(v.0) == n && HasPosition(v.1)
  }

  /** Some visited stop counts for `n`. */
  predicate HasStopFor(visits: seq<(string, StopInfo)>, n: string) {
    exists i :: 0 <= i < |visits| && CountsFor(visits[i], n)
  }

  /** The position of the last stop that counts for `n`. */
  function LastFor(visits: seq<(string, StopInfo)>, n: string): (i: nat)
    requires HasStopFor(visits, n)
    ensures i < |visits| && CountsFor(visits[i], n)
    ensures forall j :: i < j < |visits| ==> !CountsFor(visits[j], n)
    decreases |visits|
  {
    if CountsFor(visits[|visits| - 1], n) then |visits| - 1
    else
      var p := visits[..|visits| - 1];
      var i :| 0 <= i < |visits| && CountsFor(visits[i], n);
      assert CountsFor(p[i], n);
      var r := LastFor(p, n);
      NoneCountAfter(visits, p, n, r);
      r
  }

  /** No stop after `r` counts for `n` when none after it in the prefix
      does and the last one does not. */
  lemma {:induction false} NoneCountAfter(visits: seq<(string, StopInfo)>, p: seq<(string, StopInfo)>, n: string, r: nat)
    requires visits != [] && p == visits[..|visits| - 1] && r < |p|
    requires !CountsFor(visits[|visits| - 1], n)
    requires forall j :: r < j < |p| ==> !CountsFor(p[j], n)
    ensures forall j :: r < j < |visits| ==> !CountsFor(visits[j], n)
  {
    forall j | r < j < |visits|
      ensures !CountsFor(visits[j], n)
    {
      if j < |p| {
        assert visits[j] == p[j];
      }
    }
  }

  /** Last write wins: a base name carries the distance of the last visited
      stop of that name, not the smallest one. */
  lemma {:induction false} DistLastWins(visits: seq<(string, StopInfo)>, lat: real, lon: real, n: string)
    ensures DistTable(visits, lat, lon).Ok? ==>
      Get(DistTable(visits, lat, lon).value, n)
        == if HasStopFor(visits, n)
           then StopDist(visits[LastFor(visits, n)].1, lat, lon)
           else None
    decreases |visits|
  {
    if visits != [] && DistTable(visits, lat, lon).Ok? {
      var p := visits[..|visits| - 1];
      var v := visits[|visits| - 1];
      DistLastWins(p, lat, lon, n);
      var t := DistTable(p, lat, lon).value;
      if HasPosition(v.1) {
        PutGet(t, BaseName(v.0), StopDist(v.1, lat, lon).value, n);
      }
      if HasStopFor(p, n) {
        var i :| 0 <= i < |p| && CountsFor(p[i], n);
        assert CountsFor(visits[i], n);
      }
      if HasStopFor(visits, n) {
        var i :| 0 <= i < |visits| && CountsFor(visits[i], n);
        if i < |p| { assert CountsFor(p[i], n); }
      }
    }
  }

  /** Two stops of one name `n`, the one at the queried point first: the
      table keeps the other one's distance, 1.0, and not the smallest, 0.0. */
  lemma {:induction false} LastNotNearest(n: string, near: StopInfo, far: StopInfo)
    requires forall i :: 0 <= i < |n| ==> n[i] != '_'
    requires near.stopLatitude == NatToDigits(0) && near.stopLongitude == NatToDigits(0)
    requires far.stopLatitude == NatToDigits(1) && far.stopLongitude == NatToDigits(0)
    ensures StopDist(near, 0.0, 0.0) == Some(0.0)
    ensures DistTable([(Key(n, FirstSuffix), near), (Key(n, LaterSuffix), far)], 0.0, 0.0)
         == Ok([(n, 1.0)])
  {
    var visits := [(Key(n, FirstSuffix), near), (Key(n, LaterSuffix), far)];
    ParseDecimalWhole(0);
    ParseDecimalWhole(1);
    BaseNameOfKey(n, FirstSuffix);
    BaseNameOfKey(n, LaterSuffix);
    assert visits[..1] == [(Key(n, FirstSuffix), near)];
    assert visits[..1][..0] == [];
    assert HasPosition(near) && HasPosition(far);
    assert StopDist(far, 0.0, 0.0) == Some(1.0);
    assert Keys<string, real>([]) == [];
    assert Put([], n, 0.0) == [(n, 0.0)];
    assert DistTable(visits[..1], 0.0, 0.0) == Ok([(n, 0.0)]);
    assert Keys([(n, 0.0)]) == [n];
    assert Put([(n, 0.0)], n, 1.0) == [(n, 1.0)];
  }

  lemma {:induction false} ByDistanceTotal()
    ensures TotalPreorder(ByDistance)
  {
  }

  /** Elements sorted apart by key stay distinct in key. */
  lemma {:induction false} InsertByDistinct(x: (string, real), s: seq<(string, real)>)
    requires UniqueKeys(s) && forall i :: 0 <= i < |s| ==> s[i].0 != x.0
    ensures UniqueKeys(InsertBy(x, s, ByDistance))
    decreases |s|
  {
    if s != [] && !ByDistance(x, s[0]) {
      InsertByDistinct(x, s[1..]);
      var t := InsertBy(x, s[1..], ByDistance);
      InsertByPermutes(x, s[1..], ByDistance);
      forall j | 0 <= j < |t| ensures t[j].0 != s[0].0 {
        assert t[j] in multiset(t);
        if t[j] != x {
          assert t[j] in multiset(s[1..]);
          var k :| 0 <= k < |s[1..]| && s[1..][k] == t[j];
          assert s[k + 1] == t[j];
        }
      }
    }
  }

  lemma {:induction false} SortByDistinct(s: seq<(string, real)>)
    requires UniqueKeys(s)
    ensures UniqueKeys(SortBy(s, ByDistance))
  {
    if s != [] {
      SortByDistinct(s[1..]);
      var t := SortBy(s[1..], ByDistance);
      SortByPermutes(s[1..], ByDistance);
      forall j | 0 <= j < |t| ensures t[j].0 != s[0].0 {
        assert t[j] in multiset(s[1..]);
        var k :| 0 <= k < |s[1..]| && s[1..][k] == t[j];
        assert s[k + 1] == t[j];
      }
      InsertByDistinct(s[0], t);
    }
  }

  /** The shown list: at most five names, none twice, in ascending order of
      distance, taken from the front of a stable sort of the whole table, so
      no name left out is nearer than a name shown. */
  lemma {:induction false} NearestRanking(index: Dict<string, LineDetail>, lat: real, lon: real)
    ensures var t := DistTable(Visits(index), lat, lon);
      var r := Nearest(index, lat, lon);
      t.Ok? ==> (
        var sorted := SortBy(t.value, ByDistance);
        && r.Ok? && |r.value| <= Shown && r.value == sorted[..|r.value|]
        && (|t.value| >= Shown ==> |r.value| == Shown) && (|t.value| < Shown ==> |r.value| == |t.value|)
        && UniqueKeys(r.value)
        && multiset(sorted) == multiset(t.value)
        && SortedBy(r.value, ByDistance)
        && (forall x :: Ties(sorted, x, ByDistance) == Ties(t.value, x, ByDistance))
        && (forall i, e :: 0 <= i < |r.value| && e in t.value && e !in r.value ==> r.value[i].1 <= e.1))
  {
    var t := DistTable(Visits(index), lat, lon);
    if t.Ok? {
      var sorted := SortBy(t.value, ByDistance);
      var r := Nearest(index, lat, lon).value;
      DistUnique(Visits(index), lat, lon);
      SortByPermutes(t.value, ByDistance);
      assert |sorted| == |t.value| by {
        assert |multiset(sorted)| == |multiset(t.value)|;
      }
      ByDistanceTotal();
      SortBySorted(t.value, ByDistance);
      SortByDistinct(t.value);
      forall x { SortByStable(t.value, x, ByDistance); }
      TakeNoneNearer(t.value, sorted, r);
    }
  }

  /** A front part of a sorting of `t` leaves out nothing nearer than what
      it holds. */
  lemma {:induction false} TakeNoneNearer(t: Dict<string, real>, sorted: Dict<string, real>, r: Dict<string, real>)
    requires multiset(sorted) == multiset(t) && SortedBy(sorted, ByDistance)
    requires |r| <= |sorted| && r == sorted[..|r|]
    ensures forall i, e :: 0 <= i < |r| && e in t && e !in r ==> r[i].1 <= e.1
  {
    forall i, e | 0 <= i < |r| && e in t && e !in r ensures r[i].1 <= e.1 {
      assert e in multiset(sorted);
      var k :| 0 <= k < |sorted| && sorted[k] == e;
      assert r[i] == sorted[i];
    }
  }
}
