/** The main block of 20250603/hw1.py: every route read back from the route
    table is fetched going and coming, each direction's stops are parsed,
    saved and collected with the route's name, and the route's status is
    set to 1 when both directions got through and to 2 when either raised. */
module Hw1Collect {
  import opened Wrappers
  import opened Dict
  import opened RouteScraper

  /** What the outside world did for each (route id, direction): the stop
      matches of the fetched page (a pair without an entry is one whose
      browser session raised), and the pairs whose stops the database
      refused to save. */
  datatype Outcomes = Outcomes(pages: map<(string, Direction), seq<StopMatch>>, failedSaves: set<(string, Direction)>)

  const SaveFailed: string := "the route's stops could not be saved"

  /** A collected row: the parsed stop row with the route's name added. */
  datatype Collected = Collected(row: StopRow, routeName: string)

  function Named(rows: seq<StopRow>, name: string): (r: seq<Collected>)
    ensures |r| == |rows|
    ensures forall i :: 0 <= i < |r| ==> r[i] == Collected(rows[i], name)
  {
    if rows == [] then [] else [Collected(rows[0], name)] + Named(rows[1..], name)
  }

  /** One pass of the inner loop: fetch the page, parse it, save the rows. */
  function Step(w: Outcomes, id: string, d: Direction): Result<seq<StopRow>> {
    match FetchAndParse(w.pages, id, d)
    case Err(m) => Err(m)
    case Ok(rows) => if (id, d) in w.failedSaves then Err(SaveFailed) else Ok(rows)
  }

  /** The inner loop's directions, in their order. */
  const Order: seq<Direction> := [Go, Come]

  /** The frames collected after trying the directions `ds` in turn, and
      whether none of them raised; the first exception ends the attempt. */
  function Attempt(w: Outcomes, id: string, name: string, ds: seq<Direction>): (seq<seq<Collected>>, bool) {
    if ds == [] then ([], true)
    else
      var (fs, ok) := Attempt(w, id, name, ds[..|ds| - 1]);
      if !ok then (fs, false)
      else match Step(w, id, ds[|ds| - 1])
        case Err(_) => (fs, false)
        case Ok(rows) => (fs + [Named(rows, name)], true)
  }

  /** Both directions of the route got through. */
  predicate Succeeds(w: Outcomes, id: string) {
    Step(w, id, Go).Ok? && Step(w, id, Come).Ok?
  }

  /** What one route contributes: nothing when going fails; the going
      frame alone, kept, when coming fails; going then coming otherwise.
      The route counts as done exactly when both got through. */
  lemma {:induction false} AttemptOrder(w: Outcomes, id: string, name: string)
    ensures Attempt(w, id, name, Order)
         == if Step(w, id, Go).Err? then ([], false)
            else if Step(w, id, Come).Err? then ([Named(Step(w, id, Go).value, name)], false)
            else ([Named(Step(w, id, Go).value, name), Named(Step(w, id, Come).value, name)], true)
    ensures Attempt(w, id, name, Order).1 <==> Succeeds(w, id)
  {
    var one: seq<Direction> := [Go];
    assert one[..0] == [] && one[0] == Go;
    assert Attempt(w, id, name, one[..0]) == ([], true);
    if Step(w, id, Go).Ok? {
      var g: seq<seq<Collected>> := [Named(Step(w, id, Go).value, name)];
      assert [] + g == g;
      if Step(w, id, Come).Ok? {
        assert g + [Named(Step(w, id, Come).value, name)] == [Named(Step(w, id, Go).value, name), Named(Step(w, id, Come).value, name)];
      }
    }
    assert Attempt(w, id, name, one) == if Step(w, id, Go).Err? then ([], false) else ([Named(Step(w, id, Go).value, name)], true);
    assert Order[..1] == [Go];
  }

  /** Once an exception has been raised, later directions add nothing. */
  lemma {:induction false} AttemptSticky(w: Outcomes, id: string, name: string, ds: seq<Direction>, k: nat)
    requires k <= |ds| && !Attempt(w, id, name, ds[..k]).1
    ensures Attempt(w, id, name, ds) == Attempt(w, id, name, ds[..k])
    decreases |ds|
  {
    if k < |ds| {
      var p := ds[..|ds| - 1];
      assert p[..k] == ds[..k];
      AttemptSticky(w, id, name, p, k);
    } else {
      assert ds[..k] == ds;
    }
  }

  /** `all_routes_info` after the routes `routes`. */
  function Frames(w: Outcomes, routes: Dict<string, RouteRow>): seq<seq<Collected>> {
    if routes == [] then []
    else
      var (id, row) := routes[|routes| - 1];
      Frames(w, routes[..|routes| - 1]) + Attempt(w, id, row.name, Order).0
  }

  /** The route table after the routes `routes` have been processed. */
  function Statuses(w: Outcomes, table: Dict<string, RouteRow>, routes: Dict<string, RouteRow>): Dict<string, RouteRow> {
    if routes == [] then table
    else
      var (id, row) := routes[|routes| - 1];
      var t := Statuses(w, table, routes[..|routes| - 1]);
      SetStatus(t, id, if Attempt(w, id, row.name, Order).1 then Updated else Failed)
  }

  /** Every processed route that the table holds ends with status 1 when
      both directions got through and 2 otherwise, under its own name; no
      other row changes. */
  lemma {:induction false} StatusesLookup(w: Outcomes, table: Dict<string, RouteRow>, routes: Dict<string, RouteRow>, id: string)
    ensures Get(Statuses(w, table, routes), id)
         == if id in Keys(routes) && Get(table, id).Some?
            then Some(RouteRow(Get(table, id).value.name, if Succeeds(w, id) then Updated else Failed))
            else Get(table, id)
    decreases |routes|
  {
    if routes != [] {
      var p := routes[..|routes| - 1];
      var (i, row) := routes[|routes| - 1];
      StatusesLookup(w, table, p, id);
      AttemptOrder(w, i, row.name);
      KeysInit(routes, id);
    }
  }

  /** The rows of a successful step are the page's stops, all of them and
      in page order, tagged with the route id and the direction's text. */
  lemma {:induction false} StepRows(w: Outcomes, id: string, d: Direction)
    ensures Step(w, id, d).Ok? ==>
      && (id, d) in w.pages
      && forall r :: r in Step(w, id, d).value ==> r.routeId == id && r.direction == DirectionText(d) && r.stop in w.pages[(id, d)]
    ensures Step(w, id, d).Ok? ==>
      && (id, d) in w.pages
      && |Step(w, id, d).value| == |w.pages[(id, d)]|
      && forall i :: 0 <= i < |Step(w, id, d).value| ==> Step(w, id, d).value[i].stop == w.pages[(id, d)][i]
  {
    if (id, d) in w.pages {
      ParseRouteInfoRows(RouteInfo(id, d), w.pages[(id, d)]);
    }
  }

  /** Every row one route contributes carries its id, its name and one of
      the two direction texts. */
  lemma {:induction false} AttemptTagged(w: Outcomes, id: string, name: string)
    ensures forall f, c :: f in Attempt(w, id, name, Order).0 && c in f ==>
      c.row.routeId == id && c.routeName == name && (c.row.direction == "go" || c.row.direction == "come")
  {
    StepRows(w, id, Go);
    StepRows(w, id, Come);
    AttemptOrder(w, id, name);
    forall f, c | f in Attempt(w, id, name, Order).0 && c in f
      ensures c.row.routeId == id && c.routeName == name && (c.row.direction == "go" || c.row.direction == "come")
    {
      var k :| 0 <= k < |f| && f[k] == c;
      var d := if Step(w, id, Go).Ok? && f == Named(Step(w, id, Go).value, name) then Go else Come;
      var rows := Step(w, id, d).value;
      assert f == Named(rows, name);
      assert c == Collected(rows[k], name) && rows[k] in rows;
    }
  }

  /** Every collected row carries the id, name and one of the two
      direction texts of a route that was processed. */
  lemma {:induction false} FramesTagged(w: Outcomes, routes: Dict<string, RouteRow>)
    ensures forall f, c :: f in Frames(w, routes) && c in f ==>
      && (exists i :: 0 <= i < |routes| && c.row.routeId == routes[i].0 && c.routeName == routes[i].1.name)
      && (c.row.direction == "go" || c.row.direction == "come")
    decreases |routes|
  {
    if routes != [] {
      var p := routes[..|routes| - 1];
      var n := |routes| - 1;
      var (id, row) := routes[n];
      FramesTagged(w, p);
      AttemptTagged(w, id, row.name);
      forall f, c | f in Frames(w, routes) && c in f
        ensures exists i :: 0 <= i < |routes| && c.row.routeId == routes[i].0 && c.routeName == routes[i].1.name
        ensures c.row.direction == "go" || c.row.direction == "come"
      {
        if f in Frames(w, p) {
          var i :| 0 <= i < |p| && c.row.routeId == p[i].0 && c.routeName == p[i].1.name;
          assert routes[i] == p[i];
        } else {
          assert c.row.routeId == routes[n].0 && c.routeName == routes[n].1.name;
        }
      }
    }
  }

  lemma {:induction false} RouteStep(w: Outcomes, table: Dict<string, RouteRow>, routes: Dict<string, RouteRow>, i: nat)
    requires i < |routes|
    ensures Frames(w, routes[..i + 1]) == Frames(w, routes[..i]) + Attempt(w, routes[i].0, routes[i].1.name, Order).0
    ensures Statuses(w, table, routes[..i + 1])
         == SetStatus(Statuses(w, table, routes[..i]), routes[i].0,
                      if Attempt(w, routes[i].0, routes[i].1.name, Order).1 then Updated else Failed)
  {
    assert routes[..i + 1][..i] == routes[..i];
  }

  /** The whole script over the route-list page `rl.content` and the table
      the database file held: a route list without matches ends the script
      with its error before anything is written; otherwise the parsed
      routes are merged into the table, the table is read back, and every
      route in it is processed in table order. */
  method RunScript(rl: RouteList, w: Outcomes) returns (r: Result<seq<seq<Collected>>>)
    requires rl.Valid()
    modifies rl
    ensures rl.Valid()
    ensures r.Err? <==> ParseRouteList(old(rl.content)).Err?
    ensures r.Err? ==> rl.table == old(rl.table)
    ensures r.Ok? ==>
      var db := Merged(old(rl.table), ParseRouteList(old(rl.content)).value);
      r.value == Frames(w, db) && rl.table == Statuses(w, db, db)
  {
    var parsed := rl.ParseRoutes();
    if parsed.Err? {
      return Err(parsed.message);
    }
    rl.SaveToDatabase();
    var routes := rl.ReadFromDatabase();
    assert routes == Merged(old(rl.table), ParseRouteList(old(rl.content)).value);
    var all: seq<seq<Collected>> := [];
    for i := 0 to |routes|
      invariant all == Frames(w, routes[..i])
      invariant rl.table == Statuses(w, routes, routes[..i])
      invariant rl.Valid()
    {
      var id := routes[i].0;
      var name := routes[i].1.name;
      var fs, ok := Process(w, id, name);
      RouteStep(w, routes, routes, i);
      all := all + fs;
      if ok {
        rl.SetRouteDataUpdated(id);
      } else {
        rl.SetRouteDataUnexcepted(id);
      }
    }
    assert routes[..|routes|] == routes;
    return Ok(all);
  }

  /** The body of the route loop: `go` then `come`, each fetched, parsed,
      saved and collected, until the first exception. */
  method Process(w: Outcomes, id: string, name: string) returns (fs: seq<seq<Collected>>, ok: bool)
    ensures (fs, ok) == Attempt(w, id, name, Order)
  {
    fs := [];
    ok := true;
    var k := 0;
    while k < |Order| && ok
      invariant 0 <= k <= |Order|
      invariant (fs, ok) == Attempt(w, id, name, Order[..k])
      decreases |Order| - k
    {
      assert Order[..k + 1][..k] == Order[..k];
      var step := Step(w, id, Order[k]);
      if step.Err? {
        ok := false;
      } else {
        fs := fs + [Named(step.value, name)];
      }
      k := k + 1;
    }
    if ok {
      assert Order[..k] == Order;
    } else {
      AttemptSticky(w, id, name, Order, k);
    }
  }
}
