/** The main block of 20250603/hw2_no_arrivaltime.py: routes are taken in
    table order up to the first one named with "38區"; for each, the going
    and coming stops are selected, ordered by stop number, padded to the
    same length and set side by side under a header row; the blocks are
    then laid out one after another, each followed by a blank row. */
module Hw2Tables {
  import opened Wrappers
  import opened Text
  import opened Dict
  import opened Sorting
  import opened RouteScraper

  type Pages = map<(string, Direction), seq<StopMatch>>

  /** The five columns kept for each side: all but `arrival_info`, and
      without the `direction` and `route_id` tags. */
  datatype Selected = Selected(stopNumber: string, stopName: string, stopId: string, latitude: string, longitude: string)

  function Select(rows: seq<StopRow>): (r: seq<Selected>)
    ensures |r| == |rows|
    ensures forall i :: 0 <= i < |r| ==>
      var m := rows[i].stop;
      r[i] == Selected(m.stopNumber, m.stopName, m.stopId, m.latitude, m.longitude)
  {
    if rows == [] then []
    else
      var m := rows[0].stop;
      [Selected(m.stopNumber, m.stopName, m.stopId, m.latitude, m.longitude)] + Select(rows[1..])
  }

  // ---------------------------------------------------------------------
  // Ordering by stop number
  // ---------------------------------------------------------------------

  /** Python's `a <= b` on strings: code point by code point, a proper
      prefix first. */
  predicate TextLe(a: string, b: string)
    decreases |a|
  {
    if a == [] then true
    else if b == [] then false
    else if a[0] != b[0] then a[0] < b[0]
    else TextLe(a[1..], b[1..])
  }

  /** Any two texts are comparable. */
  lemma {:induction false} TextLeTotal(a: string, b: string)
    ensures TextLe(a, b) || TextLe(b, a)
    decreases |a|
  {
    if a != [] && b != [] && a[0] == b[0] {
      TextLeTotal(a[1..], b[1..]);
    }
  }

  lemma {:induction false} TextLeTrans(a: string, b: string, c: string)
    requires TextLe(a, b) && TextLe(b, c)
    ensures TextLe(a, c)
    decreases |a|
  {
    if a != [] && b != [] && c != [] && a[0] == b[0] && b[0] == c[0] {
      TextLeTrans(a[1..], b[1..], c[1..]);
    }
  }

  predicate ByText(x: Selected, y: Selected) {
    TextLe(x.stopNumber, y.stopNumber)
  }

  /** `sort_values(by='stop_number')` as written: the column holds the
      captured digit text, so it is ordered as text. */
  function SortAsWritten(rows: seq<Selected>): seq<Selected> {
    SortBy(rows, ByText)
  }

  lemma {:induction false} ByTextTotal()
    ensures TotalPreorder(ByText)
  {
    forall x: Selected, y: Selected ensures ByText(x, y) || ByText(y, x) {
      TextLeTotal(x.stopNumber, y.stopNumber);
    }
    forall x: Selected, y: Selected, z: Selected | ByText(x, y) && ByText(y, z) ensures ByText(x, z) {
      TextLeTrans(x.stopNumber, y.stopNumber, z.stopNumber);
    }
  }

  /** The order as written still holds the same rows, ascending as text,
      with rows of equal text kept in page order. */
  lemma {:induction false} SortAsWrittenSpec(rows: seq<Selected>, x: Selected)
    ensures multiset(SortAsWritten(rows)) == multiset(rows)
    ensures |SortAsWritten(rows)| == |rows|
    ensures forall i, j :: 0 <= i < j < |rows| ==>
      TextLe(SortAsWritten(rows)[i].stopNumber, SortAsWritten(rows)[j].stopNumber)
    ensures Ties(SortAsWritten(rows), x, ByText) == Ties(rows, x, ByText)
  {
    ByTextTotal();
    SortByPermutes(rows, ByText);
    SortBySorted(rows, ByText);
    SortByStable(rows, x, ByText);
    assert |SortAsWritten(rows)| == |rows| by {
      assert |multiset(SortAsWritten(rows))| == |multiset(rows)|;
    }
  }

  /** The value of the captured digits; `\d+` only captures digits. */
  function NumberKey(s: string): nat {
    if AllDigits(s) then DigitsValue(s) else 0
  }

  predicate ByNumber(x: Selected, y: Selected) {
    NumberKey(x.stopNumber) <= NumberKey(y.stopNumber)
  }

  /** Ordering by the stop's number, as the column is meant to be read. */
  function SortByStopNumber(rows: seq<Selected>): seq<Selected> {
    SortBy(rows, ByNumber)
  }

  /** Text order puts stop 10 before stop 2. */
  lemma {:induction false} TextOrderMisplaces(a: Selected, b: Selected)
    requires a.stopNumber == NatToDigits(2) && b.stopNumber == NatToDigits(10)
    ensures SortAsWritten([a, b]) == [b, a]
    ensures NumberKey(a.stopNumber) < NumberKey(b.stopNumber)
    ensures SortByStopNumber([a, b]) == [a, b]
  {
    DigitsRoundTrip(2);
    DigitsRoundTrip(10);
    assert a.stopNumber == ['2'];
    assert NatToDigits(1) == ['1'];
    assert NatToDigits(10) == NatToDigits(1) + ['0'];
    assert b.stopNumber[0] == '1';
    assert !ByText(a, b);
    assert ByNumber(a, b);
    assert [a, b][1..] == [b] && [b][1..] == [];
    assert SortBy([b], ByText) == [b];
    assert InsertBy(a, [b], ByText) == [b] + InsertBy(a, [], ByText);
    assert SortBy([b], ByNumber) == [b];
  }

  lemma {:induction false} ByNumberTotal()
    ensures TotalPreorder(ByNumber)
  {
  }

  /** The corrected order holds the same rows, ascending by stop number,
      with rows of equal number kept in page order. */
  lemma {:induction false} SortByStopNumberSpec(rows: seq<Selected>, x: Selected)
    ensures multiset(SortByStopNumber(rows)) == multiset(rows)
    ensures |SortByStopNumber(rows)| == |rows|
    ensures forall i, j :: 0 <= i < j < |rows| ==>
      NumberKey(SortByStopNumber(rows)[i].stopNumber) <= NumberKey(SortByStopNumber(rows)[j].stopNumber)
    ensures Ties(SortByStopNumber(rows), x, ByNumber) == Ties(rows, x, ByNumber)
  {
    ByNumberTotal();
    SortByPermutes(rows, ByNumber);
    SortBySorted(rows, ByNumber);
    SortByStable(rows, x, ByNumber);
    assert |SortByStopNumber(rows)| == |rows| by {
      assert |multiset(SortByStopNumber(rows))| == |multiset(rows)|;
    }
  }

  // ---------------------------------------------------------------------
  // One route's block
  // ---------------------------------------------------------------------

  /** A cell of the output: a text, or the NaN that `reindex` puts in the
      rows it adds. */
  datatype Cell = Text(text: string) | Missing

  const SideWidth: nat := 5
  const Width: nat := 2 * SideWidth

  /** `reindex(range(n))`: the rows, then missing rows up to `n`. */
  function Pad(rows: seq<Selected>, n: nat): (r: seq<Option<Selected>>)
    requires |rows| <= n
    ensures |r| == n
    ensures forall i :: 0 <= i < |rows| ==> r[i] == Some(rows[i])
    ensures forall i :: |rows| <= i < n ==> r[i] == None
  {
    if n == |rows| then seq(|rows|, i requires 0 <= i < |rows| => Some(rows[i]))
    else Pad(rows, n - 1) + [None]
  }

  function SideCells(x: Option<Selected>): (r: seq<Cell>)
    ensures |r| == SideWidth
  {
    match x
    case None => seq(SideWidth, _ => Missing)
    case Some(s) => [Text(s.stopNumber), Text(s.stopName), Text(s.stopId), Text(s.latitude), Text(s.longitude)]
  }

  function Max(a: nat, b: nat): nat {
    if a < b then b else a
  }

  /** `pd.concat([go, come], axis=1)` after both sides are padded to the
      longer one's length. */
  function Combine(go: seq<Selected>, come: seq<Selected>): seq<seq<Cell>> {
    var n := Max(|go|, |come|);
    var g := Pad(go, n);
    var c := Pad(come, n);
    seq(n, i requires 0 <= i < n => SideCells(g[i]) + SideCells(c[i]))
  }

  /** The side-by-side table has as many rows as the longer side; row `i`
      shows the `i`th stop of each side, or missing cells past a side's
      end. */
  lemma {:induction false} CombineRows(go: seq<Selected>, come: seq<Selected>)
    ensures |Combine(go, come)| == if |go| < |come| then |come| else |go|
    ensures forall i :: 0 <= i < |Combine(go, come)| ==>
      && |Combine(go, come)[i]| == Width
      && Combine(go, come)[i][..SideWidth] == SideCells(if i < |go| then Some(go[i]) else None)
      && Combine(go, come)[i][SideWidth..] == SideCells(if i < |come| then Some(come[i]) else None)
  {
  }

  function Header(name: string, id: string): (r: seq<Cell>)
    ensures |r| == Width
  {
    [Text(name), Text(id)] + seq(Width - 2, _ => Text(""))
  }

  function Block(name: string, id: string, go: seq<Selected>, come: seq<Selected>): seq<seq<Cell>> {
    [Header(name, id)] + Combine(SortByStopNumber(go), SortByStopNumber(come))
  }

  /** A block is the header row (the route's name and id, then empty
      texts) and then one row per stop of the longer side, each side in
      stop-number order and padded with missing cells. */
  lemma {:induction false} BlockShape(name: string, id: string, go: seq<Selected>, come: seq<Selected>)
    ensures |SortByStopNumber(go)| == |go| && |SortByStopNumber(come)| == |come|
    ensures var b := Block(name, id, go, come);
      && |b| == 1 + (if |go| < |come| then |come| else |go|)
      && b[0][0] == Text(name) && b[0][1] == Text(id)
      && (forall j :: 2 <= j < Width ==> b[0][j] == Text(""))
      && forall i :: 1 <= i < |b| ==>
           && |b[i]| == Width
           && b[i][..SideWidth] == SideCells(if i - 1 < |go| then Some(SortByStopNumber(go)[i - 1]) else None)
           && b[i][SideWidth..] == SideCells(if i - 1 < |come| then Some(SortByStopNumber(come)[i - 1]) else None)
  {
    var g, c := SortByStopNumber(go), SortByStopNumber(come);
    SortByPermutes(go, ByNumber);
    SortByPermutes(come, ByNumber);
    assert |g| == |go| && |c| == |come| by {
      assert |multiset(g)| == |multiset(go)|;
      assert |multiset(c)| == |multiset(come)|;
    }
    CombineRows(g, c);
    var b := Block(name, id, go, come);
    forall i | 1 <= i < |b|
      ensures b[i] == Combine(g, c)[i - 1]
    {
    }
  }

  /** The body of the `try`: both directions fetched and parsed, going
      first; the first exception ends it. */
  function Attempt(pages: Pages, id: string, name: string): Result<seq<seq<Cell>>> {
    match FetchAndParse(pages, id, Go)
    case Err(m) => Err(m)
    case Ok(go) =>
      match FetchAndParse(pages, id, Come)
      case Err(m) => Err(m)
      case Ok(come) => Ok(Block(name, id, Select(go), Select(come)))
  }

  // ---------------------------------------------------------------------
  // The route loop
  // ---------------------------------------------------------------------

  const StopMark: string := "38區"

  /** The position of the first route named with the stop mark, or the
      number of routes when there is none. */
  function StopAt(routes: Dict<string, RouteRow>): (k: nat)
    ensures k <= |routes|
    ensures forall j :: 0 <= j < k ==> !Contains(routes[j].1.name, StopMark)
    ensures k < |routes| ==> Contains(routes[k].1.name, StopMark)
  {
    if routes == [] then 0
    else if Contains(routes[0].1.name, StopMark) then 0
    else StopAt(routes[1..]) + 1
  }

  /** The values of the successful results of `f` over `rs`, in order. */
  function Successes<R, B>(rs: seq<R>, f: R -> Result<B>): seq<B> {
    if rs == [] then []
    else Successes(rs[..|rs| - 1], f) + match f(rs[|rs| - 1]) case Err(_) => [] case Ok(b) => [b]
  }

  lemma {:induction false} SuccessesMembers<R, B>(rs: seq<R>, f: R -> Result<B>, b: B)
    ensures b in Successes(rs, f) <==> exists i :: 0 <= i < |rs| && f(rs[i]) == Ok(b)
    decreases |rs|
  {
    if rs != [] {
      var n := |rs| - 1;
      var p := rs[..n];
      SuccessesMembers(p, f, b);
      if b in Successes(p, f) {
        var i :| 0 <= i < |p| && f(p[i]) == Ok(b);
        assert rs[i] == p[i];
      }
      if exists i :: 0 <= i < |rs| && f(rs[i]) == Ok(b) {
        var i :| 0 <= i < |rs| && f(rs[i]) == Ok(b);
        if i < n {
          assert p[i] == rs[i];
        }
      }
    }
  }

  function BlockOf(pages: Pages): ((string, RouteRow)) -> Result<seq<seq<Cell>>> {
    (route: (string, RouteRow)) => Attempt(pages, route.0, route.1.name)
  }

  /** `combined_route_tables` after the routes `routes`. */
  function Blocks(pages: Pages, routes: Dict<string, RouteRow>): seq<seq<seq<Cell>>> {
    Successes(routes, BlockOf(pages))
  }

  /** The route table after the routes `routes` have been processed. */
  function Statuses(pages: Pages, table: Dict<string, RouteRow>, routes: Dict<string, RouteRow>): Dict<string, RouteRow> {
    if routes == [] then table
    else
      var (id, row) := routes[|routes| - 1];
      SetStatus(Statuses(pages, table, routes[..|routes| - 1]), id,
                if Attempt(pages, id, row.name).Ok? then Updated else Failed)
  }

  predicate Succeeds(pages: Pages, id: string) {
    FetchAndParse(pages, id, Go).Ok? && FetchAndParse(pages, id, Come).Ok?
  }

  /** A route's block is made exactly when both directions parse. */
  lemma {:induction false} AttemptSucceeds(pages: Pages, id: string, name: string)
    ensures Attempt(pages, id, name).Ok? <==> Succeeds(pages, id)
  {
  }

  /** Every block belongs to a processed route whose two directions parsed,
      and every such route has its block. */
  lemma {:induction false} BlocksMembers(pages: Pages, routes: Dict<string, RouteRow>, b: seq<seq<Cell>>)
    ensures b in Blocks(pages, routes)
        <==> exists i :: 0 <= i < |routes| && Attempt(pages, routes[i].0, routes[i].1.name) == Ok(b)
  {
    SuccessesMembers(routes, BlockOf(pages), b);
  }

  /** Every processed route that the table holds ends with status 1 when
      both directions parsed and 2 otherwise, under its own name; no other
      row changes. */
  lemma {:induction false} StatusesLookup(pages: Pages, table: Dict<string, RouteRow>, routes: Dict<string, RouteRow>, id: string)
    ensures Get(Statuses(pages, table, routes), id)
         == if id in Keys(routes) && Get(table, id).Some?
            then Some(RouteRow(Get(table, id).value.name, if Succeeds(pages, id) then Updated else Failed))
            else Get(table, id)
    decreases |routes|
  {
    if routes != [] {
      var p := routes[..|routes| - 1];
      StatusesLookup(pages, table, p, id);
      KeysInit(routes, id);
      StatusesLast(pages, table, routes, id);
    }
  }

  /** One more route marks that route's row and no other. */
  lemma {:induction false} StatusesLast(pages: Pages, table: Dict<string, RouteRow>, routes: Dict<string, RouteRow>, id: string)
    requires routes != []
    ensures var (rid, row) := routes[|routes| - 1];
      var t := Statuses(pages, table, routes[..|routes| - 1]);
      Get(Statuses(pages, table, routes), id)
      == if id == rid && Get(t, rid).Some?
         then Some(RouteRow(Get(t, rid).value.name, if Succeeds(pages, rid) then Updated else Failed))
         else Get(t, id)
  {
    var (rid, row) := routes[|routes| - 1];
    AttemptSucceeds(pages, rid, row.name);
  }

  /** The route named with the stop mark and every route after it keep
      their rows. */
  lemma {:induction false} StopLeavesRest(pages: Pages, db: Dict<string, RouteRow>, j: nat)
    requires UniqueKeys(db) && StopAt(db) <= j < |db|
    ensures Get(Statuses(pages, db, db[..StopAt(db)]), db[j].0) == Some(db[j].1)
  {
    StatusesLookup(pages, db, db[..StopAt(db)], db[j].0);
    GetItem(db, j);
  }

  // ---------------------------------------------------------------------
  // The output
  // ---------------------------------------------------------------------

  /** The blank row put after every block. */
  function Spacer(): (r: seq<Cell>)
    ensures |r| == Width
  {
    seq(Width, _ => Text(""))
  }

  /** `all_routes_output` after the loop over `tables`. */
  function Layout(tables: seq<seq<seq<Cell>>>): seq<seq<Cell>> {
    if tables == [] then []
    else Layout(tables[..|tables| - 1]) + tables[|tables| - 1] + [Spacer()]
  }

  lemma {:induction false} LayoutAppend(a: seq<seq<seq<Cell>>>, b: seq<seq<seq<Cell>>>)
    ensures Layout(a + b) == Layout(a) + Layout(b)
    decreases |b|
  {
    if b == [] {
      assert a + b == a;
    } else {
      var b' := b[..|b| - 1];
      assert (a + b)[..|a + b| - 1] == a + b';
      LayoutAppend(a, b');
    }
  }

  /** Every block appears whole, in order, followed by exactly one blank
      row, the last block included. */
  lemma {:induction false} LayoutBlock(tables: seq<seq<seq<Cell>>>, k: nat)
    requires k < |tables|
    ensures Layout(tables) == Layout(tables[..k]) + tables[k] + [Spacer()] + Layout(tables[k + 1..])
  {
    var front := tables[..k + 1];
    assert tables == front + tables[k + 1..];
    LayoutAppend(front, tables[k + 1..]);
    assert front[..k] == tables[..k] && front[k] == tables[k];
    assert Layout(front) == Layout(tables[..k]) + tables[k] + [Spacer()];
  }

  /** The file written, if any: nothing when no block was made. */
  function Output(tables: seq<seq<seq<Cell>>>): Option<seq<seq<Cell>>> {
    if tables == [] then None else Some(Layout(tables))
  }

  method Assemble(tables: seq<seq<seq<Cell>>>) returns (out: Option<seq<seq<Cell>>>)
    ensures out == Output(tables)
  {
    if tables == [] {
      return None;
    }
    var all: seq<seq<Cell>> := [];
    for i := 0 to |tables|
      invariant all == Layout(tables[..i])
    {
      assert tables[..i + 1][..i] == tables[..i];
      all := all + tables[i] + [Spacer()];
    }
    assert tables[..|tables|] == tables;
    return Some(all);
  }

  lemma {:induction false} RouteStep(pages: Pages, table: Dict<string, RouteRow>, routes: Dict<string, RouteRow>, i: nat, block: Result<seq<seq<Cell>>>)
    requires i < |routes| && block == Attempt(pages, routes[i].0, routes[i].1.name)
    ensures Blocks(pages, routes[..i + 1]) == Blocks(pages, routes[..i]) + if block.Ok? then [block.value] else []
    ensures Statuses(pages, table, routes[..i + 1])
         == SetStatus(Statuses(pages, table, routes[..i]), routes[i].0, if block.Ok? then Updated else Failed)
  {
    assert routes[..i + 1][..i] == routes[..i];
    assert BlockOf(pages)(routes[i]) == block;
  }

  /** The route loop over the rows read back from the table: it stops at
      the first route named with the stop mark; each earlier route gets its
      block and status 1 when both directions parse, status 2 otherwise. */
  method RunRoutes(rl: RouteList, pages: Pages, routes: Dict<string, RouteRow>) returns (tables: seq<seq<seq<Cell>>>)
    requires rl.Valid()
    modifies rl
    ensures rl.Valid()
    ensures tables == Blocks(pages, routes[..StopAt(routes)])
    ensures rl.table == Statuses(pages, old(rl.table), routes[..StopAt(routes)])
  {
    tables := [];
    ghost var t0 := rl.table;
    var i := 0;
    while i < |routes|
      invariant i <= StopAt(routes)
      invariant tables == Blocks(pages, routes[..i])
      invariant rl.table == Statuses(pages, t0, routes[..i])
      invariant rl.Valid()
    {
      var id := routes[i].0;
      var name := routes[i].1.name;
      if Contains(name, StopMark) {
        break;
      }
      assert i < StopAt(routes);
      var block := Attempt(pages, id, name);
      RouteStep(pages, t0, routes, i, block);
      if block.Ok? {
        tables := tables + [block.value];
        rl.SetRouteDataUpdated(id);
      } else {
        rl.SetRouteDataUnexcepted(id);
      }
      i := i + 1;
    }
  }

  /** The whole script: a route list without matches ends it with its error
      before anything is written; otherwise the parsed routes are merged
      into the table, the table is read back, the routes before the first
      one named with the stop mark are processed in table order, and the
      blocks made are laid out. */
  method RunScript(rl: RouteList, pages: Pages) returns (r: Result<Option<seq<seq<Cell>>>>)
    requires rl.Valid()
    modifies rl
    ensures rl.Valid()
    ensures r.Err? <==> ParseRouteList(old(rl.content)).Err?
    ensures r.Err? ==> rl.table == old(rl.table)
    ensures r.Ok? ==>
      var db := Merged(old(rl.table), ParseRouteList(old(rl.content)).value);
      var done := db[..StopAt(db)];
      r.value == Output(Blocks(pages, done)) && rl.table == Statuses(pages, db, done)
    ensures r.Ok? ==>
      var db := Merged(old(rl.table), ParseRouteList(old(rl.content)).value);
      UniqueKeys(db) && forall j :: StopAt(db) <= j < |db| ==> Get(rl.table, db[j].0) == Some(db[j].1)
  {
    var parsed := rl.ParseRoutes();
    if parsed.Err? {
      return Err(parsed.message);
    }
    rl.SaveToDatabase();
    var routes := rl.ReadFromDatabase();
    assert routes == Merged(old(rl.table), ParseRouteList(old(rl.content)).value);
    var tables := RunRoutes(rl, pages, routes);
    forall j | StopAt(routes) <= j < |routes|
      ensures Get(rl.table, routes[j].0) == Some(routes[j].1)
    {
      StopLeavesRest(pages, routes, j);
    }
    var out := Assemble(tables);
    return Ok(out);
  }
}
