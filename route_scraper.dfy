/** The route-list and route-info scrapers of the 2025-06-03 exercises
    (20250603/hw1.py and 20250603/hw2_no_arrivaltime.py hold identical
    copies): extracting routes and stops from the portal's HTML, and the
    route table with its `route_data_updated` status column. */
module RouteScraper {
  import opened Wrappers
  import opened Text
  import opened Dict

  // ---------------------------------------------------------------------
  // Finding a delimiter
  // ---------------------------------------------------------------------

  /** The position of the first occurrence of `pat` in `s`. */
  function Find(s: string, pat: string): (r: Option<nat>)
    requires |pat| > 0
    ensures r.Some? ==> r.value + |pat| <= |s|
    decreases |s|
  {
    if |s| < |pat| then None
    else if s[..|pat|] == pat then Some(0)
    else match Find(s[1..], pat)
      case None => None
      case Some(i) => Some(i + 1)
  }

  /** `Find` reports an occurrence, and `None` only when there is none. */
  lemma {:induction false} FindSpec(s: string, pat: string)
    requires |pat| > 0
    ensures Find(s, pat).Some? ==> s[Find(s, pat).value..Find(s, pat).value + |pat|] == pat
    ensures Find(s, pat).None? <==> !Contains(s, pat)
    decreases |s|
  {
    if |s| < |pat| {
      ShortNotContains(s, pat);
    } else if s[..|pat|] != pat {
      FindSpec(s[1..], pat);
      if Find(s, pat).Some? {
        var i := Find(s[1..], pat).value;
        var a, b := s[i + 1..i + 1 + |pat|], s[1..][i..i + |pat|];
        assert a == b by {
          forall j | 0 <= j < |pat| ensures a[j] == b[j] {
            assert s[1..][i + j] == s[i + 1 + j];
          }
        }
      }
    }
  }

  /** The occurrence `Find` reports is the first: no earlier position
      starts with `pat`, which is how a lazy `.*?` ends its match. */
  lemma {:induction false} FindFirst(s: string, pat: string)
    requires |pat| > 0 && Find(s, pat).Some?
    ensures forall j :: 0 <= j < Find(s, pat).value ==> !IsPrefix(pat, s[j..])
    decreases |s|
  {
    if s[..|pat|] != pat {
      FindFirst(s[1..], pat);
      forall j | 0 <= j < Find(s, pat).value ensures !IsPrefix(pat, s[j..]) {
        if j > 0 {
          assert s[j..] == s[1..][j - 1..];
        }
      }
    }
  }

  /** In `u + pat + v`, a borderless `pat` absent from `u` is first found
      right after `u`. */
  lemma {:induction false} FindAfter(u: string, pat: string, v: string)
    requires |pat| > 0 && Borderless(pat) && !Contains(u, pat)
    ensures Find(u + pat + v, pat) == Some(|u|)
    decreases |u|
  {
    var s := u + pat + v;
    if u == [] {
      assert s[..|pat|] == pat;
    } else {
      NotLeading(u, pat);
      assert s[..|pat|] == (u + pat)[..|pat|];
      assert s[1..] == u[1..] + pat + v;
      FindAfter(u[1..], pat, v);
    }
  }

  // ---------------------------------------------------------------------
  // parse_route_list
  // ---------------------------------------------------------------------

  const ListOpen: string := "<li><a href=\"javascript:go('"
  const IdClose: string := "')\">"
  const ItemClose: string := "</a></li>"
  const NoRoutes: string := "No data found for route table"

  /** A lazy `open(.*?)mid(.*?)close` match at the front of `s`, with
      DOTALL: `open`, then the first `mid` after it, then the first `close`
      after that. It gives the two groups and the length of the match. */
  function MatchAt(s: string, open: string, mid: string, close: string): (m: Option<(string, string, nat)>)
    requires |mid| > 0 && |close| > 0
    ensures m.Some? ==> 0 < m.value.2 <= |s|
  {
    if !IsPrefix(open, s) then None
    else
      var rest := s[|open|..];
      match Find(rest, mid)
      case None => None
      case Some(q) =>
        var after := rest[q + |mid|..];
        match Find(after, close)
        case None => None
        case Some(r) => Some((rest[..q], after[..r], |open| + q + |mid| + r + |close|))
  }

  /** `findall`: at each position a match is taken and the scan resumes
      after it, or the scan moves one character on. */
  function ScanFor(s: string, open: string, mid: string, close: string): seq<(string, string)>
    requires |mid| > 0 && |close| > 0
    decreases |s|
  {
    if s == [] then []
    else
      var m := MatchAt(s, open, mid, close);
      if m.None? then ScanFor(s[1..], open, mid, close)
      else [(m.value.0, m.value.1)] + ScanFor(s[m.value.2..], open, mid, close)
  }

  /** `re.findall` of `<li><a href="javascript:go\('(.*?)'\)">(.*?)</a></li>`. */
  function Scan(s: string): seq<(string, string)> {
    ScanFor(s, ListOpen, IdClose, ItemClose)
  }

  /** The list item the portal writes for a route. */
  function Entry(id: string, name: string): string {
    ListOpen + id + IdClose + name + ItemClose
  }

  function Page(routes: seq<(string, string)>): string {
    if routes == [] then [] else Entry(routes[0].0, routes[0].1) + Page(routes[1..])
  }

  /** An id without `')">` and a name without `</a></li>` survive the
      round trip through the page. */
  predicate WellFormed(routes: seq<(string, string)>) {
    forall i :: 0 <= i < |routes| ==> !Contains(routes[i].0, IdClose) && !Contains(routes[i].1, ItemClose)
  }

  lemma {:induction false} DelimitersBorderless()
    ensures Borderless(IdClose) && Borderless(ItemClose)
  {
    var p := IdClose;
    forall k | 0 < k < |p| ensures p[k..] != p[..|p| - k] {
      assert p[k..][|p| - k - 1] == '>';
      if k == 1 { assert p[..|p| - k][2] == '"'; }
      else if k == 2 { assert p[..|p| - k][1] == ')'; }
      else { assert p[..|p| - k][0] == '\''; }
    }
    var q := ItemClose;
    forall k | 0 < k < |q| ensures q[k..] != q[..|q| - k] {
      if k == 5 {
        assert q[k..][0] == '/' && q[..|q| - k][0] == '<';
      } else {
        assert q[k..][|q| - k - 1] == '>';
        assert q[..|q| - k][|q| - k - 1] == q[|q| - k - 1];
      }
    }
  }

  lemma {:induction false} PrefixOf(p: string, t: string)
    ensures IsPrefix(p, p + t) && (p + t)[|p|..] == t
  {
    assert (p + t)[..|p|] == p;
  }

  /** The scanner takes a well-formed entry at the front of the text as one
      match and resumes right after it. */
  lemma {:induction false} ScanEntry(id: string, name: string, tail: string)
    requires !Contains(id, IdClose) && !Contains(name, ItemClose)
    ensures Scan(Entry(id, name) + tail) == [(id, name)] + Scan(tail)
  {
    DelimitersBorderless();
    ScanEntryFor(ListOpen, IdClose, ItemClose, id, name, tail);
  }

  lemma {:induction false} ScanEntryFor(open: string, mid: string, close: string, id: string, name: string, tail: string)
    requires |mid| > 0 && |close| > 0 && Borderless(mid) && Borderless(close)
    requires !Contains(id, mid) && !Contains(name, close)
    ensures ScanFor(open + id + mid + name + close + tail, open, mid, close)
         == [(id, name)] + ScanFor(tail, open, mid, close)
  {
    var s := open + id + mid + name + close + tail;
    var k := |open| + |id| + |mid| + |name| + |close|;
    assert s == open + (id + (mid + (name + (close + tail))));
    EntryMatch(open, mid, close, id, name, tail);
    assert s[k..] == tail by {
      assert s == (open + id + mid + name + close) + tail;
    }
  }

  /** A well-formed entry is one match: its two groups are the id and the
      name, and it ends where the tail begins. */
  lemma {:induction false} EntryMatch(open: string, mid: string, close: string, id: string, name: string, tail: string)
    requires |mid| > 0 && |close| > 0 && Borderless(mid) && Borderless(close)
    requires !Contains(id, mid) && !Contains(name, close)
    ensures MatchAt(open + (id + (mid + (name + (close + tail)))), open, mid, close)
         == Some((id, name, |open| + |id| + |mid| + |name| + |close|))
  {
    var after := name + (close + tail);
    var rest := id + (mid + after);
    PrefixOf(open, rest);
    FindSplit(id, mid, after);
    FindSplit(name, close, tail);
    MatchParts(open + rest, open, mid, close, rest, after, id, name, tail);
  }

  /** `MatchAt` in terms of the pieces its two searches cut the text into. */
  lemma {:induction false} MatchParts(s: string, open: string, mid: string, close: string,
                                      rest: string, after: string, id: string, name: string, tail: string)
    requires |mid| > 0 && |close| > 0
    requires IsPrefix(open, s) && s[|open|..] == rest
    requires Find(rest, mid) == Some(|id|) && rest[..|id|] == id && rest[|id| + |mid|..] == after
    requires Find(after, close) == Some(|name|) && after[..|name|] == name && after[|name| + |close|..] == tail
    ensures MatchAt(s, open, mid, close) == Some((id, name, |open| + |id| + |mid| + |name| + |close|))
  {
    MatchAtSome(s, open, mid, close, |id|, |name|);
  }

  /** The first occurrence of a borderless `pat` in `u + pat + v`, where `u`
      does not hold it, splits the text back into `u` and `v`. */
  lemma {:induction false} FindSplit(u: string, pat: string, v: string)
    requires |pat| > 0 && Borderless(pat) && !Contains(u, pat)
    ensures Find(u + (pat + v), pat) == Some(|u|)
    ensures (u + (pat + v))[..|u|] == u && (u + (pat + v))[|u| + |pat|..] == v
  {
    assert u + (pat + v) == u + pat + v;
    FindAfter(u, pat, v);
  }

  lemma {:induction false} MatchAtSome(s: string, open: string, mid: string, close: string, q: nat, r: nat)
    requires |mid| > 0 && |close| > 0 && IsPrefix(open, s)
    requires Find(s[|open|..], mid) == Some(q)
    requires Find(s[|open|..][q + |mid|..], close) == Some(r)
    ensures MatchAt(s, open, mid, close)
         == Some((s[|open|..][..q], s[|open|..][q + |mid|..][..r], |open| + q + |mid| + r + |close|))
  {
  }

  /** The scanner reads back exactly the routes of a page made of
      well-formed entries, in document order. */
  lemma {:induction false} ScanPage(routes: seq<(string, string)>)
    requires WellFormed(routes)
    ensures Scan(Page(routes)) == routes
    decreases |routes|
  {
    if routes != [] {
      ScanEntry(routes[0].0, routes[0].1, Page(routes[1..]));
      assert WellFormed(routes[1..]) by {
        forall i | 0 <= i < |routes[1..]| ensures !Contains(routes[1..][i].0, IdClose) && !Contains(routes[1..][i].1, ItemClose) {
          assert routes[1..][i] == routes[i + 1];
        }
      }
      ScanPage(routes[1..]);
    }
  }

  function StripNames(matches: seq<(string, string)>): (r: seq<(string, string)>)
    ensures |r| == |matches|
    ensures forall i :: 0 <= i < |r| ==> r[i] == (matches[i].0, Strip(matches[i].1))
  {
    if matches == [] then [] else [(matches[0].0, Strip(matches[0].1))] + StripNames(matches[1..])
  }

  /** `parse_route_list`: `(route_id, route_name.strip())` per match, or the
      ValueError when nothing matches. */
  function ParseRouteList(content: string): (r: Result<seq<(string, string)>>)
    ensures r.Err? <==> Scan(content) == []
    ensures r.Err? ==> r.message == NoRoutes
    ensures r.Ok? ==> r.value == StripNames(Scan(content))
  {
    var matches := Scan(content);
    if matches == [] then Err(NoRoutes) else Ok(StripNames(matches))
  }

  /** A page of well-formed entries parses to its routes with stripped
      names; a page without entries raises. */
  lemma {:induction false} ParseRouteListPage(routes: seq<(string, string)>)
    requires WellFormed(routes)
    ensures ParseRouteList(Page(routes)) == if routes == [] then Err(NoRoutes) else Ok(StripNames(routes))
  {
    ScanPage(routes);
  }

  // ---------------------------------------------------------------------
  // taipei_route_info
  // ---------------------------------------------------------------------

  datatype Direction = Go | Come

  function DirectionText(d: Direction): string {
    match d
    case Go => "go"
    case Come => "come"
  }

  const BadDirection: string := "Direction must be 'go' or 'come'"

  /** The constructor's check, made before anything is fetched. */
  function ParseDirection(s: string): Result<Direction> {
    if s == "go" then Ok(Go)
    else if s == "come" then Ok(Come)
    else Err(BadDirection)
  }

  /** Exactly the texts `go` and `come` are accepted, each naming its own
      direction. */
  lemma {:induction false} ParseDirectionExact(s: string, d: Direction)
    ensures ParseDirection(s) == Ok(d) <==> s == DirectionText(d)
    ensures ParseDirection(s).Err? <==> s != "go" && s != "come"
  {
  }

  /** The six groups of one stop match of `parse_route_info`'s pattern. */
  datatype StopMatch = StopMatch(
    arrivalInfo: string, stopNumber: string, stopName: string,
    stopId: string, latitude: string, longitude: string)

  /** One row of the returned frame: the match, tagged. */
  datatype StopRow = StopRow(stop: StopMatch, direction: string, routeId: string)

  /** `taipei_route_info(route_id, direction)` once constructed. */
  datatype RouteInfo = RouteInfo(routeId: string, direction: Direction)

  /** The constructor: a bad direction raises before any fetch. */
  function NewRouteInfo(routeId: string, direction: string): (r: Result<RouteInfo>)
    ensures r.Ok? <==> direction == "go" || direction == "come"
    ensures r.Ok? ==> r.value.routeId == routeId && DirectionText(r.value.direction) == direction
  {
    match ParseDirection(direction)
    case Err(m) => Err(m)
    case Ok(d) => Ok(RouteInfo(routeId, d))
  }

  function NoStops(info: RouteInfo): string {
    "No data found for route ID " + info.routeId + " direction " + DirectionText(info.direction)
  }

  function Tag(matches: seq<StopMatch>, info: RouteInfo): seq<StopRow> {
    if matches == [] then []
    else [StopRow(matches[0], DirectionText(info.direction), info.routeId)] + Tag(matches[1..], info)
  }

  /** `parse_route_info` at the level of records: one row per match, in
      order, each carrying the route's direction and id; no match raises. */
  function ParseRouteInfo(info: RouteInfo, matches: seq<StopMatch>): Result<seq<StopRow>> {
    if matches == [] then Err(NoStops(info)) else Ok(Tag(matches, info))
  }

  const FetchFailed: string := "the route page could not be fetched"

  /** Constructing `taipei_route_info(route_id, direction)` and parsing its
      page. `pages` holds the stop matches of every page the browser
      fetched; a pair without an entry stands for a browser session that
      raised. */
  function FetchAndParse(pages: map<(string, Direction), seq<StopMatch>>, id: string, d: Direction): Result<seq<StopRow>> {
    if (id, d) !in pages then Err(FetchFailed) else ParseRouteInfo(RouteInfo(id, d), pages[(id, d)])
  }

  lemma {:induction false} TagRows(matches: seq<StopMatch>, info: RouteInfo)
    ensures |Tag(matches, info)| == |matches|
    ensures forall i :: 0 <= i < |matches| ==>
      Tag(matches, info)[i] == StopRow(matches[i], DirectionText(info.direction), info.routeId)
  {
    if matches != [] {
      TagRows(matches[1..], info);
    }
  }

  lemma {:induction false} ParseRouteInfoRows(info: RouteInfo, matches: seq<StopMatch>)
    ensures ParseRouteInfo(info, matches).Err? <==> matches == []
    ensures ParseRouteInfo(info, matches).Ok? ==>
      var rows := ParseRouteInfo(info, matches).value;
      && |rows| == |matches|
      && forall i :: 0 <= i < |rows| ==>
           rows[i].stop == matches[i] && rows[i].direction == DirectionText(info.direction)
           && rows[i].routeId == info.routeId
  {
    TagRows(matches, info);
  }

  // ---------------------------------------------------------------------
  // The route table
  // ---------------------------------------------------------------------

  const Fresh: int := 0
  const Updated: int := 1
  const Failed: int := 2

  /** A row of `data_route_list`. */
  datatype RouteRow = RouteRow(name: string, status: int)

  /** `session.merge` of each parsed route: a new id gets the column default
      0, a known id takes the new name and keeps its status. */
  function Merged(table: Dict<string, RouteRow>, frame: seq<(string, string)>): Dict<string, RouteRow> {
    if frame == [] then table
    else
      var t := Merged(table, frame[..|frame| - 1]);
      var (id, name) := frame[|frame| - 1];
      Put(t, id, RouteRow(name, match Get(t, id) case None => Fresh case Some(row) => row.status))
  }

  /** After merging, every parsed id is present with the name of its last
      occurrence; ids seen before keep their status, new ids start at 0, and
      ids not parsed are untouched. */
  lemma {:induction false} MergedLookup(table: Dict<string, RouteRow>, frame: seq<(string, string)>, id: string)
    ensures Get(Merged(table, frame), id)
         == if id !in FrameIds(frame) then Get(table, id)
            else Some(RouteRow(LastName(frame, id), match Get(table, id) case None => Fresh case Some(row) => row.status))
    decreases |frame|
  {
    if frame != [] {
      var p := frame[..|frame| - 1];
      MergedLookup(table, p, id);
      var t := Merged(table, p);
      var (i, n) := frame[|frame| - 1];
      PutGet(t, i, RouteRow(n, match Get(t, i) case None => Fresh case Some(row) => row.status), id);
      MergedLookup(table, p, i);
    }
  }

  /** Merging keeps the table's primary key: each id appears in at most one
      row. */
  lemma {:induction false} MergedUnique(table: Dict<string, RouteRow>, frame: seq<(string, string)>)
    requires UniqueKeys(table)
    ensures UniqueKeys(Merged(table, frame))
    decreases |frame|
  {
    if frame != [] {
      var t := Merged(table, frame[..|frame| - 1]);
      MergedUnique(table, frame[..|frame| - 1]);
      var (id, name) := frame[|frame| - 1];
      PutUnique(t, id, RouteRow(name, match Get(t, id) case None => Fresh case Some(row) => row.status));
    }
  }

  function FrameIds(frame: seq<(string, string)>): (r: seq<string>)
    ensures |r| == |frame| && forall i :: 0 <= i < |frame| ==> r[i] == frame[i].0
  {
    if frame == [] then [] else FrameIds(frame[..|frame| - 1]) + [frame[|frame| - 1].0]
  }

  /** The name the last occurrence of `id` carries. */
  function LastName(frame: seq<(string, string)>, id: string): string
    requires id in FrameIds(frame)
  {
    if frame[|frame| - 1].0 == id then frame[|frame| - 1].1 else LastName(frame[..|frame| - 1], id)
  }

  /** Setting the status of `id`: an UPDATE that matches no row changes
      nothing. */
  function SetStatus(table: Dict<string, RouteRow>, id: string, status: int): (t: Dict<string, RouteRow>)
    ensures forall k :: Get(t, k) == if k == id && Get(table, id).Some?
                                     then Some(RouteRow(Get(table, id).value.name, status))
                                     else Get(table, k)
    ensures Keys(t) == Keys(table)
  {
    match Get(table, id)
    case None => table
    case Some(row) =>
      forall k ensures Get(Put(table, id, RouteRow(row.name, status)), k)
                    == if k == id then Some(RouteRow(row.name, status)) else Get(table, k) {
        PutGet(table, id, RouteRow(row.name, status), k);
      }
      PutKeys(table, id, RouteRow(row.name, status));
      Put(table, id, RouteRow(row.name, status))
  }

  /** Setting a status keeps each id in at most one row. */
  lemma {:induction false} SetStatusUnique(table: Dict<string, RouteRow>, id: string, status: int)
    requires UniqueKeys(table)
    ensures UniqueKeys(SetStatus(table, id, status))
  {
    if Get(table, id).Some? {
      PutUnique(table, id, RouteRow(Get(table, id).value.name, status));
    }
  }

  /** `taipei_route_list`: the fetched page, the last parsed frame and the
      `data_route_list` table, read back in insertion order. */
  class RouteList {
    var content: string
    var frame: seq<(string, string)>
    var table: Dict<string, RouteRow>

    /** `id` is the table's primary key. */
    ghost predicate Valid()
      reads this
    {
      UniqueKeys(table)
    }

    /** Opens the list on a fetched page and the table as the database
        file already holds it. */
    constructor (content: string, stored: Dict<string, RouteRow>)
      requires UniqueKeys(stored)
      ensures Valid()
      ensures this.content == content && frame == [] && table == stored
    {
      this.content := content;
      frame := [];
      table := stored;
    }

    method ParseRoutes() returns (r: Result<seq<(string, string)>>)
      requires Valid()
      modifies this
      ensures Valid()
      ensures r == ParseRouteList(content)
      ensures frame == if r.Ok? then r.value else old(frame)
      ensures content == old(content) && table == old(table)
    {
      r := ParseRouteList(content);
      if r.Ok? {
        frame := r.value;
      }
    }

    method SaveToDatabase()
      requires Valid()
      modifies this
      ensures Valid()
      ensures table == Merged(old(table), frame)
      ensures content == old(content) && frame == old(frame)
    {
      var i := 0;
      while i < |frame|
        invariant 0 <= i <= |frame|
        invariant table == Merged(old(table), frame[..i])
        invariant content == old(content) && frame == old(frame)
      {
        assert frame[..i + 1][..i] == frame[..i];
        var (id, name) := frame[i];
        var status := match Get(table, id) case None => Fresh case Some(row) => row.status;
        table := Put(table, id, RouteRow(name, status));
        i := i + 1;
      }
      assert frame[..i] == frame;
      MergedUnique(old(table), frame);
    }

    method SetRouteDataUpdated(id: string, status: int := Updated)
      requires Valid()
      modifies this
      ensures Valid()
      ensures table == SetStatus(old(table), id, status)
      ensures content == old(content) && frame == old(frame)
    {
      SetStatusUnique(table, id, status);
      table := SetStatus(table, id, status);
    }

    method SetRouteDataUnexcepted(id: string)
      requires Valid()
      modifies this
      ensures Valid()
      ensures table == SetStatus(old(table), id, Failed)
      ensures content == old(content) && frame == old(frame)
    {
      SetStatusUnique(table, id, Failed);
      table := SetStatus(table, id, Failed);
    }

    method ReadFromDatabase() returns (rows: Dict<string, RouteRow>)
      requires Valid()
      ensures rows == table && UniqueKeys(rows)
    {
      rows := table;
    }
  }
}
