/** The in-memory index of the final report's bus query system
    (report/main.py): the line-name to route-id table `all_bus_line` and the
    per-line stop tables `all_bus_line_detail`, one table per direction,
    filled from what the scraper extracts from the e-bus portal. */
module StopIndex {
  import opened Wrappers
  import opened Text
  import opened Dict

  // ---------------------------------------------------------------------
  // Scraped input
  // ---------------------------------------------------------------------

  /** One stop `<li>` of a route page as extracted: the texts of its place,
      number and position spans (not yet stripped) and the `value`
      attributes of its latitude and longitude inputs. */
  datatype StopRecord = StopRecord(
    place: string, number: string, position: string, latitude: string, longitude: string)

  /** What the index keeps per stop key. */
  datatype StopInfo = StopInfo(
    stopNumber: string, stopStatus: string, stopLatitude: string, stopLongitude: string)

  /** The stops of one direction of one line, keyed `name_0` / `name_1`. */
  type StopMap = Dict<string, StopInfo>

  /** `[bus_stops_0, bus_stops_1]`: outbound (去程) and inbound (返程). */
  datatype LineDetail = LineDetail(outbound: StopMap, inbound: StopMap)

  /** A route page as the browser served it: the outbound stop records and,
      when the 返程 tab could be clicked, the inbound ones. */
  datatype RoutePage = RoutePage(outbound: seq<StopRecord>, inbound: Option<seq<StopRecord>>)

  /** One `<li>` of a `busline` section: its `<a>`, if it has one. */
  datatype Anchor = Anchor(text: string, href: string)

  function NameOf(r: StopRecord): string { Strip(r.place) }

  function InfoOf(r: StopRecord): StopInfo {
    StopInfo(Strip(r.number), Strip(r.position), r.latitude, r.longitude)
  }

  // ---------------------------------------------------------------------
  // Route ids
  // ---------------------------------------------------------------------

  const GoPrefix: string := "javascript:go('"
  const GoSuffix: string := "')"

  /** `href.replace("javascript:go('", "").replace("')", "")`. */
  function RouteIdOf(href: string): string {
    ReplaceAll(ReplaceAll(href, GoPrefix, ""), GoSuffix, "")
  }

  /** The id is recovered from the link the portal writes for it, as long as
      the link's opening text does not occur in `id + "')"` and `')` does
      not occur in `id`. */
  lemma {:induction false} RouteIdRoundTrip(id: string)
    requires !Contains(id + GoSuffix, GoPrefix) && !Contains(id, GoSuffix)
    ensures RouteIdOf(GoPrefix + id + GoSuffix) == id
  {
    var link := GoPrefix + id + GoSuffix;
    assert link == GoPrefix + (id + GoSuffix);
    ReplaceLeading(GoPrefix, id + GoSuffix, "");
    ReplaceAbsent(id + GoSuffix, GoPrefix, "");
    assert ReplaceAll(link, GoPrefix, "") == id + GoSuffix;
    assert Borderless(GoSuffix) by {
      assert GoSuffix[1..] == [')'] && GoSuffix[..1] == ['\''];
    }
    ReplaceTrailing(id, GoSuffix, "");
    assert id + "" == id;
  }

  /** The first `')` cannot be made a precondition of its own: an id that
      contains neither `javascript:go('` nor `')` can still be mangled, since
      its tail and the closing quote complete a second `javascript:go('`. */
  lemma {:induction false} RouteIdMangled()
    ensures exists id ::
              && !Contains(id, GoPrefix) && !Contains(id, GoSuffix)
              && RouteIdOf(GoPrefix + id + GoSuffix) != id
  {
    MangledAt("javascript:go(");
  }

  lemma {:induction false} MangledAt(id: string)
    requires id == GoPrefix[..|GoPrefix| - 1]
    ensures !Contains(id, GoPrefix) && !Contains(id, GoSuffix)
    ensures RouteIdOf(GoPrefix + id + GoSuffix) == ")"
  {
    ShortNotContains(id, GoPrefix);
    NoCloseParen(id);
    var link := GoPrefix + id + GoSuffix;
    assert link == GoPrefix + (GoPrefix + ")");
    ReplaceLeading(GoPrefix, GoPrefix + ")", "");
    ReplaceLeading(GoPrefix, ")", "");
    ShortReplace(")", GoPrefix);
    assert ReplaceAll(link, GoPrefix, "") == ")";
    ShortReplace(")", GoSuffix);
  }

  lemma {:induction false} ShortReplace(s: string, pat: string)
    requires 0 < |s| < |pat|
    ensures ReplaceAll(s, pat, "") == s
  {
  }

  /** A string without `)` cannot contain `')`. */
  lemma {:induction false} NoCloseParen(t: string)
    requires forall i :: 0 <= i < |t| ==> t[i] != ')'
    ensures !Contains(t, GoSuffix)
    decreases |t|
  {
    if |t| >= 2 { assert t[..2][1] != ')'; }
    if t != [] { NoCloseParen(t[1..]); }
  }

  /** `all_bus_line` after `get_all_bus_line` has read `items` (in document
      order) into `d`. */
  function BusLinesOf(d: Dict<string, string>, items: seq<Option<Anchor>>): Dict<string, string>
    decreases |items|
  {
    if items == [] then d
    else
      var prev := BusLinesOf(d, items[..|items| - 1]);
      match items[|items| - 1]
      case None => prev
      case Some(a) => Put(prev, Strip(a.text), RouteIdOf(a.href))
  }

  /** Reading one more item of `items` puts that item's link, if any. */
  lemma BusLinesPrefix(d: Dict<string, string>, items: seq<Option<Anchor>>, i: nat)
    requires i < |items|
    ensures BusLinesOf(d, items[..i + 1])
         == match items[i]
            case None => BusLinesOf(d, items[..i])
            case Some(a) => Put(BusLinesOf(d, items[..i]), Strip(a.text), RouteIdOf(a.href))
  {
    assert items[..i + 1][..i] == items[..i];
  }

  /** The loop of `get_all_bus_line`: each `<li>` with a link sets the
      stripped link text to the route id of its address. */
  method ReadBusLines(d: Dict<string, string>, items: seq<Option<Anchor>>) returns (lines: Dict<string, string>)
    ensures lines == BusLinesOf(d, items)
  {
    lines := d;
    var i := 0;
    while i < |items|
      invariant 0 <= i <= |items|
      invariant lines == BusLinesOf(d, items[..i])
    {
      BusLinesPrefix(d, items, i);
      match items[i] {
        case None =>
        case Some(a) =>
          lines := Put(lines, Strip(a.text), RouteIdOf(a.href));
      }
      i := i + 1;
    }
    assert items[..i] == items;
  }

  /** Each line name carries the id of the last link that bore that name;
      names no link bore keep their old id. */
  lemma {:induction false} BusLinesLastWins(d: Dict<string, string>, items: seq<Option<Anchor>>, n: string)
    ensures Get(BusLinesOf(d, items), n)
         == if HasLink(items, n) then Some(RouteIdOf(items[LastLink(items, n)].value.href)) else Get(d, n)
    decreases |items|
  {
    if items != [] {
      var p := items[..|items| - 1];
      BusLinesLastWins(d, p, n);
      BusLinesStep(d, items, n);
      LastLinkStep(items, n);
    }
  }

  /** One more `<li>`: a link named `n` sets its id, anything else leaves
      `n` as it was. */
  lemma {:induction false} BusLinesStep(d: Dict<string, string>, items: seq<Option<Anchor>>, n: string)
    requires items != []
    ensures Get(BusLinesOf(d, items), n)
         == if NamedLink(items[|items| - 1], n) then Some(RouteIdOf(items[|items| - 1].value.href))
            else Get(BusLinesOf(d, items[..|items| - 1]), n)
  {
    var x := items[|items| - 1];
    if x.Some? {
      PutGet(BusLinesOf(d, items[..|items| - 1]), Strip(x.value.text), RouteIdOf(x.value.href), n);
    }
  }

  /** The last link named `n` is the new item when it is one, and otherwise
      the last one before it. */
  lemma {:induction false} LastLinkStep(items: seq<Option<Anchor>>, n: string)
    requires items != []
    ensures var p := items[..|items| - 1];
      && (HasLink(items, n) <==> HasLink(p, n) || NamedLink(items[|items| - 1], n))
      && (NamedLink(items[|items| - 1], n) ==> LastLink(items, n) == |items| - 1)
      && (!NamedLink(items[|items| - 1], n) && HasLink(p, n) ==> items[LastLink(items, n)] == p[LastLink(p, n)])
  {
    var p := items[..|items| - 1];
    if HasLink(p, n) {
      var i :| 0 <= i < |p| && NamedLink(p[i], n);
      assert NamedLink(items[i], n);
    }
    if HasLink(items, n) && !NamedLink(items[|items| - 1], n) {
      var i :| 0 <= i < |items| && NamedLink(items[i], n);
      assert NamedLink(p[i], n);
      var j := LastLink(items, n);
      assert NamedLink(p[j], n);
      assert LastLink(p, n) == j;
    }
  }

  /** Some `<li>` among `items` has a link named `n`. */
  predicate HasLink(items: seq<Option<Anchor>>, n: string) {
    exists i :: 0 <= i < |items| && NamedLink(items[i], n)
  }

  predicate NamedLink(item: Option<Anchor>, n: string) {
    item.Some? && Strip(item.value.text) == n
  }

  /** The position of the last link named `n`. */
  function LastLink(items: seq<Option<Anchor>>, n: string): (i: nat)
    requires HasLink(items, n)
    ensures i < |items| && NamedLink(items[i], n)
    ensures forall j :: i < j < |items| ==> !NamedLink(items[j], n)
    decreases |items|
  {
    if NamedLink(items[|items| - 1], n) then |items| - 1
    else
      var i :| 0 <= i < |items| && NamedLink(items[i], n);
      assert NamedLink(items[..|items| - 1][i], n);
      LastLink(items[..|items| - 1], n)
  }

  // ---------------------------------------------------------------------
  // Stop keys
  // ---------------------------------------------------------------------

  const FirstSuffix: string := "_0"
  const LaterSuffix: string := "_1"

  function Key(name: string, suffix: string): string { name + suffix }

  /** Two keys are equal only when name and suffix are. */
  lemma {:induction false} KeyInjective(a: string, s: string, b: string, t: string)
    requires |s| == |t|
    ensures Key(a, s) == Key(b, t) <==> a == b && s == t
  {
    if Key(a, s) == Key(b, t) {
      assert a == Key(a, s)[..|a|];
      assert |a| == |b|;
      assert b == Key(b, t)[..|b|];
      assert s == Key(a, s)[|a|..];
      assert t == Key(b, t)[|b|..];
    }
  }

  /** The names of the records, in order. */
  function Names(recs: seq<StopRecord>): (r: seq<string>)
    ensures |r| == |recs| && forall i :: 0 <= i < |recs| ==> r[i] == NameOf(recs[i])
  {
    if recs == [] then [] else Names(recs[..|recs| - 1]) + [NameOf(recs[|recs| - 1])]
  }

  /** The position of the first record named `n`. */
  function FirstIndexOf(recs: seq<StopRecord>, n: string): (i: nat)
    requires n in Names(recs)
    ensures i < |recs| && NameOf(recs[i]) == n
    ensures forall j :: 0 <= j < i ==> NameOf(recs[j]) != n
    decreases |recs|
  {
    var p := recs[..|recs| - 1];
    assert forall j :: 0 <= j < |p| ==> p[j] == recs[j];
    if n in Names(p) then FirstIndexOf(p, n)
    else
      assert Names(recs) == Names(p) + [NameOf(recs[|recs| - 1])];
      |recs| - 1
  }

  /** The position of the last record named `n`. */
  function LastIndexOf(recs: seq<StopRecord>, n: string): (i: nat)
    requires n in Names(recs)
    ensures i < |recs| && NameOf(recs[i]) == n
    ensures forall j :: i < j < |recs| ==> NameOf(recs[j]) != n
    decreases |recs|
  {
    var p := recs[..|recs| - 1];
    if NameOf(recs[|recs| - 1]) == n then |recs| - 1 else LastIndexOf(p, n)
  }

  /** The key the loop in `get_bus_line_detail` gives a record once the
      names in `seen` have been met. */
  function KeyFor(name: string, seen: seq<string>): string {
    if name in seen then Key(name, LaterSuffix) else Key(name, FirstSuffix)
  }

  /** The stop table one page of records yields. */
  function StopMapOf(recs: seq<StopRecord>): StopMap
    decreases |recs|
  {
    if recs == [] then []
    else
      var p := recs[..|recs| - 1];
      var r := recs[|recs| - 1];
      Put(StopMapOf(p), KeyFor(NameOf(r), Names(p)), InfoOf(r))
  }

  /** The stop loop of `get_bus_line_detail` over one page. */
  method BuildStopMap(recs: seq<StopRecord>) returns (stops: StopMap)
    ensures stops == StopMapOf(recs)
  {
    stops := [];
    var already: set<string> := {};
    var i := 0;
    while i < |recs|
      invariant 0 <= i <= |recs|
      invariant stops == StopMapOf(recs[..i])
      invariant forall n :: n in already <==> n in Names(recs[..i])
    {
      var name := NameOf(recs[i]);
      var key := if name !in already then name + FirstSuffix else name + LaterSuffix;
      stops := Put(stops, key, InfoOf(recs[i]));
      already := already + {name};
      assert recs[..i + 1][..i] == recs[..i];
      i := i + 1;
    }
    assert recs[..i] == recs;
  }

  /** The first record of a name is stored under `name_0`; a name met again
      is stored under `name_1`, each later record overwriting the previous
      one, so `name_1` holds the last record of that name. */
  lemma {:induction false} StopMapLookup(recs: seq<StopRecord>, n: string)
    ensures Get(StopMapOf(recs), Key(n, FirstSuffix))
         == if n in Names(recs) then Some(InfoOf(recs[FirstIndexOf(recs, n)])) else None
    ensures Get(StopMapOf(recs), Key(n, LaterSuffix))
         == if n in Names(recs) && LastIndexOf(recs, n) != FirstIndexOf(recs, n)
            then Some(InfoOf(recs[LastIndexOf(recs, n)])) else None
    decreases |recs|
  {
    if recs != [] {
      var p := recs[..|recs| - 1];
      var r := recs[|recs| - 1];
      var key := KeyFor(NameOf(r), Names(p));
      StopMapLookup(p, n);
      PutGet(StopMapOf(p), key, InfoOf(r), Key(n, FirstSuffix));
      PutGet(StopMapOf(p), key, InfoOf(r), Key(n, LaterSuffix));
      KeyInjective(n, FirstSuffix, NameOf(r), FirstSuffix);
      KeyInjective(n, FirstSuffix, NameOf(r), LaterSuffix);
      KeyInjective(n, LaterSuffix, NameOf(r), FirstSuffix);
      KeyInjective(n, LaterSuffix, NameOf(r), LaterSuffix);
      assert Names(recs) == Names(p) + [NameOf(r)];
      if n in Names(p) {
        assert p[FirstIndexOf(p, n)] == recs[FirstIndexOf(p, n)];
        assert p[LastIndexOf(p, n)] == recs[LastIndexOf(p, n)];
      }
    }
  }

  /** Every key is `name_0` or `name_1` for a name on the page, and no key
      appears twice: at most two entries per name. */
  lemma {:induction false} StopMapKeys(recs: seq<StopRecord>)
    ensures UniqueKeys(StopMapOf(recs))
    ensures forall k :: k in Keys(StopMapOf(recs)) ==> KeyOfPage(k, Names(recs))
    decreases |recs|
  {
    if recs != [] {
      var p := recs[..|recs| - 1];
      var r := recs[|recs| - 1];
      var key := KeyFor(NameOf(r), Names(p));
      var m := StopMapOf(p);
      StopMapKeys(p);
      PutUnique(m, key, InfoOf(r));
      PutKeys(m, key, InfoOf(r));
      assert Names(recs) == Names(p) + [NameOf(r)];
      forall k | k in Keys(StopMapOf(recs)) ensures KeyOfPage(k, Names(recs)) {
        if k == key {
          assert NameOf(r) in Names(recs);
        } else {
          assert k in Keys(m);
          var n :| n in Names(p) && (k == Key(n, FirstSuffix) || k == Key(n, LaterSuffix));
          assert n in Names(recs);
        }
      }
    }
  }

  /** `k` is `n_0` or `n_1` for a name `n` among `names`. */
  ghost predicate KeyOfPage(k: string, names: seq<string>) {
    exists n :: n in names && (k == Key(n, FirstSuffix) || k == Key(n, LaterSuffix))
  }

  /** The table `get_bus_line_detail` stores for one fetched route page:
      with no clickable 返程 tab the inbound table is empty. */
  function DetailOf(page: RoutePage): LineDetail {
    LineDetail(StopMapOf(page.outbound),
               if page.inbound.None? then [] else StopMapOf(page.inbound.value))
  }

  /** `all_bus_line_detail` after `get_all_bus_line_detail` has visited
      `names` in order; a name absent from `pages` failed all its attempts. */
  function DetailsOf(d: Dict<string, LineDetail>, names: seq<string>, pages: map<string, RoutePage>)
    : Dict<string, LineDetail>
    decreases |names|
  {
    if names == [] then d
    else
      var prev := DetailsOf(d, names[..|names| - 1], pages);
      var n := names[|names| - 1];
      if n in pages then Put(prev, n, DetailOf(pages[n])) else prev
  }

  /** Every visited line with a fetched page maps to that page's tables;
      other lines keep what they had. */
  lemma {:induction false} DetailsOfLookup(
    d: Dict<string, LineDetail>, names: seq<string>, pages: map<string, RoutePage>, n: string)
    ensures Get(DetailsOf(d, names, pages), n)
         == if n in names && n in pages then Some(DetailOf(pages[n])) else Get(d, n)
    decreases |names|
  {
    if names != [] {
      var p := names[..|names| - 1];
      var m := names[|names| - 1];
      DetailsOfLookup(d, p, pages, n);
      if m in pages { PutGet(DetailsOf(d, p, pages), m, DetailOf(pages[m]), n); }
      assert names == p + [m];
    }
  }

  /** A line whose 返程 tab could not be clicked keeps its outbound table
      and gets an empty inbound one. */
  lemma {:induction false} NoReturnTab(d: Dict<string, LineDetail>, names: seq<string>, pages: map<string, RoutePage>, n: string)
    requires n in names && n in pages && pages[n].inbound.None?
    ensures Get(DetailsOf(d, names, pages), n) == Some(LineDetail(StopMapOf(pages[n].outbound), []))
  {
    DetailsOfLookup(d, names, pages, n);
  }

  lemma {:induction false} DetailsOfUnique(d: Dict<string, LineDetail>, names: seq<string>, pages: map<string, RoutePage>)
    requires UniqueKeys(d)
    ensures UniqueKeys(DetailsOf(d, names, pages))
    decreases |names|
  {
    if names != [] {
      var p := names[..|names| - 1];
      DetailsOfUnique(d, p, pages);
      var m := names[|names| - 1];
      if m in pages { PutUnique(DetailsOf(d, p, pages), m, DetailOf(pages[m])); }
    }
  }

  lemma {:induction false} BusLinesUnique(d: Dict<string, string>, items: seq<Option<Anchor>>)
    requires UniqueKeys(d)
    ensures UniqueKeys(BusLinesOf(d, items))
    decreases |items|
  {
    if items != [] {
      var p := items[..|items| - 1];
      BusLinesUnique(d, p);
      if items[|items| - 1].Some? {
        var a := items[|items| - 1].value;
        PutUnique(BusLinesOf(d, p), Strip(a.text), RouteIdOf(a.href));
      }
    }
  }

  // ---------------------------------------------------------------------
  // The index object
  // ---------------------------------------------------------------------

  /** The two module-level dicts of the script, owned by one object. */
  class BusIndex {
    /** `all_bus_line`: line name to route id. */
    var busLine: Dict<string, string>
    /** `all_bus_line_detail`: line name to its two stop tables. */
    var busLineDetail: Dict<string, LineDetail>

    ghost predicate Valid()
      reads this
    {
      UniqueKeys(busLine) && UniqueKeys(busLineDetail)
    }

    constructor ()
      ensures Valid() && busLine == [] && busLineDetail == []
    {
      busLine := [];
      busLineDetail := [];
    }

    /** `get_all_bus_line`: every `<li>` with a link records its stripped
        text under the id taken from its `href`. */
    method GetAllBusLine(items: seq<Option<Anchor>>)
      requires Valid()
      modifies this
      ensures Valid()
      ensures busLine == BusLinesOf(old(busLine), items)
      ensures busLineDetail == old(busLineDetail)
    {
      BusLinesUnique(busLine, items);
      busLine := ReadBusLines(busLine, items);
    }

    /** `get_bus_line_detail`: looks the line up in `all_bus_line` (a
        KeyError when absent, `found` false, nothing changes) and stores
        the two stop tables of its page. */
    method GetBusLineDetail(name: string, page: RoutePage) returns (found: bool)
      requires Valid()
      modifies this
      ensures Valid() && busLine == old(busLine)
      ensures found <==> name in Keys(busLine)
      ensures busLineDetail
           == if found then Put(old(busLineDetail), name, DetailOf(page)) else old(busLineDetail)
    {
      found := Get(busLine, name).Some?;
      if !found {
        return;
      }
      var stops0 := BuildStopMap(page.outbound);
      match page.inbound {
        case None =>
          busLineDetail := Put(busLineDetail, name, LineDetail(stops0, []));
        case Some(back) =>
          var stops1 := BuildStopMap(back);
          busLineDetail := Put(busLineDetail, name, LineDetail(stops0, stops1));
      }
      PutUnique(old(busLineDetail), name, DetailOf(page));
    }

    /** `get_all_bus_line_detail`: fetches every known line in order. */
    method GetAllBusLineDetail(pages: map<string, RoutePage>)
      requires Valid()
      modifies this
      ensures Valid() && busLine == old(busLine)
      ensures busLineDetail == DetailsOf(old(busLineDetail), Keys(busLine), pages)
    {
      var names := Keys(busLine);
      var i := 0;
      while i < |names|
        invariant 0 <= i <= |names|
        invariant Valid() && busLine == old(busLine)
        invariant busLineDetail == DetailsOf(old(busLineDetail), names[..i], pages)
      {
        assert names[..i + 1][..i] == names[..i];
        var n := names[i];
        if n in pages {
          var found := GetBusLineDetail(n, pages[n]);
          assert found;
        }
        i := i + 1;
      }
      assert names[..i] == names;
    }
  }
}
