# Taipei e-bus scripts: the stop index, the route scrapers and the small exercises

A set of classroom scripts that read the Taipei e-bus portal. This project
models the logic inside them and proves what that logic promises:

- **The final report's bus query system** (`report/main.py`). It builds an
  in-memory index of every bus line: line name → route id, and line name →
  two stop tables, outbound (去程) and inbound (返程). A stop table is keyed
  `name_0` for the first stop of a name on the page and `name_1` for any
  later one. On this index it answers two queries:
  - `search_fr_to`: the lines and boarding times from one stop to another.
  - `search_near`: the five stops nearest to a coordinate.

  Modules `StopIndex`, `FrTo` and `Near`.
- **The route scrapers of 20250603** (`hw1.py`, `hw2_no_arrivaltime.py`).
  - `taipei_route_list` cuts the portal's route list into (id, name) pairs and keeps a route table. Each route has a status: 0 new, 1 updated, 2 failed.
  - `taipei_route_info` checks a direction and tags the stop rows of one route page.

  Module `RouteScraper` holds both classes, which are identical in the two files. The main block of each file has its own module:
  - `Hw1Collect`: every route's going and coming stops are collected with the route's name.
  - `Hw2Tables`: one side-by-side block is made per route, up to the first route named with "38區".
- **The fail-count report** (`20250520/11372010_ex1.py`): the students with four or more scores below 60. Module `FailCount`.
- **The `BusInfo` stub** (`20250513/src/m11372010/ebus_map_HW2.py`). Module `BusInfoStub`.
- **Euclid's gcd** (`20250304/11372010_hw2.py`). Module `Euclid`.

Shared modules:
- `Wrappers`: `Option` and `Result`. A raised exception is an `Err` carrying its message.
- `Text`: Python's `strip`, `replace`, `int` and `float` on the strings the scripts meet.
- `Dict`: a Python `dict` as an insertion-ordered association list. Assigning an existing key keeps its position; a new key goes to the end.
- `Sorting`: a stable insertion sort, `sorted` with a key.

Web pages, database files and browser sessions are not modelled as I/O. What
the outside world did is a parameter:
- the records a page yielded;
- which fetches raised;
- the rows the database held.

The index and the route table are the objects the scripts update. `StopIndex.BusIndex` and `RouteScraper.RouteList` are classes whose methods change their fields. The `BusInfo` object is never updated after construction: its `bus_id` is set once in `__init__`, so it is a value. The searches take the index as a value.

The code is followed where it differs from a more natural design:
- `search_fr_to` pre-filters on the outbound table only.
- `search_near` keeps the **last** distance met for a stop name, not the smallest. The stated intent is the nearest stops; `Near.LastNotNearest` shows the two can differ.
- The result of `search_fr_to` carries no direction.

There is one exception. hw2_no_arrivaltime.py sorts each direction's stops by their number as text, so stop "10" comes before stop "2" (see "## Findings"). `Hw2Tables.SortAsWritten` models that order, and `Hw2Tables.SortAsWrittenSpec` proves what it does. The blocks and the script (`Hw2Tables.Block` and everything built on it) use the corrected numeric order instead.

## Model

| member | source | states |
|---|---|---|
| Text.StripSpec | report/main.py:34 | `strip()` removes exactly the leading and trailing whitespace: the result is the middle slice, it neither starts nor ends with whitespace, and everything cut off is whitespace |
| Text.StripIdempotent | report/main.py:50 | stripping an already stripped text changes nothing |
| Text.ReplaceAbsent | report/main.py:35 | `replace` leaves a text that does not contain the pattern unchanged |
| Text.ReplaceTrailing | report/main.py:35 | a trailing occurrence of a self-overlap-free pattern, with no other occurrence before it, is the only one replaced |
| Text.DigitsRoundTrip | report/main.py:125 | reading back the decimal digits of a natural number gives that number |
| Text.ParseIntRoundTrip | report/main.py:125 | `int(str(n)) == n` for every integer, negative ones included |
| Text.ParseDecimalWhole | report/main.py:146-147 | `float` of a whole number's digits is that number |
| Text.IndexOf | report/main.py:149 | the first position of a character, or nothing when it is absent |
| Dict.Get | report/main.py:40 | a lookup finds a value exactly when the key is present, and it is the value stored at the key's position |
| Dict.Put | report/main.py:36 | assignment adds one item exactly when the key is new, and every item with another key stays where it was |
| Dict.PutGet | report/main.py:56-61 | after `d[k] = v`, `d[k]` is `v` and every other key reads as before |
| Dict.PutKeys | report/main.py:36 | assignment keeps the key order and appends a new key at the end |
| Dict.PutUnique | report/main.py:36 | a dict never holds a key twice |
| Sorting.SortByPermutes | report/main.py:151 | `sorted` returns a permutation of its input |
| Sorting.SortBySorted | report/main.py:151 | under a total preorder, `sorted`'s result is ascending |
| Sorting.SortByStable | report/main.py:151 | elements with equal keys keep their input order |
| StopIndex.RouteIdRoundTrip | report/main.py:35 | the id is recovered from `javascript:go('<id>')` whenever the id does not contain `')` and does not complete a `javascript:go('` |
| StopIndex.RouteIdMangled | report/main.py:35 | an id containing neither substring can still come back changed, so that second condition is needed |
| StopIndex.BusLinesLastWins | report/main.py:30-36 | every line name holds the id of the last link bearing that stripped name; names with no link keep their old entry |
| StopIndex.BusLinesUnique | report/main.py:36 | the line table never holds a name twice |
| StopIndex.KeyInjective | report/main.py:55 | two stop keys are equal only when their name and suffix are |
| StopIndex.BuildStopMap | report/main.py:45-62 | the stop loop over one page builds the stop table of its records |
| StopIndex.StopMapLookup | report/main.py:55-62 | `name_0` holds the first record of a name; `name_1` holds the last record when the name occurs more than once, and is absent otherwise, so a third occurrence overwrites the second |
| StopIndex.StopMapKeys | report/main.py:55-62 | no key appears twice, and every key is `name_0` or `name_1` for a name on the page |
| StopIndex.NoReturnTab | report/main.py:64-71 | a line whose 返程 tab cannot be clicked keeps its outbound table and gets an empty inbound table |
| StopIndex.DetailsOfLookup | report/main.py:96-103 | every visited line whose page was fetched maps to that page's two tables; other lines keep what they had |
| StopIndex.DetailsOfUnique | report/main.py:93 | the detail table never holds a line twice |
| StopIndex.BusIndex.constructor | report/main.py:12 | both tables start empty |
| StopIndex.BusIndex.GetAllBusLine | report/main.py:26-36 | the line table becomes the old one updated with every link on the page, in document order; the detail table is unchanged |
| StopIndex.ReadBusLines | report/main.py:30-36 | the loop over the `<li>` items yields exactly the line table the specification function gives: each linked item sets its stripped text to its route id, later items overriding earlier ones |
| StopIndex.BusIndex.GetBusLineDetail | report/main.py:39-93 | a name missing from the line table raises (`found` false) and changes nothing; otherwise the line's two stop tables are stored under its name |
| StopIndex.BusIndex.GetAllBusLineDetail | report/main.py:96-103 | every known line is visited in table order, and the detail table becomes the one described by `DetailsOfLookup` |
| FrTo.CollectMembers | report/main.py:117-127 | the nested loops succeed exactly when no step raises, and then the result holds exactly what the steps emit |
| FrTo.CollectErrSticky | report/main.py:117-127 | after the first exception, later steps add nothing |
| FrTo.CollectAppend | report/main.py:117 | the result over a concatenation of lines is the first part's result followed by the second's |
| FrTo.Steps | report/main.py:121-122 | suffix `_0` is tried before `_1`, and for each the outbound table before the inbound one |
| FrTo.WayResultEmits | report/main.py:123-127 | a table emits the line only when both `fr+suffix` and `to+suffix` are its keys, fr's stop number is strictly below to's, and fr's status is none of "尚未發車", "末班已過" and "" |
| FrTo.MatchWay | report/main.py:123-127 | the check on one table, including the exception `int()` raises on a stop number that is not an integer |
| FrTo.MatchLine | report/main.py:121-127 | the two nested loops over one line compute that line's emissions in order |
| FrTo.LineResultMembers | report/main.py:121-127 | a line's emissions are exactly the departures some (suffix, table) pair of it emits |
| FrTo.CandidatesFilter | report/main.py:112-114 | a line is searched exactly when its outbound table holds both `fr_0` and `to_0` |
| FrTo.CandidatesAppend | report/main.py:112-114 | the pre-filter keeps the index order |
| FrTo.SearchFrTo | report/main.py:110-127 | the search computes the pre-filtered lines' emissions, line by line |
| FrTo.FrToMembers | report/main.py:112-127 | a reported departure comes from a pre-filtered line and a (suffix, table) pair that emits it, and every such departure is reported |
| FrTo.FrToBoardable | report/main.py:126 | no reported departure has a status that cannot be boarded |
| FrTo.SameStop | report/main.py:125 | asking from a stop to itself reports nothing, because the comparison is strict |
| FrTo.FrToOrder | report/main.py:112 | results come in index order: the result over two parts of the index is the first part's result, then the second's |
| Near.BaseName | report/main.py:149 | only a length bound; what `split("_")[0]` returns is stated by `Near.BaseNameSpec` |
| Near.BaseNameSpec | report/main.py:149 | the base name is the longest prefix without `_` |
| Near.BaseNameOfKey | report/main.py:149 | the base name of `name_0` or `name_1` is `name` when the name has no `_` |
| Near.SqDist | report/main.py:148 | only that the distance is never negative; how it orders the stops is stated by `Near.NearestRanking` |
| Near.Take | report/main.py:153 | `[:5]` is the prefix of length min(5, length) |
| Near.VisitWay | report/main.py:144-149 | the loop over one table extends the distance table by those stops |
| Near.SearchNear | report/main.py:141-153 | the search returns the ranking of the distance table over all lines, both directions, in index order |
| Near.DistErrSticky | report/main.py:146-147 | once a coordinate fails to parse, later stops change nothing |
| Near.DistUnique | report/main.py:149 | the distance table holds each base name once |
| Near.DistLastWins | report/main.py:142-149 | a base name carries the distance of its last visited stop with both coordinates non-empty; stops missing a coordinate are skipped |
| Near.LastNotNearest | report/main.py:149 | the stop at distance 0 is overwritten by a later stop of the same name at distance 1 |
| Near.SortByDistinct | report/main.py:151 | sorting keeps the names distinct |
| Near.NearestRanking | report/main.py:151-153 | the shown stops are the first min(5, n) of the table sorted by distance: distinct, ascending, a permutation's prefix, ties in table order, and no stop left out is nearer than one shown |
| RouteScraper.FindSpec | 20250603/hw2_no_arrivaltime.py:51 | the reported position holds the delimiter, and none is found exactly when the text does not contain it |
| RouteScraper.FindFirst | 20250603/hw2_no_arrivaltime.py:51 | a lazy `.*?` stops at the first occurrence of the delimiter: no earlier position starts with it |
| RouteScraper.ScanEntry | 20250603/hw2_no_arrivaltime.py:51-52 | a well-formed entry yields its (id, name) and the scan resumes after it |
| RouteScraper.ScanPage | 20250603/hw2_no_arrivaltime.py:51-52 | `findall` on a page of well-formed entries yields their pairs in document order |
| RouteScraper.StripNames | 20250603/hw2_no_arrivaltime.py:57 | every name is stripped and every id kept, in order |
| RouteScraper.ParseRouteList | 20250603/hw2_no_arrivaltime.py:50-59 | no match raises "No data found for route table"; otherwise the result is the matches with their names stripped |
| RouteScraper.ParseRouteListPage | 20250603/hw1.py:50-59 | a page of well-formed entries parses to its (id, stripped name) pairs, and an empty page raises |
| RouteScraper.ParseDirectionExact | 20250603/hw2_no_arrivaltime.py:94-95 | a direction is accepted exactly when it is "go" or "come" |
| RouteScraper.NewRouteInfo | 20250603/hw1.py:87-95 | the constructor raises, before any fetch, exactly when the direction is neither "go" nor "come", and keeps the route id and direction |
| RouteScraper.TagRows | 20250603/hw2_no_arrivaltime.py:131-132 | every row keeps its match and carries the instance's direction and route id |
| RouteScraper.ParseRouteInfoRows | 20250603/hw1.py:122-133 | no match raises; otherwise one row per match, in order, each tagged |
| RouteScraper.MergedLookup | 20250603/hw2_no_arrivaltime.py:61-64 | after the merge, an id from the frame has its last name there and keeps its status, or 0 when it is new; other rows are unchanged |
| RouteScraper.SetStatus | 20250603/hw2_no_arrivaltime.py:66-72 | the update rewrites only the status of the given id; an id not in the table changes nothing; the keys stay the same |
| RouteScraper.MergedUnique | 20250603/hw2_no_arrivaltime.py:61-64 | merging keeps `id` a primary key: each id stays in at most one row |
| RouteScraper.SetStatusUnique | 20250603/hw2_no_arrivaltime.py:66-72 | the update keeps each id in at most one row |
| RouteScraper.RouteList.constructor | 20250603/hw2_no_arrivaltime.py:11-35 | the object holds the fetched page and the table the database file held, whose ids are unique; `Valid()` holds |
| RouteScraper.RouteList.ParseRoutes | 20250603/hw2_no_arrivaltime.py:50-59 | the parse result; the frame is replaced only when parsing succeeds |
| RouteScraper.RouteList.SaveToDatabase | 20250603/hw2_no_arrivaltime.py:61-64 | the table becomes the merge of the frame into it, and its ids stay unique |
| RouteScraper.RouteList.SetRouteDataUpdated | 20250603/hw2_no_arrivaltime.py:66-68 | the route's status is set to the given value, 1 by default; the ids stay unique |
| RouteScraper.RouteList.SetRouteDataUnexcepted | 20250603/hw2_no_arrivaltime.py:70-72 | the route's status is set to 2; the ids stay unique |
| RouteScraper.RouteList.ReadFromDatabase | 20250603/hw2_no_arrivaltime.py:74-77 | reading back gives the table as it stands, with unique ids |
| Hw1Collect.Named | 20250603/hw1.py:193-194 | every collected row is the parsed row with the route's name added |
| Hw1Collect.AttemptOrder | 20250603/hw1.py:186-206 | "go" is processed before "come". A failing "go" contributes nothing. A failing "come" keeps the "go" frame. The route succeeds exactly when both directions do |
| Hw1Collect.AttemptSticky | 20250603/hw1.py:186-196 | after the first exception, later directions add nothing |
| Hw1Collect.StatusesLookup | 20250603/hw1.py:202-206 | every processed route in the table ends with status 1 when both directions got through and 2 otherwise, under its own name; no other row changes |
| Hw1Collect.StepRows | 20250603/hw1.py:188-190 | a direction that got through yields all of its page's stops, one row each and in page order, tagged with the route id and the direction's text |
| Hw1Collect.FramesTagged | 20250603/hw1.py:193-196 | every collected row carries the id and name of a processed route, and "go" or "come" |
| Hw1Collect.Process | 20250603/hw1.py:187-196 | the inner loop over the directions yields the route's frames and success |
| Hw1Collect.RunScript | 20250603/hw1.py:171-206 | a route list without matches raises before anything is written. Otherwise the routes are merged into the table and read back. Every route is then processed in table order. The result is all frames, and the table holds every route's final status, with unique ids |
| Hw2Tables.Select | 20250603/hw2_no_arrivaltime.py:199-201 | each row keeps the five stop columns, in order |
| Hw2Tables.TextOrderMisplaces | 20250603/hw2_no_arrivaltime.py:203-204 | sorting the captured text puts stop "10" before stop "2"; ordering by number does not |
| Hw2Tables.TextLeTotal | 20250603/hw2_no_arrivaltime.py:203-204 | any two stop-number texts are comparable under Python's string order |
| Hw2Tables.TextLeTrans | 20250603/hw2_no_arrivaltime.py:203-204 | Python's string order is transitive |
| Hw2Tables.ByTextTotal | 20250603/hw2_no_arrivaltime.py:203-204 | ordering rows by stop-number text is a total preorder, so the sort lemmas apply to it |
| Hw2Tables.SortAsWrittenSpec | 20250603/hw2_no_arrivaltime.py:203-204 | the order as written is a permutation, ascending as text, with equal texts in page order |
| Hw2Tables.SortByStopNumberSpec | 20250603/hw2_no_arrivaltime.py:203-204 | the corrected order is a permutation, ascending by stop number, with equal numbers in page order |
| Hw2Tables.Pad | 20250603/hw2_no_arrivaltime.py:210-211 | `reindex(range(n))` keeps the rows and adds missing rows up to length n |
| Hw2Tables.CombineRows | 20250603/hw2_no_arrivaltime.py:209-213 | the side-by-side table has as many rows as the longer side; row i holds the i-th stop of each side, or missing cells past a side's end |
| Hw2Tables.BlockShape | 20250603/hw2_no_arrivaltime.py:203-219 | a block is a header row (name, id, then empty texts), then the two sides sorted by stop number and padded to the same length |
| Hw2Tables.StopAt | 20250603/hw2_no_arrivaltime.py:187-189 | the loop stops at the first route whose name contains "38區" |
| Hw2Tables.AttemptSucceeds | 20250603/hw2_no_arrivaltime.py:191-196 | a route makes a block exactly when both directions parse |
| Hw2Tables.SuccessesMembers | 20250603/hw2_no_arrivaltime.py:221 | the appended blocks are exactly the successful attempts' blocks |
| Hw2Tables.BlocksMembers | 20250603/hw2_no_arrivaltime.py:191-230 | a block is in the output exactly when some processed route's attempt produced it |
| Hw2Tables.StatusesLookup | 20250603/hw2_no_arrivaltime.py:226-230 | every processed route in the table ends with status 1 when both directions parse and 2 otherwise; no other row changes |
| Hw2Tables.StopLeavesRest | 20250603/hw2_no_arrivaltime.py:187-189 | the "38區" route and every later one keep their rows and are never marked |
| Hw2Tables.LayoutAppend | 20250603/hw2_no_arrivaltime.py:236-237 | the output over a concatenation of block lists is the first list's output, then the second's |
| Hw2Tables.LayoutBlock | 20250603/hw2_no_arrivaltime.py:232-237 | every block appears whole and in order, followed by exactly one blank row, the last block included |
| Hw2Tables.Assemble | 20250603/hw2_no_arrivaltime.py:232-237 | the output loop builds the layout, and nothing is written when there are no blocks |
| Hw2Tables.RunRoutes | 20250603/hw2_no_arrivaltime.py:181-230 | the route loop yields the blocks of the routes before the stop mark and leaves the table with their statuses; the ids stay unique |
| Hw2Tables.RunScript | 20250603/hw2_no_arrivaltime.py:171-237 | a route list without matches raises before anything is written. Otherwise the output and the final table are those of the routes read back, up to the stop mark. The ids stay unique, and the stop-mark route and every later one keep the rows they were read back with |
| FailCount.Scores | 20250520/11372010_ex1.py:10 | every column but the first is a score |
| FailCount.FailCount | 20250520/11372010_ex1.py:13 | the count never exceeds the number of scores |
| FailCount.FailCountOne | 20250520/11372010_ex1.py:13 | a score counts exactly when it is a number strictly below 60, so 60 passes and an empty cell does not count |
| FailCount.FailCountAppend | 20250520/11372010_ex1.py:13 | the count adds up over the columns |
| FailCount.FailCountAll | 20250520/11372010_ex1.py:13 | the count equals the number of scores exactly when every score fails |
| FailCount.FailingStudents | 20250520/11372010_ex1.py:13-16 | a text score raises `TypeError`; otherwise the result is the selection |
| FailCount.SelectMembers | 20250520/11372010_ex1.py:16 | a row is selected exactly when it is in the table with four or more fails; rows are kept whole, name included |
| FailCount.SelectAppend | 20250520/11372010_ex1.py:16 | selection keeps the input order |
| FailCount.SelectShrinks | 20250520/11372010_ex1.py:16 | the result has no more rows than the input |
| BusInfoStub.BusInfo.RouteInfoGo | 20250513/src/m11372010/ebus_map_HW2.py:7-13 | the outbound route is non-empty exactly for bus "M25305" |
| BusInfoStub.BusInfo.RouteInfoCome | 20250513/src/m11372010/ebus_map_HW2.py:15-19 | every bus has two inbound stops |
| BusInfoStub.LookupsConstant | 20250513/src/m11372010/ebus_map_HW2.py:21-37 | the stop name is "台北火車站" and the arrival time 5 for every stop of every bus; the inbound route does not depend on the bus |
| BusInfoStub.SecondStop | 20250513/src/m11372010/ebus_map_HW2.py:48 | the second stop is picked exactly when there are more than one |
| BusInfoStub.ReportSpec | 20250513/src/m11372010/ebus_map_HW2.py:47-57 | the script reports ("台北火車站", 5) exactly for bus "M25305", and looks nothing up otherwise |
| Euclid.StepKeepsDivisors | 20250304/11372010_hw2.py:4 | the step `a, b = b, a % b` keeps the common divisors |
| Euclid.GcdUnique | 20250304/11372010_hw2.py:1-5 | a pair has one greatest common divisor |
| Euclid.Gcd | 20250304/11372010_hw2.py:1-5 | the result divides both inputs and every common divisor divides it; gcd(a, 0) == a and gcd(0, b) == b |
| Euclid.Examples | 20250304/11372010_hw2.py:7-15 | gcd(7, 49) == 7 and gcd(11, 121) == 11 |

## Left out

- Browser sessions, HTTP, waits, sleeps and clicks: I/O. A fetched page enters as its extracted records, and a fetch that raised enters as a missing entry.
- HTML tree parsing, such as BeautifulSoup's `find_all`: a page is given as the sequence of records or anchors it yields. Only `parse_route_list`'s regular expression is modelled character by character.
- The regular expression of `parse_route_info`: it is modelled at the level of its matches, which are six captured texts each.
- The five-attempt retry in `get_all_bus_line_detail`: a line either has a page or failed every attempt.
- The re-fetch at report/main.py:118 before each searched line: the index is taken as it stands.
- `input()`, `print` and the menu loop, including the `float()` of typed coordinates at report/main.py:138: the query values are parameters.
- Near.SqDist: the ranking uses the squared distance over exact reals. `** 0.5` is monotone, so the order is the same. Floating-point rounding and the ×111 km display are not modelled.
- Text.ParseInt, Text.ParseDecimal: only ASCII digits, a sign and one decimal point are read. Surrounding whitespace is stripped, as Python does. Underscores, exponents, `inf`, `nan` and non-ASCII digits are treated as errors.
- Persistence: SQLAlchemy, SQLite, CSV and Excel writers. The route table is an association list from route id to (name, status) that reads back in insertion order. `session.merge` is modelled as an upsert keeping the status. The stop rows `save_to_database` writes in hw1.py are not modelled; only whether it raised is.
- Hw2Tables.Block, BlockShape, BlockOf, Blocks, RunRoutes, RunScript: each direction is sorted by the stop's number (`SortByStopNumber`), the corrected order from "## Findings". The code sorts the digit text as text (`SortAsWritten`), so for stop numbers of different lengths the model's block order differs from the script's.
- Hw2Tables.SortAsWritten, SortAsWrittenSpec, SortByStopNumberSpec: `sort_values` uses pandas' default quicksort, which is not stable. The model sorts stably, so the order of equal stop numbers, as written or corrected, is a choice of the model.
- NaN written to the CSV as an empty cell: missing cells are a `Missing` value.
- `report/data.py` is not part of this model. The two module-level dicts are assumed to start empty, as in `StopIndex.BusIndex.constructor`.
- FailCount: the model takes rows as given. A ragged table, which pandas would pad with NaN, is not modelled.
- Euclid.Gcd: non-negative inputs only. Python's `%` differs from Dafny's for a negative divisor.

## Findings

| source | as written | input that shows it | evidently intended | confidence | as-written member | corrected member |
|---|---|---|---|---|---|---|
| 20250603/hw2_no_arrivaltime.py:203-204 | `sort_values(by='stop_number')` sorts the captured digit text as text | stop numbers "2" and "10": text order gives "10" before "2" | stops in numeric stop-number order | not executed | Hw2Tables.TextOrderMisplaces | Hw2Tables.SortByStopNumberSpec |
