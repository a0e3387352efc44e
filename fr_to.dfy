/** `search_fr_to` of the final report (report/main.py): which lines take a
    rider from stop `fr` to stop `to`, and what the portal says about the
    next bus at `fr`. */
module FrTo {
  import opened Wrappers
  import opened Text
  import opened Dict
  import opened StopIndex

  /** One printed answer: the line and the status text shown at `fr`. */
  datatype Departure = Departure(line: string, status: string)

  const NotYetDeparted: string := "尚未發車"
  const LastBusGone: string := "末班已過"
  const BadStopNumber: string := "invalid literal for int() with base 10"

  /** Statuses that are reported; the three excluded ones say no bus is
      coming or nothing is known. */
  predicate Boardable(status: string) {
    status != NotYetDeparted && status != LastBusGone && status != ""
  }

  // ---------------------------------------------------------------------
  // Loops whose body may raise
  // ---------------------------------------------------------------------

  /** Runs `r` then `s`: the first exception ends the run. */
  function Then<T>(r: Result<seq<T>>, s: Result<seq<T>>): (t: Result<seq<T>>)
    ensures r.Err? ==> t == r
    ensures r.Ok? && s.Err? ==> t == s
    ensures r.Ok? && s.Ok? ==> t == Ok(r.value + s.value)
  {
    if r.Err? then r else if s.Err? then s else Ok(r.value + s.value)
  }

  /** A loop over `es` whose body `f` outputs a list or raises: the outputs
      are appended in order and the first exception ends the loop. */
  function Collect<E, T>(es: seq<E>, f: E -> Result<seq<T>>): Result<seq<T>>
  {
    if es == [] then Ok([]) else Then(Collect(es[..|es| - 1], f), f(es[|es| - 1]))
  }

  /** The loop succeeds exactly when every body does, and then outputs what
      the bodies output. */
  lemma {:induction false} CollectMembers<E, T>(es: seq<E>, f: E -> Result<seq<T>>, x: T)
    ensures Collect(es, f).Ok? <==> forall i :: 0 <= i < |es| ==> f(es[i]).Ok?
    ensures Collect(es, f).Ok? ==>
      (x in Collect(es, f).value <==> exists i :: 0 <= i < |es| && x in f(es[i]).value)
    decreases |es|
  {
    if es != [] {
      var p := es[..|es| - 1];
      CollectMembers(p, f, x);
      assert forall i :: 0 <= i < |p| ==> p[i] == es[i];
      if Collect(es, f).Ok? && x in Collect(es, f).value && x !in f(es[|es| - 1]).value {
        var i :| 0 <= i < |p| && x in f(p[i]).value;
        assert x in f(es[i]).value;
      }
    }
  }

  /** Once the loop has raised on a prefix, the rest of it never runs. */
  lemma {:induction false} CollectErrSticky<E, T>(es: seq<E>, f: E -> Result<seq<T>>, k: nat)
    requires k <= |es| && Collect(es[..k], f).Err?
    ensures Collect(es, f) == Collect(es[..k], f)
    decreases |es|
  {
    if k < |es| {
      assert es[..|es| - 1][..k] == es[..k];
      CollectErrSticky(es[..|es| - 1], f, k);
    } else {
      assert es[..k] == es;
    }
  }

  /** Looping over `a + b` is looping over `a`, then over `b`. */
  lemma {:induction false} CollectAppend<E, T>(a: seq<E>, b: seq<E>, f: E -> Result<seq<T>>)
    ensures Collect(a + b, f) == Then(Collect(a, f), Collect(b, f))
    decreases |b|
  {
    if b == [] {
      assert a + b == a;
      if Collect(a, f).Ok? {
        assert Collect(a, f).value + [] == Collect(a, f).value;
      }
    } else {
      var b' := b[..|b| - 1];
      CollectAppend(a, b', f);
      assert (a + b)[..|a + b| - 1] == a + b';
      ThenAssoc(Collect(a, f), Collect(b', f), f(b[|b| - 1]));
    }
  }

  lemma {:induction false} ThenAssoc<T>(r: Result<seq<T>>, s: Result<seq<T>>, t: Result<seq<T>>)
    ensures Then(Then(r, s), t) == Then(r, Then(s, t))
  {
    if r.Ok? && s.Ok? && t.Ok? {
      assert (r.value + s.value) + t.value == r.value + (s.value + t.value);
    }
  }

  // ---------------------------------------------------------------------
  // One direction map, one suffix
  // ---------------------------------------------------------------------

  /** The emission condition: `fr+suffix` and `to+suffix` are both keys of
      the same map, their stop numbers parse and strictly increase, and the
      status at `fr` is reportable; `status` is that status. */
  predicate Emits(way: StopMap, fr: string, to: string, suffix: string, status: string) {
    var a := Get(way, Key(fr, suffix));
    var b := Get(way, Key(to, suffix));
    && a.Some? && b.Some?
    && ParseInt(a.value.stopNumber).Some? && ParseInt(b.value.stopNumber).Some?
    && ParseInt(a.value.stopNumber).value < ParseInt(b.value.stopNumber).value
    && Boardable(a.value.stopStatus) && status == a.value.stopStatus
  }

  /** The innermost loop body: skip the map unless it holds both keys,
      otherwise compare the two stop numbers with `int()`. */
  function WayResult(line: string, way: StopMap, fr: string, to: string, suffix: string)
    : Result<seq<Departure>>
  {
    var a := Get(way, Key(fr, suffix));
    var b := Get(way, Key(to, suffix));
    if a.None? || b.None? then Ok([])
    else
      match ParseInt(a.value.stopNumber)
      case None => Err(BadStopNumber)
      case Some(x) =>
        match ParseInt(b.value.stopNumber)
        case None => Err(BadStopNumber)
        case Some(y) =>
          if x < y && Boardable(a.value.stopStatus) then Ok([Departure(line, a.value.stopStatus)])
          else Ok([])
  }

  /** One map gives at most one answer, and gives `Departure(line, s)`
      exactly when the emission condition holds for `s`. */
  lemma {:induction false} WayResultEmits(line: string, way: StopMap, fr: string, to: string, suffix: string, d: Departure)
    ensures WayResult(line, way, fr, to, suffix).Ok? ==>
      && |WayResult(line, way, fr, to, suffix).value| <= 1
      && (d in WayResult(line, way, fr, to, suffix).value
          <==> d.line == line && Emits(way, fr, to, suffix, d.status))
  {
  }

  // ---------------------------------------------------------------------
  // One line
  // ---------------------------------------------------------------------

  const Suffixes: seq<string> := [FirstSuffix, LaterSuffix]

  /** `for way in line`: outbound, then inbound. */
  function Ways(detail: LineDetail): seq<StopMap> {
    [detail.outbound, detail.inbound]
  }

  /** The inner steps of one line: suffix `_0` before `_1`, and for each
      suffix the outbound map before the inbound one. */
  function Steps(detail: LineDetail): (st: seq<(string, StopMap)>)
    ensures |st| == 4
    ensures forall d, w :: 0 <= d < 2 && 0 <= w < 2 ==> st[2 * d + w] == (Suffixes[d], Ways(detail)[w])
  {
    [(FirstSuffix, detail.outbound), (FirstSuffix, detail.inbound),
     (LaterSuffix, detail.outbound), (LaterSuffix, detail.inbound)]
  }

  function StepBody(line: string, fr: string, to: string): ((string, StopMap)) -> Result<seq<Departure>> {
    (st: (string, StopMap)) => WayResult(line, st.1, fr, to, st.0)
  }

  /** What `search_fr_to` outputs for one line, or the exception it raises. */
  function LineResult(line: string, detail: LineDetail, fr: string, to: string): Result<seq<Departure>> {
    Collect(Steps(detail), StepBody(line, fr, to))
  }

  /** The body of the innermost loop, for one map and one suffix. */
  method MatchWay(line: string, way: StopMap, fr: string, to: string, suffix: string)
    returns (r: Result<seq<Departure>>)
    ensures r == WayResult(line, way, fr, to, suffix)
  {
    if Key(fr, suffix) !in Keys(way) || Key(to, suffix) !in Keys(way) {
      return Ok([]);
    }
    var from := Get(way, Key(fr, suffix)).value;
    var x := ParseInt(from.stopNumber);
    if x.None? {
      return Err(BadStopNumber);
    }
    var y := ParseInt(Get(way, Key(to, suffix)).value.stopNumber);
    if y.None? {
      return Err(BadStopNumber);
    }
    assert from.stopStatus !in [NotYetDeparted, LastBusGone, ""] <==> Boardable(from.stopStatus);
    if x.value < y.value && from.stopStatus !in [NotYetDeparted, LastBusGone, ""] {
      return Ok([Departure(line, from.stopStatus)]);
    }
    return Ok([]);
  }

  /** One more step of a loop whose body may raise. */
  lemma {:induction false} CollectStep<E, T>(es: seq<E>, f: E -> Result<seq<T>>, k: nat)
    requires k < |es|
    ensures Collect(es[..k + 1], f) == Then(Collect(es[..k], f), f(es[k]))
  {
    assert es[..k + 1][..k] == es[..k];
  }

  /** The nested loops over suffixes and maps for one line. */
  method MatchLine(line: string, detail: LineDetail, fr: string, to: string)
    returns (r: Result<seq<Departure>>)
    ensures r == LineResult(line, detail, fr, to)
  {
    ghost var steps := Steps(detail);
    ghost var body := StepBody(line, fr, to);
    var found: seq<Departure> := [];
    var ways := [detail.outbound, detail.inbound];
    for d := 0 to 2
      invariant Ok(found) == Collect(steps[..2 * d], body)
    {
      for w := 0 to 2
        invariant Ok(found) == Collect(steps[..2 * d + w], body)
      {
        ghost var k := 2 * d + w;
        var step := MatchWay(line, ways[w], fr, to, Suffixes[d]);
        assert steps[k] == (Suffixes[d], ways[w]);
        assert body(steps[k]) == step;
        CollectStep(steps, body, k);
        if step.Err? {
          CollectErrSticky(steps, body, k + 1);
          return step;
        }
        found := found + step.value;
      }
    }
    assert steps[..4] == steps;
    return Ok(found);
  }

  lemma {:induction false} StepEmits(line: string, st: (string, StopMap), fr: string, to: string, d: Departure)
    ensures StepBody(line, fr, to)(st).Ok? ==>
      (d in StepBody(line, fr, to)(st).value <==> d.line == line && Emits(st.1, fr, to, st.0, d.status))
  {
    WayResultEmits(line, st.1, fr, to, st.0, d);
  }

  /** Some suffix and some of the line's two maps satisfy the emission
      condition for `status`. */
  ghost predicate LineEmits(detail: LineDetail, fr: string, to: string, status: string) {
    exists s, w :: s in Suffixes && w in Ways(detail) && Emits(w, fr, to, s, status)
  }

  /** The four steps are exactly the suffix and map pairs. */
  lemma {:induction false} StepsCover(detail: LineDetail, p: ((string, StopMap)) -> bool)
    ensures (exists s, w :: s in Suffixes && w in Ways(detail) && p((s, w)))
        <==> exists i :: 0 <= i < 4 && p(Steps(detail)[i])
  {
    var steps := Steps(detail);
    if exists s, w :: s in Suffixes && w in Ways(detail) && p((s, w)) {
      var s, w :| s in Suffixes && w in Ways(detail) && p((s, w));
      var i := StepIndex(detail, s, w);
      assert p(steps[i]);
    }
    if exists i :: 0 <= i < 4 && p(steps[i]) {
      var i :| 0 <= i < 4 && p(steps[i]);
      StepPair(detail, i);
      var s, w := steps[i].0, steps[i].1;
      assert steps[i] == (s, w);
    }
  }

  /** Each suffix and map pair is one of the four steps. */
  lemma {:induction false} StepIndex(detail: LineDetail, s: string, w: StopMap) returns (i: nat)
    requires s in Suffixes && w in Ways(detail)
    ensures i < 4 && Steps(detail)[i] == (s, w)
  {
    var si := if s == Suffixes[0] then 0 else 1;
    var wi := if w == Ways(detail)[0] then 0 else 1;
    i := 2 * si + wi;
  }

  /** Each of the four steps is a suffix and map pair. */
  lemma {:induction false} StepPair(detail: LineDetail, i: nat)
    requires i < 4
    ensures Steps(detail)[i].0 in Suffixes && Steps(detail)[i].1 in Ways(detail)
  {
    var si := if i < 2 then 0 else 1;
    var wi := i - 2 * si;
    assert Steps(detail)[2 * si + wi] == (Suffixes[si], Ways(detail)[wi]);
  }

  /** One line outputs `Departure(line, s)` exactly when some suffix and some
      of its two maps satisfy the emission condition for `s`. */
  lemma {:induction false} LineResultMembers(line: string, detail: LineDetail, fr: string, to: string, d: Departure)
    ensures LineResult(line, detail, fr, to).Ok? ==>
      (d in LineResult(line, detail, fr, to).value <==> d.line == line && LineEmits(detail, fr, to, d.status))
  {
    var steps := Steps(detail);
    var body := StepBody(line, fr, to);
    CollectMembers(steps, body, d);
    ghost var emits := (st: (string, StopMap)) => Emits(st.1, fr, to, st.0, d.status);
    StepsCover(detail, emits);
    if LineResult(line, detail, fr, to).Ok? {
      forall i | 0 <= i < 4
        ensures d in body(steps[i]).value <==> d.line == line && Emits(steps[i].1, fr, to, steps[i].0, d.status)
      {
        StepEmits(line, steps[i], fr, to, d);
      }
    }
  }

  // ---------------------------------------------------------------------
  // The whole search
  // ---------------------------------------------------------------------

  /** The pre-filter: only the outbound map is asked for `fr_0` and `to_0`. */
  predicate Candidate(detail: LineDetail, fr: string, to: string) {
    Key(fr, FirstSuffix) in Keys(detail.outbound) && Key(to, FirstSuffix) in Keys(detail.outbound)
  }

  /** `lines_to_search`, with each line's tables. */
  function Candidates(index: Dict<string, LineDetail>, fr: string, to: string): Dict<string, LineDetail> {
    if index == [] then []
    else
      var p := Candidates(index[..|index| - 1], fr, to);
      var e := index[|index| - 1];
      if Candidate(e.1, fr, to) then p + [e] else p
  }

  /** One more line of the index. */
  lemma {:induction false} CandidatesStep(index: Dict<string, LineDetail>, i: nat, fr: string, to: string)
    requires i < |index|
    ensures Candidates(index[..i + 1], fr, to)
         == Candidates(index[..i], fr, to) + if Candidate(index[i].1, fr, to) then [index[i]] else []
  {
    assert index[..i + 1][..i] == index[..i];
  }

  function LineBody(fr: string, to: string): ((string, LineDetail)) -> Result<seq<Departure>> {
    (e: (string, LineDetail)) => LineResult(e.0, e.1, fr, to)
  }

  /** `search_fr_to` over the index: `Err` when some compared stop number is
      not an integer. */
  function FrToResult(index: Dict<string, LineDetail>, fr: string, to: string): Result<seq<Departure>> {
    Collect(Candidates(index, fr, to), LineBody(fr, to))
  }

  /** The two loops of `search_fr_to`. */
  method SearchFrTo(index: Dict<string, LineDetail>, fr: string, to: string)
    returns (r: Result<seq<Departure>>)
    ensures r == FrToResult(index, fr, to)
  {
    var linesToSearch: Dict<string, LineDetail> := [];
    for i := 0 to |index|
      invariant linesToSearch == Candidates(index[..i], fr, to)
    {
      CandidatesStep(index, i, fr, to);
      var stops := index[i].1;
      if Key(fr, FirstSuffix) in Keys(stops.outbound) && Key(to, FirstSuffix) in Keys(stops.outbound) {
        linesToSearch := linesToSearch + [index[i]];
      }
    }
    assert index[..|index|] == index;
    ghost var body := LineBody(fr, to);
    var res: seq<Departure> := [];
    for j := 0 to |linesToSearch|
      invariant Ok(res) == Collect(linesToSearch[..j], body)
    {
      CollectStep(linesToSearch, body, j);
      var found := MatchLine(linesToSearch[j].0, linesToSearch[j].1, fr, to);
      if found.Err? {
        CollectErrSticky(linesToSearch, body, j + 1);
        return found;
      }
      res := res + found.value;
    }
    assert linesToSearch[..|linesToSearch|] == linesToSearch;
    return Ok(res);
  }

  // ---------------------------------------------------------------------
  // Properties
  // ---------------------------------------------------------------------

  /** A line is searched exactly when its outbound map holds `fr_0` and
      `to_0`: a pair served only by the inbound map never qualifies. */
  lemma {:induction false} CandidatesFilter(index: Dict<string, LineDetail>, fr: string, to: string, e: (string, LineDetail))
    ensures e in Candidates(index, fr, to) <==> e in index && Candidate(e.1, fr, to)
    decreases |index|
  {
    if index != [] {
      CandidatesFilter(index[..|index| - 1], fr, to, e);
      assert index == index[..|index| - 1] + [index[|index| - 1]];
    }
  }

  /** The candidates of `a + b` are those of `a` followed by those of `b`. */
  lemma {:induction false} CandidatesAppend(a: Dict<string, LineDetail>, b: Dict<string, LineDetail>, fr: string, to: string)
    ensures Candidates(a + b, fr, to) == Candidates(a, fr, to) + Candidates(b, fr, to)
    decreases |b|
  {
    if b == [] {
      assert a + b == a;
    } else {
      CandidatesAppend(a, b[..|b| - 1], fr, to);
      assert (a + b)[..|a + b| - 1] == a + b[..|b| - 1];
    }
  }

  /** Soundness and completeness of `search_fr_to`: when no stop number fails
      to parse, `Departure(n, s)` is printed exactly when `n` is a line of the
      index whose outbound map holds `fr_0` and `to_0`, and for some suffix
      one of its maps satisfies the emission condition for `s`. */
  lemma {:induction false} FrToMembers(index: Dict<string, LineDetail>, fr: string, to: string, d: Departure)
    ensures FrToResult(index, fr, to).Ok? ==>
      (d in FrToResult(index, fr, to).value
       <==> exists e :: e in index && Candidate(e.1, fr, to) && d.line == e.0
                         && LineEmits(e.1, fr, to, d.status))
  {
    if FrToResult(index, fr, to).Ok? {
      if d in FrToResult(index, fr, to).value {
        FrToSound(index, fr, to, d);
      }
      if exists e :: e in index && Candidate(e.1, fr, to) && d.line == e.0 && LineEmits(e.1, fr, to, d.status) {
        var e :| e in index && Candidate(e.1, fr, to) && d.line == e.0 && LineEmits(e.1, fr, to, d.status);
        FrToComplete(index, fr, to, d, e);
      }
    }
  }

  /** A printed line comes from a candidate line that emits its status. */
  lemma {:induction false} FrToSound(index: Dict<string, LineDetail>, fr: string, to: string, d: Departure)
    requires FrToResult(index, fr, to).Ok? && d in FrToResult(index, fr, to).value
    ensures exists e :: e in index && Candidate(e.1, fr, to) && d.line == e.0 && LineEmits(e.1, fr, to, d.status)
  {
    var c := Candidates(index, fr, to);
    var body := LineBody(fr, to);
    CollectMembers(c, body, d);
    var i :| 0 <= i < |c| && d in body(c[i]).value;
    CandidatesFilter(index, fr, to, c[i]);
    LineResultMembers(c[i].0, c[i].1, fr, to, d);
  }

  /** A candidate line that emits a status prints it. */
  lemma {:induction false} FrToComplete(index: Dict<string, LineDetail>, fr: string, to: string, d: Departure, e: (string, LineDetail))
    requires FrToResult(index, fr, to).Ok?
    requires e in index && Candidate(e.1, fr, to) && d.line == e.0 && LineEmits(e.1, fr, to, d.status)
    ensures d in FrToResult(index, fr, to).value
  {
    var c := Candidates(index, fr, to);
    var body := LineBody(fr, to);
    CollectMembers(c, body, d);
    CandidatesFilter(index, fr, to, e);
    var i :| 0 <= i < |c| && c[i] == e;
    LineResultMembers(e.0, e.1, fr, to, d);
    assert d in body(c[i]).value;
  }

  /** Every printed status is one the portal shows for an approaching bus. */
  lemma {:induction false} FrToBoardable(index: Dict<string, LineDetail>, fr: string, to: string, d: Departure)
    requires FrToResult(index, fr, to).Ok? && d in FrToResult(index, fr, to).value
    ensures Boardable(d.status)
  {
    FrToMembers(index, fr, to, d);
  }

  /** Asking for a ride from a stop to itself never prints a line: the
      stop-number comparison is strict. */
  lemma {:induction false} SameStop(index: Dict<string, LineDetail>, fr: string)
    ensures FrToResult(index, fr, fr).Ok? ==> FrToResult(index, fr, fr).value == []
  {
    if FrToResult(index, fr, fr).Ok? && FrToResult(index, fr, fr).value != [] {
      var d := FrToResult(index, fr, fr).value[0];
      FrToMembers(index, fr, fr, d);
      assert false;
    }
  }

  /** Answers come in index order: those of an earlier part of the index
      precede those of a later part, and an exception in the earlier part
      ends the search. */
  lemma {:induction false} FrToOrder(a: Dict<string, LineDetail>, b: Dict<string, LineDetail>, fr: string, to: string)
    ensures FrToResult(a + b, fr, to) == Then(FrToResult(a, fr, to), FrToResult(b, fr, to))
  {
    CandidatesAppend(a, b, fr, to);
    CollectAppend(Candidates(a, fr, to), Candidates(b, fr, to), LineBody(fr, to));
  }
}
