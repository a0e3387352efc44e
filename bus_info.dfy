/** The `BusInfo` stub of 20250513/src/m11372010/ebus_map_HW2.py: a bus id
    and four lookups answering with fixed data, and the script that asks
    for the second outbound stop. */
module BusInfoStub {
  import opened Wrappers

  const KnownBus: string := "M25305"
  const StationName: string := "台北火車站"
  const ArrivalMinutes: int := 5

  /** The bus id is set when the object is made; no method changes it. */
  datatype BusInfo = BusInfo(busId: string) {

    /** The outbound stop ids: two for the known bus, none for others. */
    function RouteInfoGo(): (r: seq<string>)
      ensures |r| > 0 <==> busId == KnownBus
      ensures |r| <= 2
    {
      if busId == KnownBus then ["stop_id1", "stop_id2"] else []
    }

    /** The inbound stop ids, the same for every bus. */
    function RouteInfoCome(): (r: seq<string>)
      ensures |r| == 2
    {
      ["stop_id3", "stop_id4"]
    }

    function GetStopName(stopId: string): string {
      StationName
    }

    function GetArrivalTimeInfo(stopId: string): int {
      ArrivalMinutes
    }
  }

  /** `route_info_go[1] if len(route_info_go) > 1 else None`. */
  function SecondStop(stops: seq<string>): (r: Option<string>)
    ensures r.Some? <==> |stops| > 1
    ensures r.Some? ==> r.value == stops[1]
  {
    if |stops| > 1 then Some(stops[1]) else None
  }

  /** The script's lookups: the second outbound stop's name and arrival
      time, only when that stop id is present and non-empty (`if stop_id`). */
  function Report(bus: BusInfo): Option<(string, int)> {
    match SecondStop(bus.RouteInfoGo())
    case Some(id) =>
      if id != "" then Some((bus.GetStopName(id), bus.GetArrivalTimeInfo(id))) else None
    case None => None
  }

  /** Only the known bus has a second outbound stop, and then the script
      reports the fixed station name and five minutes. */
  lemma {:induction false} ReportSpec(bus: BusInfo)
    ensures Report(bus) == if bus.busId == KnownBus then Some((StationName, ArrivalMinutes)) else None
  {
    if bus.busId == KnownBus {
      assert bus.RouteInfoGo()[1] == "stop_id2";
    }
  }

  /** Lookups do not depend on the bus or the stop asked for, except the
      outbound route. */
  lemma {:induction false} LookupsConstant(a: BusInfo, b: BusInfo, s: string, t: string)
    ensures a.RouteInfoCome() == b.RouteInfoCome()
    ensures a.GetStopName(s) == b.GetStopName(t) == StationName
    ensures a.GetArrivalTimeInfo(s) == b.GetArrivalTimeInfo(t) == ArrivalMinutes
    ensures a.busId == b.busId ==> a.RouteInfoGo() == b.RouteInfoGo()
  {
  }
}
