/** The two halves joined: a live stop as the server refreshes and serialises
    it, read by the browser's route table. These lemmas state what the
    browser shows for a stop in terms of the upstream record. */
module Pipeline {
  import opened Common
  import opened LiveModel
  import RouteTable

  /** Lifts a Rust `Option<i32>` delay into the JSON number it serialises to. */
  function AsDelay(x: Option<i32>): Option<int> {
    match x
    case None => None
    case Some(v) => Some(v)
  }

  /** The JSON object serde writes for a `LiveRouteInfo`, as the browser
      parses it: the station is a nested object, the flat `stationCode` and
      `stationName` fields do not exist, the status is its variant name, and
      every time, delay and the platform keep their values. */
  function Serialize(r: LiveRouteInfo): (stop: RouteTable.StopJson)
    ensures stop.stationObjCode == Some(r.station.code) && stop.stationObjName == r.station.name
    ensures stop.stationCode.None? && stop.stationName.None?
    ensures stop.status == Some(TagName(r.status))
    ensures stop.scheduledArrival == Some(r.scheduledArrival)
    ensures stop.scheduledDeparture.Some? <==> r.scheduledDeparture.Some?
    ensures r.scheduledDeparture.Some? ==> stop.scheduledDeparture.value == r.scheduledDeparture.value
    ensures stop.actualArrival.Some? <==> r.actualArrival.Some?
    ensures r.actualArrival.Some? ==> stop.actualArrival.value == r.actualArrival.value
    ensures stop.actualDeparture.Some? <==> r.actualDeparture.Some?
    ensures r.actualDeparture.Some? ==> stop.actualDeparture.value == r.actualDeparture.value
    ensures stop.delayArrivalMinutes.Some? <==> r.delayArrivalMinutes.Some?
    ensures r.delayArrivalMinutes.Some? ==> stop.delayArrivalMinutes.value == r.delayArrivalMinutes.value
    ensures stop.delayDepartureMinutes.Some? <==> r.delayDepartureMinutes.Some?
    ensures r.delayDepartureMinutes.Some? ==> stop.delayDepartureMinutes.value == r.delayDepartureMinutes.value
    ensures stop.platform == r.platform
  {
    RouteTable.StopJson(
      Some(r.station.code),
      r.station.name,
      None,
      None,
      Some(TagName(r.status)),
      Some(r.scheduledArrival),
      AsNumber(r.scheduledDeparture),
      AsNumber(r.actualArrival),
      AsNumber(r.actualDeparture),
      AsDelay(r.delayArrivalMinutes),
      AsDelay(r.delayDepartureMinutes),
      r.platform)
  }

  /** Every status the server writes is a non-empty string, so the browser
      always classifies by the tag and never by its own reading of the
      actual times; "None" falls through to scheduled. */
  lemma ServerTagDecides(r: LiveRouteInfo, index: nat, n: nat)
    requires index < n
    ensures RouteTable.Classify(Serialize(r), index, n) == RouteTable.StatusFromTag(TagName(r.status))
    ensures r.status == NoStatus ==> RouteTable.Classify(Serialize(r), index, n).status == RouteTable.Scheduled
  {
  }

  /** The browser's status of a stop refreshed at `now`, when the feed left
      its status at the default: completed once it has departed, current once
      it has arrived, upcoming when its arrival lies ahead, and scheduled
      when no actual time has passed. A stop tagged current is so at every
      position, the terminus included. */
  lemma ClientStatusOfRefreshedStop(r: LiveRouteInfo, now: u64, index: nat, n: nat)
    requires r.status == NoStatus && index < n
    ensures var c := RouteTable.Classify(Serialize(UpdateStatus(r, now)), index, n);
      && (c.status == RouteTable.Completed <==> DepartedBy(r, now))
      && (c.status == RouteTable.Current <==>
            !DepartedBy(r, now) && r.actualArrival.Some? && r.actualArrival.value <= now)
      && (c.status == RouteTable.Upcoming <==>
            !DepartedBy(r, now) && r.actualArrival.Some? && r.actualArrival.value > now)
      && (c.status == RouteTable.Scheduled <==> !DepartedBy(r, now) && r.actualArrival.None?)
  {
    FreshStatusCharacterised(r, now);
    ServerTagDecides(UpdateStatus(r, now), index, n);
  }

  /** The order in which a stop's browser status moves as time passes. */
  function ClientProgress(s: RouteTable.StopStatus): nat {
    match s
    case Scheduled => 0
    case Upcoming => 0
    case Current => 1
    case Completed => 2
  }

  /** A later refresh never shows a stop earlier in its lifecycle. */
  lemma ClientStatusAdvancesWithTime(r: LiveRouteInfo, t1: u64, t2: u64, index: nat, n: nat)
    requires r.status == NoStatus && t1 <= t2 && index < n
    ensures ClientProgress(RouteTable.Classify(Serialize(UpdateStatus(r, t1)), index, n).status)
         <= ClientProgress(RouteTable.Classify(Serialize(UpdateStatus(r, t2)), index, n).status)
  {
    ClientStatusOfRefreshedStop(r, t1, index, n);
    ClientStatusOfRefreshedStop(r, t2, index, n);
  }

  /** The name the browser shows for a live stop: the name of the last
      itinerary stop with its code when that name is non-empty, and
      "Unknown Station" otherwise. */
  lemma DisplayedNameFromItinerary(clock: int -> string, r: LiveRouteInfo, route: seq<RouteInfo>, i: nat, index: nat, n: nat)
    requires i < |route| && route[i].stationCode == r.station.code
    requires forall j :: i < j < |route| ==> route[j].stationCode != r.station.code
    requires index < n
    ensures RouteTable.StopViewOf(clock, Serialize(UpdateStationName(r, NameMap(route))), index, n).name
         == if route[i].stationName != "" then route[i].stationName else "Unknown Station"
  {
    var name := route[i].stationName;
    var u := UpdateStationName(r, NameMap(route));
    StationNameFromItinerary(r, route, i);
    assert u.station.name == Some(name);
    var stop := Serialize(u);
    assert stop.stationObjName == Some(name) && stop.stationName.None?;
    assert TruthyStr(stop.stationObjName) <==> name != "";
    var v := RouteTable.StopViewOf(clock, stop, index, n);
    assert v.name == if name != "" then name else "Unknown Station";
  }

  lemma DisplayedNameUnknownCode(clock: int -> string, r: LiveRouteInfo, route: seq<RouteInfo>, index: nat, n: nat)
    requires forall j :: 0 <= j < |route| ==> route[j].stationCode != r.station.code
    requires index < n
    ensures RouteTable.StopViewOf(clock, Serialize(UpdateStationName(r, NameMap(route))), index, n).name
         == "Unknown Station"
  {
    var u := UpdateStationName(r, NameMap(route));
    StationNameUnknownCode(r, route);
    var stop := Serialize(u);
    assert stop.stationObjName.None? && stop.stationName.None?;
  }

  /** A stop that has departed before the terminus is badged DEPARTED and,
      when its departure epoch is non-zero and the clock renders it, captioned
      with the time it left. */
  lemma DepartedStopShowsLeftAt(clock: int -> string, r: LiveRouteInfo, now: u64, index: nat, n: nat)
    requires r.status == NoStatus && DepartedBy(r, now) && index < n - 1
    ensures var v := RouteTable.StopViewOf(clock, Serialize(UpdateStatus(r, now)), index, n);
      && v.statusCell.badge == "DEPARTED"
      && (r.actualDeparture.value != 0 && clock(r.actualDeparture.value) != "--" ==>
            v.statusCell.leftAt == Some(clock(r.actualDeparture.value)) && v.statusCell.cssClass == "departed")
  {
    ClientStatusOfRefreshedStop(r, now, index, n);
  }
}
