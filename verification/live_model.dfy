/** The server-side output model of src/model.rs: the upstream feed's records,
    the per-stop status derived from actual times, and the conversions that
    turn an upstream response into the body the browser receives. */
module LiveModel {
  import opened Common
  import RunningDays

  datatype Train = Train(
    trainNumber: string,
    trainName: string,
    kind: string,
    zone: string,
    sourceStationCode: string,
    sourceStationName: string,
    destinationStationCode: string,
    destinationStationName: string,
    runningDaysBitmap: bv8,
    runningDays: string,
    returnTrainNumber: string,
    travelTimeMinutes: u32,
    totalHalts: u32,
    distanceKm: u32,
    avgSpeedKmph: u32)

  /** One scheduled stop of the static itinerary. */
  datatype RouteInfo = RouteInfo(
    id: Option<u64>,
    sequence: u32,
    stationCode: string,
    stationName: string,
    isHalt: bv8,
    scheduledArrival: Option<u32>,
    scheduledDeparture: Option<u32>,
    haltDurationMinutes: u32,
    platform: Option<string>,
    day: bv8,
    speedOnSectionKmph: Option<u32>,
    trackType: string)

  datatype Station = Station(code: string, name: Option<string>)

  /** The status the server derives for a stop. `NoStatus` is the default
      variant, which serialises as the string "None". */
  datatype LiveStatus = Departed | NoStatus | Arrived | Upcoming

  /** One stop of the live feed; epochs are seconds since the Unix epoch. */
  datatype LiveRouteInfo = LiveRouteInfo(
    station: Station,
    scheduledArrival: u64,
    scheduledDeparture: Option<u64>,
    actualArrival: Option<u64>,
    actualDeparture: Option<u64>,
    delayArrivalMinutes: Option<i32>,
    delayDepartureMinutes: Option<i32>,
    platform: Option<string>,
    status: LiveStatus)

  /** The current location; its coordinates and distances are not modelled. */
  datatype CurrentLocation = CurrentLocation(stationCode: string, status: string)

  datatype TrainLiveData = TrainLiveData(
    trainNumber: string,
    journeyDate: string,
    lastUpdatedAt: string,
    currentLocation: CurrentLocation,
    dataSource: string,
    statusSummary: string,
    route: seq<LiveRouteInfo>)

  datatype TrainStatusData = TrainStatusData(
    train: Train,
    route: seq<RouteInfo>,
    liveData: Option<TrainLiveData>)

  datatype TrainError = TrainError(
    code: string,
    message: string,
    statusCode: Option<int>,
    timestamp: Option<string>,
    retryable: Option<bool>)

  datatype TrainStatusResponse = TrainStatusResponse(
    success: bool,
    data: Option<TrainStatusData>,
    error: Option<TrainError>)

  datatype TrainLiveStatus = TrainLiveStatus(train: Train, liveData: Option<TrainLiveData>)

  datatype TrainStatusResult = Data(status: TrainLiveStatus) | Error(error: TrainError)

  /** The three `unwrap()` calls that abort the conversion. */
  datatype Panic =
    | UnknownRunningDayBits  // `RunningDays::from_bits(..).unwrap()` on a bitmap with bit 7 set
    | MissingData            // `data.unwrap()` on a successful response without data
    | MissingError           // `error.unwrap()` on a failed response without an error

  /** The string serde writes for a status: the variant's own name. */
  function TagName(s: LiveStatus): (tag: string)
    ensures tag != ""
  {
    match s
    case Departed => "Departed"
    case NoStatus => "None"
    case Arrived => "Arrived"
    case Upcoming => "Upcoming"
  }

  /** Distinct statuses serialise to distinct strings. */
  lemma TagNameInjective(s: LiveStatus, t: LiveStatus)
    requires TagName(s) == TagName(t)
    ensures s == t
  {
  }

  /** The stop has an actual departure strictly before `now`. */
  predicate DepartedBy(r: LiveRouteInfo, now: u64) {
    r.actualDeparture.Some? && r.actualDeparture.value < now
  }

  /** `LiveRouteInfo::update_status`: departure strictly before `now` wins;
      otherwise an actual arrival decides Arrived (at or before `now`) or
      Upcoming (after it); with no arrival the status is left as it was.
      Nothing but the status changes. */
  function UpdateStatus(r: LiveRouteInfo, now: u64): (u: LiveRouteInfo)
    ensures u == r.(status := u.status)
    ensures DepartedBy(r, now) ==> u.status == Departed
    ensures !DepartedBy(r, now) && r.actualArrival.Some? ==>
      u.status == (if r.actualArrival.value <= now then Arrived else Upcoming)
    ensures !DepartedBy(r, now) && r.actualArrival.None? ==> u.status == r.status
  {
    if r.actualDeparture.Some? && r.actualDeparture.value < now then r.(status := Departed)
    else if r.actualArrival.Some? && r.actualArrival.value <= now then r.(status := Arrived)
    else if r.actualArrival.Some? && r.actualArrival.value > now then r.(status := Upcoming)
    else r
  }

  /** Starting from the deserialised default, each status says exactly which
      actual times exist relative to `now`. */
  lemma FreshStatusCharacterised(r: LiveRouteInfo, now: u64)
    requires r.status == NoStatus
    ensures UpdateStatus(r, now).status == Departed <==> DepartedBy(r, now)
    ensures UpdateStatus(r, now).status == Arrived <==>
      !DepartedBy(r, now) && r.actualArrival.Some? && r.actualArrival.value <= now
    ensures UpdateStatus(r, now).status == Upcoming <==>
      !DepartedBy(r, now) && r.actualArrival.Some? && r.actualArrival.value > now
    ensures UpdateStatus(r, now).status == NoStatus <==>
      r.actualArrival.None? && (r.actualDeparture.None? || r.actualDeparture.value >= now)
  {
  }

  /** A departure at exactly `now` has not happened yet: the arrival decides,
      or the previous status stays. */
  lemma DepartureAtNowIsNotDeparted(r: LiveRouteInfo, now: u64)
    requires r.actualDeparture == Some(now)
    ensures UpdateStatus(r, now).status ==
      match r.actualArrival
      case Some(a) => if a <= now then Arrived else Upcoming
      case None => r.status
  {
  }

  /** Updating twice with the same clock reading changes nothing more. */
  lemma UpdateStatusIdempotent(r: LiveRouteInfo, now: u64)
    ensures UpdateStatus(UpdateStatus(r, now), now) == UpdateStatus(r, now)
  {
  }

  /** Progress order of a stop's lifecycle as time passes. */
  function Progress(s: LiveStatus): nat {
    match s
    case NoStatus => 0
    case Upcoming => 0
    case Arrived => 1
    case Departed => 2
  }

  /** A later clock reading never moves a stop backwards in its lifecycle. */
  lemma StatusAdvancesWithTime(r: LiveRouteInfo, t1: u64, t2: u64)
    requires r.status == NoStatus && t1 <= t2
    ensures Progress(UpdateStatus(r, t1).status) <= Progress(UpdateStatus(r, t2).status)
  {
  }

  /** The station-code to station-name map collected from the itinerary;
      when a code repeats, the later entry's name wins. */
  function NameMap(route: seq<RouteInfo>): (names: map<string, string>)
    ensures forall c :: c in names <==> exists i :: 0 <= i < |route| && route[i].stationCode == c
  {
    if route == [] then map[]
    else
      var last := route[|route| - 1];
      var before := NameMap(route[..|route| - 1]);
      assert forall i :: 0 <= i < |route| - 1 ==> route[..|route| - 1][i] == route[i];
      before[last.stationCode := last.stationName]
  }

  /** The name recorded for a code is that of its last occurrence. */
  lemma {:induction false} NameMapLastWins(route: seq<RouteInfo>, i: nat)
    requires i < |route|
    requires forall j :: i < j < |route| ==> route[j].stationCode != route[i].stationCode
    ensures route[i].stationCode in NameMap(route)
    ensures NameMap(route)[route[i].stationCode] == route[i].stationName
  {
    if i < |route| - 1 {
      var front := route[..|route| - 1];
      assert front[i] == route[i];
      NameMapLastWins(front, i);
    }
  }

  /** `LiveRouteInfo::update_station_name`: the name becomes the map's entry
      for the code, or absent when the code is unknown; only the name changes. */
  function UpdateStationName(r: LiveRouteInfo, names: map<string, string>): (u: LiveRouteInfo)
    ensures u.station.code == r.station.code
    ensures u == r.(station := u.station)
    ensures u.station.name.Some? <==> r.station.code in names
    ensures u.station.name.Some? ==> u.station.name.value == names[r.station.code]
  {
    r.(station := r.station.(name := if r.station.code in names then Some(names[r.station.code]) else None))
  }

  /** The name a live stop receives from the itinerary: present exactly when
      some itinerary stop has its code, and then the last such stop's name. */
  lemma StationNameFromItinerary(r: LiveRouteInfo, route: seq<RouteInfo>, i: nat)
    requires i < |route| && route[i].stationCode == r.station.code
    requires forall j :: i < j < |route| ==> route[j].stationCode != r.station.code
    ensures UpdateStationName(r, NameMap(route)).station.name == Some(route[i].stationName)
  {
    NameMapLastWins(route, i);
  }

  lemma StationNameUnknownCode(r: LiveRouteInfo, route: seq<RouteInfo>)
    requires forall j :: 0 <= j < |route| ==> route[j].stationCode != r.station.code
    ensures UpdateStationName(r, NameMap(route)).station.name == None
  {
  }

  /** The live route after naming and status update, entry by entry with the
      same clock reading: the `for_each` over `route.iter_mut()`. */
  function RefreshRoute(route: seq<LiveRouteInfo>, names: map<string, string>, now: u64): (out: seq<LiveRouteInfo>)
    ensures |out| == |route|
    ensures forall i :: 0 <= i < |route| ==>
      out[i] == UpdateStatus(UpdateStationName(route[i], names), now)
  {
    if route == [] then []
    else [UpdateStatus(UpdateStationName(route[0], names), now)] + RefreshRoute(route[1..], names, now)
  }

  /** `Train::with_running_days`: fills in the day names, and panics when the
      bitmap sets bit 7, which no day flag defines. */
  function WithRunningDays(t: Train): (r: Result<Train, Panic>)
    ensures r.Ok? <==> t.runningDaysBitmap & 0x80 == 0
    ensures r.Ok? ==> r.value == t.(runningDays := RunningDays.AsNames(t.runningDaysBitmap))
    ensures r.Err? ==> r.error == UnknownRunningDayBits
  {
    match RunningDays.FromBits(t.runningDaysBitmap)
    case None => Err(UnknownRunningDayBits)
    case Some(days) => Ok(t.(runningDays := RunningDays.AsNames(days)))
  }

  /** `From<TrainStatusData> for TrainLiveStatus`, with the system clock
      reading passed in as `now`. */
  function FromStatusData(d: TrainStatusData, now: u64): (r: Result<TrainLiveStatus, Panic>)
    ensures r.Ok? <==> d.train.runningDaysBitmap & 0x80 == 0
    ensures r.Ok? ==> r.value.train == d.train.(runningDays := RunningDays.AsNames(d.train.runningDaysBitmap))
    ensures r.Ok? ==> (r.value.liveData.Some? <==> d.liveData.Some?)
    ensures r.Ok? && d.liveData.Some? ==>
      var before := d.liveData.value;
      var after := r.value.liveData.value;
      && after == before.(route := after.route)
      && |after.route| == |before.route|
      && forall i :: 0 <= i < |before.route| ==>
           after.route[i] == UpdateStatus(UpdateStationName(before.route[i], NameMap(d.route)), now)
  {
    var names := NameMap(d.route);
    var liveData :=
      match d.liveData
      case None => None
      case Some(ld) => Some(ld.(route := RefreshRoute(ld.route, names, now)));
    match WithRunningDays(d.train)
    case Err(p) => Err(p)
    case Ok(train) => Ok(TrainLiveStatus(train, liveData))
  }

  /** `From<TrainStatusResponse> for TrainStatusResult`: a successful response
      must carry data and a failed one an error; a missing one panics. */
  function FromResponse(resp: TrainStatusResponse, now: u64): (r: Result<TrainStatusResult, Panic>)
    ensures resp.success ==>
      (r.Ok? <==> resp.data.Some? && resp.data.value.train.runningDaysBitmap & 0x80 == 0)
    ensures resp.success && r.Ok? ==>
      r.value.Data? && Ok(r.value.status) == FromStatusData(resp.data.value, now)
    ensures resp.success && resp.data.None? ==> r == Err(MissingData)
    ensures !resp.success ==> (r.Ok? <==> resp.error.Some?)
    ensures !resp.success && r.Ok? ==> r.value == Error(resp.error.value)
    ensures !resp.success && r.Err? ==> r.error == MissingError
  {
    if resp.success then
      match resp.data
      case None => Err(MissingData)
      case Some(data) =>
        match FromStatusData(data, now)
        case Err(p) => Err(p)
        case Ok(status) => Ok(Data(status))
    else
      match resp.error
      case None => Err(MissingError)
      case Some(e) => Ok(Error(e))
  }
}
