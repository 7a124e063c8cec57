/** The page a browser gets. The server answers `/running/status` with the
    JSON of a `TrainLiveStatus` and serves every other path from the
    `static` directory, so the client that reads that body is
    static/script.js. It looks the route up under keys the body does not
    have. script.js, which reads the body's own keys, lies outside the
    served directory. */
module Served {
  import opened Common
  import opened LiveModel
  import RouteTable
  import StaticView
  import Pipeline

  /** The top-level keys of the body. `TrainLiveStatus` derives `Serialize`
      without a rename, so its keys are its Rust field names. */
  const BodyKeys: set<string> := {"train", "live_data"}

  /** `data[key]` for a key the older client expects to hold `value`: the
      value when the body has the key, `undefined` otherwise. */
  function ReadKey<T>(keys: set<string>, key: string, value: Option<T>): (r: Option<T>)
    ensures key !in keys ==> r.None?
    ensures key in keys ==> r == value
  {
    if key in keys then value else None
  }

  /** What static/script.js fills in below the header: the location line,
      the delay banner and the route table. */
  datatype StaticPage = StaticPage(location: string, notice: string, table: StaticView.StaticTable)

  /** `displayResults` of static/script.js on the served body. The header
      reads `data.train`, which exists; `data.currentStation` and
      `data.routeInfo` read as undefined whatever the train's live data
      holds, so the page never shows a route or a location. */
  method ServedStaticPage(s: TrainLiveStatus, current: Option<StaticView.CurrentStation>,
                          routeInfo: Option<seq<StaticView.StaticStation>>)
    returns (page: StaticPage)
    ensures page.location == StaticView.NotAvailableHtml
    ensures page.notice == ""
    ensures page.table == StaticView.RouteNotAvailable
  {
    var cs := ReadKey(BodyKeys, "currentStation", current);
    var route := ReadKey(BodyKeys, "routeInfo", routeInfo);
    var table := StaticView.DisplayStaticRouteTable(route, cs);
    page := StaticPage(
      StaticView.LocationHtml(cs),
      StaticView.NoticeHtml(StaticView.DelayNoticeOf(cs)),
      table);
  }

  /** The live route as the browser parses it, one entry per stop. */
  function SerializeRoute(route: seq<LiveRouteInfo>): (stops: seq<RouteTable.StopJson>)
    ensures |stops| == |route|
    ensures forall k :: 0 <= k < |route| ==> stops[k] == Pipeline.Serialize(route[k])
  {
    seq(|route|, k requires 0 <= k < |route| => Pipeline.Serialize(route[k]))
  }

  /** The route table as script.js renders the same body,
      `displayRouteTable(data.live_data?.route || [], ..)`: one row per live
      stop, in order, each classified by the tag the server wrote. */
  method ServedLivePage(clock: int -> string, s: TrainLiveStatus) returns (table: RouteTable.RouteTableView)
    ensures table.Rows? <==> s.liveData.Some? && s.liveData.value.route != []
    ensures table.Rows? ==> |table.rows| == |s.liveData.value.route|
    ensures table.Rows? ==> forall k :: 0 <= k < |table.rows| ==>
      table.rows[k] == RouteTable.StopViewOf(clock, Pipeline.Serialize(s.liveData.value.route[k]), k, |table.rows|)
    ensures table.Rows? ==> forall k :: 0 <= k < |table.rows| ==>
      table.rows[k].status == RouteTable.StatusFromTag(TagName(s.liveData.value.route[k].status)).status
  {
    var stops := if s.liveData.Some? then SerializeRoute(s.liveData.value.route) else [];
    table := RouteTable.DisplayRouteTable(clock, Some(stops));
    if table.Rows? {
      var route := s.liveData.value.route;
      forall k | 0 <= k < |table.rows|
        ensures table.rows[k].status == RouteTable.StatusFromTag(TagName(route[k].status)).status
      {
        Pipeline.ServerTagDecides(route[k], k, |table.rows|);
      }
    }
  }
}
