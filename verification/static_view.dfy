/** The older client served from the static directory (static/script.js):
    a route table with scheduled-time placeholders, a current-station match
    by code or name, and a delay banner. */
module StaticView {
  import opened Common
  import opened Decimal
  import opened Text
  import opened Format

  /** A route entry of the older response shape; times are minutes after midnight. */
  datatype StaticStation = StaticStation(
    stationCode: Option<string>,
    stationName: Option<string>,
    scheduledArrival: Option<int>,
    scheduledDeparture: Option<int>,
    platform: Option<string>)

  /** The `currentStation` object of the older response shape. */
  datatype CurrentStation = CurrentStation(
    stationCode: Option<string>,
    stationName: Option<string>,
    delayMinutes: Option<int>)

  /** A field interpolated into a template literal: an absent one prints
      as "undefined". */
  function JsText(x: Option<string>): string {
    match x
    case Some(s) => s
    case None => "undefined"
  }

  // ---------------------------------------------------------------------
  // Current station
  // ---------------------------------------------------------------------

  /** `isCurrent`: a current station exists and shares the row's code or its
      name under `===`, where two absent fields are equal. */
  function IsCurrentRow(station: StaticStation, current: Option<CurrentStation>): (b: bool)
    ensures b ==> current.Some?
    ensures current.Some? && station.stationCode == current.value.stationCode ==> b
    ensures current.Some? && station.stationName == current.value.stationName ==> b
    ensures b && station.stationCode != current.value.stationCode ==>
      station.stationName == current.value.stationName
  {
    match current
    case None => false
    case Some(cs) => station.stationCode == cs.stationCode || station.stationName == cs.stationName
  }

  /** Codes and names that are all present and pairwise distinct. */
  predicate DistinctStations(route: seq<StaticStation>) {
    && (forall i :: 0 <= i < |route| ==> route[i].stationCode.Some? && route[i].stationName.Some?)
    && (forall i, j :: 0 <= i < j < |route| ==>
          route[i].stationCode != route[j].stationCode && route[i].stationName != route[j].stationName)
  }

  /** When the route's codes and names are present and distinct and the
      current station is one of its rows, that row and no other is current. */
  lemma CurrentRowIsUnique(route: seq<StaticStation>, k: nat, delay: Option<int>, i: nat)
    requires DistinctStations(route)
    requires k < |route| && i < |route|
    ensures IsCurrentRow(route[i], Some(CurrentStation(route[k].stationCode, route[k].stationName, delay)))
            <==> i == k
  {
    if i < k {
      assert route[i].stationCode != route[k].stationCode && route[i].stationName != route[k].stationName;
    } else if k < i {
      assert route[k].stationCode != route[i].stationCode && route[k].stationName != route[i].stationName;
    }
  }

  /** Absent names compare equal, so a current station without a name marks
      every row without a name as current, whatever its code. */
  lemma AbsentNamesMatch(station: StaticStation, cs: CurrentStation)
    requires station.stationName.None? && cs.stationName.None?
    ensures IsCurrentRow(station, Some(cs))
  {
  }

  // ---------------------------------------------------------------------
  // Scheduled placeholders
  // ---------------------------------------------------------------------

  /** The arrival column: a truthy time through `formatTime`, otherwise
      "Start" at the origin and "--" elsewhere. A time of 0 counts as absent. */
  function ArrivalCell(station: StaticStation, index: nat): (cell: string)
    ensures TruthyNum(station.scheduledArrival) ==> ':' in cell
    ensures !TruthyNum(station.scheduledArrival) ==> cell == (if index == 0 then "Start" else "--")
  {
    if TruthyNum(station.scheduledArrival) then FormatTime(station.scheduledArrival)
    else if index == 0 then "Start" else "--"
  }

  /** The departure column: a truthy time through `formatTime`, otherwise
      "End" at the terminus and "--" elsewhere. A time of 0 counts as absent. */
  function DepartureCell(station: StaticStation, index: nat, n: nat): (cell: string)
    ensures TruthyNum(station.scheduledDeparture) ==> ':' in cell
    ensures !TruthyNum(station.scheduledDeparture) ==> cell == (if index == n - 1 then "End" else "--")
  {
    if TruthyNum(station.scheduledDeparture) then FormatTime(station.scheduledDeparture)
    else if index == n - 1 then "End" else "--"
  }

  /** A placeholder shows exactly when the time is falsy, and a shown
      non-negative time reads back as the minutes it came from. */
  lemma ArrivalCellFaithful(station: StaticStation, index: nat)
    ensures ArrivalCell(station, index) in {"Start", "--"} <==> !TruthyNum(station.scheduledArrival)
    ensures TruthyNum(station.scheduledArrival) && station.scheduledArrival.value > 0 ==>
      ParseClock(ArrivalCell(station, index)) == Some(station.scheduledArrival.value)
  {
    assert ':' !in "Start" && ':' !in "--";
    if TruthyNum(station.scheduledArrival) && station.scheduledArrival.value > 0 {
      FormatTimeRoundTrip(station.scheduledArrival.value);
    }
  }

  lemma DepartureCellFaithful(station: StaticStation, index: nat, n: nat)
    ensures DepartureCell(station, index, n) in {"End", "--"} <==> !TruthyNum(station.scheduledDeparture)
    ensures TruthyNum(station.scheduledDeparture) && station.scheduledDeparture.value > 0 ==>
      ParseClock(DepartureCell(station, index, n)) == Some(station.scheduledDeparture.value)
  {
    assert ':' !in "End" && ':' !in "--";
    if TruthyNum(station.scheduledDeparture) && station.scheduledDeparture.value > 0 {
      FormatTimeRoundTrip(station.scheduledDeparture.value);
    }
  }

  // ---------------------------------------------------------------------
  // Delay banner
  // ---------------------------------------------------------------------

  /** What the delay element shows: nothing without a current station,
      otherwise on time or delayed by a (possibly negative) count. */
  datatype DelayNotice = NoNotice | OnTimeNotice | DelayedNotice(minutes: int)

  /** `delayMinutes || 0` and the `=== 0` test: an absent and a zero delay
      both read as on time. */
  function DelayNoticeOf(current: Option<CurrentStation>): (notice: DelayNotice)
    ensures notice.NoNotice? <==> current.None?
    ensures notice.OnTimeNotice? <==> current.Some? && !TruthyNum(current.value.delayMinutes)
    ensures notice.DelayedNotice? <==> current.Some? && TruthyNum(current.value.delayMinutes)
    ensures notice.DelayedNotice? ==> notice.minutes == current.value.delayMinutes.value
  {
    match current
    case None => NoNotice
    case Some(cs) =>
      var delayMinutes := if TruthyNum(cs.delayMinutes) then cs.delayMinutes.value else 0;
      if delayMinutes == 0 then OnTimeNotice else DelayedNotice(delayMinutes)
  }

  /** Unlike the newer client, this banner cannot tell an unknown delay from
      a zero one. */
  lemma AbsentDelayReadsAsOnTime(cs: CurrentStation)
    ensures DelayNoticeOf(Some(cs.(delayMinutes := None))) == DelayNoticeOf(Some(cs.(delayMinutes := Some(0))))
    ensures DelayNoticeOf(Some(cs.(delayMinutes := None))) == OnTimeNotice
  {
  }

  const SpanClassOpen := "<span class=\""
  const OnTimeHtml := SpanClassOpen + ("on-time" + "\">✅ On Time</span>")
  const DelayedLead := "\">⏰ Delayed by "
  const DelayedPrefix := SpanClassOpen + ("delayed" + DelayedLead)
  const DelayedSuffix := " minutes</span>"

  /** The delay element's inner HTML. */
  function NoticeHtml(notice: DelayNotice): string {
    match notice
    case NoNotice => ""
    case OnTimeNotice => OnTimeHtml
    case DelayedNotice(m) => DelayedPrefix + IntToString(m) + DelayedSuffix
  }

  /** The class of the span an HTML fragment opens with, or "" when it
      does not open with one. */
  function InnerClass(html: string): string {
    match After(html, SpanClassOpen)
    case None => ""
    case Some(r) => Field(r, '"').0
  }

  lemma InnerClassOf(c: string, rest: string)
    requires '"' !in c && rest != [] && rest[0] == '"'
    ensures InnerClass(SpanClassOpen + (c + rest)) == c
  {
    AfterPrefix(SpanClassOpen, c + rest);
    FieldOf(c, '"', rest);
  }

  /** The delay element's class; without a current station it is left as
      it was. Otherwise it is "delay" followed by the class of the banner
      span it holds. */
  function NoticeClass(notice: DelayNotice): (c: Option<string>)
    ensures c.None? <==> notice.NoNotice?
    ensures c.Some? ==> c.value == "delay " + InnerClass(NoticeHtml(notice))
  {
    match notice
    case NoNotice => None
    case OnTimeNotice =>
      OnTimeClass();
      Some("delay " + "on-time")
    case DelayedNotice(m) =>
      DelayedClass(m);
      Some("delay " + "delayed")
  }

  lemma OnTimeClass()
    ensures InnerClass(NoticeHtml(OnTimeNotice)) == "on-time"
  {
    InnerClassOf("on-time", "\">✅ On Time</span>");
  }

  lemma DelayedClass(m: int)
    ensures InnerClass(NoticeHtml(DelayedNotice(m))) == "delayed"
  {
    var lead := DelayedLead;
    var digits := IntToString(m);
    var tail := lead + (digits + DelayedSuffix);
    assert lead[0] == '"' && tail[0] == lead[0];
    Regroup(SpanClassOpen, "delayed", lead, digits, DelayedSuffix);
    InnerClassOf("delayed", tail);
  }

  lemma Regroup(a: string, b: string, c: string, d: string, e: string)
    ensures a + (b + c) + d + e == a + (b + (c + (d + e)))
  {
  }

  /** Reads the delay back out of the banner's HTML. */
  function ParseNoticeHtml(html: string): Option<DelayNotice> {
    if html == "" then Some(NoNotice)
    else if html == OnTimeHtml then Some(OnTimeNotice)
    else if |html| >= |DelayedPrefix| + |DelayedSuffix|
         && html[..|DelayedPrefix|] == DelayedPrefix
         && html[|html| - |DelayedSuffix|..] == DelayedSuffix then
      match ParseInt(html[|DelayedPrefix|..|html| - |DelayedSuffix|])
      case Some(m) => Some(DelayedNotice(m))
      case None => None
    else None
  }

  /** The banner's HTML determines the notice it was made from. */
  lemma NoticeHtmlRoundTrip(notice: DelayNotice)
    ensures ParseNoticeHtml(NoticeHtml(notice)) == Some(notice)
  {
    if notice.DelayedNotice? {
      var digits := IntToString(notice.minutes);
      var html := NoticeHtml(notice);
      assert html[..|DelayedPrefix|] == DelayedPrefix;
      assert html[|html| - |DelayedSuffix|..] == DelayedSuffix;
      assert html[|DelayedPrefix|..|html| - |DelayedSuffix|] == digits;
      assert html != OnTimeHtml by {
        assert |OnTimeHtml| < |DelayedPrefix| + |DelayedSuffix| + 1;
      }
      IntToStringRoundTrip(notice.minutes);
    }
  }

  const NotAvailableHtml := "<strong>" + "Status:</strong> Information not available"
  /** The multi-line template around the current location; its line breaks
      read as "\n". */
  const LocationOpen := "\n" + "            <strong>Current Location:</strong> "
  const LocationClose := ")\n        "

  /** The location line above the banner: the current station's name and,
      in parentheses, its code, or a not-available message. */
  function LocationHtml(current: Option<CurrentStation>): (html: string)
    ensures html == NotAvailableHtml <==> current.None?
    ensures current.Some? && '(' !in JsText(current.value.stationName) ==>
      ParseLocation(html) == Some((JsText(current.value.stationName), JsText(current.value.stationCode)))
  {
    match current
    case None => NotAvailableHtml
    case Some(cs) =>
      var name := JsText(cs.stationName);
      var code := JsText(cs.stationCode);
      var html := LocationOpen + (name + " " + ("(" + code + LocationClose));
      assert LocationOpen[0] == '\n' && NotAvailableHtml[0] == '<';
      assert html[0] == LocationOpen[0];
      if '(' !in name then
        LocationReadBack(name, code);
        html
      else
        html
  }

  /** Reads the station name and code back out of the location line. */
  function ParseLocation(html: string): Option<(string, string)> {
    match After(html, LocationOpen)
    case None => None
    case Some(r) =>
      var (named, rest) := Field(r, '(');
      if |named| >= 1 && named[|named| - 1] == ' ' && |rest| >= 1 + |LocationClose|
         && EndsWith(rest, LocationClose)
      then Some((named[..|named| - 1], rest[1..|rest| - |LocationClose|]))
      else None
  }

  lemma LocationReadBack(name: string, code: string)
    requires '(' !in name
    ensures ParseLocation(LocationOpen + (name + " " + ("(" + code + LocationClose)))
         == Some((name, code))
  {
    var rest := "(" + code + LocationClose;
    AfterPrefix(LocationOpen, name + " " + rest);
    FieldOf(name + " ", '(', rest);
    assert (name + " ")[..|name|] == name;
    assert EndsWith(rest, LocationClose);
    assert rest[1..|rest| - |LocationClose|] == code;
  }

  // ---------------------------------------------------------------------
  // Route table
  // ---------------------------------------------------------------------

  datatype StaticRow = StaticRow(
    code: string,
    name: string,
    arrival: string,
    departure: string,
    platform: string,
    isCurrent: bool)

  function StaticRowOf(station: StaticStation, index: nat, n: nat, current: Option<CurrentStation>): StaticRow {
    StaticRow(
      JsText(station.stationCode),
      JsText(station.stationName),
      ArrivalCell(station, index),
      DepartureCell(station, index, n),
      OrElse(station.platform, "--"),
      IsCurrentRow(station, current))
  }

  datatype StaticTable = RouteNotAvailable | StaticRows(rows: seq<StaticRow>)

  predicate RowsOf(route: seq<StaticStation>, current: Option<CurrentStation>, rows: seq<StaticRow>, count: nat)
    requires count <= |route| && count <= |rows|
  {
    forall k :: 0 <= k < count ==> rows[k] == StaticRowOf(route[k], k, |route|, current)
  }

  /** Appending the row of entry `i` extends the rendered prefix by one. */
  lemma RowsOfExtend(route: seq<StaticStation>, current: Option<CurrentStation>, rows: seq<StaticRow>, row: StaticRow, i: nat)
    requires i < |route| && |rows| == i
    requires RowsOf(route, current, rows, i)
    requires row == StaticRowOf(route[i], i, |route|, current)
    ensures RowsOf(route, current, rows + [row], i + 1)
  {
    var extended := rows + [row];
    forall k | 0 <= k < i + 1
      ensures extended[k] == StaticRowOf(route[k], k, |route|, current)
    {
      if k < i {
        assert extended[k] == rows[k];
      }
    }
  }

  /** `displayRouteTable` of the older client: a missing or empty route
      gives only the not-available message, otherwise one row per entry in
      input order. */
  method DisplayStaticRouteTable(routeInfo: Option<seq<StaticStation>>, current: Option<CurrentStation>)
    returns (table: StaticTable)
    ensures table.RouteNotAvailable? <==> routeInfo.None? || routeInfo.value == []
    ensures table.StaticRows? ==> |table.rows| == |routeInfo.value|
    ensures table.StaticRows? ==> RowsOf(routeInfo.value, current, table.rows, |routeInfo.value|)
  {
    if routeInfo.None? || |routeInfo.value| == 0 {
      return RouteNotAvailable;
    }
    var route := routeInfo.value;
    var rows: seq<StaticRow> := [];
    var i := 0;
    while i < |route|
      invariant 0 <= i <= |route|
      invariant |rows| == i
      invariant RowsOf(route, current, rows, i)
    {
      var row := StaticRowOf(route[i], i, |route|, current);
      RowsOfExtend(route, current, rows, row, i);
      rows := rows + [row];
      i := i + 1;
    }
    table := StaticRows(rows);
  }
}
