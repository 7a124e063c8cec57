/** The per-stop reconciliation of script.js `displayRouteTable`: each live
    route entry is classified, its delays are annotated, and its scheduled,
    actual and status cells are produced. The DOM writes themselves are not
    modelled; the strings and values they would receive are. */
module RouteTable {
  import opened Common
  import opened Decimal
  import opened Text
  import opened Format

  /** A live route entry as the browser sees it after parsing the JSON body.
      `station?.code` and `station?.name` are the nested station object's
      fields; `stationCode` and `stationName` the flat fallbacks. */
  datatype StopJson = StopJson(
    stationObjCode: Option<string>,
    stationObjName: Option<string>,
    stationCode: Option<string>,
    stationName: Option<string>,
    status: Option<string>,
    scheduledArrival: Option<int>,
    scheduledDeparture: Option<int>,
    actualArrival: Option<int>,
    actualDeparture: Option<int>,
    delayArrivalMinutes: Option<int>,
    delayDepartureMinutes: Option<int>,
    platform: Option<string>)

  /** The four values `stationStatus` takes. */
  datatype StopStatus = Completed | Current | Upcoming | Scheduled

  /** `stationStatus` together with the separately kept `isCurrent` flag. */
  datatype Classification = Classification(status: StopStatus, isCurrent: bool)

  // ---------------------------------------------------------------------
  // Classification
  // ---------------------------------------------------------------------

  /** The `switch` on a truthy status tag. An "Arrived" tag means current at
      every position, the terminus included. */
  function StatusFromTag(tag: string): (c: Classification)
    ensures c.isCurrent <==> c.status == Current
    ensures c.status == Completed <==> tag == "Departed"
    ensures c.status == Current <==> tag == "Arrived"
    ensures c.status == Upcoming <==> tag == "Upcoming"
    ensures c.status == Scheduled <==> tag != "Departed" && tag != "Arrived" && tag != "Upcoming"
  {
    match tag
    case "Departed" => Classification(Completed, false)
    case "Arrived" => Classification(Current, true)
    case "Upcoming" => Classification(Upcoming, false)
    case _ => Classification(Scheduled, false)
  }

  /** The fallback when no tag is present, from which actual times exist
      (`!= null`, so an epoch of 0 counts as present here). The third branch
      of the source repeats half of the second and never decides anything. */
  function StatusFromTimes(hasArrival: bool, hasDeparture: bool, index: nat, n: nat): (c: Classification)
    requires index < n
    ensures c.isCurrent <==> c.status == Current
    ensures c.status == Current <==> hasArrival && !hasDeparture && index < n - 1
    ensures c.status == Completed <==> hasDeparture || (hasArrival && index == n - 1)
    ensures c.status == Upcoming <==> !hasArrival && !hasDeparture
    ensures c.status != Scheduled
  {
    if hasArrival && !hasDeparture && index < n - 1 then Classification(Current, true)
    else if hasDeparture || (hasArrival && index == n - 1) then Classification(Completed, false)
    else Classification(Upcoming, false)
  }

  /** Lines 194-228 of script.js for the stop at `index` of `n`: a truthy tag
      decides through `StatusFromTag`; only a missing or empty tag falls back
      to the actual times. */
  function Classify(stop: StopJson, index: nat, n: nat): (c: Classification)
    requires index < n
    ensures c.isCurrent <==> c.status == Current
    ensures TruthyStr(stop.status) ==>
      && (c.status == Completed <==> stop.status.value == "Departed")
      && (c.status == Current <==> stop.status.value == "Arrived")
      && (c.status == Upcoming <==> stop.status.value == "Upcoming")
    ensures !TruthyStr(stop.status) ==>
      && c.status != Scheduled
      && (c.status == Current <==>
            stop.actualArrival.Some? && stop.actualDeparture.None? && index < n - 1)
      && (c.status == Completed <==>
            stop.actualDeparture.Some? || (stop.actualArrival.Some? && index == n - 1))
      && (c.status == Upcoming <==> stop.actualArrival.None? && stop.actualDeparture.None?)
  {
    if TruthyStr(stop.status) then StatusFromTag(stop.status.value)
    else StatusFromTimes(stop.actualArrival.Some?, stop.actualDeparture.Some?, index, n)
  }

  /** Nothing stops two entries from both being current: every entry tagged
      "Arrived" is. */
  lemma SeveralStopsCanBeCurrent(stop: StopJson)
    requires stop.status == Some("Arrived")
    ensures Classify(stop, 0, 2).isCurrent && Classify(stop, 1, 2).isCurrent
  {
  }

  // ---------------------------------------------------------------------
  // Delay annotations
  // ---------------------------------------------------------------------

  datatype Leg = ArrivalLeg | DepartureLeg

  datatype Verdict = Late | Early | OnTime

  /** The verdict is a function of the delay's sign alone. */
  function VerdictOf(minutes: int): (v: Verdict)
    ensures v == Late <==> minutes > 0
    ensures v == Early <==> minutes < 0
    ensures v == OnTime <==> minutes == 0
  {
    if minutes > 0 then Late else if minutes < 0 then Early else OnTime
  }

  function LegLabel(leg: Leg): string {
    match leg
    case ArrivalLeg => "Arr: "
    case DepartureLeg => "Dep: "
  }

  /** The text pushed onto `delays`: "+Nm late", "Nm early" with the
      magnitude, or "On time", after the leg's label. */
  function DelayText(leg: Leg, minutes: int): (s: string)
    ensures StartsWith(s, LegLabel(leg))
  {
    LegLabel(leg) +
      match VerdictOf(minutes)
      case Late => "+" + NatToString(minutes) + "m late"
      case Early => NatToString(-minutes) + "m early"
      case OnTime => "On time"
  }

  /** Reads a delay text back into its leg and signed minutes. */
  function ParseDelayText(s: string): Option<(Leg, int)> {
    if |s| < 5 then None
    else
      var leg := if s[..5] == "Arr: " then Some(ArrivalLeg) else if s[..5] == "Dep: " then Some(DepartureLeg) else None;
      var r := s[5..];
      match leg
      case None => None
      case Some(l) =>
        if r == "On time" then Some((l, 0))
        else if |r| > 7 && r[0] == '+' && r[|r| - 6..] == "m late" then
          match ParseNat(r[1..|r| - 6])
          case Some(m) => Some((l, m))
          case None => None
        else if |r| > 7 && r[|r| - 7..] == "m early" then
          match ParseNat(r[..|r| - 7])
          case Some(m) => Some((l, -(m as int)))
          case None => None
        else None
  }

  /** Every delay text reads back as the leg and minutes it was made from,
      so late, early and on-time texts never coincide. */
  lemma DelayTextRoundTrip(leg: Leg, minutes: int)
    ensures ParseDelayText(DelayText(leg, minutes)) == Some((leg, minutes))
  {
    var s := DelayText(leg, minutes);
    var prefix := LegLabel(leg);
    assert s[..5] == prefix;
    var r := s[5..];
    if minutes > 0 {
      var digits := NatToString(minutes);
      assert r == "+" + digits + "m late";
      assert r[1..|r| - 6] == digits;
      assert r[|r| - 6..] == "m late";
      ParseNatRoundTrip(minutes);
    } else if minutes < 0 {
      var digits := NatToString(-minutes);
      assert r == digits + "m early";
      assert r[0] != '+';
      assert r[..|r| - 7] == digits;
      assert r[|r| - 7..] == "m early";
      assert |r| != 7;
      ParseNatRoundTrip(-minutes);
    } else {
      assert r == "On time";
    }
  }

  /** One emitted delay annotation. */
  datatype Annotation = Annotation(leg: Leg, minutes: int)

  /** The arrival leg is considered at every stop but the origin, and only
      when the actual arrival is truthy. */
  predicate ArrivalLegShown(stop: StopJson, index: nat) {
    TruthyNum(stop.actualArrival) && index > 0
  }

  /** The departure leg is considered at every stop but the terminus, and
      only when the actual departure is truthy. */
  predicate DepartureLegShown(stop: StopJson, index: nat, n: nat) {
    TruthyNum(stop.actualDeparture) && index < n - 1
  }

  /** The delays of a stop: one per considered leg whose delay is a number
      (an absent delay gives none, which is not the same as 0), arrival
      first. */
  function Annotations(stop: StopJson, index: nat, n: nat): (a: seq<Annotation>)
    requires index < n
    ensures |a| <= 2
    ensures ArrivalLegShown(stop, index) && stop.delayArrivalMinutes.Some? <==>
      |a| > 0 && a[0].leg == ArrivalLeg
    ensures DepartureLegShown(stop, index, n) && stop.delayDepartureMinutes.Some? <==>
      |a| > 0 && a[|a| - 1].leg == DepartureLeg
    ensures forall k :: 0 <= k < |a| && a[k].leg == ArrivalLeg ==>
      k == 0 && a[k].minutes == stop.delayArrivalMinutes.value
    ensures forall k :: 0 <= k < |a| && a[k].leg == DepartureLeg ==>
      k == |a| - 1 && a[k].minutes == stop.delayDepartureMinutes.value
  {
    var arr := if ArrivalLegShown(stop, index) && stop.delayArrivalMinutes.Some?
      then [Annotation(ArrivalLeg, stop.delayArrivalMinutes.value)] else [];
    var dep := if DepartureLegShown(stop, index, n) && stop.delayDepartureMinutes.Some?
      then [Annotation(DepartureLeg, stop.delayDepartureMinutes.value)] else [];
    arr + dep
  }

  /** The origin never carries an arrival annotation and the terminus never
      a departure one, whatever the feed says. */
  lemma NoArrivalAtOriginNoDepartureAtTerminus(stop: StopJson, n: nat)
    requires n > 0
    ensures var a := Annotations(stop, 0, n); forall k :: 0 <= k < |a| ==> a[k].leg != ArrivalLeg
    ensures var a := Annotations(stop, n - 1, n); forall k :: 0 <= k < |a| ==> a[k].leg != DepartureLeg
  {
  }

  function DelayTexts(a: seq<Annotation>): (texts: seq<string>)
    ensures |texts| == |a|
    ensures forall k :: 0 <= k < |a| ==> texts[k] == DelayText(a[k].leg, a[k].minutes)
  {
    seq(|a|, k requires 0 <= k < |a| => DelayText(a[k].leg, a[k].minutes))
  }

  /** The class of the delay line: any text mentioning "late" wins, then any
      mentioning "early". */
  function DelayClass(texts: seq<string>): string {
    if exists k :: 0 <= k < |texts| && Contains(texts[k], "late") then "delay-late"
    else if exists k :: 0 <= k < |texts| && Contains(texts[k], "early") then "delay-early"
    else "delay-ontime"
  }

  lemma DigitsLackLetter(s: string, c: char)
    requires IsDigits(s) && !IsDigit(c)
    ensures c !in s
  {
  }

  /** A delay text mentions "late" exactly when the delay is positive. */
  lemma MentionsLate(leg: Leg, minutes: int)
    ensures Contains(DelayText(leg, minutes), "late") <==> minutes > 0
  {
    var s := DelayText(leg, minutes);
    var head := LegLabel(leg);
    if minutes > 0 {
      var tail := "+" + NatToString(minutes) + "m late";
      assert s == head + tail;
      assert s[|s| - 4..] == tail[|tail| - 4..] == "late";
      assert OccursAt(s, "late", |s| - 4);
    } else if minutes < 0 {
      var tail := NatToString(-minutes) + "m early";
      assert s == head + tail;
      assert 't' !in head;
      DigitsLackLetter(NatToString(-minutes), 't');
      assert 't' !in tail;
      assert 't' !in s;
      if Contains(s, "late") {
        ContainsChars(s, "late", 2);
      }
    } else {
      assert s == head + "On time";
      assert 'l' !in head && 'l' !in "On time";
      assert 'l' !in s;
      if Contains(s, "late") {
        ContainsChars(s, "late", 0);
      }
    }
  }

  /** A delay text mentions "early" exactly when the delay is negative. */
  lemma MentionsEarly(leg: Leg, minutes: int)
    ensures Contains(DelayText(leg, minutes), "early") <==> minutes < 0
  {
    var s := DelayText(leg, minutes);
    var head := LegLabel(leg);
    if minutes < 0 {
      var tail := NatToString(-minutes) + "m early";
      assert s == head + tail;
      assert s[|s| - 5..] == tail[|tail| - 5..] == "early";
      assert OccursAt(s, "early", |s| - 5);
    } else {
      var tail := if minutes > 0 then "+" + NatToString(minutes) + "m late" else "On time";
      assert s == head + tail;
      assert 'y' !in head;
      if minutes > 0 {
        DigitsLackLetter(NatToString(minutes), 'y');
      }
      assert 'y' !in tail;
      assert 'y' !in s;
      if Contains(s, "early") {
        ContainsChars(s, "early", 4);
      }
    }
  }

  /** The class the delays call for: late if any delay is positive, else
      early if any is negative, else on time. */
  function VerdictClass(a: seq<Annotation>): string {
    if exists k :: 0 <= k < |a| && VerdictOf(a[k].minutes) == Late then "delay-late"
    else if exists k :: 0 <= k < |a| && VerdictOf(a[k].minutes) == Early then "delay-early"
    else "delay-ontime"
  }

  /** The text search picks the same class as the verdicts it was written
      from. */
  lemma DelayClassByVerdict(a: seq<Annotation>)
    ensures DelayClass(DelayTexts(a)) == VerdictClass(a)
  {
    var texts := DelayTexts(a);
    forall k | 0 <= k < |a|
      ensures Contains(texts[k], "late") <==> VerdictOf(a[k].minutes) == Late
      ensures Contains(texts[k], "early") <==> VerdictOf(a[k].minutes) == Early
    {
      MentionsLate(a[k].leg, a[k].minutes);
      MentionsEarly(a[k].leg, a[k].minutes);
    }
  }

  // ---------------------------------------------------------------------
  // Cells
  // ---------------------------------------------------------------------

  /** An actual arrival time is shown: the leg is considered and the clock
      renders the epoch as something other than "--". */
  predicate ArrivalTimeShown(clock: int -> string, stop: StopJson, index: nat) {
    ArrivalLegShown(stop, index) && clock(stop.actualArrival.value) != "--"
  }

  predicate DepartureTimeShown(clock: int -> string, stop: StopJson, index: nat, n: nat) {
    DepartureLegShown(stop, index, n) && clock(stop.actualDeparture.value) != "--"
  }

  /** The actual times shown: "Arr: t" for a shown arrival, first, and
      "Dep: t" for a shown departure, last, and nothing else. */
  function ActualTimes(clock: int -> string, stop: StopJson, index: nat, n: nat): (lines: seq<string>)
    requires index < n
    ensures |lines| == (if ArrivalTimeShown(clock, stop, index) then 1 else 0)
                     + (if DepartureTimeShown(clock, stop, index, n) then 1 else 0)
    ensures ArrivalTimeShown(clock, stop, index) ==> lines[0] == "Arr: " + clock(stop.actualArrival.value)
    ensures DepartureTimeShown(clock, stop, index, n) ==>
      lines[|lines| - 1] == "Dep: " + clock(stop.actualDeparture.value)
    ensures index == 0 ==> forall k :: 0 <= k < |lines| ==> StartsWith(lines[k], "Dep: ")
    ensures index == n - 1 ==> forall k :: 0 <= k < |lines| ==> StartsWith(lines[k], "Arr: ")
  {
    var arr := if ArrivalLegShown(stop, index) && FormatTimeIST(clock, stop.actualArrival) != "--"
      then ["Arr: " + FormatTimeIST(clock, stop.actualArrival)] else [];
    var dep := if DepartureLegShown(stop, index, n) && FormatTimeIST(clock, stop.actualDeparture) != "--"
      then ["Dep: " + FormatTimeIST(clock, stop.actualDeparture)] else [];
    arr + dep
  }

  datatype ActualCell = Times(lines: seq<string>) | NoData

  function ActualCellOf(clock: int -> string, stop: StopJson, index: nat, n: nat): (cell: ActualCell)
    requires index < n
    ensures cell.NoData? <==> ActualTimes(clock, stop, index, n) == []
    ensures cell.Times? ==> cell.lines == ActualTimes(clock, stop, index, n)
  {
    var lines := ActualTimes(clock, stop, index, n);
    if lines != [] then Times(lines) else NoData
  }

  /** The scheduled cell by position: the origin shows only "Start" and a
      departure, the terminus only an arrival and "End", every other stop
      both. */
  datatype ScheduledCell =
    | OriginCell(departure: string)
    | TerminusCell(arrival: string)
    | IntermediateCell(arrival: string, departure: string)

  function ScheduledArrivalText(clock: int -> string, stop: StopJson, index: nat): string {
    if TruthyNum(stop.scheduledArrival) then FormatTimeIST(clock, stop.scheduledArrival)
    else if index == 0 then "Start" else "--"
  }

  function ScheduledDepartureText(clock: int -> string, stop: StopJson, index: nat, n: nat): string {
    if TruthyNum(stop.scheduledDeparture) then FormatTimeIST(clock, stop.scheduledDeparture)
    else if index == n - 1 then "End" else "--"
  }

  /** Index 0 is tested first, so a one-stop route is an origin; a missing
      time shows "--", except the origin's departure of a one-stop route,
      which shows "End". */
  function ScheduledCellOf(clock: int -> string, stop: StopJson, index: nat, n: nat): (cell: ScheduledCell)
    requires index < n
    ensures cell.OriginCell? <==> index == 0
    ensures cell.TerminusCell? <==> index != 0 && index == n - 1
    ensures cell.IntermediateCell? <==> 0 < index < n - 1
    ensures cell.OriginCell? ==>
      cell.departure == (if TruthyNum(stop.scheduledDeparture) then clock(stop.scheduledDeparture.value)
       else if n == 1 then "End" else "--")
    ensures !cell.OriginCell? ==>
      cell.arrival == (if TruthyNum(stop.scheduledArrival) then clock(stop.scheduledArrival.value) else "--")
    ensures cell.IntermediateCell? ==>
      cell.departure == (if TruthyNum(stop.scheduledDeparture) then clock(stop.scheduledDeparture.value) else "--")
  {
    var arrival := ScheduledArrivalText(clock, stop, index);
    var departure := ScheduledDepartureText(clock, stop, index, n);
    if index == 0 then OriginCell(departure)
    else if index == n - 1 then TerminusCell(arrival)
    else IntermediateCell(arrival, departure)
  }

  /** `getStatusText`. Its 'NO DATA' default is unreachable: `stationStatus`
      only ever holds the four values of `StopStatus`. */
  function StatusText(status: StopStatus, index: nat, n: nat): (badge: string)
    requires index < n
    ensures badge == "ARRIVED" <==> status == Current || (status == Completed && index == n - 1)
    ensures badge == "DEPARTED" <==> status == Completed && index < n - 1
    ensures badge == "UPCOMING" <==> status == Upcoming
    ensures badge == "SCHEDULED" <==> status == Scheduled
  {
    match status
    case Completed => if index == n - 1 then "ARRIVED" else "DEPARTED"
    case Current => "ARRIVED"
    case Upcoming => "UPCOMING"
    case Scheduled => "SCHEDULED"
  }

  /** The CSS class named after `stationStatus`. */
  function StatusClassName(status: StopStatus): string {
    match status
    case Completed => "completed"
    case Current => "current"
    case Upcoming => "upcoming"
    case Scheduled => "scheduled"
  }

  /** The status cell: a labelled badge, the "Left at" caption of the
      DEPARTED override, and the delay line. */
  datatype StatusCell = StatusCell(
    cssClass: string,
    badge: string,
    leftAt: Option<string>,
    delayClass: Option<string>,
    delays: seq<string>)

  /** The DEPARTED override applies to a completed stop other than the
      terminus whose truthy actual departure the clock renders. */
  predicate DepartedOverride(clock: int -> string, stop: StopJson, status: StopStatus, index: nat, n: nat) {
    TruthyNum(stop.actualDeparture) && index < n - 1 && status == Completed
    && clock(stop.actualDeparture.value) != "--"
  }

  function StatusCellOf(clock: int -> string, stop: StopJson, status: StopStatus, index: nat, n: nat): (cell: StatusCell)
    requires index < n
    ensures cell.badge == StatusText(status, index, n)
    ensures cell.leftAt.Some? <==> DepartedOverride(clock, stop, status, index, n)
    ensures cell.leftAt.Some? ==> cell.leftAt.value == clock(stop.actualDeparture.value)
    ensures cell.cssClass == if DepartedOverride(clock, stop, status, index, n) then "departed" else StatusClassName(status)
    ensures cell.delays == DelayTexts(Annotations(stop, index, n))
    ensures cell.delayClass.Some? <==> Annotations(stop, index, n) != []
    ensures cell.delayClass.Some? ==> cell.delayClass.value == VerdictClass(Annotations(stop, index, n))
  {
    DelayClassByVerdict(Annotations(stop, index, n));
    var delays := DelayTexts(Annotations(stop, index, n));
    var delayClass := if |delays| > 0 then Some(DelayClass(delays)) else None;
    if TruthyNum(stop.actualDeparture) && index < n - 1 && status == Completed
       && FormatTimeIST(clock, stop.actualDeparture) != "--"
    then StatusCell("departed", "DEPARTED", Some(FormatTimeIST(clock, stop.actualDeparture)), delayClass, delays)
    else StatusCell(StatusClassName(status), StatusText(status, index, n), None, delayClass, delays)
  }

  /** One rendered row of the route table. */
  datatype StopView = StopView(
    code: string,
    name: string,
    scheduled: ScheduledCell,
    actual: ActualCell,
    platform: string,
    status: StopStatus,
    statusCell: StatusCell,
    isCurrent: bool)

  /** The body of the `forEach` callback for the entry at `index` of `n`. */
  function StopViewOf(clock: int -> string, stop: StopJson, index: nat, n: nat): (v: StopView)
    requires index < n
    ensures v.isCurrent <==> v.status == Current
    ensures v.status == Classify(stop, index, n).status
    ensures v.name == if TruthyStr(stop.stationObjName) then stop.stationObjName.value
                      else if TruthyStr(stop.stationName) then stop.stationName.value
                      else "Unknown Station"
    ensures v.code == if TruthyStr(stop.stationObjCode) then stop.stationObjCode.value
                      else if TruthyStr(stop.stationCode) then stop.stationCode.value
                      else "--"
    ensures v.platform == if TruthyStr(stop.platform) then stop.platform.value else "--"
    ensures v.scheduled == ScheduledCellOf(clock, stop, index, n)
    ensures v.actual == ActualCellOf(clock, stop, index, n)
    ensures v.statusCell == StatusCellOf(clock, stop, v.status, index, n)
  {
    var c := Classify(stop, index, n);
    StopView(
      OrElse(stop.stationObjCode, OrElse(stop.stationCode, "--")),
      OrElse(stop.stationObjName, OrElse(stop.stationName, "Unknown Station")),
      ScheduledCellOf(clock, stop, index, n),
      ActualCellOf(clock, stop, index, n),
      OrElse(stop.platform, "--"),
      c.status,
      StatusCellOf(clock, stop, c.status, index, n),
      c.isCurrent)
  }

  datatype RouteTableView = NotAvailable | Rows(rows: seq<StopView>)

  /** The first `count` rows are the views of the first `count` entries. */
  predicate RowsRender(clock: int -> string, route: seq<StopJson>, rows: seq<StopView>, count: nat)
    requires count <= |route| && count <= |rows|
  {
    forall k :: 0 <= k < count ==> rows[k] == StopViewOf(clock, route[k], k, |route|)
  }

  /** Appending the view of entry `i` extends the rendered prefix by one. */
  lemma RowsRenderExtend(clock: int -> string, route: seq<StopJson>, rows: seq<StopView>, row: StopView, i: nat)
    requires i < |route| && |rows| == i
    requires RowsRender(clock, route, rows, i)
    requires row == StopViewOf(clock, route[i], i, |route|)
    ensures RowsRender(clock, route, rows + [row], i + 1)
  {
    EarlierRowsKept(clock, route, rows, row, i);
  }

  lemma EarlierRowsKept(clock: int -> string, route: seq<StopJson>, rows: seq<StopView>, row: StopView, i: nat)
    requires i <= |route| && |rows| == i
    requires RowsRender(clock, route, rows, i)
    ensures RowsRender(clock, route, rows + [row], i)
  {
    forall k | 0 <= k < i
      ensures (rows + [row])[k] == StopViewOf(clock, route[k], k, |route|)
    {
      assert (rows + [row])[k] == rows[k];
    }
  }

  /** `displayRouteTable`: a missing or empty route gives only the
      not-available message; otherwise one row per entry, in input order. */
  method DisplayRouteTable(clock: int -> string, routeInfo: Option<seq<StopJson>>) returns (table: RouteTableView)
    ensures table.NotAvailable? <==> routeInfo.None? || routeInfo.value == []
    ensures table.Rows? ==> |table.rows| == |routeInfo.value|
    ensures table.Rows? ==> RowsRender(clock, routeInfo.value, table.rows, |routeInfo.value|)
  {
    if routeInfo.None? || |routeInfo.value| == 0 {
      return NotAvailable;
    }
    var route := routeInfo.value;
    var rows: seq<StopView> := [];
    var i := 0;
    while i < |route|
      invariant 0 <= i <= |route|
      invariant |rows| == i
      invariant RowsRender(clock, route, rows, i)
    {
      var row := StopViewOf(clock, route[i], i, |route|);
      RowsRenderExtend(clock, route, rows, row, i);
      rows := rows + [row];
      i := i + 1;
    }
    table := Rows(rows);
  }
}
