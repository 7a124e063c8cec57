/** The markup script.js writes into the scheduled, actual and status cells
    of a route-table row. Each render has a reader beside it, and the render
    promises that the reader recovers the cell it was given: the markup
    shows every part of the cell and confuses no two cells. */
module RouteHtml {
  import opened Common
  import opened Decimal
  import opened Text
  import opened Format
  import opened RouteTable

  const SpanClose := "</span>"
  const SmallClose := "</small>"
  const TagEnd := "\">"

  /** A '<'-free prefix followed by a '<'-free text has no '<'. */
  lemma PlainAfterLabel(prefix: string, t: string)
    requires '<' !in prefix && '<' !in t
    ensures '<' !in prefix + t
  {
  }

  // ---------------------------------------------------------------------
  // Actual times
  // ---------------------------------------------------------------------

  const ActualOpen := "<span class=\"actual-time\">"
  const NoDataHtml := "<span class=\"no-data\">--</span>"

  /** A cell of times holds at least one line and no line carries a '<'. */
  predicate ActualWellFormed(cell: ActualCell) {
    cell.Times? ==> cell.lines != [] && forall k :: 0 <= k < |cell.lines| ==> '<' !in cell.lines[k]
  }

  /** Reads an actual-times cell back out of its markup. */
  function ParseActual(html: string): Option<ActualCell> {
    if html == NoDataHtml then Some(NoData)
    else if |html| >= |ActualOpen| + |SpanClose| && StartsWith(html, ActualOpen) && EndsWith(html, SpanClose)
    then Some(Times(SplitBreaks(html[|ActualOpen|..|html| - |SpanClose|])))
    else None
  }

  lemma TimesMarkupReadBack(lines: seq<string>)
    ensures ActualOpen + Join(lines, "<br>") + SpanClose != NoDataHtml
    ensures ActualWellFormed(Times(lines)) ==>
      ParseActual(ActualOpen + Join(lines, "<br>") + SpanClose) == Some(Times(lines))
  {
    var body := Join(lines, "<br>");
    var html := ActualOpen + body + SpanClose;
    assert html[13] != NoDataHtml[13];
    if ActualWellFormed(Times(lines)) {
      assert StartsWith(html, ActualOpen);
      assert EndsWith(html, SpanClose);
      assert html[|ActualOpen|..|html| - |SpanClose|] == body;
      SplitBreaksJoin(lines);
    }
  }

  /** The actual-times markup: the lines joined by line breaks, or a dash
      when there are none. */
  function RenderActual(cell: ActualCell): (html: string)
    ensures html == NoDataHtml <==> cell.NoData?
    ensures ActualWellFormed(cell) ==> ParseActual(html) == Some(cell)
  {
    match cell
    case NoData => NoDataHtml
    case Times(lines) =>
      TimesMarkupReadBack(lines);
      ActualOpen + Join(lines, "<br>") + SpanClose
  }

  /** With a clock that writes no markup, every actual cell of the table
      is well formed, so its markup reads back as the cell. */
  lemma ActualMarkupReadsBack(clock: int -> string, stop: StopJson, index: nat, n: nat)
    requires index < n && PlainClock(clock)
    ensures ActualWellFormed(ActualCellOf(clock, stop, index, n))
    ensures ParseActual(RenderActual(ActualCellOf(clock, stop, index, n))) == Some(ActualCellOf(clock, stop, index, n))
  {
    var lines := ActualTimes(clock, stop, index, n);
    if ArrivalTimeShown(clock, stop, index) {
      PlainAfterLabel("Arr: ", clock(stop.actualArrival.value));
    }
    if DepartureTimeShown(clock, stop, index, n) {
      PlainAfterLabel("Dep: ", clock(stop.actualDeparture.value));
    }
    assert forall k :: 0 <= k < |lines| ==> '<' !in lines[k];
  }

  // ---------------------------------------------------------------------
  // Scheduled times
  // ---------------------------------------------------------------------

  const StartHtml := "<strong>Start</strong><br>"
  const EndHtml := "<br><strong>End</strong>"
  const DepBreak := "<br>Dep: "

  /** No time shown in a scheduled cell carries a '<'. */
  predicate ScheduledWellFormed(cell: ScheduledCell) {
    match cell
    case OriginCell(d) => '<' !in d
    case TerminusCell(a) => '<' !in a
    case IntermediateCell(a, d) => '<' !in a && '<' !in d
  }

  /** The text after "Arr: " up to the next '<', and what follows it. */
  function ArrivalPart(html: string): (string, string)
    requires StartsWith(html, "Arr: ")
  {
    var a := TakeUntil(html[5..], '<');
    (a, html[5 + |a|..])
  }

  /** Reads a scheduled cell back out of its markup. */
  function ParseScheduled(html: string): Option<ScheduledCell> {
    if StartsWith(html, StartHtml) then Some(OriginCell(html[|StartHtml|..]))
    else if StartsWith(html, "Arr: ") && StartsWith(ArrivalPart(html).1, DepBreak) then
      Some(IntermediateCell(ArrivalPart(html).0, ArrivalPart(html).1[|DepBreak|..]))
    else if EndsWith(html, EndHtml) then Some(TerminusCell(html[..|html| - |EndHtml|]))
    else None
  }

  lemma OriginMarkupReadBack(d: string)
    ensures ParseScheduled(StartHtml + d) == Some(OriginCell(d))
  {
    var html := StartHtml + d;
    assert StartsWith(html, StartHtml);
    assert html[|StartHtml|..] == d;
  }

  lemma IntermediateMarkupReadBack(a: string, d: string)
    ensures '<' !in a ==> ParseScheduled("Arr: " + a + DepBreak + d) == Some(IntermediateCell(a, d))
  {
    if '<' !in a {
      var html := "Arr: " + a + DepBreak + d;
      assert html[0] != StartHtml[0];
      assert StartsWith(html, "Arr: ");
      assert html[5..] == a + (DepBreak + d);
      TakeUntilWord(a, '<', DepBreak + d);
      assert html[5 + |a|..] == DepBreak + d;
    }
  }

  lemma TerminusIsNotOrigin(a: string)
    requires '<' !in a
    ensures !StartsWith(a + EndHtml, StartHtml)
  {
    var html := a + EndHtml;
    if a == [] {
      assert html[1] != StartHtml[1];
    } else {
      assert html[0] != StartHtml[0];
    }
  }

  lemma TerminusIsNotIntermediate(a: string)
    requires '<' !in a
    ensures !StartsWith(a + EndHtml, "Arr: ") || !StartsWith(ArrivalPart(a + EndHtml).1, DepBreak)
  {
    var html := a + EndHtml;
    if |a| >= 5 && a[..5] == "Arr: " {
      TerminusArrivalPart(a);
      assert EndHtml[4] != DepBreak[4];
    } else if |a| < 5 {
      ShortTerminusIsNotArrival(a);
    } else {
      assert html[..5] == a[..5];
    }
  }

  lemma TerminusArrivalPart(a: string)
    requires '<' !in a && |a| >= 5 && a[..5] == "Arr: "
    ensures StartsWith(a + EndHtml, "Arr: ") && ArrivalPart(a + EndHtml).1 == EndHtml
  {
    var html := a + EndHtml;
    assert html[..5] == a[..5];
    assert html[5..] == a[5..] + EndHtml;
    TakeUntilWord(a[5..], '<', EndHtml);
  }

  lemma ShortTerminusIsNotArrival(a: string)
    requires |a| < 5
    ensures !StartsWith(a + EndHtml, "Arr: ")
  {
    var html := a + EndHtml;
    assert html[|a|] == EndHtml[0] == '<';
    assert html[..5][|a|] == '<';
    assert '<' !in "Arr: ";
  }

  lemma TerminusMarkupReadBack(a: string)
    ensures '<' !in a ==> ParseScheduled(a + EndHtml) == Some(TerminusCell(a))
  {
    if '<' !in a {
      var html := a + EndHtml;
      TerminusIsNotOrigin(a);
      TerminusIsNotIntermediate(a);
      assert EndsWith(html, EndHtml);
      assert html[..|html| - |EndHtml|] == a;
    }
  }

  /** The scheduled markup by position: "Start" over the departure at the
      origin, the arrival over "End" at the terminus, both times elsewhere. */
  function RenderScheduled(cell: ScheduledCell): (html: string)
    ensures ScheduledWellFormed(cell) ==> ParseScheduled(html) == Some(cell)
  {
    match cell
    case OriginCell(d) =>
      OriginMarkupReadBack(d);
      StartHtml + d
    case TerminusCell(a) =>
      TerminusMarkupReadBack(a);
      a + EndHtml
    case IntermediateCell(a, d) =>
      IntermediateMarkupReadBack(a, d);
      "Arr: " + a + DepBreak + d
  }

  /** With a clock that writes no markup, every scheduled cell of the table
      reads back from its markup. */
  lemma ScheduledMarkupReadsBack(clock: int -> string, stop: StopJson, index: nat, n: nat)
    requires index < n && PlainClock(clock)
    ensures ScheduledWellFormed(ScheduledCellOf(clock, stop, index, n))
    ensures ParseScheduled(RenderScheduled(ScheduledCellOf(clock, stop, index, n)))
         == Some(ScheduledCellOf(clock, stop, index, n))
  {
    var cell := ScheduledCellOf(clock, stop, index, n);
    var arrival := ScheduledArrivalText(clock, stop, index);
    var departure := ScheduledDepartureText(clock, stop, index, n);
    assert '<' !in arrival by {
      if TruthyNum(stop.scheduledArrival) {
        assert '<' !in clock(stop.scheduledArrival.value);
      }
    }
    assert '<' !in departure by {
      if TruthyNum(stop.scheduledDeparture) {
        assert '<' !in clock(stop.scheduledDeparture.value);
      }
    }
    assert ScheduledWellFormed(cell);
  }

  // ---------------------------------------------------------------------
  // Status
  // ---------------------------------------------------------------------

  const BadgeOpen := "<span class=\"status "
  const LeftAtOpen := "<br><small class=\"departed-time\">Left at "
  const DelayOpen := "<br><small class=\""

  /** The parts of a status cell that the markup delimits: class names
      without a '"', texts without a '<', a delay class that names one of
      the delay styles, and a delay line exactly when there are delays. */
  predicate StatusWellFormed(cell: StatusCell) {
    && '"' !in cell.cssClass
    && '<' !in cell.badge
    && (cell.leftAt.Some? ==> '<' !in cell.leftAt.value)
    && (cell.delayClass.Some? <==> cell.delays != [])
    && (cell.delayClass.Some? ==> '"' !in cell.delayClass.value && StartsWith(cell.delayClass.value, "delay-"))
    && (forall k :: 0 <= k < |cell.delays| ==> '<' !in cell.delays[k])
  }

  /** The "Left at" caption of the DEPARTED override. */
  function LeftAtHtml(leftAt: Option<string>): string {
    match leftAt
    case Some(t) => LeftAtOpen + t + SmallClose
    case None => ""
  }

  /** The delay line, styled by its class. */
  function DelayHtml(delayClass: Option<string>, delays: seq<string>): string {
    match delayClass
    case Some(c) => DelayOpen + c + TagEnd + Join(delays, "<br>") + SmallClose
    case None => ""
  }

  /** The badge span followed by `rest`. */
  function BadgeHtml(css: string, badge: string, rest: string): string {
    BadgeOpen + (css + (TagEnd + (badge + (SpanClose + rest))))
  }

  /** Reads the badge span: its class, its text and the markup after it. */
  function ParseBadge(html: string): Option<(string, string, string)> {
    match After(html, BadgeOpen)
    case None => None
    case Some(r) =>
      var (css, r2) := Field(r, '"');
      match After(r2, TagEnd)
      case None => None
      case Some(r3) =>
        var (badge, r4) := Field(r3, '<');
        match After(r4, SpanClose)
        case None => None
        case Some(rest) => Some((css, badge, rest))
  }

  lemma BadgeReadBack(css: string, badge: string, rest: string)
    requires '"' !in css && '<' !in badge
    ensures ParseBadge(BadgeHtml(css, badge, rest)) == Some((css, badge, rest))
  {
    var r4 := SpanClose + rest;
    var r3 := badge + r4;
    var r2 := TagEnd + r3;
    var r := css + r2;
    AfterPrefix(BadgeOpen, r);
    FieldOf(css, '"', r2);
    AfterPrefix(TagEnd, r3);
    FieldOf(badge, '<', r4);
    AfterPrefix(SpanClose, rest);
  }

  /** Reads an optional "Left at" caption and the markup after it. */
  function ParseLeftAt(s: string): Option<(Option<string>, string)> {
    if StartsWith(s, LeftAtOpen) then
      var r := s[|LeftAtOpen|..];
      var t := TakeUntil(r, '<');
      var r2 := r[|t|..];
      if StartsWith(r2, SmallClose) then Some((Some(t), r2[|SmallClose|..])) else None
    else Some((None, s))
  }

  lemma LeftAtReadBack(leftAt: Option<string>, rest: string)
    requires leftAt.Some? ==> '<' !in leftAt.value
    requires !StartsWith(rest, LeftAtOpen)
    ensures ParseLeftAt(LeftAtHtml(leftAt) + rest) == Some((leftAt, rest))
  {
    if leftAt.Some? {
      var t := leftAt.value;
      var html := LeftAtOpen + t + SmallClose + rest;
      assert StartsWith(html, LeftAtOpen);
      var r2 := SmallClose + rest;
      assert html[|LeftAtOpen|..] == t + r2;
      TakeUntilWord(t, '<', r2);
      assert (t + r2)[|t|..] == r2;
      assert r2[|SmallClose|..] == rest;
    } else {
      assert LeftAtHtml(leftAt) + rest == rest;
    }
  }

  /** Reads an optional delay line: its class and its delays. */
  function ParseDelays(s: string): Option<(Option<string>, seq<string>)> {
    if s == "" then Some((None, []))
    else if StartsWith(s, DelayOpen) then
      var r := s[|DelayOpen|..];
      var c := TakeUntil(r, '"');
      var r2 := r[|c|..];
      if |r2| >= |TagEnd| + |SmallClose| && StartsWith(r2, TagEnd) && EndsWith(r2, SmallClose)
      then Some((Some(c), SplitBreaks(r2[|TagEnd|..|r2| - |SmallClose|])))
      else None
    else None
  }

  lemma DelayLineReadBack(delayClass: Option<string>, delays: seq<string>)
    requires delayClass.Some? <==> delays != []
    requires delayClass.Some? ==> '"' !in delayClass.value
    requires forall k :: 0 <= k < |delays| ==> '<' !in delays[k]
    ensures ParseDelays(DelayHtml(delayClass, delays)) == Some((delayClass, delays))
  {
    if delayClass.Some? {
      DelaysReadBack(delayClass.value, delays);
    }
  }

  lemma DelaysReadBack(c: string, delays: seq<string>)
    requires '"' !in c && delays != []
    requires forall k :: 0 <= k < |delays| ==> '<' !in delays[k]
    ensures ParseDelays(DelayHtml(Some(c), delays)) == Some((Some(c), delays))
  {
    var body := Join(delays, "<br>");
    var r2 := TagEnd + body + SmallClose;
    var html := DelayOpen + (c + r2);
    assert DelayHtml(Some(c), delays) == html;
    assert html != "" && StartsWith(html, DelayOpen);
    var r := html[|DelayOpen|..];
    assert r == c + r2;
    TakeUntilWord(c, '"', r2);
    assert TakeUntil(r, '"') == c && r[|c|..] == r2;
    DelayBodyReadBack(body);
    SplitBreaksJoin(delays);
    assert ParseDelays(html) == Some((Some(c), SplitBreaks(body)));
  }

  /** The lines of a delay element sit between its tag end and its close. */
  lemma DelayBodyReadBack(body: string)
    ensures var r2 := TagEnd + body + SmallClose;
      && |r2| >= |TagEnd| + |SmallClose| && StartsWith(r2, TagEnd) && EndsWith(r2, SmallClose)
      && r2[|TagEnd|..|r2| - |SmallClose|] == body
  {
    var r2 := TagEnd + body + SmallClose;
    assert r2[..|TagEnd|] == TagEnd;
    assert r2[|r2| - |SmallClose|..] == SmallClose;
  }

  /** A delay line never passes for the "Left at" caption: their classes
      differ in the third letter. */
  lemma DelaysAreNotLeftAt(delayClass: Option<string>, delays: seq<string>)
    requires delayClass.Some? ==> StartsWith(delayClass.value, "delay-")
    ensures !StartsWith(DelayHtml(delayClass, delays), LeftAtOpen)
  {
    if delayClass.Some? {
      var html := DelayHtml(delayClass, delays);
      assert html[|DelayOpen| + 2] == delayClass.value[2] == 'l';
    }
  }

  /** Reads a status cell back out of its markup. */
  function ParseStatus(html: string): Option<StatusCell> {
    match ParseBadge(html)
    case None => None
    case Some((css, badge, r)) =>
      match ParseLeftAt(r)
      case None => None
      case Some((leftAt, r2)) =>
        match ParseDelays(r2)
        case None => None
        case Some((delayClass, delays)) => Some(StatusCell(css, badge, leftAt, delayClass, delays))
  }

  lemma StatusMarkupReadBack(cell: StatusCell)
    ensures StatusWellFormed(cell) ==>
      ParseStatus(BadgeHtml(cell.cssClass, cell.badge,
                            LeftAtHtml(cell.leftAt) + DelayHtml(cell.delayClass, cell.delays)))
      == Some(cell)
  {
    if StatusWellFormed(cell) {
      var delayHtml := DelayHtml(cell.delayClass, cell.delays);
      var rest := LeftAtHtml(cell.leftAt) + delayHtml;
      var html := BadgeHtml(cell.cssClass, cell.badge, rest);
      BadgeReadBack(cell.cssClass, cell.badge, rest);
      assert ParseBadge(html) == Some((cell.cssClass, cell.badge, rest));
      DelaysAreNotLeftAt(cell.delayClass, cell.delays);
      LeftAtReadBack(cell.leftAt, delayHtml);
      assert ParseLeftAt(rest) == Some((cell.leftAt, delayHtml));
      DelayLineReadBack(cell.delayClass, cell.delays);
      assert ParseDelays(delayHtml) == Some((cell.delayClass, cell.delays));
    }
  }

  /** The status markup: the badge span, then the "Left at" caption when
      there is one, then the delay line when there are delays. */
  function RenderStatus(cell: StatusCell): (html: string)
    ensures StatusWellFormed(cell) ==> ParseStatus(html) == Some(cell)
  {
    StatusMarkupReadBack(cell);
    BadgeHtml(cell.cssClass, cell.badge, LeftAtHtml(cell.leftAt) + DelayHtml(cell.delayClass, cell.delays))
  }

  lemma DelayTextPlain(leg: Leg, minutes: int)
    ensures '<' !in DelayText(leg, minutes)
  {
    var head := LegLabel(leg);
    assert '<' !in head;
    if minutes > 0 {
      var digits := NatToString(minutes);
      DigitsHaveNo(digits, '<');
      assert DelayText(leg, minutes) == head + ("+" + digits + "m late");
    } else if minutes < 0 {
      var digits := NatToString(-minutes);
      DigitsHaveNo(digits, '<');
      assert DelayText(leg, minutes) == head + (digits + "m early");
    } else {
      assert DelayText(leg, minutes) == head + "On time";
    }
  }

  lemma DelayTextsPlain(a: seq<Annotation>)
    ensures forall k :: 0 <= k < |a| ==> '<' !in DelayTexts(a)[k]
  {
    forall k | 0 <= k < |a|
      ensures '<' !in DelayTexts(a)[k]
    {
      DelayTextPlain(a[k].leg, a[k].minutes);
    }
  }

  lemma VerdictClassFits(a: seq<Annotation>)
    ensures StartsWith(VerdictClass(a), "delay-") && '"' !in VerdictClass(a)
  {
    var c := VerdictClass(a);
    assert c == "delay-late" || c == "delay-early" || c == "delay-ontime";
  }

  lemma ClassNameFits(status: StopStatus, index: nat, n: nat)
    requires index < n
    ensures '"' !in StatusClassName(status) && '"' !in "departed"
    ensures '<' !in StatusText(status, index, n)
  {
    match status
    case Completed =>
    case Current =>
    case Upcoming =>
    case Scheduled =>
  }

  lemma StatusBadgeFits(clock: int -> string, stop: StopJson, status: StopStatus, index: nat, n: nat)
    requires index < n
    ensures var cell := StatusCellOf(clock, stop, status, index, n);
      '"' !in cell.cssClass && '<' !in cell.badge
  {
    ClassNameFits(status, index, n);
  }

  lemma StatusLeftAtFits(clock: int -> string, stop: StopJson, status: StopStatus, index: nat, n: nat)
    requires index < n && PlainClock(clock)
    ensures var cell := StatusCellOf(clock, stop, status, index, n);
      cell.leftAt.Some? ==> '<' !in cell.leftAt.value
  {
    if DepartedOverride(clock, stop, status, index, n) {
      assert '<' !in clock(stop.actualDeparture.value);
    }
  }

  lemma StatusDelaysFit(clock: int -> string, stop: StopJson, status: StopStatus, index: nat, n: nat)
    requires index < n
    ensures var cell := StatusCellOf(clock, stop, status, index, n);
      && (cell.delayClass.Some? ==> '"' !in cell.delayClass.value && StartsWith(cell.delayClass.value, "delay-"))
      && (forall k :: 0 <= k < |cell.delays| ==> '<' !in cell.delays[k])
  {
    var a := Annotations(stop, index, n);
    VerdictClassFits(a);
    DelayTextsPlain(a);
  }

  /** The classes and badges the table uses, and its delay texts, fit the
      markup. */
  lemma StatusCellWellFormed(clock: int -> string, stop: StopJson, status: StopStatus, index: nat, n: nat)
    requires index < n && PlainClock(clock)
    ensures StatusWellFormed(StatusCellOf(clock, stop, status, index, n))
  {
    StatusBadgeFits(clock, stop, status, index, n);
    StatusLeftAtFits(clock, stop, status, index, n);
    StatusDelaysFit(clock, stop, status, index, n);
  }

  /** With a clock that writes no markup, every status cell of the table
      reads back from its markup: badge, caption, delay class and delays. */
  lemma StatusMarkupReadsBack(clock: int -> string, stop: StopJson, status: StopStatus, index: nat, n: nat)
    requires index < n && PlainClock(clock)
    ensures ParseStatus(RenderStatus(StatusCellOf(clock, stop, status, index, n)))
         == Some(StatusCellOf(clock, stop, status, index, n))
  {
    StatusCellWellFormed(clock, stop, status, index, n);
  }
}
