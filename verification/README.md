# train-rs: live running status, reconciled and rendered

train-rs serves the live running status of an Indian Railways train. The
server takes an upstream response that holds a static itinerary and a live
feed. It fills in the train's running-day names, gives every live stop the
itinerary's station name, and derives a status for each stop from its actual
arrival and departure epochs compared with the current time. It answers
`/running/status` with that record as JSON, with keys `train` and
`live_data`, and serves every other path from the `static` directory
(src/main.rs:27-30).

The repository holds two browser clients:

- `static/script.js` is the page that is served. It reads
  `data.currentStation` and `data.routeInfo`. The body has neither key, so
  below the train header it always shows "Information not available" and no
  route (see Findings). Its own logic is modelled as written: scheduled
  minutes with Start/End placeholders, the current-station match by code or
  name, and a delay banner.
- `script.js` lies outside the served directory. It reads the body's own
  `live_data.route` (script.js:157). It classifies each stop as completed,
  current, upcoming or scheduled. It builds a scheduled cell, an actual-time
  cell, a status badge and delay notes, and it has formatting helpers. The
  model uses it as the intended rendering of the body.

This project models those decisions as pure Dafny functions and proves what
they guarantee:

- `common.dfy`: `Option`/`Result`, bounded integer types, JavaScript truthiness.
- `decimal.dfy`: numerals and their parsers, with round trips.
- `text.dfy`: join, split, `trim_end`, substring search and the small
  readers the markup parsers use.
- `running_days.dfy`: the running-days bit set and its names.
- `live_model.dfy`: the server records, `update_status`,
  `update_station_name` and the `From` conversions.
- `format.dfy`: `formatTime`, `formatDuration`, `formatTimeIST` and the
  train-number check.
- `route_table.dfy`: script.js's `displayRouteTable` and `getStatusText`.
- `route_html.dfy`: the markup of script.js's scheduled, actual and status
  cells. Each render comes with a reader that recovers the cell from it.
- `static_view.dfy`: static/script.js.
- `pipeline.dfy`: joins the two halves. A stop is serialised as serde writes
  it and then read by script.js. These lemmas state what the browser shows
  in terms of the upstream record.
- `served.dfy`: the body as each client reads it.

Inputs the program reads from its environment are parameters here:

- The server's clock reading is `now` (seconds since the Unix epoch).
- The browser's `Asia/Kolkata` time formatter is `clock: int -> string`.
  The markup read-backs assume only that its output contains no `<`.

Readings of the code that a quick look could get wrong:

- A stop tagged "Arrived" is current wherever it sits, the terminus
  included. The tag switch sets current before any position is looked at
  (script.js:202-205).
- Nothing makes the current stop unique. Every stop tagged "Arrived" is
  current, and the position only matters in the untagged fallback
  (script.js:197-228).
- A stop with no actual time to show gets the `--` no-data marker in its
  actual-time cell (script.js:330-333).
- The running-day string is the two-letter names joined by single spaces.
  Every name is pushed with a trailing space, and `trim_end` removes the last
  one (src/model.rs:51-75).

## Model

| member | source | states |
|---|---|---|
| RunningDays.FromBits | src/model.rs:37-49 | a bitmap is accepted as a running-day set exactly when it sets no bit beyond the seven day flags, i.e. bit 7 is clear, and is then kept unchanged |
| RunningDays.AsNamesIsJoin | src/model.rs:51-75 | `as_names` is the names of the set's days in Sunday-to-Saturday order separated by single spaces, with no leading, trailing or doubled space |
| RunningDays.NamesOfNoDays | src/model.rs:51-75 | the empty set is rendered as the empty string |
| RunningDays.NamesOfEveryDay | src/model.rs:51-75 | the full set is rendered "Su Mo Tu We Th Fr Sa" |
| RunningDays.AsNamesRoundTrip | src/model.rs:51-75 | parsing the rendered names gives back exactly the bit set, so no two day sets render alike |
| LiveModel.WithRunningDays | src/model.rs:28-34 | the train gets the names of its bitmap and nothing else changes; a bitmap with bit 7 set aborts (the `unwrap` panic) |
| LiveModel.TagName | src/model.rs:133-140 | each status serialises as its variant's name, never empty; the default is "None" |
| LiveModel.TagNameInjective | src/model.rs:133-140 | distinct statuses serialise to distinct strings |
| LiveModel.UpdateStatus | src/model.rs:122-130 | departure strictly before now gives Departed; otherwise an arrival at or before now gives Arrived and one after now Upcoming; with neither the status is kept; no other field changes |
| LiveModel.FreshStatusCharacterised | src/model.rs:122-130 | from the default status, each of the four resulting statuses holds exactly when the matching condition on the actual times and now holds |
| LiveModel.DepartureAtNowIsNotDeparted | src/model.rs:122-130 | a departure equal to now does not count as departed: the arrival decides, or the old status stays |
| LiveModel.UpdateStatusIdempotent | src/model.rs:122-130 | a second update with the same clock reading changes nothing |
| LiveModel.StatusAdvancesWithTime | src/model.rs:122-130 | a later clock reading never puts a stop earlier in the upcoming, arrived, departed order |
| LiveModel.NameMap | src/model.rs:199-203 | the itinerary map has a key exactly for the station codes that occur in the itinerary |
| LiveModel.NameMapLastWins | src/model.rs:199-203 | for a repeated code the map holds the name of its last occurrence |
| LiveModel.UpdateStationName | src/model.rs:118-120 | the station name becomes the map's entry for the code, absent when the code is unknown; the code and every other field are kept |
| LiveModel.StationNameFromItinerary | src/model.rs:199-212 | a live stop is named after the last itinerary stop that shares its code |
| LiveModel.StationNameUnknownCode | src/model.rs:118-120 | a live stop whose code is not in the itinerary loses its name |
| LiveModel.RefreshRoute | src/model.rs:209-214 | the live route keeps its length and order, and each entry is renamed and then status-updated with one clock reading |
| LiveModel.FromStatusData | src/model.rs:197-221 | the conversion succeeds exactly when the bitmap is valid; the train gets its day names; live data is present exactly when the input has it, and only its route changes, entry by entry |
| LiveModel.FromResponse | src/model.rs:230-238 | success with data converts the data and failure with an error passes the error through; success without data and failure without an error each panic, in both directions |
| Format.JsRem60 | script.js:421 | the JavaScript remainder by 60 differs from the count by a multiple of 60, lies strictly between -60 and 60 and has the count's sign, which fixes it for every count; for a non-negative count it is the ordinary remainder |
| Format.JsRem60Determined | script.js:421 | any value in that window with the count's sign that differs from the count by a multiple of 60 is the JavaScript remainder, so the clauses leave no freedom for negative counts |
| Format.FormatTime | script.js:417-423 | only a missing value renders "--"; any number renders with a ':'; a non-negative count renders as zero-padded hours and minutes within the hour |
| Format.FormatTimeRoundTrip | script.js:417-423 | reading a rendered non-negative count back gives the count, hours not wrapped at 24 |
| Format.MidnightIsZeroZero | static/script.js:161-167 | a count of 0 is a time, "00:00", and not the missing-value placeholder |
| Format.NegativeMinuteRendersSigned | static/script.js:161-167 | floor division and the truncating remainder render -1 as "-1:-1" |
| Format.FormatDuration | script.js:410-415 | a missing or zero count renders "--" and nothing else does; a positive count renders as "<h>h <m>m" |
| Format.FormatDurationRoundTrip | script.js:410-415 | reading a rendered positive duration back gives the count |
| Format.FormatTimeIST | script.js:21-32 | a missing or zero epoch renders "--"; any other is handed to the fixed-zone clock |
| Format.TrainNumberHint | script.js:444-455 | a non-empty value that is not four or five ASCII digits gets the red border and tooltip; every other value, the empty one included, gets the neutral hint |
| Format.TrainNumberNumerals | script.js:446 | the numeral of every number from 1000 to 99999 passes the pattern |
| Format.ValidTrainNumberValue | script.js:446 | a passing value is the numeral of a number below 100000 |
| RouteTable.StatusFromTag | script.js:198-212 | "Departed" means completed, "Arrived" current and flagged current, "Upcoming" upcoming, any other tag scheduled, each in both directions |
| RouteTable.StatusFromTimes | script.js:213-228 | without a tag, an arrival without a departure before the terminus is current; a departure, or an arrival at the terminus, is completed; no actual time is upcoming |
| RouteTable.Classify | script.js:194-228 | a non-empty tag alone decides the status; only a missing or empty tag falls back to the actual times; the current flag is set exactly for current |
| RouteTable.SeveralStopsCanBeCurrent | script.js:203-205 | two stops of one route both tagged "Arrived" are both current, the terminus included |
| RouteTable.VerdictOf | script.js:272-278 | a delay is late exactly when positive, early exactly when negative, on time exactly when zero |
| RouteTable.DelayText | script.js:270-298 | each delay note starts with its leg's label |
| RouteTable.DelayTextRoundTrip | script.js:270-298 | a delay note reads back as its leg and signed minutes, so distinct delays never share a note |
| RouteTable.Annotations | script.js:262-300 | an arrival note exists exactly when the arrival is truthy, the stop is not the origin and the delay is a number; likewise a departure note, not at the terminus; arrival comes first, and each carries its field's value |
| RouteTable.NoArrivalAtOriginNoDepartureAtTerminus | script.js:263-283 | the origin never gets an arrival note and the terminus never a departure note |
| RouteTable.MentionsLate | script.js:338 | a delay note contains "late" exactly when the delay is positive |
| RouteTable.MentionsEarly | script.js:339 | a delay note contains "early" exactly when the delay is negative |
| RouteTable.DelayClassByVerdict | script.js:336-341 | the class picked by substring search is the one the signs imply: late if any delay is positive, else early if any is negative, else on time |
| RouteTable.ActualTimes | script.js:262-287 | an "Arr: " line with the clock's rendering of the actual arrival exists exactly when the stop is not the origin, the arrival is truthy and does not render as "--", and it comes first; likewise a "Dep: " line for the departure, not at the terminus, and it comes last; there are no other lines |
| RouteTable.ActualCellOf | script.js:305-334 | the actual cell shows the "--" no-data marker exactly when no actual-time line was built, since the fallback recomputes the same lines; otherwise it shows exactly those lines |
| RouteTable.ScheduledCellOf | script.js:235-251 | the origin shows Start and its departure, the terminus its arrival and End, other stops both, and a missing time shows "--", except a one-stop route's departure, which shows "End" |
| RouteTable.StatusText | script.js:395-408 | the badge is ARRIVED for current, or completed at the terminus; DEPARTED for completed elsewhere; UPCOMING and SCHEDULED for their statuses; each in both directions |
| RouteTable.StatusCellOf | script.js:255-354 | the badge text is always that of the status; the "Left at" caption and departed style appear exactly for a completed non-terminus stop whose truthy departure renders; the delay line lists the notes and appears exactly when there are notes, styled late if any delay is positive, else early if any is negative, else on time |
| RouteTable.StopViewOf | script.js:189-367 | a row carries the classification; the name and code come from the station object, else the flat field, else "Unknown Station"/"--"; the platform falls back to "--"; its scheduled, actual and status cells are the ones the cell builders make for that stop, index and status |
| RouteTable.DisplayRouteTable | script.js:164-371 | a missing or empty route gives only the not-available message; otherwise one row per entry, in input order, each the view of its entry at its index |
| StaticView.IsCurrentRow | static/script.js:131-134 | a row is current only when a current station exists, and whenever its code or its name equals the current station's |
| StaticView.CurrentRowIsUnique | static/script.js:131-134 | with present, pairwise distinct codes and names, the row the current station comes from is the only current row |
| StaticView.AbsentNamesMatch | static/script.js:131-134 | a missing name equals a missing name, so such rows are all current whatever their codes |
| StaticView.ArrivalCell | static/script.js:141-143 | a truthy arrival renders as a time; otherwise "Start" at the origin and "--" elsewhere |
| StaticView.DepartureCell | static/script.js:145-147 | a truthy departure renders as a time; otherwise "End" at the terminus and "--" elsewhere |
| StaticView.ArrivalCellFaithful | static/script.js:141-143 | the placeholder appears exactly when the arrival is missing or zero, and a shown positive arrival reads back as its minutes |
| StaticView.DepartureCellFaithful | static/script.js:145-147 | the placeholder appears exactly when the departure is missing or zero, and a shown positive departure reads back as its minutes |
| StaticView.DelayNoticeOf | static/script.js:76-92 | no notice exactly without a current station; on time exactly when the delay is missing or zero; otherwise delayed by the feed's minutes |
| StaticView.AbsentDelayReadsAsOnTime | static/script.js:82-84 | a missing delay and a zero delay give the same on-time notice |
| StaticView.NoticeHtmlRoundTrip | static/script.js:82-91 | the banner's HTML determines the notice, and the minutes of a delayed notice read back exactly |
| StaticView.NoticeClass | static/script.js:82-89 | the banner element keeps its class without a current station; otherwise its class is "delay" followed by the class of the span written into it |
| StaticView.LocationHtml | static/script.js:76-92 | the not-available line appears exactly without a current station; otherwise the station's name and, in parentheses, its code read back from the line whenever the name holds no parenthesis |
| StaticView.DisplayStaticRouteTable | static/script.js:103-158 | a missing or empty route gives only the not-available message; otherwise one row per entry, in input order, with its cells and current flag |
| RouteHtml.RenderActual | script.js:305-334 | the no-data marker appears exactly for a cell without times; a cell of '<'-free lines reads back from its markup, lines and order included |
| RouteHtml.ActualMarkupReadsBack | script.js:262-334 | with a clock that writes no '<', every actual cell the table builds reads back from its markup |
| RouteHtml.RenderScheduled | script.js:243-251 | origin, terminus and intermediate markup never coincide, and every time shown reads back, as long as no time holds a '<' |
| RouteHtml.ScheduledMarkupReadsBack | script.js:233-251 | with a clock that writes no '<', every scheduled cell the table builds reads back from its markup |
| RouteHtml.RenderStatus | script.js:255-354 | badge class, badge text, "Left at" time, delay class and each delay note read back from the markup, so the caption is never mistaken for the delay line |
| RouteHtml.StatusCellWellFormed | script.js:336-354 | the classes, badges, delay notes and delay classes the table writes contain no quote or '<' that would break their markup |
| RouteHtml.StatusMarkupReadsBack | script.js:255-354 | with a clock that writes no '<', every status cell the table builds reads back from its markup |
| Served.ServedStaticPage | static/script.js:69-96 | for every body the server sends, the served page shows the not-available location, an empty banner and no route |
| Served.ServedLivePage | script.js:157 | script.js shows a row exactly for each stop of a non-empty live route, in order, each the view of the stop as serde writes it and classified by the server's tag |
| Pipeline.Serialize | src/model.rs:96-114 | a live stop reaches the browser with a nested station object, no flat name or code, and its status variant's name as the tag; each scheduled time, actual time and delay is present exactly when the record has it and then carries its value, and the platform is passed through |
| Pipeline.ServerTagDecides | script.js:198-212 | the server's tag is never empty, so the browser classifies by the tag alone and a "None" tag is scheduled |
| Pipeline.ClientStatusOfRefreshedStop | src/model.rs:122-130 | after a refresh from the default status, the browser shows completed exactly once departed, current exactly once arrived and not departed, upcoming exactly while the arrival lies ahead, and scheduled exactly with neither |
| Pipeline.ClientStatusAdvancesWithTime | src/model.rs:122-130 | a later refresh never shows a stop earlier in the scheduled/upcoming, current, completed order |
| Pipeline.DisplayedNameFromItinerary | script.js:357 | the browser shows the name of the last itinerary stop with the stop's code, or "Unknown Station" when that name is empty |
| Pipeline.DisplayedNameUnknownCode | script.js:357 | a stop whose code is not in the itinerary is shown as "Unknown Station" |
| Pipeline.DepartedStopShowsLeftAt | script.js:344-353 | a stop departed before the terminus is badged DEPARTED and, when its departure epoch is non-zero and renders, captioned with the time it left in the departed style |

## Left out

- Network and server plumbing are not part of this model: the axum routes, the upstream HTTP call and its API key, `handleApiResponse`, the loading spinners and the error panel.
- DOM writes are not modelled. The route table and banner are modelled as the strings placed into each element. The row template that wraps a row's cells (script.js:360-367) is not modelled.
- The header card, `displayTrainStats` and the live client's current-location card are left out. They only interpolate fields.
- `formatTimeIST` calls `toLocaleTimeString` with the Asia/Kolkata zone. That formatting is the `clock` parameter and is not modelled itself.
- `formatDateTimeIST` calls `toLocaleString` and only feeds the "Last updated" line of the left-out location card.
- `SystemTime::now()` is the parameter `now`. The "Time went backwards" panic cannot be reached from a parameter.
- serde parsing is not modelled. Records are taken as already deserialised, and `Pipeline.Serialize` gives the JSON shape the browser reads.
- `CurrentLocation` has floating-point latitude, longitude and distances, which are left out. No modelled decision reads them.
- The try/catch around the delay block is left out, because nothing in the modelled code can throw there.
- The `fallbackTimes` recomputation is folded into `RouteTable.ActualCellOf`. It repeats the first pass exactly.
- The third branch of the fallback classification (script.js:223-224) is left out. It repeats half of the second branch and can never decide.
- `getStatusText`'s 'NO DATA' default is left out. `stationStatus` only ever holds the four modelled values.
- JavaScript numbers are doubles. Counts beyond 2^53, NaN and non-integral minutes are not modelled. Integers are exact here.
- A JSON `null` and a missing field are both `None`. In the older client's template literals a missing field prints "undefined", which `StaticView.JsText` models. A `null` field would print "null".
- `trim_end` also strips non-ASCII Unicode white space. Only ASCII white space is modelled. Day names contain none either way.
- LiveModel.NameMap: builds a `HashMap` keyed by code and takes insertion order from the itinerary, as `collect` does. Hash iteration order is not observable and is not modelled.
- Format.FormatTimeRoundTrip: proved for non-negative counts only. Negative counts render each part with its own sign (`Format.NegativeMinuteRendersSigned`), and that form is not read back.
- Format.FormatDurationRoundTrip: proved for positive counts only. Zero renders "--", and negative counts render signed parts that are not read back.

## Findings

| source | as written | input that shows it | evidently intended | confidence | as-written member | corrected member |
|---|---|---|---|---|---|---|
| src/main.rs:27-30 | the served directory holds static/script.js, which reads `data.currentStation` and `data.routeInfo` (static/script.js:76, 96); the body is a `TrainLiveStatus` whose keys are `train` and `live_data` (src/model.rs:190-195) | any successful response, e.g. one whose `live_data.route` has stops | the page renders `live_data.route`, as script.js does (script.js:157) | not executed | Served.ServedStaticPage | Served.ServedLivePage |
