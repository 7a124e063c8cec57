/** The browser-side formatting helpers shared by script.js and
    static/script.js: minutes as a clock reading, minutes as a duration,
    epochs through the fixed-zone clock, and the train-number check. */
module Format {
  import opened Common
  import opened Decimal
  import opened Text

  /** JavaScript `Math.floor(m / 60)`. Dafny's division by a positive
      divisor already rounds toward negative infinity. */
  function FloorDiv60(m: int): int {
    m / 60
  }

  /** JavaScript `m % 60`: the remainder of division truncated toward zero,
      so it differs from `m` by a multiple of 60 and carries the sign of
      the dividend. These clauses pin it down for every `m`. */
  function JsRem60(m: int): (r: int)
    ensures -60 < r < 60
    ensures (m - r) % 60 == 0
    ensures m >= 0 ==> r >= 0
    ensures m < 0 ==> r <= 0
    ensures m >= 0 ==> r == m % 60
  {
    if m >= 0 then m % 60 else -((-m) % 60)
  }

  /** The clauses of `JsRem60` leave one candidate: two values in the
      window that share a sign and differ from `m` by multiples of 60 are
      equal. */
  lemma JsRem60Determined(m: int, r: int)
    requires -60 < r < 60 && (m - r) % 60 == 0
    requires m >= 0 ==> r >= 0
    requires m < 0 ==> r <= 0
    ensures r == JsRem60(m)
  {
    var q := JsRem60(m);
    var d := r - q;
    assert d == (m - q) - (m - r);
    assert d % 60 == 0 by {
      assert (m - q) == 60 * ((m - q) / 60);
      assert (m - r) == 60 * ((m - r) / 60);
      assert d == 60 * ((m - q) / 60 - (m - r) / 60);
    }
    assert -60 < d < 60;
  }

  /** `s.padStart(2, '0')`. */
  function PadStart2(s: string): (r: string)
    ensures |s| >= 2 ==> r == s
    ensures |s| < 2 ==> |r| == 2 && r[2 - |s|..] == s
  {
    if |s| >= 2 then s else if |s| == 1 then "0" + s else "00"
  }

  /** `formatTime(minutes)`: absent gives "--"; otherwise the hours and the
      minutes within the hour, each padded to two characters and joined by
      ':'. Hours are not wrapped at 24. */
  function FormatTime(minutes: Option<int>): (r: string)
    ensures minutes.None? <==> r == "--"
    ensures minutes.Some? ==> ':' in r
    ensures minutes.Some? && minutes.value >= 0 ==>
      r == PadStart2(NatToString(minutes.value / 60)) + ":" + PadStart2(NatToString(minutes.value % 60))
  {
    match minutes
    case None => "--"
    case Some(m) => PadStart2(IntToString(FloorDiv60(m))) + ":" + PadStart2(IntToString(JsRem60(m)))
  }

  lemma MidnightIsZeroZero()
    ensures FormatTime(Some(0)) == "00:00"
  {
  }

  /** For a negative count both parts keep their own minus sign. */
  lemma NegativeMinuteRendersSigned()
    ensures FormatTime(Some(-1)) == "-1:-1"
  {
    assert FloorDiv60(-1) == -1 && JsRem60(-1) == -1;
    assert IntToString(-1) == "-1" by {
      assert NatToString(1) == "1";
    }
    assert PadStart2("-1") == "-1";
  }

  /** Reads "H...H:MM" back into minutes; the inverse of `FormatTime` on
      non-negative counts. */
  function ParseClock(s: string): Option<int> {
    var parts := Split(s, ':');
    if |parts| != 2 then None
    else
      match (ParseNat(parts[0]), ParseNat(parts[1]))
      case (Some(h), Some(m)) => if m < 60 then Some(h * 60 + m) else None
      case _ => None
  }

  lemma PaddedNumeral(n: nat)
    ensures IsDigits(PadStart2(NatToString(n)))
    ensures ParseNat(PadStart2(NatToString(n))) == Some(n)
  {
    var s := NatToString(n);
    NatToStringRoundTrip(n);
    if |s| < 2 {
      LeadingZeroValue(s);
      assert PadStart2(s) == "0" + s;
    }
  }

  lemma SplitPair(a: string, b: string, sep: char)
    requires sep !in a && sep !in b
    ensures Split(a + [sep] + b, sep) == [a, b]
  {
    var words := [a, b];
    assert words[1..] == [b];
    assert Join(words, [sep]) == a + [sep] + b;
    SplitJoin(words, sep);
  }

  lemma DigitsHaveNo(s: string, c: char)
    requires IsDigits(s) && !IsDigit(c)
    ensures c !in s
  {
  }

  /** Reading a rendered clock back gives the minutes that were rendered. */
  lemma FormatTimeRoundTrip(m: nat)
    ensures ParseClock(FormatTime(Some(m))) == Some(m)
  {
    var h := PadStart2(NatToString(m / 60));
    var mm := PadStart2(NatToString(m % 60));
    PaddedNumeral(m / 60);
    PaddedNumeral(m % 60);
    DigitsHaveNo(h, ':');
    DigitsHaveNo(mm, ':');
    SplitPair(h, mm, ':');
    assert FormatTime(Some(m)) == h + [':'] + mm;
    assert (m / 60) * 60 + m % 60 == m;
  }

  /** `formatDuration(minutes)`: a falsy count (absent or 0) gives "--",
      otherwise "<hours>h <minutes>m". */
  function FormatDuration(minutes: Option<int>): (r: string)
    ensures !TruthyNum(minutes) <==> r == "--"
    ensures TruthyNum(minutes) && minutes.value > 0 ==>
      r == NatToString(minutes.value / 60) + "h " + NatToString(minutes.value % 60) + "m"
  {
    if !TruthyNum(minutes) then "--"
    else
      var m := minutes.value;
      var s := IntToString(FloorDiv60(m)) + "h " + IntToString(JsRem60(m)) + "m";
      assert s[|s| - 1] == 'm';
      s
  }

  /** Reads "<h>h <m>m" back into minutes, with `m` below 60. */
  function ParseDuration(s: string): Option<int> {
    var parts := Split(s, ' ');
    if |parts| != 2 then None
    else
      var hp := parts[0];
      var mp := parts[1];
      if |hp| < 1 || hp[|hp| - 1] != 'h' || |mp| < 1 || mp[|mp| - 1] != 'm' then None
      else
        match (ParseNat(hp[..|hp| - 1]), ParseNat(mp[..|mp| - 1]))
        case (Some(h), Some(m)) => if m < 60 then Some(h * 60 + m) else None
        case _ => None
  }

  /** A rendered duration reads back as the minutes that were rendered:
      `h * 60 + m` is the input and `0 <= m < 60`. */
  lemma FormatDurationRoundTrip(m: nat)
    requires m > 0
    ensures ParseDuration(FormatDuration(Some(m))) == Some(m)
  {
    var h := NatToString(m / 60);
    var mm := NatToString(m % 60);
    var hp := h + "h";
    var mp := mm + "m";
    DigitsHaveNo(h, ' ');
    DigitsHaveNo(mm, ' ');
    SplitPair(hp, mp, ' ');
    var s := FormatDuration(Some(m));
    assert s == hp + [' '] + mp;
    assert Split(s, ' ') == [hp, mp];
    assert hp[|hp| - 1] == 'h' && hp[..|hp| - 1] == h;
    assert mp[|mp| - 1] == 'm' && mp[..|mp| - 1] == mm;
    ParseNatRoundTrip(m / 60);
    ParseNatRoundTrip(m % 60);
    assert ParseDuration(s) == Some((m / 60) * 60 + m % 60);
    assert (m / 60) * 60 + m % 60 == m;
  }

  /** `formatTimeIST(epochSeconds)`: a falsy epoch gives "--"; any other is
      handed to the fixed-zone clock formatter `clock`, which is not modelled. */
  function FormatTimeIST(clock: int -> string, epoch: Option<int>): (r: string)
    ensures !TruthyNum(epoch) ==> r == "--"
    ensures TruthyNum(epoch) ==> r == clock(epoch.value)
  {
    if TruthyNum(epoch) then clock(epoch.value) else "--"
  }

  /** A clock whose output never contains a '<', so the markup it is
      interpolated into keeps its structure. */
  ghost predicate PlainClock(clock: int -> string) {
    forall t :: '<' !in clock(t)
  }

  /** `/^[0-9]{4,5}$/.test(value)`: four or five ASCII digits and nothing else. */
  predicate IsValidTrainNumber(value: string) {
    4 <= |value| <= 5 && IsDigits(value)
  }

  /** The border colour and tooltip the train-number field is given on input. */
  datatype InputHint = InputHint(borderColor: string, title: string)

  const InvalidHint := InputHint("#dc3545", "Please enter a valid train number (4-5 digits)")
  const NeutralHint := InputHint("#e1e5e9", "")

  /** The train-number input handler: a non-empty value that fails the
      pattern is flagged; an empty value never is. */
  function TrainNumberHint(value: string): (hint: InputHint)
    ensures hint == InvalidHint <==> value != "" && !IsValidTrainNumber(value)
    ensures hint == InvalidHint || hint == NeutralHint
  {
    if value != "" && !IsValidTrainNumber(value) then InvalidHint else NeutralHint
  }

  /** Every four- and five-digit number passes, and a passing value is the
      numeral of a number below 100000. */
  lemma TrainNumberNumerals(k: nat)
    requires 1000 <= k < 100000
    ensures IsValidTrainNumber(NatToString(k))
  {
    var s := NatToString(k);
    NatToStringLength(k);
    assert Pow10(3) == 1000 && Pow10(5) == 100000;
    if |s| <= 3 {
      Pow10Monotone(|s|, 3);
    }
    if |s| >= 6 {
      Pow10Monotone(5, |s| - 1);
    }
  }

  lemma {:induction false} DigitsValueBound(s: string)
    requires IsDigits(s)
    ensures DigitsValue(s) < Pow10(|s|)
  {
    if s != [] {
      DigitsValueBound(s[..|s| - 1]);
    }
  }

  lemma ValidTrainNumberValue(s: string)
    requires IsValidTrainNumber(s)
    ensures ParseNat(s).Some? && ParseNat(s).value < 100000
  {
    DigitsValueBound(s);
    assert Pow10(|s|) <= 100000 by {
      assert Pow10(4) == 10000;
      assert Pow10(5) == 100000;
    }
  }
}
