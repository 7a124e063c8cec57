/** The running-days bit set of a train (`RunningDays` in src/model.rs):
    bit 0 is Sunday through bit 6 Saturday, rendered as two-letter names. */
module RunningDays {
  import opened Common
  import opened Text

  /** The abbreviation pushed for day `d`, Sunday (bit 0) through Saturday (bit 6). */
  function DayName(d: nat): (name: string)
    requires d < 7
    ensures IsDayName(name)
  {
    match d
    case 0 => "Su"
    case 1 => "Mo"
    case 2 => "Tu"
    case 3 => "We"
    case 4 => "Th"
    case 5 => "Fr"
    case _ => "Sa"
  }

  /** Two letters, so never white space and never a separator. */
  predicate IsDayName(w: string) {
    |w| == 2 && w[0] != ' ' && w[1] != ' ' && !IsWhitespace(w[0]) && !IsWhitespace(w[1])
  }

  /** The flag of day `d`: `1 << d`. */
  function Flag(d: nat): bv8
    requires d < 7
  {
    match d
    case 0 => 0x01
    case 1 => 0x02
    case 2 => 0x04
    case 3 => 0x08
    case 4 => 0x10
    case 5 => 0x20
    case _ => 0x40
  }

  /** The flags of day `d` through Saturday. */
  function FlagsFrom(d: nat): bv8
    requires d <= 7
  {
    match d
    case 0 => 0x7F
    case 1 => 0x7E
    case 2 => 0x7C
    case 3 => 0x78
    case 4 => 0x70
    case 5 => 0x60
    case 6 => 0x40
    case _ => 0x00
  }

  /** Every defined flag: `RunningDays::all()`. */
  const AllDays: bv8 := 0x7F

  /** `RunningDays::from_bits`: refuses a bitmap that sets any bit no flag
      defines, which for a `u8` is bit 7 alone. */
  function FromBits(bits: bv8): (r: Option<bv8>)
    ensures r.Some? <==> bits & 0x80 == 0
    ensures r.Some? ==> r.value == bits && r.value & AllDays == r.value
  {
    if bits & !AllDays == 0 then Some(bits) else None
  }

  /** `days.contains(flag of day d)`. */
  predicate HasDay(days: bv8, d: nat)
    requires d < 7
  {
    days & Flag(d) == Flag(d)
  }

  /** The string `as_names` accumulates before trimming: "Xx " for each day
      of the set from day `d` on, in day order. */
  function PushedFrom(days: bv8, d: nat): string
    requires d <= 7
    decreases 7 - d
  {
    if d == 7 then ""
    else (if HasDay(days, d) then DayName(d) + " " else "") + PushedFrom(days, d + 1)
  }

  /** `RunningDays::as_names`: the pushed names with the trailing space trimmed. */
  function AsNames(days: bv8): string {
    TrimEnd(PushedFrom(days, 0))
  }

  /** The names of the days in `days` from day `d` on, Sunday first. */
  function SelectedFrom(days: bv8, d: nat): (names: seq<string>)
    requires d <= 7
    ensures |names| <= 7 - d
    decreases 7 - d
  {
    if d == 7 then []
    else (if HasDay(days, d) then [DayName(d)] else []) + SelectedFrom(days, d + 1)
  }

  lemma {:induction false} SelectedAreDayNames(days: bv8, d: nat)
    requires d <= 7
    ensures forall k :: 0 <= k < |SelectedFrom(days, d)| ==> IsDayName(SelectedFrom(days, d)[k])
    decreases 7 - d
  {
    if d < 7 {
      SelectedAreDayNames(days, d + 1);
    }
  }

  lemma {:induction false} PushedIsJoinPlusSpace(days: bv8, d: nat)
    requires d <= 7
    ensures PushedFrom(days, d)
         == if SelectedFrom(days, d) == [] then "" else Join(SelectedFrom(days, d), " ") + " "
    decreases 7 - d
  {
    if d < 7 {
      PushedIsJoinPlusSpace(days, d + 1);
      var rest := SelectedFrom(days, d + 1);
      var tail := PushedFrom(days, d + 1);
      if HasDay(days, d) {
        var sel := [DayName(d)] + rest;
        assert SelectedFrom(days, d) == sel;
        assert PushedFrom(days, d) == DayName(d) + " " + tail;
        if rest != [] {
          assert sel[1..] == rest;
          assert Join(sel, " ") == DayName(d) + " " + Join(rest, " ");
        } else {
          assert Join(sel, " ") == DayName(d);
        }
      } else {
        assert SelectedFrom(days, d) == rest;
        assert PushedFrom(days, d) == tail;
      }
    }
  }

  lemma {:induction false} JoinEndsWithLastWord(words: seq<string>, sep: string)
    requires words != []
    ensures EndsWith(Join(words, sep), words[|words| - 1])
    decreases |words|
  {
    if |words| > 1 {
      JoinEndsWithLastWord(words[1..], sep);
    }
  }

  /** Trimming the trailing space after joined day names removes exactly
      that space. */
  lemma TrimJoinedNames(sel: seq<string>)
    requires sel != []
    requires forall k :: 0 <= k < |sel| ==> IsDayName(sel[k])
    ensures TrimEnd(Join(sel, " ") + " ") == Join(sel, " ")
  {
    var j := Join(sel, " ");
    JoinEndsWithLastWord(sel, " ");
    var last := sel[|sel| - 1];
    assert IsDayName(last);
    assert j[|j| - 1] == last[1];
    var p := j + " ";
    assert p[..|p| - 1] == j;
    assert TrimEnd(j) == j;
  }

  /** `as_names` lists the names of the set's days in day order separated by
      single spaces: no leading, trailing or doubled space. */
  lemma AsNamesIsJoin(days: bv8)
    ensures AsNames(days) == Join(SelectedFrom(days, 0), " ")
  {
    PushedIsJoinPlusSpace(days, 0);
    var sel := SelectedFrom(days, 0);
    if sel != [] {
      SelectedAreDayNames(days, 0);
      TrimJoinedNames(sel);
    }
  }

  lemma NamesOfNoDays()
    ensures AsNames(0) == ""
  {
    AsNamesIsJoin(0);
    assert SelectedFrom(0, 0) == [];
  }

  lemma SelectedOfFullSet(days: bv8)
    requires days == AllDays
    ensures SelectedFrom(days, 0) == ["Su", "Mo", "Tu", "We", "Th", "Fr", "Sa"]
  {
    assert SelectedFrom(days, 7) == [];
    assert SelectedFrom(days, 6) == ["Sa"];
    assert SelectedFrom(days, 5) == ["Fr", "Sa"];
    assert SelectedFrom(days, 4) == ["Th", "Fr", "Sa"];
    assert SelectedFrom(days, 3) == ["We", "Th", "Fr", "Sa"];
    assert SelectedFrom(days, 2) == ["Tu", "We", "Th", "Fr", "Sa"];
    assert SelectedFrom(days, 1) == ["Mo", "Tu", "We", "Th", "Fr", "Sa"];
  }

  lemma NamesOfEveryDay()
    ensures AsNames(AllDays) == "Su Mo Tu We Th Fr Sa"
  {
    AsNamesIsJoin(AllDays);
    SelectedOfFullSet(AllDays);
    JoinWeek();
  }

  lemma JoinWeek()
    ensures Join(["Su", "Mo", "Tu", "We", "Th", "Fr", "Sa"], " ") == "Su Mo Tu We Th Fr Sa"
  {
    var week: seq<string> := ["Su", "Mo", "Tu", "We", "Th", "Fr", "Sa"];
    assert week[1..] == ["Mo", "Tu", "We", "Th", "Fr", "Sa"];
    assert week[1..][1..] == ["Tu", "We", "Th", "Fr", "Sa"];
  }

  /** Reads a list of day names back into a bit set, accepting the names only
      in day order, each at most once; the inverse of `AsNames`. */
  function ParseNames(s: string): Option<bv8> {
    if s == "" then Some(0) else ParseWordsFrom(Split(s, ' '), 0)
  }

  function ParseWordsFrom(words: seq<string>, d: nat): Option<bv8>
    requires d <= 7
    decreases 7 - d
  {
    if d == 7 then (if words == [] then Some(0) else None)
    else if words != [] && words[0] == DayName(d) then
      match ParseWordsFrom(words[1..], d + 1)
      case Some(m) => Some(m | Flag(d))
      case None => None
    else ParseWordsFrom(words, d + 1)
  }

  /** Adding or skipping day `d` when moving from `FlagsFrom[d+1]` to `FlagsFrom(d)`. */
  lemma FlagStep(days: bv8, d: nat)
    requires d < 7
    ensures HasDay(days, d) ==> (days & FlagsFrom(d + 1)) | Flag(d) == days & FlagsFrom(d)
    ensures !HasDay(days, d) ==> days & FlagsFrom(d + 1) == days & FlagsFrom(d)
  {
  }

  lemma {:induction false} SelectedFromLater(days: bv8, d: nat)
    requires d <= 7
    ensures SelectedFrom(days, d) != [] ==>
      exists k :: d <= k < 7 && SelectedFrom(days, d)[0] == DayName(k)
    decreases 7 - d
  {
    if d < 7 && !HasDay(days, d) {
      SelectedFromLater(days, d + 1);
    }
  }

  lemma DayNamesDistinct(j: nat, k: nat)
    requires j < 7 && k < 7 && j != k
    ensures DayName(j) != DayName(k)
  {
  }

  lemma ParseTakesDay(words: seq<string>, d: nat, m: bv8)
    requires d < 7 && ParseWordsFrom(words, d + 1) == Some(m)
    ensures ParseWordsFrom([DayName(d)] + words, d) == Some(m | Flag(d))
  {
    var sel := [DayName(d)] + words;
    assert sel[1..] == words;
  }

  lemma ParseSkipsDay(words: seq<string>, d: nat)
    requires d < 7
    requires words != [] ==> exists k :: d < k < 7 && words[0] == DayName(k)
    ensures ParseWordsFrom(words, d) == ParseWordsFrom(words, d + 1)
  {
    if words != [] {
      var k :| d < k < 7 && words[0] == DayName(k);
      DayNamesDistinct(k, d);
    }
  }

  lemma ParseStepWithDay(days: bv8, d: nat)
    requires d < 7 && HasDay(days, d)
    requires ParseWordsFrom(SelectedFrom(days, d + 1), d + 1) == Some(days & FlagsFrom(d + 1))
    ensures ParseWordsFrom(SelectedFrom(days, d), d) == Some(days & FlagsFrom(d))
  {
    var rest := SelectedFrom(days, d + 1);
    var sel := SelectedFrom(days, d);
    assert sel == [DayName(d)] + rest;
    var m := days & FlagsFrom(d + 1);
    ParseTakesDay(rest, d, m);
    FlagStep(days, d);
    assert ParseWordsFrom(sel, d) == Some(m | Flag(d));
  }

  lemma ParseStepWithoutDay(days: bv8, d: nat)
    requires d < 7 && !HasDay(days, d)
    requires ParseWordsFrom(SelectedFrom(days, d + 1), d + 1) == Some(days & FlagsFrom(d + 1))
    ensures ParseWordsFrom(SelectedFrom(days, d), d) == Some(days & FlagsFrom(d))
  {
    var rest := SelectedFrom(days, d + 1);
    assert SelectedFrom(days, d) == rest;
    SelectedFromLater(days, d + 1);
    ParseSkipsDay(rest, d);
    FlagStep(days, d);
  }

  lemma {:induction false} ParseSelected(days: bv8, d: nat)
    requires d <= 7
    ensures ParseWordsFrom(SelectedFrom(days, d), d) == Some(days & FlagsFrom(d))
    decreases 7 - d
  {
    if d < 7 {
      ParseSelected(days, d + 1);
      if HasDay(days, d) {
        ParseStepWithDay(days, d);
      } else {
        ParseStepWithoutDay(days, d);
      }
    }
  }

  /** Parsing joined day names parses the word list itself. */
  lemma ParseJoinedNames(sel: seq<string>)
    requires sel != []
    requires forall k :: 0 <= k < |sel| ==> IsDayName(sel[k])
    ensures ParseNames(Join(sel, " ")) == ParseWordsFrom(sel, 0)
  {
    var j := Join(sel, " ");
    JoinedNamesNonEmpty(sel);
    DayNamesHaveNoSpace(sel);
    SplitJoin(sel, ' ');
    assert Split(j, ' ') == sel;
    assert ParseNames(j) == ParseWordsFrom(Split(j, ' '), 0);
  }

  lemma JoinedNamesNonEmpty(sel: seq<string>)
    requires sel != []
    requires forall k :: 0 <= k < |sel| ==> IsDayName(sel[k])
    ensures Join(sel, " ") != ""
  {
    JoinEndsWithLastWord(sel, " ");
    assert |sel[|sel| - 1]| == 2;
  }

  lemma DayNamesHaveNoSpace(sel: seq<string>)
    requires forall k :: 0 <= k < |sel| ==> IsDayName(sel[k])
    ensures forall k :: 0 <= k < |sel| ==> ' ' !in sel[k]
  {
    forall k | 0 <= k < |sel|
      ensures ' ' !in sel[k]
    {
      var w := sel[k];
      assert IsDayName(w);
      assert w == [w[0], w[1]];
    }
  }

  /** Reading the rendered names back recovers the bit set exactly. */
  lemma AsNamesRoundTrip(days: bv8)
    requires days & 0x80 == 0
    ensures ParseNames(AsNames(days)) == Some(days)
  {
    AsNamesIsJoin(days);
    ParseSelected(days, 0);
    assert days & FlagsFrom(0) == days;
    var sel := SelectedFrom(days, 0);
    if sel != [] {
      SelectedAreDayNames(days, 0);
      ParseJoinedNames(sel);
    }
  }
}
