/** String operations the source leans on: joining with a separator,
    splitting on one, trimming trailing white space and substring search. */
module Text {
  import opened Common

  /** `words.join(sep)`: the empty list joins to "". */
  function Join(words: seq<string>, sep: string): string {
    if words == [] then ""
    else if |words| == 1 then words[0]
    else words[0] + sep + Join(words[1..], sep)
  }

  /** `s.split(sep)` on a single-character separator: always at least one
      piece, and "" splits into [""]. */
  function Split(s: string, sep: char): (pieces: seq<string>)
    ensures |pieces| >= 1
    decreases |s|
  {
    if s == [] then [""]
    else
      var rest := Split(s[1..], sep);
      if s[0] == sep then [""] + rest
      else [[s[0]] + rest[0]] + rest[1..]
  }

  lemma {:induction false} SplitWithout(w: string, sep: char)
    requires sep !in w
    ensures Split(w, sep) == [w]
    decreases |w|
  {
    if w != [] {
      SplitWithout(w[1..], sep);
      assert [w[0]] + w[1..] == w;
    }
  }

  lemma {:induction false} SplitAfterWord(w: string, sep: char, t: string)
    requires sep !in w
    ensures Split(w + [sep] + t, sep) == [w] + Split(t, sep)
    decreases |w|
  {
    var s := w + [sep] + t;
    if w == [] {
      assert s[1..] == t;
    } else {
      assert s[1..] == w[1..] + [sep] + t;
      SplitAfterWord(w[1..], sep, t);
      assert [w[0]] + w[1..] == w;
    }
  }

  /** Splitting undoes joining, provided no word contains the separator. */
  lemma {:induction false} SplitJoin(words: seq<string>, sep: char)
    requires words != []
    requires forall k :: 0 <= k < |words| ==> sep !in words[k]
    ensures Split(Join(words, [sep]), sep) == words
    decreases |words|
  {
    if |words| == 1 {
      SplitWithout(words[0], sep);
    } else {
      SplitJoin(words[1..], sep);
      SplitAfterWord(words[0], sep, Join(words[1..], [sep]));
      assert [words[0]] + words[1..] == words;
    }
  }

  /** White space as `str::trim_end` removes it, restricted to ASCII. */
  predicate IsWhitespace(c: char) {
    c == ' ' || c == '\t' || c == '\n' || c == '\r' || c == '\U{000B}' || c == '\U{000C}'
  }

  /** `s.trim_end()`: drops every trailing white-space character. */
  function TrimEnd(s: string): (r: string)
    ensures |r| <= |s| && r == s[..|r|]
    ensures r != [] ==> !IsWhitespace(r[|r| - 1])
    ensures forall k :: |r| <= k < |s| ==> IsWhitespace(s[k])
  {
    if s != [] && IsWhitespace(s[|s| - 1]) then TrimEnd(s[..|s| - 1]) else s
  }

  predicate OccursAt(s: string, pat: string, i: nat) {
    i + |pat| <= |s| && s[i..i + |pat|] == pat
  }

  /** JavaScript `s.includes(pat)`. */
  predicate Contains(s: string, pat: string) {
    exists i: nat | i <= |s| :: OccursAt(s, pat, i)
  }

  /** Every character of a pattern found in `s` is a character of `s`. */
  lemma ContainsChars(s: string, pat: string, k: nat)
    requires Contains(s, pat) && k < |pat|
    ensures pat[k] in s
  {
    var i: nat :| i <= |s| && OccursAt(s, pat, i);
    assert s[i + k] == s[i..i + |pat|][k];
  }

  /** The text of `s` before its first `c`, or all of `s` when it has none. */
  function TakeUntil(s: string, c: char): (r: string)
    ensures |r| <= |s| && r == s[..|r|]
    ensures c !in r
    ensures |r| < |s| ==> s[|r|] == c
  {
    if s == [] || s[0] == c then [] else [s[0]] + TakeUntil(s[1..], c)
  }

  /** A word free of `c` followed by `c` is read back whole. */
  lemma {:induction false} TakeUntilWord(w: string, c: char, rest: string)
    requires c !in w
    requires rest != [] ==> rest[0] == c
    ensures TakeUntil(w + rest, c) == w
    decreases |w|
  {
    if w != [] {
      assert (w + rest)[1..] == w[1..] + rest;
      TakeUntilWord(w[1..], c, rest);
    }
  }

  /** `s` without its leading `prefix`, when it starts with one. */
  function After(s: string, prefix: string): (r: Option<string>)
    ensures r.Some? <==> StartsWith(s, prefix)
    ensures r.Some? ==> s == prefix + r.value
  {
    if StartsWith(s, prefix) then Some(s[|prefix|..]) else None
  }

  lemma AfterPrefix(prefix: string, rest: string)
    ensures After(prefix + rest, prefix) == Some(rest)
  {
    assert StartsWith(prefix + rest, prefix);
    assert (prefix + rest)[|prefix|..] == rest;
  }

  /** Splits `s` at its first `c` into the text before it and the rest,
      which starts with `c` unless it is empty. */
  function Field(s: string, c: char): (parts: (string, string))
    ensures s == parts.0 + parts.1 && c !in parts.0
    ensures parts.1 != [] ==> parts.1[0] == c
  {
    var w := TakeUntil(s, c);
    (w, s[|w|..])
  }

  /** A word free of `c`, then `c`, splits at that `c`. */
  lemma FieldOf(w: string, c: char, rest: string)
    requires c !in w
    requires rest != [] ==> rest[0] == c
    ensures Field(w + rest, c) == (w, rest)
  {
    TakeUntilWord(w, c, rest);
    assert (w + rest)[|w|..] == rest;
  }

  /** Prefixes every line after the first with "br>", which is what
      `Join(lines, "<br>")` becomes when read as pieces separated by '<'. */
  function MarkBreaks(ws: seq<string>): (marked: seq<string>)
    ensures |marked| == |ws|
    ensures forall k :: 0 <= k < |ws| ==> marked[k] == "br>" + ws[k]
  {
    seq(|ws|, k requires 0 <= k < |ws| => "br>" + ws[k])
  }

  lemma {:induction false} JoinMarkedBreaks(ws: seq<string>)
    requires ws != []
    ensures Join(MarkBreaks(ws), "<") == "br>" + Join(ws, "<br>")
    decreases |ws|
  {
    if |ws| > 1 {
      JoinMarkedBreaks(ws[1..]);
      assert MarkBreaks(ws)[1..] == MarkBreaks(ws[1..]);
    }
  }

  /** Strips the "br>" left at the head of a piece by splitting on '<'. */
  function DropBreak(p: string): string {
    if StartsWith(p, "br>") then p[3..] else p
  }

  function DropBreaks(pieces: seq<string>): (r: seq<string>)
    ensures |r| == |pieces|
    ensures forall k :: 0 <= k < |pieces| ==> r[k] == DropBreak(pieces[k])
  {
    seq(|pieces|, k requires 0 <= k < |pieces| => DropBreak(pieces[k]))
  }

  /** Reads lines joined with "<br>" back into the lines. */
  function SplitBreaks(s: string): (lines: seq<string>)
    ensures |lines| >= 1
  {
    var pieces := Split(s, '<');
    [pieces[0]] + DropBreaks(pieces[1..])
  }

  /** The pieces of `Join(lines, "<br>")` between its '<'s. */
  function BreakPieces(lines: seq<string>): (pieces: seq<string>)
    requires lines != []
    ensures |pieces| == |lines| && pieces[0] == lines[0]
    ensures forall k :: 0 < k < |lines| ==> pieces[k] == "br>" + lines[k]
  {
    [lines[0]] + MarkBreaks(lines[1..])
  }

  lemma JoinBreakPieces(lines: seq<string>)
    requires lines != []
    ensures Join(BreakPieces(lines), "<") == Join(lines, "<br>")
  {
    var pieces := BreakPieces(lines);
    if |lines| > 1 {
      assert pieces[1..] == MarkBreaks(lines[1..]);
      JoinMarkedBreaks(lines[1..]);
    }
  }

  lemma BreakPiecesPlain(lines: seq<string>)
    requires lines != []
    requires forall k :: 0 <= k < |lines| ==> '<' !in lines[k]
    ensures forall k :: 0 <= k < |lines| ==> '<' !in BreakPieces(lines)[k]
  {
    var pieces := BreakPieces(lines);
    forall k | 0 < k < |lines|
      ensures '<' !in pieces[k]
    {
      assert pieces[k] == "br>" + lines[k];
    }
  }

  lemma DropBreakPieces(lines: seq<string>)
    requires lines != []
    ensures [lines[0]] + DropBreaks(BreakPieces(lines)[1..]) == lines
  {
    var pieces := BreakPieces(lines);
    var tail := DropBreaks(pieces[1..]);
    forall k | 0 <= k < |tail|
      ensures tail[k] == lines[k + 1]
    {
      var p := pieces[k + 1];
      assert StartsWith(p, "br>");
      assert p[3..] == lines[k + 1];
    }
    assert tail == lines[1..];
  }

  /** Splitting on "<br>" undoes joining with it, provided no line holds a '<'. */
  lemma SplitBreaksJoin(lines: seq<string>)
    requires lines != []
    requires forall k :: 0 <= k < |lines| ==> '<' !in lines[k]
    ensures SplitBreaks(Join(lines, "<br>")) == lines
  {
    var pieces := BreakPieces(lines);
    JoinBreakPieces(lines);
    BreakPiecesPlain(lines);
    SplitJoin(pieces, '<');
    DropBreakPieces(lines);
  }

  predicate StartsWith(s: string, prefix: string) {
    |prefix| <= |s| && s[..|prefix|] == prefix
  }

  predicate EndsWith(s: string, suffix: string) {
    |suffix| <= |s| && s[|s| - |suffix|..] == suffix
  }
}
