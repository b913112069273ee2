/** The node locator of both playground pages (`getNodeAtPosition`): from
    the transform code before the cursor it guesses the AST node type whose
    visitor the user is editing, by a text heuristic rather than a parse. */
module NodeLocator {
  import opened Results
  import opened Text

  /** The literal that opens the visitor object in a plugin. */
  const Marker: string := "visitor: {"

  /** The end-of-line sequence of the editor's text model. */
  const Eol: string := "\n"

  /** A 1-based cursor position, as the editor reports it. */
  datatype Position = Position(lineNumber: int, column: int)

  /** The lines of an editor buffer. */
  function Lines(text: string): (lines: seq<string>)
    ensures |lines| >= 1
  {
    Split(text, Eol)
  }

  /** A position the editor can report: an existing line, and a column from
      1 up to one past the line's last character. */
  predicate ValidPosition(text: string, pos: Position) {
    var lines := Lines(text);
    1 <= pos.lineNumber <= |lines| &&
    1 <= pos.column <= |lines[pos.lineNumber - 1]| + 1
  }

  /** The value of the range (1,1)-(line,column): every earlier line in full,
      then the first column-1 characters of the cursor's line (the end of
      the range is exclusive). */
  function CursorPrefix(text: string, pos: Position): (p: string)
    requires ValidPosition(text, pos)
    ensures p <= text
  {
    var lines := Lines(text);
    var li := pos.lineNumber - 1;
    JoinPrefix(lines, li, pos.column - 1, Eol);
    JoinSplit(text, Eol);
    Join(lines[..li] + [lines[li][..pos.column - 1]], Eol)
  }

  lemma {:induction false} JoinPrefix(lines: seq<string>, li: nat, c: nat, sep: string)
    requires li < |lines| && c <= |lines[li]|
    ensures Join(lines[..li] + [lines[li][..c]], sep) <= Join(lines, sep)
    decreases li
  {
    var cut := lines[..li] + [lines[li][..c]];
    if li == 0 {
      assert cut == [lines[0][..c]];
    } else {
      assert cut[1..] == lines[1..][..li - 1] + [lines[1..][li - 1][..c]];
      JoinPrefix(lines[1..], li - 1, c, sep);
    }
  }

  // ---------------------------------------------------------------------
  // The regular expression /([A-Z][a-z0-9]+)+/g, without a regex engine.

  predicate IsUpper(c: char) { 'A' <= c <= 'Z' }

  predicate IsLowerOrDigit(c: char) { 'a' <= c <= 'z' || '0' <= c <= '9' }

  /** `s[p..e]` belongs to the language of ([A-Z][a-z0-9]+)+: it starts with
      an upper-case letter, holds only letters of the two classes, and every
      upper-case letter is followed by a lower-case letter or digit. */
  ghost predicate PascalSpan(s: string, p: nat, e: nat) {
    p < e <= |s| && IsUpper(s[p]) &&
    (forall k :: p <= k < e ==> IsUpper(s[k]) || IsLowerOrDigit(s[k])) &&
    (forall k :: p <= k < e && IsUpper(s[k]) ==> k + 1 < e && IsLowerOrDigit(s[k + 1]))
  }

  /** A whole string in the language of ([A-Z][a-z0-9]+)+. */
  ghost predicate PascalWord(w: string) {
    PascalSpan(w, 0, |w|)
  }

  /** Some match of the pattern starts at index `k`. */
  ghost predicate MatchableAt(s: string, k: nat) {
    exists e: nat :: PascalSpan(s, k, e)
  }

  /** No match of the pattern starts in `[a, b)`. */
  ghost predicate NoMatchBetween(s: string, a: nat, b: nat) {
    forall k: nat :: a <= k < b ==> !MatchableAt(s, k)
  }

  /** `s[p..e]` is the greedy match at `p`: no longer match starts there. */
  ghost predicate LongestAt(s: string, p: nat, e: nat) {
    PascalSpan(s, p, e) && forall e': nat :: e < e' ==> !PascalSpan(s, p, e')
  }

  /** A match, as the half-open index range `[start, end)`. */
  datatype Span = Span(start: nat, end: nat)

  /** `spans` are the matches a global match produces when the search starts
      at `from`: each is the leftmost match not before the end of the
      previous one, taken as long as possible, and none follows the last. */
  ghost predicate MatchesFrom(s: string, from: nat, spans: seq<Span>)
    decreases |spans|
  {
    if spans == [] then NoMatchBetween(s, from, |s|)
    else
      from <= spans[0].start &&
      NoMatchBetween(s, from, spans[0].start) &&
      LongestAt(s, spans[0].start, spans[0].end) &&
      MatchesFrom(s, spans[0].end, spans[1..])
  }

  /** A match can start at `k`: an upper-case letter, then a lower-case
      letter or digit. */
  predicate StartsGroup(s: string, k: nat) {
    k + 1 < |s| && IsUpper(s[k]) && IsLowerOrDigit(s[k + 1])
  }

  /** Where a match that has reached `q` ends when it keeps consuming
      lower-case letters, digits and further groups. */
  function RunEnd(s: string, q: nat): (e: nat)
    requires q <= |s|
    ensures q <= e <= |s|
    decreases |s| - q
  {
    if q < |s| && IsLowerOrDigit(s[q]) then RunEnd(s, q + 1)
    else if StartsGroup(s, q) then RunEnd(s, q + 2)
    else q
  }

  /** The matches found by scanning `s` from index `i`. */
  function ScanFrom(s: string, i: nat): (spans: seq<Span>)
    requires i <= |s|
    ensures forall j :: 0 <= j < |spans| ==> i <= spans[j].start < spans[j].end <= |s|
    decreases |s| - i
  {
    if i == |s| then []
    else if StartsGroup(s, i) then
      var e := RunEnd(s, i + 2);
      [Span(i, e)] + ScanFrom(s, e)
    else ScanFrom(s, i + 1)
  }

  /** The texts of the spans. */
  function Texts(s: string, spans: seq<Span>): (ms: seq<string>)
    requires forall j :: 0 <= j < |spans| ==> spans[j].start <= spans[j].end <= |s|
    ensures |ms| == |spans|
  {
    seq(|spans|, j requires 0 <= j < |spans| => s[spans[j].start..spans[j].end])
  }

  /** `s.match(/([A-Z][a-z0-9]+)+/g)`, with no matches as the empty list. */
  function Matches(s: string): seq<string> {
    Texts(s, ScanFrom(s, 0))
  }

  /** The heuristic on the text before the cursor: take piece 1 of the split
      on the marker, and return the last match in it. */
  function Locate(text: string): Option<string> {
    var pieces := Split(text, Marker);
    if |pieces| < 2 || pieces[1] == "" then None
    else
      var ms := Matches(pieces[1]);
      if |ms| == 0 then None else Some(ms[|ms| - 1])
  }

  /** `getNodeAtPosition(model, position)`. */
  function NodeAtPosition(text: string, pos: Position): Option<string>
    requires ValidPosition(text, pos)
  {
    Locate(CursorPrefix(text, pos))
  }

  // ---------------------------------------------------------------------
  // The scanner computes exactly the regular expression's matches.

  lemma StartsGroupIffMatchable(s: string, k: nat)
    ensures StartsGroup(s, k) <==> MatchableAt(s, k)
  {
    if StartsGroup(s, k) {
      assert PascalSpan(s, k, k + 2);
    }
  }

  lemma {:induction false} RunEndLongest(s: string, p: nat, q: nat)
    requires p < q <= |s| && PascalSpan(s, p, q)
    ensures LongestAt(s, p, RunEnd(s, q))
    decreases |s| - q
  {
    if q < |s| && IsLowerOrDigit(s[q]) {
      ExtendByLower(s, p, q);
      RunEndLongest(s, p, q + 1);
    } else if StartsGroup(s, q) {
      ExtendByGroup(s, p, q);
      RunEndLongest(s, p, q + 2);
    } else {
      RunStopsLongest(s, p, q);
    }
  }

  lemma ExtendByLower(s: string, p: nat, q: nat)
    requires p < q < |s| && PascalSpan(s, p, q) && IsLowerOrDigit(s[q])
    ensures PascalSpan(s, p, q + 1) && RunEnd(s, q) == RunEnd(s, q + 1)
  {
  }

  lemma ExtendByGroup(s: string, p: nat, q: nat)
    requires p < q && PascalSpan(s, p, q) && StartsGroup(s, q)
    requires !(q < |s| && IsLowerOrDigit(s[q]))
    ensures PascalSpan(s, p, q + 2) && RunEnd(s, q) == RunEnd(s, q + 2)
  {
  }

  lemma RunStopsLongest(s: string, p: nat, q: nat)
    requires p < q <= |s| && PascalSpan(s, p, q)
    requires !(q < |s| && IsLowerOrDigit(s[q])) && !StartsGroup(s, q)
    ensures RunEnd(s, q) == q && LongestAt(s, p, q)
  {
    forall e': nat | q < e'
      ensures !PascalSpan(s, p, e')
    {
      if PascalSpan(s, p, e') {
        assert false;
      }
    }
  }

  /** The scanner's spans are the global match's spans. */
  lemma {:induction false} ScanCorrect(s: string, i: nat)
    requires i <= |s|
    ensures MatchesFrom(s, i, ScanFrom(s, i))
    decreases |s| - i
  {
    if i == |s| {
    } else if StartsGroup(s, i) {
      var e := RunEnd(s, i + 2);
      assert LongestAt(s, i, e) by {
        assert PascalSpan(s, i, i + 2);
        RunEndLongest(s, i, i + 2);
      }
      ScanCorrect(s, e);
      ScanCorrectGroup(s, i);
    } else {
      ScanCorrect(s, i + 1);
      ScanCorrectSkip(s, i);
    }
  }

  lemma ScanCorrectGroup(s: string, i: nat)
    requires i < |s| && StartsGroup(s, i)
    requires LongestAt(s, i, RunEnd(s, i + 2))
    requires MatchesFrom(s, RunEnd(s, i + 2), ScanFrom(s, RunEnd(s, i + 2)))
    ensures MatchesFrom(s, i, ScanFrom(s, i))
  {
    var e := RunEnd(s, i + 2);
    var spans := ScanFrom(s, i);
    assert spans == [Span(i, e)] + ScanFrom(s, e);
    assert spans[1..] == ScanFrom(s, e);
  }

  lemma ScanCorrectSkip(s: string, i: nat)
    requires i < |s| && !StartsGroup(s, i)
    requires MatchesFrom(s, i + 1, ScanFrom(s, i + 1))
    ensures MatchesFrom(s, i, ScanFrom(s, i))
  {
    StartsGroupIffMatchable(s, i);
    var rest := ScanFrom(s, i + 1);
    assert ScanFrom(s, i) == rest;
    if rest == [] {
      assert NoMatchBetween(s, i, |s|);
    } else {
      assert NoMatchBetween(s, i, rest[0].start);
    }
  }

  /** The global match's spans are determined by the string. */
  lemma {:induction false} MatchesUnique(s: string, from: nat, a: seq<Span>, b: seq<Span>)
    requires MatchesFrom(s, from, a) && MatchesFrom(s, from, b)
    ensures a == b
    decreases |a|
  {
    if a == [] && b != [] {
      assert MatchableAt(s, b[0].start);
    } else if a != [] && b == [] {
      assert MatchableAt(s, a[0].start);
    } else if a != [] {
      var p, q := a[0].start, b[0].start;
      if p < q {
        assert MatchableAt(s, p);
      } else if q < p {
        assert MatchableAt(s, q);
      }
      var ea, eb := a[0].end, b[0].end;
      assert ea == eb by {
        assert LongestAt(s, p, ea) && LongestAt(s, p, eb);
      }
      MatchesUnique(s, ea, a[1..], b[1..]);
      assert a == [a[0]] + a[1..];
      assert b == [b[0]] + b[1..];
    }
  }

  // ---------------------------------------------------------------------
  // What the locator returns.

  /** Without the marker in the text before the cursor there is no result. */
  lemma LocateWithoutMarker(text: string)
    ensures !Contains(text, Marker) ==> Locate(text) == None
  {
    SplitSingleIff(text, Marker);
  }

  /** The text of a span of `s` (empty when the span is not inside `s`). */
  function SpanText(s: string, sp: Span): string {
    if sp.start <= sp.end <= |s| then s[sp.start..sp.end] else ""
  }

  /** The result is the last of the global matches in piece 1 of the split,
      whatever list of matches the regular expression produces there; an
      empty piece or a piece without matches gives no result. */
  lemma LocateIsLastMatch(text: string, spans: seq<Span>)
    requires |Split(text, Marker)| >= 2
    requires MatchesFrom(Split(text, Marker)[1], 0, spans)
    ensures Locate(text) == if spans == [] then None
                            else Some(SpanText(Split(text, Marker)[1], spans[|spans| - 1]))
  {
    var seg := Split(text, Marker)[1];
    assert spans == ScanFrom(seg, 0) by {
      ScanCorrect(seg, 0);
      MatchesUnique(seg, 0, spans, ScanFrom(seg, 0));
    }
    LocateByScan(text);
  }

  /** The locator in terms of the scanner. */
  lemma LocateByScan(text: string)
    requires |Split(text, Marker)| >= 2
    ensures var seg := Split(text, Marker)[1];
      var spans := ScanFrom(seg, 0);
      Locate(text) == if spans == [] then None else Some(SpanText(seg, spans[|spans| - 1]))
  {
    var seg := Split(text, Marker)[1];
    var spans := ScanFrom(seg, 0);
    if spans != [] {
      assert seg != "";
      var ms := Matches(seg);
      assert ms[|ms| - 1] == SpanText(seg, spans[|spans| - 1]);
    }
  }

  /** A result is a word of ([A-Z][a-z0-9]+)+ (so it starts with an
      upper-case letter and has at least two characters) and a substring of
      piece 1 of the split. */
  lemma LocateResultShape(text: string)
    ensures Locate(text).Some? ==>
      var r := Locate(text).value;
      PascalWord(r) && |r| >= 2 && IsUpper(r[0]) && Contains(Split(text, Marker)[1], r)
  {
    var pieces := Split(text, Marker);
    if Locate(text).Some? {
      var seg := pieces[1];
      var spans := ScanFrom(seg, 0);
      ScanCorrect(seg, 0);
      var last := spans[|spans| - 1];
      LastSpanLongest(seg, 0, spans);
      var r := seg[last.start..last.end];
      assert Locate(text) == Some(r);
      SpanWord(seg, last.start, last.end);
      assert OccursAt(seg, r, last.start);
    }
  }

  lemma {:induction false} LastSpanLongest(s: string, from: nat, spans: seq<Span>)
    requires spans != [] && MatchesFrom(s, from, spans)
    ensures LongestAt(s, spans[|spans| - 1].start, spans[|spans| - 1].end)
    decreases |spans|
  {
    if |spans| > 1 {
      LastSpanLongest(s, spans[0].end, spans[1..]);
    }
  }

  lemma SpanWord(s: string, p: nat, e: nat)
    requires PascalSpan(s, p, e)
    ensures PascalWord(s[p..e]) && e - p >= 2
  {
    var w := s[p..e];
    forall k | 0 <= k < |w|
      ensures IsUpper(w[k]) || IsLowerOrDigit(w[k])
      ensures IsUpper(w[k]) ==> k + 1 < |w| && IsLowerOrDigit(w[k + 1])
    {
      assert w[k] == s[p + k];
      if k + 1 < |w| {
        assert w[k + 1] == s[p + k + 1];
      }
    }
  }

  /** Piece 1 of the split lies after the first marker and before the next
      one: text before the first marker (such as a return-type annotation
      written before the visitor object) is never returned. */
  lemma LocateAfterFirstMarker(text: string, i: nat)
    requires IndexFrom(text, Marker, 0) == Some(i)
    ensures Locate(text).Some? ==>
      exists o: nat :: i + |Marker| <= o && OccursAt(text, Locate(text).value, o)
  {
    SecondPiece(text, Marker, i);
    LocateResultShape(text);
    if Locate(text).Some? {
      var r := Locate(text).value;
      var rest := text[i + |Marker|..];
      var seg := Split(text, Marker)[1];
      var k: nat :| OccursAt(seg, r, k);
      assert seg == rest[..|seg|];
      OccursInPrefix(rest, r, |seg|, k);
      OccursInSuffix(text, r, i + |Marker|, k);
    }
  }

  /** Without the marker before the cursor the locator gives nothing, for
      every cursor position; in particular in a buffer without the marker. */
  lemma NoMarkerBeforeCursor(text: string, pos: Position)
    requires ValidPosition(text, pos)
    ensures !Contains(CursorPrefix(text, pos), Marker) ==> NodeAtPosition(text, pos) == None
    ensures !Contains(text, Marker) ==> NodeAtPosition(text, pos) == None
  {
    var p := CursorPrefix(text, pos);
    LocateWithoutMarker(p);
    if Contains(p, Marker) {
      var k: nat :| OccursAt(p, Marker, k);
      assert p == text[..|p|];
      OccursInPrefix(text, Marker, |p|, k);
    }
  }

  // ---------------------------------------------------------------------
  // Composing scans, for concrete buffers.

  /** A character that can be no part of a match. */
  predicate IsBreak(c: char) { !IsUpper(c) && !IsLowerOrDigit(c) }

  function Shift(spans: seq<Span>, n: nat): (r: seq<Span>)
    ensures |r| == |spans|
    ensures forall j :: 0 <= j < |r| ==> r[j] == Span(spans[j].start + n, spans[j].end + n)
  {
    seq(|spans|, j requires 0 <= j < |spans| => Span(spans[j].start + n, spans[j].end + n))
  }

  lemma {:induction false} RunEndShift(c: string, d: string, q: nat)
    requires q <= |d|
    ensures RunEnd(c + d, |c| + q) == |c| + RunEnd(d, q)
    decreases |d| - q
  {
    var s := c + d;
    if q < |d| {
      assert s[|c| + q] == d[q];
    }
    if q + 1 < |d| {
      assert s[|c| + q + 1] == d[q + 1];
    }
    if q < |d| && IsLowerOrDigit(d[q]) {
      RunEndShift(c, d, q + 1);
    } else if StartsGroup(d, q) {
      RunEndShift(c, d, q + 2);
    }
  }

  /** Scanning the tail `d` of `c + d` finds the matches of `d`, moved. */
  lemma {:induction false} ScanShift(c: string, d: string, i: nat)
    requires i <= |d|
    ensures ScanFrom(c + d, |c| + i) == Shift(ScanFrom(d, i), |c|)
    decreases |d| - i
  {
    if i == |d| {
      assert ScanFrom(c + d, |c| + i) == [];
    } else if StartsGroup(d, i) {
      var e := RunEnd(d, i + 2);
      RunEndShift(c, d, i + 2);
      ScanShift(c, d, e);
      ScanShiftGroup(c, d, i);
    } else {
      ScanShift(c, d, i + 1);
      ScanShiftSkip(c, d, i);
    }
  }

  lemma SameStart(c: string, d: string, i: nat)
    requires i < |d|
    ensures StartsGroup(c + d, |c| + i) == StartsGroup(d, i)
  {
    var s := c + d;
    assert s[|c| + i] == d[i];
    if i + 1 < |d| {
      assert s[|c| + i + 1] == d[i + 1];
    }
  }

  lemma ScanShiftGroup(c: string, d: string, i: nat)
    requires i < |d| && StartsGroup(d, i)
    requires RunEnd(c + d, |c| + i + 2) == |c| + RunEnd(d, i + 2)
    requires ScanFrom(c + d, |c| + RunEnd(d, i + 2)) == Shift(ScanFrom(d, RunEnd(d, i + 2)), |c|)
    ensures ScanFrom(c + d, |c| + i) == Shift(ScanFrom(d, i), |c|)
  {
    var e := RunEnd(d, i + 2);
    var tail := ScanFrom(d, e);
    GroupStepShifted(c, d, i);
    ScanGroupStep(d, i);
    ShiftCons(Span(i, e), tail, |c|);
  }

  lemma GroupStepShifted(c: string, d: string, i: nat)
    requires i < |d| && StartsGroup(d, i)
    requires RunEnd(c + d, |c| + i + 2) == |c| + RunEnd(d, i + 2)
    ensures ScanFrom(c + d, |c| + i) ==
      [MoveSpan(Span(i, RunEnd(d, i + 2)), |c|)] + ScanFrom(c + d, |c| + RunEnd(d, i + 2))
  {
    var s := c + d;
    var j := |c| + i;
    assert StartsGroup(s, j) by {
      SameStart(c, d, i);
    }
    GroupStepAt(s, j, |c| + RunEnd(d, i + 2));
  }

  lemma GroupStepAt(s: string, j: nat, e: nat)
    requires j < |s| && StartsGroup(s, j) && RunEnd(s, j + 2) == e
    ensures ScanFrom(s, j) == [Span(j, e)] + ScanFrom(s, e)
  {
  }

  /** One step of the scan at the start of a match. */
  lemma ScanGroupStep(s: string, i: nat)
    requires i < |s| && StartsGroup(s, i)
    ensures ScanFrom(s, i) == [Span(i, RunEnd(s, i + 2))] + ScanFrom(s, RunEnd(s, i + 2))
  {
  }

  lemma ShiftCons(sp: Span, spans: seq<Span>, n: nat)
    ensures Shift([sp] + spans, n) == [MoveSpan(sp, n)] + Shift(spans, n)
  {
    var r := Shift([sp] + spans, n);
    var t := [MoveSpan(sp, n)] + Shift(spans, n);
    assert |r| == |t|;
    forall j | 0 <= j < |r|
      ensures r[j] == t[j]
    {
      if j > 0 {
        assert ([sp] + spans)[j] == spans[j - 1];
      }
    }
  }

  lemma ScanShiftSkip(c: string, d: string, i: nat)
    requires i < |d| && !StartsGroup(d, i)
    requires ScanFrom(c + d, |c| + i + 1) == Shift(ScanFrom(d, i + 1), |c|)
    ensures ScanFrom(c + d, |c| + i) == Shift(ScanFrom(d, i), |c|)
  {
    SameStart(c, d, i);
  }

  lemma {:induction false} RunEndStops(s: string, q: nat, m: nat)
    requires q <= m < |s| && IsBreak(s[m])
    ensures RunEnd(s, q) <= m
    decreases |s| - q
  {
    if q < |s| && IsLowerOrDigit(s[q]) {
      RunEndStops(s, q + 1, m);
    } else if StartsGroup(s, q) {
      RunEndStops(s, q + 2, m);
    }
  }

  /** The last of a list of spans. */
  function LastOf(spans: seq<Span>): (r: Option<Span>)
    ensures r.Some? <==> spans != []
  {
    if spans == [] then None else Some(spans[|spans| - 1])
  }

  /** A span moved right by `n`. */
  function MoveSpan(sp: Span, n: nat): Span {
    Span(sp.start + n, sp.end + n)
  }

  /** The last match found by scanning `s` from `i`. */
  function LastFound(s: string, i: nat): Option<Span>
    requires i <= |s|
  {
    LastOf(ScanFrom(s, i))
  }

  /** One step of the scan, seen from its last match. */
  lemma LastFoundStep(s: string, i: nat)
    requires i < |s|
    ensures StartsGroup(s, i) && LastFound(s, RunEnd(s, i + 2)).Some? ==>
      LastFound(s, i) == LastFound(s, RunEnd(s, i + 2))
    ensures !StartsGroup(s, i) ==> LastFound(s, i) == LastFound(s, i + 1)
  {
    if StartsGroup(s, i) {
      ScanGroupStep(s, i);
    }
  }

  /** No match crosses a break character at `m - 1`, so the last match of
      a scan that reaches `m` and finds something after it is found after it. */
  lemma {:induction false} ScanLastAfterBreak(s: string, i: nat, m: nat)
    requires i <= m <= |s| && 0 < m && IsBreak(s[m - 1])
    requires LastFound(s, m).Some?
    ensures LastFound(s, i) == LastFound(s, m)
    decreases m - i
  {
    if i < m {
      LastFoundStep(s, i);
      if StartsGroup(s, i) {
        var e := RunEnd(s, i + 2);
        RunEndStops(s, i + 2, m - 1);
        ScanLastAfterBreak(s, e, m);
      } else {
        ScanLastAfterBreak(s, i + 1, m);
      }
    }
  }

  /** A text without a colon holds no marker. */
  lemma NoColonNoMarker(s: string)
    requires ':' !in s
    ensures !Contains(s, Marker)
  {
    forall k: nat
      ensures !OccursAt(s, Marker, k)
    {
      OccursChar(s, Marker, k, 7);
    }
  }

  /** Between two parts without a colon, the marker occurs once. */
  lemma MarkerOnceWithoutColon(a: string, seg: string)
    requires ':' !in a && ':' !in seg
    ensures IndexFrom(a + Marker + seg, Marker, 0) == Some(|a|) && !Contains(seg, Marker)
  {
    FirstOccurrence(a, Marker, seg, 7);
    NoColonNoMarker(seg);
  }

  /** Splitting a text whose only marker ends where `seg` begins gives
      `seg` as piece 1. */
  lemma SplitAtOnlyMarker(a: string, seg: string)
    requires IndexFrom(a + Marker + seg, Marker, 0) == Some(|a|) && !Contains(seg, Marker)
    ensures |Split(a + Marker + seg, Marker)| >= 2 && Split(a + Marker + seg, Marker)[1] == seg
  {
    var text := a + Marker + seg;
    assert text[|a| + |Marker|..] == seg;
    SplitStep(text, Marker, |a|);
    IndexFromSpec(seg, Marker, 0);
    FirstPiece(seg, Marker);
  }

  /** The last match of a scan that finds something. */
  function LastMatch(s: string): string {
    var last := LastFound(s, 0);
    if last.None? then "" else SpanText(s, last.value)
  }

  /** A scan of `c + d`, where `c` ends in a break, ends with the last match
      of `d`. */
  lemma LastMatchAfterBreak(c: string, d: string)
    requires c != [] && IsBreak(c[|c| - 1])
    requires ScanFrom(d, 0) != []
    ensures ScanFrom(c + d, 0) != [] && LastMatch(c + d) == LastMatch(d)
  {
    var s := c + d;
    var last := LastFound(d, 0).value;
    assert LastFound(s, |c|) == Some(MoveSpan(last, |c|)) by {
      TailScanLast(c, d);
    }
    assert LastFound(s, 0) == LastFound(s, |c|) by {
      BreakBeforeTail(c, d);
      ScanLastAfterBreak(s, 0, |c|);
    }
    ShiftedText(c, d, last);
  }

  /** The last match found by scanning `c + d` from `|c|` is the last match
      of `d`, moved. */
  lemma TailScanLast(c: string, d: string)
    ensures LastFound(c + d, |c|) ==
      if LastFound(d, 0).None? then None else Some(MoveSpan(LastFound(d, 0).value, |c|))
  {
    var moved := ScanFrom(c + d, |c|);
    var spans := ScanFrom(d, 0);
    assert moved == Shift(spans, |c|) by {
      ScanShift(c, d, 0);
    }
    ShiftLast(moved, spans, |c|);
  }

  lemma ShiftLast(moved: seq<Span>, spans: seq<Span>, n: nat)
    requires moved == Shift(spans, n)
    ensures LastOf(moved) == if spans == [] then None else Some(MoveSpan(spans[|spans| - 1], n))
  {
  }

  lemma BreakBeforeTail(c: string, d: string)
    requires c != [] && IsBreak(c[|c| - 1])
    ensures 0 < |c| <= |c + d| && IsBreak((c + d)[|c| - 1])
  {
    assert (c + d)[|c| - 1] == c[|c| - 1];
  }

  lemma ShiftedText(c: string, d: string, sp: Span)
    ensures SpanText(c + d, MoveSpan(sp, |c|)) == SpanText(d, sp)
  {
    if sp.start <= sp.end <= |d| {
      assert (c + d)[|c| + sp.start..|c| + sp.end] == d[sp.start..sp.end];
    }
  }

  /** The locator on a text made of a part `a`, the marker and a part
      `seg`, where that marker is the first one and `seg` holds none, and
      the scan finds something in `seg`: the result is the last match of
      `seg`. */
  lemma LocateLastWord(a: string, seg: string)
    requires IndexFrom(a + Marker + seg, Marker, 0) == Some(|a|) && !Contains(seg, Marker)
    requires ScanFrom(seg, 0) != []
    ensures Locate(a + Marker + seg) == Some(LastMatch(seg))
  {
    SplitAtOnlyMarker(a, seg);
    LocateSecondPiece(a + Marker + seg, seg);
  }

  /** The locator returns the last match of piece 1 when that piece has one. */
  lemma LocateSecondPiece(text: string, seg: string)
    requires |Split(text, Marker)| >= 2 && Split(text, Marker)[1] == seg
    requires ScanFrom(seg, 0) != []
    ensures Locate(text) == Some(LastMatch(seg))
  {
    LocateByScan(text);
  }
}
