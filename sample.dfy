/** The plugin the editor page opens with, and what the node locator
    answers for cursors placed in it. */
module EditorSample {
  import opened Results
  import opened Text
  import opened NodeLocator

  /** The default transform code of pages/editor.tsx, one string per line
      (the template literal starts with a line break, so line 1 is empty).
      Proof scaffolding: line 3 is written as two literals, and the facts
      about the lines below are split into small lemmas, only to keep each
      proof obligation small; the text is that of the source. */
  const SampleLines: seq<string> := [
    "",
    "/**",
    " * A babel plugin to convert " + "'var' declarations to 'let'.",
    " */",
    "export default () => {",
    "  return {",
    "    visitor: {",
    "      VariableDeclaration(path) {",
    "        if (path.node.kind === 'var') {",
    "          // path.node.kind = 'let'",
    "        }",
    "      },",
    "      Identifier(path) {",
    "",
    "      }",
    "    }",
    "  }",
    "}",
    ""
  ]

  /** The same code as one buffer. */
  const SampleCode: string := Join(SampleLines, Eol)

  lemma NoLineBreakInSampleLines()
    ensures forall i :: 0 <= i < |SampleLines| ==> '\n' !in SampleLines[i]
  {
    forall i | 0 <= i < |SampleLines|
      ensures '\n' !in SampleLines[i]
    {
      if i < 7 {
        NoLineBreakBefore7(i);
      } else if i < 13 {
        NoLineBreakBefore13(i);
      } else {
        NoLineBreakFrom13(i);
      }
    }
  }

  lemma NoLineBreakBefore7(i: nat)
    requires i < 7
    ensures '\n' !in SampleLines[i]
  {
    if i == 0 {} else if i == 1 {} else if i == 2 {} else if i == 3 {} else if i == 4 {}
    else if i == 5 {} else {}
  }

  lemma NoLineBreakBefore13(i: nat)
    requires 7 <= i < 13
    ensures '\n' !in SampleLines[i]
  {
    if i == 7 {} else if i == 8 {} else if i == 9 {} else if i == 10 {} else if i == 11 {} else {}
  }

  lemma NoLineBreakFrom13(i: nat)
    requires 13 <= i < |SampleLines|
    ensures '\n' !in SampleLines[i]
  {
    if i == 13 {} else if i == 14 {} else if i == 15 {} else if i == 16 {} else if i == 17 {} else {}
  }

  /** The editor's lines of the buffer are the sample's lines. */
  lemma SampleCodeLines()
    ensures Lines(SampleCode) == SampleLines
  {
    NoLineBreakInSampleLines();
    SplitJoinChar(SampleLines, '\n');
  }

  /** The buffer before the cursor at the start of line `n`. */
  lemma PrefixAtLineStart(n: nat)
    requires 1 <= n <= |SampleLines|
    ensures ValidPosition(SampleCode, Position(n, 1))
    ensures CursorPrefix(SampleCode, Position(n, 1)) == Join(SampleLines[..n - 1] + [""], Eol)
  {
    SampleCodeLines();
    assert SampleLines[n - 1][..0] == "";
  }

  /** The text before line 7, then the indentation before the marker. */
  lemma HeadHasNoColon()
    ensures ':' !in Join(SampleLines[..6], Eol) + Eol + "    "
  {
    var head := SampleLines[..6];
    forall i | 0 <= i < |head|
      ensures ':' !in head[i]
    {
      HeadLineFree(i);
    }
    CharFreeJoin(head, Eol, ':');
  }

  /** Lines 8 to 12 hold no colon. */
  lemma BodyHasNoColon()
    ensures ':' !in Join(SampleLines[7..12], Eol)
  {
    var body := SampleLines[7..12];
    forall i | 0 <= i < |body|
      ensures ':' !in body[i]
    {
      if i == 0 {} else if i == 1 {} else if i == 2 {} else if i == 3 {} else {}
    }
    CharFreeJoin(body, Eol, ':');
  }

  lemma JoinPair(x: string, sep: string)
    ensures Join([x, ""], sep) == x + sep
  {
    assert [x, ""][1..] == [""];
  }

  /** The text before the start of the line after `ls[j]`, cut at a line
      `ls[k]` that ends in the marker. */
  lemma CutAtMarkerLine(ls: seq<string>, k: nat, j: nat, indent: string, sep: string)
    requires 1 <= k < j < |ls|
    requires ls[k] == indent + Marker
    ensures Join(ls[..j + 1] + [""], sep) ==
      (Join(ls[..k], sep) + sep + indent) + Marker + (sep + Join(ls[k + 1..j + 1] + [""], sep))
  {
    var tail := ls[k + 1..j + 1] + [""];
    assert ls[..j + 1] + [""] == ls[..k] + ([ls[k]] + tail);
    JoinAppend(ls[..k], [ls[k]] + tail, sep);
    assert ([ls[k]] + tail)[1..] == tail;
  }

  /** As `CutAtMarkerLine`, with the last line `ls[j]` split into its
      indentation `x` and the text `y` after it, for lines between them. */
  lemma CutAround(ls: seq<string>, k: nat, j: nat, indent: string, x: string, y: string, sep: string)
    requires 1 <= k && k + 1 < j < |ls|
    requires ls[k] == indent + Marker && ls[j] == x + y
    ensures Join(ls[..j + 1] + [""], sep) ==
      (Join(ls[..k], sep) + sep + indent) + Marker +
      ((sep + Join(ls[k + 1..j], sep) + sep + x) + (y + sep))
  {
    CutAtMarkerLine(ls, k, j, indent, sep);
    assert ls[k + 1..j + 1] + [""] == ls[k + 1..j] + [ls[j], ""];
    JoinAppend(ls[k + 1..j], [ls[j], ""], sep);
    JoinPair(ls[j], sep);
  }

  /** As `CutAround` when `ls[j]` is the line right after the marker line. */
  lemma CutNext(ls: seq<string>, k: nat, indent: string, x: string, y: string, sep: string)
    requires 1 <= k && k + 1 < |ls|
    requires ls[k] == indent + Marker && ls[k + 1] == x + y
    ensures Join(ls[..k + 2] + [""], sep) ==
      (Join(ls[..k], sep) + sep + indent) + Marker + ((sep + x) + (y + sep))
  {
    CutAtMarkerLine(ls, k, k + 1, indent, sep);
    var tail := ls[k + 1..k + 2] + [""];
    assert tail == [ls[k + 1], ""];
    JoinPair(ls[k + 1], sep);
    assert Join(tail, sep) == (x + y) + sep;
    assert sep + ((x + y) + sep) == (sep + x) + (y + sep);
  }

  /** The text between the marker and line 13's name. */
  function Gap(): string
  {
    Eol + Join(SampleLines[7..12], Eol) + Eol + "      "
  }

  lemma IdentifierCut()
    ensures Join(SampleLines[..12 + 1] + [""], Eol) ==
      (Join(SampleLines[..6], Eol) + Eol + "    ") + Marker + (Gap() + ("Identifier(path) {" + Eol))
  {
    MarkerLine();
    IdentifierLine();
    CutAround(SampleLines, 6, 12, "    ", "      ", "Identifier(path) {", Eol);
  }

  lemma IdentifierLine()
    ensures SampleLines[12] == "      " + "Identifier(path) {"
  {
  }

  lemma IdentifierPrefixCut()
    ensures ValidPosition(SampleCode, Position(14, 1))
    ensures CursorPrefix(SampleCode, Position(14, 1)) ==
      (Join(SampleLines[..6], Eol) + Eol + "    ") + Marker + (Gap() + ("Identifier(path) {" + Eol))
  {
    PrefixAtLineStart(14);
    assert SampleLines[..13] == SampleLines[..12 + 1];
    IdentifierCut();
  }

  lemma IdentifierPrefix()
    ensures ValidPosition(SampleCode, Position(14, 1))
    ensures CursorPrefix(SampleCode, Position(14, 1)) ==
      (Join(SampleLines[..6], Eol) + Eol + "    ") + Marker + (Gap() + "Identifier(path) {\n")
  {
    IdentifierPrefixCut();
    assert "Identifier(path) {" + Eol == "Identifier(path) {\n";
  }

  lemma IdentifierStart()
    ensures StartsGroup("Identifier(path) {\n", 0)
    ensures "Identifier(path) {\n"[..10] == "Identifier"
    ensures ':' !in "Identifier(path) {\n"
  {
    var s := "Identifier(path) {\n";
    assert s[..2] == "Id";
    assert s[0] == s[..2][0] && s[1] == s[..2][1];
  }

  lemma IdentifierRun()
    ensures RunEnd("Identifier(path) {\n", 2) == 10
  {
    var s := "Identifier(path) {\n";
    assert s[..10] == "Identifier";
    RunEndSkips(s, 2, 10);
    assert !IsLowerOrDigit(s[10]) && !StartsGroup(s, 10);
  }

  lemma IdentifierTail()
    ensures ScanFrom("Identifier(path) {\n", 10) == []
  {
    var s := "Identifier(path) {\n";
    assert s[10..] == "(path) {\n";
    forall k | 10 <= k < |s|
      ensures !IsUpper(s[k])
    {
      assert s[k] == s[10..][k - 10];
    }
    ScanWithoutUpper(s, 10);
  }

  lemma IdentifierScan()
    ensures ScanFrom("Identifier(path) {\n", 0) == [Span(0, 10)]
    ensures ':' !in "Identifier(path) {\n"
    ensures LastMatch("Identifier(path) {\n") == "Identifier"
  {
    IdentifierStart();
    IdentifierRun();
    IdentifierTail();
    SingleMatch("Identifier(path) {\n", 10);
  }

  lemma GapEndsInBreak()
    ensures Gap() != [] && IsBreak(Gap()[|Gap()| - 1])
    ensures ':' !in Gap()
  {
    BodyHasNoColon();
    var g := Gap();
    assert g[|g| - 1] == ' ';
  }

  /** Scenario: the cursor at the start of the empty line in the body of
      `Identifier(path)` (line 14) yields "Identifier". */
  lemma CursorInIdentifierBody()
    ensures ValidPosition(SampleCode, Position(14, 1))
    ensures NodeAtPosition(SampleCode, Position(14, 1)) == Some("Identifier")
  {
    IdentifierPrefix();
    HeadHasNoColon();
    IdentifierScan();
    GapEndsInBreak();
    var d := "Identifier(path) {\n";
    LastMatchAfterBreak(Gap(), d);
    assert ':' !in Gap() + d;
    MarkerOnceWithoutColon(Join(SampleLines[..6], Eol) + Eol + "    ", Gap() + d);
    LocateLastWord(Join(SampleLines[..6], Eol) + Eol + "    ", Gap() + d);
  }

  lemma MarkerLine()
    ensures SampleLines[6] == "    " + Marker
  {
  }

  lemma VariableDeclarationLine()
    ensures SampleLines[7] == "      " + "VariableDeclaration(path) {"
  {
  }

  lemma VariableDeclarationCut()
    ensures Join(SampleLines[..6 + 2] + [""], Eol) ==
      (Join(SampleLines[..6], Eol) + Eol + "    ") + Marker +
      ((Eol + "      ") + ("VariableDeclaration(path) {" + Eol))
  {
    MarkerLine();
    VariableDeclarationLine();
    CutNext(SampleLines, 6, "    ", "      ", "VariableDeclaration(path) {", Eol);
  }

  lemma VariableDeclarationPrefixCut()
    ensures ValidPosition(SampleCode, Position(9, 1))
    ensures CursorPrefix(SampleCode, Position(9, 1)) ==
      (Join(SampleLines[..6], Eol) + Eol + "    ") + Marker +
      ((Eol + "      ") + ("VariableDeclaration(path) {" + Eol))
  {
    PrefixAtLineStart(9);
    assert SampleLines[..8] == SampleLines[..6 + 2];
    VariableDeclarationCut();
  }

  lemma VariableDeclarationPrefix()
    ensures ValidPosition(SampleCode, Position(9, 1))
    ensures CursorPrefix(SampleCode, Position(9, 1)) ==
      (Join(SampleLines[..6], Eol) + Eol + "    ") + Marker + ((Eol + "      ") + "VariableDeclaration(path) {\n")
  {
    VariableDeclarationPrefixCut();
    assert "VariableDeclaration(path) {" + Eol == "VariableDeclaration(path) {\n";
  }

  /** A run of lower-case letters and digits does not stop a match. */
  lemma {:induction false} RunEndSkips(s: string, q: nat, r: nat)
    requires q <= r <= |s|
    requires forall i :: q <= i < r ==> IsLowerOrDigit(s[i])
    ensures RunEnd(s, q) == RunEnd(s, r)
    decreases r - q
  {
    if q < r {
      RunEndSkips(s, q + 1, r);
    }
  }

  lemma VariableDeclarationRun()
    ensures RunEnd("VariableDeclaration(path) {\n", 2) == 19
  {
    VariableRun();
    DeclarationGroup();
    DeclarationRun();
    DeclarationStop();
  }

  lemma VariableRun()
    ensures RunEnd("VariableDeclaration(path) {\n", 2) == RunEnd("VariableDeclaration(path) {\n", 8)
  {
    var s := "VariableDeclaration(path) {\n";
    assert s[..8] == "Variable";
    forall i | 2 <= i < 8
      ensures IsLowerOrDigit(s[i])
    {
      assert s[i] == s[..8][i];
    }
    RunEndSkips(s, 2, 8);
  }

  lemma DeclarationGroup()
    ensures RunEnd("VariableDeclaration(path) {\n", 8) == RunEnd("VariableDeclaration(path) {\n", 10)
  {
    var s := "VariableDeclaration(path) {\n";
    assert s[8..10] == "De";
    assert s[8] == s[8..10][0] && s[9] == s[8..10][1];
  }

  lemma DeclarationRun()
    ensures RunEnd("VariableDeclaration(path) {\n", 10) == RunEnd("VariableDeclaration(path) {\n", 19)
  {
    var s := "VariableDeclaration(path) {\n";
    assert s[10..19] == "claration";
    forall i | 10 <= i < 19
      ensures IsLowerOrDigit(s[i])
    {
      assert s[i] == s[10..19][i - 10];
    }
    RunEndSkips(s, 10, 19);
  }

  lemma DeclarationStop()
    ensures RunEnd("VariableDeclaration(path) {\n", 19) == 19
  {
    var s := "VariableDeclaration(path) {\n";
    assert s[19..21] == "(p";
    assert s[19] == s[19..21][0];
  }

  /** No match starts where no upper-case letter is left. */
  lemma {:induction false} ScanWithoutUpper(s: string, i: nat)
    requires i <= |s|
    requires forall k :: i <= k < |s| ==> !IsUpper(s[k])
    ensures ScanFrom(s, i) == []
    decreases |s| - i
  {
    if i < |s| {
      ScanWithoutUpper(s, i + 1);
    }
  }

  lemma VariableDeclarationTail()
    ensures ScanFrom("VariableDeclaration(path) {\n", 19) == []
  {
    var s := "VariableDeclaration(path) {\n";
    assert s[19..] == "(path) {\n";
    forall k | 19 <= k < |s|
      ensures !IsUpper(s[k])
    {
      assert s[k] == s[19..][k - 19];
    }
    ScanWithoutUpper(s, 19);
  }

  /** A text holding exactly one match, at its start. */
  lemma SingleMatch(s: string, e: nat)
    requires StartsGroup(s, 0) && RunEnd(s, 2) == e && ScanFrom(s, e) == []
    ensures ScanFrom(s, 0) == [Span(0, e)]
    ensures LastMatch(s) == s[..e]
  {
  }

  lemma VariableDeclarationStart()
    ensures StartsGroup("VariableDeclaration(path) {\n", 0)
    ensures "VariableDeclaration(path) {\n"[..19] == "VariableDeclaration"
    ensures ':' !in "VariableDeclaration(path) {\n"
  {
    var s := "VariableDeclaration(path) {\n";
    assert s[..2] == "Va";
    assert s[0] == s[..2][0] && s[1] == s[..2][1];
  }

  lemma VariableDeclarationScan()
    ensures ScanFrom("VariableDeclaration(path) {\n", 0) == [Span(0, 19)]
    ensures ':' !in "VariableDeclaration(path) {\n"
    ensures LastMatch("VariableDeclaration(path) {\n") == "VariableDeclaration"
  {
    VariableDeclarationStart();
    VariableDeclarationRun();
    VariableDeclarationTail();
    SingleMatch("VariableDeclaration(path) {\n", 19);
  }

  /** Scenario: the cursor at the start of line 9, in the body of
      `VariableDeclaration(path)`, yields "VariableDeclaration". */
  lemma CursorInVariableDeclarationBody()
    ensures ValidPosition(SampleCode, Position(9, 1))
    ensures NodeAtPosition(SampleCode, Position(9, 1)) == Some("VariableDeclaration")
  {
    VariableDeclarationPrefix();
    HeadHasNoColon();
    VariableDeclarationScan();
    var c := Eol + "      ";
    var d := "VariableDeclaration(path) {\n";
    assert IsBreak(c[|c| - 1]);
    LastMatchAfterBreak(c, d);
    assert ':' !in c + d;
    MarkerOnceWithoutColon(Join(SampleLines[..6], Eol) + Eol + "    ", c + d);
    LocateLastWord(Join(SampleLines[..6], Eol) + Eol + "    ", c + d);
  }

  /** Scenario: a cursor at the start of any of the first seven lines, before
      the `visitor: {` marker, yields no node name. */
  lemma CursorBeforeVisitor(n: nat)
    requires 1 <= n <= 7
    ensures ValidPosition(SampleCode, Position(n, 1))
    ensures NodeAtPosition(SampleCode, Position(n, 1)) == None
  {
    PrefixAtLineStart(n);
    var ls := SampleLines[..n - 1] + [""];
    forall i | 0 <= i < |ls|
      ensures ':' !in ls[i]
    {
      if i < n - 1 {
        HeadLineFree(i);
      }
    }
    CharFreeJoin(ls, Eol, ':');
    NoColonNoMarker(Join(ls, Eol));
    NoMarkerBeforeCursor(SampleCode, Position(n, 1));
  }

  lemma HeadLineFree(i: nat)
    requires i < 6
    ensures ':' !in SampleLines[i]
  {
    if i == 0 {} else if i == 1 {} else if i == 2 {} else if i == 3 {} else if i == 4 {} else {}
  }
}
