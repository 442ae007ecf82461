/** What the scanner's readings of a line come to: how many cells a row of any width
    has, which lines are rules and which are fences. */
module TableShapes {
  import opened Text
  import opened TableScanner

  // ------------------------------------------------------------------ rows of cells

  predicate Blank(s: string) { forall i :: 0 <= i < |s| ==> IsSpace(s[i]) }

  /** One or more cells without bars, the outer two not empty. */
  ghost predicate AreCells(cells: seq<string>) {
    && cells != [] && cells[0] != "" && cells[|cells| - 1] != ""
    && forall i :: 0 <= i < |cells| ==> '|' !in cells[i]
  }

  /** A closed row: bars around the cells and between them, then blanks. */
  function ClosedRow(cells: seq<string>, blanks: string): string {
    "|" + (Join(cells, "|") + ("|" + blanks))
  }

  /** The same without the closing bar. */
  function OpenRow(cells: seq<string>, blanks: string): string {
    "|" + (Join(cells, "|") + blanks)
  }

  lemma {:induction false} JoinBars(cells: seq<string>)
    requires cells != [] && forall i :: 0 <= i < |cells| ==> '|' !in cells[i]
    ensures Occurrences(Join(cells, "|"), '|') == |cells| - 1
  {
    OccurrencesNone(cells[0], '|');
    if |cells| > 1 {
      var rest := Join(cells[1..], "|");
      JoinBars(cells[1..]);
      OccurrencesConcat(cells[0] + "|", rest, '|');
      OccurrencesConcat(cells[0], "|", '|');
    }
  }

  lemma {:induction false} JoinEnds(cells: seq<string>)
    requires AreCells(cells)
    ensures var s := Join(cells, "|"); s != "" && s[0] != '|' && s[|s| - 1] != '|'
    ensures var s, last := Join(cells, "|"), cells[|cells| - 1]; EndsWith(s, last)
  {
    if |cells| > 1 {
      var rest := cells[1..];
      JoinLast(rest);
      var s, tail := Join(cells, "|"), Join(rest, "|");
      assert s == (cells[0] + "|") + tail;
      assert s[|s| - |cells[|cells| - 1]|..] == tail[|tail| - |cells[|cells| - 1]|..];
      assert s[|s| - 1] == cells[|cells| - 1][|cells[|cells| - 1]| - 1];
    }
  }

  lemma {:induction false} JoinLast(cells: seq<string>)
    requires cells != []
    ensures EndsWith(Join(cells, "|"), cells[|cells| - 1])
  {
    if |cells| > 1 {
      var tail, last := Join(cells[1..], "|"), cells[|cells| - 1];
      JoinLast(cells[1..]);
      var s := (cells[0] + "|") + tail;
      assert s == Join(cells, "|");
      assert s[|s| - |last|..] == tail[|tail| - |last|..];
    }
  }

  lemma {:induction false} RStripBlanks(s: string, blanks: string)
    requires Blank(blanks)
    ensures RStrip(s + blanks) == RStrip(s)
    decreases |blanks|
  {
    if blanks == "" {
      assert s + blanks == s;
    } else {
      var m := |blanks| - 1;
      assert (s + blanks)[..|s + blanks| - 1] == s + blanks[..m];
      RStripBlanks(s, blanks[..m]);
    }
  }

  /** Stripping a text that ends in something else than blanks only shortens its end. */
  lemma {:induction false} RStripConcat(a: string, b: string)
    requires !Blank(b)
    ensures RStrip(a + b) == a + RStrip(b) && RStrip(b) != ""
    decreases |b|
  {
    var m := |b| - 1;
    if IsSpace(b[m]) {
      assert (a + b)[..|a + b| - 1] == a + b[..m];
      RStripConcat(a, b[..m]);
    }
  }

  /** Bars and blanks around a text that neither begins nor ends with a bar are taken off. */
  lemma BareInside(inner: string)
    requires inner != "" && inner[0] != '|' && inner[|inner| - 1] != '|'
    ensures Trim("|" + inner, '|') == inner && Trim("|" + (inner + "|"), '|') == inner
  {
    assert ("|" + inner)[1..] == inner;
    assert ("|" + (inner + "|"))[1..] == inner + "|";
    assert (inner + "|")[..|inner|] == inner;
    assert LTrim(inner, '|') == inner && LTrim(inner + "|", '|') == inner + "|";
  }

  lemma ClosedIsBare(inner: string, blanks: string)
    requires inner != "" && inner[0] != '|' && inner[|inner| - 1] != '|' && Blank(blanks)
    ensures Trim(Strip("|" + (inner + ("|" + blanks))), '|') == inner
  {
    var bare := "|" + (inner + "|");
    assert "|" + (inner + ("|" + blanks)) == bare + blanks;
    RStripBlanks(bare, blanks);
    assert bare[|bare| - 1] == '|' && RStrip(bare) == bare;
    assert LStrip(bare + blanks) == bare + blanks;
    BareInside(inner);
  }

  /** A closed row of n cells has n cells. */
  lemma ClosedRowHasItsCells(cells: seq<string>, blanks: string)
    requires AreCells(cells) && Blank(blanks)
    ensures IsRow(ClosedRow(cells, blanks)) && Cells(ClosedRow(cells, blanks)) == |cells|
  {
    JoinEnds(cells);
    JoinBars(cells);
    ClosedIsBare(Join(cells, "|"), blanks);
  }

  /** So has an open one, whose last cell is more than blanks. */
  lemma OpenRowHasItsCells(cells: seq<string>, blanks: string)
    requires AreCells(cells) && !Blank(cells[|cells| - 1]) && Blank(blanks)
    ensures IsRow(OpenRow(cells, blanks)) && Cells(OpenRow(cells, blanks)) == |cells|
  {
    var m := |cells| - 1;
    var shorter := cells[..m] + [RStrip(cells[m])];
    var inner := Join(cells, "|");
    assert OpenRow(cells, blanks) == ("|" + inner) + blanks;
    RStripBlanks("|" + inner, blanks);
    StrippedJoin(cells);
    JoinIsNotBlank(cells);
    RStripConcat("|", inner);
    assert LStrip(OpenRow(cells, blanks)) == OpenRow(cells, blanks);
    StrippedCells(cells);
    JoinEnds(shorter);
    JoinBars(shorter);
    BareInside(Join(shorter, "|"));
  }

  lemma JoinIsNotBlank(cells: seq<string>)
    requires cells != [] && !Blank(cells[|cells| - 1])
    ensures !Blank(Join(cells, "|"))
  {
    var s, last := Join(cells, "|"), cells[|cells| - 1];
    JoinLast(cells);
    var i :| 0 <= i < |last| && !IsSpace(last[i]);
    assert s[|s| - |last|..][i] == last[i];
  }

  lemma {:induction false} StrippedJoin(cells: seq<string>)
    requires cells != [] && !Blank(cells[|cells| - 1])
    ensures RStrip(Join(cells, "|")) == Join(cells[..|cells| - 1] + [RStrip(cells[|cells| - 1])], "|")
  {
    var m := |cells| - 1;
    var shorter := cells[..m] + [RStrip(cells[m])];
    if m > 0 {
      var rest := cells[1..];
      StrippedJoin(rest);
      JoinIsNotBlank(rest);
      RStripConcat(cells[0] + "|", Join(rest, "|"));
      assert rest[..m - 1] + [RStrip(rest[m - 1])] == shorter[1..];
    }
  }

  lemma {:induction false} RStripIsPrefix(s: string)
    ensures RStrip(s) <= s
  {
    if s != "" && IsSpace(s[|s| - 1]) {
      RStripIsPrefix(s[..|s| - 1]);
    }
  }

  lemma StrippedCells(cells: seq<string>)
    requires AreCells(cells) && !Blank(cells[|cells| - 1])
    ensures AreCells(cells[..|cells| - 1] + [RStrip(cells[|cells| - 1])])
  {
    var m := |cells| - 1;
    RStripIsPrefix(cells[m]);
    RStripConcat("", cells[m]);
    assert "" + cells[m] == cells[m];
  }

  // ------------------------------------------------------------------ rules and fences

  predicate IsRuleCell(s: string) { forall i :: 0 <= i < |s| ==> s[i] in {'-', ':', ' '} }

  predicate AllRuleCells(cells: seq<string>) { forall k :: 0 <= k < |cells| ==> IsRuleCell(cells[k]) }

  predicate IsRuleText(s: string) { forall i :: 0 <= i < |s| ==> s[i] in {'-', ':', ' ', '|'} }

  lemma RuleCellCons(c: char, s: string)
    ensures IsRuleCell([c] + s) <==> c in {'-', ':', ' '} && IsRuleCell(s)
    ensures IsRuleText([c] + s) <==> c in {'-', ':', ' ', '|'} && IsRuleText(s)
  {
    assert ([c] + s)[0] == c && forall i :: 0 <= i < |s| ==> ([c] + s)[i + 1] == s[i];
  }

  lemma RuleCellsCons(cell: string, cells: seq<string>)
    ensures AllRuleCells([cell] + cells) <==> IsRuleCell(cell) && AllRuleCells(cells)
  {
    assert ([cell] + cells)[0] == cell && forall k :: 0 <= k < |cells| ==> ([cell] + cells)[k + 1] == cells[k];
  }

  lemma {:induction false} PiecesOf(s: string)
    ensures IsRuleText(s) <==> AllRuleCells(Split(s, '|'))
  {
    if s != "" {
      var rest := Split(s[1..], '|');
      PiecesOf(s[1..]);
      assert s == [s[0]] + s[1..] && rest == [rest[0]] + rest[1..];
      RuleCellCons(s[0], s[1..]);
      if s[0] == '|' {
        RuleCellsCons("", rest);
      } else {
        RuleCellCons(s[0], rest[0]);
        RuleCellsCons(rest[0], rest[1..]);
        RuleCellsCons([s[0]] + rest[0], rest[1..]);
      }
    }
  }

  /** A rule is a bar followed by something, all of whose cells are dashes, colons and blanks. */
  lemma RuleIff(l: string)
    ensures IsRule(l) <==> (|l| >= 2 && l[0] == '|' && AllRuleCells(Split(l[1..], '|')))
  {
    if |l| >= 2 {
      PiecesOf(l[1..]);
      assert forall i :: 1 <= i < |l| ==> l[1..][i - 1] == l[i];
    }
  }

  predicate TicksAt(l: string, i: int) {
    0 <= i <= |l| - 3 && Blank(l[..i]) && l[i] == l[i + 1] == l[i + 2] == '`'
  }

  lemma BlankUpTo(l: string, i: int, k: int)
    requires TicksAt(l, i) && 0 <= k < i
    ensures IsSpace(l[k])
  {
    assert l[..i][k] == l[k];
  }

  /** A fence is blanks and then three backticks. */
  lemma FenceIff(l: string)
    ensures IsFence(l) <==> exists i :: TicksAt(l, i)
  {
    var n := LStripIs(l);
    var ticks, rest := "```", l[n..];
    if IsFence(l) {
      assert rest[..3] == ticks && rest[0] == ticks[0] && rest[1] == ticks[1] && rest[2] == ticks[2];
      assert TicksAt(l, n);
    }
    if i :| TicksAt(l, i) {
      if n < i {
        BlankUpTo(l, i, n);
      }
      assert i == n;
      assert rest[..3] == ticks;
    }
  }

  /** Nothing between two fences is reported, whatever tables stand there. */
  lemma FencedIsClean(open: string, inside: seq<string>, close: string)
    requires IsFence(open) && IsFence(close) && forall i :: 0 <= i < |inside| ==> !IsFence(inside[i])
    ensures Clean([open] + inside + [close])
  {
    var s := [open] + inside + [close];
    forall h, j ensures !Bad(s, h, j) {
      if 0 < h <= |inside| {
        OneFence(open, inside[..h - 1]);
        assert s[..h] == [open] + inside[..h - 1];
      }
    }
  }

  lemma {:induction false} OneFence(open: string, inside: seq<string>)
    requires IsFence(open) && forall i :: 0 <= i < |inside| ==> !IsFence(inside[i])
    ensures Fences([open] + inside) == 1
  {
    var s := [open] + inside;
    if inside == [] {
      assert s[..0] == [];
    } else {
      assert s[..|s| - 1] == [open] + inside[..|inside| - 1];
      OneFence(open, inside[..|inside| - 1]);
    }
  }

  // ------------------------------------------------------------------ whole tables

  function RowsOf(rows: seq<seq<string>>): (lines: seq<string>)
    ensures |lines| == |rows| && forall k :: 0 <= k < |rows| ==> lines[k] == ClosedRow(rows[k], "")
  {
    seq(|rows|, k requires 0 <= k < |rows| => ClosedRow(rows[k], ""))
  }

  /** Row `k` of a table, as it is reported: its line, the header's width, its own
      width, and both lines. */
  function Misfit(header: seq<string>, rows: seq<seq<string>>, k: nat): Finding
    requires k < |rows|
  {
    Finding(k + 3, |header|, |rows[k]|, ClosedRow(header, ""), ClosedRow(rows[k], ""))
  }

  lemma WidthsDecide(lines: seq<string>, header: seq<string>, rows: seq<seq<string>>, rule: string, h: int, j: int)
    requires AreCells(header) && IsRule(rule) && forall k :: 0 <= k < |rows| ==> AreCells(rows[k])
    requires lines == [ClosedRow(header, ""), rule] + RowsOf(rows)
    ensures Bad(lines, h, j) <==> h == 0 && 2 <= j < |lines| && |rows[j - 2]| != |header|
    ensures h == 0 && 2 <= j < |lines| ==> Entry(lines, h, j) == Misfit(header, rows, j - 2)
  {
    ClosedRowHasItsCells(header, "");
    assert lines[..0] == [];
    forall i | 0 <= i < |lines| ensures IsRow(lines[i]) && (i >= 2 ==> Cells(lines[i]) == |rows[i - 2]|) {
      if i >= 2 {
        ClosedRowHasItsCells(rows[i - 2], "");
      }
    }
    if 0 < h < |lines| {
      assert Unbroken(lines, 0, h);
    }
  }

  /** A table of a header of m cells, a rule, and rows of any numbers of cells: exactly
      the rows of another number than m are reported, with both numbers. */
  lemma TableReport(header: seq<string>, rule: string, rows: seq<seq<string>>, out: seq<Finding>)
    requires AreCells(header) && IsRule(rule) && forall k :: 0 <= k < |rows| ==> AreCells(rows[k])
    requires Exact([ClosedRow(header, ""), rule] + RowsOf(rows), out)
    ensures forall f :: f in out <==> exists k :: 0 <= k < |rows| && |rows[k]| != |header| && f == Misfit(header, rows, k)
  {
    var lines := [ClosedRow(header, ""), rule] + RowsOf(rows);
    forall h, j ensures
      && (Bad(lines, h, j) <==> h == 0 && 2 <= j < |lines| && |rows[j - 2]| != |header|)
      && (h == 0 && 2 <= j < |lines| ==> Entry(lines, h, j) == Misfit(header, rows, j - 2))
    {
      WidthsDecide(lines, header, rows, rule, h, j);
    }
    forall f | f in out
      ensures exists k :: 0 <= k < |rows| && |rows[k]| != |header| && f == Misfit(header, rows, k)
    {
      assert Reported(lines, f, |lines|);
      var h, j :| Bad(lines, h, j) && j < |lines| && f == Entry(lines, h, j);
      assert f == Misfit(header, rows, j - 2);
    }
    forall k | 0 <= k < |rows| && |rows[k]| != |header| ensures Misfit(header, rows, k) in out {
      assert Bad(lines, 0, k + 2);
      assert Entry(lines, 0, k + 2) == Misfit(header, rows, k);
    }
  }

  /** With a single row of n cells: it is reported, alone, if and only if m != n. */
  lemma OneRowIff(header: seq<string>, rule: string, row: seq<string>, out: seq<Finding>)
    requires AreCells(header) && IsRule(rule) && AreCells(row)
    requires Exact([ClosedRow(header, ""), rule, ClosedRow(row, "")], out)
    ensures out == if |header| == |row| then []
      else [Finding(3, |header|, |row|, ClosedRow(header, ""), ClosedRow(row, ""))]
  {
    var lines := [ClosedRow(header, ""), rule] + RowsOf([row]);
    assert lines == [ClosedRow(header, ""), rule, ClosedRow(row, "")];
    forall h, j ensures
      && (Bad(lines, h, j) <==> h == 0 && j == 2 && |row| != |header|)
      && (h == 0 && j == 2 ==> Entry(lines, h, j) == Misfit(header, [row], 0))
    {
      WidthsDecide(lines, header, [row], rule, h, j);
    }
    var expected := if |header| == |row| then [] else [Misfit(header, [row], 0)];
    assert |header| != |row| ==> Entry(lines, 0, 2) == expected[0];
    assert Exact(lines, expected);
    ExactIsUnique(lines, out, expected);
  }
}
