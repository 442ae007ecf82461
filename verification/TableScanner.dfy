/** The README table scanner: a loop over line indices that jumps over whole
    tables, proved to report exactly the rows a declarative reading calls malformed. */
module TableScanner {
  import opened Text

  /** A malformed row: its line number from 1, its header's and its own cell
      count, and both lines. */
  datatype Finding = Finding(line: nat, width: nat, got: nat, header: string, row: string)

  predicate IsFence(l: string) { "```" <= LStrip(l) }

  predicate IsRow(l: string) { "|" <= l }

  /** The whole line matches the rule pattern: a bar, then bars, dashes, colons and spaces. */
  predicate IsRule(l: string) {
    |l| >= 2 && l[0] == '|' && forall i :: 1 <= i < |l| ==> l[i] in {'-', ':', ' ', '|'}
  }

  function Cells(l: string): nat { |Split(Trim(Strip(l), '|'), '|')| }

  // ------------------------------------------------------- the declarative reading

  function Fences(lines: seq<string>): nat {
    if lines == [] then 0
    else Fences(lines[..|lines| - 1]) + if IsFence(lines[|lines| - 1]) then 1 else 0
  }

  /** An open fence: an odd number of fence lines. */
  predicate Fenced(lines: seq<string>) { Fences(lines) % 2 == 1 }

  /** Every line from `g` to `j` is a row. */
  ghost predicate Unbroken(lines: seq<string>, g: int, j: int) {
    0 <= g <= j < |lines| && forall i :: g <= i <= j ==> IsRow(lines[i])
  }

  /** Line `h` heads a table: outside a fence, a row above a rule, and the first
      such row of its unbroken stretch. */
  ghost predicate Heads(lines: seq<string>, h: int) {
    && 0 <= h && h + 1 < |lines|
    && IsRow(lines[h]) && IsRule(lines[h + 1])
    && !Fenced(lines[..h])
    && First(lines, h)
  }

  ghost predicate First(lines: seq<string>, h: int) {
    forall g :: 0 <= g < h < |lines| && Unbroken(lines, g, h) ==> !IsRule(lines[g + 1])
  }

  /** Line `j` belongs to the table headed by `h` and has another number of cells. */
  ghost predicate Bad(lines: seq<string>, h: int, j: int) {
    Heads(lines, h) && h + 2 <= j < |lines| && Unbroken(lines, h, j) && Cells(lines[j]) != Cells(lines[h])
  }

  function Entry(lines: seq<string>, h: int, j: int): Finding
    requires 0 <= h < |lines| && 0 <= j < |lines|
  {
    Finding(j + 1, Cells(lines[h]), Cells(lines[j]), lines[h], lines[j])
  }

  ghost predicate Ascending(out: seq<Finding>) {
    forall a, b :: 0 <= a < b < |out| ==> out[a].line < out[b].line
  }

  ghost predicate Reported(lines: seq<string>, e: Finding, limit: int) {
    exists h, j :: Bad(lines, h, j) && j < limit && e == Entry(lines, h, j)
  }

  /** `out` lists exactly the malformed rows before `limit`, in line order. */
  ghost predicate ExactUpTo(lines: seq<string>, out: seq<Finding>, limit: int) {
    && Ascending(out)
    && (forall a :: 0 <= a < |out| ==> Reported(lines, out[a], limit))
    && (forall h, j :: Bad(lines, h, j) && j < limit ==> Entry(lines, h, j) in out)
  }

  ghost predicate Exact(lines: seq<string>, out: seq<Finding>) {
    ExactUpTo(lines, out, |lines|)
  }

  // --------------------------------------------------------------------- the loop

  /** Nothing below `i` has claimed line `i`: where the outer loop stands. */
  ghost predicate Unclaimed(lines: seq<string>, i: int) {
    0 <= i < |lines| && IsRow(lines[i]) && !Fenced(lines[..i]) ==> First(lines, i)
  }

  lemma RowIsNoFence(l: string)
    requires IsRow(l)
    ensures !IsFence(l)
  {
  }

  lemma FencesNext(lines: seq<string>, i: int)
    requires 0 <= i < |lines|
    ensures Fences(lines[..i + 1]) == Fences(lines[..i]) + if IsFence(lines[i]) then 1 else 0
  {
    assert lines[..i + 1][..i] == lines[..i];
  }

  /** An unbroken stretch does not change the fence state. */
  lemma {:induction false} FencesUnbroken(lines: seq<string>, g: int, j: int)
    requires Unbroken(lines, g, j)
    ensures Fences(lines[..j]) == Fences(lines[..g]) == Fences(lines[..j + 1])
    decreases j - g
  {
    if g < j {
      FencesUnbroken(lines, g, j - 1);
    }
    FencesNext(lines, j);
  }

  /** A line nothing has claimed is in nobody's table. */
  lemma UnclaimedIsFine(lines: seq<string>, h: int, i: int)
    requires Unclaimed(lines, i)
    ensures !Bad(lines, h, i)
  {
    if Bad(lines, h, i) {
      FencesUnbroken(lines, h, i);
    }
  }

  lemma UnclaimedNext(lines: seq<string>, i: int)
    requires 0 <= i < |lines| && Unclaimed(lines, i) && !Heads(lines, i)
    ensures Unclaimed(lines, i + 1)
  {
    var n := i + 1;
    if n < |lines| && IsRow(lines[n]) && !Fenced(lines[..n]) {
      FencesNext(lines, i);
      forall g | 0 <= g < n && Unbroken(lines, g, n)
        ensures !IsRule(lines[g + 1])
      {
        assert IsRow(lines[i]);
        RowIsNoFence(lines[i]);
        assert First(lines, i);
        if g < i {
          assert Unbroken(lines, g, i);
        }
      }
    }
  }

  /** The rows of a table belong to it and to nothing else. */
  lemma TableOwnsItsRows(lines: seq<string>, i: int, h: int, j: int)
    requires Heads(lines, i) && i < j && Unbroken(lines, i, j) && Bad(lines, h, j)
    ensures h == i && i + 2 <= j
  {
    if h < i {
      assert Unbroken(lines, h, i);
    } else if h > i {
      assert Unbroken(lines, i, h);
    }
  }

  lemma ReportedLater(lines: seq<string>, e: Finding, limit: int, later: int)
    requires Reported(lines, e, limit) && limit <= later
    ensures Reported(lines, e, later) && e.line <= limit
  {
  }

  lemma AscendingNext(lines: seq<string>, out: seq<Finding>, e: Finding, limit: int)
    requires Ascending(out) && forall a :: 0 <= a < |out| ==> Reported(lines, out[a], limit)
    requires e.line == limit + 1
    ensures Ascending(out + [e])
  {
    forall a | 0 <= a < |out| ensures out[a].line < e.line {
      ReportedLater(lines, out[a], limit, limit);
    }
  }

  lemma ExtendExact(lines: seq<string>, out: seq<Finding>, h: int, j: int)
    requires ExactUpTo(lines, out, j) && 0 <= j < |lines|
    requires forall h' :: Bad(lines, h', j) ==> h' == h
    ensures Bad(lines, h, j) ==> ExactUpTo(lines, out + [Entry(lines, h, j)], j + 1)
    ensures !Bad(lines, h, j) ==> ExactUpTo(lines, out, j + 1)
  {
    forall a | 0 <= a < |out| ensures Reported(lines, out[a], j + 1) {
      ReportedLater(lines, out[a], j, j + 1);
    }
    if Bad(lines, h, j) {
      ExtendByBad(lines, out, h, j);
    } else {
      forall h', j' | Bad(lines, h', j') && j' < j + 1 ensures Entry(lines, h', j') in out {
        assert j' != j;
      }
    }
  }

  lemma ExtendByBad(lines: seq<string>, out: seq<Finding>, h: int, j: int)
    requires ExactUpTo(lines, out, j) && Bad(lines, h, j)
    requires forall h' :: Bad(lines, h', j) ==> h' == h
    ensures ExactUpTo(lines, out + [Entry(lines, h, j)], j + 1)
  {
    var e := Entry(lines, h, j);
    var out' := out + [e];
    AscendingNext(lines, out, e, j);
    forall a | 0 <= a < |out'| ensures Reported(lines, out'[a], j + 1) {
      if a < |out| {
        ReportedLater(lines, out[a], j, j + 1);
      }
    }
    forall h', j' | Bad(lines, h', j') && j' < j + 1 ensures Entry(lines, h', j') in out' {
      if j' < j {
        assert Entry(lines, h', j') in out;
      } else {
        assert e == out'[|out|];
      }
    }
  }

  /** A line that heads no table and belongs to none adds nothing. */
  lemma PlainLine(lines: seq<string>, out: seq<Finding>, i: int)
    requires 0 <= i < |lines| && Unclaimed(lines, i) && ExactUpTo(lines, out, i) && !Heads(lines, i)
    ensures Unclaimed(lines, i + 1) && ExactUpTo(lines, out, i + 1)
  {
    forall h ensures !Bad(lines, h, i) {
      UnclaimedIsFine(lines, h, i);
    }
    ExtendExact(lines, out, i, i);
    UnclaimedNext(lines, i);
  }

  /** A row of the table headed by `i` adds its entry when its width differs. */
  lemma TableRow(lines: seq<string>, out: seq<Finding>, i: int, j: int)
    requires Heads(lines, i) && i + 2 <= j && Unbroken(lines, i, j) && ExactUpTo(lines, out, j)
    ensures ExactUpTo(lines,
      if Cells(lines[j]) != Cells(lines[i]) then out + [Entry(lines, i, j)] else out, j + 1)
  {
    forall h | Bad(lines, h, j) ensures h == i {
      TableOwnsItsRows(lines, i, h, j);
    }
    ExtendExact(lines, out, i, j);
  }

  /** The loop's own test, made after the fence has been toggled, finds exactly the headers. */
  lemma HeadTest(lines: seq<string>, i: int)
    requires 0 <= i < |lines| && Unclaimed(lines, i)
    ensures Fenced(lines[..i + 1]) <==> Fenced(lines[..i]) != IsFence(lines[i])
    ensures Heads(lines, i) <==>
      !Fenced(lines[..i + 1]) && IsRow(lines[i]) && i + 1 < |lines| && IsRule(lines[i + 1])
  {
    FencesNext(lines, i);
    if IsRow(lines[i]) {
      RowIsNoFence(lines[i]);
    }
  }

  lemma AfterTable(lines: seq<string>, i: int, j: int)
    requires Heads(lines, i) && Unbroken(lines, i, j - 1) && (j == |lines| || !IsRow(lines[j]))
    ensures Unclaimed(lines, j) && !Fenced(lines[..j])
  {
    FencesUnbroken(lines, i, j - 1);
  }

  method MalformedTableRows(lines: seq<string>) returns (out: seq<Finding>)
    ensures Exact(lines, out)
  {
    out := [];
    var fence := false;
    var i := 0;
    while i < |lines|
      invariant 0 <= i <= |lines|
      invariant fence == Fenced(lines[..i])
      invariant Unclaimed(lines, i)
      invariant ExactUpTo(lines, out, i)
    {
      HeadTest(lines, i);
      if IsFence(lines[i]) {
        fence := !fence;
      }
      if !fence && IsRow(lines[i]) && i + 1 < |lines| && IsRule(lines[i + 1]) {
        var width := Cells(lines[i]);
        var j := i + 2;
        UnclaimedSkips(lines, out, i);
        while j < |lines| && IsRow(lines[j])
          invariant i + 2 <= j <= |lines|
          invariant Unbroken(lines, i, j - 1)
          invariant ExactUpTo(lines, out, j)
          decreases |lines| - j
        {
          TableRow(lines, out, i, j);
          if Cells(lines[j]) != width {
            out := out + [Finding(j + 1, width, Cells(lines[j]), lines[i], lines[j])];
          }
          j := j + 1;
        }
        AfterTable(lines, i, j);
        i := j;
      } else {
        PlainLine(lines, out, i);
        i := i + 1;
      }
    }
  }

  /** Neither the header nor the rule below it is a row of another table. */
  lemma UnclaimedSkips(lines: seq<string>, out: seq<Finding>, i: int)
    requires Heads(lines, i) && ExactUpTo(lines, out, i)
    ensures ExactUpTo(lines, out, i + 2)
  {
    forall h, j | Bad(lines, h, j) && i <= j < i + 2
      ensures false
    {
      if j == i {
        UnclaimedIsFine(lines, h, i);
      } else {
        assert Unbroken(lines, i, j);
        TableOwnsItsRows(lines, i, h, j);
      }
    }
    forall a | 0 <= a < |out| ensures Reported(lines, out[a], i + 2) {
      assert Reported(lines, out[a], i);
    }
  }

  // ------------------------------------------------------------ what the report means

  /** No two lists are exact for the same lines. */
  lemma ExactIsUnique(lines: seq<string>, a: seq<Finding>, b: seq<Finding>)
    requires Exact(lines, a) && Exact(lines, b)
    ensures a == b
  {
    forall e | e in a ensures e in b {
      assert Reported(lines, e, |lines|);
    }
    forall e | e in b ensures e in a {
      assert Reported(lines, e, |lines|);
    }
    AscendingUnique(a, b);
  }

  lemma {:induction false} AscendingUnique(a: seq<Finding>, b: seq<Finding>)
    requires Ascending(a) && Ascending(b)
    requires (forall e :: e in a ==> e in b) && (forall e :: e in b ==> e in a)
    ensures a == b
  {
    assert b != [] ==> b[0] in b;
    assert a != [] ==> a[0] in a;
    if a != [] && b != [] {
      var m, n := |a| - 1, |b| - 1;
      assert a[m] in b && b[n] in a;
      assert a[m].line == b[n].line;
      assert a[m] == b[n];
      forall e | e in a[..m] ensures e in b[..n] {
        assert e in b;
      }
      forall e | e in b[..n] ensures e in a[..m] {
        assert e in a;
      }
      AscendingUnique(a[..m], b[..n]);
      assert a == a[..m] + [a[m]] && b == b[..n] + [b[n]];
    }
  }

  /** No malformed row at all. */
  ghost predicate Clean(lines: seq<string>) {
    forall h, j :: !Bad(lines, h, j)
  }

  lemma EmptyReport(lines: seq<string>, out: seq<Finding>)
    requires Exact(lines, out)
    ensures out == [] <==> Clean(lines)
  {
    if out != [] {
      assert Reported(lines, out[0], |lines|);
    }
  }

  // ------------------------------------------------------------------- composition

  /** The two texts do not run one table into the other. */
  predicate Seam(a: seq<string>, b: seq<string>) {
    a == [] || b == [] || !IsRow(a[|a| - 1]) || !IsRow(b[0])
  }

  lemma {:induction false} FencesConcat(a: seq<string>, b: seq<string>)
    ensures Fences(a + b) == Fences(a) + Fences(b)
  {
    if b == [] {
      assert a + b == a;
    } else {
      assert (a + b)[..|a + b| - 1] == a + b[..|b| - 1];
      FencesConcat(a, b[..|b| - 1]);
    }
  }

  lemma UnbrokenConcat(a: seq<string>, b: seq<string>, g: int, j: int)
    requires Seam(a, b)
    ensures Unbroken(a + b, g, j)
      <==> Unbroken(a, g, j) || (g >= |a| && Unbroken(b, g - |a|, j - |a|))
  {
    if Unbroken(a + b, g, j) {
      assert (a + b)[..|a|] == a && (a + b)[|a|..] == b;
      assert !(g < |a| <= j) by {
        assert a != [] && b != [] ==> (a + b)[|a| - 1] == a[|a| - 1] && (a + b)[|a|] == b[0];
      }
      if j < |a| {
        forall i | g <= i <= j ensures IsRow(a[i]) { assert (a + b)[i] == a[i]; }
      } else {
        forall i | g - |a| <= i <= j - |a| ensures IsRow(b[i]) { assert (a + b)[i + |a|] == b[i]; }
      }
    }
  }

  lemma HeadsConcat(a: seq<string>, b: seq<string>, h: int)
    requires Seam(a, b) && !Fenced(a)
    ensures Heads(a + b, h) <==> Heads(a, h) || (h >= |a| && Heads(b, h - |a|))
  {
    var s := a + b;
    if 0 <= h < |s| {
      if h < |a| {
        assert s[..h] == a[..h];
        if h + 1 < |a| {
          FirstLeft(a, b, h);
        } else if b != [] {
          assert s[h + 1] == b[0];
        }
      } else {
        assert s[..h] == a + b[..h - |a|];
        FencesConcat(a, b[..h - |a|]);
        FirstRight(a, b, h);
      }
    }
  }

  lemma FirstLeft(a: seq<string>, b: seq<string>, h: int)
    requires Seam(a, b) && 0 <= h && h + 1 < |a|
    ensures First(a + b, h) <==> First(a, h)
  {
    forall g | 0 <= g < h ensures Unbroken(a + b, g, h) <==> Unbroken(a, g, h) {
      UnbrokenConcat(a, b, g, h);
    }
  }

  lemma FirstRight(a: seq<string>, b: seq<string>, h: int)
    requires Seam(a, b) && |a| <= h < |a| + |b|
    ensures First(a + b, h) <==> First(b, h - |a|)
  {
    forall g | 0 <= g < h
      ensures Unbroken(a + b, g, h) <==> (g >= |a| && Unbroken(b, g - |a|, h - |a|))
    {
      UnbrokenConcat(a, b, g, h);
    }
    if First(a + b, h) {
      var m := h - |a|;
      forall g | 0 <= g < m && Unbroken(b, g, m)
        ensures !IsRule(b[g + 1])
      {
        assert Unbroken(a + b, g + |a|, h);
      }
    }
  }

  lemma BadConcat(a: seq<string>, b: seq<string>, h: int, j: int)
    requires Seam(a, b) && !Fenced(a)
    ensures Bad(a + b, h, j) <==> Bad(a, h, j) || (h >= |a| && Bad(b, h - |a|, j - |a|))
  {
    HeadsConcat(a, b, h);
    UnbrokenConcat(a, b, h, j);
  }

  function Shift(out: seq<Finding>, n: nat): (r: seq<Finding>)
    ensures |r| == |out|
    ensures forall i :: 0 <= i < |out| ==> r[i] == out[i].(line := out[i].line + n)
  {
    seq(|out|, i requires 0 <= i < |out| => out[i].(line := out[i].line + n))
  }

  /** Scanning is compositional: the report of a text followed by another is the
      first report followed by the second one's, moved down. */
  lemma ScanConcat(a: seq<string>, b: seq<string>, outA: seq<Finding>, outB: seq<Finding>)
    requires Seam(a, b) && !Fenced(a) && Exact(a, outA) && Exact(b, outB)
    ensures Exact(a + b, outA + Shift(outB, |a|))
  {
    var s, out := a + b, outA + Shift(outB, |a|);
    forall x | 0 <= x < |out| ensures Reported(s, out[x], |s|) {
      if x < |outA| {
        LeftReported(a, b, outA[x]);
      } else {
        assert Reported(b, outB[x - |outA|], |b|);
        RightReported(a, b, outB[x - |outA|]);
      }
    }
    forall h, j | Bad(s, h, j) ensures Entry(s, h, j) in out {
      BadConcat(a, b, h, j);
      if Bad(a, h, j) {
        assert Entry(s, h, j) == Entry(a, h, j);
      } else {
        var e := Entry(b, h - |a|, j - |a|);
        assert e in outB;
        var x :| 0 <= x < |outB| && outB[x] == e;
        assert Entry(s, h, j) == out[|outA| + x];
      }
    }
    forall x | 0 <= x < |outB| ensures outB[x].line >= 1 {
      assert Reported(b, outB[x], |b|);
    }
    AscendingConcat(a, outA, outB);
  }

  lemma LeftReported(a: seq<string>, b: seq<string>, e: Finding)
    requires Seam(a, b) && !Fenced(a) && Reported(a, e, |a|)
    ensures Reported(a + b, e, |a + b|)
  {
    var h, j :| Bad(a, h, j) && j < |a| && e == Entry(a, h, j);
    BadConcat(a, b, h, j);
    assert Entry(a + b, h, j) == e;
  }

  lemma EntryMoves(a: seq<string>, b: seq<string>, h: int, j: int)
    requires 0 <= h < |b| && 0 <= j < |b|
    ensures Entry(a + b, h + |a|, j + |a|) == Entry(b, h, j).(line := Entry(b, h, j).line + |a|)
  {
  }

  lemma RightReported(a: seq<string>, b: seq<string>, e: Finding)
    requires Seam(a, b) && !Fenced(a) && Reported(b, e, |b|)
    ensures Reported(a + b, e.(line := e.line + |a|), |a + b|)
  {
    var h, j :| Bad(b, h, j) && j < |b| && e == Entry(b, h, j);
    BadConcat(a, b, h + |a|, j + |a|);
    EntryMoves(a, b, h, j);
  }

  lemma AscendingConcat(a: seq<string>, outA: seq<Finding>, outB: seq<Finding>)
    requires ExactUpTo(a, outA, |a|) && Ascending(outB)
    requires forall x :: 0 <= x < |outB| ==> outB[x].line >= 1
    ensures Ascending(outA + Shift(outB, |a|))
  {
    forall x | 0 <= x < |outA| ensures outA[x].line <= |a| {
      assert Reported(a, outA[x], |a|);
    }
  }

  /** In particular across a blank line. */
  lemma ScanAcrossBlank(a: seq<string>, b: seq<string>, outA: seq<Finding>, outB: seq<Finding>, out: seq<Finding>)
    requires !Fenced(a) && Exact(a, outA) && Exact(b, outB) && Exact(a + [""] + b, out)
    ensures out == outA + Shift(outB, |a| + 1)
  {
    assert Exact([""], []);
    ScanConcat(a, [""], outA, []);
    assert outA + Shift([], |a|) == outA;
    FencesConcat(a, [""]);
    assert Fences([""]) == 0 by { assert [""][..0] == []; }
    ScanConcat(a + [""], b, outA, outB);
    ExactIsUnique(a + [""] + b, out, outA + Shift(outB, |a| + 1));
  }
}
