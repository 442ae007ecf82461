/** What the missing-line test takes for a generated line: it asks whether the line
    occurs in the README, not whether it is one of its lines. */
module InventoryHidden {
  import opened Text
  import opened TableScanner
  import opened Inventory
  import opened InventoryTheorems

  ghost predicate AllFourBars(lines: seq<string>) {
    forall i :: 0 <= i < |lines| ==> FourBars(lines[i])
  }

  ghost predicate AllIn(lines: seq<string>, readme: seq<string>) {
    forall i :: 0 <= i < |lines| ==> lines[i] in readme
  }

  /** Every stretch of a README line that looks like a generated line, from a bar to
      the third bar after it, is itself a line of the README. */
  ghost predicate HidesNoRow(readme: seq<string>) {
    forall i, a, b | 0 <= i < |readme| && 0 <= a <= b <= |readme[i]| ::
      FourBars(readme[i][a..b]) ==> readme[i][a..b] in readme
  }

  /** The test means what it is for, that every generated line is a line of the
      README, exactly for a README that hides no row. */
  lemma MissingIsExactIff(readme: seq<string>)
    ensures HidesNoRow(readme) <==>
      forall rows: seq<string> :: AllFourBars(rows) && Missing(readme, rows) == [] ==> AllIn(rows, readme)
  {
    if HidesNoRow(readme) {
      forall rows: seq<string> | AllFourBars(rows) && Missing(readme, rows) == []
        ensures AllIn(rows, readme)
      {
        NothingHidden(readme, rows);
      }
    } else {
      var i, a, b :| 0 <= i < |readme| && 0 <= a <= b <= |readme[i]|
        && FourBars(readme[i][a..b]) && readme[i][a..b] !in readme;
      var rows := [readme[i][a..b]];
      assert OccursAt(readme[i], rows[0], a);
      MissingIff(readme, rows);
      assert AllFourBars(rows) && !AllIn(rows, readme);
    }
  }

  lemma NothingHidden(readme: seq<string>, rows: seq<string>)
    requires HidesNoRow(readme) && AllFourBars(rows) && Missing(readme, rows) == []
    ensures AllIn(rows, readme)
  {
    MissingIff(readme, rows);
    forall k | 0 <= k < |rows| ensures rows[k] in readme {
      assert rows[k] in rows && Somewhere(readme, rows[k]);
      var i :| 0 <= i < |readme| && Contains(readme[i], rows[k]);
      var a :| 0 <= a <= |readme[i]| && OccursAt(readme[i], rows[k], a);
      assert readme[i][a..a + |rows[k]|] == rows[k];
    }
  }

  /** A README whose lines with four bars or more have the shape of a generated line
      hides no row. */
  lemma ShapedReadmeHidesNothing(readme: seq<string>)
    requires forall i :: 0 <= i < |readme| && Occurrences(readme[i], '|') >= 4 ==> FourBars(readme[i])
    ensures HidesNoRow(readme)
  {
    forall i, a, b | 0 <= i < |readme| && 0 <= a <= b <= |readme[i]| && FourBars(readme[i][a..b])
      ensures readme[i][a..b] in readme
    {
      WholeLine(readme[i], a, b);
    }
  }

  lemma WholeLine(l: string, a: nat, b: nat)
    requires a <= b <= |l| && FourBars(l[a..b]) && (Occurrences(l, '|') >= 4 ==> FourBars(l))
    ensures l[a..b] == l
  {
    var before, after := l[..a], l[b..];
    assert l == before + l[a..b] + after;
    assert Occurrences(l, '|') >= 4 by {
      OccurrencesConcat(before, l[a..b], '|');
      OccurrencesConcat(before + l[a..b], after, '|');
    }
    EndBarCounts(before);
    EndBarCounts(after);
    OccurrencesConcat(before, l[a..b], '|');
    OccurrencesConcat(before + l[a..b], after, '|');
  }

  lemma EndBarCounts(s: string)
    ensures s != "" && (s[0] == '|' || s[|s| - 1] == '|') ==> Occurrences(s, '|') >= 1
  {
    OccurrencesNone(s, '|');
  }

  /** The lines of a generated table have that shape, its rule included. */
  lemma TableLinesFourBars(t: Table)
    requires Titled(t.header) && GenericRows(t.rows)
    ensures AllFourBars(t.Lines())
  {
    RuleHasFourBars();
    FourBarsUnder(t.header, RULE, t.rows);
  }

  lemma FourBarsUnder(header: string, rule: string, rows: seq<string>)
    requires FourBars(header) && FourBars(rule) && GenericRows(rows)
    ensures AllFourBars([header, rule] + rows)
  {
    forall i | 0 <= i < |rows| ensures FourBars(rows[i]) {
      assert Generic(rows[i]);
    }
  }

  lemma RuleHasFourBars()
    ensures FourBars(RULE)
  {
    BarredHasFourBars("---", "---:", "---");
    assert RULE == "|" + "---" + "|" + "---:" + "|" + "---" + "|";
  }

  lemma BarredHasFourBars(a: string, b: string, c: string)
    requires '|' !in a && '|' !in b && '|' !in c
    ensures FourBars("|" + a + "|" + b + "|" + c + "|")
  {
    OccurrencesNone(a, '|');
    OccurrencesNone(b, '|');
    OccurrencesNone(c, '|');
    OccurrencesConcat("|", a, '|');
    OccurrencesConcat("|" + a, "|", '|');
    OccurrencesConcat("|" + a + "|", b, '|');
    OccurrencesConcat("|" + a + "|" + b, "|", '|');
    OccurrencesConcat("|" + a + "|" + b + "|", c, '|');
    OccurrencesConcat("|" + a + "|" + b + "|" + c, "|", '|');
  }

  /** So in a README that hides no row, nothing of a table is missing exactly when
      each of its lines is a line of the README. */
  lemma TableIsThereIff(readme: seq<string>, t: Table)
    requires HidesNoRow(readme) && Titled(t.header) && GenericRows(t.rows)
    ensures Missing(readme, t.Lines()) == [] <==> AllIn(t.Lines(), readme)
  {
    TableLinesFourBars(t);
    if Missing(readme, t.Lines()) == [] {
      NothingHidden(readme, t.Lines());
    }
    if AllIn(t.Lines(), readme) {
      forall l | l in t.Lines() && IsRow(l) ensures Somewhere(readme, l) {
        PresentIsSomewhere(readme, l);
      }
      MissingIff(readme, t.Lines());
    }
  }

  // ------------------------------------------------------------- both tables hidden

  /** The lines as a block quote. */
  function Quoted(lines: seq<string>): (r: seq<string>)
    ensures |r| == |lines| && forall i :: 0 <= i < |r| ==> r[i] == "> " + lines[i]
  {
    seq(|lines|, i requires 0 <= i < |lines| => "> " + lines[i])
  }

  /** A README without a single table row passes as soon as nothing is missing. */
  lemma RowlessPassesIff(readme: seq<string>, up: Table, suite: Table)
    requires forall i :: 0 <= i < |readme| ==> !IsRow(readme[i])
    ensures Passes(readme, up, suite) <==> Missing(readme, up.Lines() + [""] + suite.Lines()) == []
  {
    forall i ensures !MatchAt(readme, up.header, i) && !MatchAt(readme, suite.header, i) {
      if 0 <= i && i + 2 < |readme| {
        assert !IsRow(readme[i + 1]);
      }
    }
    PresentNowhere(readme, up.header);
    PresentNowhere(readme, suite.header);
    forall i | 0 <= i < |readme| ensures NoTotal(readme[i]) {
      assert !IsRow(readme[i]);
    }
    TotalsIff(readme);
  }

  /** Two tables quoted as a block pass the whole check, though no line of either
      is a line of the README. */
  lemma QuotedTablesPass(up: Table, suite: Table)
    requires Tables(up, suite)
    ensures var readme := Quoted(up.Lines()) + [""] + Quoted(suite.Lines());
      && Passes(readme, up, suite)
      && forall l :: l in up.Lines() || l in suite.Lines() ==> l !in readme
  {
    var readme := Quoted(up.Lines()) + [""] + Quoted(suite.Lines());
    TableLinesFourBars(up);
    TableLinesFourBars(suite);
    forall i | 0 <= i < |readme| ensures !IsRow(readme[i]) {
    }
    forall l | l in up.Lines() + [""] + suite.Lines() && IsRow(l) ensures Somewhere(readme, l) {
      QuotedSomewhere(up.Lines(), suite.Lines(), l);
    }
    MissingIff(readme, up.Lines() + [""] + suite.Lines());
    RowlessPassesIff(readme, up, suite);
  }

  lemma QuotedSomewhere(a: seq<string>, b: seq<string>, l: string)
    requires l in a || l in b
    ensures Somewhere(Quoted(a) + [""] + Quoted(b), l)
  {
    var readme := Quoted(a) + [""] + Quoted(b);
    assert ("> " + l)[2..2 + |l|] == l;
    assert OccursAt("> " + l, l, 2);
    if l in a {
      var i :| 0 <= i < |a| && a[i] == l;
      assert readme[i] == "> " + l;
    } else {
      var i :| 0 <= i < |b| && b[i] == l;
      assert readme[|a| + 1 + i] == "> " + l;
    }
  }
}
