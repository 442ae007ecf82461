/** What the generated rows say: which figure stands in which cell, and that the
    figures can be read back from the rows. */
module InventoryRows {
  import Basics
  import opened Text
  import opened TableScanner
  import opened Inventory
  import opened InventoryTheorems

  /** The cells of a row, as the scanner splits it. */
  function CellsOf(l: string): seq<string> { Split(Trim(Strip(l), '|'), '|') }

  /** A row of the first table holds the file, its number of cases and its priority. */
  lemma UpRowSays(u: Upstream)
    requires PlainText(u.file) && PlainText(u.priority)
    ensures CellsOf(UpRow(u)) == [" `tests/" + u.file + "` ", " " + Ntoa(u.cases) + " ", " " + u.priority + " "]
  {
    DigitsArePlain(u.cases);
    assert PlainText("`tests/" + u.file + "`");
    RowCellsAre("`tests/" + u.file + "`", Ntoa(u.cases), u.priority);
    assert " " + ("`tests/" + u.file + "`") + " " == " `tests/" + u.file + "` ";
  }

  /** The count of a module: its cases, with the skipped ones in parentheses if any. */
  function CountText(n: Count): string {
    if n.skipped == 0 then Ntoa(n.cases) else Ntoa(n.cases) + " (" + Ntoa(n.skipped) + " skipped)"
  }

  /** Its target: the quoted file, or "none" for a module that is not credited, and
      the note after a dash if there is one. */
  function TargetText(m: Mapping): string {
    var target := if Credited(m) then "`" + m.up.name + "`" else "none";
    if m.note == "" then target else target + " \U{2014} " + m.note
  }

  lemma SuiteRowIs(mod: string, n: Count, m: Mapping)
    requires PlainText(mod) && PlainMapping(m)
    ensures SuiteRow(mod, n, m) == Row("`" + mod + "`", CountText(n), TargetText(m))
    ensures PlainText("`" + mod + "`") && PlainText(CountText(n)) && PlainText(TargetText(m))
  {
    CellIsPlain(n);
    PlaceIsPlain(m);
    CellIs(n);
    PlaceIs(m);
  }

  /** A row of the second table holds the module, its count and its target. */
  lemma SuiteRowSays(mod: string, n: Count, m: Mapping)
    requires PlainText(mod) && PlainMapping(m)
    ensures CellsOf(SuiteRow(mod, n, m)) == [" `" + mod + "` ", " " + CountText(n) + " ", " " + TargetText(m) + " "]
  {
    SuiteRowIs(mod, n, m);
    RowCellsAre("`" + mod + "`", CountText(n), TargetText(m));
    assert " " + ("`" + mod + "`") + " " == " `" + mod + "` ";
  }

  lemma CellIs(n: Count)
    ensures Cell(n) == CountText(n)
  {
    if n.skipped != 0 {
      assert Ntoa(n.cases) + (" (" + Ntoa(n.skipped) + " skipped)") == CountText(n);
    } else {
      assert Ntoa(n.cases) + "" == Ntoa(n.cases);
    }
  }

  lemma PlaceIs(m: Mapping)
    ensures Place(m) == TargetText(m)
  {
    var target := if Credited(m) then "`" + m.up.name + "`" else "none";
    if m.note == "" {
      assert target + "" == target;
    } else {
      assert target + (DASH + m.note) == TargetText(m);
    }
  }

  // ------------------------------------------------------------------ read back

  ghost predicate AllDigits(s: string) { forall c :: c in s ==> IsDigit(c) }

  lemma LongerDigitsDiffer(a: string, b: string, x: string, y: string)
    requires |a| < |b| && AllDigits(b) && (x == "" || !IsDigit(x[0]))
    ensures a + x != b + y
  {
    assert (b + y)[|a|] == b[|a|] && b[|a|] in b;
    if x != "" {
      assert (a + x)[|a|] == x[0];
    }
  }

  /** Digits in front of something that is no digit are determined by the whole. */
  lemma LeadingDigits(a: string, b: string, x: string, y: string)
    requires AllDigits(a) && AllDigits(b)
    requires (x == "" || !IsDigit(x[0])) && (y == "" || !IsDigit(y[0]))
    ensures a + x == b + y ==> a == b && x == y
  {
    if |a| < |b| {
      LongerDigitsDiffer(a, b, x, y);
    } else if |b| < |a| {
      LongerDigitsDiffer(b, a, y, x);
    } else {
      assert a == (a + x)[..|a|] && b == (b + y)[..|b|];
      assert x == (a + x)[|a|..] && y == (b + y)[|b|..];
    }
  }

  lemma CountReadsBack(n: Count, m: Count)
    requires CountText(n) == CountText(m)
    ensures n == m
  {
    var x := if n.skipped == 0 then "" else " (" + (Ntoa(n.skipped) + " skipped)");
    var y := if m.skipped == 0 then "" else " (" + (Ntoa(m.skipped) + " skipped)");
    assert CountText(n) == Ntoa(n.cases) + x && CountText(m) == Ntoa(m.cases) + y;
    LeadingDigits(Ntoa(n.cases), Ntoa(m.cases), x, y);
    AtonNtoa(n.cases);
    AtonNtoa(m.cases);
    if n.skipped != 0 && m.skipped != 0 {
      assert x[2..] == Ntoa(n.skipped) + " skipped)" && y[2..] == Ntoa(m.skipped) + " skipped)";
      LeadingDigits(Ntoa(n.skipped), Ntoa(m.skipped), " skipped)", " skipped)");
      AtonNtoa(n.skipped);
      AtonNtoa(m.skipped);
    }
  }

  lemma Unquote(a: string, x: string, y: string, b: string)
    requires a + x + b == a + y + b
    ensures x == y
  {
    assert |x| == |y|;
    assert x == (a + x + b)[|a|..|a| + |x|] && y == (a + y + b)[|a|..|a| + |y|];
  }

  /** Rows of the second table that are equal are of one module with one count: a count
      that changes changes its row. */
  lemma SuiteRowReadsBack(mod: string, n: Count, m: Mapping, mod': string, n': Count, m': Mapping)
    requires PlainText(mod) && PlainMapping(m) && PlainText(mod') && PlainMapping(m')
    requires SuiteRow(mod, n, m) == SuiteRow(mod', n', m')
    ensures mod == mod' && n == n' && TargetText(m) == TargetText(m')
  {
    SuiteRowSays(mod, n, m);
    SuiteRowSays(mod', n', m');
    var cells := CellsOf(SuiteRow(mod, n, m));
    assert cells[0] == " `" + mod + "` " == " `" + mod' + "` ";
    Unquote(" `", mod, mod', "` ");
    assert cells[1] == " " + CountText(n) + " " == " " + CountText(n') + " ";
    Unquote(" ", CountText(n), CountText(n'), " ");
    CountReadsBack(n, n');
    assert cells[2] == " " + TargetText(m) + " " == " " + TargetText(m') + " ";
    Unquote(" ", TargetText(m), TargetText(m'), " ");
  }

  lemma UpRowReadsBack(u: Upstream, v: Upstream)
    requires PlainText(u.file) && PlainText(u.priority) && PlainText(v.file) && PlainText(v.priority)
    requires UpRow(u) == UpRow(v)
    ensures u == v
  {
    UpRowSays(u);
    UpRowSays(v);
    var cells := CellsOf(UpRow(u));
    assert cells[0] == " `tests/" + u.file + "` " == " `tests/" + v.file + "` ";
    Unquote(" `tests/", u.file, v.file, "` ");
    assert cells[1] == " " + Ntoa(u.cases) + " " == " " + Ntoa(v.cases) + " ";
    Unquote(" ", Ntoa(u.cases), Ntoa(v.cases), " ");
    AtonNtoa(u.cases);
    AtonNtoa(v.cases);
    assert cells[2] == " " + u.priority + " " == " " + v.priority + " ";
    Unquote(" ", u.priority, v.priority, " ");
  }

  // ------------------------------------------------------------------ the printed figures

  /** One case more, or one skip more, in one of the modules. */
  function More(counts: map<string, Count>, mod: string, cases: nat, skipped: nat): map<string, Count>
    requires mod in counts
  {
    counts[mod := Count(counts[mod].cases + cases, counts[mod].skipped + skipped)]
  }

  /** Without cases there is nothing to total. */
  lemma {:induction false} NothingTotalled(mods: seq<string>, counts: map<string, Count>,
      mapping: map<string, Mapping>, credited: bool)
    requires Known(mods, counts, mapping) && forall m :: m in mods ==> counts[m] == Count(0, 0)
    ensures CasesOf(mods, counts, mapping, credited) == 0 && SkippedOf(mods, counts) == 0
  {
    if mods != [] {
      NothingTotalled(mods[..|mods| - 1], counts, mapping, credited);
    }
  }

  lemma {:induction false} OthersUnchanged(mods: seq<string>, counts: map<string, Count>,
      mapping: map<string, Mapping>, credited: bool, mod: string, cases: nat, skipped: nat)
    requires Known(mods, counts, mapping) && mod in counts && mod !in mods
    ensures CasesOf(mods, More(counts, mod, cases, skipped), mapping, credited) == CasesOf(mods, counts, mapping, credited)
    ensures SkippedOf(mods, More(counts, mod, cases, skipped)) == SkippedOf(mods, counts)
  {
    if mods != [] {
      OthersUnchanged(mods[..|mods| - 1], counts, mapping, credited, mod, cases, skipped);
    }
  }

  /** What a module gains, the total of its kind gains, and the other total does not:
      a module with a target counts as mapped, one whose row says "none" does not. */
  lemma {:induction false} GainsAreTotalled(mods: seq<string>, counts: map<string, Count>,
      mapping: map<string, Mapping>, credited: bool, mod: string, cases: nat, skipped: nat)
    requires Known(mods, counts, mapping) && mod in mods && Basics.NoRepeats(mods)
    ensures var counts' := More(counts, mod, cases, skipped);
      && CasesOf(mods, counts', mapping, credited) == CasesOf(mods, counts, mapping, credited)
           + (if (TargetName(mapping[mod]) != "") == credited then cases else 0)
      && SkippedOf(mods, counts') == SkippedOf(mods, counts) + skipped
  {
    var front, last := mods[..|mods| - 1], mods[|mods| - 1];
    Basics.NoRepeatsLast(mods);
    if mod == last {
      OthersUnchanged(front, counts, mapping, credited, mod, cases, skipped);
    } else {
      assert mod in front;
      GainsAreTotalled(front, counts, mapping, credited, mod, cases, skipped);
    }
  }

  function TargetName(m: Mapping): string { if m.up.File? then m.up.name else "" }
}
