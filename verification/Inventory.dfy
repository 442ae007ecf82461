/** The generated README tables and the check that the README still holds them. */
module Inventory {
  import opened Basics
  import opened Text
  import opened TableScanner

  datatype Upstream = Upstream(file: string, cases: nat, priority: string)
  datatype Target = Nowhere | File(name: string)
  datatype Mapping = Mapping(up: Target, note: string)
  datatype Count = Count(cases: nat, skipped: nat)

  // ------------------------------------------------------------------ generation

  /** A row of three cells. */
  function Row(a: string, b: string, c: string): string {
    "| " + a + " | " + b + " | " + c + " |"
  }

  const RULE := "|---|---:|---|"
  const UP_HEADER := Row("Upstream file", "Cases", "Priority")
  const SUITE_HEADER := Row("This suite", "Cases", "Mapped to")
  const DASH := " \U{2014} "

  function UpRow(u: Upstream): string {
    Row("`tests/" + u.file + "`", Ntoa(u.cases), u.priority)
  }

  function Cell(n: Count): string {
    Ntoa(n.cases) + if n.skipped != 0 then " (" + Ntoa(n.skipped) + " skipped)" else ""
  }

  function Place(m: Mapping): string {
    (if m.up.File? && m.up.name != "" then "`" + m.up.name + "`" else "none")
    + if m.note != "" then DASH + m.note else ""
  }

  function SuiteRow(mod: string, n: Count, m: Mapping): string {
    Row("`" + mod + "`", Cell(n), Place(m))
  }

  function UpRows(ups: seq<Upstream>): (rows: seq<string>)
    ensures |rows| == |ups|
  {
    seq(|ups|, i requires 0 <= i < |ups| => UpRow(ups[i]))
  }

  predicate Known(mods: seq<string>, counts: map<string, Count>, mapping: map<string, Mapping>) {
    forall m :: m in mods ==> m in counts && m in mapping
  }

  function SuiteRows(mods: seq<string>, counts: map<string, Count>, mapping: map<string, Mapping>): (rows: seq<string>)
    requires Known(mods, counts, mapping)
    ensures |rows| == |mods|
  {
    seq(|mods|, i requires 0 <= i < |mods| => SuiteRow(mods[i], counts[mods[i]], mapping[mods[i]]))
  }

  datatype Table = Table(header: string, rows: seq<string>) {
    function Lines(): seq<string> { [header, RULE] + rows }
  }

  function UpTable(ups: seq<Upstream>): Table { Table(UP_HEADER, UpRows(ups)) }

  function SuiteTable(mods: seq<string>, counts: map<string, Count>, mapping: map<string, Mapping>): Table
    requires Known(mods, counts, mapping)
  {
    Table(SUITE_HEADER, SuiteRows(mods, counts, mapping))
  }

  datatype Generated = Unmapped(mods: seq<string>) | Lines(lines: seq<string>)

  function Unknown(mapping: map<string, Mapping>): string -> bool { m => m !in mapping }

  /** The modules that have no mapping. */
  function Without(mods: seq<string>, mapping: map<string, Mapping>): seq<string> {
    Filter(mods, Unknown(mapping))
  }

  lemma WithoutNone(mods: seq<string>, mapping: map<string, Mapping>)
    ensures Without(mods, mapping) == [] <==> forall m :: m in mods ==> m in mapping
  {
    FilterNoneIff(mods, Unknown(mapping));
  }

  method UpLines(ups: seq<Upstream>) returns (lines: seq<string>)
    ensures lines == UpTable(ups).Lines()
  {
    lines := [UP_HEADER, RULE];
    for i := 0 to |ups|
      invariant lines == [UP_HEADER, RULE] + UpRows(ups)[..i]
    {
      lines := lines + [UpRow(ups[i])];
    }
  }

  method SuiteLines(mods: seq<string>, counts: map<string, Count>, mapping: map<string, Mapping>)
    returns (lines: seq<string>)
    requires Known(mods, counts, mapping)
    ensures lines == SuiteTable(mods, counts, mapping).Lines()
  {
    lines := [SUITE_HEADER, RULE];
    for i := 0 to |mods|
      invariant lines == [SUITE_HEADER, RULE] + SuiteRows(mods, counts, mapping)[..i]
    {
      lines := lines + [SuiteRow(mods[i], counts[mods[i]], mapping[mods[i]])];
    }
  }

  /** The generator: `mods` are the keys of `counts` in the order in which they
      are listed. A module without a mapping stops it. */
  method Generate(ups: seq<Upstream>, mods: seq<string>, counts: map<string, Count>, mapping: map<string, Mapping>)
    returns (g: Generated)
    requires forall m :: m in mods ==> m in counts
    ensures g.Unmapped? <==> exists m :: m in mods && m !in mapping
    ensures g.Unmapped? ==> Selects(mods, g.mods, m => m !in mapping)
    ensures g.Lines? ==> Known(mods, counts, mapping)
    ensures g.Lines? ==> g.lines == UpTable(ups).Lines() + [""] + SuiteTable(mods, counts, mapping).Lines()
  {
    WithoutNone(mods, mapping);
    var unmapped := Without(mods, mapping);
    ghost var at := FilterSelects(mods, Unknown(mapping));
    assert Picks(mods, unmapped, at, m => m !in mapping);
    if unmapped != [] {
      return Unmapped(unmapped);
    }
    var up := UpLines(ups);
    var suite := SuiteLines(mods, counts, mapping);
    g := Lines(up + [""] + suite);
  }

  // ------------------------------------------------------------------- the check

  function Absent(readme: seq<string>): string -> bool { l => IsRow(l) && !Somewhere(readme, l) }

  function Missing(readme: seq<string>, table: seq<string>): seq<string> { Filter(table, Absent(readme)) }

  /** The line is a substring of the README; it holds no line break, so it is a
      substring of one of the README's lines. */
  predicate Somewhere(readme: seq<string>, line: string) {
    exists i :: 0 <= i < |readme| && Contains(readme[i], line)
  }

  /** The pattern of a generated table matches with its header at the end of line `i`. */
  predicate MatchAt(readme: seq<string>, header: string, i: int) {
    0 <= i && i + 2 < |readme| && EndsWith(readme[i], header) && IsRule(readme[i + 1])
  }

  function FirstMatch(readme: seq<string>, header: string, i: nat): (r: nat)
    requires i <= |readme|
    ensures i <= r <= |readme|
    decreases |readme| - i
  {
    if i == |readme| || MatchAt(readme, header, i) then i else FirstMatch(readme, header, i + 1)
  }

  /** The rows from line `j` on that are closed by a line break. */
  function ClosedRows(readme: seq<string>, j: nat): seq<string>
    decreases |readme| - j
  {
    if j + 1 < |readme| && IsRow(readme[j]) then [readme[j]] + ClosedRows(readme, j + 1) else []
  }

  function Present(readme: seq<string>, header: string): seq<string> {
    var i := FirstMatch(readme, header, 0);
    if i == |readme| then [] else ClosedRows(readme, i + 2)
  }

  function Foreign(rows: seq<string>): string -> bool { l => l !in rows }

  function Strangers(present: seq<string>, rows: seq<string>): seq<string> { Filter(present, Foreign(rows)) }

  /** Rows of the README's copy of a generated table that the generator did not produce. */
  function Stale(readme: seq<string>, t: Table): seq<string> {
    Strangers(Present(readme, t.header), t.Lines())
  }

  function IsTotal(): string -> bool { l => "| **Total" <= l }

  function Totals(readme: seq<string>): seq<string> { Filter(readme, IsTotal()) }

  datatype Verdict =
    | MissingRows(rows: seq<string>)
    | StaleRows(rows: seq<string>)
    | StoredTotals(rows: seq<string>)
    | Malformed(findings: seq<Finding>)
    | Accepted

  ghost predicate Passes(readme: seq<string>, up: Table, suite: Table) {
    && Missing(readme, up.Lines() + [""] + suite.Lines()) == []
    && Stale(readme, up) == [] && Stale(readme, suite) == []
    && Totals(readme) == []
    && Clean(readme)
  }

  /** What the three tests hand back: exactly the offending lines, in order. */
  lemma MissingSelects(readme: seq<string>, table: seq<string>)
    ensures Selects(table, Missing(readme, table), l => IsRow(l) && !Somewhere(readme, l))
  {
    var at := FilterSelects(table, Absent(readme));
    assert Picks(table, Missing(readme, table), at, l => IsRow(l) && !Somewhere(readme, l));
  }

  lemma StaleSelects(readme: seq<string>, t: Table)
    ensures Selects(Present(readme, t.header), Stale(readme, t), l => l !in t.Lines())
  {
    var at := FilterSelects(Present(readme, t.header), Foreign(t.Lines()));
    assert Picks(Present(readme, t.header), Stale(readme, t), at, l => l !in t.Lines());
  }

  lemma TotalsSelect(readme: seq<string>)
    ensures Selects(readme, Totals(readme), l => "| **Total" <= l)
  {
    var at := FilterSelects(readme, IsTotal());
    assert Picks(readme, Totals(readme), at, l => "| **Total" <= l);
  }

  method Check(readme: seq<string>, up: Table, suite: Table) returns (v: Verdict)
    ensures v == Accepted <==> Passes(readme, up, suite)
    ensures v.MissingRows? <==> Missing(readme, up.Lines() + [""] + suite.Lines()) != []
    ensures v.MissingRows? ==>
      Selects(up.Lines() + [""] + suite.Lines(), v.rows, l => IsRow(l) && !Somewhere(readme, l))
    ensures v.StaleRows? <==> !v.MissingRows? && !(Stale(readme, up) == [] && Stale(readme, suite) == [])
    ensures v.StaleRows? ==>
      var t := if Stale(readme, up) != [] then up else suite;
      Selects(Present(readme, t.header), v.rows, l => l !in t.Lines())
    ensures v.StoredTotals? <==> !v.MissingRows? && !v.StaleRows? && Totals(readme) != []
    ensures v.StoredTotals? ==> Selects(readme, v.rows, l => "| **Total" <= l)
    ensures v.Malformed? ==> v.findings != [] && Exact(readme, v.findings)
  {
    var missing := Missing(readme, up.Lines() + [""] + suite.Lines());
    MissingSelects(readme, up.Lines() + [""] + suite.Lines());
    if missing != [] {
      return MissingRows(missing);
    }
    StaleSelects(readme, up);
    StaleSelects(readme, suite);
    var stale := Stale(readme, up);
    if stale != [] {
      return StaleRows(stale);
    }
    stale := Stale(readme, suite);
    if stale != [] {
      return StaleRows(stale);
    }
    TotalsSelect(readme);
    var stored := Totals(readme);
    if stored != [] {
      return StoredTotals(stored);
    }
    var bad := MalformedTableRows(readme);
    EmptyReport(readme, bad);
    v := if bad != [] then Malformed(bad) else Accepted;
  }

  // ------------------------------------------------------------------- the totals

  /** A dictionary in insertion order. */
  type Dict = seq<(string, nat)>

  function Add(d: Dict, k: string, n: nat): Dict {
    if d == [] then [(k, n)]
    else if d[0].0 == k then [(k, d[0].1 + n)] + d[1..]
    else [d[0]] + Add(d[1..], k, n)
  }

  function Values(d: Dict): nat {
    if d == [] then 0 else d[0].1 + Values(d[1..])
  }

  lemma {:induction false} AddConserves(d: Dict, k: string, n: nat)
    ensures Values(Add(d, k, n)) == Values(d) + n
  {
    if d != [] && d[0].0 != k {
      AddConserves(d[1..], k, n);
    }
  }

  predicate Credited(m: Mapping) { m.up.File? && m.up.name != "" }

  function CasesOf(mods: seq<string>, counts: map<string, Count>, mapping: map<string, Mapping>, credited: bool): nat
    requires Known(mods, counts, mapping)
  {
    if mods == [] then 0
    else
      var m := mods[|mods| - 1];
      var here := if Credited(mapping[m]) == credited then counts[m].cases else 0;
      CasesOf(mods[..|mods| - 1], counts, mapping, credited) + here
  }

  function SkippedOf(mods: seq<string>, counts: map<string, Count>): nat
    requires forall m :: m in mods ==> m in counts
  {
    if mods == [] then 0
    else SkippedOf(mods[..|mods| - 1], counts) + counts[mods[|mods| - 1]].skipped
  }

  function InScope(ups: seq<Upstream>): nat {
    if ups == [] then 0 else InScope(ups[..|ups| - 1]) + ups[|ups| - 1].cases
  }

  method CountInScope(ups: seq<Upstream>) returns (n: nat)
    ensures n == InScope(ups)
  {
    n := 0;
    for i := 0 to |ups|
      invariant n == InScope(ups[..i])
    {
      assert ups[..i + 1][..i] == ups[..i];
      n := n + ups[i].cases;
    }
    assert ups[..|ups|] == ups;
  }

  /** The printed figures. Grouping by upstream file loses nothing: what is credited
      to the files is what the mapped modules hold, and the rest is what the others
      hold. */
  method Figures(ups: seq<Upstream>, mods: seq<string>, counts: map<string, Count>, mapping: map<string, Mapping>)
    returns (inScope: nat, total: nat, skipped: nat, mapped: nat)
    requires Known(mods, counts, mapping)
    ensures inScope == InScope(ups) && skipped == SkippedOf(mods, counts)
    ensures mapped == CasesOf(mods, counts, mapping, true)
    ensures total - mapped == CasesOf(mods, counts, mapping, false)
  {
    var ported: Dict := [];
    total, skipped := 0, 0;
    for i := 0 to |mods|
      invariant Values(ported) == CasesOf(mods[..i], counts, mapping, true)
      invariant total == Values(ported) + CasesOf(mods[..i], counts, mapping, false)
      invariant skipped == SkippedOf(mods[..i], counts)
    {
      assert mods[..i + 1][..i] == mods[..i];
      var m := mods[i];
      if Credited(mapping[m]) {
        AddConserves(ported, mapping[m].up.name, counts[m].cases);
        ported := Add(ported, mapping[m].up.name, counts[m].cases);
      }
      total := total + counts[m].cases;
      skipped := skipped + counts[m].skipped;
    }
    assert mods[..|mods|] == mods;
    mapped := Values(ported);
    inScope := CountInScope(ups);
  }
}
