/** The generator and the check agree, and what the check does and does not
    notice when a row is spliced into a generated table. */
module InventoryTheorems {
  import opened Basics
  import opened Text
  import opened TableScanner
  import opened Inventory

  // -------------------------------------------------------------- generated rows

  predicate PlainText(s: string) { '|' !in s && '\n' !in s }

  lemma {:induction false} DigitsArePlain(n: nat)
    ensures PlainText(Ntoa(n))
  {
  }

  lemma PlainConcat(a: string, b: string)
    requires PlainText(a) && PlainText(b)
    ensures PlainText(a + b)
  {
  }

  /** A line that begins and ends with a bar and holds four of them. */
  predicate FourBars(l: string) {
    IsRow(l) && l[|l| - 1] == '|' && Occurrences(l, '|') == 4
  }

  /** Three plain cells make a row that the scanner counts as three cells. */
  lemma RowHasThreeCells(a: string, b: string, c: string)
    requires PlainText(a) && PlainText(b) && PlainText(c)
    ensures Cells(Row(a, b, c)) == 3 && FourBars(Row(a, b, c))
  {
    var inner := " " + a + " | " + b + " | " + c + " ";
    assert Row(a, b, c) == "|" + (inner + "|");
    TrimmedRow(a, b, c);
    InnerBars(a, b, c);
    OccurrencesConcat("|", inner + "|", '|');
    OccurrencesConcat(inner, "|", '|');
  }

  /** And the three cells are what was put into them, between blanks. */
  lemma RowCellsAre(a: string, b: string, c: string)
    requires PlainText(a) && PlainText(b) && PlainText(c)
    ensures Split(Trim(Strip(Row(a, b, c)), '|'), '|') == [" " + a + " ", " " + b + " ", " " + c + " "]
  {
    var x, y, z := " " + a + " ", " " + b + " ", " " + c + " ";
    TrimmedRow(a, b, c);
    var inner := " " + a + " | " + b + " | " + c + " ";
    assert inner == x + ['|'] + (y + ['|'] + z);
    SplitFirst(x, y + ['|'] + z, '|');
    SplitFirst(y, z, '|');
    SplitPlain(z, '|');
  }

  lemma TrimmedRow(a: string, b: string, c: string)
    ensures Trim(Strip(Row(a, b, c)), '|') == " " + a + " | " + b + " | " + c + " "
  {
    var s := Row(a, b, c);
    var inner := " " + a + " | " + b + " | " + c + " ";
    assert s == "|" + (inner + "|");
    assert LStrip(s) == s;
    assert s[|s| - 1] == '|';
    assert Strip(s) == s;
    assert s[1..] == inner + "|";
    assert inner[0] == ' ' && inner[|inner| - 1] == ' ';
    assert LTrim(s, '|') == inner + "|";
    assert (inner + "|")[..|inner|] == inner;
    assert RTrim(inner + "|", '|') == inner;
  }

  lemma InnerBars(a: string, b: string, c: string)
    requires PlainText(a) && PlainText(b) && PlainText(c)
    ensures Occurrences(" " + a + " | " + b + " | " + c + " ", '|') == 2
  {
    OccurrencesNone(a, '|');
    OccurrencesNone(b, '|');
    OccurrencesNone(c, '|');
    OccurrencesConcat(" " + a + " | " + b + " | " + c, " ", '|');
    OccurrencesConcat(" " + a + " | " + b + " | ", c, '|');
    OccurrencesConcat(" " + a + " | " + b, " | ", '|');
    OccurrencesConcat(" " + a + " | ", b, '|');
    OccurrencesConcat(" " + a, " | ", '|');
    OccurrencesConcat(" ", a, '|');
  }

  /** What the check relies on in a generated row: three cells, code-quoted from
      its first cell on. */
  predicate Generic(r: string) {
    FourBars(r) && Cells(r) == 3 && |r| > 2 && r[2] == '`'
  }

  /** What it relies on in a header: three cells, the first of them a word. */
  predicate Titled(r: string) {
    FourBars(r) && Cells(r) == 3 && |r| > 2 && 'A' <= r[2] <= 'Z'
  }

  predicate NoTotal(l: string) { !("| **Total" <= l) }

  /** A row with four bars ends in a header only if it is that header. */
  lemma NoHeaderAtTheEnd(r: string, header: string)
    requires IsRow(r) && |header| >= 1 && Occurrences(r, '|') == Occurrences(header, '|')
    ensures EndsWith(r, header) ==> r == header
  {
    if EndsWith(r, header) && r != header {
      var x := r[..|r| - |header|];
      assert r == x + header;
      assert x[0] == r[0];
      OccurrencesConcat(x, header, '|');
      OccurrencesNone(x, '|');
    }
  }

  lemma GenericFacts(r: string, header: string)
    requires (Generic(r) || Titled(r)) && Titled(header) && (Titled(r) ==> r[2] != header[2])
    ensures !EndsWith(r, header) && !IsRule(r) && NoTotal(r)
  {
    NoHeaderAtTheEnd(r, header);
    assert "| **Total"[2] == '*';
  }

  lemma RowStart(a: string, b: string, c: string)
    requires a != ""
    ensures |Row(a, b, c)| > 2 && Row(a, b, c)[2] == a[0]
  {
  }

  lemma QuotedRowIsGeneric(a: string, b: string, c: string)
    requires PlainText(a) && PlainText(b) && PlainText(c)
    ensures Generic(Row("`" + a + "`", b, c))
  {
    var q := "`" + a + "`";
    assert PlainText(q);
    RowHasThreeCells(q, b, c);
    RowStart(q, b, c);
  }

  lemma WordRowIsTitled(a: string, b: string, c: string)
    requires PlainText(a) && PlainText(b) && PlainText(c) && a != "" && 'A' <= a[0] <= 'Z'
    ensures Titled(Row(a, b, c)) && Row(a, b, c)[2] == a[0]
  {
    RowHasThreeCells(a, b, c);
    RowStart(a, b, c);
  }

  lemma HeadersAreTitled()
    ensures Titled(UP_HEADER) && UP_HEADER[2] == 'U'
    ensures Titled(SUITE_HEADER) && SUITE_HEADER[2] == 'T'
  {
    UpHeaderIsTitled();
    SuiteHeaderIsTitled();
  }

  lemma UpHeaderIsTitled()
    ensures Titled(UP_HEADER) && UP_HEADER[2] == 'U'
  {
    WordRowIsTitled("Upstream file", "Cases", "Priority");
  }

  lemma SuiteHeaderIsTitled()
    ensures Titled(SUITE_HEADER) && SUITE_HEADER[2] == 'T'
  {
    WordRowIsTitled("This suite", "Cases", "Mapped to");
  }

  predicate PlainUps(ups: seq<Upstream>) {
    forall u :: u in ups ==> PlainText(u.file) && PlainText(u.priority)
  }

  predicate PlainMapping(m: Mapping) {
    PlainText(m.note) && (m.up.File? ==> PlainText(m.up.name))
  }

  predicate PlainMods(mods: seq<string>, counts: map<string, Count>, mapping: map<string, Mapping>) {
    Known(mods, counts, mapping) && forall m :: m in mods ==> PlainText(m) && PlainMapping(mapping[m])
  }

  ghost predicate GenericRows(rows: seq<string>) {
    forall i :: 0 <= i < |rows| ==> Generic(rows[i])
  }

  lemma UpRowIsGeneric(u: Upstream)
    requires PlainText(u.file) && PlainText(u.priority)
    ensures Generic(UpRow(u))
  {
    DigitsArePlain(u.cases);
    assert "`" + ("tests/" + u.file) + "`" == "`tests/" + u.file + "`";
    PlainConcat("tests/", u.file);
    QuotedRowIsGeneric("tests/" + u.file, Ntoa(u.cases), u.priority);
  }

  lemma CellIsPlain(n: Count)
    ensures PlainText(Cell(n))
  {
    DigitsArePlain(n.cases);
    DigitsArePlain(n.skipped);
  }

  lemma PlaceIsPlain(m: Mapping)
    requires PlainMapping(m)
    ensures PlainText(Place(m))
  {
  }

  lemma UpTableIsGeneric(ups: seq<Upstream>)
    requires PlainUps(ups)
    ensures GenericRows(UpRows(ups))
  {
    forall i | 0 <= i < |ups| ensures Generic(UpRows(ups)[i]) {
      assert ups[i] in ups;
      UpRowIsGeneric(ups[i]);
    }
  }

  lemma SuiteTableIsGeneric(mods: seq<string>, counts: map<string, Count>, mapping: map<string, Mapping>)
    requires PlainMods(mods, counts, mapping)
    ensures GenericRows(SuiteRows(mods, counts, mapping))
  {
    forall i | 0 <= i < |mods| ensures Generic(SuiteRows(mods, counts, mapping)[i]) {
      var m := mods[i];
      assert m in mods;
      CellIsPlain(counts[m]);
      PlaceIsPlain(mapping[m]);
      QuotedRowIsGeneric(m, Cell(counts[m]), Place(mapping[m]));
    }
  }

  // ----------------------------------------------------------------- four tests

  lemma MissingIff(readme: seq<string>, table: seq<string>)
    ensures Missing(readme, table) == [] <==> forall l :: l in table && IsRow(l) ==> Somewhere(readme, l)
  {
    FilterNoneIff(table, Absent(readme));
  }

  lemma PresentIsSomewhere(readme: seq<string>, l: string)
    requires l in readme
    ensures Somewhere(readme, l)
  {
    ContainsSelf(l);
  }

  ghost predicate NoTotalsIn(lines: seq<string>) {
    forall i :: 0 <= i < |lines| ==> NoTotal(lines[i])
  }

  lemma TotalsIff(readme: seq<string>)
    ensures Totals(readme) == [] <==> NoTotalsIn(readme)
  {
    FilterNoneIff(readme, IsTotal());
  }

  lemma NoTotalsConcat(a: seq<string>, b: seq<string>)
    ensures NoTotalsIn(a + b) <==> NoTotalsIn(a) && NoTotalsIn(b)
  {
    if NoTotalsIn(a + b) {
      forall i | 0 <= i < |a| ensures NoTotal(a[i]) { assert (a + b)[i] == a[i]; }
      forall i | 0 <= i < |b| ensures NoTotal(b[i]) { assert (a + b)[|a| + i] == b[i]; }
    }
  }

  lemma {:induction false} FirstMatchIs(readme: seq<string>, header: string, i: nat, m: nat)
    requires i <= m <= |readme|
    requires forall p :: i <= p < m ==> !MatchAt(readme, header, p)
    requires m == |readme| || MatchAt(readme, header, m)
    ensures FirstMatch(readme, header, i) == m
    decreases m - i
  {
    if i < m {
      FirstMatchIs(readme, header, i + 1, m);
    }
  }

  lemma {:induction false} ClosedRowsAre(p: seq<string>, rows: seq<string>, q: seq<string>)
    requires q != [] && !IsRow(q[0])
    requires forall i :: 0 <= i < |rows| ==> IsRow(rows[i])
    ensures ClosedRows(p + rows + q, |p|) == rows
    decreases |rows|
  {
    var s := p + rows + q;
    if rows == [] {
      assert s[|p|] == q[0];
    } else {
      assert s[|p|] == rows[0];
      assert p + [rows[0]] + rows[1..] + q == s;
      ClosedRowsAre(p + [rows[0]], rows[1..], q);
    }
  }

  lemma {:induction false} ClosedRowsAtEnd(p: seq<string>, rows: seq<string>)
    requires rows != [] && forall i :: 0 <= i < |rows| ==> IsRow(rows[i])
    ensures ClosedRows(p + rows, |p|) == rows[..|rows| - 1]
    decreases |rows|
  {
    var s := p + rows;
    if |rows| > 1 {
      assert s[|p|] == rows[0];
      assert p + [rows[0]] + rows[1..] == s;
      ClosedRowsAtEnd(p + [rows[0]], rows[1..]);
    }
  }

  lemma StrangersNone(present: seq<string>, rows: seq<string>)
    ensures Strangers(present, rows) == [] <==> forall i :: 0 <= i < |present| ==> present[i] in rows
  {
    FilterNoneIff(present, Foreign(rows));
  }

  /** The part of a run of rows that the pattern can see: all of it when a line
      follows, all but the last row when the README ends there. */
  function Seen(rows: seq<string>, q: seq<string>): seq<string> {
    if q == [] && rows != [] then rows[..|rows| - 1] else rows
  }

  /** No line of `lines` ends in the header. */
  ghost predicate Silent(lines: seq<string>, header: string) {
    forall i :: 0 <= i < |lines| ==> !EndsWith(lines[i], header)
  }

  /** What the check compares, for a README that holds a line ending in the header
      and a rule, some rows, and then something that is not a row. */
  lemma PresentIs(p: seq<string>, top: string, rule: string, rows: seq<string>, q: seq<string>, header: string)
    requires EndsWith(top, header) && IsRule(rule) && (q == [] || !IsRow(q[0]))
    requires forall i :: 0 <= i < |rows| ==> IsRow(rows[i])
    requires forall i :: 0 <= i < |p| ==> !MatchAt(p + [top, rule] + rows + q, header, i)
    requires rows == [] && q == [] ==> !EndsWith(rule, header)
    ensures Present(p + [top, rule] + rows + q, header) == Seen(rows, q)
  {
    var s := p + [top, rule] + rows + q;
    var n := |p|;
    assert s[n] == top && s[n + 1] == rule;
    if rows == [] && q == [] {
      FirstMatchIs(s, header, 0, |s|);
    } else {
      FirstMatchIs(s, header, 0, n);
      if q == [] {
        assert s == (p + [top, rule]) + rows;
        ClosedRowsAtEnd(p + [top, rule], rows);
      } else {
        assert s == (p + [top, rule]) + rows + q;
        ClosedRowsAre(p + [top, rule], rows, q);
      }
    }
  }

  lemma PresentNowhere(s: seq<string>, header: string)
    requires forall i :: 0 <= i < |s| ==> !MatchAt(s, header, i)
    ensures Present(s, header) == []
  {
    FirstMatchIs(s, header, 0, |s|);
  }

  // -------------------------------------------------------------- the clean table

  lemma RuleFacts(header: string)
    requires Titled(header)
    ensures IsRule(RULE) && IsRow(RULE) && NoTotal(RULE) && !EndsWith(RULE, header)
  {
    assert RULE[2] == '-' && "| **Total"[2] == '*';
    assert forall i :: 0 <= i < |RULE| ==> RULE[i] in {'|', '-', ':'};
  }

  /** A table whose rows all have its header's width is clean, and fences nothing. */
  lemma TableIsClean(lines: seq<string>)
    requires |lines| >= 2 && IsRule(lines[1])
    requires forall i :: 0 <= i < |lines| ==> IsRow(lines[i])
    requires forall i :: 2 <= i < |lines| ==> Cells(lines[i]) == Cells(lines[0])
    ensures Clean(lines)
  {
    forall h, j ensures !Bad(lines, h, j) {
      if h > 0 && Bad(lines, h, j) {
        assert Unbroken(lines, 0, h);
      }
    }
  }

  lemma {:induction false} RowsFenceNothing(lines: seq<string>)
    requires forall i :: 0 <= i < |lines| ==> IsRow(lines[i])
    ensures Fences(lines) == 0
  {
    if lines != [] {
      RowIsNoFence(lines[|lines| - 1]);
      RowsFenceNothing(lines[..|lines| - 1]);
    }
  }

  lemma CleanConcat(a: seq<string>, b: seq<string>)
    requires Seam(a, b) && !Fenced(a)
    ensures Clean(a + b) <==> Clean(a) && Clean(b)
  {
    forall h, j ensures Bad(a + b, h, j) <==> Bad(a, h, j) || (h >= |a| && Bad(b, h - |a|, j - |a|)) {
      BadConcat(a, b, h, j);
    }
    if Clean(a + b) {
      forall h, j ensures !Bad(b, h, j) {
        assert !Bad(a + b, h + |a|, j + |a|);
      }
    }
  }

  // ------------------------------------------------------------------ the README

  /** Text around the tables that holds no malformed table of its own, no totals
      row and neither of the two headers. */
  ghost predicate Quiet(text: seq<string>, up: string, suite: string) {
    && Clean(text)
    && forall i :: 0 <= i < |text| ==>
         !EndsWith(text[i], up) && !EndsWith(text[i], suite) && NoTotal(text[i])
  }

  /** A README: text, lines for the first table, text, lines for the second, text. */
  datatype Readme = Readme(pre: seq<string>, first: seq<string>, mid: seq<string>, second: seq<string>, post: seq<string>) {
    function Text(): seq<string> { pre + first + mid + second + post }

    /** The surrounding text is quiet, closes its fences before each table, and
        no row of it touches a table. */
    ghost predicate Sound(up: string, suite: string) {
      && Quiet(pre, up, suite) && Quiet(mid, up, suite) && Quiet(post, up, suite)
      && !Fenced(pre) && !Fenced(mid)
      && (pre != [] ==> !IsRow(pre[|pre| - 1]))
      && mid != [] && !IsRow(mid[0]) && !IsRow(mid[|mid| - 1])
      && (post != [] ==> !IsRow(post[0]))
    }
  }

  ghost predicate AllRows(lines: seq<string>) {
    forall i :: 0 <= i < |lines| ==> IsRow(lines[i])
  }

  /** A sound README is clean when its two tables are. */
  lemma ReadmeIsCleanIff(r: Readme, up: string, suite: string)
    requires r.Sound(up, suite) && r.first != [] && r.second != [] && AllRows(r.first) && AllRows(r.second)
    ensures Clean(r.Text()) <==> Clean(r.first) && Clean(r.second)
  {
    RowsFenceNothing(r.first);
    RowsFenceNothing(r.second);
    CleanAndClosed(r.pre, r.first);
    CleanAndClosed(r.pre + r.first, r.mid);
    CleanAndClosed(r.pre + r.first + r.mid, r.second);
    CleanConcat(r.pre + r.first + r.mid + r.second, r.post);
  }

  lemma CleanAndClosed(a: seq<string>, b: seq<string>)
    requires Seam(a, b) && !Fenced(a) && !Fenced(b)
    ensures !Fenced(a + b) && (Clean(a + b) <==> Clean(a) && Clean(b))
  {
    CleanConcat(a, b);
    FencesConcat(a, b);
  }

  // ------------------------------------------------- one table in its surroundings

  /** Where the comparison of one generated table takes place: no line before it
      ends in its header, and no row follows it directly. */
  ghost predicate Framed(p: seq<string>, t: Table, q: seq<string>) {
    && Titled(t.header) && GenericRows(t.rows)
    && Silent(p, t.header) && (q == [] || !IsRow(q[0]))
  }

  lemma IntactIsFresh(p: seq<string>, t: Table, q: seq<string>)
    requires Framed(p, t, q)
    ensures Stale(p + t.Lines() + q, t) == []
  {
    FirstIsFresh(p, t, q, p + t.Lines() + q);
  }

  /** An intact table is fresh when nothing before it matches its pattern. */
  lemma FirstIsFresh(p: seq<string>, t: Table, q: seq<string>, s: seq<string>)
    requires Titled(t.header) && GenericRows(t.rows) && (q == [] || !IsRow(q[0]))
    requires s == p + t.Lines() + q && forall i :: 0 <= i < |p| ==> !MatchAt(s, t.header, i)
    ensures Stale(s, t) == []
  {
    assert s == p + [t.header, RULE] + t.rows + q;
    RuleFacts(t.header);
    PresentIs(p, t.header, RULE, t.rows, q, t.header);
    RowsAreKnown(t);
    NoStrangers(t.rows, q, t.Lines());
  }

  function Insert(lines: seq<string>, i: nat, row: string): seq<string>
    requires i <= |lines|
  {
    lines[..i] + [row] + lines[i..]
  }

  lemma StrangersInsert(rows: seq<string>, i: nat, row: string, known: seq<string>)
    requires i <= |rows| && row !in known && forall j :: 0 <= j < |rows| ==> rows[j] in known
    ensures Strangers(Insert(rows, i, row), known) == [row]
  {
    FilterConcat(rows[..i] + [row], rows[i..], Foreign(known));
    FilterConcat(rows[..i], [row], Foreign(known));
    FilterNoneIff(rows[..i], Foreign(known));
    FilterNoneIff(rows[i..], Foreign(known));
    assert [row][1..] == [];
  }

  lemma RowsAreKnown(t: Table)
    ensures RULE in t.Lines() && forall j :: 0 <= j < |t.rows| ==> t.rows[j] in t.Lines()
  {
    assert forall j :: 0 <= j < |t.rows| ==> t.Lines()[j + 2] == t.rows[j];
    assert t.Lines()[1] == RULE;
  }

  lemma NoStrangers(rows: seq<string>, q: seq<string>, known: seq<string>)
    requires forall j :: 0 <= j < |rows| ==> rows[j] in known
    ensures Strangers(Seen(rows, q), known) == []
  {
    StrangersNone(Seen(rows, q), known);
  }

  /** Without a line below, the pattern sees a table's rows except the last. */
  lemma InsertShort(rows: seq<string>, i: nat, row: string)
    requires i < |rows|
    ensures Seen(Insert(rows, i, row), []) == Insert(rows[..|rows| - 1], i, row)
  {
  }

  lemma SeenInsert(rows: seq<string>, q: seq<string>, i: nat, row: string, known: seq<string>)
    requires row !in known && i <= |rows| && forall j :: 0 <= j < |rows| ==> rows[j] in known
    ensures Strangers(Seen(Insert(rows, i, row), q), known) == if q == [] && i == |rows| then [] else [row]
  {
    if q != [] {
      StrangersInsert(rows, i, row, known);
    } else if i == |rows| {
      assert Seen(Insert(rows, i, row), q) == rows;
      StrangersNone(rows, known);
    } else {
      InsertShort(rows, i, row);
      StrangersInsert(rows[..|rows| - 1], i, row, known);
    }
  }

  lemma InsertBelowRule(p: seq<string>, t: Table, q: seq<string>, i: nat, row: string)
    requires i <= |t.rows|
    ensures p + Insert(t.Lines(), i + 2, row) + q == p + [t.header, RULE] + Insert(t.rows, i, row) + q
  {
    assert Insert(t.Lines(), i + 2, row) == [t.header, RULE] + Insert(t.rows, i, row);
  }

  /** A stranger among the rows is reported, unless it is the README's last line. */
  lemma SplicedBelowRule(p: seq<string>, t: Table, q: seq<string>, i: nat, row: string)
    requires Framed(p, t, q) && IsRow(row) && row !in t.Lines() && i <= |t.rows|
    ensures Stale(p + Insert(t.Lines(), i + 2, row) + q, t) == if q == [] && i == |t.rows| then [] else [row]
  {
    var rows := Insert(t.rows, i, row);
    InsertBelowRule(p, t, q, i, row);
    assert forall j :: 0 <= j < |rows| ==> IsRow(rows[j]);
    RuleFacts(t.header);
    PresentIs(p, t.header, RULE, rows, q, t.header);
    RowsAreKnown(t);
    SeenInsert(t.rows, q, i, row, t.Lines());
  }

  lemma SplicedAboveHeader(p: seq<string>, t: Table, q: seq<string>, row: string)
    requires Framed(p, t, q) && IsRow(row)
    ensures Stale(p + Insert(t.Lines(), 0, row) + q, t) == []
  {
    var s := p + [row] + t.Lines() + q;
    assert p + Insert(t.Lines(), 0, row) + q == s;
    assert t.header[2] !in {'-', ':', ' ', '|'};
    forall i | 0 <= i <= |p| ensures !MatchAt(s, t.header, i) {
      assert if i == |p| then s[i + 1] == t.header else s[i] == p[i];
    }
    FirstIsFresh(p + [row], t, q, s);
  }

  lemma NoMatchUnderHeader(p: seq<string>, t: Table, q: seq<string>, row: string, i: nat)
    requires Framed(p, t, q) && Silent(q, t.header) && !IsRule(row) && !EndsWith(row, t.header)
    ensures !MatchAt(p + [t.header, row, RULE] + t.rows + q, t.header, i)
  {
    var s := p + [t.header, row, RULE] + t.rows + q;
    var n := |p|;
    if i < |s| {
      RuleFacts(t.header);
      if i < n {
        assert s[i] == p[i];
      } else if i < n + 3 {
        assert s[n] == t.header && s[n + 1] == row && s[n + 2] == RULE;
      } else if i < n + 3 + |t.rows| {
        assert s[i] == t.rows[i - n - 3];
        GenericFacts(s[i], t.header);
      } else {
        assert s[i] == q[i - n - 3 - |t.rows|];
      }
    }
  }

  lemma SplicedStranger(p: seq<string>, t: Table, q: seq<string>, row: string)
    requires Framed(p, t, q) && Silent(q, t.header) && !IsRule(row) && !EndsWith(row, t.header)
    ensures Stale(p + [t.header, row, RULE] + t.rows + q, t) == []
  {
    var s := p + [t.header, row, RULE] + t.rows + q;
    forall i | 0 <= i < |s| ensures !MatchAt(s, t.header, i) {
      NoMatchUnderHeader(p, t, q, row, i);
    }
    PresentNowhere(s, t.header);
  }

  /** Between the header and its rule: the pattern no longer matches there, or it
      takes the new row for the rule; either way nothing is reported. */
  lemma SplicedUnderHeader(p: seq<string>, t: Table, q: seq<string>, row: string)
    requires Framed(p, t, q) && Silent(q, t.header)
    ensures Stale(p + Insert(t.Lines(), 1, row) + q, t) == []
  {
    assert p + Insert(t.Lines(), 1, row) + q == p + [t.header, row, RULE] + t.rows + q;
    if IsRule(row) {
      SplicedRule(p, t, q, row);
    } else if EndsWith(row, t.header) {
      SplicedHeader(p, t, q, row);
    } else {
      SplicedStranger(p, t, q, row);
    }
  }

  lemma NoEarlyMatch(p: seq<string>, rest: seq<string>, header: string)
    requires Silent(p, header)
    ensures forall i :: 0 <= i < |p| ==> !MatchAt(p + rest, header, i)
  {
    assert forall i :: 0 <= i < |p| ==> (p + rest)[i] == p[i];
  }

  lemma SplicedRule(p: seq<string>, t: Table, q: seq<string>, row: string)
    requires Framed(p, t, q) && IsRule(row)
    ensures Stale(p + [t.header, row, RULE] + t.rows + q, t) == []
  {
    var s, rows := p + [t.header, row] + ([RULE] + t.rows) + q, [RULE] + t.rows;
    assert p + [t.header, row, RULE] + t.rows + q == s;
    RuleFacts(t.header);
    NoEarlyMatch(p, [t.header, row] + rows + q, t.header);
    assert p + ([t.header, row] + rows + q) == s;
    PresentIs(p, t.header, row, rows, q, t.header);
    RowsAreKnown(t);
    NoStrangers(rows, q, t.Lines());
  }

  lemma HeaderNotMatched(p: seq<string>, header: string, row: string, rest: seq<string>)
    requires Silent(p, header) && !IsRule(row)
    ensures forall i :: 0 <= i <= |p| ==> !MatchAt(p + ([header, row] + rest), header, i)
  {
    var s := p + ([header, row] + rest);
    NoEarlyMatch(p, [header, row] + rest, header);
    assert s[|p| + 1] == row;
  }

  lemma SplicedHeader(p: seq<string>, t: Table, q: seq<string>, row: string)
    requires Framed(p, t, q) && !IsRule(row) && EndsWith(row, t.header)
    ensures Stale(p + [t.header, row, RULE] + t.rows + q, t) == []
  {
    var s := (p + [t.header]) + [row, RULE] + t.rows + q;
    assert p + [t.header, row, RULE] + t.rows + q == s;
    assert p + ([t.header, row] + ([RULE] + t.rows + q)) == s;
    HeaderNotMatched(p, t.header, row, [RULE] + t.rows + q);
    RuleFacts(t.header);
    PresentIs(p + [t.header], row, RULE, t.rows, q, t.header);
    RowsAreKnown(t);
    NoStrangers(t.rows, q, t.Lines());
  }

  /** Exactly when the stale-row test notices a row that was added to a generated
      table: below the rule, and not as the last line of the README. */
  lemma StaleIff(p: seq<string>, t: Table, q: seq<string>, i: nat, row: string, s: seq<string>)
    requires Framed(p, t, q) && Silent(q, t.header)
    requires IsRow(row) && row !in t.Lines() && i <= |t.Lines()|
    requires s == p + Insert(t.Lines(), i, row) + q
    ensures Stale(s, t) == if i >= 2 && !(q == [] && i == |t.Lines()|) then [row] else []
  {
    if i == 0 {
      SplicedAboveHeader(p, t, q, row);
    } else if i == 1 {
      SplicedUnderHeader(p, t, q, row);
    } else {
      SplicedBelowRule(p, t, q, i - 2, row);
    }
  }

  // -------------------------------------------------------------- the whole README

  /** Two generated tables: quoted rows under two different titles. */
  ghost predicate Tables(up: Table, suite: Table) {
    && Titled(up.header) && Titled(suite.header) && up.header[2] != suite.header[2]
    && GenericRows(up.rows) && GenericRows(suite.rows)
  }

  lemma TableIsSilent(t: Table, header: string)
    requires Titled(t.header) && GenericRows(t.rows) && Titled(header) && t.header[2] != header[2]
    ensures Silent(t.Lines(), header)
  {
    RuleFacts(header);
    GenericFacts(t.header, header);
    forall i | 0 <= i < |t.Lines()| ensures !EndsWith(t.Lines()[i], header) {
      if i >= 2 {
        assert t.Lines()[i] == t.rows[i - 2];
        GenericFacts(t.rows[i - 2], header);
      }
    }
  }

  lemma SilentConcat(a: seq<string>, b: seq<string>, header: string)
    requires Silent(a, header) && Silent(b, header)
    ensures Silent(a + b, header)
  {
  }

  lemma GeneratedTableIsClean(t: Table)
    requires Titled(t.header) && GenericRows(t.rows)
    ensures AllRows(t.Lines()) && Clean(t.Lines())
  {
    RuleFacts(t.header);
    forall i | 2 <= i < |t.Lines()| ensures IsRow(t.Lines()[i]) && Cells(t.Lines()[i]) == 3 {
      assert t.Lines()[i] == t.rows[i - 2];
    }
    TableIsClean(t.Lines());
  }

  lemma GeneratedHasNoTotals(t: Table, header: string)
    requires Titled(t.header) && GenericRows(t.rows) && Titled(header) && t.header[2] != header[2]
    ensures NoTotalsIn(t.Lines())
  {
    RuleFacts(header);
    GenericFacts(t.header, header);
    forall i | 0 <= i < |t.Lines()| ensures NoTotal(t.Lines()[i]) {
      if i >= 2 {
        assert t.Lines()[i] == t.rows[i - 2];
        GenericFacts(t.rows[i - 2], header);
      }
    }
  }

  lemma TextTotalsIff(r: Readme, up: string, suite: string)
    requires r.Sound(up, suite)
    ensures Totals(r.Text()) == [] <==> NoTotalsIn(r.first) && NoTotalsIn(r.second)
  {
    NoTotalsConcat(r.pre, r.first);
    NoTotalsConcat(r.pre + r.first, r.mid);
    NoTotalsConcat(r.pre + r.first + r.mid, r.second);
    NoTotalsConcat(r.pre + r.first + r.mid + r.second, r.post);
    TotalsIff(r.Text());
  }

  lemma InsertTotals(lines: seq<string>, i: nat, row: string)
    requires NoTotalsIn(lines) && i <= |lines|
    ensures NoTotalsIn(Insert(lines, i, row)) <==> NoTotal(row)
  {
    NoTotalsConcat([row], lines[i..]);
    NoTotalsConcat(lines[..i], [row] + lines[i..]);
    assert lines[..i] + ([row] + lines[i..]) == Insert(lines, i, row);
    if NoTotalsIn([row]) {
      assert NoTotal([row][0]);
    }
  }

  /** What surrounds the first table, and what surrounds the second. */
  lemma Frames(r: Readme, up: Table, suite: Table)
    requires Tables(up, suite) && r.Sound(up.header, suite.header)
    ensures Framed(r.pre, up, r.mid + r.second + r.post)
    ensures r.second == suite.Lines() ==> Silent(r.mid + r.second + r.post, up.header)
    ensures r.first == up.Lines() ==> Framed(r.pre + r.first + r.mid, suite, r.post)
    ensures Silent(r.post, suite.header)
    ensures r.Text() == r.pre + r.first + (r.mid + r.second + r.post)
    ensures r.Text() == (r.pre + r.first + r.mid) + r.second + r.post
  {
    TableIsSilent(up, suite.header);
    TableIsSilent(suite, up.header);
    assert (r.mid + r.second + r.post)[0] == r.mid[0];
    if r.second == suite.Lines() {
      SilentConcat(r.mid, r.second, up.header);
      SilentConcat(r.mid + r.second, r.post, up.header);
    }
    if r.first == up.Lines() {
      SilentConcat(r.pre, r.first, suite.header);
      SilentConcat(r.pre + r.first, r.mid, suite.header);
    }
  }

  ghost predicate Holds(r: Readme, up: Table, suite: Table) {
    (forall l :: l in up.Lines() ==> l in r.first) && (forall l :: l in suite.Lines() ==> l in r.second)
  }

  lemma HoldingMissesNothing(r: Readme, up: Table, suite: Table)
    requires Holds(r, up, suite)
    ensures Missing(r.Text(), up.Lines() + [""] + suite.Lines()) == []
  {
    forall l | l in up.Lines() + [""] + suite.Lines() && IsRow(l)
      ensures Somewhere(r.Text(), l)
    {
      assert l in up.Lines() || l in suite.Lines();
      PresentIsSomewhere(r.Text(), l);
    }
    MissingIff(r.Text(), up.Lines() + [""] + suite.Lines());
  }

  /** The generated tables, pasted into sound surroundings, pass all the tests. */
  lemma PastedTablesPass(r: Readme, up: Table, suite: Table)
    requires Tables(up, suite) && r.Sound(up.header, suite.header)
    requires r.first == up.Lines() && r.second == suite.Lines()
    ensures Passes(r.Text(), up, suite)
  {
    Frames(r, up, suite);
    HoldingMissesNothing(r, up, suite);
    IntactIsFresh(r.pre, up, r.mid + r.second + r.post);
    IntactIsFresh(r.pre + r.first + r.mid, suite, r.post);
    GeneratedHasNoTotals(up, suite.header);
    GeneratedHasNoTotals(suite, up.header);
    TextTotalsIff(r, up.header, suite.header);
    GeneratedTableIsClean(up);
    GeneratedTableIsClean(suite);
    ReadmeIsCleanIff(r, up.header, suite.header);
  }

  lemma GeneratedTables(ups: seq<Upstream>, mods: seq<string>, counts: map<string, Count>, mapping: map<string,
      Mapping>)
    requires PlainUps(ups) && PlainMods(mods, counts, mapping)
    ensures Tables(UpTable(ups), SuiteTable(mods, counts, mapping))
  {
    HeadersAreTitled();
    UpTableIsGeneric(ups);
    SuiteTableIsGeneric(mods, counts, mapping);
  }

  /** Generator and check agree, for every count map and every note without a bar. */
  lemma GeneratorAgreesWithCheck(r: Readme, ups: seq<Upstream>, mods: seq<string>,
                                 counts: map<string, Count>, mapping: map<string, Mapping>)
    requires PlainUps(ups) && PlainMods(mods, counts, mapping)
    requires r.Sound(UP_HEADER, SUITE_HEADER)
    requires r.first == UpTable(ups).Lines() && r.second == SuiteTable(mods, counts, mapping).Lines()
    ensures Passes(r.Text(), UpTable(ups), SuiteTable(mods, counts, mapping))
  {
    GeneratedTables(ups, mods, counts, mapping);
    PastedTablesPass(r, UpTable(ups), SuiteTable(mods, counts, mapping));
  }

  /** Where a row of any width leaves the table well formed: above the header it is
      in no table; below the header it replaces the rule, or heads the rows itself;
      further down it is one of the rows. */
  predicate Fits(t: Table, i: nat, row: string) {
    || Cells(row) == 3
    || i == 0
    || (i == 1 && (IsRule(row) || t.rows == []))
  }

  /** A foreign row in the first table passes every test of the check exactly when it
      stands next to the header, carries no totals mark, fits, and does not pose as
      the other header with the first table's rows below it. */
  lemma SplicedIntoFirst(r: Readme, up: Table, suite: Table, i: nat, row: string)
    requires Tables(up, suite) && r.Sound(up.header, suite.header)
    requires IsRow(row) && row !in up.Lines() && i <= |up.Lines()|
    requires r.first == Insert(up.Lines(), i, row) && r.second == suite.Lines()
    ensures Missing(r.Text(), up.Lines() + [""] + suite.Lines()) == []
    ensures Stale(r.Text(), up) == if i >= 2 then [row] else []
    ensures Passes(r.Text(), up, suite) <==>
      i <= 1 && NoTotal(row) && Fits(up, i, row) && !(i == 1 && Poses(row, up, suite))
  {
    Frames(r, up, suite);
    HoldingMissesNothing(r, up, suite);
    StaleIff(r.pre, up, r.mid + r.second + r.post, i, row, r.Text());
    SplicedTotals(r, up, suite, up, i, row);
    SplicedCleanIff(up, i, row);
    GeneratedTableIsClean(suite);
    ReadmeIsCleanIff(r, up.header, suite.header);
    if i == 0 {
      SecondIsFresh(r, up, suite, row);
    } else if i == 1 {
      SecondIsPosedIff(r, up, suite, row);
    }
  }

  /** The row ends in the other table's header, and some row below is not of that table. */
  predicate Poses(row: string, up: Table, suite: Table) {
    EndsWith(row, suite.header) && exists k :: 0 <= k < |up.rows| && up.rows[k] !in suite.Lines()
  }

  /** And in the second table exactly when it stands next to the header or is the
      last line of a README that ends without a line break, carries no totals mark
      and fits. */
  lemma SplicedIntoSecond(r: Readme, up: Table, suite: Table, i: nat, row: string)
    requires Tables(up, suite) && r.Sound(up.header, suite.header)
    requires IsRow(row) && row !in suite.Lines() && i <= |suite.Lines()|
    requires r.first == up.Lines() && r.second == Insert(suite.Lines(), i, row)
    ensures Missing(r.Text(), up.Lines() + [""] + suite.Lines()) == [] && Stale(r.Text(), up) == []
    ensures Stale(r.Text(), suite)
      == if i >= 2 && !(r.post == [] && i == |suite.Lines()|) then [row] else []
    ensures Passes(r.Text(), up, suite) <==>
      (i <= 1 || (r.post == [] && i == |suite.Lines()|)) && NoTotal(row) && Fits(suite, i, row)
  {
    Frames(r, up, suite);
    HoldingMissesNothing(r, up, suite);
    IntactIsFresh(r.pre, up, r.mid + r.second + r.post);
    StaleIff(r.pre + r.first + r.mid, suite, r.post, i, row, r.Text());
    SplicedTotals(r, up, suite, suite, i, row);
    SplicedCleanIff(suite, i, row);
    GeneratedTableIsClean(up);
    ReadmeIsCleanIff(r, up.header, suite.header);
  }

  /** The totals test sees the added row and nothing else. */
  lemma SplicedTotals(r: Readme, up: Table, suite: Table, t: Table, i: nat, row: string)
    requires Tables(up, suite) && r.Sound(up.header, suite.header) && t in {up, suite} && i <= |t.Lines()|
    requires r.first == if t == up then Insert(up.Lines(), i, row) else up.Lines()
    requires r.second == if t == up then suite.Lines() else Insert(suite.Lines(), i, row)
    ensures Totals(r.Text()) == [] <==> NoTotal(row)
  {
    GeneratedHasNoTotals(up, suite.header);
    GeneratedHasNoTotals(suite, up.header);
    InsertTotals(t.Lines(), i, row);
    TextTotalsIff(r, up.header, suite.header);
  }

  /** A row above the first header matches no pattern. */
  lemma SecondIsFresh(r: Readme, up: Table, suite: Table, row: string)
    requires Tables(up, suite) && r.Sound(up.header, suite.header)
    requires r.first == Insert(up.Lines(), 0, row) && r.second == suite.Lines()
    ensures Stale(r.Text(), suite) == []
  {
    var p, s := r.pre + r.first + r.mid, r.Text();
    assert s == p + suite.Lines() + r.post;
    TableIsSilent(up, suite.header);
    GenericFacts(up.header, suite.header);
    assert r.first == [row] + up.Lines();
    forall i | 0 <= i < |p| ensures !MatchAt(s, suite.header, i) {
      var n := |r.pre|;
      if i == n {
        assert s[n + 1] == up.header;
      } else if n < i <= n + |up.Lines()| {
        assert s[i] == up.Lines()[i - n - 1];
      }
    }
    FirstIsFresh(p, suite, r.post, s);
  }

  /** A rule and rows below a line that ends in the header are taken for its table. */
  lemma PosedRows(p: seq<string>, row: string, rows: seq<string>, q: seq<string>, header: string)
    requires Titled(header) && Silent(p, header) && EndsWith(row, header) && GenericRows(rows)
    requires q != [] && !IsRow(q[0])
    ensures Present(p + [row, RULE] + rows + q, header) == rows
  {
    RuleFacts(header);
    NoEarlyMatch(p, [row, RULE] + rows + q, header);
    assert p + ([row, RULE] + rows + q) == p + [row, RULE] + rows + q;
    PresentIs(p, row, RULE, rows, q, header);
  }

  lemma TextAround(r: Readme)
    ensures r.Text() == r.pre + r.first + (r.mid + r.second + r.post)
  {
  }

  lemma Reshaped(p: seq<string>, header: string, row: string, rows: seq<string>, q: seq<string>)
    ensures p + ([header, row, RULE] + rows) + q == (p + [header]) + [row, RULE] + rows + q
  {
  }

  /** So a row between the first header and its rule that ends in the second header
      has the first table's rows compared with the second table. */
  lemma SecondIsPosed(r: Readme, up: Table, suite: Table, row: string)
    requires Tables(up, suite) && r.Sound(up.header, suite.header) && EndsWith(row, suite.header)
    requires r.first == Insert(up.Lines(), 1, row) && r.second == suite.Lines()
    ensures Present(r.Text(), suite.header) == up.rows
  {
    var p, q := r.pre + [up.header], r.mid + r.second + r.post;
    GenericFacts(up.header, suite.header);
    SilentConcat(r.pre, [up.header], suite.header);
    PosedRows(p, row, up.rows, q, suite.header);
    TextAround(r);
    assert r.first == [up.header, row, RULE] + up.rows;
    Reshaped(r.pre, up.header, row, up.rows, q);
  }

  lemma SecondIsAlone(r: Readme, up: Table, suite: Table, row: string)
    requires Tables(up, suite) && r.Sound(up.header, suite.header) && !EndsWith(row, suite.header)
    requires r.first == Insert(up.Lines(), 1, row) && r.second == suite.Lines()
    ensures Stale(r.Text(), suite) == []
  {
    TableIsSilent(up, suite.header);
    forall i | 0 <= i < |r.first| ensures !EndsWith(r.first[i], suite.header) {
      assert i != 1 ==> r.first[i] == up.Lines()[if i == 0 then 0 else i - 1];
    }
    SilentConcat(r.pre, r.first, suite.header);
    SilentConcat(r.pre + r.first, r.mid, suite.header);
    assert r.Text() == (r.pre + r.first + r.mid) + suite.Lines() + r.post;
    IntactIsFresh(r.pre + r.first + r.mid, suite, r.post);
  }

  /** A row between the first header and its rule may be taken for the second header. */
  lemma SecondIsPosedIff(r: Readme, up: Table, suite: Table, row: string)
    requires Tables(up, suite) && r.Sound(up.header, suite.header)
    requires r.first == Insert(up.Lines(), 1, row) && r.second == suite.Lines()
    ensures Stale(r.Text(), suite) == [] <==> !Poses(row, up, suite)
  {
    if EndsWith(row, suite.header) {
      SecondIsPosed(r, up, suite, row);
      StrangersNone(up.rows, suite.Lines());
    } else {
      SecondIsAlone(r, up, suite, row);
    }
  }

  lemma SplicedCells(t: Table, i: nat, row: string)
    requires Titled(t.header) && GenericRows(t.rows) && IsRow(row) && i <= |t.Lines()|
    ensures var s := Insert(t.Lines(), i, row);
      AllRows(s) && forall j :: 0 <= j < |s| && j != i ==> Cells(s[j]) == 3
  {
    var s := Insert(t.Lines(), i, row);
    forall j | 0 <= j < |s| ensures IsRow(s[j]) && (j != i ==> Cells(s[j]) == 3) {
      if j < i {
        LinesHaveThreeCells(t, j);
      } else if j > i {
        LinesHaveThreeCells(t, j - 1);
      }
    }
  }

  /** The table with the row in it is well formed exactly where the row fits. */
  lemma SplicedCleanIff(t: Table, i: nat, row: string)
    requires Titled(t.header) && GenericRows(t.rows) && IsRow(row) && i <= |t.Lines()|
    ensures AllRows(Insert(t.Lines(), i, row))
    ensures Clean(Insert(t.Lines(), i, row)) <==> Fits(t, i, row)
  {
    SplicedCells(t, i, row);
    if Cells(row) == 3 {
      EqualWidthsAreClean(Insert(t.Lines(), i, row));
    } else {
      OddSplicedCleanIff(t, i, row);
    }
  }

  lemma OddSplicedCleanIff(t: Table, i: nat, row: string)
    requires Titled(t.header) && GenericRows(t.rows) && IsRow(row) && i <= |t.Lines()| && Cells(row) != 3
    ensures Clean(Insert(t.Lines(), i, row)) <==> i == 0 || (i == 1 && (IsRule(row) || t.rows == []))
  {
    var s := Insert(t.Lines(), i, row);
    SplicedCells(t, i, row);
    RuleFacts(t.header);
    assert s[i] == row && |s| == |t.rows| + 3;
    if i == 0 {
      assert s[1] == t.header && s[2] == RULE;
      assert t.header[2] !in {'-', ':', ' ', '|'};
      LooseRowIsClean(s);
    } else if i == 1 {
      assert s[2] == RULE;
      OddSecondLineIff(s);
    } else {
      assert s[0] == t.header && s[1] == RULE;
      OddRowIsBad(s, i);
    }
  }

  /** No line below another header of the same stretch is a header. */
  lemma LaterIsNoHead(s: seq<string>, k: int, h: int)
    requires AllRows(s) && 0 <= k < h < |s| && IsRule(s[k + 1])
    ensures !Heads(s, h)
  {
    assert Unbroken(s, k, h);
  }

  lemma OddRowIsBad(s: seq<string>, i: int)
    requires AllRows(s) && 2 <= i < |s| && IsRule(s[1]) && Cells(s[i]) != Cells(s[0])
    ensures !Clean(s)
  {
    assert s[..0] == [];
    assert Unbroken(s, 0, i);
    assert Bad(s, 0, i);
  }

  lemma LooseRowIsClean(s: seq<string>)
    requires |s| >= 3 && AllRows(s) && !IsRule(s[1]) && IsRule(s[2])
    requires forall j :: 1 <= j < |s| ==> Cells(s[j]) == 3
    ensures Clean(s)
  {
    forall h, j ensures !Bad(s, h, j) {
      if 1 < h < |s| {
        LaterIsNoHead(s, 1, h);
      }
    }
  }

  lemma OddSecondLineIff(s: seq<string>)
    requires |s| >= 3 && AllRows(s) && IsRule(s[2])
    requires forall j :: 0 <= j < |s| ==> (Cells(s[j]) == 3 <==> j != 1)
    ensures Clean(s) <==> IsRule(s[1]) || |s| == 3
  {
    if IsRule(s[1]) {
      TableIsClean(s);
    } else {
      forall h, j ensures Bad(s, h, j) ==> h == 1 && j > 2 {
        if 1 < h < |s| {
          LaterIsNoHead(s, 1, h);
        }
      }
      if |s| > 3 {
        RowsFenceNothing(s[..1]);
        assert Unbroken(s, 1, 3);
        assert Bad(s, 1, 3);
      }
    }
  }

  lemma LinesHaveThreeCells(t: Table, j: nat)
    requires Titled(t.header) && GenericRows(t.rows) && j < |t.Lines()|
    ensures IsRow(t.Lines()[j]) && Cells(t.Lines()[j]) == 3
  {
    if j == 1 {
      RuleHasThreeCells();
      RuleFacts(t.header);
    } else if j >= 2 {
      assert t.Lines()[j] == t.rows[j - 2];
    }
  }

  lemma EqualWidthsAreClean(s: seq<string>)
    requires forall i :: 0 <= i < |s| ==> Cells(s[i]) == 3
    ensures Clean(s)
  {
  }

  lemma RuleHasThreeCells()
    ensures Cells(RULE) == 3
  {
    BarredHasThreeCells("---", "---:", "---");
    assert RULE == "|" + ("---" + "|" + "---:" + "|" + "---" + "|");
  }

  lemma BarredHasThreeCells(a: string, b: string, c: string)
    requires '|' !in a && '|' !in b && '|' !in c && a != "" && c != ""
    ensures Cells("|" + (a + "|" + b + "|" + c + "|")) == 3
  {
    var inner := a + "|" + b + "|" + c;
    var s := "|" + (inner + "|");
    assert s[|s| - 1] == '|' && Strip(s) == s;
    assert inner[0] == a[0] && inner[|inner| - 1] == c[|c| - 1];
    assert s[1..] == inner + "|" && LTrim(s, '|') == inner + "|";
    assert (inner + "|")[..|inner|] == inner && RTrim(inner + "|", '|') == inner;
    OccurrencesNone(a, '|');
    OccurrencesNone(b, '|');
    OccurrencesNone(c, '|');
    OccurrencesConcat(a + "|" + b + "|", c, '|');
    OccurrencesConcat(a + "|" + b, "|", '|');
    OccurrencesConcat(a + "|", b, '|');
    OccurrencesConcat(a, "|", '|');
  }

  lemma BlankIsQuiet(up: string, suite: string)
    requires Titled(up) && Titled(suite)
    ensures Quiet([], up, suite) && Quiet([""], up, suite) && !Fenced([]) && !Fenced([""])
  {
    assert Fences([""]) == Fences([""][..0]) == 0;
    assert |"| **Total"| > 0;
  }

  lemma PlainRowIsForeign(row: string, t: Table)
    requires Titled(t.header) && GenericRows(t.rows)
    requires |row| > 2 && 'a' <= row[2] <= 'z'
    ensures row !in t.Lines() && NoTotal(row)
  {
    assert RULE[2] == '-' && "| **Total"[2] == '*';
  }

  /** So for any two generated tables there is a README that holds a row nobody
      generated and passes: the row stands between the second header and its rule. */
  lemma UnnoticedRow(up: Table, suite: Table, a: string, b: string, c: string)
    requires Tables(up, suite)
    requires PlainText(a) && PlainText(b) && PlainText(c) && a != "" && 'a' <= a[0] <= 'z'
    ensures var row := Row(a, b, c);
      && row !in up.Lines() && row !in suite.Lines()
      && Passes(up.Lines() + [""] + [suite.header, row] + suite.Lines()[1..] + [""], up, suite)
  {
    var row := Row(a, b, c);
    RowHasThreeCells(a, b, c);
    RowStart(a, b, c);
    PlainRowIsForeign(row, up);
    PlainRowIsForeign(row, suite);
    BlankIsQuiet(up.header, suite.header);
    var r := Readme([], up.Lines(), [""], Insert(suite.Lines(), 1, row), [""]);
    assert r.Text() == up.Lines() + [""] + [suite.header, row] + suite.Lines()[1..] + [""];
    SplicedIntoSecond(r, up, suite, 1, row);
  }
}
