/** The verdict over a suite: outcomes from the report, coverage of the test files,
    and the loop that turns unexecuted checks into findings. */
module AssertionVerdict {
  import opened AssertionChecks

  datatype Result = Passed | Failed | Errored | Skipped
  datatype Tag = FailureTag | ErrorTag | SkippedTag | OtherTag

  /** The first child that says something decides; a case without one passed. */
  function ResultOf(tags: seq<Tag>): Result {
    if tags == [] then Passed
    else match tags[0]
      case FailureTag => Failed
      case ErrorTag => Errored
      case SkippedTag => Skipped
      case OtherTag => ResultOf(tags[1..])
  }

  /** The tag that names a result. */
  function TagOf(r: Result): Tag {
    match r
    case Passed => OtherTag
    case Failed => FailureTag
    case Errored => ErrorTag
    case Skipped => SkippedTag
  }

  /** A case passed if and only if none of its children is a failure, an error or a
      skip; otherwise the first of those names its result. */
  lemma {:induction false} ResultIff(tags: seq<Tag>)
    ensures ResultOf(tags) == Passed <==> forall i :: 0 <= i < |tags| ==> tags[i] == OtherTag
    ensures ResultOf(tags) != Passed ==> exists i :: FirstTelling(tags, i) && tags[i] == TagOf(ResultOf(tags))
  {
    if tags != [] && tags[0] == OtherTag {
      var rest := tags[1..];
      ResultIff(rest);
      assert forall i :: 0 <= i < |rest| ==> rest[i] == tags[i + 1];
      if i :| FirstTelling(rest, i) && rest[i] == TagOf(ResultOf(rest)) {
        assert forall j :: 0 < j < i + 1 ==> tags[j] == rest[j - 1];
        assert FirstTelling(tags, i + 1);
      }
    } else if tags != [] {
      assert FirstTelling(tags, 0);
    }
  }

  predicate FirstTelling(tags: seq<Tag>, i: int) {
    0 <= i < |tags| && tags[i] != OtherTag && forall j :: 0 <= j < i ==> tags[j] == OtherTag
  }

  ghost predicate LastOfItsName(cases: seq<(string, seq<Tag>)>, i: int) {
    0 <= i < |cases| && forall j :: i < j < |cases| ==> cases[j].0 != cases[i].0
  }

  /** One case of the report: the first child that says something decides. */
  method Outcome(tags: seq<Tag>) returns (kind: Result)
    ensures kind == ResultOf(tags)
  {
    kind := Passed;
    for k := 0 to |tags|
      invariant ResultOf(tags[k..]) == ResultOf(tags)
    {
      if tags[k] != OtherTag {
        return match tags[k] case FailureTag => Failed case ErrorTag => Errored case _ => Skipped;
      }
    }
  }

  /** The first `n` cases are in the map, each name with the result of its last one. */
  ghost predicate Recorded(cases: seq<(string, seq<Tag>)>, n: nat, out: map<string, Result>)
    requires n <= |cases|
  {
    && out.Keys == (set i | 0 <= i < n :: cases[i].0)
    && forall i :: LastOfItsName(cases[..n], i) ==> out[cases[i].0] == ResultOf(cases[i].1)
  }

  lemma RecordNext(cases: seq<(string, seq<Tag>)>, n: nat, out: map<string, Result>, kind: Result)
    requires n < |cases| && Recorded(cases, n, out) && kind == ResultOf(cases[n].1)
    ensures Recorded(cases, n + 1, out[cases[n].0 := kind])
  {
    var next := out[cases[n].0 := kind];
    forall j | LastOfItsName(cases[..n + 1], j) ensures next[cases[j].0] == ResultOf(cases[j].1) {
      if j < n {
        LastBefore(cases, n, j);
      }
    }
  }

  /** The report as a map: of several cases with one name, the last one counts. */
  method Outcomes(cases: seq<(string, seq<Tag>)>) returns (out: map<string, Result>)
    ensures out.Keys == set i | 0 <= i < |cases| :: cases[i].0
    ensures forall i :: LastOfItsName(cases, i) ==> out[cases[i].0] == ResultOf(cases[i].1)
  {
    out := map[];
    for i := 0 to |cases|
      invariant Recorded(cases, i, out)
    {
      var kind := Outcome(cases[i].1);
      RecordNext(cases, i, out, kind);
      out := out[cases[i].0 := kind];
    }
    assert cases[..|cases|] == cases;
  }

  lemma LastBefore(cases: seq<(string, seq<Tag>)>, i: nat, j: nat)
    requires j < i < |cases| && LastOfItsName(cases[..i + 1], j)
    ensures LastOfItsName(cases[..i], j) && cases[j].0 != cases[i].0
  {
    assert cases[..i + 1][i] == cases[i] && cases[..i + 1][j] == cases[j];
    assert forall k :: 0 <= k < i ==> cases[..i][k] == cases[..i + 1][k];
  }

  datatype Top = Top(file: string, isFunction: bool, name: string, body: Node)

  datatype Suspect = Suspect(file: string, name: string, line: int, kind: CheckKind)

  /** The suite as the script finds it: its top-level nodes file by file, the
      outcomes, the executed lines of each file, and the tests excused by name. */
  datatype Suite = Suite(
    tops: seq<Top>, results: map<string, Result>, executed: map<string, set<int>>, excused: set<(string, string)>)

  predicate IsTest(t: Top) { t.isFunction && "test_" <= t.name }

  /** The report's entries for a test: its own name, or its name and a parameter. */
  predicate CaseOf(k: string, name: string) { k == name || name + "[" <= k }

  ghost predicate Ran(s: Suite, name: string) {
    exists k :: k in s.results && CaseOf(k, name)
  }

  ghost predicate AllPassed(s: Suite, name: string) {
    Ran(s, name) && forall k :: k in s.results && CaseOf(k, name) ==> s.results[k] == Passed
  }

  /** A test is judged when it passed in every case and its file was measured. */
  ghost predicate Judged(s: Suite, t: Top) {
    IsTest(t) && AllPassed(s, t.name) && t.file in s.executed
  }

  predicate Missed(s: Suite, t: Top, f: Found) {
    t.file in s.executed && f.kind != Failing && f.line !in s.executed[t.file]
  }

  predicate Suspicious(s: Suite, t: Top, f: Found) {
    Missed(s, t, f) && !f.guarded && (t.file, t.name) !in s.excused
  }

  function SuspectsIn(s: Suite, t: Top, fs: seq<Found>): seq<Suspect> {
    if fs == [] then []
    else
      var f := fs[|fs| - 1];
      SuspectsIn(s, t, fs[..|fs| - 1])
      + if Suspicious(s, t, f) then [Suspect(t.file, t.name, f.line, f.kind)] else []
  }

  ghost function SuspectsOf(s: Suite, t: Top): seq<Suspect> {
    if Judged(s, t) then SuspectsIn(s, t, Walk(t.body, false)) else []
  }

  ghost function AllSuspects(s: Suite, tops: seq<Top>): seq<Suspect> {
    if tops == [] then []
    else AllSuspects(s, tops[..|tops| - 1]) + SuspectsOf(s, tops[|tops| - 1])
  }

  lemma {:induction false} SuspectsInStep(s: Suite, t: Top, fs: seq<Found>, i: nat)
    requires i < |fs|
    ensures SuspectsIn(s, t, fs[..i + 1]) == SuspectsIn(s, t, fs[..i])
      + if Suspicious(s, t, fs[i]) then [Suspect(t.file, t.name, fs[i].line, fs[i].kind)] else []
  {
    assert fs[..i + 1][..i] == fs[..i];
  }

  lemma {:induction false} NothingMissed(s: Suite, t: Top, fs: seq<Found>)
    requires forall i :: 0 <= i < |fs| ==> !Missed(s, t, fs[i])
    ensures SuspectsIn(s, t, fs) == []
  {
    if fs != [] {
      NothingMissed(s, t, fs[..|fs| - 1]);
    }
  }

  /** One test: its suspects, or none when it is not judged or missed nothing. */
  method JudgeTest(s: Suite, t: Top) returns (suspects: seq<Suspect>)
    ensures suspects == SuspectsOf(s, t)
  {
    suspects := [];
    if !IsTest(t) {
      return;
    }
    var cases := set k | k in s.results && CaseOf(k, t.name);
    assert forall k :: k in s.results && CaseOf(k, t.name) ==> k in cases;
    if cases == {} {
      return;
    }
    if exists k :: k in cases && s.results[k] != Passed {
      return;
    }
    assert AllPassed(s, t.name) by {
      var k :| k in cases;
      assert CaseOf(k, t.name);
      forall k | k in s.results && CaseOf(k, t.name) ensures s.results[k] == Passed {
        assert k in cases;
      }
    }
    if t.file !in s.executed {
      return;
    }
    var found := ChecksIn(t.body);
    if forall i :: 0 <= i < |found| ==> !Missed(s, t, found[i]) {
      NothingMissed(s, t, found);
      return;
    }
    for i := 0 to |found|
      invariant suspects == SuspectsIn(s, t, found[..i])
    {
      SuspectsInStep(s, t, found, i);
      if Missed(s, t, found[i]) && !(found[i].guarded || (t.file, t.name) in s.excused) {
        suspects := suspects + [Suspect(t.file, t.name, found[i].line, found[i].kind)];
      }
    }
    assert found[..|found|] == found;
  }

  /** The script's result: 2 when there is nothing to judge by, 1 for a finding, 0 otherwise. */
  method Verdict(s: Suite, measured: bool) returns (code: int, suspicious: seq<Suspect>)
    ensures suspicious == if measured && s.results != map[] then AllSuspects(s, s.tops) else []
    ensures code == 2 <==> !measured || s.results == map[]
    ensures code != 2 ==> (code == if suspicious != [] then 1 else 0)
  {
    suspicious := [];
    if !measured || s.results == map[] {
      return 2, [];
    }
    for i := 0 to |s.tops|
      invariant suspicious == AllSuspects(s, s.tops[..i])
    {
      assert s.tops[..i + 1][..i] == s.tops[..i];
      var more := JudgeTest(s, s.tops[i]);
      suspicious := suspicious + more;
    }
    assert s.tops[..|s.tops|] == s.tops;
    code := if suspicious != [] then 1 else 0;
  }

  // ---------------------------------------------------------------- what a finding means

  /** Somewhere below the test, on a path no edge of which may be skipped, stands a
      check other than a fail call on a line that was never executed. */
  ghost predicate Unreached(s: Suite, t: Top, p: Path) {
    && t.file in s.executed
    && p != [] && IsPath(t.body, p) && !Guarded(t.body, p)
    && var n := NodeAt(t.body, p);
       (n.kind == Assert || (n.kind.Call? && n.kind.name in WAITERS)) && n.line !in s.executed[t.file]
  }

  /** What it takes to fail the suite: a test that passed, is not excused, and has
      such a check. */
  ghost predicate Convicts(s: Suite, t: Top, p: Path) {
    Judged(s, t) && (t.file, t.name) !in s.excused && Unreached(s, t, p)
  }

  lemma {:induction false} SuspectIffFound(s: Suite, t: Top, fs: seq<Found>, x: Suspect)
    ensures x in SuspectsIn(s, t, fs) <==>
      exists i :: 0 <= i < |fs| && Suspicious(s, t, fs[i]) && x == Suspect(t.file, t.name, fs[i].line, fs[i].kind)
  {
    if fs != [] {
      var n := |fs| - 1;
      SuspectIffFound(s, t, fs[..n], x);
      if i :| 0 <= i < |fs| && Suspicious(s, t, fs[i]) && x == Suspect(t.file, t.name, fs[i].line, fs[i].kind) {
        if i < n {
          assert fs[..n][i] == fs[i];
        }
      }
      if x in SuspectsIn(s, t, fs[..n]) {
        var i :| 0 <= i < n && Suspicious(s, t, fs[..n][i])
          && x == Suspect(t.file, t.name, fs[..n][i].line, fs[..n][i].kind);
        assert fs[..n][i] == fs[i];
      }
    }
  }

  lemma ConvictedIsFound(s: Suite, t: Top, p: Path)
    requires Convicts(s, t, p)
    ensures SuspectsOf(s, t) != []
  {
    var fs := Walk(t.body, false);
    var f := Entry(NodeAt(t.body, p), false)[0];
    assert Reports(t.body, p, f);
    WalkReports(t.body, f);
    var i :| 0 <= i < |fs| && fs[i] == f;
    SuspectIffFound(s, t, fs, Suspect(t.file, t.name, f.line, f.kind));
  }

  lemma FindingMeans(s: Suite, t: Top)
    ensures SuspectsOf(s, t) != [] <==> exists p :: Convicts(s, t, p)
  {
    var fs := Walk(t.body, false);
    if SuspectsOf(s, t) != [] {
      SuspectIffFound(s, t, fs, SuspectsOf(s, t)[0]);
      var i :| 0 <= i < |fs| && Suspicious(s, t, fs[i]);
      WalkReports(t.body, fs[i]);
      var p :| Reports(t.body, p, fs[i]);
      assert Convicts(s, t, p);
    }
    if p :| Convicts(s, t, p) {
      ConvictedIsFound(s, t, p);
    }
  }

  lemma {:induction false} AllSuspectsEmpty(s: Suite, tops: seq<Top>)
    ensures AllSuspects(s, tops) == [] <==> forall i :: 0 <= i < |tops| ==> SuspectsOf(s, tops[i]) == []
  {
    if tops != [] {
      AllSuspectsEmpty(s, tops[..|tops| - 1]);
    }
  }

  /** The script fails a suite exactly when some test that passed, and is not
      excused, has a check on an unconditional path that never ran. */
  lemma FailsIff(s: Suite)
    ensures AllSuspects(s, s.tops) != [] <==>
      exists i, p :: 0 <= i < |s.tops| && Convicts(s, s.tops[i], p)
  {
    AllSuspectsEmpty(s, s.tops);
    if AllSuspects(s, s.tops) != [] {
      var i :| 0 <= i < |s.tops| && SuspectsOf(s, s.tops[i]) != [];
      FindingMeans(s, s.tops[i]);
      var p :| Convicts(s, s.tops[i], p);
    }
    if i, p :| 0 <= i < |s.tops| && Convicts(s, s.tops[i], p) {
      FindingMeans(s, s.tops[i]);
    }
  }

  /** Whom the script spares: what is not a function named test_, a test the report
      does not list, and a test one of whose cases, under its own name or under its
      name and a parameter, did not pass. */
  lemma Spared(s: Suite, t: Top, parameter: string)
    requires || !t.isFunction || !("test_" <= t.name)
             || (forall k :: k in s.results ==> k != t.name && !(t.name + "[" <= k))
             || (t.name in s.results && s.results[t.name] != Passed)
             || (t.name + "[" + parameter in s.results && s.results[t.name + "[" + parameter] != Passed)
    ensures SuspectsOf(s, t) == []
  {
    assert t.name + "[" <= t.name + "[" + parameter;
    assert CaseOf(t.name + "[" + parameter, t.name) && CaseOf(t.name, t.name);
  }

  /** More executed lines in the files that were measured. */
  ghost predicate Wider(s: Suite, w: Suite) {
    && w == s.(executed := w.executed)
    && w.executed.Keys == s.executed.Keys
    && forall f :: f in s.executed ==> s.executed[f] <= w.executed[f]
  }

  /** Executing more never adds a finding. */
  lemma {:induction false} MoreExecutedFewerFindings(s: Suite, w: Suite, tops: seq<Top>, x: Suspect)
    requires Wider(s, w) && x in AllSuspects(w, tops)
    ensures x in AllSuspects(s, tops)
  {
    var t := tops[|tops| - 1];
    if x in SuspectsOf(w, t) {
      var fs := Walk(t.body, false);
      SuspectIffFound(w, t, fs, x);
      SuspectIffFound(s, t, fs, x);
      var i :| 0 <= i < |fs| && Suspicious(w, t, fs[i]) && x == Suspect(t.file, t.name, fs[i].line, fs[i].kind);
      assert Suspicious(s, t, fs[i]);
      SameJudgement(s, w, t);
    } else {
      MoreExecutedFewerFindings(s, w, tops[..|tops| - 1], x);
    }
  }

  lemma SameJudgement(s: Suite, w: Suite, t: Top)
    requires Wider(s, w)
    ensures Judged(s, t) <==> Judged(w, t)
  {
    assert Ran(s, t.name) <==> Ran(w, t.name);
  }
}
