/** The counter of collectible test cases: which definitions of a module count,
    how many cases each stands for, and when the module is refused. */
module Collector {
  import opened Basics
  import opened Text

  /** A literal either has a length or has none. */
  datatype Literal = Sized(len: nat) | Unsized

  /** The second argument of a parametrize decorator. */
  datatype Values = Written(lit: Literal) | Named(id: string) | Computed

  datatype Decorator = Plain | FewArguments | Parametrize(values: Values)

  datatype Def = Def(name: string, decorators: seq<Decorator>, source: string, skip: bool)

  datatype Member = Method(def: Def) | OtherMember

  /** A top-level statement; an assignment carries its literal, if it is one. */
  datatype Node =
    | Function(def: Def)
    | Class(name: string, body: seq<Member>)
    | Assign(target: string, value: Option<Literal>)
    | Statement

  type Consts = map<string, Literal>

  function Constants(tree: seq<Node>): Consts {
    if tree == [] then map[]
    else
      var before := Constants(tree[..|tree| - 1]);
      match tree[|tree| - 1]
      case Assign(t, Some(lit)) => before[t := lit]
      case _ => before
  }

  /** How many cases one decorator stands for; None when the code would raise,
      which is when a named constant has no length. */
  function Multiplier(d: Decorator, consts: Consts): Option<nat> {
    match d
    case Plain => Some(1)
    case FewArguments => Some(1)
    case Parametrize(Written(Sized(n))) => Some(AtLeastOne(n))
    case Parametrize(Named(id)) =>
      if id !in consts then Some(1)
      else if consts[id].Sized? then Some(AtLeastOne(consts[id].len))
      else None
    case Parametrize(_) => Some(1)
  }

  function AtLeastOne(n: nat): nat { if n < 1 then 1 else n }

  function Product(ds: seq<Decorator>, consts: Consts): Option<nat> {
    if ds == [] then Some(1)
    else
      var before, m := Product(ds[..|ds| - 1], consts), Multiplier(ds[|ds| - 1], consts);
      if before.None? || m.None? then None else Some(before.value * m.value)
  }

  // -------------------------------------------------------- the definitions that count

  predicate IsTest(d: Def) { "test_" <= d.name }

  /** A definition under the name pytest would know it by. */
  datatype Qualified = Qualified(name: string, def: Def)

  function Methods(class_: string, body: seq<Member>): seq<Qualified> {
    if body == [] then []
    else
      var last := body[|body| - 1];
      Methods(class_, body[..|body| - 1])
      + if last.Method? && IsTest(last.def) then [Qualified(class_ + "::" + last.def.name, last.def)] else []
  }

  function Definitions(n: Node): seq<Qualified> {
    match n
    case Function(d) => if IsTest(d) then [Qualified(d.name, d)] else []
    case Class(name, body) => if "Test" <= name then Methods(name, body) else []
    case _ => []
  }

  function AllDefinitions(tree: seq<Node>): seq<Qualified> {
    if tree == [] then []
    else AllDefinitions(tree[..|tree| - 1]) + Definitions(tree[|tree| - 1])
  }

  // ------------------------------------------------------------------------ the cases

  datatype Case = Case(name: string, def: Def)

  function CaseName(qual: string, i: nat): string { qual + "[" + Ntoa(i) + "]" }

  function Expand(q: Qualified, mult: nat): (cases: seq<Case>)
    ensures |cases| == mult
  {
    if mult == 1 then [Case(q.name, q.def)]
    else seq(mult, i requires 0 <= i < mult => Case(CaseName(q.name, i), q.def))
  }

  function Cases(defs: seq<Qualified>, consts: Consts): Option<seq<Case>> {
    if defs == [] then Some([])
    else
      var q := defs[|defs| - 1];
      var before, mult := Cases(defs[..|defs| - 1], consts), Product(q.def.decorators, consts);
      if before.None? || mult.None? then None else Some(before.value + Expand(q, mult.value))
  }

  // ---------------------------------------------------------------- shadowed definitions

  /** The name is defined more than once. */
  ghost predicate Twice(defs: seq<Qualified>, name: string) {
    exists i, j :: 0 <= i < j < |defs| && defs[i].name == name && defs[j].name == name
  }

  ghost predicate Distinct(defs: seq<Qualified>) {
    forall i, j :: 0 <= i < j < |defs| ==> defs[i].name != defs[j].name
  }

  datatype Outcome = Raised | Shadowed(names: seq<string>) | Collected(cases: seq<Case>)

  /** What `add` appends for one definition, or nothing when a decorator raises. */
  method AddCases(out: seq<Case>, q: Qualified, consts: Consts) returns (r: Option<seq<Case>>)
    ensures r == match Product(q.def.decorators, consts)
                 case None => None
                 case Some(m) => Some(out + Expand(q, m))
  {
    var mult := 1;
    var ds := q.def.decorators;
    for i := 0 to |ds|
      invariant Product(ds[..i], consts) == Some(mult)
    {
      assert ds[..i + 1][..i] == ds[..i];
      var m := Multiplier(ds[i], consts);
      if m.None? {
        ProductRaises(ds, i + 1, consts);
        return None;
      }
      mult := mult * m.value;
    }
    assert ds[..|ds|] == ds;
    r := Some(out + Expand(q, mult));
  }

  lemma {:induction false} ProductRaises(ds: seq<Decorator>, i: nat, consts: Consts)
    requires i <= |ds| && Product(ds[..i], consts).None?
    ensures Product(ds, consts).None?
    decreases |ds|
  {
    if i < |ds| {
      assert ds[..|ds| - 1][..i] == ds[..i];
      ProductRaises(ds[..|ds| - 1], i, consts);
    } else {
      assert ds[..i] == ds;
    }
  }

  lemma {:induction false} CasesRaise(defs: seq<Qualified>, more: seq<Qualified>, consts: Consts)
    requires Cases(defs, consts).None?
    ensures Cases(defs + more, consts).None?
  {
    if more == [] {
      assert defs + more == defs;
    } else {
      assert (defs + more)[..|defs + more| - 1] == defs + more[..|more| - 1];
      CasesRaise(defs, more[..|more| - 1], consts);
    }
  }

  /** A parametrize that names a constant without a length. */
  predicate Unmeasurable(d: Decorator, consts: Consts) {
    d.Parametrize? && d.values.Named? && d.values.id in consts && consts[d.values.id].Unsized?
  }

  predicate Breaks(d: Def, consts: Consts) {
    exists k :: 0 <= k < |d.decorators| && Unmeasurable(d.decorators[k], consts)
  }

  lemma {:induction false} ProductRaisesIff(ds: seq<Decorator>, consts: Consts)
    ensures Product(ds, consts).None? <==> exists k :: 0 <= k < |ds| && Unmeasurable(ds[k], consts)
  {
    if ds != [] {
      var m := |ds| - 1;
      ProductRaisesIff(ds[..m], consts);
      assert Multiplier(ds[m], consts).None? <==> Unmeasurable(ds[m], consts);
      if k :| 0 <= k < m && Unmeasurable(ds[k], consts) {
        assert Unmeasurable(ds[..m][k], consts);
      }
      if k :| 0 <= k < m && Unmeasurable(ds[..m][k], consts) {
        assert Unmeasurable(ds[k], consts);
      }
    }
  }

  /** The code raises exactly when some definition that counts has such a decorator. */
  lemma {:induction false} RaisesIff(defs: seq<Qualified>, consts: Consts)
    ensures Cases(defs, consts).None? <==> exists i :: 0 <= i < |defs| && Breaks(defs[i].def, consts)
  {
    if defs != [] {
      var m := |defs| - 1;
      RaisesIff(defs[..m], consts);
      ProductRaisesIff(defs[m].def.decorators, consts);
      if i :| 0 <= i < m && Breaks(defs[i].def, consts) {
        assert Breaks(defs[..m][i].def, consts);
      }
      if i :| 0 <= i < m && Breaks(defs[..m][i].def, consts) {
        assert Breaks(defs[i].def, consts);
      }
    }
  }

  lemma CasesNext(defs: seq<Qualified>, q: Qualified, consts: Consts)
    ensures Cases(defs + [q], consts) ==
      match (Cases(defs, consts), Product(q.def.decorators, consts))
      case (Some(before), Some(m)) => Some(before + Expand(q, m))
      case _ => None
  {
    assert (defs + [q])[..|defs|] == defs;
  }

  lemma ClassRaises(class_: string, body: seq<Member>, j: nat, defs: seq<Qualified>, consts: Consts)
    requires j <= |body| && Cases(defs + Methods(class_, body[..j]), consts).None?
    ensures Cases(defs + Methods(class_, body), consts).None?
  {
    MethodsSplit(class_, body, j);
    var after :| Methods(class_, body) == Methods(class_, body[..j]) + after;
    CasesRaise(defs + Methods(class_, body[..j]), after, consts);
    assert defs + Methods(class_, body[..j]) + after == defs + Methods(class_, body);
  }

  lemma MethodsNext(class_: string, body: seq<Member>, j: nat, defs: seq<Qualified>)
    requires j < |body|
    ensures var m := body[j];
      defs + Methods(class_, body[..j + 1])
        == if m.Method? && IsTest(m.def)
           then defs + Methods(class_, body[..j]) + [Qualified(class_ + "::" + m.def.name, m.def)]
           else defs + Methods(class_, body[..j])
  {
    assert body[..j + 1][..j] == body[..j];
  }

  /** The test methods of one class. */
  method CollectClass(out: seq<Case>, class_: string, body: seq<Member>, consts: Consts, ghost defs: seq<Qualified>)
    returns (r: Option<seq<Case>>)
    requires Cases(defs, consts) == Some(out)
    ensures r == Cases(defs + Methods(class_, body), consts)
  {
    var cases := out;
    assert defs + Methods(class_, body[..0]) == defs;
    for j := 0 to |body|
      invariant Cases(defs + Methods(class_, body[..j]), consts) == Some(cases)
    {
      MethodsNext(class_, body, j, defs);
      var m := body[j];
      ghost var soFar := defs + Methods(class_, body[..j]);
      if m.Method? && IsTest(m.def) {
        var q := Qualified(class_ + "::" + m.def.name, m.def);
        CasesNext(soFar, q, consts);
        var more := AddCases(cases, q, consts);
        if more.None? {
          ClassRaises(class_, body, j + 1, defs, consts);
          return None;
        }
        cases := more.value;
      }
    }
    assert body[..|body|] == body;
    r := Some(cases);
  }

  /** The first pass over the module: the cases, in order of definition. */
  method CollectCases(tree: seq<Node>) returns (r: Option<seq<Case>>)
    ensures r == Cases(AllDefinitions(tree), Constants(tree))
  {
    var consts := Constants(tree);
    var out: seq<Case> := [];
    for i := 0 to |tree|
      invariant Cases(AllDefinitions(tree[..i]), consts) == Some(out)
    {
      AllDefinitionsNext(tree, i);
      ghost var defs := AllDefinitions(tree[..i]);
      var n := tree[i];
      var more := Some(out);
      if n.Function? && IsTest(n.def) {
        CasesNext(defs, Qualified(n.def.name, n.def), consts);
        more := AddCases(out, Qualified(n.def.name, n.def), consts);
      } else if n.Class? && "Test" <= n.name {
        more := CollectClass(out, n.name, n.body, consts, defs);
      } else {
        assert AllDefinitions(tree[..i + 1]) == defs;
      }
      if more.None? {
        AllDefinitionsRaise(tree, i + 1, consts);
        return None;
      }
      out := more.value;
    }
    assert tree[..|tree|] == tree;
    r := Some(out);
  }

  lemma AllDefinitionsNext(tree: seq<Node>, i: nat)
    requires i < |tree|
    ensures AllDefinitions(tree[..i + 1]) == AllDefinitions(tree[..i]) + Definitions(tree[i])
  {
    assert tree[..i + 1][..i] == tree[..i];
  }

  lemma {:induction false} MethodsSplit(class_: string, body: seq<Member>, j: nat)
    requires j <= |body|
    ensures exists after :: Methods(class_, body) == Methods(class_, body[..j]) + after
  {
    if j == |body| {
      assert body[..j] == body;
      assert Methods(class_, body) == Methods(class_, body[..j]) + [];
    } else {
      var shorter := body[..|body| - 1];
      assert shorter[..j] == body[..j];
      MethodsSplit(class_, shorter, j);
      var after :| Methods(class_, shorter) == Methods(class_, body[..j]) + after;
      var last := Methods(class_, body)[|Methods(class_, shorter)|..];
      assert Methods(class_, body) == Methods(class_, body[..j]) + (after + last);
    }
  }

  lemma {:induction false} AllDefinitionsRaise(tree: seq<Node>, i: nat, consts: Consts)
    requires i <= |tree| && Cases(AllDefinitions(tree[..i]), consts).None?
    ensures Cases(AllDefinitions(tree), consts).None?
    decreases |tree|
  {
    if i == |tree| {
      assert tree[..i] == tree;
    } else {
      var shorter := tree[..|tree| - 1];
      assert shorter[..i] == tree[..i];
      AllDefinitionsRaise(shorter, i, consts);
      var last := Definitions(tree[|tree| - 1]);
      assert AllDefinitions(tree) == AllDefinitions(shorter) + last;
      CasesRaise(AllDefinitions(shorter), last, consts);
    }
  }

  /** The second pass: every name defined again, once each. */
  method FindDuplicates(defs: seq<Qualified>) returns (dupes: seq<string>)
    ensures NoRepeats(dupes)
    ensures forall nm :: nm in dupes <==> Twice(defs, nm)
  {
    dupes := [];
    var seen: set<string> := {};
    for i := 0 to |defs|
      invariant forall nm :: nm in seen <==> exists j :: 0 <= j < i && defs[j].name == nm
      invariant NoRepeats(dupes)
      invariant forall nm :: nm in dupes <==> Twice(defs[..i], nm)
    {
      var nm := defs[i].name;
      ghost var before := dupes;
      if nm in seen && nm !in dupes {
        dupes := dupes + [nm];
      }
      forall x ensures x in dupes <==> Twice(defs[..i + 1], x) {
        TwiceNext(defs, i, x);
      }
      seen := seen + {nm};
    }
    assert defs[..|defs|] == defs;
  }

  lemma TwiceNext(defs: seq<Qualified>, i: nat, nm: string)
    requires i < |defs|
    ensures Twice(defs[..i + 1], nm) <==>
      Twice(defs[..i], nm) || (defs[i].name == nm && exists j :: 0 <= j < i && defs[j].name == nm)
  {
    if Twice(defs[..i], nm) {
      var a, b :| 0 <= a < b < i && defs[..i][a].name == nm && defs[..i][b].name == nm;
      assert defs[..i + 1][a].name == nm && defs[..i + 1][b].name == nm;
    }
    if defs[i].name == nm && exists j :: 0 <= j < i && defs[j].name == nm {
      var j :| 0 <= j < i && defs[j].name == nm;
      assert defs[..i + 1][j].name == nm && defs[..i + 1][i].name == nm;
    }
    if Twice(defs[..i + 1], nm) {
      var a, b :| 0 <= a < b < i + 1 && defs[..i + 1][a].name == nm && defs[..i + 1][b].name == nm;
      assert defs[a].name == nm && defs[b].name == nm;
      if b < i {
        assert defs[..i][a].name == nm && defs[..i][b].name == nm;
      }
    }
  }

  /** A module is refused exactly when some qualified name is defined twice. */
  method Collect(tree: seq<Node>) returns (r: Outcome)
    ensures r.Raised? <==> exists q :: q in AllDefinitions(tree) && Breaks(q.def, Constants(tree))
    ensures r.Collected? ==> Cases(AllDefinitions(tree), Constants(tree)) == Some(r.cases)
    ensures !r.Raised? ==> (r.Shadowed? <==> !Distinct(AllDefinitions(tree)))
    ensures r.Shadowed? ==> NoRepeats(r.names) && forall nm :: nm in r.names <==> Twice(AllDefinitions(tree), nm)
  {
    var cases := CollectCases(tree);
    RaisesIff(AllDefinitions(tree), Constants(tree));
    if cases.None? {
      return Raised;
    }
    var dupes := FindDuplicates(AllDefinitions(tree));
    if dupes != [] {
      assert Twice(AllDefinitions(tree), dupes[0]);
      r := Shadowed(dupes);
    } else {
      forall i, j | 0 <= i < j < |AllDefinitions(tree)|
        ensures AllDefinitions(tree)[i].name != AllDefinitions(tree)[j].name
      {
        assert !Twice(AllDefinitions(tree), AllDefinitions(tree)[i].name);
      }
      r := Collected(cases.value);
    }
  }

  // ------------------------------------------------------------- what the cases are worth

  /** The number of cases, as a sum over the definitions. */
  function Multiplicity(defs: seq<Qualified>, consts: Consts): nat {
    if defs == [] then 0
    else
      var m := Product(defs[|defs| - 1].def.decorators, consts);
      Multiplicity(defs[..|defs| - 1], consts) + if m.Some? then m.value else 0
  }

  lemma {:induction false} CaseCount(defs: seq<Qualified>, consts: Consts)
    requires Cases(defs, consts).Some?
    ensures |Cases(defs, consts).value| == Multiplicity(defs, consts)
  {
    if defs != [] {
      CaseCount(defs[..|defs| - 1], consts);
    }
  }

  /** A decorator can multiply cases but never remove one. */
  lemma {:induction false} ProductAtLeastOne(ds: seq<Decorator>, consts: Consts)
    ensures Product(ds, consts).Some? ==> Product(ds, consts).value >= 1
  {
    if ds != [] {
      ProductAtLeastOne(ds[..|ds| - 1], consts);
    }
  }

  /** The name of a case up to its first bracket: the name of its definition. */
  function Base(s: string): string {
    if s == "" || s[0] == '[' then "" else [s[0]] + Base(s[1..])
  }

  lemma {:induction false} BaseOf(qual: string, tail: string)
    requires '[' !in qual && (tail == "" || tail[0] == '[')
    ensures Base(qual + tail) == qual
  {
    if qual == "" {
      assert qual + tail == tail;
    } else {
      assert (qual + tail)[1..] == qual[1..] + tail;
      BaseOf(qual[1..], tail);
    }
  }

  lemma CaseNameInjective(qual: string, i: nat, j: nat)
    requires CaseName(qual, i) == CaseName(qual, j)
    ensures i == j
  {
    var n := |qual| + 1;
    assert CaseName(qual, i)[n..|CaseName(qual, i)| - 1] == Ntoa(i);
    assert CaseName(qual, j)[n..|CaseName(qual, j)| - 1] == Ntoa(j);
    AtonNtoa(i);
    AtonNtoa(j);
  }

  lemma ExpandNames(q: Qualified, mult: nat)
    requires '[' !in q.name
    ensures forall i :: 0 <= i < mult ==> Base(Expand(q, mult)[i].name) == q.name
    ensures forall i, j :: 0 <= i < j < mult ==> Expand(q, mult)[i].name != Expand(q, mult)[j].name
  {
    forall i | 0 <= i < mult ensures Base(Expand(q, mult)[i].name) == q.name {
      assert CaseName(q.name, i) == q.name + ("[" + Ntoa(i) + "]");
      BaseOf(q.name, "[" + Ntoa(i) + "]");
      BaseOf(q.name, "");
      assert q.name + "" == q.name;
    }
    forall i, j | 0 <= i < j < mult ensures Expand(q, mult)[i].name != Expand(q, mult)[j].name {
      if Expand(q, mult)[i].name == Expand(q, mult)[j].name {
        CaseNameInjective(q.name, i, j);
      }
    }
  }

  ghost predicate Identifiers(defs: seq<Qualified>) {
    forall i :: 0 <= i < |defs| ==> '[' !in defs[i].name
  }

  ghost predicate DistinctCases(cases: seq<Case>) {
    forall i, j :: 0 <= i < j < |cases| ==> cases[i].name != cases[j].name
  }

  /** Distinct definitions have distinct cases, parametrized or not. */
  lemma {:induction false} CaseNamesDistinct(defs: seq<Qualified>, consts: Consts)
    requires Distinct(defs) && Identifiers(defs) && Cases(defs, consts).Some?
    ensures DistinctCases(Cases(defs, consts).value)
    ensures forall i :: 0 <= i < |Cases(defs, consts).value| ==>
      exists d :: 0 <= d < |defs| && Base(Cases(defs, consts).value[i].name) == defs[d].name
  {
    if defs != [] {
      var shorter, q := defs[..|defs| - 1], defs[|defs| - 1];
      var cs, before := Cases(defs, consts).value, Cases(shorter, consts).value;
      var m := Product(q.def.decorators, consts).value;
      CaseNamesDistinct(shorter, consts);
      ExpandNames(q, m);
      forall i | 0 <= i < |cs|
        ensures exists d :: 0 <= d < |defs| && Base(cs[i].name) == defs[d].name
      {
        if i < |before| {
          var d :| 0 <= d < |shorter| && Base(before[i].name) == shorter[d].name;
          assert Base(cs[i].name) == defs[d].name;
        } else {
          assert cs[i] == Expand(q, m)[i - |before|];
          assert Base(cs[i].name) == defs[|defs| - 1].name;
        }
      }
      forall i, j | 0 <= i < j < |cs| ensures cs[i].name != cs[j].name {
        if i < |before| <= j {
          var d :| 0 <= d < |shorter| && Base(before[i].name) == shorter[d].name;
          assert cs[j] == Expand(q, m)[j - |before|];
          assert shorter[d] == defs[d];
        } else if |before| <= i {
          assert cs[i] == Expand(q, m)[i - |before|] && cs[j] == Expand(q, m)[j - |before|];
        }
      }
    }
  }

  // ------------------------------------------------------------------ the work-list

  lemma NoRepeatsConcat(a: seq<string>, b: seq<string>)
    requires NoRepeats(a) && NoRepeats(b) && forall n :: n in a ==> n !in b
    ensures NoRepeats(a + b)
  {
    forall i, j | 0 <= i < j < |a + b| ensures (a + b)[i] != (a + b)[j] {
      if i < |a| <= j {
        assert a[i] in a && b[j - |a|] in b;
      }
    }
  }

  function Select(names: seq<string>, texts: map<string, string>, p: string -> bool): seq<string>
    requires forall n :: n in names ==> n in texts
  {
    if names == [] then []
    else
      var last := names[|names| - 1];
      Select(names[..|names| - 1], texts, p) + if p(texts[last]) then [last] else []
  }

  lemma {:induction false} SelectKeeps(names: seq<string>, texts: map<string, string>, p: string -> bool)
    requires forall n :: n in names ==> n in texts
    ensures forall n :: n in Select(names, texts, p) <==> n in names && p(texts[n])
    ensures NoRepeats(names) ==> NoRepeats(Select(names, texts, p))
  {
    if names != [] {
      var shorter, last := names[..|names| - 1], names[|names| - 1];
      SelectKeeps(shorter, texts, p);
      forall n ensures n in Select(names, texts, p) <==> n in names && p(texts[n]) {
        assert n in names <==> n in shorter || n == last;
      }
    }
  }

  /** The report on an upstream file: each case is blocked, helped or plain by the
      first pattern its text matches; the portable ones that need queue semantics
      are taken off. The number printed is the number of names listed. */
  method Worklist(cases: seq<Case>, block: string -> bool, have: string -> bool, semantics: string -> bool)
    returns (blocked: seq<string>, portable: seq<string>, semantic: seq<string>, printed: int, listed: set<string>)
    requires DistinctCases(cases)
    ensures |blocked| + |portable| == |cases|
    ensures forall c :: c in cases ==>
      (c.name in blocked <==> block(c.def.source))
      && (c.name in portable <==> !block(c.def.source))
      && (c.name in listed <==> !block(c.def.source) && !semantics(c.def.source))
    ensures printed == |portable| - |semantic| == |listed|
  {
    blocked := [];
    var helped: seq<string> := [];
    var plain: seq<string> := [];
    var texts: map<string, string> := map[];
    for i := 0 to |cases|
      invariant |blocked| + |helped| + |plain| == i
      invariant texts.Keys == set j | 0 <= j < i :: cases[j].name
      invariant forall j :: 0 <= j < i ==> texts[cases[j].name] == cases[j].def.source
      invariant forall n :: n in blocked ==> n in texts && block(texts[n])
      invariant forall n :: n in helped ==> n in texts && !block(texts[n]) && have(texts[n])
      invariant forall n :: n in plain ==> n in texts && !block(texts[n]) && !have(texts[n])
      invariant NoRepeats(blocked) && NoRepeats(helped) && NoRepeats(plain)
      invariant forall n :: n in texts ==> n in blocked || n in helped || n in plain
    {
      var c := cases[i];
      assert c.name !in texts;
      if block(c.def.source) {
        blocked := blocked + [c.name];
      } else if have(c.def.source) {
        helped := helped + [c.name];
      } else {
        plain := plain + [c.name];
      }
      texts := texts[c.name := c.def.source];
    }
    portable := helped + plain;
    NoRepeatsConcat(helped, plain);
    SelectKeeps(portable, texts, semantics);
    semantic := Select(portable, texts, semantics);
    listed := Elements(portable) - Elements(semantic);
    printed := |portable| - |semantic|;
    ElementsCardinality(portable);
    ElementsCardinality(semantic);
    assert Elements(semantic) <= Elements(portable);
    forall c | c in cases
      ensures c.name in texts && texts[c.name] == c.def.source
    {
      var j :| 0 <= j < |cases| && cases[j] == c;
    }
  }

  /** The whole report, from the module's text to the work-list. */
  method Report(tree: seq<Node>, block: string -> bool, have: string -> bool, semantics: string -> bool)
    returns (outcome: Outcome, printed: int, listed: set<string>)
    requires Identifiers(AllDefinitions(tree))
    ensures outcome.Shadowed? ==> !Distinct(AllDefinitions(tree))
    ensures outcome.Collected? ==> Distinct(AllDefinitions(tree))
    ensures outcome.Collected? ==> |outcome.cases| == Multiplicity(AllDefinitions(tree), Constants(tree))
    ensures outcome.Collected? ==> printed == |listed|
    ensures outcome.Collected? ==> forall c :: c in outcome.cases ==>
      (c.name in listed <==> !block(c.def.source) && !semantics(c.def.source))
  {
    printed, listed := 0, {};
    outcome := Collect(tree);
    if outcome.Collected? {
      CaseCount(AllDefinitions(tree), Constants(tree));
      CaseNamesDistinct(AllDefinitions(tree), Constants(tree));
      var blocked, portable, semantic;
      blocked, portable, semantic, printed, listed := Worklist(outcome.cases, block, have, semantics);
    }
  }

  // ------------------------------------------------------------------- our own suite

  function Skipped(cases: seq<Case>): nat {
    if cases == [] then 0
    else Skipped(cases[..|cases| - 1]) + if cases[|cases| - 1].def.skip then 1 else 0
  }

  datatype Suite = Refused(file: string, why: Outcome) | Counted(counts: map<string, (nat, nat)>)

  method CountSkips(cases: seq<Case>) returns (skipped: nat)
    ensures skipped == Skipped(cases)
  {
    skipped := 0;
    for k := 0 to |cases|
      invariant skipped == Skipped(cases[..k])
    {
      assert cases[..k + 1][..k] == cases[..k];
      if cases[k].def.skip {
        skipped := skipped + 1;
      }
    }
    assert cases[..|cases|] == cases;
  }

  /** The count that a test module must be given. */
  ghost predicate Right(tree: seq<Node>, n: (nat, nat)) {
    var cases := Cases(AllDefinitions(tree), Constants(tree));
    Distinct(AllDefinitions(tree)) && cases.Some?
    && n == (Multiplicity(AllDefinitions(tree), Constants(tree)), Skipped(cases.value))
  }

  lemma CollectedIsRight(tree: seq<Node>, cases: seq<Case>)
    requires Distinct(AllDefinitions(tree)) && Cases(AllDefinitions(tree), Constants(tree)) == Some(cases)
    ensures Right(tree, (|cases|, Skipped(cases)))
  {
    CaseCount(AllDefinitions(tree), Constants(tree));
  }

  /** No count is right: the module raises, or defines a name twice. */
  ghost predicate Hopeless(tree: seq<Node>) {
    forall n :: !Right(tree, n)
  }

  lemma HopelessIff(tree: seq<Node>)
    ensures Hopeless(tree) <==>
      !Distinct(AllDefinitions(tree)) || exists q :: q in AllDefinitions(tree) && Breaks(q.def, Constants(tree))
  {
    var defs, consts := AllDefinitions(tree), Constants(tree);
    RaisesIff(defs, consts);
    if Distinct(defs) && Cases(defs, consts).Some? {
      CollectedIsRight(tree, Cases(defs, consts).value);
    }
  }

  /** One test module: its count, or why it has none. */
  method CountFile(tree: seq<Node>) returns (outcome: Outcome, n: (nat, nat))
    ensures outcome.Collected? ==> Right(tree, n)
    ensures !outcome.Collected? ==> Hopeless(tree)
  {
    n := (0, 0);
    outcome := Collect(tree);
    HopelessIff(tree);
    if outcome.Collected? {
      var skipped := CountSkips(outcome.cases);
      CollectedIsRight(tree, outcome.cases);
      n := (|outcome.cases|, skipped);
    }
  }

  /** Case and skip counts of every test module, or the first module that is refused. */
  method PortCounts(files: seq<(string, seq<Node>)>) returns (r: Suite)
    requires forall i, j :: 0 <= i < j < |files| ==> files[i].0 != files[j].0
    ensures r.Counted? ==> r.counts.Keys == set j | 0 <= j < |files| :: files[j].0
    ensures r.Counted? ==> forall j :: 0 <= j < |files| ==> Right(files[j].1, r.counts[files[j].0])
    ensures r.Refused? ==> exists j :: 0 <= j < |files| && files[j].0 == r.file && Hopeless(files[j].1)
  {
    var counts: map<string, (nat, nat)> := map[];
    for i := 0 to |files|
      invariant counts.Keys == set j | 0 <= j < i :: files[j].0
      invariant forall j :: 0 <= j < i ==> Right(files[j].1, counts[files[j].0])
    {
      var outcome, n := CountFile(files[i].1);
      if !outcome.Collected? {
        return Refused(files[i].0, outcome);
      }
      counts := counts[files[i].0 := n];
    }
    r := Counted(counts);
  }
}
