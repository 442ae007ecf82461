/** The registry of declared parameters: what deployments leave in it, and which
    starts it refuses. */
module EntryRegistry {
  import opened Basics
  import opened Text
  import opened EntryParams

  /** What a signature text makes the registry remember; nothing when it is empty. */
  function DeclaredIn(signature: Option<string>): seq<string> {
    if signature.None? then [] else Enforced(Declared(Resolve(Fields(Split(signature.value, ',')))))
  }

  /** Deployments: the workflow and what it declares. */
  type History = seq<(string, seq<string>)>

  function After(params: map<string, seq<string>>, history: History): map<string, seq<string>> {
    if history == [] then params
    else
      var before, (workflow, declared) := After(params, history[..|history| - 1]), history[|history| - 1];
      if declared != [] then before[workflow := declared] else before
  }

  predicate Lacking(params: map<string, seq<string>>, workflow: string, payload: set<string>, n: string) {
    workflow in params && n in params[workflow] && n !in payload
  }

  function NotIn(payload: set<string>): string -> bool { n => n !in payload }

  lemma FilterLast(declared: seq<string>, i: nat, p: string -> bool)
    requires i < |declared|
    ensures Filter(declared[..i + 1], p) == Filter(declared[..i], p) + if p(declared[i]) then [declared[i]] else []
  {
    assert declared[..i + 1] == declared[..i] + [declared[i]];
    FilterConcat(declared[..i], [declared[i]], p);
    assert [declared[i]][1..] == [];
  }

  /** The declared names that the payload lacks, in the order of declaration. */
  lemma OmittedIff(declared: seq<string>, payload: set<string>)
    ensures Selects(declared, Filter(declared, NotIn(payload)), NotIn(payload))
    ensures forall n :: n in Filter(declared, NotIn(payload)) <==> n in declared && n !in payload
  {
    var omitted := Filter(declared, NotIn(payload));
    var at := FilterSelects(declared, NotIn(payload));
    forall n | n in declared && n !in payload ensures n in omitted {
      var i :| 0 <= i < |declared| && declared[i] == n;
      var k :| 0 <= k < |at| && at[k] == i;
      assert omitted[k] == n;
    }
  }

  class Registry {
    var params: map<string, seq<string>>

    constructor ()
      ensures params == map[]
    {
      params := map[];
    }

    /** Remembers what a deployed workflow declares; a workflow that declares
        nothing, or is not bound by name, leaves the registry as it was. */
    method Deploy(workflow: string, signature: Option<string>)
      modifies this
      ensures params == After(old(params), [(workflow, DeclaredIn(signature))])
    {
      assert [(workflow, DeclaredIn(signature))][..0] == [];
      var declared := Read(signature);
      if declared.Some? && declared.value != [] {
        params := params[workflow := declared.value];
      }
    }

    /** A session's deployments, in order. */
    method DeployAll(ds: seq<Deployment>)
      modifies this
      ensures params == After(old(params), Log(ds))
    {
      ghost var history := Log(ds);
      for i := 0 to |ds|
        invariant params == After(old(params), history[..i])
      {
        assert history[..i + 1][..i] == history[..i];
        Deploy(ds[i].workflow, ds[i].Signature());
      }
      assert history[..|ds|] == history;
    }

    /** The check before a start: the declared names that the payload lacks, in the
        order of declaration. The start is refused when there is one. */
    method Start(workflow: string, payload: set<string>) returns (omitted: seq<string>)
      ensures forall n :: n in omitted <==> Lacking(params, workflow, payload, n)
      ensures workflow in params ==> Selects(params[workflow], omitted, NotIn(payload))
      ensures omitted == [] <==> forall n :: !Lacking(params, workflow, payload, n)
    {
      omitted := [];
      if workflow in params {
        var declared := params[workflow];
        for i := 0 to |declared|
          invariant omitted == Filter(declared[..i], NotIn(payload))
        {
          FilterLast(declared, i, NotIn(payload));
          if declared[i] !in payload {
            omitted := omitted + [declared[i]];
          }
        }
        assert declared[..|declared|] == declared;
        OmittedIff(declared, payload);
      }
      if omitted != [] {
        assert omitted[0] in omitted;
      }
    }
  }

  // ------------------------------------------------------------------- histories

  /** Deployment `i` is the last one of the workflow that declared something. */
  ghost predicate Governs(history: History, i: int, workflow: string) {
    && 0 <= i < |history| && history[i].0 == workflow && history[i].1 != []
    && forall j :: i < j < |history| && history[j].0 == workflow ==> history[j].1 == []
  }

  /** An entry of the registry is what the last declaring deployment declared. */
  lemma {:induction false} RegistryIs(history: History, workflow: string)
    ensures workflow in After(map[], history) <==> exists i :: Governs(history, i, workflow)
    ensures forall i :: Governs(history, i, workflow) ==> After(map[], history)[workflow] == history[i].1
  {
    if history != [] {
      var m := |history| - 1;
      var before := history[..m];
      RegistryIs(before, workflow);
      if history[m].0 == workflow && history[m].1 != [] {
        assert Governs(history, m, workflow);
      } else {
        forall i ensures Governs(history, i, workflow) <==> Governs(before, i, workflow) {
          GovernsBefore(history, i, workflow);
        }
      }
    }
  }

  lemma GovernsBefore(history: History, i: int, workflow: string)
    requires history != []
    requires var last := history[|history| - 1]; last.0 != workflow || last.1 == []
    ensures Governs(history, i, workflow) <==> Governs(history[..|history| - 1], i, workflow)
  {
    var before := history[..|history| - 1];
    assert forall j :: 0 <= j < |before| ==> before[j] == history[j];
  }

  /** A deployed workflow: its name and its parameters, if its signature was found. */
  datatype Deployment = Deployment(workflow: string, groups: Option<seq<Group>>) {
    function Signature(): Option<string> {
      if groups.None? then None else Some(Print(Tokens(groups.value)))
    }

    /** It binds by name and has a parameter of this name that is not a pointer. */
    ghost predicate Demands(n: string) {
      && groups.Some?
      && !(|Flatten(groups.value)| == 1 && Flatten(groups.value)[0].typ == Some("string"))
      && exists i :: 0 <= i < |Flatten(groups.value)| && DemandedAt(Flatten(groups.value)[i], n)
    }

    ghost predicate DemandsSomething() { exists n :: Demands(n) }
  }

  predicate DemandedAt(f: Field, n: string) { f.name == n && !IsPointer(f) }

  ghost predicate LegalAll(ds: seq<Deployment>) {
    forall i :: 0 <= i < |ds| && ds[i].groups.Some? ==> Legal(ds[i].groups.value)
  }

  function Log(ds: seq<Deployment>): (history: History)
    ensures |history| == |ds|
    ensures forall i :: 0 <= i < |ds| ==> history[i] == (ds[i].workflow, DeclaredIn(ds[i].Signature()))
  {
    seq(|ds|, i requires 0 <= i < |ds| => (ds[i].workflow, DeclaredIn(ds[i].Signature())))
  }

  lemma {:induction false} RequiredNames(fs: seq<Field>, n: string)
    ensures n in Required(fs) <==> exists i :: 0 <= i < |fs| && DemandedAt(fs[i], n)
  {
    if fs != [] {
      var m := |fs| - 1;
      RequiredNames(fs[..m], n);
      if i :| 0 <= i < |fs| && DemandedAt(fs[i], n) {
        if i < m {
          assert DemandedAt(fs[..m][i], n);
        }
      }
      if i :| 0 <= i < m && DemandedAt(fs[..m][i], n) {
        assert DemandedAt(fs[i], n);
      }
    }
  }

  /** What the registry learns from a deployment is what it demands. */
  lemma DeclaredIsDemanded(d: Deployment, n: string)
    requires d.groups.Some? ==> Legal(d.groups.value)
    ensures n in DeclaredIn(d.Signature()) <==> d.Demands(n)
  {
    if d.groups.Some? {
      DeclaredByPrinted(d.groups.value);
      RequiredNames(Flatten(d.groups.value), n);
    }
  }

  lemma DeclaresIff(d: Deployment)
    requires d.groups.Some? ==> Legal(d.groups.value)
    ensures DeclaredIn(d.Signature()) != [] <==> d.DemandsSomething()
  {
    var declared := DeclaredIn(d.Signature());
    if declared != [] {
      assert declared[0] in declared;
      DeclaredIsDemanded(d, declared[0]);
    }
    if n :| d.Demands(n) {
      DeclaredIsDemanded(d, n);
    }
  }

  /** The last deployment of the workflow that demanded something. */
  ghost predicate LastDemanding(ds: seq<Deployment>, i: int, workflow: string) {
    && 0 <= i < |ds| && ds[i].workflow == workflow && ds[i].DemandsSomething()
    && forall j :: i < j < |ds| && ds[j].workflow == workflow ==> !ds[j].DemandsSomething()
  }

  lemma GovernsIff(ds: seq<Deployment>, i: int, workflow: string)
    requires LegalAll(ds)
    ensures Governs(Log(ds), i, workflow) <==> LastDemanding(ds, i, workflow)
  {
    forall j | 0 <= j < |ds| ensures Log(ds)[j].1 != [] <==> ds[j].DemandsSomething() {
      DeclaresIff(ds[j]);
    }
  }

  /** The payload lacks a name that the last demanding deployment demands. */
  ghost predicate Refused(ds: seq<Deployment>, workflow: string, payload: set<string>) {
    exists i, n :: LastDemanding(ds, i, workflow) && ds[i].Demands(n) && n !in payload
  }

  /** After any list of deployments, a start is refused exactly when the payload lacks
      a parameter, not a pointer, of the workflow's last deployment that has one. */
  lemma RefusedIff(ds: seq<Deployment>, workflow: string, payload: set<string>)
    requires LegalAll(ds)
    ensures (exists n :: Lacking(After(map[], Log(ds)), workflow, payload, n)) <==> Refused(ds, workflow, payload)
  {
    var history := Log(ds);
    RegistryIs(history, workflow);
    forall i ensures Governs(history, i, workflow) <==> LastDemanding(ds, i, workflow) {
      GovernsIff(ds, i, workflow);
    }
    forall i, n | LastDemanding(ds, i, workflow)
      ensures n in history[i].1 <==> ds[i].Demands(n)
    {
      DeclaredIsDemanded(ds[i], n);
    }
    if n :| Lacking(After(map[], history), workflow, payload, n) {
      var i :| Governs(history, i, workflow);
      assert LastDemanding(ds, i, workflow) && ds[i].Demands(n);
    }
    if i, n :| LastDemanding(ds, i, workflow) && ds[i].Demands(n) && n !in payload {
      assert Governs(history, i, workflow);
      assert Lacking(After(map[], history), workflow, payload, n);
    }
  }

  /** A session: an empty registry, the deployments, one start. */
  method Session(ds: seq<Deployment>, workflow: string, payload: set<string>) returns (omitted: seq<string>)
    requires LegalAll(ds)
    ensures omitted != [] <==> Refused(ds, workflow, payload)
  {
    var registry := new Registry();
    registry.DeployAll(ds);
    RefusedIff(ds, workflow, payload);
    omitted := registry.Start(workflow, payload);
  }

  // ------------------------------------------------------------ the current deployment

  ghost predicate Last(ds: seq<Deployment>, i: int, workflow: string) {
    && 0 <= i < |ds| && ds[i].workflow == workflow
    && forall j :: i < j < |ds| ==> ds[j].workflow != workflow
  }

  /** What the registry is for: a start is judged by the workflow as it is deployed. */
  ghost predicate JudgedByCurrent(ds: seq<Deployment>, i: int, payload: set<string>)
    requires 0 <= i < |ds|
  {
    Refused(ds, ds[i].workflow, payload) <==> exists n :: ds[i].Demands(n) && n !in payload
  }

  /** It is, for every payload, exactly when the current deployment demands something
      or no deployment of the workflow ever did. */
  lemma JudgedByCurrentIff(ds: seq<Deployment>, i: int)
    requires 0 <= i < |ds| && Last(ds, i, ds[i].workflow)
    ensures (forall payload :: JudgedByCurrent(ds, i, payload)) <==>
      ds[i].DemandsSomething() || forall j :: 0 <= j < i && ds[j].workflow == ds[i].workflow ==> !ds[j].DemandsSomething()
  {
    var w := ds[i].workflow;
    if ds[i].DemandsSomething() {
      assert forall j :: LastDemanding(ds, j, w) <==> j == i;
    } else if j :| 0 <= j < i && ds[j].workflow == w && ds[j].DemandsSomething() {
      var k := SomeLastDemanding(ds, j, w);
      var n :| ds[k].Demands(n);
      var payload: set<string> := {};
      assert n !in payload;
      assert !JudgedByCurrent(ds, i, payload);
    } else {
      assert forall j :: !LastDemanding(ds, j, w);
    }
  }

  lemma {:induction false} SomeLastDemanding(ds: seq<Deployment>, j: int, workflow: string) returns (k: int)
    requires 0 <= j < |ds| && ds[j].workflow == workflow && ds[j].DemandsSomething()
    ensures LastDemanding(ds, k, workflow)
    decreases |ds| - j
  {
    if later :| j < later < |ds| && ds[later].workflow == workflow && ds[later].DemandsSomething() {
      k := SomeLastDemanding(ds, later, workflow);
    } else {
      k := j;
    }
  }

  /** A workflow deployed again without parameters is still asked for the old one. */
  lemma OldEntrySurvives(workflow: string, name: string)
    requires IsToken(name)
    ensures var ds := [Deployment(workflow, Some([Group([name], "int")])), Deployment(workflow, Some([]))];
      LegalAll(ds) && Refused(ds, workflow, {}) && !ds[1].DemandsSomething()
  {
    var gs := [Group([name], "int")];
    var ds := [Deployment(workflow, Some(gs)), Deployment(workflow, Some([]))];
    assert LegalGroup(gs[0]);
    assert gs[1..] == [];
    assert Flatten(gs) == [Field(name, Some("int"))];
    assert "*"[0] != "int"[0];
    assert DemandedAt(Flatten(gs)[0], name);
    assert ds[0].Demands(name);
    assert LastDemanding(ds, 0, workflow);
    var payload: set<string> := {};
    assert name !in payload;
  }
}
