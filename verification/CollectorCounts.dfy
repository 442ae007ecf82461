/** What the collector's definitions count for: which definitions count, what a
    decorator multiplies by, and which constants and skips are seen. */
module CollectorCounts {
  import opened Basics
  import opened Collector

  // ------------------------------------------------------------------ multipliers

  /** A parametrize over `n` values: a literal list of that length, or the name of a
      constant that is one. */
  predicate Lists(d: Decorator, consts: Consts, n: nat) {
    || d == Parametrize(Written(Sized(n)))
    || (d.Parametrize? && d.values.Named? && d.values.id in consts && consts[d.values.id] == Sized(n))
  }

  /** A decorator that lists no values: not a parametrize, one with too few arguments,
      one whose values are computed or have no length, or a name that is no constant. */
  predicate ListsNothing(d: Decorator, consts: Consts) {
    d.Plain? || d.FewArguments? || match d.values
                                   case Written(lit) => lit == Unsized
                                   case Named(id) => id !in consts
                                   case Computed => true
  }

  /** Two counts multiplied; nothing when either raises. */
  function Both(x: Option<nat>, y: Option<nat>): Option<nat> {
    if x.None? || y.None? then None else Some(x.value * y.value)
  }

  lemma BothAssociates(x: Option<nat>, y: Option<nat>, z: Option<nat>)
    ensures Both(Both(x, y), z) == Both(x, Both(y, z)) && Both(x, y) == Both(y, x)
  {
    if x.Some? && y.Some? && z.Some? {
      var a, b, c := x.value, y.value, z.value;
      assert (a * b) * c == a * (b * c);
    }
  }

  lemma ProductLast(ds: seq<Decorator>, d: Decorator, consts: Consts)
    ensures Product(ds + [d], consts) == Both(Product(ds, consts), Multiplier(d, consts))
  {
    assert (ds + [d])[..|ds|] == ds;
  }

  lemma ProductMoves(a: seq<Decorator>, front: seq<Decorator>, d: Decorator, consts: Consts)
    requires Product(a + front, consts) == Both(Product(a, consts), Product(front, consts))
    ensures Product(a + (front + [d]), consts) == Both(Product(a, consts), Product(front + [d], consts))
  {
    assert a + (front + [d]) == (a + front) + [d];
    ProductLast(a + front, d, consts);
    ProductLast(front, d, consts);
    BothAssociates(Product(a, consts), Product(front, consts), Multiplier(d, consts));
  }

  lemma {:induction false} ProductConcat(a: seq<Decorator>, b: seq<Decorator>, consts: Consts)
    ensures Product(a + b, consts) == Both(Product(a, consts), Product(b, consts))
  {
    if b == [] {
      assert a + b == a;
    } else {
      ProductConcat(a, b[..|b| - 1], consts);
      ProductMoves(a, b[..|b| - 1], b[|b| - 1], consts);
      assert b == b[..|b| - 1] + [b[|b| - 1]];
    }
  }

  lemma MultiplierIs(d: Decorator, consts: Consts, n: nat)
    requires Lists(d, consts, n) || (ListsNothing(d, consts) && n == 1)
    ensures Multiplier(d, consts) == Some(Max(n, 1))
  {
  }

  lemma ProductInsert(a: seq<Decorator>, d: Decorator, b: seq<Decorator>, consts: Consts, n: nat)
    requires Lists(d, consts, n) || (ListsNothing(d, consts) && n == 1)
    ensures Product(a + [d] + b, consts) == Both(Some(Max(n, 1)), Product(a + b, consts))
  {
    var x, y, z := Product(a, consts), Multiplier(d, consts), Product(b, consts);
    MultiplierIs(d, consts, n);
    ProductLast(a, d, consts);
    ProductConcat(a + [d], b, consts);
    ProductConcat(a, b, consts);
    BothAssociates(y, x, z);
    BothAssociates(x, y, z);
  }

  // ------------------------------------------------------------------ one definition

  function CasesOf(q: Qualified, consts: Consts): Option<seq<Case>> { Cases([q], consts) }

  function Joined(x: Option<seq<Case>>, y: Option<seq<Case>>): Option<seq<Case>> {
    if x.None? || y.None? then None else Some(x.value + y.value)
  }

  lemma JoinedAssociates(x: Option<seq<Case>>, y: Option<seq<Case>>, z: Option<seq<Case>>)
    ensures Joined(Joined(x, y), z) == Joined(x, Joined(y, z)) && Joined(x, Some([])) == x == Joined(Some([]), x)
  {
    if x.Some? {
      assert x.value + [] == x.value == [] + x.value;
      if y.Some? && z.Some? {
        assert (x.value + y.value) + z.value == x.value + (y.value + z.value);
      }
    }
  }

  lemma CasesLast(defs: seq<Qualified>, q: Qualified, consts: Consts)
    ensures Cases(defs + [q], consts) == Joined(Cases(defs, consts), CasesOf(q, consts))
  {
    CasesNext(defs, q, consts);
    CasesNext([], q, consts);
    assert [] + [q] == [q];
    JoinedAssociates(CasesOf(q, consts), None, None);
    var m := Product(q.def.decorators, consts);
    assert m.Some? ==> [] + Expand(q, m.value) == Expand(q, m.value);
  }

  lemma CasesOne(q: Qualified, consts: Consts)
    ensures CasesOf(q, consts).Some? <==> Product(q.def.decorators, consts).Some?
    ensures CasesOf(q, consts).Some? ==> CasesOf(q, consts).value == Expand(q, Product(q.def.decorators, consts).value)
  {
    CasesNext([], q, consts);
    assert [] + [q] == [q];
    var m := Product(q.def.decorators, consts);
    assert m.Some? ==> [] + Expand(q, m.value) == Expand(q, m.value);
  }

  lemma CasesMove(a: seq<Qualified>, front: seq<Qualified>, q: Qualified, consts: Consts)
    requires Cases(a + front, consts) == Joined(Cases(a, consts), Cases(front, consts))
    ensures Cases(a + (front + [q]), consts) == Joined(Cases(a, consts), Cases(front + [q], consts))
  {
    assert a + (front + [q]) == (a + front) + [q];
    CasesLast(a + front, q, consts);
    CasesLast(front, q, consts);
    JoinedAssociates(Cases(a, consts), Cases(front, consts), CasesOf(q, consts));
  }

  lemma {:induction false} CasesConcat(a: seq<Qualified>, b: seq<Qualified>, consts: Consts)
    ensures Cases(a + b, consts) == Joined(Cases(a, consts), Cases(b, consts))
  {
    if b == [] {
      assert a + b == a;
      JoinedAssociates(Cases(a, consts), None, None);
    } else {
      CasesConcat(a, b[..|b| - 1], consts);
      CasesMove(a, b[..|b| - 1], b[|b| - 1], consts);
      assert b == b[..|b| - 1] + [b[|b| - 1]];
    }
  }

  function Decorated(q: Qualified, ds: seq<Decorator>): Qualified { q.(def := q.def.(decorators := ds)) }

  /** A parametrize over n values, put anywhere among the decorators of a definition,
      multiplies its cases by n, and by 1 when it lists none; any decorator that lists
      nothing leaves their number as it was. */
  lemma DecoratorMultiplies(q: Qualified, a: seq<Decorator>, d: Decorator, b: seq<Decorator>, consts: Consts, n: nat)
    requires Lists(d, consts, n) || (ListsNothing(d, consts) && n == 1)
    ensures var (before, after) := (CasesOf(Decorated(q, a + b), consts), CasesOf(Decorated(q, a + [d] + b), consts));
      && (after.Some? <==> before.Some?)
      && (after.Some? ==> |after.value| == if n == 0 then |before.value| else n * |before.value|)
  {
    ProductInsert(a, d, b, consts, n);
    CasesOne(Decorated(q, a + b), consts);
    CasesOne(Decorated(q, a + [d] + b), consts);
  }

  function Times(ns: seq<nat>): nat {
    if ns == [] then 1 else Times(ns[..|ns| - 1]) * ns[|ns| - 1]
  }

  /** The number of values each decorator lists, 1 where it lists nothing. */
  ghost predicate Lengths(ds: seq<Decorator>, consts: Consts, ns: seq<nat>) {
    && |ns| == |ds|
    && forall k :: 0 <= k < |ds| ==>
         ns[k] >= 1 && (Lists(ds[k], consts, ns[k]) || (ListsNothing(ds[k], consts) && ns[k] == 1))
  }

  lemma {:induction false} ProductIsTimes(ds: seq<Decorator>, consts: Consts, ns: seq<nat>)
    requires Lengths(ds, consts, ns)
    ensures Product(ds, consts) == Some(Times(ns)) && Times(ns) >= 1
  {
    if ds != [] {
      ProductIsTimes(ds[..|ds| - 1], consts, ns[..|ns| - 1]);
    }
  }

  /** A definition whose parametrizes have n1, ..., nk values stands for exactly
      n1 * ... * nk cases, all its own; a single one keeps its name, several are
      numbered from 0. */
  lemma StandsForProduct(q: Qualified, consts: Consts, ns: seq<nat>)
    requires Lengths(q.def.decorators, consts, ns)
    ensures CasesOf(q, consts).Some?
    ensures var cases := CasesOf(q, consts).value;
      && |cases| == Times(ns)
      && (|cases| == 1 ==> cases[0].name == q.name)
      && forall j :: 0 <= j < |cases| ==>
           cases[j].def == q.def && (|cases| > 1 ==> cases[j].name == q.name + "[" + Text.Ntoa(j) + "]")
  {
    ProductIsTimes(q.def.decorators, consts, ns);
    CasesOne(q, consts);
  }

  // ------------------------------------------------------------------ a whole module

  /** In a module, decorating one definition more adds exactly that definition's new
      cases, where they stood, and moves nothing else. */
  lemma DecoratorInModule(a: seq<Qualified>, q: Qualified, b: seq<Qualified>, ds: seq<Decorator>, d: Decorator,
      es: seq<Decorator>, consts: Consts, n: nat)
    requires Lists(d, consts, n) || (ListsNothing(d, consts) && n == 1)
    ensures var before := Cases(a + [Decorated(q, ds + es)] + b, consts);
      var after := Cases(a + [Decorated(q, ds + [d] + es)] + b, consts);
      && (after.Some? <==> before.Some?)
      && (after.Some? ==>
            var here := CasesOf(Decorated(q, ds + es), consts);
            here.Some? && |after.value| == |before.value| + (Max(n, 1) - 1) * |here.value|)
  {
    var old_, new_ := Decorated(q, ds + es), Decorated(q, ds + [d] + es);
    DecoratorMultiplies(q, ds, d, es, consts, n);
    CasesConcat(a, [old_], consts);
    CasesConcat(a + [old_], b, consts);
    CasesConcat(a, [new_], consts);
    CasesConcat(a + [new_], b, consts);
    if Cases(a + [new_] + b, consts).Some? {
      var m := |CasesOf(old_, consts).value|;
      assert (Max(n, 1) - 1) * m == Max(n, 1) * m - m;
    }
  }

  /** The lists of all elements, one after another. */
  function Gather<T, U>(xs: seq<T>, f: T -> seq<U>): seq<U> {
    if xs == [] then [] else Gather(xs[..|xs| - 1], f) + f(xs[|xs| - 1])
  }

  lemma {:induction false} GatherConcat<T, U>(a: seq<T>, b: seq<T>, f: T -> seq<U>)
    ensures Gather(a + b, f) == Gather(a, f) + Gather(b, f)
  {
    if b == [] {
      assert a + b == a;
    } else {
      assert (a + b)[..|a + b| - 1] == a + b[..|b| - 1];
      GatherConcat(a, b[..|b| - 1], f);
    }
  }

  lemma {:induction false} DefinitionsAreGathered(tree: seq<Node>)
    ensures AllDefinitions(tree) == Gather(tree, Definitions)
  {
    if tree != [] {
      DefinitionsAreGathered(tree[..|tree| - 1]);
    }
  }

  lemma AllDefinitionsConcat(a: seq<Node>, b: seq<Node>)
    ensures AllDefinitions(a + b) == AllDefinitions(a) + AllDefinitions(b)
  {
    DefinitionsAreGathered(a);
    DefinitionsAreGathered(b);
    DefinitionsAreGathered(a + b);
    GatherConcat(a, b, Definitions);
  }

  lemma AllDefinitionsOne(n: Node)
    ensures AllDefinitions([n]) == Definitions(n)
  {
    assert [n][..0] == [];
  }

  lemma {:induction false} ConstantsConcat(a: seq<Node>, b: seq<Node>)
    ensures Constants(a + b) == Constants(a) + Constants(b)
  {
    if b == [] {
      assert a + b == a;
    } else {
      assert (a + b)[..|a + b| - 1] == a + b[..|b| - 1];
      ConstantsConcat(a, b[..|b| - 1]);
    }
  }

  lemma FunctionIsNoConstant(a: seq<Node>, d: Def, b: seq<Node>)
    ensures Constants(a + [Function(d)] + b) == Constants(a) + Constants(b)
  {
    ConstantsConcat(a, [Function(d)]);
    ConstantsConcat(a + [Function(d)], b);
    assert [Function(d)][..0] == [];
  }

  /** What is collected from a module, before and after a test function in it gets
      one decorator more. */
  method CollectTwice(a: seq<Node>, def: Def, b: seq<Node>, ds: seq<Decorator>, d: Decorator, es: seq<Decorator>,
      n: nat)
    returns (before: Outcome, after: Outcome)
    requires IsTest(def) && def.decorators == ds + es
    requires var consts := Constants(a + b); Lists(d, consts, n) || (ListsNothing(d, consts) && n == 1)
    ensures (before.Raised? <==> after.Raised?) && (before.Collected? <==> after.Collected?)
    ensures before.Collected? ==>
      var here := CasesOf(Qualified(def.name, def), Constants(a + b));
      here.Some? && |after.cases| == |before.cases| + (Max(n, 1) - 1) * |here.value|
  {
    before := Collect(a + [Function(def)] + b);
    after := Collect(a + [Function(def.(decorators := ds + [d] + es))] + b);
    FunctionIsNoConstant(a, def, b);
    FunctionIsNoConstant(a, def.(decorators := ds + [d] + es), b);
    ConstantsConcat(a, b);
    ModuleDefinitions(a, def, b);
    ModuleDefinitions(a, def.(decorators := ds + [d] + es), b);
    var q, consts := Qualified(def.name, def), Constants(a + b);
    var p, s := AllDefinitions(a), AllDefinitions(b);
    assert Decorated(q, ds + es) == q;
    DecoratorInModule(p, q, s, ds, d, es, consts, n);
    RaisesIff(p + [q] + s, consts);
    RaisesIff(p + [Decorated(q, ds + [d] + es)] + s, consts);
    SameNames(p, q, s, ds + [d] + es);
  }

  lemma ModuleDefinitions(a: seq<Node>, def: Def, b: seq<Node>)
    requires IsTest(def)
    ensures AllDefinitions(a + [Function(def)] + b)
         == AllDefinitions(a) + [Qualified(def.name, def)] + AllDefinitions(b)
  {
    AllDefinitionsConcat(a, [Function(def)]);
    AllDefinitionsConcat(a + [Function(def)], b);
    AllDefinitionsOne(Function(def));
  }

  lemma SameNames(p: seq<Qualified>, q: Qualified, s: seq<Qualified>, ds: seq<Decorator>)
    ensures Distinct(p + [q] + s) <==> Distinct(p + [Decorated(q, ds)] + s)
  {
    var x, y := p + [q] + s, p + [Decorated(q, ds)] + s;
    assert |x| == |y| && forall i :: 0 <= i < |x| ==> x[i].name == y[i].name;
  }

  // ------------------------------------------------------------------ what is seen at all

  /** Top-level statement `i` is an assignment of a literal to `t`. */
  predicate AssignsLiteral(tree: seq<Node>, i: int, t: string) {
    0 <= i < |tree| && tree[i].Assign? && tree[i].target == t && tree[i].value.Some?
  }

  ghost predicate LastLiteral(tree: seq<Node>, i: int, t: string) {
    AssignsLiteral(tree, i, t) && forall j :: i < j < |tree| ==> !AssignsLiteral(tree, j, t)
  }

  /** A name is a constant if and only if a literal is assigned to it somewhere, and
      the last such literal is its value. */
  lemma {:induction false} ConstantsAre(tree: seq<Node>, t: string)
    ensures t in Constants(tree) <==> exists i :: LastLiteral(tree, i, t)
    ensures forall i :: LastLiteral(tree, i, t) ==> Constants(tree)[t] == tree[i].value.value
  {
    if tree != [] {
      var m := |tree| - 1;
      ConstantsAre(tree[..m], t);
      if AssignsLiteral(tree, m, t) {
        assert LastLiteral(tree, m, t);
      } else {
        forall i ensures LastLiteral(tree, i, t) <==> LastLiteral(tree[..m], i, t) {
          LiteralBefore(tree, i, t);
        }
      }
    }
  }

  lemma LiteralBefore(tree: seq<Node>, i: int, t: string)
    requires tree != [] && !AssignsLiteral(tree, |tree| - 1, t)
    ensures LastLiteral(tree, i, t) <==> LastLiteral(tree[..|tree| - 1], i, t)
  {
    var front := tree[..|tree| - 1];
    assert forall j :: AssignsLiteral(front, j, t) <==> AssignsLiteral(tree, j, t);
  }

  /** The method at place `j` of a class is a test of it under that name. */
  predicate TestMethod(class_: string, body: seq<Member>, j: int, q: Qualified) {
    && 0 <= j < |body| && body[j].Method? && "test_" <= body[j].def.name
    && q == Qualified(class_ + "::" + body[j].def.name, body[j].def)
  }

  ghost predicate Defines(n: Node, q: Qualified) {
    match n
    case Function(d) => "test_" <= d.name && q == Qualified(d.name, d)
    case Class(name, body) => "Test" <= name && exists j :: TestMethod(name, body, j, q)
    case _ => false
  }

  lemma {:induction false} MethodsAre(class_: string, body: seq<Member>, q: Qualified)
    ensures q in Methods(class_, body) <==> exists j :: TestMethod(class_, body, j, q)
  {
    if body != [] {
      var m := |body| - 1;
      MethodsAre(class_, body[..m], q);
      assert q in Methods(class_, body) <==> q in Methods(class_, body[..m]) || TestMethod(class_, body, m, q);
      forall j ensures TestMethod(class_, body, j, q)
        <==> TestMethod(class_, body[..m], j, q) || (j == m && TestMethod(class_, body, m, q))
      {
      }
    }
  }

  lemma {:induction false} InGather<T, U>(xs: seq<T>, f: T -> seq<U>, y: U)
    ensures y in Gather(xs, f) <==> exists i :: 0 <= i < |xs| && y in f(xs[i])
  {
    if xs != [] {
      var m := |xs| - 1;
      InGather(xs[..m], f, y);
      if i :| 0 <= i < m && y in f(xs[..m][i]) {
        assert y in f(xs[i]);
      }
      if i :| 0 <= i < |xs| && y in f(xs[i]) {
        assert i < m ==> y in f(xs[..m][i]);
      }
    }
  }

  lemma DefinesIff(n: Node, q: Qualified)
    ensures q in Definitions(n) <==> Defines(n, q)
  {
    if n.Class? {
      MethodsAre(n.name, n.body, q);
    }
  }

  /** What counts: module-level functions named test_ and methods named test_ of
      classes named Test, each under the name pytest knows it by. */
  lemma DefinitionsAre(tree: seq<Node>, q: Qualified)
    ensures q in AllDefinitions(tree) <==> exists i :: 0 <= i < |tree| && Defines(tree[i], q)
  {
    DefinitionsAreGathered(tree);
    InGather(tree, Definitions, q);
    forall n ensures q in Definitions(n) <==> Defines(n, q) {
      DefinesIff(n, q);
    }
  }

  // ------------------------------------------------------------------ skips

  /** The skipped cases, as a sum over the definitions that a decorator skips. */
  function SkippedCases(defs: seq<Qualified>, consts: Consts): nat {
    if defs == [] then 0
    else
      var q := defs[|defs| - 1];
      var m := Product(q.def.decorators, consts);
      SkippedCases(defs[..|defs| - 1], consts) + if q.def.skip && m.Some? then m.value else 0
  }

  lemma {:induction false} SkippedConcat(a: seq<Case>, b: seq<Case>)
    ensures Skipped(a + b) == Skipped(a) + Skipped(b)
  {
    if b == [] {
      assert a + b == a;
    } else {
      assert (a + b)[..|a + b| - 1] == a + b[..|b| - 1];
      SkippedConcat(a, b[..|b| - 1]);
    }
  }

  lemma {:induction false} SkippedTogether(cases: seq<Case>, skip: bool)
    requires forall i :: 0 <= i < |cases| ==> cases[i].def.skip == skip
    ensures Skipped(cases) == if skip then |cases| else 0
  {
    if cases != [] {
      SkippedTogether(cases[..|cases| - 1], skip);
    }
  }

  /** A skipped definition skips all its cases, and nothing else is skipped. */
  lemma {:induction false} SkipCount(defs: seq<Qualified>, consts: Consts)
    requires Cases(defs, consts).Some?
    ensures Skipped(Cases(defs, consts).value) == SkippedCases(defs, consts)
  {
    if defs != [] {
      var front, q := defs[..|defs| - 1], defs[|defs| - 1];
      var here := Expand(q, Product(q.def.decorators, consts).value);
      SkipCount(front, consts);
      SkippedConcat(Cases(front, consts).value, here);
      SkippedTogether(here, q.def.skip);
    }
  }
}
