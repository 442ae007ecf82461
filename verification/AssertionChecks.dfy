/** Did every unconditional check of a passing test execute? The tree walk that
    finds the checks, and the verdict over a whole suite. */
module AssertionChecks {

  /** Syntax-tree nodes, as far as the walk tells them apart. A loop is a `for` or
      a `while`; a call carries the last component of the name it calls. */
  datatype Kind = If | Try | Handler | Loop | Assert | Call(name: string) | Other

  /** `orelse` is the else part of a loop; everything else a node holds, in the
      order in which the walk meets it, is in `front`. */
  datatype Node = Node(kind: Kind, line: int, front: seq<Node>, orelse: seq<Node>) {
    function Arity(): nat { |front| + |orelse| }

    function Child(i: nat): (c: Node)
      requires i < Arity()
      ensures c < this && c == (front + orelse)[i]
    {
      if i < |front| then front[i] else orelse[i - |front|]
    }

    /** The edge to child `i` leaves a construct that may skip it. */
    predicate Guards(i: nat) {
      kind in {If, Try, Handler} || (kind == Loop && i >= |front|)
    }
  }

  datatype CheckKind = Assertion | Waiter(name: string) | Failing

  datatype Found = Found(line: int, kind: CheckKind, guarded: bool)

  const WAITERS := {"wait_until", "await_terminal"}
  const FAILURES := {"fail"}

  /** What one visited node contributes. */
  function Entry(n: Node, g: bool): seq<Found> {
    match n.kind
    case Assert => [Found(n.line, Assertion, g)]
    case Call(name) =>
      if name in WAITERS then [Found(n.line, Waiter(name), g)]
      else if name in FAILURES then [Found(n.line, Failing, true)]
      else []
    case _ => []
  }

  function Walk(n: Node, guarded: bool): seq<Found>
    decreases n, n.Arity() + 1
  {
    WalkFrom(n, 0, guarded)
  }

  function WalkFrom(n: Node, i: nat, guarded: bool): seq<Found>
    requires i <= n.Arity()
    decreases n, n.Arity() - i
  {
    if i == n.Arity() then []
    else
      var g := guarded || n.Guards(i);
      Entry(n.Child(i), g) + Walk(n.Child(i), g) + WalkFrom(n, i + 1, guarded)
  }

  lemma Regroup(done: seq<Found>, more: seq<Found>, rest: seq<Found>)
    ensures done + (more + rest) == (done + more) + rest
  {
  }

  lemma WalkStep(n: Node, i: nat, guarded: bool, done: seq<Found>, all: seq<Found>)
    requires i < n.Arity() && done + WalkFrom(n, i, guarded) == all
    ensures done + Step(n, i, guarded) + WalkFrom(n, i + 1, guarded) == all
  {
    Regroup(done, Step(n, i, guarded), WalkFrom(n, i + 1, guarded));
  }

  /** One child's share of the walk: the child itself, then what is below it. */
  function Step(n: Node, i: nat, guarded: bool): seq<Found>
    requires i < n.Arity()
  {
    var g := guarded || n.Guards(i);
    Entry(n.Child(i), g) + Walk(n.Child(i), g)
  }

  /** The list that the nested walk appends to. */
  class Checks {
    var found: seq<Found>

    constructor ()
      ensures found == []
    {
      found := [];
    }

    method Note(child: Node, g: bool)
      modifies this
      ensures found == old(found) + Entry(child, g)
    {
      if child.kind.Assert? {
        found := found + [Found(child.line, Assertion, g)];
      } else if child.kind.Call? {
        if child.kind.name in WAITERS {
          found := found + [Found(child.line, Waiter(child.kind.name), g)];
        } else if child.kind.name in FAILURES {
          found := found + [Found(child.line, Failing, true)];
        }
      }
    }

    method Visit(n: Node, guarded: bool)
      modifies this
      ensures found == old(found) + Walk(n, guarded)
      decreases n
    {
      ghost var done := [];
      for i := 0 to n.Arity()
        invariant found == old(found) + done
        invariant done + WalkFrom(n, i, guarded) == Walk(n, guarded)
      {
        var child := n.Child(i);
        var g := guarded || n.kind in {If, Try, Handler};
        if n.kind == Loop && i >= |n.front| {
          g := true;
        }
        Note(child, g);
        Visit(child, g);
        WalkStep(n, i, guarded, done, Walk(n, guarded));
        assert g == (guarded || n.Guards(i));
        Regroup(old(found) + done, Entry(child, g), Walk(child, g));
        Regroup(old(found), done, Step(n, i, guarded));
        done := done + Step(n, i, guarded);
      }
    }
  }

  method ChecksIn(fn: Node) returns (found: seq<Found>)
    ensures found == Walk(fn, false)
  {
    var checks := new Checks();
    checks.Visit(fn, false);
    found := checks.found;
  }

  // ------------------------------------------------------- what the walk finds, by paths

  /** The way from a node down to one of its descendants. */
  type Path = seq<nat>

  predicate IsPath(n: Node, p: Path)
    decreases |p|
  {
    p == [] || (p[0] < n.Arity() && IsPath(n.Child(p[0]), p[1..]))
  }

  function NodeAt(n: Node, p: Path): Node
    requires IsPath(n, p)
    decreases |p|
  {
    if p == [] then n else NodeAt(n.Child(p[0]), p[1..])
  }

  lemma {:induction false} PrefixIsPath(n: Node, p: Path, i: nat)
    requires IsPath(n, p) && i <= |p|
    ensures IsPath(n, p[..i])
    ensures i < |p| ==> p[i] < NodeAt(n, p[..i]).Arity()
    decreases |p|
  {
    if i > 0 {
      assert p[..i][1..] == p[1..][..i - 1];
      PrefixIsPath(n.Child(p[0]), p[1..], i - 1);
    }
  }

  /** Some edge on the path leaves an if, a try or a handler, or enters a loop's else. */
  ghost predicate Guarded(n: Node, p: Path)
    requires IsPath(n, p)
  {
    exists i :: 0 <= i < |p| && GuardedEdge(n, p, i)
  }

  ghost predicate GuardedEdge(n: Node, p: Path, i: nat)
    requires IsPath(n, p) && i < |p|
  {
    PrefixIsPath(n, p, i);
    NodeAt(n, p[..i]).Guards(p[i])
  }

  /** In terms of the constructs: the edge leaves an if, a try or a handler, or is
      one into the else part of a loop. */
  ghost predicate MayBeSkipped(n: Node, p: Path, i: nat)
    requires IsPath(n, p) && i < |p|
  {
    PrefixIsPath(n, p, i);
    var from := NodeAt(n, p[..i]);
    || from.kind == If || from.kind == Try || from.kind == Handler
    || (from.kind == Loop && p[i] >= |from.front|)
  }

  /** What is guarded is exactly what stands below an if, a try or a handler, or in
      the else part of a loop, at any depth. */
  lemma GuardedIff(n: Node, p: Path)
    requires IsPath(n, p)
    ensures Guarded(n, p) <==> exists i :: 0 <= i < |p| && MayBeSkipped(n, p, i)
  {
    forall i | 0 <= i < |p| ensures GuardedEdge(n, p, i) <==> MayBeSkipped(n, p, i) {
    }
  }

  /** What is noted: an assert and a waiting call with the guard of their place, a fail
      call as guarded wherever it stands, and nothing else. */
  lemma NotedIs(n: Node, g: bool, f: Found)
    ensures f in Entry(n, g) <==>
      || (n.kind == Assert && f == Found(n.line, Assertion, g))
      || (n.kind in {Call("wait_until"), Call("await_terminal")} && f == Found(n.line, Waiter(n.kind.name), g))
      || (n.kind == Call("fail") && f == Found(n.line, Failing, true))
    ensures |Entry(n, g)| <= 1
  {
  }

  lemma GuardedUnfold(n: Node, p: Path)
    requires IsPath(n, p) && p != []
    ensures Guarded(n, p) <==> n.Guards(p[0]) || Guarded(n.Child(p[0]), p[1..])
  {
    var c, q := n.Child(p[0]), p[1..];
    forall i | 0 <= i < |q| ensures GuardedEdge(c, q, i) <==> GuardedEdge(n, p, i + 1) {
      assert p[..i + 1][1..] == q[..i];
      PrefixIsPath(n, p, i + 1);
    }
    assert GuardedEdge(n, p, 0) <==> n.Guards(p[0]);
    if Guarded(n, p) && !n.Guards(p[0]) {
      var i :| 0 <= i < |p| && GuardedEdge(n, p, i);
      assert GuardedEdge(c, q, i - 1);
    }
    if Guarded(c, q) {
      var i :| 0 <= i < |q| && GuardedEdge(c, q, i);
      assert GuardedEdge(n, p, i + 1);
    }
  }

  /** Pre-order: a node before what is below it, and left before right. */
  predicate Before(p: Path, q: Path)
    decreases |p|
  {
    q != [] && (p == [] || p[0] < q[0] || (p[0] == q[0] && Before(p[1..], q[1..])))
  }

  function Under(i: nat, ps: seq<Path>): (r: seq<Path>)
    ensures |r| == |ps|
    ensures forall j :: 0 <= j < |ps| ==> r[j] == [i] + ps[j]
  {
    seq(|ps|, j requires 0 <= j < |ps| => [i] + ps[j])
  }

  /** Every path below the node, in the order of the walk. */
  function Paths(n: Node): seq<Path>
    decreases n, n.Arity() + 1
  {
    PathsFrom(n, 0)
  }

  function PathsFrom(n: Node, i: nat): seq<Path>
    requires i <= n.Arity()
    decreases n, n.Arity() - i
  {
    if i == n.Arity() then []
    else [[i]] + Under(i, Paths(n.Child(i))) + PathsFrom(n, i + 1)
  }

  ghost predicate AllPaths(n: Node, ps: seq<Path>) {
    forall j :: 0 <= j < |ps| ==> ps[j] != [] && IsPath(n, ps[j])
  }

  /** The listing leaves nothing out and invents nothing. */
  lemma {:induction false} PathsFromComplete(n: Node, i: nat)
    requires i <= n.Arity()
    ensures forall p :: p in PathsFrom(n, i) <==> p != [] && IsPath(n, p) && p[0] >= i
    decreases n, n.Arity() - i
  {
    if i < n.Arity() {
      var c := n.Child(i);
      PathsFromComplete(c, 0);
      PathsFromComplete(n, i + 1);
      forall p ensures p in [[i]] + Under(i, Paths(c)) <==> p != [] && IsPath(n, p) && p[0] == i {
        UnderComplete(n, i, p);
      }
    }
  }

  lemma UnderComplete(n: Node, i: nat, p: Path)
    requires i < n.Arity()
    requires forall q :: q in Paths(n.Child(i)) <==> q != [] && IsPath(n.Child(i), q)
    ensures p in [[i]] + Under(i, Paths(n.Child(i))) <==> p != [] && IsPath(n, p) && p[0] == i
  {
    var below := Paths(n.Child(i));
    if p in Under(i, below) {
      var j :| 0 <= j < |below| && Under(i, below)[j] == p;
      assert p[1..] == below[j] && below[j] in below;
    }
    if p != [] && IsPath(n, p) && p[0] == i && p != [i] {
      assert p == [i] + p[1..] && p[1..] in below;
      var j :| 0 <= j < |below| && below[j] == p[1..];
      assert Under(i, below)[j] == p;
    }
  }

  ghost predicate Ordered(ps: seq<Path>) {
    forall a, b :: 0 <= a < b < |ps| ==> Before(ps[a], ps[b])
  }

  /** And it is in strict pre-order, hence without repetition. */
  lemma {:induction false} PathsFromOrdered(n: Node, i: nat)
    requires i <= n.Arity()
    ensures Ordered(PathsFrom(n, i))
    decreases n, n.Arity() - i
  {
    if i < n.Arity() {
      var c := n.Child(i);
      PathsFromOrdered(c, 0);
      PathsFromOrdered(n, i + 1);
      PathsFromComplete(c, 0);
      PathsFromComplete(n, i + 1);
      var ps := [[i]] + Under(i, Paths(c)) + PathsFrom(n, i + 1);
      forall a, b | 0 <= a < b < |ps| ensures Before(ps[a], ps[b]) {
        OrderOfParts(i, Paths(c), PathsFrom(n, i + 1), a, b);
      }
    }
  }

  lemma OrderOfParts(i: nat, below: seq<Path>, rest: seq<Path>, a: nat, b: nat)
    requires a < b < 1 + |below| + |rest|
    requires forall x :: x in below ==> x != []
    requires forall x :: x in rest ==> x != [] && x[0] > i
    requires Ordered(below) && Ordered(rest)
    ensures var ps := [[i]] + Under(i, below) + rest; Before(ps[a], ps[b])
  {
    var ps := [[i]] + Under(i, below) + rest;
    var n := 1 + |below|;
    if b >= n {
      assert ps[b] == rest[b - n] && rest[b - n] in rest;
      if a >= n {
        assert ps[a] == rest[a - n];
      } else if a > 0 {
        assert ps[a] == [i] + below[a - 1];
      }
    } else {
      assert ps[b] == [i] + below[b - 1] && ps[b][1..] == below[b - 1] && below[b - 1] in below;
      if a > 0 {
        assert ps[a] == [i] + below[a - 1] && ps[a][1..] == below[a - 1];
      } else {
        assert ps[0][1..] == [];
      }
    }
  }

  /** The entries of the nodes at the given paths, each with its own guard. */
  ghost function EntriesAt(n: Node, g: bool, ps: seq<Path>): seq<Found>
    requires AllPaths(n, ps)
  {
    if ps == [] then []
    else Entry(NodeAt(n, ps[0]), g || Guarded(n, ps[0])) + EntriesAt(n, g, ps[1..])
  }

  lemma {:induction false} EntriesConcat(n: Node, g: bool, ps: seq<Path>, qs: seq<Path>)
    requires AllPaths(n, ps) && AllPaths(n, qs)
    ensures AllPaths(n, ps + qs)
    ensures EntriesAt(n, g, ps + qs) == EntriesAt(n, g, ps) + EntriesAt(n, g, qs)
  {
    if ps == [] {
      assert ps + qs == qs;
    } else {
      assert (ps + qs)[1..] == ps[1..] + qs;
      EntriesConcat(n, g, ps[1..], qs);
    }
  }

  lemma {:induction false} EntriesUnder(n: Node, g: bool, i: nat, ps: seq<Path>)
    requires i < n.Arity() && AllPaths(n.Child(i), ps)
    ensures AllPaths(n, Under(i, ps))
    ensures EntriesAt(n, g, Under(i, ps)) == EntriesAt(n.Child(i), g || n.Guards(i), ps)
  {
    assert forall j :: 0 <= j < |ps| ==> Under(i, ps)[j][1..] == ps[j];
    if ps != [] {
      assert Under(i, ps)[1..] == Under(i, ps[1..]);
      EntriesUnder(n, g, i, ps[1..]);
      GuardedUnfold(n, Under(i, ps)[0]);
    }
  }

  lemma EntryOfChild(n: Node, i: nat, g: bool)
    requires i < n.Arity()
    ensures AllPaths(n, [[i]])
    ensures EntriesAt(n, g, [[i]]) == Entry(n.Child(i), g || n.Guards(i))
  {
    assert [i][1..] == [];
    GuardedUnfold(n, [i]);
    assert !Guarded(n.Child(i), []);
    assert NodeAt(n, [i]) == n.Child(i);
    assert [[i]][1..] == [];
  }

  /** One child and what is below it, given what is below it on its own. */
  lemma StepIsEntries(n: Node, i: nat, g: bool)
    requires i < n.Arity() && AllPaths(n.Child(i), Paths(n.Child(i)))
    requires var h := g || n.Guards(i);
      Walk(n.Child(i), h) == EntriesAt(n.Child(i), h, Paths(n.Child(i)))
    ensures var here := [[i]] + Under(i, Paths(n.Child(i)));
      AllPaths(n, here) && Step(n, i, g) == EntriesAt(n, g, here)
  {
    var c := n.Child(i);
    EntriesUnder(n, g, i, Paths(c));
    EntryOfChild(n, i, g);
    EntriesConcat(n, g, [[i]], Under(i, Paths(c)));
  }

  lemma {:induction false} WalkFromIsEntries(n: Node, i: nat, g: bool)
    requires i <= n.Arity()
    ensures AllPaths(n, PathsFrom(n, i))
    ensures WalkFrom(n, i, g) == EntriesAt(n, g, PathsFrom(n, i))
    decreases n, n.Arity() - i
  {
    if i < n.Arity() {
      var here, later := [[i]] + Under(i, Paths(n.Child(i))), PathsFrom(n, i + 1);
      assert AllPaths(n, here) && Step(n, i, g) == EntriesAt(n, g, here) by {
        WalkFromIsEntries(n.Child(i), 0, g || n.Guards(i));
        StepIsEntries(n, i, g);
      }
      WalkFromIsEntries(n, i + 1, g);
      EntriesConcat(n, g, here, later);
      assert PathsFrom(n, i) == here + later;
    }
  }

  /** The walk reports every check once, in pre-order, each with the guard of its
      own path: the paths below the node, in strict pre-order and none left out. */
  lemma WalkIsExact(n: Node)
    ensures AllPaths(n, Paths(n))
    ensures Walk(n, false) == EntriesAt(n, false, Paths(n))
    ensures forall p :: p in Paths(n) <==> p != [] && IsPath(n, p)
    ensures Ordered(Paths(n))
  {
    WalkFromIsEntries(n, 0, false);
    PathsFromComplete(n, 0);
    PathsFromOrdered(n, 0);
  }

  /** A check at a path: what the walk must say about it. */
  ghost predicate Reports(n: Node, p: Path, f: Found) {
    p != [] && IsPath(n, p) && f in Entry(NodeAt(n, p), Guarded(n, p))
  }

  lemma {:induction false} EntriesAreReports(n: Node, ps: seq<Path>, f: Found)
    requires AllPaths(n, ps)
    ensures f in EntriesAt(n, false, ps) <==> exists j :: 0 <= j < |ps| && Reports(n, ps[j], f)
  {
    if ps != [] {
      EntriesAreReports(n, ps[1..], f);
      if j :| 0 <= j < |ps| && Reports(n, ps[j], f) {
        if j > 0 {
          assert Reports(n, ps[1..][j - 1], f);
        }
      }
      if f in EntriesAt(n, false, ps[1..]) {
        var j :| 0 <= j < |ps[1..]| && Reports(n, ps[1..][j], f);
        assert Reports(n, ps[j + 1], f);
      }
    }
  }

  lemma WalkReports(n: Node, f: Found)
    ensures f in Walk(n, false) <==> exists p :: Reports(n, p, f)
  {
    WalkIsExact(n);
    EntriesAreReports(n, Paths(n), f);
    if p :| Reports(n, p, f) {
      assert p in Paths(n);
      var j :| 0 <= j < |Paths(n)| && Paths(n)[j] == p;
      assert Reports(n, Paths(n)[j], f);
    }
  }
}
