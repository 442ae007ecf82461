/** What every step of the protocol keeps, hence what holds in every world of every run. */
module FixtureInvariants {
  import opened FixtureState
  import opened FixtureProtocol

  // ---------------------------------------------------------------- occupancy

  lemma {:induction false} OccupancyUpdate(hs: seq<Handler>, h: nat, x: Handler, k: Key)
    requires h < |hs|
    ensures Occupancy(hs[h := x], k)
         == Occupancy(hs, k) - (if hs[h].HeldOn(k) then 1 else 0) + (if x.HeldOn(k) then 1 else 0)
  {
    var n := |hs| - 1;
    if h == n {
      assert hs[h := x][..n] == hs[..n];
    } else {
      assert hs[h := x][..n] == hs[..n][h := x];
      OccupancyUpdate(hs[..n], h, x, k);
    }
  }

  lemma {:induction false} OccupancyNotified(hs: seq<Handler>, k: Key)
    ensures Occupancy(Notified(hs), k) == Occupancy(hs, k)
  {
    if hs != [] {
      var n := |hs| - 1;
      assert Notified(hs)[..n] == Notified(hs[..n]);
      OccupancyNotified(hs[..n], k);
    }
  }

  lemma {:induction false} OccupancyPositive(hs: seq<Handler>, h: nat, k: Key)
    requires h < |hs| && hs[h].HeldOn(k)
    ensures Occupancy(hs, k) >= 1
  {
    if h < |hs| - 1 {
      OccupancyPositive(hs[..|hs| - 1], h, k);
    }
  }

  lemma {:induction false} OccupancyAtMostOne(hs: seq<Handler>, k: Key)
    requires forall i, j :: 0 <= i < j < |hs| ==> !(hs[i].HeldOn(k) && hs[j].HeldOn(k))
    ensures Occupancy(hs, k) <= 1
  {
    if hs != [] {
      var n := |hs| - 1;
      OccupancyAtMostOne(hs[..n], k);
      if hs[n].HeldOn(k) {
        OccupancyZero(hs[..n], k);
      }
    }
  }

  lemma {:induction false} OccupancyZero(hs: seq<Handler>, k: Key)
    requires forall i :: 0 <= i < |hs| ==> !hs[i].HeldOn(k)
    ensures Occupancy(hs, k) == 0
  {
    if hs != [] {
      OccupancyZero(hs[..|hs| - 1], k);
    }
  }

  /** The in-flight count is the number of handlers in the held region. */
  ghost predicate Occupied(w: World) {
    forall k :: w.sh.Inflight(k) == Occupancy(w.hs, k)
  }

  /** What one critical section adds to the count is what it adds to the region. */
  lemma SectionBalances(sh: Shared, x: Handler, k: Key)
    requires x.Wants() != NoLock
    ensures var (sh', y) := Section(sh, x);
      sh'.Inflight(k) - sh.Inflight(k)
        == (if y.HeldOn(k) then 1 else 0) - (if x.HeldOn(k) then 1 else 0)
  {
  }

  lemma OccupiedStep(w: World, a: Action)
    requires Occupied(w) && Enabled(w, a)
    ensures Occupied(Apply(w, a))
  {
    forall k ensures Apply(w, a).sh.Inflight(k) == Occupancy(Apply(w, a).hs, k) {
      OccupiedStepAt(w, a, k);
    }
  }

  lemma OccupiedStepAt(w: World, a: Action, k: Key)
    requires Enabled(w, a) && w.sh.Inflight(k) == Occupancy(w.hs, k)
    ensures Apply(w, a).sh.Inflight(k) == Occupancy(Apply(w, a).hs, k)
  {
    match a
    case Spawn(req) => assert (w.hs + [Fresh(req)])[..|w.hs|] == w.hs;
    case Acquire(h) => OccupancyUpdate(w.hs, h, w.hs[h].(inside := true), k);
    case Timeout(h) => OccupancyUpdate(w.hs, h, w.hs[h].(pc := Expired), k);
    case Body(h) =>
      var (sh, x) := Section(w.sh, w.hs[h]);
      var hs := if w.hs[h].pc == Increment then Notified(w.hs) else w.hs;
      assert Occupancy(hs, k) == Occupancy(w.hs, k) by { OccupancyNotified(w.hs, k); }
      assert hs[h] == w.hs[h];
      SectionBalances(w.sh, w.hs[h], k);
      OccupancyUpdate(hs, h, x, k);
  }

  // -------------------------------------------------------------------- locks

  /** No handler is inside a section without standing at one, and no two are
      inside sections of the same lock. */
  ghost predicate Locked(w: World) {
    && (forall i :: 0 <= i < |w.hs| && w.hs[i].inside ==> w.hs[i].Wants() != NoLock)
    && (forall i, j :: 0 <= i < j < |w.hs| && w.hs[i].inside && w.hs[j].inside
          ==> w.hs[i].Wants() != w.hs[j].Wants())
  }

  /** Handler `i` of `v` is inside a section that it was inside of in `w`. */
  predicate StillInside(w: World, v: World, i: int)
    requires 0 <= i < |v.hs|
  {
    i < |w.hs| && w.hs[i].inside && v.hs[i].Wants() == w.hs[i].Wants()
  }

  lemma LockedWhenNobodyEnters(w: World, v: World)
    requires Locked(w) && forall i :: 0 <= i < |v.hs| && v.hs[i].inside ==> StillInside(w, v, i)
    ensures Locked(v)
  {
  }

  /** Only taking a lock puts a handler inside a section. */
  lemma NobodyEnters(w: World, a: Action, i: int)
    requires Locked(w) && Enabled(w, a) && !a.Acquire?
    requires 0 <= i < |Apply(w, a).hs| && Apply(w, a).hs[i].inside
    ensures StillInside(w, Apply(w, a), i)
  {
    if a.Body? {
      assert i != a.h by { SectionLeaves(w.sh, w.hs[a.h]); }
    }
  }

  lemma SectionLeaves(sh: Shared, x: Handler)
    requires x.Wants() != NoLock
    ensures !Section(sh, x).1.inside
  {
  }

  lemma LockedAcquire(w: World, h: nat)
    requires Locked(w) && Enabled(w, Acquire(h))
    ensures Locked(Apply(w, Acquire(h)))
  {
  }

  lemma LockedStep(w: World, a: Action)
    requires Locked(w) && Enabled(w, a)
    ensures Locked(Apply(w, a))
  {
    if a.Acquire? {
      LockedAcquire(w, a.h);
    } else {
      forall i | 0 <= i < |Apply(w, a).hs| && Apply(w, a).hs[i].inside ensures StillInside(w, Apply(w, a), i) {
        NobodyEnters(w, a, i);
      }
      LockedWhenNobodyEnters(w, Apply(w, a));
    }
  }

  // --------------------------------------------------------------------- gate

  function Stage(pc: Pc): nat {
    match pc
    case Arrive => 0
    case ReadEpoch => 1
    case Increment => 1
    case Publish => 2
    case Check => 3
    case Sleep => 3
    case Expired => 3
    case Retire => 4
    case Done(_) => 5
  }

  /** A handler never remembers an epoch from the future; one that sleeps has an
      epoch nobody has raised since; one that was woken has one somebody has. */
  predicate InStep(sh: Shared, x: Handler) {
    && (2 <= Stage(x.pc) <= 4 ==> x.req.Call? && x.seen <= sh.Epoch(x.req.key))
    && (x.pc == ReadEpoch ==> x.req.Call?)
    && (x.pc == Increment ==> x.req.Release?)
    && (x.pc == Sleep ==> sh.Epoch(x.req.key) == x.seen)
    && (x.woken ==> x.Left() && x.req.Call? && x.seen < sh.Epoch(x.req.key))
  }

  ghost predicate Gated(w: World) {
    forall i :: 0 <= i < |w.hs| ==> InStep(w.sh, w.hs[i])
  }

  /** A section leaves its own handler in step. */
  lemma SectionKeepsOwnStep(sh: Shared, x: Handler)
    requires x.Wants() != NoLock && InStep(sh, x)
    ensures InStep(Section(sh, x).0, Section(sh, x).1)
  {
  }

  /** No section but a raise moves an epoch, and a raise moves its own key's. */
  lemma SectionEpochs(sh: Shared, x: Handler, k: Key)
    requires x.Wants() != NoLock
    ensures Section(sh, x).0.Epoch(k) == sh.Epoch(k) + if x.pc == Increment && x.req.key == k then 1 else 0
  {
  }

  /** And everybody else, given that a raise notifies the sleepers. */
  lemma SectionKeepsStep(sh: Shared, x: Handler, z: Handler)
    requires x.Wants() != NoLock && InStep(sh, z)
    ensures InStep(Section(sh, x).0, if x.pc == Increment && z.pc == Sleep then z.(pc := Check) else z)
  {
    SectionEpochs(sh, x, z.req.key);
  }

  lemma GatedStep(w: World, a: Action)
    requires Gated(w) && Enabled(w, a)
    ensures Gated(Apply(w, a))
  {
    var w' := Apply(w, a);
    forall i | 0 <= i < |w'.hs| ensures InStep(w'.sh, w'.hs[i]) {
      if i < |w.hs| && a.Body? {
        SectionKeepsOwnStep(w.sh, w.hs[a.h]);
        SectionKeepsStep(w.sh, w.hs[a.h], w.hs[i]);
      }
    }
  }

  /** A handler keeps its request, only moves forward, and its number and its
      epoch never change once assigned. */
  lemma HandlerKeeps(w: World, a: Action, h: nat)
    requires Enabled(w, a) && h < |w.hs|
    ensures h < |Apply(w, a).hs|
    ensures var x, y := w.hs[h], Apply(w, a).hs[h];
      && y.req == x.req
      && Stage(x.pc) <= Stage(y.pc)
      && (x.pc.Done? ==> y == x || y == x.(inside := y.inside))
      && (Stage(x.pc) >= 1 ==> y.attempt == x.attempt && y.held == x.held)
      && (Stage(x.pc) >= 2 ==> y.seen == x.seen)
      && (x.Left() ==> y.woken == x.woken)
      && (y.pc.Done? && !x.pc.Done? ==> a == Body(h))
  {
  }

  // ---------------------------------------------------------------- numbering

  /** Handler `h` is the call numbered `a` on `k`. */
  predicate Numbered(hs: seq<Handler>, h: int, k: Key, a: int) {
    0 <= h < |hs| && hs[h].CallOn(k) && hs[h].attempt == a
  }

  /** What a numbered call's answer must be, or where it may still be. */
  predicate Consistent(x: Handler) {
    x.req.Call? ==>
      match x.pc
      case Arrive => x.attempt == 0 && x.req.key != ""
      case Done(r) =>
        if x.req.key == "" then x.attempt == 0 && r == KeyRequired
        else x.attempt >= 1 && r == (match Judge(x.req, x.attempt)
                                     case Answer(reply) => reply
                                     case Hold => Success(x.attempt))
      case _ => x.attempt >= 1 && x.req.key != "" && Judge(x.req, x.attempt) == Hold
  }

  ghost predicate Logged(sh: Shared, x: Handler) {
    x.req.Call? && x.attempt != 0 ==>
      1 <= x.attempt <= |sh.Log(x.req.key)| && sh.Log(x.req.key)[x.attempt - 1] == x.req.op
  }

  ghost predicate Tallied(w: World) {
    forall k :: w.sh.Counts(k) == |w.sh.Log(k)|
  }

  ghost predicate Recorded(w: World) {
    forall i {:trigger w.hs[i]} :: 0 <= i < |w.hs| ==> Consistent(w.hs[i]) && Logged(w.sh, w.hs[i])
  }

  ghost predicate Injective(w: World) {
    forall i, j, k, a ::
      i != j && a >= 1 && Numbered(w.hs, i, k, a) ==> !Numbered(w.hs, j, k, a)
  }

  ghost predicate Witness(w: World, k: Key, a: int) {
    exists h :: Numbered(w.hs, h, k, a)
  }

  ghost predicate Onto(w: World) {
    forall k, a :: 1 <= a <= w.sh.Counts(k) ==> Witness(w, k, a)
  }

  ghost predicate Counting(w: World) {
    Tallied(w) && Recorded(w) && Injective(w) && Onto(w)
  }

  lemma TalliedStep(w: World, a: Action)
    requires Tallied(w) && Enabled(w, a)
    ensures Tallied(Apply(w, a))
  {
    forall k ensures Apply(w, a).sh.Counts(k) == |Apply(w, a).sh.Log(k)| {
      assert w.sh.Counts(k) == |w.sh.Log(k)|;
    }
  }

  lemma SectionKeepsRecord(sh: Shared, x: Handler, z: Handler)
    requires x.Wants() != NoLock && InStep(sh, x)
    requires Consistent(x) && Logged(sh, x) && Consistent(z) && Logged(sh, z)
    requires sh.Counts(x.req.key) == |sh.Log(x.req.key)|
    ensures Consistent(Section(sh, x).1) && Logged(Section(sh, x).0, Section(sh, x).1)
    ensures Logged(Section(sh, x).0, z)
  {
  }

  lemma RecordedStep(w: World, a: Action)
    requires Tallied(w) && Recorded(w) && Gated(w) && Enabled(w, a)
    ensures Recorded(Apply(w, a))
  {
    var w' := Apply(w, a);
    forall i | 0 <= i < |w'.hs|
      ensures Consistent(w'.hs[i]) && Logged(w'.sh, w'.hs[i])
    {
      if i < |w.hs| && a.Body? {
        var x := w.hs[a.h];
        assert w.sh.Counts(x.req.key) == |w.sh.Log(x.req.key)|;
        SectionKeepsRecord(w.sh, x, w.hs[i]);
      }
    }
  }

  /** A number a handler has after a step it either had before, or took as the
      next one on its key in that step. */
  lemma NumberedBack(w: World, a: Action, h: nat, k: Key, n: int)
    requires Tallied(w) && Recorded(w) && Gated(w) && Enabled(w, a) && n >= 1
    requires Numbered(Apply(w, a).hs, h, k, n)
    ensures Numbered(w.hs, h, k, n) || (a == Body(h) && n == w.sh.Counts(k) + 1)
    ensures Numbered(w.hs, h, k, n) ==> n <= w.sh.Counts(k)
  {
    assert w.sh.Counts(k) == |w.sh.Log(k)|;
    if h < |w.hs| {
      assert Consistent(w.hs[h]) && Logged(w.sh, w.hs[h]);
    }
  }

  lemma InjectiveStep(w: World, a: Action)
    requires Counting(w) && Gated(w) && Enabled(w, a)
    ensures Injective(Apply(w, a))
  {
    var w' := Apply(w, a);
    forall i, j, k, n | i != j && n >= 1 && Numbered(w'.hs, i, k, n) && Numbered(w'.hs, j, k, n)
      ensures false
    {
      NumberedBack(w, a, i, k, n);
      NumberedBack(w, a, j, k, n);
    }
  }

  lemma OntoStep(w: World, a: Action)
    requires Counting(w) && Gated(w) && Enabled(w, a)
    ensures Onto(Apply(w, a))
  {
    var w' := Apply(w, a);
    forall k, n | 1 <= n <= w'.sh.Counts(k)
      ensures Witness(w', k, n)
    {
      if n <= w.sh.Counts(k) {
        assert Witness(w, k, n);
        var h :| Numbered(w.hs, h, k, n);
        assert Consistent(w.hs[h]);
        HandlerKeeps(w, a, h);
        assert Numbered(w'.hs, h, k, n);
      } else {
        assert Numbered(w'.hs, a.h, k, n);
      }
    }
  }

  // --------------------------------------------------------- every world of a run

  ghost predicate Inv(w: World) {
    Occupied(w) && Locked(w) && Gated(w) && Counting(w)
  }

  lemma {:induction false} InvHolds(ws: seq<World>, acts: seq<Action>, n: nat)
    requires IsRun(ws, acts) && n < |ws|
    ensures Inv(ws[n])
  {
    if n == 0 {
      assert forall k :: START.sh.Log(k) == [];
    } else {
      InvHolds(ws, acts, n - 1);
      OccupiedStep(ws[n - 1], acts[n - 1]);
      LockedStep(ws[n - 1], acts[n - 1]);
      GatedStep(ws[n - 1], acts[n - 1]);
      TalliedStep(ws[n - 1], acts[n - 1]);
      RecordedStep(ws[n - 1], acts[n - 1]);
      InjectiveStep(ws[n - 1], acts[n - 1]);
      OntoStep(ws[n - 1], acts[n - 1]);
    }
  }

  /** HandlerKeeps over any stretch of a run. */
  lemma {:induction false} HandlerKeepsLong(ws: seq<World>, acts: seq<Action>, m: nat, n: nat, h: nat)
    requires IsRun(ws, acts) && m <= n < |ws| && h < |ws[m].hs|
    ensures h < |ws[n].hs|
    ensures var x, y := ws[m].hs[h], ws[n].hs[h];
      && y.req == x.req
      && Stage(x.pc) <= Stage(y.pc)
      && (Stage(x.pc) >= 1 ==> y.attempt == x.attempt && y.held == x.held)
      && (Stage(x.pc) >= 2 ==> y.seen == x.seen)
      && (x.Left() ==> y.woken == x.woken)
      && (x.pc.Done? ==> y.pc == x.pc)
    decreases n - m
  {
    if m < n {
      HandlerKeepsLong(ws, acts, m, n - 1, h);
      HandlerKeeps(ws[n - 1], acts[n - 1], h);
    }
  }
}
