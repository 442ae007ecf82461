/** The promises of the fixture service, over every run of any number of handlers. */
module FixtureTheorems {
  import opened FixtureState
  import opened FixtureProtocol
  import opened FixtureInvariants

  // ------------------------------------------------------- occupancy and peak

  lemma InflightIsExact(ws: seq<World>, acts: seq<Action>, n: nat, k: Key)
    requires IsRun(ws, acts) && n < |ws|
    ensures ws[n].sh.Inflight(k) == Occupancy(ws[n].hs, k)
  {
    InvHolds(ws, acts, n);
  }

  /** The greatest occupancy of `k` in the first `n + 1` worlds. */
  function HighWater(ws: seq<World>, n: nat, k: Key): nat
    requires n < |ws|
  {
    var now := Occupancy(ws[n].hs, k);
    if n == 0 then now else
    var before := HighWater(ws, n - 1, k);
    if now > before then now else before
  }

  lemma {:induction false} HighWaterIsMaximum(ws: seq<World>, n: nat, k: Key)
    requires n < |ws|
    ensures forall m :: 0 <= m <= n ==> Occupancy(ws[m].hs, k) <= HighWater(ws, n, k)
    ensures exists m :: 0 <= m <= n && Occupancy(ws[m].hs, k) == HighWater(ws, n, k)
  {
    if n == 0 {
      assert Occupancy(ws[0].hs, k) == HighWater(ws, 0, k);
    } else {
      HighWaterIsMaximum(ws, n - 1, k);
      if HighWater(ws, n, k) != HighWater(ws, n - 1, k) {
        assert Occupancy(ws[n].hs, k) == HighWater(ws, n, k);
      }
    }
  }

  lemma {:induction false} PeakIsHighWater(ws: seq<World>, acts: seq<Action>, n: nat, k: Key)
    requires IsRun(ws, acts) && n < |ws|
    ensures ws[n].sh.Peak(k) == HighWater(ws, n, k)
  {
    InflightIsExact(ws, acts, n, k);
    if n > 0 {
      InflightIsExact(ws, acts, n - 1, k);
      PeakIsHighWater(ws, acts, n - 1, k);
      PeakStep(ws[n - 1], acts[n - 1], k);
    }
  }

  /** `_peak` is the greatest occupancy of any world so far, and was attained. */
  lemma PeakIsMaximum(ws: seq<World>, acts: seq<Action>, n: nat, k: Key)
    requires IsRun(ws, acts) && n < |ws|
    ensures forall m :: 0 <= m <= n ==> Occupancy(ws[m].hs, k) <= ws[n].sh.Peak(k)
    ensures exists m :: 0 <= m <= n && Occupancy(ws[m].hs, k) == ws[n].sh.Peak(k)
  {
    PeakIsHighWater(ws, acts, n, k);
    HighWaterIsMaximum(ws, n, k);
  }

  lemma FirstSectionHoldsNobody(sh: Shared, y: Handler)
    ensures var sh' := FirstSection(sh, y).0; sh'.inflight == sh.inflight && sh'.peak == sh.peak
  {
  }

  /** A section raises the high-water mark exactly when it passes it. */
  lemma SectionPeak(sh: Shared, x: Handler, k: Key)
    requires x.Wants() != NoLock && sh.Inflight(k) <= sh.Peak(k)
    ensures var sh' := Section(sh, x).0;
      sh'.Peak(k) == if sh'.Inflight(k) > sh.Peak(k) then sh'.Inflight(k) else sh.Peak(k)
  {
    if x.pc == Arrive {
      FirstSectionHoldsNobody(sh, x.(inside := false));
    } else if x.pc == Publish {
      assert Section(sh, x).0 == sh.Published(x.req.key);
    } else if x.pc == Retire {
      assert Section(sh, x).0 == sh.Retired(x.req.key);
    } else {
      assert Section(sh, x).0.(released := sh.released) == sh;
    }
  }

  lemma PeakStep(w: World, a: Action, k: Key)
    requires Enabled(w, a) && w.sh.Inflight(k) <= w.sh.Peak(k)
    ensures var sh := Apply(w, a).sh;
      sh.Peak(k) == if sh.Inflight(k) > w.sh.Peak(k) then sh.Inflight(k) else w.sh.Peak(k)
  {
    if a.Body? {
      SectionPeak(w.sh, w.hs[a.h], k);
    }
  }

  predicate Issues(a: Action, k: Key) {
    a.Spawn? && a.req.Call? && a.req.key == k
  }

  /** Calls on `k` are issued one at a time: each only after every earlier one was answered. */
  ghost predicate Serial(ws: seq<World>, acts: seq<Action>, k: Key)
    requires |acts| < |ws|
  {
    forall i, h | 0 <= i < |acts| && Issues(acts[i], k) && 0 <= h < |ws[i].hs| :: (
      ws[i].hs[h].CallOn(k) ==> ws[i].hs[h].pc.Done?)
  }

  lemma {:induction false} SerialOneOpen(ws: seq<World>, acts: seq<Action>, n: nat, k: Key)
    requires IsRun(ws, acts) && n < |ws| && Serial(ws, acts, k)
    ensures forall i, j | 0 <= i < j < |ws[n].hs| :: (
      ws[n].hs[i].CallOn(k) && ws[n].hs[j].CallOn(k) ==> ws[n].hs[i].pc.Done? || ws[n].hs[j].pc.Done?)
  {
    if n > 0 {
      SerialOneOpen(ws, acts, n - 1, k);
      forall i, j | 0 <= i < j < |ws[n].hs| && ws[n].hs[i].CallOn(k) && ws[n].hs[j].CallOn(k)
        ensures ws[n].hs[i].pc.Done? || ws[n].hs[j].pc.Done?
      {
        HandlerKeeps(ws[n - 1], acts[n - 1], i);
        if j < |ws[n - 1].hs| {
          HandlerKeeps(ws[n - 1], acts[n - 1], j);
        }
      }
    }
  }

  /** Serial work reports a peak of at most one, and of exactly one as soon as
      one of its calls has been held. */
  lemma SerialPeak(ws: seq<World>, acts: seq<Action>, n: nat, k: Key)
    requires IsRun(ws, acts) && n < |ws| && Serial(ws, acts, k)
    ensures ws[n].sh.Peak(k) <= 1
    ensures (exists m, h :: 0 <= m <= n && 0 <= h < |ws[m].hs| && ws[m].hs[h].HeldOn(k))
      ==> ws[n].sh.Peak(k) == 1
  {
    PeakIsMaximum(ws, acts, n, k);
    var m :| 0 <= m <= n && Occupancy(ws[m].hs, k) == ws[n].sh.Peak(k);
    SerialOneOpen(ws, acts, m, k);
    InvHolds(ws, acts, m);
    OccupancyAtMostOne(ws[m].hs, k);
    if p, h :| 0 <= p <= n && 0 <= h < |ws[p].hs| && ws[p].hs[h].HeldOn(k) {
      OccupancyPositive(ws[p].hs, h, k);
    }
  }

  // ------------------------------------------------------------------ releases

  /** A release is owed to this handler or has been honoured: its predicate is
      true and it is not asleep, or it has left because of a release. */
  ghost predicate Owed(w: World, h: nat)
    requires h < |w.hs|
  {
    var x := w.hs[h];
    || (x.pc in {Publish, Check, Expired} && w.sh.Epoch(x.req.key) > x.seen)
    || (x.Left() && x.woken)
  }

  lemma OwedStep(w: World, a: Action, h: nat)
    requires Enabled(w, a) && Gated(w) && h < |w.hs| && Owed(w, h)
    ensures h < |Apply(w, a).hs| && Owed(Apply(w, a), h)
  {
  }

  lemma {:induction false} OwedForever(ws: seq<World>, acts: seq<Action>, m: nat, n: nat, h: nat)
    requires IsRun(ws, acts) && m <= n < |ws| && h < |ws[m].hs| && Owed(ws[m], h)
    ensures h < |ws[n].hs| && Owed(ws[n], h)
    decreases n - m
  {
    if m < n {
      OwedForever(ws, acts, m, n - 1, h);
      InvHolds(ws, acts, n - 1);
      OwedStep(ws[n - 1], acts[n - 1], h);
    }
  }

  /** No lost release: however early after the epoch read a release lands, from
      then on the call's predicate stays true, it never sleeps, and it leaves
      because of a release and not because of its ceiling. */
  lemma NoLostRelease(ws: seq<World>, acts: seq<Action>, j: nat, n: nat, h: nat)
    requires IsRun(ws, acts) && j < n < |ws| && h < |ws[j].hs|
    requires ws[j].hs[h].pc == Publish || ws[j].hs[h].Waiting()
    requires Raises(ws[j], acts[j], ws[j].hs[h].req.key)
    ensures h < |ws[n].hs| && Owed(ws[n], h)
  {
    InvHolds(ws, acts, j);
    assert Owed(ws[j + 1], h);
    OwedForever(ws, acts, j + 1, n, h);
  }

  /** Whoever is past the epoch read did read the epoch, and remembers it. */
  lemma {:induction false} EpochWasRead(ws: seq<World>, acts: seq<Action>, n: nat, h: nat) returns (i: nat)
    requires IsRun(ws, acts) && n < |ws| && h < |ws[n].hs|
    requires 2 <= Stage(ws[n].hs[h].pc) <= 4 || ws[n].hs[h].woken
    ensures i < n && ReadsEpoch(ws[i], acts[i], h)
    ensures ws[i].sh.Epoch(ws[n].hs[h].req.key) == ws[n].hs[h].seen
    ensures ws[i].hs[h].req == ws[n].hs[h].req
  {
    InvHolds(ws, acts, n);
    if n > 0 {
      InvHolds(ws, acts, n - 1);
      if h < |ws[n - 1].hs| {
        HandlerKeeps(ws[n - 1], acts[n - 1], h);
        if ReadsEpoch(ws[n - 1], acts[n - 1], h) {
          i := n - 1;
        } else {
          i := EpochWasRead(ws, acts, n - 1, h);
        }
      }
    }
  }

  /** An epoch only moves because a release of that key moved it. */
  lemma {:induction false} EpochMoved(ws: seq<World>, acts: seq<Action>, m: nat, n: nat, k: Key) returns (j: nat)
    requires IsRun(ws, acts) && m <= n < |ws|
    requires ws[n].sh.Epoch(k) > ws[m].sh.Epoch(k)
    ensures m <= j < n && Raises(ws[j], acts[j], k)
    decreases n - m
  {
    if ws[n - 1].sh.Epoch(k) > ws[m].sh.Epoch(k) {
      j := EpochMoved(ws, acts, m, n - 1, k);
    } else {
      j := n - 1;
      InvHolds(ws, acts, j);
    }
  }

  /** How many releases of `k` have landed in the first `n` steps. */
  function Releases(ws: seq<World>, acts: seq<Action>, n: nat, k: Key): nat
    requires n <= |acts| < |ws|
  {
    if n == 0 then 0 else Releases(ws, acts, n - 1, k) + if Raises(ws[n - 1], acts[n - 1], k) then 1 else 0
  }

  /** The epoch of a key is the number of its releases so far. */
  lemma {:induction false} EpochCountsReleases(ws: seq<World>, acts: seq<Action>, n: nat, k: Key)
    requires IsRun(ws, acts) && n < |ws|
    ensures ws[n].sh.Epoch(k) == Releases(ws, acts, n, k)
  {
    if n > 0 {
      EpochCountsReleases(ws, acts, n - 1, k);
      InvHolds(ws, acts, n - 1);
    }
  }

  /** So what a held call remembers is the number of releases before its epoch read. */
  lemma SeenCountsReleases(ws: seq<World>, acts: seq<Action>, i: nat, n: nat, h: nat)
    requires IsRun(ws, acts) && i < n < |ws| && ReadsEpoch(ws[i], acts[i], h)
    ensures h < |ws[n].hs| && ws[n].hs[h].seen == Releases(ws, acts, i, ws[n].hs[h].req.key)
  {
    InvHolds(ws, acts, i);
    HandlerKeepsLong(ws, acts, i + 1, n, h);
    EpochCountsReleases(ws, acts, i, ws[i].hs[h].req.key);
  }

  /** No latch: a hold that ended before its ceiling is justified by a release of
      its key made strictly after its own epoch read. */
  lemma NoLatch(ws: seq<World>, acts: seq<Action>, n: nat, h: nat)
    requires IsRun(ws, acts) && n < |ws| && h < |ws[n].hs| && ws[n].hs[h].woken
    ensures exists i, j ::
      0 <= i < j < n && ReadsEpoch(ws[i], acts[i], h) && Raises(ws[j], acts[j], ws[n].hs[h].req.key)
  {
    InvHolds(ws, acts, n);
    var i := EpochWasRead(ws, acts, n, h);
    var j := EpochMoved(ws, acts, i, n, ws[n].hs[h].req.key);
  }

  lemma EndsEarly(ws: seq<World>, acts: seq<Action>, i: nat, j: nat, n: nat, h: nat)
    requires IsRun(ws, acts) && i < j < n < |acts|
    requires ReadsEpoch(ws[i], acts[i], h)
    requires h < |ws[n].hs| && ws[n].hs[h].Waiting() && h < |ws[n + 1].hs| && ws[n + 1].hs[h].Left()
    requires Raises(ws[j], acts[j], ws[n].hs[h].req.key)
    ensures ws[n + 1].hs[h].woken
  {
    InvHolds(ws, acts, i);
    HandlerKeepsLong(ws, acts, i + 1, j, h);
    HandlerKeepsLong(ws, acts, j, n, h);
    NoLostRelease(ws, acts, j, n + 1, h);
  }

  /** Both directions at once, for the step at which a hold ends: it ends early
      exactly when a release of its key fell between its epoch read and that step. */
  lemma HoldEndsEarlyIff(ws: seq<World>, acts: seq<Action>, i: nat, n: nat, h: nat)
    requires IsRun(ws, acts) && i < n < |acts|
    requires ReadsEpoch(ws[i], acts[i], h)
    requires h < |ws[n].hs| && ws[n].hs[h].Waiting() && h < |ws[n + 1].hs| && ws[n + 1].hs[h].Left()
    ensures ws[n + 1].hs[h].woken
      <==> exists j :: i < j < n && Raises(ws[j], acts[j], ws[n].hs[h].req.key)
  {
    var k := ws[n].hs[h].req.key;
    InvHolds(ws, acts, i);
    HandlerKeepsLong(ws, acts, i + 1, n, h);
    if j :| i < j < n && Raises(ws[j], acts[j], k) {
      EndsEarly(ws, acts, i, j, n, h);
    }
    if ws[n + 1].hs[h].woken {
      InvHolds(ws, acts, n);
      var j := EpochMoved(ws, acts, i, n, k);
    }
  }

  lemma ReleaseAnswersOccupancy(ws: seq<World>, acts: seq<Action>, i: nat, j: nat, n: nat, r: nat, k: Key)
    requires IsRun(ws, acts) && i < j < n < |ws|
    requires acts[i] == Body(r) && r < |ws[i].hs| && ws[i].hs[r].req == Release(k) && ws[i].hs[r].pc == Arrive
    requires acts[j] == Body(r) && r < |ws[j].hs| && ws[j].hs[r].pc == Increment
    ensures r < |ws[n].hs| && ws[n].hs[r].pc == Done(Released(Occupancy(ws[i].hs, k)))
    ensures Raises(ws[j], acts[j], k)
  {
    InvHolds(ws, acts, i);
    HandlerKeepsLong(ws, acts, i + 1, j, r);
    HandlerKeepsLong(ws, acts, j + 1, n, r);
  }

  /** The number a release returns: it is the number of holders at the moment of
      the count, and by the time the answer is sent each of them has left or has
      a true predicate, although the count and the raise are two sections. */
  lemma ReleasedNumberIsHonoured(ws: seq<World>, acts: seq<Action>, i: nat, j: nat, n: nat, r: nat, k: Key)
    requires IsRun(ws, acts) && i < j < n < |ws|
    requires acts[i] == Body(r) && r < |ws[i].hs| && ws[i].hs[r].req == Release(k) && ws[i].hs[r].pc == Arrive
    requires acts[j] == Body(r) && r < |ws[j].hs| && ws[j].hs[r].pc == Increment
    ensures r < |ws[n].hs| && ws[n].hs[r].pc == Done(Released(Occupancy(ws[i].hs, k)))
    ensures forall h :: 0 <= h < |ws[i].hs| && ws[i].hs[h].HeldOn(k) ==>
      h < |ws[n].hs| && (Owed(ws[n], h) || ws[n].hs[h].Left())
  {
    ReleaseAnswersOccupancy(ws, acts, i, j, n, r, k);
    forall h | 0 <= h < |ws[i].hs| && ws[i].hs[h].HeldOn(k)
      ensures h < |ws[n].hs| && (Owed(ws[n], h) || ws[n].hs[h].Left())
    {
      HandlerKeepsLong(ws, acts, i, j, h);
      HandlerKeepsLong(ws, acts, j, n, h);
      if ws[j].hs[h].Waiting() {
        NoLostRelease(ws, acts, j, n, h);
      }
    }
  }

  predicate StillHeldOrExpired(x: Handler) {
    x.Waiting() || (x.Left() && !x.woken)
  }

  /** Poll, act, release: call `c` is the only holder of its key when a poll at step
      i reports 1, and no release of the key falls between its epoch read and the
      release at step j. Then `c` stays held until that release unless its ceiling
      ends it, and if it still waits at j it never needs its ceiling afterwards. */
  lemma PollActRelease(ws: seq<World>, acts: seq<Action>, k: Key, c: nat, g: nat, i: nat, j: nat, n: nat)
    requires IsRun(ws, acts) && i < j < n < |ws|
    requires forall h :: 0 <= h < |ws[i].hs| && ws[i].hs[h].HeldOn(k) ==> h == c
    requires acts[i] == Body(g) && g < |ws[i].hs| && ws[i].hs[g].req == GetInflight(k) && ws[i].hs[g].pc == Arrive
    requires g < |ws[i + 1].hs| && ws[i + 1].hs[g].pc == Done(InflightIs(1))
    requires Raises(ws[j], acts[j], k)
    requires forall e, m :: 0 <= e < m < j && ReadsEpoch(ws[e], acts[e], c) ==> !Raises(ws[m], acts[m], k)
    ensures forall t :: i <= t <= j ==> c < |ws[t].hs| && StillHeldOrExpired(ws[t].hs[c])
    ensures ws[j].hs[c].Waiting() ==> c < |ws[n].hs| && Owed(ws[n], c)
  {
    InvHolds(ws, acts, i);
    assert ws[i].sh.Inflight(k) == 1;
    var h := SomeHolder(ws[i].hs, k);
    forall t | i <= t <= j
      ensures c < |ws[t].hs| && StillHeldOrExpired(ws[t].hs[c])
    {
      HandlerKeepsLong(ws, acts, i, t, c);
      if ws[t].hs[c].woken {
        NoLatch(ws, acts, t, c);
      }
    }
    if ws[j].hs[c].Waiting() {
      HandlerKeepsLong(ws, acts, i, j, c);
      NoLostRelease(ws, acts, j, n, c);
    }
  }

  lemma {:induction false} SomeHolder(hs: seq<Handler>, k: Key) returns (h: nat)
    requires Occupancy(hs, k) >= 1
    ensures h < |hs| && hs[h].HeldOn(k)
  {
    var n := |hs| - 1;
    if hs[n].HeldOn(k) {
      h := n;
    } else {
      h := SomeHolder(hs[..n], k);
    }
  }

  // --------------------------------------------------------- progress and draining

  ghost predicate Drained(w: World) {
    forall i :: 0 <= i < |w.hs| ==> w.hs[i].pc.Done?
  }

  /** No handler holds one lock while it waits for the other, so a world with an
      unfinished handler always has a step that is not a new request. */
  lemma DeadlockFree(ws: seq<World>, acts: seq<Action>, n: nat)
    requires IsRun(ws, acts) && n < |ws| && !Drained(ws[n])
    ensures exists a: Action :: !a.Spawn? && Enabled(ws[n], a)
  {
    InvHolds(ws, acts, n);
    var hs := ws[n].hs;
    if i :| 0 <= i < |hs| && hs[i].inside {
      assert Enabled(ws[n], Body(i));
    } else {
      var i :| 0 <= i < |hs| && !hs[i].pc.Done?;
      if hs[i].pc == Sleep {
        assert Enabled(ws[n], Timeout(i));
      } else {
        assert Enabled(ws[n], Acquire(i));
      }
    }
  }

  /** At most this many steps are left to one handler among `n`; a raise may send
      every sleeper back to its predicate and is weighted for that. */
  function Weight(x: Handler, n: nat): nat {
    (match x.pc
     case Arrive => 2 * n + 14
     case ReadEpoch => 12
     case Publish => 10
     case Check => 8
     case Sleep => 6
     case Expired => 5
     case Retire => 3
     case Increment => 2 * n + 3
     case Done(_) => 1)
    - (if x.inside then 1 else 0)
  }

  function Work(hs: seq<Handler>, n: nat): nat {
    if hs == [] then 0 else Work(hs[..|hs| - 1], n) + Weight(hs[|hs| - 1], n)
  }

  lemma {:induction false} WorkUpdate(hs: seq<Handler>, h: nat, x: Handler, n: nat)
    requires h < |hs|
    ensures Work(hs[h := x], n) == Work(hs, n) - Weight(hs[h], n) + Weight(x, n)
  {
    var m := |hs| - 1;
    if h == m {
      assert hs[h := x][..m] == hs[..m];
    } else {
      assert hs[h := x][..m] == hs[..m][h := x];
      WorkUpdate(hs[..m], h, x, n);
    }
  }

  lemma {:induction false} WorkNotified(hs: seq<Handler>, n: nat)
    ensures Work(Notified(hs), n) <= Work(hs, n) + 2 * |hs|
  {
    if hs != [] {
      var m := |hs| - 1;
      assert Notified(hs)[..m] == Notified(hs[..m]);
      WorkNotified(hs[..m], n);
    }
  }

  lemma {:induction false} WorkBound(hs: seq<Handler>, n: nat)
    ensures Work(hs, n) <= |hs| * (2 * n + 14)
  {
    if hs != [] {
      WorkBound(hs[..|hs| - 1], n);
      assert |hs| * (2 * n + 14) == (|hs| - 1) * (2 * n + 14) + (2 * n + 14);
    }
  }

  lemma SectionShrinks(sh: Shared, x: Handler, n: nat)
    requires x.Wants() != NoLock && x.inside
    ensures Weight(Section(sh, x).1, n) + (if x.pc == Increment then 2 * n else 0) < Weight(x, n)
  {
  }

  lemma WorkShrinks(w: World, a: Action)
    requires Gated(w) && Locked(w) && Enabled(w, a) && !a.Spawn?
    ensures var w' := Apply(w, a);
      |w'.hs| == |w.hs| && Work(w'.hs, |w.hs|) < Work(w.hs, |w.hs|)
  {
    var n := |w.hs|;
    match a
    case Acquire(h) => WorkUpdate(w.hs, h, w.hs[h].(inside := true), n);
    case Timeout(h) => WorkUpdate(w.hs, h, w.hs[h].(pc := Expired), n);
    case Body(h) =>
      var (sh, x) := Section(w.sh, w.hs[h]);
      var hs := if w.hs[h].pc == Increment then Notified(w.hs) else w.hs;
      assert hs[h] == w.hs[h];
      assert Work(hs, n) <= Work(w.hs, n) + (if w.hs[h].pc == Increment then 2 * n else 0) by {
        WorkNotified(w.hs, n);
      }
      SectionShrinks(w.sh, w.hs[h], n);
      WorkUpdate(hs, h, x, n);
  }

  lemma {:induction false} WorkRunsOut(ws: seq<World>, acts: seq<Action>, m: nat, n: nat)
    requires IsRun(ws, acts) && m <= n < |ws|
    requires forall i :: m <= i < n ==> !acts[i].Spawn?
    ensures |ws[n].hs| == |ws[m].hs|
    ensures n - m + Work(ws[n].hs, |ws[m].hs|) <= Work(ws[m].hs, |ws[m].hs|)
    decreases n - m
  {
    if m < n {
      WorkRunsOut(ws, acts, m, n - 1);
      InvHolds(ws, acts, n - 1);
      WorkShrinks(ws[n - 1], acts[n - 1]);
    }
  }

  /** Once the last request has been made, every schedule is finite: n requests
      finish within n * (2n + 14) further steps. */
  lemma Drains(ws: seq<World>, acts: seq<Action>, m: nat, n: nat)
    requires IsRun(ws, acts) && m <= n < |ws|
    requires forall i :: m <= i < n ==> !acts[i].Spawn?
    ensures |ws[n].hs| == |ws[m].hs|
    ensures n - m + Work(ws[n].hs, |ws[m].hs|) <= Work(ws[m].hs, |ws[m].hs|)
    ensures n - m <= |ws[m].hs| * (2 * |ws[m].hs| + 14)
  {
    WorkRunsOut(ws, acts, m, n);
    WorkBound(ws[m].hs, |ws[m].hs|);
  }

  /** Where a schedule stops, everybody has been answered and nothing is in flight. */
  lemma StopsEmpty(ws: seq<World>, acts: seq<Action>, n: nat, k: Key)
    requires IsRun(ws, acts) && n < |ws|
    requires forall a: Action :: !a.Spawn? ==> !Enabled(ws[n], a)
    ensures Drained(ws[n]) && ws[n].sh.Inflight(k) == 0
  {
    if !Drained(ws[n]) {
      DeadlockFree(ws, acts, n);
    }
    InvHolds(ws, acts, n);
    OccupancyZero(ws[n].hs, k);
  }

  lemma RunGrows(ws: seq<World>, acts: seq<Action>, a: Action)
    requires IsRun(ws, acts) && Enabled(ws[|acts|], a)
    ensures IsRun(ws + [Apply(ws[|acts|], a)], acts + [a])
  {
  }

  /** Every world of a run can be brought to rest without a new request. */
  lemma {:induction false} CanDrain(ws: seq<World>, acts: seq<Action>) returns (longer: seq<World>, more: seq<Action>)
    requires IsRun(ws, acts)
    ensures IsRun(longer, acts + more) && ws <= longer
    ensures forall i :: 0 <= i < |more| ==> !more[i].Spawn?
    ensures Drained(longer[|acts + more|])
    decreases Work(ws[|acts|].hs, |ws[|acts|].hs|)
  {
    if Drained(ws[|acts|]) {
      longer, more := ws, [];
      assert acts + more == acts;
    } else {
      var a, w := NextStep(ws, acts);
      longer, more := CanDrain(ws + [w], acts + [a]);
      assert acts + [a] + more == acts + ([a] + more);
      more := [a] + more;
    }
  }

  lemma NextStep(ws: seq<World>, acts: seq<Action>) returns (a: Action, w: World)
    requires IsRun(ws, acts) && !Drained(ws[|acts|])
    ensures !a.Spawn? && IsRun(ws + [w], acts + [a])
    ensures Work(w.hs, |w.hs|) < Work(ws[|acts|].hs, |ws[|acts|].hs|)
  {
    DeadlockFree(ws, acts, |acts|);
    a :| !a.Spawn? && Enabled(ws[|acts|], a);
    w := Apply(ws[|acts|], a);
    RunGrows(ws, acts, a);
    InvHolds(ws, acts, |acts|);
    WorkShrinks(ws[|acts|], a);
  }

  // ------------------------------------------------------------ what readers are told

  /** The answers of the read requests, in terms of the handlers and the run so far:
      who is held now, the most that ever were, and the calls that were numbered. */
  lemma ReadersAreToldTheTruth(ws: seq<World>, acts: seq<Action>, i: nat, g: nat)
    requires IsRun(ws, acts) && i < |acts| && acts[i] == Body(g)
    requires g < |ws[i].hs| && ws[i].hs[g].pc == Arrive
    ensures g < |ws[i + 1].hs|
    ensures var k, pc := ws[i].hs[g].req.key, ws[i + 1].hs[g].pc;
      match ws[i].hs[g].req
      case GetInflight(_) => pc == Done(InflightIs(Occupancy(ws[i].hs, k)))
      case GetPeak(_) => pc == Done(PeakIs(HighWater(ws, i, k), |ws[i].sh.Log(k)|))
      case GetCalls(_) => pc == Done(CallsAre(|ws[i].sh.Log(k)|))
      case GetLog(_) => pc == Done(LogIs(ws[i].sh.Log(k)))
      case _ => true
  {
    var k := ws[i].hs[g].req.key;
    InflightIsExact(ws, acts, i, k);
    PeakIsHighWater(ws, acts, i, k);
    AttemptNumbers(ws, acts, i, k, 1);
  }

  // ------------------------------------------------------------ attempt numbers

  /** The numbers handed out on a key are 1 to `_counts[key]`, each to exactly one
      call, whose operation is the log entry at that place. */
  lemma AttemptNumbers(ws: seq<World>, acts: seq<Action>, n: nat, k: Key, a: int)
    requires IsRun(ws, acts) && n < |ws|
    ensures |ws[n].sh.Log(k)| == ws[n].sh.Counts(k)
    ensures a != 0 ==>
      ((1 <= a <= ws[n].sh.Counts(k)) <==> exists h :: Numbered(ws[n].hs, h, k, a))
    ensures forall h, g :: a != 0 && Numbered(ws[n].hs, h, k, a) && Numbered(ws[n].hs, g, k, a) ==> h == g
    ensures forall h :: a != 0 && Numbered(ws[n].hs, h, k, a) ==>
      1 <= a <= |ws[n].sh.Log(k)| && ws[n].sh.Log(k)[a - 1] == ws[n].hs[h].req.op
  {
    InvHolds(ws, acts, n);
    assert ws[n].sh.Counts(k) == |ws[n].sh.Log(k)|;
    forall h | a != 0 && Numbered(ws[n].hs, h, k, a)
      ensures 1 <= a <= |ws[n].sh.Log(k)| && ws[n].sh.Log(k)[a - 1] == ws[n].hs[h].req.op
    {
      assert Logged(ws[n].sh, ws[n].hs[h]);
    }
    if 1 <= a <= ws[n].sh.Counts(k) {
      assert Witness(ws[n], k, a);
    }
  }

  // ------------------------------------------------------------ answers

  /** What the call's request and its number `a` entitle it to. */
  predicate ToBeHeld(req: Request, a: int)
    requires req.Call?
  {
    !req.failPermanently && a > req.failTimes && req.delayMs != 0
  }

  /** An answered call was told to fail for good exactly when it asked for that,
      whatever its number, its failures and its delay; failed with the status it asked
      for, 503 by default, while failures were due; and succeeded otherwise. */
  lemma AnswersAreRight(ws: seq<World>, acts: seq<Action>, n: nat, h: nat)
    requires IsRun(ws, acts) && n < |ws| && h < |ws[n].hs| && ws[n].hs[h].req.Call?
    ensures var x := ws[n].hs[h];
      && (x.req.key == "" <==> x.pc == Done(KeyRequired))
      && (x.req.key != "" && x.pc.Done? ==>
            && x.attempt >= 1
            && (x.pc.reply == PermanentFailure <==> x.req.failPermanently)
            && (!x.req.failPermanently && x.attempt > x.req.failTimes ==> x.pc.reply == Success(x.attempt))
            && (!x.req.failPermanently && x.attempt <= x.req.failTimes ==>
                  x.pc.reply == Failure(if x.req.failStatus == 0 then 503 else x.req.failStatus, x.attempt)))
  {
    InvHolds(ws, acts, n);
    assert Consistent(ws[n].hs[h]);
  }

  /** No call is on its way to a hold, or held, that should not be: a permanent
      failure never is, nor a call with failures due, nor one without a delay. */
  lemma OnlyTheHeldAreHeld(ws: seq<World>, acts: seq<Action>, n: nat, h: nat)
    requires IsRun(ws, acts) && n < |ws| && h < |ws[n].hs| && ws[n].hs[h].req.Call?
    ensures var x := ws[n].hs[h];
      x.pc in {ReadEpoch, Publish} || x.Held() ==> x.attempt >= 1 && ToBeHeld(x.req, x.attempt)
  {
    InvHolds(ws, acts, n);
    assert Consistent(ws[n].hs[h]);
  }

  /** And a call that should be held is: when it takes its number it goes on to the
      epoch read exactly then, and is answered on the spot otherwise. */
  lemma NumberedCallIsHeldIff(ws: seq<World>, acts: seq<Action>, i: nat, h: nat)
    requires IsRun(ws, acts) && i < |acts| && acts[i] == Body(h)
    requires h < |ws[i].hs| && ws[i].hs[h].pc == Arrive && ws[i].hs[h].req.Call?
    ensures h < |ws[i + 1].hs| && ws[i + 1].hs[h].attempt == ws[i].sh.Counts(ws[i].hs[h].req.key) + 1
    ensures var y := ws[i + 1].hs[h];
      if ToBeHeld(y.req, y.attempt) then y.pc == ReadEpoch else y.pc.Done?
  {
  }

  /** The same for a call made while nobody else is served. */
  lemma LoneCallIsServedRight(sh: Shared, req: Request)
    requires req.Call?
    ensures req.key == "" ==> Served(sh, req) == (sh, KeyRequired)
    ensures req.key != "" ==>
      var a, counted, (after, reply) := sh.Counts(req.key) + 1, sh.Counted(req.key, req.op), Served(sh, req);
      && (reply == PermanentFailure <==> req.failPermanently)
      && (!req.failPermanently && a > req.failTimes ==> reply == Success(a))
      && (!req.failPermanently && a <= req.failTimes ==>
            reply == Failure(if req.failStatus == 0 then 503 else req.failStatus, a))
      && after == (if ToBeHeld(req, a) then counted.Published(req.key).Retired(req.key) else counted)
  {
  }

  /** A raise leaves nobody asleep, whatever key they wait for. */
  lemma RaiseWakesEverybody(ws: seq<World>, acts: seq<Action>, i: nat, k: Key, h: nat)
    requires IsRun(ws, acts) && i < |acts| && Raises(ws[i], acts[i], k)
    ensures h < |ws[i + 1].hs| ==> ws[i + 1].hs[h].pc != Sleep
  {
  }

  /** The call numbered `a` on `k` was answered with a deliberate failure. */
  ghost predicate FailedAt(w: World, k: Key, a: int) {
    exists h :: Numbered(w.hs, h, k, a) && w.hs[h].pc.Done? && w.hs[h].pc.reply.Failure?
  }

  /** When every call on a key asks for the same number of failures and none for
      a permanent one, exactly the first so many in log order fail. */
  lemma FirstCallsFail(ws: seq<World>, acts: seq<Action>, n: nat, k: Key, f: int, a: int)
    requires IsRun(ws, acts) && n < |ws| && 1 <= a <= ws[n].sh.Counts(k)
    requires forall h :: 0 <= h < |ws[n].hs| && ws[n].hs[h].CallOn(k) ==>
      ws[n].hs[h].req.failTimes == f && !ws[n].hs[h].req.failPermanently
    ensures FailedAt(ws[n], k, a) <==> a <= f
  {
    InvHolds(ws, acts, n);
    assert Witness(ws[n], k, a);
    var h :| Numbered(ws[n].hs, h, k, a);
    assert Consistent(ws[n].hs[h]);
    if g :| Numbered(ws[n].hs, g, k, a) && ws[n].hs[g].pc.Done? && ws[n].hs[g].pc.reply.Failure? {
      assert g == h;
    }
  }
}
