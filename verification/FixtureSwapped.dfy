/** The protocol with the two lines the fixture must not swap, swapped: a held
    call publishes itself first and reads the release epoch afterwards. */
module FixtureSwapped {
  import opened FixtureState
  import opened FixtureProtocol
  import opened FixtureInvariants

  function SwappedSection(sh: Shared, x: Handler): (Shared, Handler)
    requires x.Wants() != NoLock
  {
    var (sh', y) := Section(sh, x);
    if x.pc == Arrive && y.pc == ReadEpoch then (sh', y.(pc := Publish))
    else if x.pc == Publish then (sh', y.(pc := ReadEpoch))
    else if x.pc == ReadEpoch then (sh', y.(pc := Check))
    else (sh', y)
  }

  function SwappedApply(w: World, a: Action): World
    requires Enabled(w, a)
  {
    if a.Body? then
      var (sh, x) := SwappedSection(w.sh, w.hs[a.h]);
      World(sh, (if w.hs[a.h].pc == Increment then Notified(w.hs) else w.hs)[a.h := x])
    else Apply(w, a)
  }

  ghost predicate Leads(w: World, a: Action, w': World) {
    Enabled(w, a) && w' == SwappedApply(w, a)
  }

  /** A stretch of a run: each action leads from one world to the next. */
  ghost predicate IsStretch(ws: seq<World>, acts: seq<Action>) {
    |ws| == |acts| + 1 && forall i :: 0 <= i < |acts| ==> Leads(ws[i], acts[i], ws[i + 1])
  }

  ghost predicate IsSwappedRun(ws: seq<World>, acts: seq<Action>) {
    IsStretch(ws, acts) && ws[0] == START
  }

  /** In flight, with an epoch nobody has raised since it was read. */
  ghost predicate Deaf(w: World, h: nat) {
    && h < |w.hs|
    && (w.hs[h].Waiting() || w.hs[h].Left())
    && !w.hs[h].woken
    && w.sh.Epoch(w.hs[h].req.key) == w.hs[h].seen
  }

  lemma DeafStep(w: World, a: Action, h: nat)
    requires Enabled(w, a) && Deaf(w, h) && !Raises(w, a, w.hs[h].req.key)
    ensures var v := SwappedApply(w, a); Deaf(v, h) && v.hs[h].req == w.hs[h].req
  {
    if a.Body? {
      SectionEpochs(w.sh, w.hs[a.h], w.hs[h].req.key);
    }
  }

  /** A release that fell into the gap is never made up for: without another
      release of the key, the call can only be ended by its ceiling. */
  lemma {:induction false} LostForGood(ws: seq<World>, acts: seq<Action>, m: nat, n: nat, h: nat)
    requires IsSwappedRun(ws, acts) && m <= n < |ws| && Deaf(ws[m], h)
    requires forall i :: m <= i < n ==> !Raises(ws[i], acts[i], ws[m].hs[h].req.key)
    ensures Deaf(ws[n], h) && ws[n].hs[h].req == ws[m].hs[h].req
    decreases n - m
  {
    if m < n {
      LostForGood(ws, acts, m, n - 1, h);
      assert Leads(ws[n - 1], acts[n - 1], ws[n - 1 + 1]);
      DeafStep(ws[n - 1], acts[n - 1], h);
    }
  }

  const KEY: Key := "k"
  const CALL := Call(KEY, "svc.op", false, 0, 0, 30000)

  function Caller(pc: Pc, inside: bool, attempt: int, seen: int): Handler {
    Handler(CALL, pc, inside, attempt, seen, 0, false)
  }

  function Releaser(pc: Pc, inside: bool, held: int): Handler {
    Handler(Release(KEY), pc, inside, 0, 0, held, false)
  }

  const COUNTED := EMPTY.Counted(KEY, "svc.op")
  const PUBLISHED := COUNTED.Published(KEY)
  const RAISED := PUBLISHED.Bumped(KEY)

  lemma StretchesJoin(ws: seq<World>, acts: seq<Action>, vs: seq<World>, bcts: seq<Action>)
    requires IsStretch(ws, acts) && IsStretch(vs, bcts) && ws[|acts|] == vs[0]
    ensures IsStretch(ws + vs[1..], acts + bcts)
  {
    var us, all := ws + vs[1..], acts + bcts;
    forall i | 0 <= i < |all| ensures Leads(us[i], all[i], us[i + 1]) {
      if i >= |acts| {
        assert us[i] == vs[i - |acts|] && us[i + 1] == vs[i - |acts| + 1] && all[i] == bcts[i - |acts|];
      }
    }
  }

  const CALLED := Caller(ReadEpoch, false, 1, 0)
  const ANSWERED := Releaser(Done(Released(1)), false, 1)

  lemma CallerIsCounted() returns (ws: seq<World>, acts: seq<Action>)
    ensures IsStretch(ws, acts) && |acts| == 3 && ws[0] == START
    ensures ws[3] == World(COUNTED, [Caller(Publish, false, 1, 0)])
  {
    acts := [Spawn(CALL), Acquire(0), Body(0)];
    ws := [START,
           World(EMPTY, [Caller(Arrive, false, 0, 0)]),
           World(EMPTY, [Caller(Arrive, true, 0, 0)]),
           World(COUNTED, [Caller(Publish, false, 1, 0)])];
  }

  /** The caller publishes itself, with the epoch still unread. */
  lemma CallerPublishes() returns (ws: seq<World>, acts: seq<Action>)
    ensures IsStretch(ws, acts) && |acts| == 2 && ws[0] == World(COUNTED, [Caller(Publish, false, 1, 0)])
    ensures acts[1] == Body(0) && ws[1].hs == [Caller(Publish, true, 1, 0)]
    ensures ws[2] == World(PUBLISHED, [CALLED])
  {
    acts := [Acquire(0), Body(0)];
    ws := [World(COUNTED, [Caller(Publish, false, 1, 0)]),
           World(COUNTED, [Caller(Publish, true, 1, 0)]),
           World(PUBLISHED, [CALLED])];
  }

  /** A release counts the caller. */
  lemma ReleaserCounts() returns (ws: seq<World>, acts: seq<Action>)
    ensures IsStretch(ws, acts) && |acts| == 3 && ws[0] == World(PUBLISHED, [CALLED])
    ensures ws[3] == World(PUBLISHED, [CALLED, Releaser(Increment, false, 1)])
  {
    acts := [Spawn(Release(KEY)), Acquire(1), Body(1)];
    ws := [World(PUBLISHED, [CALLED]),
           World(PUBLISHED, [CALLED, Releaser(Arrive, false, 0)]),
           World(PUBLISHED, [CALLED, Releaser(Arrive, true, 0)]),
           World(PUBLISHED, [CALLED, Releaser(Increment, false, 1)])];
  }

  /** And raises the epoch. */
  lemma ReleaserRaises() returns (ws: seq<World>, acts: seq<Action>)
    ensures IsStretch(ws, acts) && |acts| == 2
    ensures ws[0] == World(PUBLISHED, [CALLED, Releaser(Increment, false, 1)])
    ensures Raises(ws[1], acts[1], KEY)
    ensures ws[2] == World(RAISED, [CALLED, ANSWERED])
  {
    acts := [Acquire(1), Body(1)];
    ws := [World(PUBLISHED, [CALLED, Releaser(Increment, false, 1)]),
           World(PUBLISHED, [CALLED, Releaser(Increment, true, 1)]),
           World(RAISED, [CALLED, ANSWERED])];
  }

  /** The caller reads the raised epoch. */
  lemma CallerReads() returns (ws: seq<World>, acts: seq<Action>)
    ensures IsStretch(ws, acts) && |acts| == 2 && ws[0] == World(RAISED, [CALLED, ANSWERED])
    ensures ws[2] == World(RAISED, [Caller(Check, false, 1, 1), ANSWERED])
  {
    acts := [Acquire(0), Body(0)];
    ws := [World(RAISED, [CALLED, ANSWERED]),
           World(RAISED, [Caller(ReadEpoch, true, 1, 0), ANSWERED]),
           World(RAISED, [Caller(Check, false, 1, 1), ANSWERED])];
  }

  /** And waits for a newer one. */
  lemma CallerFallsAsleep() returns (ws: seq<World>, acts: seq<Action>)
    ensures IsStretch(ws, acts) && |acts| == 2
    ensures ws[0] == World(RAISED, [Caller(Check, false, 1, 1), ANSWERED])
    ensures ws[2] == World(RAISED, [Caller(Sleep, false, 1, 1), ANSWERED])
  {
    acts := [Acquire(0), Body(0)];
    ws := [World(RAISED, [Caller(Check, false, 1, 1), ANSWERED]),
           World(RAISED, [Caller(Check, true, 1, 1), ANSWERED]),
           World(RAISED, [Caller(Sleep, false, 1, 1), ANSWERED])];
  }

  /** The first half: the caller is in flight with its epoch unread. */
  lemma InFlightUnread() returns (ws: seq<World>, acts: seq<Action>)
    ensures IsStretch(ws, acts) && |acts| == 5 && ws[0] == START
    ensures acts[4] == Body(0) && ws[4].hs == [Caller(Publish, true, 1, 0)]
    ensures ws[5] == World(PUBLISHED, [CALLED])
  {
    var us, as_ := CallerIsCounted();
    var vs, bs := CallerPublishes();
    StretchesJoin(us, as_, vs, bs);
    ws, acts := us + vs[1..], as_ + bs;
  }

  /** The middle: a release slips in. */
  lemma ReleaseSlipsIn() returns (ws: seq<World>, acts: seq<Action>)
    ensures IsStretch(ws, acts) && |acts| == 5 && ws[0] == World(PUBLISHED, [CALLED])
    ensures Raises(ws[4], acts[4], KEY)
    ensures ws[5] == World(RAISED, [CALLED, ANSWERED])
  {
    var us, as_ := ReleaserCounts();
    var vs, bs := ReleaserRaises();
    StretchesJoin(us, as_, vs, bs);
    ws, acts := us + vs[1..], as_ + bs;
    assert ws[4] == vs[1];
  }

  /** The end: the caller is asleep, deaf to it. */
  lemma AsleepAndDeaf() returns (ws: seq<World>, acts: seq<Action>)
    ensures IsStretch(ws, acts) && |acts| == 4 && ws[0] == World(RAISED, [CALLED, ANSWERED])
    ensures ws[4] == World(RAISED, [Caller(Sleep, false, 1, 1), ANSWERED])
  {
    var us, as_ := CallerReads();
    var vs, bs := CallerFallsAsleep();
    StretchesJoin(us, as_, vs, bs);
    ws, acts := us + vs[1..], as_ + bs;
  }

  /** The bad run: the caller is in flight, the release sees it and counts it,
      and the caller still goes to sleep deaf to that release. */
  lemma LostRelease() returns (ws: seq<World>, acts: seq<Action>, p: nat, j: nat)
    ensures IsSwappedRun(ws, acts) && p < j < |acts|
    ensures acts[p] == Body(0) && ws[p].hs == [Caller(Publish, true, 1, 0)]
    ensures Raises(ws[j], acts[j], KEY)
    ensures ws[|acts|].hs == [Caller(Sleep, false, 1, 1), ANSWERED]
    ensures Deaf(ws[|acts|], 0)
  {
    var us, as_ := InFlightUnread();
    var vs, bs := ReleaseSlipsIn();
    var xs, cs := AsleepAndDeaf();
    StretchesJoin(us, as_, vs, bs);
    StretchesJoin(us + vs[1..], as_ + bs, xs, cs);
    ws, acts := us + vs[1..] + xs[1..], as_ + bs + cs;
    p, j := 4, 9;
    assert ws[9] == vs[4] && acts[9] == bs[4];
  }
}
