/** A sequential client that retries a fixture call, and what a crash between two
    of its attempts does to the number of calls the fixture counts. */
module RetryClient {
  import opened Basics
  import opened FixtureState
  import opened FixtureProtocol

  /** The statuses a failed call is retried on: every 5xx, and of the 4xx only 408
      and 429. Any other status is the call's result or a permanent failure. */
  predicate Transient(status: int) {
    status == 408 || status == 429 || 500 <= status < 600
  }

  predicate Retryable(reply: Reply) {
    reply.Failure? && Transient(reply.status)
  }

  datatype Outcome = Outcome(sh: Shared, calls: nat, last: Reply)

  /** At most `budget` calls, one after another, until one is not retryable. */
  function Attempts(sh: Shared, req: Request, budget: nat): Outcome
    requires req.Call? && req.key != "" && budget >= 1
    decreases budget
  {
    var (sh', reply) := Served(sh, req);
    if Retryable(reply) && budget > 1 then
      var rest := Attempts(sh', req, budget - 1);
      rest.(calls := rest.calls + 1)
    else Outcome(sh', 1, reply)
  }

  /** A run that is killed after each of the given numbers of attempts, its policy
      starting afresh each time, and finally left alone with a full budget. */
  function Restarting(sh: Shared, req: Request, prefixes: seq<nat>, budget: nat): Outcome
    requires req.Call? && req.key != "" && budget >= 1
    decreases |prefixes|
  {
    if prefixes == [] then Attempts(sh, req, budget)
    else if prefixes[0] == 0 then Restarting(sh, req, prefixes[1..], budget)
    else
      var first := Attempts(sh, req, prefixes[0]);
      var rest := Restarting(first.sh, req, prefixes[1..], budget);
      rest.(calls := first.calls + rest.calls)
  }

  function Sum(ns: seq<nat>): nat {
    if ns == [] then 0 else ns[0] + Sum(ns[1..])
  }

  function StatusOf(req: Request): int
    requires req.Call?
  {
    if req.failStatus == 0 then 503 else req.failStatus
  }

  /** With `c` calls already counted under the key, a retried call makes one call
      for each failure still due and one more, within its budget; it succeeds
      exactly when the failures due are fewer than the budget. */
  lemma {:induction false} AttemptsMade(sh: Shared, req: Request, n: nat)
    requires req.Call? && req.key != "" && n >= 1 && !req.failPermanently && Transient(StatusOf(req))
    ensures var c, o := sh.Counts(req.key), Attempts(sh, req, n);
      && o.calls == Min(n, Max(req.failTimes - c, 0) + 1)
      && o.sh.Counts(req.key) == c + o.calls
      && (if Max(req.failTimes - c, 0) < n then o.last == Success(c + o.calls)
          else o.last == Failure(StatusOf(req), c + n))
    decreases n
  {
    var (sh', reply) := Served(sh, req);
    assert sh'.Counts(req.key) == sh.Counts(req.key) + 1;
    if Retryable(reply) && n > 1 {
      AttemptsMade(sh', req, n - 1);
    }
  }

  /** The counting formula on a key nobody has used: min(n, f + 1) calls. */
  lemma FreshKey(sh: Shared, req: Request, n: nat)
    requires req.Call? && req.key != "" && n >= 1 && !req.failPermanently && Transient(StatusOf(req))
    requires sh.Counts(req.key) == 0 && req.failTimes >= 0
    ensures Attempts(sh, req, n).calls == Min(n, req.failTimes + 1)
    ensures Attempts(sh, req, n).last.Success? <==> req.failTimes < n
  {
    AttemptsMade(sh, req, n);
  }

  /** The count alone tells the class: 408, 429 and every 5xx drain the budget, any
      other status stops after one call. */
  lemma CountTellsClass(sh: Shared, req: Request, n: nat)
    requires req.Call? && req.key != "" && n >= 2 && !req.failPermanently
    requires sh.Counts(req.key) == 0 && req.failTimes >= n
    ensures var status, calls := StatusOf(req), Attempts(sh, req, n).calls;
      calls == if status in {408, 429} || 500 <= status <= 599 then n else 1
  {
    if Transient(StatusOf(req)) {
      AttemptsMade(sh, req, n);
    }
  }

  /** What is not retried is called once, whatever was counted before: a permanent
      failure always, and a failure with any other status while failures are due. */
  lemma CalledOnce(sh: Shared, req: Request, n: nat)
    requires req.Call? && req.key != "" && n >= 1
    requires req.failPermanently || !Transient(StatusOf(req))
    ensures var a, o := sh.Counts(req.key) + 1, Attempts(sh, req, n);
      && o.calls == 1 && o.sh.Counts(req.key) == a
      && o.last == (if req.failPermanently then PermanentFailure
                    else if a > req.failTimes then Success(a)
                    else Failure(StatusOf(req), a))
  {
  }

  /** Prefixes that fit into the failures due are all spent on failures. */
  lemma {:induction false} RestartingMakes(sh: Shared, req: Request, prefixes: seq<nat>, n: nat)
    requires req.Call? && req.key != "" && n >= 1 && !req.failPermanently && Transient(StatusOf(req))
    requires sh.Counts(req.key) >= 0 && sh.Counts(req.key) + Sum(prefixes) <= req.failTimes
    ensures var c, o := sh.Counts(req.key), Restarting(sh, req, prefixes, n);
      && o.calls == Min(n + Sum(prefixes), req.failTimes - c + 1)
      && o.sh.Counts(req.key) == c + o.calls
      && (o.last.Success? <==> req.failTimes - c - Sum(prefixes) < n)
    decreases |prefixes|
  {
    if prefixes == [] {
      AttemptsMade(sh, req, n);
    } else if prefixes[0] == 0 {
      RestartingMakes(sh, req, prefixes[1..], n);
    } else {
      AttemptsMade(sh, req, prefixes[0]);
      RestartingMakes(Attempts(sh, req, prefixes[0]).sh, req, prefixes[1..], n);
    }
  }

  /** Resuming spends what is left of one budget; restarting spends a new one.
      After `c` failed calls the two totals are equal when the fixture fails fewer
      times than the budget, and otherwise differ by min(c, f + 1 - n): below the
      budget no count can tell them apart, from it on every count does. */
  lemma ResumeVersusRestart(sh: Shared, req: Request, prefixes: seq<nat>, n: nat)
    requires req.Call? && req.key != "" && !req.failPermanently && Transient(StatusOf(req))
    requires sh.Counts(req.key) == 0 && 1 <= Sum(prefixes) < n && Sum(prefixes) <= req.failTimes
    ensures var c, f := Sum(prefixes), req.failTimes;
      var crashed := Attempts(sh, req, c);
      var resumed := c + Attempts(crashed.sh, req, n - c).calls;
      var restarted := Restarting(sh, req, prefixes, n).calls;
      && crashed.calls == c
      && resumed == Attempts(sh, req, n).calls == Min(n, f + 1)
      && restarted == Min(n + c, f + 1)
      && restarted - resumed == (if f < n then 0 else Min(c, f + 1 - n))
      && (restarted == resumed <==> f < n)
  {
    var c := Sum(prefixes);
    AttemptsMade(sh, req, n);
    AttemptsMade(sh, req, c);
    AttemptsMade(Attempts(sh, req, c).sh, req, n - c);
    RestartingMakes(sh, req, prefixes, n);
  }

  // ---------------------------------------- the sequential client is a run of the protocol

  /** The worlds visited from `w` by `acts`, as long as each is enabled. */
  ghost predicate Steps(w: World, acts: seq<Action>, w': World)
    decreases |acts|
  {
    if acts == [] then w == w'
    else Enabled(w, acts[0]) && Steps(Apply(w, acts[0]), acts[1..], w')
  }

  lemma {:induction false} StepsAppend(w: World, acts: seq<Action>, mid: World, more: seq<Action>, w': World)
    requires Steps(w, acts, mid) && Steps(mid, more, w')
    ensures Steps(w, acts + more, w')
    decreases |acts|
  {
    if acts == [] {
      assert acts + more == more;
    } else {
      assert (acts + more)[1..] == acts[1..] + more;
      StepsAppend(Apply(w, acts[0]), acts[1..], mid, more, w');
    }
  }

  /** What can be reached by steps from the end of a run is the end of a longer run. */
  lemma {:induction false} StepsExtendRun(ws: seq<World>, acts: seq<Action>, more: seq<Action>, w': World)
    returns (longer: seq<World>)
    requires IsRun(ws, acts) && Steps(ws[|acts|], more, w')
    ensures IsRun(longer, acts + more) && longer[|acts + more|] == w' && ws <= longer
    decreases |more|
  {
    if more == [] {
      longer := ws;
      assert acts + more == acts;
    } else {
      var next := Apply(ws[|acts|], more[0]);
      longer := StepsExtendRun(ws + [next], acts + [more[0]], more[1..], w');
      assert acts + [more[0]] + more[1..] == acts + more;
    }
  }

  ghost predicate Quiet(w: World) {
    forall i :: 0 <= i < |w.hs| ==> w.hs[i].pc.Done? && !w.hs[i].inside
  }

  /** One handler's critical section while nobody else is inside one. */
  lemma OneSection(w: World, h: nat)
    requires h == |w.hs| - 1 && w.hs[h].Wants() != NoLock && !w.hs[h].inside && w.hs[h].pc != Increment
    requires forall i :: 0 <= i < h ==> !w.hs[i].inside
    ensures var (sh, x) := Section(w.sh, w.hs[h].(inside := true));
      Steps(w, [Acquire(h), Body(h)], World(sh, w.hs[..h] + [x]))
  {
    var w1 := Apply(w, Acquire(h));
    var w2 := Apply(w1, Body(h));
    var (sh, x) := Section(w.sh, w.hs[h].(inside := true));
    assert w2.hs == w.hs[..h] + [x];
    assert [Acquire(h), Body(h)][1..] == [Body(h)];
    assert Steps(w2, [], w2);
    assert Steps(w1, [Body(h)], w2) by { assert [Body(h)][1..] == []; }
  }

  /** The last handler of `w` alone, moved on to `x`. */
  function Replaced(w: World, sh: Shared, x: Handler): World
    requires w.hs != []
  {
    World(sh, w.hs[..|w.hs| - 1] + [x])
  }

  /** Its first three sections: the epoch, the publish, and the first look at the
      predicate, which sends it to sleep. */
  lemma HeldCallSleeps(w: World) returns (acts: seq<Action>)
    requires w.hs != [] && Quiet(World(w.sh, w.hs[..|w.hs| - 1]))
    requires var x := w.hs[|w.hs| - 1]; x.pc == ReadEpoch && !x.inside
    ensures var x := w.hs[|w.hs| - 1];
      var k := x.req.key;
      Steps(w, acts, Replaced(w, w.sh.Published(k), x.(pc := Sleep, seen := w.sh.Epoch(k))))
  {
    var h := |w.hs| - 1;
    var x := w.hs[h];
    var k := x.req.key;
    assert forall i :: 0 <= i < h ==> w.hs[..h][i].pc.Done? && !w.hs[..h][i].inside;
    var s := [Acquire(h), Body(h)];
    var x1 := x.(seen := w.sh.Epoch(k), pc := Publish);
    var w1 := Replaced(w, w.sh, x1);
    OneSection(w, h);
    var w2 := Replaced(w, w.sh.Published(k), x1.(pc := Check));
    OneSection(w1, h);
    var w3 := Replaced(w, w.sh.Published(k), x1.(pc := Sleep));
    OneSection(w2, h);
    StepsAppend(w, s, w1, s, w2);
    StepsAppend(w, s + s, w2, s, w3);
    acts := s + s + s;
  }

  /** A held call served alone: its five remaining sections and its ceiling. */
  lemma HeldCallRuns(w: World) returns (acts: seq<Action>)
    requires w.hs != [] && Quiet(World(w.sh, w.hs[..|w.hs| - 1]))
    requires var x := w.hs[|w.hs| - 1]; x.pc == ReadEpoch && !x.inside
    ensures var x := w.hs[|w.hs| - 1];
      var k := x.req.key;
      Steps(w, acts, Replaced(w, w.sh.Published(k).Retired(k),
        x.(pc := Done(Success(x.attempt)), seen := w.sh.Epoch(k), woken := false)))
  {
    var h := |w.hs| - 1;
    var x := w.hs[h];
    var k := x.req.key;
    assert forall i :: 0 <= i < h ==> w.hs[..h][i].pc.Done? && !w.hs[..h][i].inside;
    var s := [Acquire(h), Body(h)];
    var x1 := x.(seen := w.sh.Epoch(k), pc := Sleep);
    var w3 := Replaced(w, w.sh.Published(k), x1);
    var asleep := HeldCallSleeps(w);
    var w4 := Replaced(w, w.sh.Published(k), x1.(pc := Expired));
    assert w4.hs == w3.hs[h := x1.(pc := Expired)];
    assert Steps(w3, [Timeout(h)], w4) by { assert [Timeout(h)][1..] == []; }
    var w5 := Replaced(w, w.sh.Published(k), x1.(pc := Retire, woken := false));
    OneSection(w4, h);
    OneSection(w5, h);
    var w6 := Replaced(w, w.sh.Published(k).Retired(k), x1.(pc := Done(Success(x.attempt)), woken := false));
    StepsAppend(w, asleep, w3, [Timeout(h)], w4);
    StepsAppend(w, asleep + [Timeout(h)], w4, s, w5);
    StepsAppend(w, asleep + [Timeout(h)] + s, w5, s, w6);
    acts := asleep + [Timeout(h)] + s + s;
  }

  /** A call made while the service is quiet has a run of the protocol that ends
      with exactly the state and the answer of Served. */
  lemma ServedRuns(w: World, req: Request) returns (acts: seq<Action>, w': World)
    requires req.Call? && req.key != "" && Quiet(w)
    ensures Steps(w, acts, w') && Quiet(w')
    ensures |w'.hs| == |w.hs| + 1 && w'.hs[..|w.hs|] == w.hs
    ensures (w'.sh, w'.hs[|w.hs|].pc) == (Served(w.sh, req).0, Done(Served(w.sh, req).1))
  {
    var h := |w.hs|;
    var w1 := Apply(w, Spawn(req));
    assert Steps(w, [Spawn(req)], w1) by { assert [Spawn(req)][1..] == []; }
    OneSection(w1, h);
    var (sh, x) := FirstSection(w.sh, Fresh(req));
    var w2 := World(sh, w.hs + [x]);
    assert w1.hs[..h] == w.hs;
    StepsAppend(w, [Spawn(req)], w1, [Acquire(h), Body(h)], w2);
    acts := [Spawn(req)] + [Acquire(h), Body(h)];
    w' := w2;
    if x.pc == ReadEpoch {
      assert w2.hs[..h] == w.hs;
      var more := HeldCallRuns(w2);
      w' := Replaced(w2, sh.Published(req.key).Retired(req.key),
                     x.(pc := Done(Success(x.attempt)), seen := sh.Epoch(req.key), woken := false));
      StepsAppend(w, acts, w2, more, w');
      acts := acts + more;
    }
  }

  /** The retrying client takes steps of the protocol: the formulas above speak of
      the same counters that the concurrent service keeps. */
  lemma {:induction false} ClientRuns(w: World, req: Request, n: nat) returns (acts: seq<Action>, w': World)
    requires req.Call? && req.key != "" && n >= 1 && Quiet(w)
    ensures var o := Attempts(w.sh, req, n);
      && Steps(w, acts, w') && Quiet(w')
      && w'.sh == o.sh && |w'.hs| == |w.hs| + o.calls
      && w'.hs[|w'.hs| - 1].pc == Done(o.last)
    decreases n
  {
    acts, w' := ServedRuns(w, req);
    if Retryable(Served(w.sh, req).1) && n > 1 {
      var more, w'' := ClientRuns(w', req, n - 1);
      StepsAppend(w, acts, w', more, w'');
      acts, w' := acts + more, w'';
    }
  }

  /** From any run that has come to rest, the client's attempts make a longer run,
      at whose end the service holds what the formulas say. */
  lemma ClientExtendsRun(ws: seq<World>, acts: seq<Action>, req: Request, n: nat)
    returns (longer: seq<World>, more: seq<Action>)
    requires IsRun(ws, acts) && Quiet(ws[|acts|])
    requires req.Call? && req.key != "" && n >= 1
    ensures var o := Attempts(ws[|acts|].sh, req, n);
      && IsRun(longer, acts + more) && ws <= longer
      && longer[|acts + more|].sh == o.sh
      && |longer[|acts + more|].hs| == |ws[|acts|].hs| + o.calls
  {
    var w';
    more, w' := ClientRuns(ws[|acts|], req, n);
    longer := StepsExtendRun(ws, acts, more, w');
  }
}
