/** How the three loops end: for each way of ending, exactly the hosts that bring it
    about, and what is reported then. */
module BudgetEnds {
  import opened Basics
  import opened Text
  import opened BudgetLoops

  lemma {:induction false} ElapsedNext(script: seq<Answer>, n: nat)
    requires n < |script|
    ensures Elapsed(script, n + 1) == Elapsed(script, n) + script[n].after
  {
    if n > 0 {
      ElapsedNext(script[1..], n - 1);
    }
  }

  /** A host that has answered `n` times goes on with the rest of its script. */
  lemma RestOfScript(script: seq<Answer>, n: nat)
    requires 1 <= n <= |script|
    ensures script[1..][n - 1..] == script[n..]
  {
  }

  // ------------------------------------------------------------------ counting

  /** The first `n` answers are ticks. */
  predicate TicksFirst(script: seq<Answer>, n: nat) {
    n <= |script| && forall i :: 0 <= i < n ==> script[i].outcome == Name("tick")
  }

  lemma TicksFirstNext(script: seq<Answer>, n: nat)
    requires script != []
    ensures TicksFirst(script, n + 1) <==> script[0].outcome == Name("tick") && TicksFirst(script[1..], n)
  {
    assert forall i :: 0 <= i < |script[1..]| ==> script[1..][i] == script[i + 1];
  }

  /** Ticks that are awaited in time are all counted, and the loop stands where it
      stood, at the host's next answer, that much later. */
  lemma {:induction false} CountGoesOn(deadline: int, now: int, script: seq<Answer>, count: nat, seen: seq<string>,
      n: nat)
    requires TicksFirst(script, n) && now + Elapsed(script, n) < deadline
    ensures Count(deadline, now, script, count, seen)
      == Count(deadline, now + Elapsed(script, n), script[n..], count + n, seen + seq(n, _ => "tick"))
    decreases n
  {
    var ticks := seq(n, _ => "tick");
    if n == 0 {
      assert script[0..] == script && seen + ticks == seen;
    } else {
      TicksFirstNext(script, n - 1);
      var later, rest := now + script[0].after, script[1..];
      assert Answered(now, script, deadline - now) == (later, rest, Name("tick"));
      CountGoesOn(deadline, later, rest, count + 1, seen + ["tick"], n - 1);
      RestOfScript(script, n);
      assert seen + ["tick"] + seq(n - 1, _ => "tick") == seen + ticks;
    }
  }

  /** After `n` ticks the next await starts before the deadline. */
  predicate AwaitsNext(deadline: int, now: int, script: seq<Answer>, n: nat) {
    TicksFirst(script, n) && now + Elapsed(script, n) < deadline
  }

  predicate DoneAfter(deadline: int, now: int, script: seq<Answer>, n: nat) {
    AwaitsNext(deadline, now, script, n) && n < |script| && script[n].outcome == Name("done")
  }

  predicate BrokenAfter(deadline: int, now: int, script: seq<Answer>, n: nat) {
    AwaitsNext(deadline, now, script, n) && n < |script| && script[n].outcome == Broke
  }

  predicate SilentAfter(deadline: int, now: int, script: seq<Answer>, n: nat) {
    AwaitsNext(deadline, now, script, n) && (n == |script| || script[n].outcome == Silent)
  }

  /** The deadline is reached with the `n`-th tick, or has passed before the first. */
  predicate SpentAfter(deadline: int, now: int, script: seq<Answer>, n: nat) {
    && TicksFirst(script, n) && now + Elapsed(script, n) >= deadline
    && (n > 0 ==> now + Elapsed(script, n - 1) < deadline)
  }

  /** Each of the four situations makes the loop end in its way, with n counted. */
  lemma CountEndsThere(deadline: int, now: int, script: seq<Answer>, n: nat)
    ensures var c := Count(deadline, now, script, 0, []);
      && (DoneAfter(deadline, now, script, n) ==>
            c.end == Complete && c.count == n && c.seen == seq(n, _ => "tick") + ["done"])
      && (BrokenAfter(deadline, now, script, n) ==> c.end == HostError && c.count == n)
      && (SilentAfter(deadline, now, script, n) || SpentAfter(deadline, now, script, n) ==>
            c.end == GaveUp && c.count == n && c.seen == seq(n, _ => "tick"))
  {
    var ticks := seq(n, _ => "tick");
    if AwaitsNext(deadline, now, script, n) {
      CountGoesOn(deadline, now, script, 0, [], n);
      assert [] + ticks == ticks;
    }
    if SpentAfter(deadline, now, script, n) {
      SpentGivesUp(deadline, now, script, n);
    }
  }

  lemma SpentGivesUp(deadline: int, now: int, script: seq<Answer>, n: nat)
    requires SpentAfter(deadline, now, script, n)
    ensures var c := Count(deadline, now, script, 0, []);
      c.end == GaveUp && c.count == n && c.seen == seq(n, _ => "tick") && c.now >= deadline
  {
    if n > 0 {
      CountGoesOn(deadline, now, script, 0, [], n - 1);
      ElapsedNext(script, n - 1);
      assert [] + seq(n - 1, _ => "tick") + ["tick"] == seq(n, _ => "tick");
      var left := script[n - 1..];
      assert left[0] == script[n - 1];
    }
  }

  /** And one of the four always obtains, for a host that answers with a tick, a
      "done", an error or nothing. */
  lemma {:induction false} SomeEnd(deadline: int, now: int, script: seq<Answer>) returns (n: nat)
    requires Listed(script, ["tick", "done"])
    ensures DoneAfter(deadline, now, script, n) || BrokenAfter(deadline, now, script, n)
      || SilentAfter(deadline, now, script, n) || SpentAfter(deadline, now, script, n)
    decreases |script|
  {
    n := 0;
    if now < deadline && script != [] && script[0].outcome == Name("tick") {
      var k := SomeEnd(deadline, now + script[0].after, script[1..]);
      TicksFirstNext(script, k);
      if k > 0 {
        TicksFirstNext(script, k - 1);
      }
      assert k < |script[1..]| ==> script[1..][k] == script[k + 1];
      n := k + 1;
    } else if now < deadline && script != [] && script[0].outcome.Name? {
      assert script[0].outcome.name in ["tick", "done"];
    }
  }

  /** The counting loop completes exactly when the first answers are ticks, the next is
      "done" and is awaited before the deadline, and then counts those ticks; it ends
      in an error exactly when the host breaks first; and it gives up exactly when the
      deadline is reached or the host falls silent first. */
  lemma CountEndsIff(deadline: int, now: int, script: seq<Answer>)
    requires Listed(script, ["tick", "done"])
    ensures var c := Count(deadline, now, script, 0, []);
      && (c.end == Complete <==> exists n :: DoneAfter(deadline, now, script, n))
      && (c.end == HostError <==> exists n :: BrokenAfter(deadline, now, script, n))
      && (c.end == GaveUp <==>
            exists n :: SilentAfter(deadline, now, script, n) || SpentAfter(deadline, now, script, n))
      && forall n :: DoneAfter(deadline, now, script, n) ==> c.count == n
  {
    forall n: nat ensures var c := Count(deadline, now, script, 0, []);
      && (DoneAfter(deadline, now, script, n) ==> c.end == Complete && c.count == n)
      && (BrokenAfter(deadline, now, script, n) ==> c.end == HostError)
      && (SilentAfter(deadline, now, script, n) || SpentAfter(deadline, now, script, n) ==> c.end == GaveUp)
    {
      CountEndsThere(deadline, now, script, n);
    }
    var n := SomeEnd(deadline, now, script);
  }

  // ------------------------------------------------------------------ waiting for names

  /** How many different names have arrived with the first `n` answers. */
  function Arrived(before: seq<string>, script: seq<Answer>, n: nat): nat
    requires Delivers(script, n)
  {
    |FirstArrivals(before + Names(script, n))|
  }

  lemma DeliversNext(before: seq<string>, script: seq<Answer>, n: nat)
    requires script != []
    ensures Delivers(script, n + 1) <==> script[0].outcome.Name? && Delivers(script[1..], n)
    ensures Delivers(script, n + 1) ==>
      Arrived(before, script, n + 1) == Arrived(before + [script[0].outcome.name], script[1..], n)
  {
    assert forall i :: 0 <= i < |script[1..]| ==> script[1..][i] == script[i + 1];
    if Delivers(script, n + 1) {
      NamesNext(before, script, n + 1);
    }
  }

  lemma NoneArrivedYet(before: seq<string>, script: seq<Answer>)
    ensures Arrived(before, script, 0) == |FirstArrivals(before)|
  {
    assert before + Names(script, 0) == before;
  }

  /** The first `n` answers are deliveries that leave names to wait for. */
  predicate Waits(wanted: seq<string>, before: seq<string>, script: seq<Answer>, n: nat) {
    Delivers(script, n) && forall k: nat :: k <= n ==> Delivers(script, k) && Arrived(before, script, k) < |wanted|
  }

  lemma WaitsNext(wanted: seq<string>, before: seq<string>, script: seq<Answer>, n: nat)
    requires script != [] && script[0].outcome.Name?
    ensures Waits(wanted, before, script, n + 1) <==>
      |FirstArrivals(before)| < |wanted| && Waits(wanted, before + [script[0].outcome.name], script[1..], n)
  {
    NoneArrivedYet(before, script);
    forall k: nat ensures
      && (Delivers(script, k + 1) <==> Delivers(script[1..], k))
      && (Delivers(script, k + 1) ==>
            Arrived(before, script, k + 1) == Arrived(before + [script[0].outcome.name], script[1..], k))
    {
      DeliversNext(before, script, k);
    }
    if Waits(wanted, before + [script[0].outcome.name], script[1..], n) && |FirstArrivals(before)| < |wanted| {
      forall k: nat | k <= n + 1 ensures Delivers(script, k) && Arrived(before, script, k) < |wanted| {
        if k > 0 {
          assert Delivers(script[1..], k - 1);
        }
      }
    }
    if Waits(wanted, before, script, n + 1) {
      forall k: nat | k <= n
        ensures Delivers(script[1..], k) && Arrived(before + [script[0].outcome.name], script[1..], k) < |wanted|
      {
        assert Delivers(script, k + 1);
      }
    }
  }

  /** The wait stands where it stood, with the next answer to come. */
  predicate Awaiting(wanted: seq<string>, deadline: int, now: int, script: seq<Answer>, before: seq<string>, n: nat) {
    Waits(wanted, before, script, n) && now + Elapsed(script, n) < deadline
  }

  predicate NamesAllIn(wanted: seq<string>, deadline: int, now: int, script: seq<Answer>, before: seq<string>, n: nat) {
    && Delivers(script, n) && Arrived(before, script, n) >= |wanted|
    && (n > 0 ==> Awaiting(wanted, deadline, now, script, before, n - 1))
  }

  predicate WaitBroken(wanted: seq<string>, deadline: int, now: int, script: seq<Answer>, before: seq<string>, n: nat) {
    Awaiting(wanted, deadline, now, script, before, n) && n < |script| && script[n].outcome == Broke
  }

  predicate WaitSilent(wanted: seq<string>, deadline: int, now: int, script: seq<Answer>, before: seq<string>, n: nat) {
    Awaiting(wanted, deadline, now, script, before, n) && (n == |script| || script[n].outcome == Silent)
  }

  predicate WaitSpent(wanted: seq<string>, deadline: int, now: int, script: seq<Answer>, before: seq<string>, n: nat) {
    && Waits(wanted, before, script, n) && now + Elapsed(script, n) >= deadline
    && (n > 0 ==> now + Elapsed(script, n - 1) < deadline)
  }

  predicate EndsAs(end: End, wanted: seq<string>, deadline: int, now: int, script: seq<Answer>,
      before: seq<string>, n: nat) {
    match end
    case Complete => NamesAllIn(wanted, deadline, now, script, before, n)
    case HostError => WaitBroken(wanted, deadline, now, script, before, n)
    case GaveUp =>
      WaitSilent(wanted, deadline, now, script, before, n) || WaitSpent(wanted, deadline, now, script, before, n)
    case NoNames => false
  }

  lemma TimeNext(deadline: int, now: int, script: seq<Answer>, n: nat)
    requires now < deadline && n < |script|
    ensures var later := Answered(now, script, deadline - now).0;
      now + Elapsed(script, n + 1) < deadline <==> later + Elapsed(script[1..], n) < deadline
  {
  }

  lemma AwaitingNext(wanted: seq<string>, deadline: int, now: int, script: seq<Answer>, before: seq<string>, n: nat)
    requires now < deadline && |FirstArrivals(before)| < |wanted| && script != [] && script[0].outcome.Name?
    ensures var (later, rest, o) := Answered(now, script, deadline - now);
      var after := before + [o.name];
      && (Waits(wanted, before, script, n + 1) <==> Waits(wanted, after, rest, n))
      && (Awaiting(wanted, deadline, now, script, before, n + 1) <==> Awaiting(wanted, deadline, later, rest, after, n))
  {
    WaitsNext(wanted, before, script, n);
    if n < |script| {
      TimeNext(deadline, now, script, n);
    }
  }

  /** After one delivery in time, the situations are those of the rest. */
  lemma EndsAsNext(end: End, wanted: seq<string>, deadline: int, now: int, script: seq<Answer>,
      before: seq<string>, n: nat)
    requires now < deadline && |FirstArrivals(before)| < |wanted| && script != [] && script[0].outcome.Name?
    ensures var (later, rest, o) := Answered(now, script, deadline - now);
      (EndsAs(end, wanted, deadline, now, script, before, n + 1) <==>
       EndsAs(end, wanted, deadline, later, rest, before + [o.name], n))
  {
    NoneArrivedYet(before, script);
    AwaitingNext(wanted, deadline, now, script, before, n);
    assert n < |script[1..]| ==> script[1..][n] == script[n + 1];
    match end
    case Complete => CompleteNext(wanted, deadline, now, script, before, n);
    case GaveUp => SpentNext(wanted, deadline, now, script, before, n);
    case _ =>
  }

  lemma CompleteNext(wanted: seq<string>, deadline: int, now: int, script: seq<Answer>, before: seq<string>, n: nat)
    requires now < deadline && |FirstArrivals(before)| < |wanted| && script != [] && script[0].outcome.Name?
    ensures var (later, rest, o) := Answered(now, script, deadline - now);
      (NamesAllIn(wanted, deadline, now, script, before, n + 1) <==>
       NamesAllIn(wanted, deadline, later, rest, before + [o.name], n))
  {
    NoneArrivedYet(before, script);
    DeliversNext(before, script, n);
    if n > 0 {
      AwaitingNext(wanted, deadline, now, script, before, n - 1);
    }
  }

  lemma SpentNext(wanted: seq<string>, deadline: int, now: int, script: seq<Answer>, before: seq<string>, n: nat)
    requires now < deadline && |FirstArrivals(before)| < |wanted| && script != [] && script[0].outcome.Name?
    ensures var (later, rest, o) := Answered(now, script, deadline - now);
      (WaitSpent(wanted, deadline, now, script, before, n + 1) <==>
       WaitSpent(wanted, deadline, later, rest, before + [o.name], n))
  {
    AwaitingNext(wanted, deadline, now, script, before, n);
    if n < |script| {
      TimeNext(deadline, now, script, n);
      if n > 0 {
        TimeNext(deadline, now, script, n - 1);
      }
    }
  }

  /** The wait ends in one of these ways after some number of deliveries, and in no
      other way after any. */
  lemma {:induction false} WaitEndsFrom(wanted: seq<string>, deadline: int, now: int, script: seq<Answer>,
      before: seq<string>) returns (n: nat)
    ensures EndsAs(Collect(wanted, deadline, now, script, FirstArrivals(before)).end,
                   wanted, deadline, now, script, before, n)
    ensures forall end, k :: EndsAs(end, wanted, deadline, now, script, before, k) ==>
      end == Collect(wanted, deadline, now, script, FirstArrivals(before)).end && k == n
    ensures n == Collect(wanted, deadline, now, script, FirstArrivals(before)).taken
    decreases |script|
  {
    n := 0;
    if |FirstArrivals(before)| < |wanted| && now < deadline && script != [] && script[0].outcome.Name? {
      var (later, rest, o) := Answered(now, script, deadline - now);
      var after := before + [o.name];
      var w := Collect(wanted, deadline, now, script, FirstArrivals(before));
      var v := Collect(wanted, deadline, later, rest, FirstArrivals(after));
      assert w == v.(taken := v.taken + 1) by {
        CollectNext(wanted, deadline, now, script, FirstArrivals(before));
        FirstArrivalsNext(before, o.name);
      }
      var m := WaitEndsFrom(wanted, deadline, later, rest, after);
      EndsAsNext(v.end, wanted, deadline, now, script, before, m);
      OnlyLater(wanted, deadline, now, script, before, v.end, m);
      n := m + 1;
    } else {
      EndsAtOnce(wanted, deadline, now, script, before);
    }
  }

  lemma NotYet(wanted: seq<string>, deadline: int, now: int, script: seq<Answer>, before: seq<string>)
    requires now < deadline && |FirstArrivals(before)| < |wanted| && script != [] && script[0].outcome.Name?
    ensures forall end :: !EndsAs(end, wanted, deadline, now, script, before, 0)
  {
    NoneArrivedYet(before, script);
  }

  lemma OnlyLater(wanted: seq<string>, deadline: int, now: int, script: seq<Answer>, before: seq<string>,
      end: End, m: nat)
    requires now < deadline && |FirstArrivals(before)| < |wanted| && script != [] && script[0].outcome.Name?
    requires var (later, rest, o) := Answered(now, script, deadline - now);
      forall e, k :: EndsAs(e, wanted, deadline, later, rest, before + [o.name], k) ==> e == end && k == m
    ensures forall e, k :: EndsAs(e, wanted, deadline, now, script, before, k) ==> e == end && k == m + 1
  {
    NotYet(wanted, deadline, now, script, before);
    forall e, k: nat | EndsAs(e, wanted, deadline, now, script, before, k) ensures e == end && k == m + 1 {
      if k > 0 {
        EndsAsNext(e, wanted, deadline, now, script, before, k - 1);
      }
    }
  }

  lemma EndsAtOnce(wanted: seq<string>, deadline: int, now: int, script: seq<Answer>, before: seq<string>)
    requires !(|FirstArrivals(before)| < |wanted| && now < deadline && script != [] && script[0].outcome.Name?)
    ensures var end := Collect(wanted, deadline, now, script, FirstArrivals(before)).end;
      && EndsAs(end, wanted, deadline, now, script, before, 0)
      && forall e, k :: EndsAs(e, wanted, deadline, now, script, before, k) ==> e == end && k == 0
  {
    NoneArrivedYet(before, script);
  }

  /** A wait for names ends exactly so: complete when as many names as are wanted have
      arrived, each awaited in time; in an error when the host breaks before that; and
      it gives up when the deadline is reached or the host falls silent before that.
      In each case it reports the names of those first n deliveries. */
  lemma WaitEndsIff(wanted: seq<string>, deadline: int, now: int, script: seq<Answer>, end: End)
    ensures Collect(wanted, deadline, now, script, []).end == end
      <==> exists n :: EndsAs(end, wanted, deadline, now, script, [], n)
    ensures forall n :: EndsAs(end, wanted, deadline, now, script, [], n) ==>
      Delivers(script, n) && Collect(wanted, deadline, now, script, []).order == FirstArrivals(Names(script, n))
  {
    assert FirstArrivals([]) == [];
    var n := WaitEndsFrom(wanted, deadline, now, script, []);
    CollectReportsArrivals(wanted, deadline, now, script, []);
    assert [] + Names(script, n) == Names(script, n);
  }

  // ------------------------------------------------------------------ a chain of promises

  /** The clock after `n` resolved awaits, each cut short at the whole milliseconds
      that were left. */
  function Clock(deadline: int, now: int, script: seq<Answer>, n: nat): int
    requires n <= |script|
    decreases n
  {
    if n == 0 then now
    else Clock(deadline, now + Min(script[0].after, (deadline - now) / MILLISECOND * MILLISECOND), script[1..], n - 1)
  }

  /** The first `n` promises are resolved, each awaited before the deadline. */
  predicate Resolves(deadline: int, now: int, script: seq<Answer>, n: nat) {
    Delivers(script, n) && forall j: nat :: j < n ==> Clock(deadline, now, script, j) < deadline
  }

  predicate ChainBroken(count: nat, deadline: int, now: int, script: seq<Answer>, n: nat) {
    && n < count && Resolves(deadline, now, script, n) && Clock(deadline, now, script, n) < deadline
    && n < |script| && script[n].outcome == Broke
  }

  /** Time runs out, or the host says so, with `n` resolved and more to come. */
  predicate ChainTimedOut(count: nat, deadline: int, now: int, script: seq<Answer>, n: nat) {
    && n < count && Resolves(deadline, now, script, n)
    && (Clock(deadline, now, script, n) >= deadline || n == |script| || script[n].outcome == Silent)
  }

  predicate ChainDone(count: nat, deadline: int, now: int, script: seq<Answer>, n: nat) {
    n == count && Resolves(deadline, now, script, n)
  }

  lemma ResolvesNext(deadline: int, now: int, script: seq<Answer>, n: nat)
    requires script != [] && now < deadline && script[0].outcome.Name?
    ensures var later := now + Min(script[0].after, (deadline - now) / MILLISECOND * MILLISECOND);
      Resolves(deadline, now, script, n + 1) <==> Resolves(deadline, later, script[1..], n)
  {
    var later := now + Min(script[0].after, (deadline - now) / MILLISECOND * MILLISECOND);
    assert forall i :: 0 <= i < |script[1..]| ==> script[1..][i] == script[i + 1];
    if Resolves(deadline, now, script, n + 1) {
      forall j: nat | j < n ensures Clock(deadline, later, script[1..], j) < deadline {
        assert Clock(deadline, now, script, j + 1) < deadline;
      }
    }
    if Resolves(deadline, later, script[1..], n) {
      forall j: nat | j < n + 1 ensures Clock(deadline, now, script, j) < deadline {
        if j > 0 {
          assert Clock(deadline, later, script[1..], j - 1) < deadline;
        }
      }
    }
  }

  /** One of the three obtains, and the chain ends accordingly: with the number of the
      promise whose await failed, or with the number resolved. */
  lemma {:induction false} ChainEndsFrom(count: nat, deadline: int, now: int, script: seq<Answer>,
      i: nat) returns (n: nat)
    requires i <= count
    ensures var (left, c) := (count - i, Chain(count, deadline, now, script, i));
      || (ChainBroken(left, deadline, now, script, n) && c.AwaitFailed? && c.at == i + n)
      || (ChainTimedOut(left, deadline, now, script, n) && c.Chained? && c.timedOut && c.resolved == i + n)
      || (ChainDone(left, deadline, now, script, n) && c.Chained? && !c.timedOut && c.resolved == count)
    decreases count - i
  {
    n := 0;
    if i < count && now < deadline && script != [] && script[0].outcome.Name? {
      var later := now + Min(script[0].after, (deadline - now) / MILLISECOND * MILLISECOND);
      var m := ChainEndsFrom(count, deadline, later, script[1..], i + 1);
      ResolvesNext(deadline, now, script, m);
      assert m < |script[1..]| ==> script[1..][m] == script[m + 1];
      n := m + 1;
    }
  }

  /** No two of the situations obtain together, nor one of them for two numbers. */
  lemma ChainEndsOnce(count: nat, deadline: int, now: int, script: seq<Answer>, m: nat, n: nat)
    requires ChainBroken(count, deadline, now, script, m) || ChainTimedOut(count, deadline, now, script, m)
      || ChainDone(count, deadline, now, script, m)
    requires ChainBroken(count, deadline, now, script, n) || ChainTimedOut(count, deadline, now, script, n)
      || ChainDone(count, deadline, now, script, n)
    ensures m == n && (ChainBroken(count, deadline, now, script, n) ==> !ChainTimedOut(count, deadline, now, script, n))
  {
  }

  /** The chain fails on an await exactly when the host breaks there, in time and with
      all before it resolved; it times out exactly when the clock or the host runs out
      first; and it reports every promise exactly when all are resolved in time. */
  lemma ChainEndsIff(count: nat, deadline: int, now: int, script: seq<Answer>)
    ensures var c := Chain(count, deadline, now, script, 0);
      && (c.AwaitFailed? <==> exists n :: ChainBroken(count, deadline, now, script, n))
      && (c.Chained? && c.timedOut <==> exists n :: ChainTimedOut(count, deadline, now, script, n))
      && (c.Chained? && !c.timedOut <==> exists n :: ChainDone(count, deadline, now, script, n))
      && (forall n :: ChainBroken(count, deadline, now, script, n) ==> c.AwaitFailed? && c.at == n)
      && (forall n :: ChainTimedOut(count, deadline, now, script, n) ==> c.Chained? && c.resolved == n)
  {
    var m := ChainEndsFrom(count, deadline, now, script, 0);
    forall n: nat | ChainBroken(count, deadline, now, script, n) || ChainTimedOut(count, deadline, now, script, n)
      || ChainDone(count, deadline, now, script, n)
      ensures n == m
    {
      ChainEndsOnce(count, deadline, now, script, m, n);
    }
    ChainEndsOnce(count, deadline, now, script, m, m);
  }
}
