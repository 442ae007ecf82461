/** Three workflow loops that wait under one total time budget. The host is any
    script of answers; an answer takes some time, but never more than was asked for. */
module BudgetLoops {
  import opened Basics
  import opened Text

  /** Nanoseconds in a millisecond; the workflow clock counts nanoseconds. */
  const MILLISECOND := 1_000_000

  datatype Outcome = Name(name: string) | Silent | Broke

  datatype Answer = Answer(after: nat, outcome: Outcome)

  /** One await: the clock moves by at most `limit`; a host with nothing left to
      say lets the await time out. */
  function Answered(now: int, script: seq<Answer>, limit: nat): (r: (int, seq<Answer>, Outcome))
    ensures now <= r.0 <= now + limit
  {
    if script == [] then (now + limit, [], Silent)
    else (now + Min(script[0].after, limit), script[1..], script[0].outcome)
  }

  class Host {
    var now: int
    var script: seq<Answer>

    constructor (now: int, script: seq<Answer>)
      ensures this.now == now && this.script == script
    {
      this.now, this.script := now, script;
    }

    method Await(limit: nat) returns (o: Outcome)
      modifies this
      ensures (now, script, o) == Answered(old(now), old(script), limit)
    {
      if script == [] {
        now := now + limit;
        o := Silent;
      } else {
        now := now + Min(script[0].after, limit);
        o := script[0].outcome;
        script := script[1..];
      }
    }
  }

  /** The host answers with a name that was asked for, a timeout or an error. */
  ghost predicate Listed(script: seq<Answer>, wanted: seq<string>) {
    forall i :: 0 <= i < |script| && script[i].outcome.Name? ==> script[i].outcome.name in wanted
  }

  /** The first `n` answers all are deliveries. */
  predicate Delivers(script: seq<Answer>, n: nat) {
    n <= |script| && forall i :: 0 <= i < n ==> script[i].outcome.Name?
  }

  function Names(script: seq<Answer>, n: nat): (r: seq<string>)
    requires Delivers(script, n)
    ensures |r| == n
  {
    seq(n, i requires 0 <= i < n => script[i].outcome.name)
  }

  /** The first delivery may be counted with those before it. */
  lemma NamesNext(before: seq<string>, script: seq<Answer>, n: nat)
    requires 1 <= n <= |script| && script[0].outcome.Name? && Delivers(script[1..], n - 1)
    ensures Delivers(script, n)
    ensures before + Names(script, n) == before + [script[0].outcome.name] + Names(script[1..], n - 1)
  {
    assert forall i :: 1 <= i < n ==> script[i] == script[1..][i - 1];
  }

  // ------------------------------------------------------------- waiting for a set of names

  datatype End = Complete | GaveUp | HostError | NoNames

  /** How a wait ended: the names in order of arrival, the clock, and how many
      deliveries were taken. */
  datatype Waited = Waited(end: End, order: seq<string>, now: int, taken: nat)

  function Collect(wanted: seq<string>, deadline: int, now: int, script: seq<Answer>, order: seq<string>): Waited
    decreases |script|
  {
    if |order| >= |wanted| then Waited(Complete, order, now, 0)
    else if deadline - now <= 0 then Waited(GaveUp, order, now, 0)
    else
      var (later, rest, o) := Answered(now, script, deadline - now);
      match o
      case Broke => Waited(HostError, order, later, 0)
      case Silent => Waited(GaveUp, order, later, 0)
      case Name(n) =>
        var w := Collect(wanted, deadline, later, rest, if n in order then order else order + [n]);
        w.(taken := w.taken + 1)
  }

  /** HandleAwaitSignals. */
  method AwaitSignals(host: Host, names: string, timeoutMs: int) returns (end: End, order: seq<string>)
    modifies host
    ensures names == "" ==> end == NoNames && order == []
    ensures names != "" ==>
      var w := Collect(Split(names, ','), old(host.now) + timeoutMs * MILLISECOND, old(host.now), old(host.script), []);
      end == w.end && order == w.order && host.now == w.now
  {
    order := [];
    var wanted := Split(names, ',');
    if |wanted| == 0 || names == "" {
      return NoNames, [];
    }
    var seen: set<string> := {};
    var giveUpAt := host.now + timeoutMs * MILLISECOND;
    ghost var whole := Collect(wanted, giveUpAt, host.now, host.script, []);
    while |seen| < |wanted|
      invariant seen == (set n | n in order) && |seen| == |order|
      invariant var w := Collect(wanted, giveUpAt, host.now, host.script, order);
        w.end == whole.end && w.order == whole.order && w.now == whole.now
      decreases |host.script|
    {
      var remaining := giveUpAt - host.now;
      if remaining <= 0 {
        return GaveUp, order;
      }
      var o := host.Await(remaining);
      if o.Broke? {
        return HostError, order;
      }
      if o.Silent? {
        return GaveUp, order;
      }
      if o.name !in seen {
        seen := seen + {o.name};
        order := order + [o.name];
      }
    }
    end := Complete;
  }

  /** The names in the order in which each first arrived. */
  function FirstArrivals(names: seq<string>): seq<string> {
    if names == [] then []
    else
      var before, last := FirstArrivals(names[..|names| - 1]), names[|names| - 1];
      if last in names[..|names| - 1] then before else before + [last]
  }

  lemma {:induction false} FirstArrivalsAre(names: seq<string>)
    ensures NoRepeats(FirstArrivals(names))
    ensures forall n :: n in FirstArrivals(names) <==> n in names
  {
    if names != [] {
      var m := |names| - 1;
      FirstArrivalsAre(names[..m]);
      forall n ensures n in FirstArrivals(names) <==> n in names {
        assert n in names <==> n in names[..m] || n == names[m];
      }
    }
  }

  /** The clock never passes the deadline, however many duplicates arrive. */
  lemma {:induction false} CollectKeepsBudget(wanted: seq<string>, deadline: int, now: int, script: seq<Answer>,
      order: seq<string>)
    ensures now <= Collect(wanted, deadline, now, script, order).now <= Max(now, deadline)
    decreases |script|
  {
    if |order| < |wanted| && deadline - now > 0 {
      var (later, rest, o) := Answered(now, script, deadline - now);
      if o.Name? {
        CollectKeepsBudget(wanted, deadline, later, rest, if o.name in order then order else order + [o.name]);
      }
    }
  }

  /** It gives up only when the budget is spent or the host says so. */
  lemma {:induction false} CollectGivesUpWhen(wanted: seq<string>, deadline: int, now: int, script: seq<Answer>,
      order: seq<string>)
    ensures var w := Collect(wanted, deadline, now, script, order);
      w.end == GaveUp ==> w.now >= deadline || (w.taken < |script| && script[w.taken].outcome == Silent)
    decreases |script|
  {
    if |order| < |wanted| && deadline - now > 0 {
      var (later, rest, o) := Answered(now, script, deadline - now);
      if o.Name? {
        CollectGivesUpWhen(wanted, deadline, later, rest, if o.name in order then order else order + [o.name]);
      }
    }
  }

  lemma FirstArrivalsNext(before: seq<string>, n: string)
    ensures FirstArrivals(before + [n])
      == if n in FirstArrivals(before) then FirstArrivals(before) else FirstArrivals(before) + [n]
  {
    assert (before + [n])[..|before|] == before;
    FirstArrivalsAre(before);
  }

  /** A delivery in time is taken, and the wait goes on with one name more or the same. */
  lemma CollectNext(wanted: seq<string>, deadline: int, now: int, script: seq<Answer>, order: seq<string>)
    requires |order| < |wanted| && deadline > now && script != [] && script[0].outcome.Name?
    ensures var (later, rest, o) := Answered(now, script, deadline - now);
      var w := Collect(wanted, deadline, later, rest, if o.name in order then order else order + [o.name]);
      Collect(wanted, deadline, now, script, order) == w.(taken := w.taken + 1)
  {
  }

  /** Whatever way the wait ends, the reported order is the first-arrival order of
      exactly the deliveries that were taken. */
  lemma {:induction false} CollectReportsArrivals(wanted: seq<string>, deadline: int, now: int,
      script: seq<Answer>, before: seq<string>)
    ensures var w := Collect(wanted, deadline, now, script, FirstArrivals(before));
      Delivers(script, w.taken) && w.order == FirstArrivals(before + Names(script, w.taken))
    decreases |script|
  {
    var order := FirstArrivals(before);
    if |order| < |wanted| && deadline > now && script != [] && script[0].outcome.Name? {
      var (later, rest, o) := Answered(now, script, deadline - now);
      CollectNext(wanted, deadline, now, script, order);
      FirstArrivalsNext(before, o.name);
      CollectReportsArrivals(wanted, deadline, later, rest, before + [o.name]);
      NamesNext(before, script, Collect(wanted, deadline, now, script, order).taken);
    } else {
      assert before + Names(script, 0) == before;
    }
  }

  /** Completion means that every wanted name arrived; it is not reached by counting. */
  lemma CompleteMeansAll(wanted: seq<string>, deadline: int, now: int, script: seq<Answer>)
    requires Listed(script, wanted)
    requires Collect(wanted, deadline, now, script, []).end == Complete
    ensures var w := Collect(wanted, deadline, now, script, []);
      && Delivers(script, w.taken)
      && w.order == FirstArrivals(Names(script, w.taken))
      && Elements(w.order) == Elements(wanted) && |w.order| == |wanted| && NoRepeats(wanted)
  {
    var w := Collect(wanted, deadline, now, script, []);
    CollectReportsArrivals(wanted, deadline, now, script, []);
    assert [] + Names(script, w.taken) == Names(script, w.taken);
    FirstArrivalsAre(Names(script, w.taken));
    CompleteIsLong(wanted, deadline, now, script, []);
    ElementsCardinality(w.order);
    ElementsCardinality(wanted);
    assert Elements(w.order) <= Elements(wanted);
    SubsetCardinality(Elements(w.order), Elements(wanted));
  }

  lemma {:induction false} CompleteIsLong(wanted: seq<string>, deadline: int, now: int, script: seq<Answer>,
      order: seq<string>)
    requires Collect(wanted, deadline, now, script, order).end == Complete
    ensures |Collect(wanted, deadline, now, script, order).order| >= |wanted|
    decreases |script|
  {
    if |order| < |wanted| {
      var (later, rest, o) := Answered(now, script, deadline - now);
      CompleteIsLong(wanted, deadline, later, rest, if o.name in order then order else order + [o.name]);
    }
  }

  /** The time that the first `n` answers take, if nothing cuts them short. */
  function Elapsed(script: seq<Answer>, n: nat): nat
    requires n <= |script|
  {
    if n == 0 then 0 else script[0].after + Elapsed(script[1..], n - 1)
  }

  /** Together with the names that came before, the first `n` answers deliver every
      wanted name, and the last of them is awaited before the deadline. */
  ghost predicate Enough(wanted: seq<string>, deadline: int, now: int, script: seq<Answer>, before: seq<string>,
      n: nat) {
    && Delivers(script, n)
    && Elements(before + Names(script, n)) == Elements(wanted)
    && (n > 0 ==> now + Elapsed(script, n - 1) < deadline)
  }

  /** Having as many distinct names as are wanted is having all of them. */
  lemma AllArrivedIff(wanted: seq<string>, before: seq<string>)
    requires NoRepeats(wanted) && forall n :: n in before ==> n in wanted
    ensures |FirstArrivals(before)| >= |wanted| <==> Elements(before) == Elements(wanted)
  {
    var order := FirstArrivals(before);
    FirstArrivalsAre(before);
    ElementsCardinality(order);
    ElementsCardinality(wanted);
    assert Elements(order) == Elements(before) <= Elements(wanted);
    if |order| >= |wanted| {
      SubsetCardinality(Elements(order), Elements(wanted));
    }
  }

  lemma EnoughNext(wanted: seq<string>, deadline: int, now: int, script: seq<Answer>, before: seq<string>, n: nat)
    requires now < deadline && script != [] && script[0].outcome.Name?
    ensures var (later, rest, o) := Answered(now, script, deadline - now);
      Enough(wanted, deadline, now, script, before, n + 1) <==> Enough(wanted, deadline, later, rest, before + [o.name], n)
  {
    var (later, rest, o) := Answered(now, script, deadline - now);
    assert Delivers(script, n + 1) <==> Delivers(rest, n) by {
      assert forall i :: 0 <= i < |rest| ==> rest[i] == script[i + 1];
    }
    if Delivers(rest, n) {
      NamesNext(before, script, n + 1);
    }
  }

  lemma {:induction false} CompletesFromIff(wanted: seq<string>, deadline: int, now: int, script: seq<Answer>,
      before: seq<string>)
    requires NoRepeats(wanted) && Listed(script, wanted) && forall n :: n in before ==> n in wanted
    ensures Collect(wanted, deadline, now, script, FirstArrivals(before)).end == Complete
      <==> exists n :: Enough(wanted, deadline, now, script, before, n)
    decreases |script|
  {
    AllArrivedIff(wanted, before);
    assert before + Names(script, 0) == before;
    if |FirstArrivals(before)| >= |wanted| {
      assert Enough(wanted, deadline, now, script, before, 0);
    } else if deadline > now && script != [] && script[0].outcome.Name? {
      var (later, rest, o) := Answered(now, script, deadline - now);
      FirstArrivalsNext(before, o.name);
      CompletesFromIff(wanted, deadline, later, rest, before + [o.name]);
      forall n: nat ensures Enough(wanted, deadline, now, script, before, n + 1)
        <==> Enough(wanted, deadline, later, rest, before + [o.name], n)
      {
        EnoughNext(wanted, deadline, now, script, before, n);
      }
      if n: nat :| Enough(wanted, deadline, now, script, before, n) {
        assert Enough(wanted, deadline, later, rest, before + [o.name], n - 1);
      }
    }
  }

  ghost predicate DeliversAll(wanted: seq<string>, deadline: int, now: int, script: seq<Answer>, n: nat) {
    && Delivers(script, n)
    && Elements(Names(script, n)) == Elements(wanted)
    && (n > 0 ==> now + Elapsed(script, n - 1) < deadline)
  }

  /** For distinct names, a host makes the wait complete exactly when its first so many
      answers deliver every name and the last of them is awaited before the deadline. */
  lemma CompletesIff(wanted: seq<string>, deadline: int, now: int, script: seq<Answer>)
    requires NoRepeats(wanted) && Listed(script, wanted)
    ensures Collect(wanted, deadline, now, script, []).end == Complete
      <==> exists n :: DeliversAll(wanted, deadline, now, script, n)
  {
    CompletesFromIff(wanted, deadline, now, script, []);
    forall n: nat ensures DeliversAll(wanted, deadline, now, script, n) <==> Enough(wanted, deadline, now, script, [], n) {
      if Delivers(script, n) {
        assert [] + Names(script, n) == Names(script, n);
      }
    }
  }

  /** The wait can complete at all exactly when the names are distinct: asked for
      one name twice, it always runs out its budget. */
  lemma CanCompleteIff(wanted: seq<string>, deadline: int, now: int)
    requires wanted != [] && deadline > now
    ensures (exists script :: Listed(script, wanted) && Collect(wanted, deadline, now, script, []).end == Complete)
      <==> NoRepeats(wanted)
  {
    if script :| Listed(script, wanted) && Collect(wanted, deadline, now, script, []).end == Complete {
      CompleteMeansAll(wanted, deadline, now, script);
    }
    if NoRepeats(wanted) {
      var script := Prompt(wanted, 0);
      PromptCompletes(wanted, deadline, now, 0);
      assert Listed(script, wanted);
    }
  }

  /** A host that delivers every name from the `i`-th on at once. */
  function Prompt(wanted: seq<string>, i: nat): (script: seq<Answer>)
    requires i <= |wanted|
    ensures |script| == |wanted| - i
    ensures forall j :: 0 <= j < |script| ==> script[j] == Answer(0, Name(wanted[i + j]))
  {
    seq(|wanted| - i, j requires 0 <= j < |wanted| - i => Answer(0, Name(wanted[i + j])))
  }

  lemma {:induction false} PromptCompletes(wanted: seq<string>, deadline: int, now: int, i: nat)
    requires NoRepeats(wanted) && i <= |wanted| && deadline > now
    ensures Collect(wanted, deadline, now, Prompt(wanted, i), wanted[..i]).end == Complete
    decreases |wanted| - i
  {
    if i < |wanted| {
      assert Prompt(wanted, i)[1..] == Prompt(wanted, i + 1);
      assert wanted[..i + 1] == wanted[..i] + [wanted[i]];
      PromptCompletes(wanted, deadline, now, i + 1);
    }
  }

  // ------------------------------------------------------------------- counting deliveries

  datatype Counted = Counted(end: End, count: nat, seen: seq<string>, now: int)

  function Count(deadline: int, now: int, script: seq<Answer>, count: nat, seen: seq<string>): Counted
    decreases |script|
  {
    if deadline - now <= 0 then Counted(GaveUp, count, seen, now)
    else
      var (later, rest, o) := Answered(now, script, deadline - now);
      match o
      case Broke => Counted(HostError, count, seen, later)
      case Silent => Counted(GaveUp, count, seen, later)
      case Name(n) =>
        if n == "done" then Counted(Complete, count, seen + [n], later)
        else Count(deadline, later, rest, count + 1, seen + [n])
  }

  /** HandleSignalCounter, with the counts it publishes on the way. */
  method SignalCounter(host: Host, budgetMs: int)
    returns (end: End, count: nat, seen: seq<string>, published: seq<nat>)
    modifies host
    ensures Counted(end, count, seen, host.now)
      == Count(old(host.now) + budgetMs * MILLISECOND, old(host.now), old(host.script), 0, [])
    ensures |published| == count + 1 && forall i :: 0 <= i <= count ==> published[i] == i
  {
    var giveUpAt := host.now + budgetMs * MILLISECOND;
    ghost var whole := Count(giveUpAt, host.now, host.script, 0, []);
    count, published, seen := 0, [0], [];
    while true
      invariant Count(giveUpAt, host.now, host.script, count, seen) == whole
      invariant |published| == count + 1 && forall i :: 0 <= i <= count ==> published[i] == i
      decreases |host.script|
    {
      var remaining := giveUpAt - host.now;
      if remaining <= 0 {
        end := GaveUp;
        return;
      }
      var o := host.Await(remaining);
      if o.Broke? {
        end := HostError;
        return;
      }
      if o.Silent? {
        end := GaveUp;
        return;
      }
      seen := seen + [o.name];
      if o.name == "done" {
        end := Complete;
        return;
      }
      count := count + 1;
      published := published + [count];
    }
  }

  function Ticks(names: seq<string>): nat {
    if names == [] then 0 else Ticks(names[..|names| - 1]) + if names[|names| - 1] == "tick" then 1 else 0
  }

  lemma {:induction false} CountKeepsBudget(deadline: int, now: int, script: seq<Answer>, count: nat, seen: seq<string>)
    ensures now <= Count(deadline, now, script, count, seen).now <= Max(now, deadline)
    decreases |script|
  {
    if deadline - now > 0 {
      var (later, rest, o) := Answered(now, script, deadline - now);
      if o.Name? && o.name != "done" {
        CountKeepsBudget(deadline, later, rest, count + 1, seen + [o.name]);
      }
    }
  }

  lemma TicksNext(seen: seq<string>, n: string)
    ensures Ticks(seen + [n]) == Ticks(seen) + if n == "tick" then 1 else 0
  {
    assert (seen + [n])[..|seen|] == seen;
  }

  /** Every delivery counts exactly once: the count is the number of ticks seen,
      and the run completes exactly on a "done", which is then the last delivery. */
  lemma {:induction false} CountIsTicks(deadline: int, now: int, script: seq<Answer>, count: nat, seen: seq<string>)
    requires Listed(script, ["tick", "done"])
    requires count == Ticks(seen) && count == |seen| && "done" !in seen
    ensures var c := Count(deadline, now, script, count, seen);
      && c.count == Ticks(c.seen)
      && (c.end == Complete <==> "done" in c.seen)
      && (if c.end == Complete then |c.seen| == c.count + 1 && c.seen[c.count] == "done" else |c.seen| == c.count)
    decreases |script|
  {
    if deadline - now > 0 && script != [] && script[0].outcome.Name? {
      var n := script[0].outcome.name;
      var (later, rest, o) := Answered(now, script, deadline - now);
      TicksNext(seen, n);
      if n != "done" {
        assert n in ["tick", "done"];
        CountIsTicks(deadline, later, rest, count + 1, seen + [n]);
      }
    }
  }

  /** And what was seen is a beginning of what the host delivered, nothing lost
      or taken twice. */
  lemma {:induction false} CountSeesDeliveries(deadline: int, now: int, script: seq<Answer>, count: nat,
      seen: seq<string>)
    ensures var c := Count(deadline, now, script, count, seen);
      && |seen| <= |c.seen|
      && Delivers(script, |c.seen| - |seen|)
      && c.seen == seen + Names(script, |c.seen| - |seen|)
    decreases |script|
  {
    var c := Count(deadline, now, script, count, seen);
    if deadline - now > 0 && script != [] && script[0].outcome.Name? {
      var n := script[0].outcome.name;
      var (later, rest, o) := Answered(now, script, deadline - now);
      if n != "done" {
        CountSeesDeliveries(deadline, later, rest, count + 1, seen + [n]);
        NamesNext(seen, script, |c.seen| - |seen|);
      } else {
        assert seen + Names(script, 1) == seen + [n];
      }
    } else {
      assert seen + Names(script, 0) == seen;
    }
  }

  // ------------------------------------------------------------------- a chain of promises

  datatype Chained =
    | Panicked
    | CreateFailed(at: nat)
    | AwaitFailed(at: nat, clock: int)
    | Chained(resolved: nat, timedOut: bool, now: int)

  /** Awaiting the promises from number `i` on; each await is given the whole
      milliseconds that remain. */
  function Chain(count: nat, deadline: int, now: int, script: seq<Answer>, i: nat): Chained
    requires i <= count
    decreases count - i
  {
    if i == count then Chained(i, false, now)
    else if deadline - now <= 0 then Chained(i, true, now)
    else
      var (later, rest, o) := Answered(now, script, (deadline - now) / MILLISECOND * MILLISECOND);
      match o
      case Broke => AwaitFailed(i, later)
      case Silent => Chained(i, true, later)
      case Name(_) => Chain(count, deadline, later, rest, i + 1)
  }

  /** The first `n` promises can be created. */
  predicate Creates(created: seq<bool>, n: int) {
    n <= |created| && forall i :: 0 <= i < n ==> created[i]
  }

  /** HandlePromiseChain. `created` are the host's answers to the creation calls. */
  method PromiseChain(host: Host, created: seq<bool>, count: int, budgetMs: int) returns (r: Chained)
    modifies host
    ensures count < 0 ==> r == Panicked
    ensures count >= 0 ==>
      if !Creates(created, count)
      then r.CreateFailed? && r.at < count && Creates(created, r.at) && !Creates(created, r.at + 1) && unchanged(host)
      else r == Chain(count, old(host.now) + budgetMs * MILLISECOND, old(host.now), old(host.script), 0)
  {
    if count < 0 {
      return Panicked;
    }
    for i := 0 to count
      invariant Creates(created, i)
      invariant unchanged(host)
    {
      if !(i < |created| && created[i]) {
        return CreateFailed(i);
      }
    }
    var giveUpAt := host.now + budgetMs * MILLISECOND;
    var resolved := 0;
    for i := 0 to count
      invariant resolved == i
      invariant Chain(count, giveUpAt, host.now, host.script, i)
        == Chain(count, old(host.now) + budgetMs * MILLISECOND, old(host.now), old(host.script), 0)
    {
      var remaining := giveUpAt - host.now;
      if remaining <= 0 {
        return Chained(resolved, true, host.now);
      }
      var o := host.Await(remaining / MILLISECOND * MILLISECOND);
      if o.Broke? {
        return AwaitFailed(i, host.now);
      }
      if o.Silent? {
        return Chained(resolved, true, host.now);
      }
      resolved := resolved + 1;
    }
    r := Chained(resolved, false, host.now);
  }

  function ClockOf(c: Chained): int
    requires c.Chained? || c.AwaitFailed?
  {
    if c.Chained? then c.now else c.clock
  }

  /** The chain reports exactly the resolved prefix: as many promises as were
      resolved before the first that was not, all of them exactly when it did not
      time out; and truncating to milliseconds never takes the clock past the
      deadline. */
  lemma {:induction false} ChainIsExact(count: nat, deadline: int, now: int, script: seq<Answer>, i: nat)
    requires i <= count
    ensures var c := Chain(count, deadline, now, script, i);
      && (c.Chained? || c.AwaitFailed?)
      && now <= ClockOf(c) <= Max(now, deadline)
      && (c.Chained? ==> i <= c.resolved <= count && (!c.timedOut <==> c.resolved == count))
      && (c.Chained? ==> Delivers(script, c.resolved - i))
      && (c.Chained? && c.timedOut && |script| > c.resolved - i && script[c.resolved - i].outcome.Name? ==>
            c.now >= deadline)
      && (c.AwaitFailed? ==> i <= c.at < count && Delivers(script, c.at - i))
      && (c.AwaitFailed? ==> |script| > c.at - i && script[c.at - i].outcome == Broke)
    decreases count - i
  {
    if i < count && deadline - now > 0 {
      var (later, rest, o) := Answered(now, script, (deadline - now) / MILLISECOND * MILLISECOND);
      if o.Name? {
        ChainIsExact(count, deadline, later, rest, i + 1);
        assert forall j :: 1 <= j < |script| ==> script[j] == rest[j - 1];
      }
    }
  }
}
