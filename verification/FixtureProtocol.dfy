/** The fixture service as a concurrent protocol: any number of request handlers,
    two locks, and one step per critical section. */
module FixtureProtocol {
  import opened FixtureState

  /** Where a handler stands. Each value except Sleep and Done is the entrance of
      one critical section; Check, Sleep and Expired are the parts of the
      condition variable's wait: evaluate the predicate, sleep, evaluate it once
      more after the ceiling. */
  datatype Pc =
    | Arrive
    | ReadEpoch
    | Publish
    | Check
    | Sleep
    | Expired
    | Retire
    | Increment
    | Done(reply: Reply)

  datatype Lock = NoLock | Mutex | Gate

  /** A request being served: its program counter, whether it is inside the
      critical section it stands at, and its local variables. */
  datatype Handler = Handler(
    req: Request, pc: Pc, inside: bool, attempt: int, seen: int, held: int, woken: bool)
  {
    function Wants(): Lock {
      match pc
      case Arrive => Mutex
      case ReadEpoch => Gate
      case Publish => Mutex
      case Check => Gate
      case Sleep => NoLock
      case Expired => Gate
      case Retire => Mutex
      case Increment => Gate
      case Done(_) => NoLock
    }

    predicate Waiting() { pc in {Check, Sleep, Expired} }

    /** Between its own publish and its own retire. */
    predicate Held() { Waiting() || pc == Retire }

    predicate HeldOn(k: Key) { Held() && req.key == k }

    predicate Left() { pc == Retire || pc.Done? }

    predicate CallOn(k: Key) { req.Call? && req.key == k }
  }

  function Fresh(req: Request): Handler {
    Handler(req, if req.Call? && req.key == "" then Done(KeyRequired) else Arrive,
            false, 0, 0, 0, false)
  }

  datatype World = World(sh: Shared, hs: seq<Handler>)

  const START := World(EMPTY, [])

  datatype Action = Spawn(req: Request) | Acquire(h: nat) | Body(h: nat) | Timeout(h: nat)

  predicate Free(hs: seq<Handler>, l: Lock) {
    forall g :: 0 <= g < |hs| && hs[g].inside ==> hs[g].Wants() != l
  }

  predicate Enabled(w: World, a: Action) {
    match a
    case Spawn(_) => true
    case Acquire(h) =>
      h < |w.hs| && !w.hs[h].inside && w.hs[h].Wants() != NoLock && Free(w.hs, w.hs[h].Wants())
    case Body(h) => h < |w.hs| && w.hs[h].inside && w.hs[h].Wants() != NoLock
    case Timeout(h) => h < |w.hs| && w.hs[h].pc == Sleep
  }

  /** The critical section at which `x` stands, run to its end. */
  function Section(sh: Shared, x: Handler): (Shared, Handler)
    requires x.Wants() != NoLock
  {
    var k := x.req.key;
    var y := x.(inside := false);
    match x.pc
    case Arrive => FirstSection(sh, y)
    case ReadEpoch => (sh, y.(seen := sh.Epoch(k), pc := Publish))
    case Publish => (sh.Published(k), y.(pc := Check))
    case Check =>
      if sh.Epoch(k) > x.seen then (sh, y.(pc := Retire, woken := true)) else (sh, y.(pc := Sleep))
    case Expired => (sh, y.(pc := Retire, woken := sh.Epoch(k) > x.seen))
    case Retire => (sh.Retired(k), y.(pc := Done(Success(x.attempt))))
    case Increment => (sh.Bumped(k), y.(pc := Done(Released(x.held))))
  }

  function FirstSection(sh: Shared, y: Handler): (Shared, Handler) {
    var k := y.req.key;
    match y.req
    case Call(_, op, _, _, _, _) =>
      var sh' := sh.Counted(k, op);
      var a := sh'.Counts(k);
      (sh', y.(attempt := a,
               pc := match Judge(y.req, a) case Answer(r) => Done(r) case Hold => ReadEpoch))
    case Release(_) => (sh, y.(held := sh.Inflight(k), pc := Increment))
    case GetCalls(_) => (sh, y.(pc := Done(CallsAre(sh.Counts(k)))))
    case GetInflight(_) => (sh, y.(pc := Done(InflightIs(sh.Inflight(k)))))
    case GetPeak(_) => (sh, y.(pc := Done(PeakIs(sh.Peak(k), sh.Counts(k)))))
    case GetLog(_) => (sh, y.(pc := Done(LogIs(sh.Log(k)))))
  }

  /** notify_all: every sleeper, whatever its key, goes back to its predicate. */
  function Notified(hs: seq<Handler>): (r: seq<Handler>)
    ensures |r| == |hs|
    ensures forall i :: 0 <= i < |hs| ==>
      r[i] == if hs[i].pc == Sleep then hs[i].(pc := Check) else hs[i]
  {
    seq(|hs|, i requires 0 <= i < |hs| =>
      if hs[i].pc == Sleep then hs[i].(pc := Check) else hs[i])
  }

  function Apply(w: World, a: Action): World
    requires Enabled(w, a)
  {
    match a
    case Spawn(req) => w.(hs := w.hs + [Fresh(req)])
    case Acquire(h) => w.(hs := w.hs[h := w.hs[h].(inside := true)])
    case Timeout(h) => w.(hs := w.hs[h := w.hs[h].(pc := Expired)])
    case Body(h) =>
      var (sh, x) := Section(w.sh, w.hs[h]);
      World(sh, (if w.hs[h].pc == Increment then Notified(w.hs) else w.hs)[h := x])
  }

  /** `ws` are the worlds visited from the start by performing `acts`. */
  ghost predicate IsRun(ws: seq<World>, acts: seq<Action>) {
    && |ws| == |acts| + 1
    && ws[0] == START
    && forall i :: 0 <= i < |acts| ==> Enabled(ws[i], acts[i]) && ws[i + 1] == Apply(ws[i], acts[i])
  }

  /** The step at which a release of `k` raises the epoch. */
  predicate Raises(w: World, a: Action, k: Key) {
    a.Body? && a.h < |w.hs| && w.hs[a.h].pc == Increment && w.hs[a.h].req.key == k
  }

  /** The step at which handler `h` reads the epoch. */
  predicate ReadsEpoch(w: World, a: Action, h: nat) {
    a == Body(h) && h < |w.hs| && w.hs[h].pc == ReadEpoch
  }

  /** How many handlers are between publish and retire on `k`. */
  function Occupancy(hs: seq<Handler>, k: Key): nat {
    if hs == [] then 0
    else Occupancy(hs[..|hs| - 1], k) + if hs[|hs| - 1].HeldOn(k) then 1 else 0
  }
}
