/** The fixture service's module state, its critical sections as functions on
    values, and the class that performs them in place. */
module FixtureState {

  type Key = string

  /** A parsed request. The call's fields are the JSON members after their
      defaults have been applied; times and delays keep their sign. */
  datatype Request =
    | Call(key: Key, op: string, failPermanently: bool, failTimes: int, failStatus: int, delayMs: int)
    | Release(key: Key)
    | GetCalls(key: Key)
    | GetInflight(key: Key)
    | GetPeak(key: Key)
    | GetLog(key: Key)

  datatype Reply =
    | KeyRequired
    | PermanentFailure
    | Failure(status: int, attempts: int)
    | Success(attempts: int)
    | Released(held: int)
    | CallsAre(attempts: int)
    | InflightIs(inflight: int)
    | PeakIs(peak: int, attempts: int)
    | LogIs(calls: seq<string>)

  /** Reading a defaultdict(int). */
  function At(m: map<Key, int>, k: Key): int {
    if k in m then m[k] else 0
  }

  datatype Shared = Shared(
    counts: map<Key, int>,
    log: map<Key, seq<string>>,
    inflight: map<Key, int>,
    peak: map<Key, int>,
    released: map<Key, int>)
  {
    function Counts(k: Key): int { At(counts, k) }
    function Log(k: Key): seq<string> { if k in log then log[k] else [] }
    function Inflight(k: Key): int { At(inflight, k) }
    function Peak(k: Key): int { At(peak, k) }
    function Epoch(k: Key): int { At(released, k) }

    /** Under `_lock`: number the call and log its operation. */
    function Counted(k: Key, op: string): Shared {
      this.(counts := counts[k := Counts(k) + 1], log := log[k := Log(k) + [op]])
    }

    /** Under `_lock`: enter the in-flight region and raise the high-water mark. */
    function Published(k: Key): Shared {
      this.(inflight := inflight[k := Inflight(k) + 1],
            peak := if Inflight(k) + 1 > Peak(k) then peak[k := Inflight(k) + 1] else peak)
    }

    /** Under `_lock`: leave the in-flight region. */
    function Retired(k: Key): Shared {
      this.(inflight := inflight[k := Inflight(k) - 1])
    }

    /** Under `_gate`: a new release epoch. */
    function Bumped(k: Key): Shared {
      this.(released := released[k := Epoch(k) + 1])
    }
  }

  const EMPTY := Shared(map[], map[], map[], map[], map[])

  /** What a numbered call does next: its final answer, or None when it is to be held. */
  datatype Verdict = Answer(reply: Reply) | Hold

  function Judge(req: Request, attempts: int): Verdict
    requires req.Call?
  {
    if req.failPermanently then Answer(PermanentFailure)
    else if attempts <= req.failTimes then
      Answer(Failure(if req.failStatus == 0 then 503 else req.failStatus, attempts))
    else if req.delayMs == 0 then Answer(Success(attempts))
    else Hold
  }

  /** One call served with nobody else in the service: a held call publishes
      itself, sits out its ceiling and retires. */
  function Served(sh: Shared, req: Request): (r: (Shared, Reply))
    requires req.Call?
  {
    if req.key == "" then (sh, KeyRequired)
    else
      var counted := sh.Counted(req.key, req.op);
      var attempts := counted.Counts(req.key);
      match Judge(req, attempts)
      case Answer(reply) => (counted, reply)
      case Hold => (counted.Published(req.key).Retired(req.key), Success(attempts))
  }

  /** The module dictionaries, updated in place one critical section at a time. */
  class Service {
    var counts: map<Key, int>
    var log: map<Key, seq<string>>
    var inflight: map<Key, int>
    var peak: map<Key, int>
    var released: map<Key, int>

    ghost function State(): Shared
      reads this
    {
      Shared(counts, log, inflight, peak, released)
    }

    constructor ()
      ensures State() == EMPTY
    {
      counts, log, inflight, peak, released := map[], map[], map[], map[], map[];
    }

    method CountCall(key: Key, op: string) returns (attempts: int)
      modifies this`counts, this`log
      ensures State() == old(State()).Counted(key, op)
      ensures attempts == State().Counts(key)
    {
      counts := counts[key := At(counts, key) + 1];
      attempts := counts[key];
      log := log[key := (if key in log then log[key] else []) + [op]];
    }

    method ReadEpoch(key: Key) returns (seen: int)
      ensures seen == State().Epoch(key)
    {
      seen := At(released, key);
    }

    method Publish(key: Key)
      modifies this`inflight, this`peak
      ensures State() == old(State()).Published(key)
    {
      inflight := inflight[key := At(inflight, key) + 1];
      if inflight[key] > At(peak, key) {
        peak := peak[key := inflight[key]];
      }
    }

    method Retire(key: Key)
      modifies this`inflight
      ensures State() == old(State()).Retired(key)
    {
      inflight := inflight[key := At(inflight, key) - 1];
    }

    /** The wait predicate, evaluated under the gate. */
    method MayLeave(key: Key, seen: int) returns (b: bool)
      ensures b <==> State().Epoch(key) > seen
    {
      b := At(released, key) > seen;
    }

    /** POST /release/: the holders are counted under one lock and the epoch is
        raised under the other. */
    method PostRelease(key: Key) returns (held: int)
      modifies this`released
      ensures held == old(State()).Inflight(key)
      ensures State() == old(State()).Bumped(key)
    {
      held := At(inflight, key);
      released := released[key := At(released, key) + 1];
    }

    /** POST /call/ with no other request in the service. */
    method PostCall(req: Request) returns (reply: Reply)
      requires req.Call?
      modifies this`counts, this`log, this`inflight, this`peak
      ensures (State(), reply) == Served(old(State()), req)
    {
      if req.key == "" {
        return KeyRequired;
      }
      var attempts := CountCall(req.key, req.op);
      if req.failPermanently {
        return PermanentFailure;
      }
      if attempts <= req.failTimes {
        return Failure(if req.failStatus == 0 then 503 else req.failStatus, attempts);
      }
      if req.delayMs != 0 {
        var seen := ReadEpoch(req.key);
        Publish(req.key);
        var woken := MayLeave(req.key, seen);
        assert !woken;
        Retire(req.key);
      }
      reply := Success(attempts);
    }
  }
}
