/**
 The client in front of the model: a token cap per course or draft, calls repeated with growing
 delays while the model answers 429, and the tokens of a successful call added to the usage row.
 */
module ThrottledClient {
  import opened Prelude

  // ---------------------------------------------------------------- durations

  const SECOND := 1_000_000_000
  const MAX_DELAY := 60 * SECOND
  const MAX_SHIFT := 30
  const INT64_MODULUS := 0x1_0000_0000_0000_0000
  const INT64_LIMIT := 0x8000_0000_0000_0000

  /** Two's complement wrap-around of 64-bit integers. */
  function Wrap(x: int): (w: int)
    ensures -INT64_LIMIT <= w < INT64_LIMIT
    ensures -INT64_LIMIT <= x < INT64_LIMIT ==> w == x
  {
    (x + INT64_LIMIT) % INT64_MODULUS - INT64_LIMIT
  }

  function Pow2(n: nat): (p: nat)
    ensures p >= 1
  {
    if n == 0 then 1 else 2 * Pow2(n - 1)
  }

  /** The delay after a failed attempt, in nanoseconds, as the 64-bit code computes it. */
  function Delay(attempt: nat): int {
    var shift := if attempt > MAX_SHIFT then MAX_SHIFT else attempt;
    var raw := Wrap(SECOND * Wrap(Pow2(shift)));
    var clamped := if raw > MAX_DELAY then MAX_DELAY else raw;
    if clamped <= 0 then MAX_DELAY else clamped
  }

  lemma {:induction false} Pow2Grows(a: nat, b: nat)
    requires a <= b
    ensures Pow2(a) <= Pow2(b)
    decreases b
  {
    if a < b {
      Pow2Grows(a, b - 1);
    }
  }

  lemma {:induction false} SmallPowers()
    ensures Pow2(5) == 32 && Pow2(6) == 64 && Pow2(MAX_SHIFT) == 0x4000_0000
  {
    assert Pow2(5) == 32 && Pow2(10) == 1024 && Pow2(15) == 32768;
    assert Pow2(20) == 1048576 && Pow2(25) == 33554432;
  }

  /** Nothing wraps: the delay is the smaller of 2^attempt and 60 seconds, and a quarter of it is a
      positive bound for the jitter. */
  lemma {:induction false} DelayIsExact(attempt: nat)
    ensures Delay(attempt) == if attempt < 6 then Pow2(attempt) * 1_000_000_000 else 60_000_000_000
    ensures Delay(attempt) <= Pow2(attempt) * SECOND
    ensures 0 < Delay(attempt) / 4 && Delay(attempt) <= MAX_DELAY
  {
    SmallPowers();
    var shift := if attempt > MAX_SHIFT then MAX_SHIFT else attempt;
    Pow2Grows(shift, MAX_SHIFT);
    Pow2Grows(shift, attempt);
    assert Wrap(Pow2(shift)) == Pow2(shift);
    assert Wrap(SECOND * Pow2(shift)) == SECOND * Pow2(shift);
    if attempt < 6 {
      Pow2Grows(attempt, 5);
    } else {
      Pow2Grows(6, shift);
    }
  }

  lemma {:induction false} DelayNeverShrinks(a: nat, b: nat)
    requires a <= b
    ensures Delay(a) <= Delay(b)
  {
    DelayIsExact(a);
    DelayIsExact(b);
    Pow2Grows(a, b);
    if a < 6 {
      SmallPowers();
      Pow2Grows(a, 5);
    }
  }

  // ---------------------------------------------------------------- the retry loop

  datatype Response = Success(tokens: nat) | RateLimited | OtherError

  datatype Result = Answer(tokens: nat) | RateLimitExhausted | Failed | Cancelled | TokenCapExceeded

  /** The k-th call's answer, the jitter drawn after it, and whether the context is cancelled
      while the client sleeps. */
  datatype Outside = Outside(respond: nat -> Response, jitter: nat -> int, cancelled: nat -> bool)

  /** The random source answers below the bound it is given. */
  ghost predicate FairJitter(o: Outside) {
    forall k: nat {:trigger Delay(k)} :: 0 <= o.jitter(k) && (0 < Delay(k) / 4 ==> o.jitter(k) < Delay(k) / 4)
  }

  /** Call k was turned away and the client slept through the whole delay. */
  predicate SleptThrough(o: Outside, k: nat) {
    o.respond(k).RateLimited? && !o.cancelled(k)
  }

  /** The first n delays: one second, doubled up to a minute, each with its jitter. */
  function Slept(o: Outside, n: nat): int {
    if n == 0 then 0
    else Slept(o, n - 1) + (if n <= 6 then Pow2(n - 1) * SECOND else 60 * SECOND) + o.jitter(n - 1)
  }

  /** One finished delay takes less than 75 seconds. */
  lemma {:induction false} SleepBound(o: Outside, k: nat)
    requires FairJitter(o)
    ensures 0 <= Delay(k) && 0 <= o.jitter(k)
    ensures Delay(k) + o.jitter(k) < 75 * SECOND
    ensures Slept(o, k + 1) == Slept(o, k) + Delay(k) + o.jitter(k)
  {
    DelayIsExact(k);
  }

  /** What a finished retry loop has done: every call but the last was turned away and slept through;
      it is exhausted exactly when that holds of all calls the limit allows, and otherwise the last
      call decides. */
  ghost predicate Retried(o: Outside, retryLimit: int, r: Result, calls: nat) {
    && calls <= (if retryLimit > 0 then retryLimit else 0)
    && (forall k :: 0 <= k < calls - 1 ==> SleptThrough(o, k))
    && (r == RateLimitExhausted <==> forall k :: 0 <= k < retryLimit ==> SleptThrough(o, k))
    && if r == RateLimitExhausted then calls == if retryLimit > 0 then retryLimit else 0
       else
         && calls > 0
         && match o.respond(calls - 1)
            case Success(tokens) => r == Answer(tokens)
            case OtherError => r == Failed
            case RateLimited => o.cancelled(calls - 1) && r == Cancelled
  }

  lemma {:induction false} SleptBound(o: Outside, n: nat, limit: nat)
    requires FairJitter(o) && n <= limit
    ensures 0 <= Slept(o, n) && (limit > 0 ==> Slept(o, n) < 75 * SECOND * limit)
  {
    if n > 0 {
      SleptBound(o, n - 1, limit - 1);
      SleepBound(o, n - 1);
    }
  }

  /** The client sleeps for the delay and the jitter. */
  method Sleep(o: Outside, attempt: nat, before: nat) returns (slept: nat)
    requires FairJitter(o) && before == Slept(o, attempt)
    ensures slept == Slept(o, attempt + 1)
  {
    SleepBound(o, attempt);
    var delay := Delay(attempt);
    var jitter := o.jitter(attempt);
    slept := before + delay + jitter;
  }

  /** Repeats the call while it is turned away.  calls is the number of calls made, slept the time
      spent in finished delays. */
  method Retry(o: Outside, retryLimit: int) returns (r: Result, calls: nat, slept: nat)
    requires FairJitter(o)
    ensures Retried(o, retryLimit, r, calls)
    ensures retryLimit > 0 ==> slept < 75 * SECOND * retryLimit
    ensures forall k :: 0 <= k < (if r == RateLimitExhausted then calls else calls - 1) ==>
              o.respond(k) == RateLimited && !o.cancelled(k)
    ensures slept == Slept(o, if r == RateLimitExhausted then calls else calls - 1)
  {
    calls, slept := 0, 0;
    var attempt := 0;
    while attempt < retryLimit
      invariant 0 <= attempt && (attempt <= retryLimit || attempt == 0) && calls == attempt
      invariant forall k :: 0 <= k < attempt ==> SleptThrough(o, k)
      invariant forall k :: 0 <= k < attempt ==> o.respond(k) == RateLimited && !o.cancelled(k)
      invariant slept == Slept(o, attempt)
    {
      SleptBound(o, attempt, retryLimit);
      calls := calls + 1;
      match o.respond(attempt) {
        case Success(tokens) =>
          assert !SleptThrough(o, attempt);
          return Answer(tokens), calls, slept;
        case OtherError =>
          assert !SleptThrough(o, attempt);
          return Failed, calls, slept;
        case RateLimited =>
      }
      if o.cancelled(attempt) {
        assert !SleptThrough(o, attempt);
        return Cancelled, calls, slept;
      }
      slept := Sleep(o, attempt, slept);
      attempt := attempt + 1;
    }
    SleptBound(o, attempt, attempt);
    r := RateLimitExhausted;
  }

  // ---------------------------------------------------------------- one call

  /** The usage rows: one per student and course, one per draft. */
  datatype Key = CourseKey(student: nat, course: nat) | DraftKey(draft: nat)

  function Used(usage: map<Key, nat>, key: Key): nat {
    if key in usage then usage[key] else 0
  }

  class Client {
    var usage: map<Key, nat>

    constructor ()
      ensures usage == map[]
    {
      usage := map[];
    }

    /** A call while nobody else is using the row. */
    method Messages(key: Key, cap: int, retryLimit: int, o: Outside) returns (r: Result, calls: nat)
      requires FairJitter(o)
      modifies this
      ensures r == TokenCapExceeded <==> cap > 0 && Used(old(usage), key) >= cap
      ensures if r == TokenCapExceeded then calls == 0 else Retried(o, retryLimit, r, calls)
      ensures usage == if r.Answer? then old(usage)[key := Used(old(usage), key) + r.tokens] else old(usage)
    {
      if cap > 0 {
        if Used(usage, key) >= cap {
          return TokenCapExceeded, 0;
        }
      }
      var slept;
      r, calls, slept := Retry(o, retryLimit);
      if r.Answer? {
        usage := usage[key := Used(usage, key) + r.tokens];
      }
    }
  }

  // ---------------------------------------------------------------- concurrent calls

  /** The usage rows and, for each, the calls that passed the check and are not over. */
  datatype State = State(usage: map<Key, nat>, inFlight: map<Key, nat>)

  /** The atomic actions of any number of concurrent calls. */
  datatype Step = Check(key: Key) | Record(key: Key, tokens: nat) | GiveUp(key: Key)

  /** cap is positive; at most k calls of a key are in flight, and a call costs at most t tokens. */
  function Apply(cap: nat, k: nat, t: nat, s: State, step: Step): State {
    match step
    case Check(key) =>
      if Used(s.usage, key) < cap && Used(s.inFlight, key) < k then
        s.(inFlight := s.inFlight[key := Used(s.inFlight, key) + 1])
      else
        s
    case Record(key, tokens) =>
      if Used(s.inFlight, key) > 0 && tokens <= t then
        State(s.usage[key := Used(s.usage, key) + tokens], s.inFlight[key := Used(s.inFlight, key) - 1])
      else
        s
    case GiveUp(key) =>
      if Used(s.inFlight, key) > 0 then s.(inFlight := s.inFlight[key := Used(s.inFlight, key) - 1]) else s
  }

  function Run(cap: nat, k: nat, t: nat, s: State, steps: seq<Step>): State {
    if steps == [] then s else Apply(cap, k, t, Run(cap, k, t, s, Front(steps)), Last(steps))
  }

  /** What is used and what may still be recorded stay under the bound. */
  ghost predicate Committed(cap: nat, k: nat, t: nat, s: State, key: Key) {
    Used(s.inFlight, key) <= k && Used(s.usage, key) + Used(s.inFlight, key) * t <= cap - 1 + k * t
  }

  lemma {:induction false} ApplyKeepsCommitted(cap: nat, k: nat, t: nat, s: State, step: Step, key: Key)
    requires Committed(cap, k, t, s, key)
    ensures Committed(cap, k, t, Apply(cap, k, t, s, step), key)
  {
    var s' := Apply(cap, k, t, s, step);
    if Used(s'.inFlight, key) == Used(s.inFlight, key) + 1 {
      Times(Used(s'.inFlight, key), k, t);
    } else if Used(s'.inFlight, key) == Used(s.inFlight, key) - 1 {
      assert Used(s.inFlight, key) * t == Used(s'.inFlight, key) * t + t;
    }
  }

  lemma {:induction false} Times(a: nat, b: nat, t: nat)
    requires a <= b
    ensures a * t <= b * t
  {
  }

  /** In every interleaving of checks, calls and upserts, each row below its cap at the start ends
      at most k calls' tokens above the last value the check lets through. */
  lemma {:induction false} UsageBounded(cap: nat, k: nat, t: nat, s: State, steps: seq<Step>, key: Key)
    requires Used(s.usage, key) < cap && Used(s.inFlight, key) == 0
    ensures Used(Run(cap, k, t, s, steps).usage, key) <= cap - 1 + k * t
    ensures Committed(cap, k, t, Run(cap, k, t, s, steps), key)
  {
    if steps == [] {
      Times(0, k, t);
    } else {
      UsageBounded(cap, k, t, s, Front(steps), key);
      ApplyKeepsCommitted(cap, k, t, Run(cap, k, t, s, Front(steps)), Last(steps), key);
    }
  }

  /** Calls enter at a check that finds the row below its cap, and leave by recording what they cost or by
      giving up; nothing else moves the two counters of a row. */
  lemma {:induction false} CountersMove(cap: nat, k: nat, t: nat, s: State, step: Step, key: Key)
    ensures var s', busy := Apply(cap, k, t, s, step), Used(s.inFlight, key);
            && Used(s'.inFlight, key) ==
               (if step == Check(key) && Used(s.usage, key) < cap && busy < k then busy + 1
                else if busy > 0 && (step == GiveUp(key) || (step.Record? && step.key == key && step.tokens <= t)) then
                  busy - 1
                else busy)
            && Used(s'.usage, key) == Used(s.usage, key)
                 + if step.Record? && step.key == key && busy > 0 && step.tokens <= t then step.tokens else 0
  {
  }

  function Checks(key: Key, n: nat): (steps: seq<Step>)
    ensures |steps| == n
  {
    if n == 0 then [] else Checks(key, n - 1) + [Check(key)]
  }

  function Records(key: Key, t: nat, n: nat): (steps: seq<Step>)
    ensures |steps| == n
  {
    if n == 0 then [] else Records(key, t, n - 1) + [Record(key, t)]
  }

  lemma {:induction false} ChecksPass(cap: nat, k: nat, t: nat, s: State, key: Key, n: nat)
    requires Used(s.usage, key) < cap && Used(s.inFlight, key) == 0 && n <= k
    ensures var s' := Run(cap, k, t, s, Checks(key, n));
            s'.usage == s.usage && Used(s'.inFlight, key) == n
  {
    if n > 0 {
      ChecksPass(cap, k, t, s, key, n - 1);
      assert Front(Checks(key, n)) == Checks(key, n - 1);
    }
  }

  lemma {:induction false} RecordsAdd(cap: nat, k: nat, t: nat, s: State, key: Key, n: nat)
    requires n <= Used(s.inFlight, key)
    ensures var s' := Run(cap, k, t, s, Records(key, t, n));
            Used(s'.usage, key) == Used(s.usage, key) + n * t && Used(s'.inFlight, key) == Used(s.inFlight, key) - n
  {
    if n > 0 {
      var steps := Records(key, t, n - 1);
      RecordsAdd(cap, k, t, s, key, n - 1);
      RecordOne(cap, k, t, Run(cap, k, t, s, steps), key);
      RunOneMore(cap, k, t, s, steps, Record(key, t));
      OneMore(n, t);
    }
  }

  lemma {:induction false} RunOneMore(cap: nat, k: nat, t: nat, s: State, steps: seq<Step>, step: Step)
    ensures Run(cap, k, t, s, steps + [step]) == Apply(cap, k, t, Run(cap, k, t, s, steps), step)
  {
  }

  lemma {:induction false} OneMore(n: nat, t: nat)
    requires n > 0
    ensures n * t == (n - 1) * t + t
  {
  }

  lemma {:induction false} RecordOne(cap: nat, k: nat, t: nat, s: State, key: Key)
    requires Used(s.inFlight, key) > 0
    ensures var s' := Apply(cap, k, t, s, Record(key, t));
            Used(s'.usage, key) == Used(s.usage, key) + t && Used(s'.inFlight, key) == Used(s.inFlight, key) - 1
  {
  }

  lemma {:induction false} RunOfTwo(cap: nat, k: nat, t: nat, s: State, a: seq<Step>, b: seq<Step>)
    ensures Run(cap, k, t, s, a + b) == Run(cap, k, t, Run(cap, k, t, s, a), b)
  {
    if b == [] {
      assert a + b == a;
    } else {
      RunOfTwo(cap, k, t, s, a, Front(b));
      assert Front(a + b) == a + Front(b);
    }
  }

  /** The bound is reached: k calls all check before any of them records. */
  lemma {:induction false} BoundIsTight(cap: nat, k: nat, t: nat, key: Key) returns (s: State, steps: seq<Step>)
    requires cap > 0
    ensures Used(s.usage, key) < cap && Used(s.inFlight, key) == 0
    ensures Used(Run(cap, k, t, s, steps).usage, key) == cap - 1 + k * t
  {
    s := State(map[key := cap - 1], map[]);
    steps := Checks(key, k) + Records(key, t, k);
    ChecksPass(cap, k, t, s, key, k);
    RunOfTwo(cap, k, t, s, Checks(key, k), Records(key, t, k));
    RecordsAdd(cap, k, t, Run(cap, k, t, s, Checks(key, k)), key, k);
  }

  /** Once the cap is reached no further call is let through: what is still added are the calls
      already in flight. */
  lemma {:induction false} SpentAdmitsNone(cap: nat, k: nat, t: nat, s: State, steps: seq<Step>, key: Key)
    requires Used(s.usage, key) >= cap
    ensures var s' := Run(cap, k, t, s, steps);
            && Used(s'.usage, key) >= Used(s.usage, key)
            && Used(s'.inFlight, key) <= Used(s.inFlight, key)
            && Used(s'.usage, key) + Used(s'.inFlight, key) * t <= Used(s.usage, key) + Used(s.inFlight, key) * t
  {
    if steps != [] {
      SpentAdmitsNone(cap, k, t, s, Front(steps), key);
      var before := Run(cap, k, t, s, Front(steps));
      StepOnSpent(cap, k, t, before, Last(steps), key);
    }
  }

  lemma {:induction false} StepOnSpent(cap: nat, k: nat, t: nat, s: State, step: Step, key: Key)
    requires Used(s.usage, key) >= cap
    ensures var s' := Apply(cap, k, t, s, step);
            && Used(s'.usage, key) >= Used(s.usage, key)
            && Used(s'.inFlight, key) <= Used(s.inFlight, key)
            && Used(s'.usage, key) + Used(s'.inFlight, key) * t <= Used(s.usage, key) + Used(s.inFlight, key) * t
  {
  }
}
