/**
 The secret provider: values of managed secrets, read from the database or the environment and
 cached for thirty seconds, while administrators change them.

 Database reads succeed; a row that cannot be decrypted counts as no row.
 */
module SecretCache {
  import opened Prelude

  type Name = nat
  type Time = int

  const TTL := 30

  /** A managed row: the plaintext, or None when decryption fails. */
  type Row = Option<string>

  datatype Entry = Entry(value: string, expiresAt: Time)

  /** The stored secrets and the process environment. */
  datatype Source = Source(rows: map<Name, Row>, env: map<Name, string>)

  function Resolve(source: Source, name: Name): string {
    if name in source.rows && source.rows[name].Some? then source.rows[name].value
    else if name in source.env then source.env[name]
    else ""
  }

  predicate Hit(cache: map<Name, Entry>, name: Name, now: Time) {
    name in cache && now < cache[name].expiresAt
  }

  class SecretProvider {
    var cache: map<Name, Entry>

    constructor ()
      ensures cache == map[]
    {
      cache := map[];
    }

    /** A Get that nothing interrupts. */
    method Get(name: Name, now: Time, source: Source) returns (v: string)
      modifies this
      ensures v == if Hit(old(cache), name, now) then old(cache)[name].value else Resolve(source, name)
      ensures cache == if Hit(old(cache), name, now) then old(cache) else old(cache)[name := Entry(v, now + TTL)]
      ensures !Hit(old(cache), name, now) ==>
                && (name in source.rows && source.rows[name].Some? ==> v == source.rows[name].value)
                && (!(name in source.rows && source.rows[name].Some?) && name in source.env ==> v == source.env[name])
                && (!(name in source.rows && source.rows[name].Some?) && name !in source.env ==> v == "")
                && cache[name].expiresAt == now + 30
    {
      if name in cache {
        var e := cache[name];
        if now < e.expiresAt {
          return e.value;
        }
      }
      v := Resolve(source, name);
      cache := cache[name := Entry(v, now + TTL)];
    }

    method Invalidate(name: Name)
      modifies this
      ensures cache == old(cache) - {name}
      ensures forall now :: !Hit(cache, name, now)
      ensures forall other, now :: other != name ==>
                && (Hit(cache, other, now) <==> Hit(old(cache), other, now))
                && (Hit(cache, other, now) ==> cache[other] == old(cache)[other])
    {
      cache := cache - {name};
    }
  }

  // ---------------------------------------------------------------- interleavings

  /** Field at says how many moments had been recorded when the call returned. */
  datatype Phase = Started | Missed | Resolved(value: string) | Returned(value: string, at: nat)

  /** A Get in progress, with the time it read off the clock. */
  datatype Call = Call(name: Name, started: Time, phase: Phase)

  /** What the source was at some moment. */
  datatype Moment = Moment(time: Time, source: Source)

  datatype State = State(now: Time, source: Source, cache: map<Name, Entry>, calls: seq<Call>, history: seq<Moment>)

  datatype Step =
    | Tick(to: Time)
    | Start(name: Name)
    | Lookup(c: nat)
    | Read(c: nat)
    | Store(c: nat)
    | Commit(name: Name, row: Option<Row>)
    | Invalidate(name: Name)

  function Initial(now: Time, source: Source): State {
    State(now, source, map[], [], [Moment(now, source)])
  }

  function SetPhase(s: State, c: nat, phase: Phase): State
    requires c < |s.calls|
  {
    s.(calls := s.calls[c := s.calls[c].(phase := phase)])
  }

  function Committed(source: Source, name: Name, row: Option<Row>): Source {
    source.(rows := if row.None? then source.rows - {name} else source.rows[name := row.value])
  }

  function Apply(s: State, step: Step): State {
    match step
    case Tick(to) =>
      if to > s.now then s.(now := to, history := s.history + [Moment(to, s.source)]) else s
    case Start(name) => s.(calls := s.calls + [Call(name, s.now, Started)])
    case Lookup(c) =>
      if c < |s.calls| && s.calls[c].phase == Started then
        var call := s.calls[c];
        SetPhase(s, c, if Hit(s.cache, call.name, call.started)
                       then Returned(s.cache[call.name].value, |s.history|) else Missed)
      else
        s
    case Read(c) =>
      if c < |s.calls| && s.calls[c].phase == Missed then SetPhase(s, c, Resolved(Resolve(s.source, s.calls[c].name)))
      else s
    case Store(c) =>
      if c < |s.calls| && s.calls[c].phase.Resolved? then
        var call := s.calls[c];
        SetPhase(s, c, Returned(call.phase.value, |s.history|))
        .(cache := s.cache[call.name := Entry(call.phase.value, call.started + TTL)])
      else
        s
    case Commit(name, row) =>
      var source := Committed(s.source, name, row);
      s.(source := source, history := s.history + [Moment(s.now, source)])
    case Invalidate(name) => s.(cache := s.cache - {name})
  }

  function Run(s: State, steps: seq<Step>): State {
    if steps == [] then s else Apply(Run(s, Front(steps)), Last(steps))
  }

  /** The source held this value at some recorded moment, counting from moment number k. */
  ghost predicate HeldFrom(s: State, name: Name, value: string, k: nat) {
    exists i :: k <= i < |s.history| && Resolve(s.history[i].source, name) == value
  }

  /** ... at a time not before the given one. */
  ghost predicate HeldSince(s: State, name: Name, value: string, time: Time) {
    exists i :: 0 <= i < |s.history| && time <= s.history[i].time && Resolve(s.history[i].source, name) == value
  }

  /** ... and among the first n moments. */
  ghost predicate HeldWithin(s: State, name: Name, value: string, time: Time, n: nat) {
    exists i :: 0 <= i < n && i < |s.history| && time <= s.history[i].time
                && Resolve(s.history[i].source, name) == value
  }

  ghost predicate Current(s: State) {
    s.history != [] && Last(s.history) == Moment(s.now, s.source)
  }

  lemma {:induction false} ApplyKeepsCurrent(s: State, step: Step)
    requires Current(s)
    ensures Current(Apply(s, step)) && s.history <= Apply(s, step).history && s.now <= Apply(s, step).now
  {
  }

  lemma {:induction false} HeldStays(s: State, s': State)
    requires s.history <= s'.history
    ensures forall n: Name, v, k: nat :: HeldFrom(s, n, v, k) ==> HeldFrom(s', n, v, k)
    ensures forall n: Name, v, t :: HeldSince(s, n, v, t) ==> HeldSince(s', n, v, t)
    ensures forall n: Name, v, t, m: nat :: HeldWithin(s, n, v, t, m) ==> HeldWithin(s', n, v, t, m)
  {
  }

  // ---------------------------------------------------------------- bounded staleness

  ghost predicate CallFresh(s: State, call: Call) {
    && call.started <= s.now
    && (call.phase.Resolved? ==> HeldSince(s, call.name, call.phase.value, call.started))
    && (call.phase.Returned? ==> HeldWithin(s, call.name, call.phase.value, call.started - TTL + 1, call.phase.at))
  }

  ghost predicate EntryFresh(s: State, name: Name, e: Entry) {
    HeldSince(s, name, e.value, e.expiresAt - TTL)
  }

  ghost predicate Inv(s: State) {
    && Current(s)
    && (forall c :: 0 <= c < |s.calls| ==> CallFresh(s, s.calls[c]))
    && (forall n :: n in s.cache ==> EntryFresh(s, n, s.cache[n]))
  }

  /** The phase a call gets is justified by what the call saw. */
  lemma {:induction false} PhaseFresh(s: State, step: Step, c: nat)
    requires Inv(s) && c < |s.calls|
    requires step == Lookup(c) || step == Read(c) || step == Store(c)
    ensures CallFresh(s, Apply(s, step).calls[c])
  {
  }

  lemma {:induction false} ApplyKeepsInv(s: State, step: Step)
    requires Inv(s)
    ensures Inv(Apply(s, step))
  {
    var s' := Apply(s, step);
    ApplyKeepsCurrent(s, step);
    HeldStays(s, s');
    forall c | 0 <= c < |s'.calls|
      ensures CallFresh(s', s'.calls[c])
    {
      if c < |s.calls| {
        assert CallFresh(s, s.calls[c]);
        if step == Lookup(c) || step == Read(c) || step == Store(c) {
          PhaseFresh(s, step, c);
        } else {
          assert s'.calls[c] == s.calls[c];
        }
      }
    }
    forall n | n in s'.cache
      ensures EntryFresh(s', n, s'.cache[n])
    {
      if n in s.cache && s'.cache[n] == s.cache[n] {
        assert EntryFresh(s, n, s.cache[n]);
      } else {
        assert step.Store? && CallFresh(s, s.calls[step.c]);
      }
    }
  }

  lemma {:induction false} RunKeepsInv(s: State, steps: seq<Step>)
    requires Inv(s)
    ensures Inv(Run(s, steps))
  {
    if steps != [] {
      RunKeepsInv(s, Front(steps));
      ApplyKeepsInv(Run(s, Front(steps)), Last(steps));
    }
  }

  /** Under any interleaving, a value that a Get returns was held by the source at some moment
      within the thirty seconds before the call or during it, and not after its return. */
  lemma {:induction false} BoundedStaleness(now: Time, source: Source, steps: seq<Step>, c: nat)
    requires c < |Run(Initial(now, source), steps).calls|
    requires Run(Initial(now, source), steps).calls[c].phase.Returned?
    ensures var s := Run(Initial(now, source), steps);
            var call := s.calls[c];
            exists i :: 0 <= i < call.phase.at && i < |s.history| && call.started - TTL < s.history[i].time
                        && Resolve(s.history[i].source, call.name) == call.phase.value
  {
    assert Inv(Initial(now, source));
    RunKeepsInv(Initial(now, source), steps);
    var s := Run(Initial(now, source), steps);
    var call := s.calls[c];
    assert CallFresh(s, call);
    var i :| 0 <= i < call.phase.at && i < |s.history| && call.started - TTL + 1 <= s.history[i].time
             && Resolve(s.history[i].source, call.name) == call.phase.value;
  }

  /** The statements of a Get come in their order: it looks into the cache with the time it started at, on
      a miss reads the source, and stores what it has read to expire thirty seconds after its start;
      nothing else moves it on. */
  lemma {:induction false} GetInOrder(s: State, step: Step, c: nat)
    requires c < |s.calls|
    ensures var s', call, call' := Apply(s, step), s.calls[c], Apply(s, step).calls[c];
            && call'.name == call.name && call'.started == call.started
            && match call.phase
               case Started =>
                 if step != Lookup(c) then call' == call
                 else if call.name in s.cache && call.started < s.cache[call.name].expiresAt then
                   call'.phase == Returned(s.cache[call.name].value, |s.history|)
                 else call'.phase == Missed
               case Missed =>
                 if step != Read(c) then call' == call
                 else call'.phase == Resolved(Resolve(s.source, call.name))
               case Resolved(v) =>
                 if step != Store(c) then call' == call
                 else
                   && call'.phase == Returned(v, |s.history|)
                   && call.name in s'.cache && s'.cache[call.name] == Entry(v, call.started + 30)
               case Returned(_, _) => call' == call
  {
  }

  /** The clock and the source move by these steps alone, and every move is recorded. */
  lemma {:induction false} MomentsExact(s: State, step: Step)
    ensures var s' := Apply(s, step);
            && s'.now == (if step.Tick? && step.to > s.now then step.to else s.now)
            && s'.source == (if step.Commit? then Committed(s.source, step.name, step.row) else s.source)
            && s'.history == s.history + (if step.Commit? || s'.now != s.now then [Moment(s'.now, s'.source)] else [])
            && |s'.calls| == |s.calls| + (if step.Start? then 1 else 0)
  {
    assert s.history + [] == s.history;
  }

  /** A commit is seen by every read after it: the new row's value, or the environment's when the row is
      gone or cannot be decrypted. */
  lemma {:induction false} CommitIsSeen(source: Source, name: Name, row: Option<Row>, other: Name)
    ensures var after := Committed(source, name, row);
            && (row.Some? && row.value.Some? ==> Resolve(after, name) == row.value.value)
            && (row.None? || row.value.None? ==>
                  Resolve(after, name) == if name in source.env then source.env[name] else "")
            && (other != name ==> Resolve(after, other) == Resolve(source, other))
  {
  }

  // ---------------------------------------------------------------- what Invalidate achieves

  /** Some Get has read a value that is no longer the current one, has not stored it yet, and what it
      is going to store still has time to live. */
  ghost predicate StaleReadPending(s: State, name: Name) {
    exists c :: 0 <= c < |s.calls| && IsStaleRead(s, s.calls[c], name)
  }

  predicate IsStaleRead(s: State, call: Call, name: Name) {
    call.name == name && call.phase.Resolved? && s.now < call.started + TTL
    && call.phase.value != Resolve(s.source, name)
  }

  /** From moment k at time t on: what can still be served to calls that start at t or later was
      held at or after that moment. */
  ghost predicate FreshFrom(s: State, name: Name, k: nat, t: Time, first: nat) {
    && Current(s) && k < |s.history| && t <= s.now && first <= |s.calls|
    && (name in s.cache ==> s.cache[name].expiresAt <= t || HeldFrom(s, name, s.cache[name].value, k))
    && forall c :: 0 <= c < |s.calls| && s.calls[c].name == name ==> CallFreshFrom(s, s.calls[c], k, t, c >= first)
  }

  ghost predicate CallFreshFrom(s: State, call: Call, k: nat, t: Time, late: bool) {
    && (late ==> t <= call.started)
    && (call.phase.Resolved? ==> call.started + TTL <= t || HeldFrom(s, call.name, call.phase.value, k))
    && (late && call.phase.Returned? ==> HeldFrom(s, call.name, call.phase.value, k))
  }

  lemma {:induction false} PhaseFreshFrom(s: State, step: Step, c: nat, k: nat, t: Time, first: nat)
    requires c < |s.calls| && FreshFrom(s, s.calls[c].name, k, t, first)
    requires step == Lookup(c) || step == Read(c) || step == Store(c)
    ensures CallFreshFrom(s, Apply(s, step).calls[c], k, t, c >= first)
  {
  }

  lemma {:induction false} ApplyKeepsFresh(s: State, step: Step, name: Name, k: nat, t: Time, first: nat)
    requires FreshFrom(s, name, k, t, first)
    ensures FreshFrom(Apply(s, step), name, k, t, first)
  {
    var s' := Apply(s, step);
    ApplyKeepsCurrent(s, step);
    HeldStays(s, s');
    forall c | 0 <= c < |s'.calls| && s'.calls[c].name == name
      ensures CallFreshFrom(s', s'.calls[c], k, t, c >= first)
    {
      if c < |s.calls| {
        assert CallFreshFrom(s, s.calls[c], k, t, c >= first);
        if step == Lookup(c) || step == Read(c) || step == Store(c) {
          PhaseFreshFrom(s, step, c, k, t, first);
        } else {
          assert s'.calls[c] == s.calls[c];
        }
      }
    }
    if step.Store? && step.c < |s.calls| && s.calls[step.c].name == name {
      assert CallFreshFrom(s, s.calls[step.c], k, t, step.c >= first);
    }
  }

  lemma {:induction false} RunKeepsFresh(s: State, steps: seq<Step>, name: Name, k: nat, t: Time, first: nat)
    requires FreshFrom(s, name, k, t, first)
    ensures FreshFrom(Run(s, steps), name, k, t, first)
  {
    if steps != [] {
      RunKeepsFresh(s, Front(steps), name, k, t, first);
      ApplyKeepsFresh(Run(s, Front(steps)), Last(steps), name, k, t, first);
    }
  }

  /** If call c of a run is a Get of this name that started after the state s, the value it returns was
      current at s or later. */
  ghost predicate ReturnsFresh(s: State, name: Name, after: State, c: nat)
    requires s.history != []
  {
    |s.calls| <= c < |after.calls| && after.calls[c].name == name && after.calls[c].phase.Returned? ==>
      HeldFrom(after, name, after.calls[c].phase.value, |s.history| - 1)
  }

  /** Every Get that starts after the Invalidate, in every continuation, returns such a value. */
  ghost predicate LaterGetsFresh(s: State, name: Name)
    requires s.history != []
  {
    forall steps: seq<Step>, c: nat :: ReturnsFresh(s, name, Run(Apply(s, Invalidate(name)), steps), c)
  }

  /** Without a stale read pending at the Invalidate, every Get that starts afterwards returns a value
      that was current at that moment or later. */
  lemma {:induction false} InvalidateTakesEffect(s: State, name: Name, steps: seq<Step>, c: nat)
    requires Current(s) && !StaleReadPending(s, name)
    ensures ReturnsFresh(s, name, Run(Apply(s, Invalidate(name)), steps), c)
  {
    var s0, after, k := Apply(s, Invalidate(name)), Run(Apply(s, Invalidate(name)), steps), |s.history| - 1;
    assert s.history[k] == Moment(s.now, s.source);
    forall d | 0 <= d < |s0.calls| && s0.calls[d].name == name
      ensures CallFreshFrom(s0, s0.calls[d], k, s.now, false)
    {
      assert !IsStaleRead(s, s.calls[d], name);
    }
    RunKeepsFresh(s0, steps, name, k, s.now, |s.calls|);
    if |s.calls| <= c < |after.calls| && after.calls[c].name == name {
      assert CallFreshFrom(after, after.calls[c], k, s.now, true);
    }
  }

  /** A stale read that is pending survives the Invalidate: the next Get is served its value, which was
      not current at the Invalidate and has not been since. */
  lemma {:induction false} PendingReadSurvives(s: State, name: Name, c: nat)
    requires Current(s) && c < |s.calls| && IsStaleRead(s, s.calls[c], name)
    ensures var after := Run(Apply(s, Invalidate(name)), [Store(c), Start(name), Lookup(|s.calls|)]);
            && |after.calls| == |s.calls| + 1
            && after.calls[|s.calls|] == Call(name, s.now, Returned(s.calls[c].phase.value, |s.history|))
            && !HeldFrom(after, name, s.calls[c].phase.value, |s.history| - 1)
  {
    var v := s.calls[c].phase.value;
    var s0 := Apply(s, Invalidate(name));
    var s1 := Apply(s0, Store(c));
    assert s1.cache[name] == Entry(v, s.calls[c].started + TTL) && |s1.calls| == |s.calls| && s1.now == s.now;
    var s2 := Apply(s1, Start(name));
    assert s2.calls[|s.calls|] == Call(name, s.now, Started) && s2.cache == s1.cache;
    var s3 := Apply(s2, Lookup(|s.calls|));
    RunOfThree(s0, Store(c), Start(name), Lookup(|s.calls|));
    assert s3.history == s.history && s.history[|s.history| - 1] == Moment(s.now, s.source);
  }

  /** An Invalidate takes effect if and only if no stale read is pending. */
  lemma {:induction false} InvalidateExactly(s: State, name: Name)
    requires Current(s)
    ensures LaterGetsFresh(s, name) <==> !StaleReadPending(s, name)
  {
    if c :| 0 <= c < |s.calls| && IsStaleRead(s, s.calls[c], name) {
      PendingReadSurvives(s, name, c);
      var steps := [Store(c), Start(name), Lookup(|s.calls|)];
      assert !ReturnsFresh(s, name, Run(Apply(s, Invalidate(name)), steps), |s.calls|);
    } else {
      forall steps: seq<Step>, c: nat
        ensures ReturnsFresh(s, name, Run(Apply(s, Invalidate(name)), steps), c)
      {
        InvalidateTakesEffect(s, name, steps, c);
      }
    }
  }

  /** From the start: a Get reads the old value, the new one is committed and the entry dropped, the Get
      stores what it has read, and the next Get is served the old value. */
  lemma {:induction false} OldValueServed(now: Time, source: Source, name: Name, newValue: string)
    requires Resolve(source, name) != newValue
    ensures var oldValue := Resolve(source, name);
            var s := Run(Initial(now, source), [Start(name), Lookup(0), Read(0), Commit(name, Some(Some(newValue)))]);
            var after := Run(Apply(s, Invalidate(name)), [Store(0), Start(name), Lookup(1)]);
            && Resolve(s.source, name) == newValue
            && |after.calls| == 2 && after.calls[1] == Call(name, now, Returned(oldValue, 2))
            && !HeldFrom(after, name, oldValue, |s.history| - 1)
  {
    var s0, commit := Initial(now, source), Commit(name, Some(Some(newValue)));
    RunOfThree(s0, Start(name), Lookup(0), Read(0));
    assert Front([Start(name), Lookup(0), Read(0), commit]) == [Start(name), Lookup(0), Read(0)];
    var s1 := Apply(s0, Start(name));
    assert s1.calls == [Call(name, now, Started)] && s1.cache == map[];
    var s2 := Apply(s1, Lookup(0));
    assert s2.calls == [Call(name, now, Missed)];
    var s3 := Apply(s2, Read(0));
    assert s3.calls == [Call(name, now, Resolved(Resolve(source, name)))];
    var s := Apply(s3, commit);
    assert s == Run(s0, [Start(name), Lookup(0), Read(0), commit]);
    assert |s.history| == 2 && Current(s) && IsStaleRead(s, s.calls[0], name);
    PendingReadSurvives(s, name, 0);
  }

  lemma {:induction false} RunOfThree(s: State, a: Step, b: Step, c: Step)
    ensures Run(s, [a, b, c]) == Apply(Apply(Apply(s, a), b), c)
  {
    assert Front([a]) == [] && Run(s, [a]) == Apply(s, a);
    assert Front([a, b]) == [a] && Run(s, [a, b]) == Apply(Apply(s, a), b);
    assert Front([a, b, c]) == [a, b];
  }
}
