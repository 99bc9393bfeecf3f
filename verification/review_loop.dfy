/**
 The flat course: sections are generated one after the other, and each goes through a review and
 correction loop whose counter is stored with the run and shared by all its sections.

 What the professor, the reviewer and the database answer is arbitrary.  Contents are numbered
 in the order in which they are written.
 */
module ReviewLoop {
  import opened Prelude

  const DEFAULT_ITERATIONS := 5

  datatype Verdict = Approved | Disapproved | ReviewerError
  datatype Outcome = Passed | Escalated | Stopped

  /** The answers of the outside, by the number of the call. */
  datatype Outside = Outside(
    review: nat -> Verdict,
    counted: nat -> bool,
    generated: nat -> bool,
    regenerated: nat -> bool)

  /** What a run has done: its stored counter, the regenerations asked for, the contents written
      and the contents reviewed, in order. */
  datatype Tally = Tally(iterations: nat, regenerations: nat, contents: nat, reviewed: seq<nat>)

  function EffectiveMax(configured: int): (m: nat)
    ensures m >= 1 && (configured >= 1 ==> m == configured) && (configured < 1 ==> m == 5)
  {
    if configured <= 0 then DEFAULT_ITERATIONS else configured
  }

  function Allowed(m: nat, iterations: nat): nat {
    if iterations + 1 < m then m - 1 - iterations else 0
  }

  /** The review loop for one section whose current content is the given one. */
  function Loop(o: Outside, m: nat, current: nat, t: Tally): (Outcome, Tally)
    decreases Allowed(m, t.iterations)
  {
    var reviewed := t.(reviewed := t.reviewed + [current]);
    match o.review(|t.reviewed|)
    case ReviewerError => (Stopped, reviewed)
    case Approved => (Passed, reviewed)
    case Disapproved =>
      if !o.counted(t.iterations) then
        (Stopped, reviewed)
      else if t.iterations + 1 >= m then
        (Escalated, reviewed.(iterations := t.iterations + 1))
      else if !o.regenerated(t.regenerations) then
        (Stopped, reviewed.(iterations := t.iterations + 1, regenerations := t.regenerations + 1))
      else
        Loop(o, m, t.contents,
             Tally(t.iterations + 1, t.regenerations + 1, t.contents + 1, t.reviewed + [current]))
  }

  /** Generating n sections, the first error ending the run. */
  function AllSections(o: Outside, m: nat, n: nat, t: Tally): (seq<Outcome>, Tally) {
    if n == 0 then ([], t)
    else
      var (outcomes, before) := AllSections(o, m, n - 1, t);
      if Stopped in outcomes then (outcomes, before)
      else if !o.generated(n - 1) then (outcomes + [Stopped], before)
      else
        var (outcome, after) := Loop(o, m, before.contents, before.(contents := before.contents + 1));
        (outcomes + [outcome], after)
  }

  /** A row of agent_runs together with the course contents written under it. */
  class AgentRun {
    var iterations: nat
    var regenerations: nat
    var contents: nat
    var reviewed: seq<nat>

    ghost function Value(): Tally
      reads this
    {
      Tally(iterations, regenerations, contents, reviewed)
    }

    constructor ()
      ensures Value() == Tally(0, 0, 0, [])
    {
      iterations, regenerations, contents, reviewed := 0, 0, 0, [];
    }

    method IncrementIteration(o: Outside) returns (count: Option<nat>)
      modifies this`iterations
      ensures count == if o.counted(old(iterations)) then Some(old(iterations) + 1) else None
      ensures iterations == if count.Some? then old(iterations) + 1 else old(iterations)
    {
      if !o.counted(iterations) {
        return None;
      }
      iterations := iterations + 1;
      count := Some(iterations);
    }

    method RunReviewLoop(o: Outside, configured: int, section: nat) returns (outcome: Outcome)
      modifies this
      ensures (outcome, Value()) == Loop(o, EffectiveMax(configured), section, old(Value()))
    {
      var maxIterations := configured;
      if maxIterations <= 0 {
        maxIterations := DEFAULT_ITERATIONS;
      }
      var current := section;
      while true
        invariant Loop(o, maxIterations, current, Value()) == Loop(o, maxIterations, section, old(Value()))
        decreases Allowed(maxIterations, iterations)
      {
        var verdict := o.review(|reviewed|);
        reviewed := reviewed + [current];
        match verdict {
          case ReviewerError => return Stopped;
          case Approved => return Passed;
          case Disapproved =>
        }
        var count := IncrementIteration(o);
        if count == None {
          return Stopped;
        }
        if count.value >= maxIterations {
          return Escalated;
        }
        var ok := o.regenerated(regenerations);
        regenerations := regenerations + 1;
        if !ok {
          return Stopped;
        }
        current := contents;
        contents := contents + 1;
      }
    }

    method GenerateAllSections(o: Outside, configured: int, n: nat) returns (outcomes: seq<Outcome>)
      modifies this
      ensures (outcomes, Value()) == AllSections(o, EffectiveMax(configured), n, old(Value()))
    {
      outcomes := [];
      var i := 0;
      while i < n
        invariant 0 <= i <= n && Stopped !in outcomes
        invariant (outcomes, Value()) == AllSections(o, EffectiveMax(configured), i, old(Value()))
      {
        var outcome := Stopped;
        if o.generated(i) {
          contents := contents + 1;
          outcome := RunReviewLoop(o, configured, contents - 1);
        }
        outcomes := outcomes + [outcome];
        i := i + 1;
        if outcome == Stopped {
          StoppedStays(o, EffectiveMax(configured), i, n, old(Value()));
          return;
        }
      }
    }
  }

  lemma {:induction false} StoppedStays(o: Outside, m: nat, i: nat, n: nat, t: Tally)
    requires i <= n && Stopped in AllSections(o, m, i, t).0
    ensures AllSections(o, m, n, t) == AllSections(o, m, i, t)
    decreases n
  {
    if i < n {
      StoppedStays(o, m, i, n - 1, t);
    }
  }

  // ---------------------------------------------------------------- one section

  ghost predicate NoErrors(o: Outside) {
    && (forall k: nat :: o.review(k) != ReviewerError)
    && (forall k: nat :: o.counted(k))
    && (forall k: nat :: o.generated(k))
    && (forall k: nat :: o.regenerated(k))
  }

  /** Whatever fails, a section takes no more than what the shared counter still allows, and one
      review more than it takes regenerations. */
  lemma {:induction false} SectionBounds(o: Outside, m: nat, current: nat, t: Tally)
    ensures var t' := Loop(o, m, current, t).1;
            && t'.iterations >= t.iterations
            && t'.regenerations + Allowed(m, t'.iterations) <= t.regenerations + Allowed(m, t.iterations)
            && |t.reviewed| < |t'.reviewed| <= |t.reviewed| + 1 + t'.regenerations - t.regenerations
    decreases Allowed(m, t.iterations)
  {
    if o.review(|t.reviewed|) == Disapproved && o.counted(t.iterations) && t.iterations + 1 < m
       && o.regenerated(t.regenerations) {
      SectionBounds(o, m, t.contents,
                    Tally(t.iterations + 1, t.regenerations + 1, t.contents + 1, t.reviewed + [current]));
    }
  }

  /** Absent errors the end of a section can be read off the reviewer's answers: it passes with the
      first approval among the reviews the counter allows, and is escalated when there is none. */
  lemma {:induction false} SectionOutcome(o: Outside, m: nat, current: nat, t: Tally)
    requires NoErrors(o)
    ensures var (outcome, t') := Loop(o, m, current, t);
            var first, last := |t.reviewed|, |t'.reviewed| - 1;
            && first <= last <= first + Allowed(m, t.iterations)
            && (forall k :: first <= k < last ==> o.review(k) == Disapproved)
            && (if o.review(last) == Approved then outcome == Passed
                else outcome == Escalated && last == first + Allowed(m, t.iterations))
    decreases Allowed(m, t.iterations)
  {
    if o.review(|t.reviewed|) == Disapproved && t.iterations + 1 < m {
      SectionOutcome(o, m, t.contents,
                     Tally(t.iterations + 1, t.regenerations + 1, t.contents + 1, t.reviewed + [current]));
    }
  }

  /** Whatever the outside answers, section by section: every review but the last was a disapproval that
      was counted below the limit and led to a new content; the last one ends the section, passed when
      approved, escalated when disapproved and counted at the limit, and stopped by the first error of
      the reviewer, the counter or the professor. */
  lemma {:induction false} SectionExplained(o: Outside, m: nat, current: nat, t: Tally)
    ensures var (outcome, t') := Loop(o, m, current, t);
            var turns := |t'.reviewed| - |t.reviewed| - 1;
            && turns >= 0
            && (forall k :: 0 <= k < turns ==> Continues(o, m, t, k))
            && !Continues(o, m, t, turns)
            && (outcome == Passed <==> o.review(|t.reviewed| + turns) == Approved)
            && (outcome == Escalated <==>
                  && o.review(|t.reviewed| + turns) == Disapproved && o.counted(t.iterations + turns)
                  && t.iterations + turns + 1 >= m)
            && t'.contents == t.contents + turns
            && t'.iterations == t.iterations + turns + (if Counts(o, t, turns) then 1 else 0)
            && t'.regenerations == t.regenerations + turns
                 + (if Counts(o, t, turns) && t.iterations + turns + 1 < m then 1 else 0)
    decreases Allowed(m, t.iterations)
  {
    if Continues(o, m, t, 0) {
      var next := Tally(t.iterations + 1, t.regenerations + 1, t.contents + 1, t.reviewed + [current]);
      SectionExplained(o, m, t.contents, next);
      OneTurnOn(o, m, t, next);
    }
  }

  lemma {:induction false} OneTurnOn(o: Outside, m: nat, t: Tally, next: Tally)
    requires next.iterations == t.iterations + 1 && next.regenerations == t.regenerations + 1
    requires |next.reviewed| == |t.reviewed| + 1
    ensures forall k: nat :: Continues(o, m, next, k) == Continues(o, m, t, k + 1)
    ensures forall k: nat :: k > 0 ==> Continues(o, m, t, k) == Continues(o, m, next, k - 1)
  {
  }

  /** After the given number of corrections the content is disapproved, and that is counted. */
  predicate Counts(o: Outside, t: Tally, turns: nat) {
    o.review(|t.reviewed| + turns) == Disapproved && o.counted(t.iterations + turns)
  }

  predicate Continues(o: Outside, m: nat, t: Tally, turns: nat) {
    Counts(o, t, turns) && t.iterations + turns + 1 < m && o.regenerated(t.regenerations + turns)
  }

  // ---------------------------------------------------------------- the whole run

  function Upto(n: nat): (s: seq<nat>)
    ensures |s| == n
  {
    if n == 0 then [] else Upto(n - 1) + [n - 1]
  }

  /** Each content is reviewed once and in the order of writing, the newest one each time. */
  lemma {:induction false} LoopReviewsNewest(o: Outside, m: nat, t: Tally)
    requires t.contents >= 1 && t.reviewed == Upto(t.contents - 1)
    ensures var t' := Loop(o, m, t.contents - 1, t).1;
            t'.reviewed == Upto(t'.contents)
    decreases Allowed(m, t.iterations)
  {
    assert t.reviewed + [t.contents - 1] == Upto(t.contents);
    if o.review(|t.reviewed|) == Disapproved && o.counted(t.iterations) && t.iterations + 1 < m
       && o.regenerated(t.regenerations) {
      LoopReviewsNewest(o, m, Tally(t.iterations + 1, t.regenerations + 1, t.contents + 1, Upto(t.contents)));
    }
  }

  /** A run with limit m and n sections: at most m - 1 regenerations and n + m - 1 reviews, every
      content reviewed exactly once.  Errors do not change that. */
  lemma {:induction false} RunBounds(o: Outside, m: nat, n: nat)
    requires m >= 1
    ensures var (outcomes, t) := AllSections(o, m, n, Tally(0, 0, 0, []));
            && t.regenerations <= m - 1
            && |t.reviewed| <= n + m - 1
            && t.reviewed == Upto(t.contents)
  {
    RunTotals(o, m, n);
  }

  lemma {:induction false} RunTotals(o: Outside, m: nat, n: nat)
    requires m >= 1
    ensures var (outcomes, t) := AllSections(o, m, n, Tally(0, 0, 0, []));
            && t.regenerations + Allowed(m, t.iterations) <= m - 1
            && |t.reviewed| <= |outcomes| + t.regenerations && |outcomes| <= n
            && t.reviewed == Upto(t.contents)
  {
    if n > 0 {
      RunTotals(o, m, n - 1);
      var (outcomes, before) := AllSections(o, m, n - 1, Tally(0, 0, 0, []));
      if Stopped !in outcomes && o.generated(n - 1) {
        var started := before.(contents := before.contents + 1);
        SectionBounds(o, m, before.contents, started);
        LoopReviewsNewest(o, m, started);
      }
    }
  }

  /** The first section that stops, or is not generated, is the last one. */
  lemma {:induction false} RunStops(o: Outside, m: nat, n: nat, t: Tally)
    ensures var (outcomes, _) := AllSections(o, m, n, t);
            && |outcomes| <= n && (|outcomes| < n ==> outcomes != [] && Last(outcomes) == Stopped)
            && (forall i :: 0 <= i < |outcomes| - 1 ==> outcomes[i] != Stopped)
            && (forall i :: 0 <= i < |outcomes| && !o.generated(i) ==> outcomes[i] == Stopped)
  {
    if n > 0 {
      RunStops(o, m, n - 1, t);
    }
  }

  /** Absent errors each of the n sections ends approved or escalated, and an escalation means the
      limit was reached. */
  lemma {:induction false} EverySectionEnds(o: Outside, m: nat, n: nat)
    requires NoErrors(o) && m >= 1
    ensures var (outcomes, t) := AllSections(o, m, n, Tally(0, 0, 0, []));
            && |outcomes| == n
            && (forall i :: 0 <= i < n ==> outcomes[i] == Passed || outcomes[i] == Escalated)
            && (Escalated in outcomes ==> t.iterations >= m)
            && |t.reviewed| == n + t.regenerations
  {
    if n > 0 {
      EverySectionEnds(o, m, n - 1);
      var (outcomes, before) := AllSections(o, m, n - 1, Tally(0, 0, 0, []));
      var started := before.(contents := before.contents + 1);
      SectionOutcome(o, m, before.contents, started);
      SectionBounds(o, m, before.contents, started);
      SectionConserves(o, m, before.contents, started);
    }
  }

  /** Absent errors every regeneration is followed by its review, and only the limit escalates. */
  lemma {:induction false} SectionConserves(o: Outside, m: nat, current: nat, t: Tally)
    requires NoErrors(o)
    ensures var (outcome, t') := Loop(o, m, current, t);
            && |t'.reviewed| == |t.reviewed| + 1 + t'.regenerations - t.regenerations
            && (outcome == Escalated ==> t'.iterations >= m)
    decreases Allowed(m, t.iterations)
  {
    if o.review(|t.reviewed|) == Disapproved && t.iterations + 1 < m {
      SectionConserves(o, m, t.contents,
                       Tally(t.iterations + 1, t.regenerations + 1, t.contents + 1, t.reviewed + [current]));
    }
  }
}
