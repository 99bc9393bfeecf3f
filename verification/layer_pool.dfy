/**
 Generating one layer: a pool of at most five workers claims the eligible nodes, generates
 them, runs the review loop on content nodes against one shared iteration counter, and the
 layer is settled when all workers have finished.

 Connections succeed and nobody else touches the layer.  What the model, the reviewer and the
 token check answer is arbitrary.
 */
module LayerPool {
  import opened Prelude
  import opened CourseTree

  const CONCURRENCY := 5

  type Statuses = map<NodeId, NodeStatus>

  /** How a worker came to its end. */
  datatype Ending =
    | Skipped
    | Unreviewed
    | PassedReview
    | Escalated
    | BudgetFailed
    | GenerationFailed
    | ReviewStopped

  datatype Phase =
    | Waiting
    | Started
    | Claimed
    | ToReview
    | NeedIncrement
    | Granted
    | Finished(how: Ending)

  /** One call of GenerateLayer: the nodes it found eligible, with the status it read, and how
      far the run's iteration counter had come before. */
  datatype Job = Job(ids: seq<NodeId>, read: seq<NodeStatus>, content: bool, maxIterations: nat, used: nat)

  datatype State = State(
    status: Statuses,
    phases: seq<Phase>,
    claims: seq<NodeId>,
    iterations: nat,
    reviews: nat,
    regenerations: nat,
    settled: Option<Settled>)

  /** What the outside answers to the worker's next request: the token check or the model
      before a generation, the reviewer before a review. */
  datatype Answer = Good | Disapproved | OverBudget | Broken

  datatype Step = Dispatch(i: nat) | Work(i: nat, answer: Answer) | Settle

  function Initial(job: Job, status: Statuses): State {
    State(status, seq(|job.ids|, _ => Waiting), [], job.used, 0, 0, None)
  }

  predicate Active(p: Phase) {
    !p.Waiting? && !p.Finished?
  }

  function InPhase(phases: seq<Phase>, which: set<Phase>): set<nat> {
    set i: nat | i < |phases| && phases[i] in which
  }

  const ACTIVE: set<Phase> := {Started, Claimed, ToReview, NeedIncrement, Granted}

  function Move(s: State, i: nat, p: Phase): State
    requires i < |s.phases|
  {
    s.(phases := s.phases[i := p])
  }

  function Write(s: State, id: NodeId, status: NodeStatus): State {
    s.(status := s.status[id := status])
  }

  /** The next action of worker i; an answer that is none to its request changes nothing. */
  function WorkerStep(job: Job, s: State, i: nat, answer: Answer): State
    requires i < |job.ids| == |job.read| == |s.phases|
  {
    var id := job.ids[i];
    match s.phases[i]
    case Waiting => s
    case Started =>
      if id in s.status && s.status[id] == job.read[i] then
        Move(Write(s, id, Generating), i, Claimed).(claims := s.claims + [id])
      else
        Move(s, i, Finished(Skipped))
    case Claimed => (
      match answer
      case OverBudget => Move(Write(s, id, Failed), i, Finished(BudgetFailed))
      case Broken => Move(Write(s, id, Failed), i, Finished(GenerationFailed))
      case Good => Move(Write(s, id, AwaitingReview), i, if job.content then ToReview else Finished(Unreviewed))
      case Disapproved => s
    )
    case ToReview => (
      var reviewed := s.(reviews := s.reviews + 1);
      match answer
      case Broken => Move(reviewed, i, Finished(ReviewStopped))
      case Disapproved => Move(reviewed, i, NeedIncrement)
      case Good => Move(reviewed, i, Finished(PassedReview))
      case OverBudget => s
    )
    case NeedIncrement =>
      var counted := s.(iterations := s.iterations + 1);
      Move(counted, i, if counted.iterations >= job.maxIterations then Finished(Escalated) else Granted)
    case Granted => (
      var regenerated := s.(regenerations := s.regenerations + 1);
      match answer
      case OverBudget => Move(Write(s, id, Failed), i, Finished(BudgetFailed))
      case Broken => Move(regenerated, i, Finished(ReviewStopped))
      case Good => Move(Write(regenerated, id, AwaitingReview), i, ToReview)
      case Disapproved => s
    )
    case Finished(_) => s
  }

  function Having(status: Statuses, which: set<NodeStatus>): set<NodeId> {
    set id | id in status && status[id] in which
  }

  /** What the settle check concludes from the layer's statuses. */
  function SettleCheck(status: Statuses): Settled {
    if Having(status, IN_FLIGHT) != {} then StillInFlight
    else if status != map[] && Having(status, HAS_CONTENT) == {} then AllFailed
    else if Having(status, HAS_CONTENT) == {} then NothingToSettle
    else Transitioned
  }

  /** Nodes are dispatched in list order while fewer than five workers are active; the settle
      check runs once all workers have finished. */
  function Apply(job: Job, s: State, step: Step): State
    requires |job.ids| == |job.read| == |s.phases|
  {
    match step
    case Dispatch(i) =>
      if i < |s.phases| && s.phases[i].Waiting? && (i == 0 || !s.phases[i - 1].Waiting?)
         && |InPhase(s.phases, ACTIVE)| < CONCURRENCY
      then Move(s, i, Started)
      else s
    case Work(i, answer) =>
      if i < |s.phases| then WorkerStep(job, s, i, answer) else s
    case Settle =>
      if s.settled == None && forall i :: 0 <= i < |s.phases| ==> s.phases[i].Finished? then
        s.(settled := Some(SettleCheck(s.status)))
      else
        s
  }

  function Run(job: Job, s: State, steps: seq<Step>): (r: State)
    requires |job.ids| == |job.read| == |s.phases|
    ensures |r.phases| == |s.phases|
  {
    if steps == [] then s else Apply(job, Run(job, s, Front(steps)), Last(steps))
  }

  // ---------------------------------------------------------------- what every schedule keeps

  /** The job was read off the table: exactly the pending and rejected nodes, each once. */
  ghost predicate ReadFrom(job: Job, status: Statuses) {
    && |job.ids| == |job.read|
    && Distinct(job.ids)
    && (forall i :: 0 <= i < |job.ids| ==> job.ids[i] in status && status[job.ids[i]] == job.read[i])
    && forall id :: id in status ==> (id in job.ids <==> status[id] in {Pending, Rejected})
  }

  /** What the phase of its worker says about a node. */
  ghost predicate NodeInv(job: Job, s: State, i: nat)
    requires i < |job.ids| == |job.read| == |s.phases|
  {
    var id := job.ids[i];
    && id in s.status
    && (id in s.claims <==> !s.phases[i].Waiting? && !s.phases[i].Started?)
    && match s.phases[i]
       case Waiting | Started => s.status[id] == job.read[i]
       case Claimed => s.status[id] == Generating
       case ToReview | NeedIncrement | Granted => s.status[id] == AwaitingReview && job.content
       case Finished(how) =>
         && how != Skipped
         && s.status[id] == (if how == BudgetFailed || how == GenerationFailed then Failed else AwaitingReview)
         && (how == Unreviewed <==> !job.content && s.status[id] == AwaitingReview)
  }

  ghost predicate Inv(job: Job, start: Statuses, s: State) {
    && |job.ids| == |job.read| == |s.phases|
    && s.status.Keys == start.Keys
    && (forall i :: 0 <= i < |job.ids| ==> NodeInv(job, s, i))
    && (forall id :: id in start && id !in job.ids ==> s.status[id] == start[id])
    && Distinct(s.claims) && (forall id :: id in s.claims ==> id in job.ids)
  }

  lemma {:induction false} WorkKeepsInv(job: Job, start: Statuses, s: State, i: nat, answer: Answer)
    requires ReadFrom(job, start) && Inv(job, start, s) && i < |s.phases|
    ensures Inv(job, start, WorkerStep(job, s, i, answer))
  {
    var s' := WorkerStep(job, s, i, answer);
    assert NodeInv(job, s, i);
    forall j | 0 <= j < |job.ids|
      ensures NodeInv(job, s', j)
    {
      assert NodeInv(job, s, j);
      if j != i {
        assert job.ids[i] != job.ids[j];
      }
    }
  }

  lemma {:induction false} RunKeepsInv(job: Job, start: Statuses, steps: seq<Step>)
    requires ReadFrom(job, start)
    ensures Inv(job, start, Run(job, Initial(job, start), steps))
  {
    if steps == [] {
      assert forall i :: 0 <= i < |job.ids| ==> NodeInv(job, Initial(job, start), i);
    } else {
      RunKeepsInv(job, start, Front(steps));
      var s := Run(job, Initial(job, start), Front(steps));
      match Last(steps)
      case Dispatch(i) =>
        forall j | 0 <= j < |job.ids|
          ensures NodeInv(job, Apply(job, s, Last(steps)), j)
        {
          assert NodeInv(job, s, j);
        }
      case Work(i, answer) =>
        if i < |s.phases| {
          WorkKeepsInv(job, start, s, i, answer);
        }
      case Settle =>
        forall j | 0 <= j < |job.ids|
          ensures NodeInv(job, Apply(job, s, Last(steps)), j)
        {
          assert NodeInv(job, s, j);
        }
    }
  }

  /** Once settled, the workers are done, and the conclusion is the one for the final statuses. */
  ghost predicate SettledInv(s: State) {
    s.settled.Some? ==>
      && (forall i :: 0 <= i < |s.phases| ==> s.phases[i].Finished?)
      && s.settled.value == SettleCheck(s.status)
  }

  lemma {:induction false} RunKeepsSettled(job: Job, start: Statuses, steps: seq<Step>)
    requires |job.ids| == |job.read|
    ensures SettledInv(Run(job, Initial(job, start), steps))
  {
    if steps != [] {
      RunKeepsSettled(job, start, Front(steps));
    }
  }

  /** The whole call, for every schedule: each eligible node was claimed exactly once and is now
      awaiting review or failed, the other nodes are as they were, and the course goes on to layer
      approval unless the layer is empty or failed altogether. */
  lemma {:induction false} EveryScheduleSettles(job: Job, start: Statuses, steps: seq<Step>)
    requires ReadFrom(job, start) && forall id :: id in start ==> start[id] != Generating
    requires Run(job, Initial(job, start), steps).settled.Some?
    ensures var s := Run(job, Initial(job, start), steps);
            && s.status.Keys == start.Keys
            && Distinct(s.claims) && (forall id :: id in s.claims <==> id in job.ids)
            && (forall id :: id in start ==>
                  if id in job.ids then s.status[id] in {AwaitingReview, Failed} else s.status[id] == start[id])
            && s.settled == Some(
                 if start == map[] then NothingToSettle
                 else if Having(s.status, {Failed}) == start.Keys then AllFailed
                 else Transitioned)
  {
    RunKeepsInv(job, start, steps);
    RunKeepsSettled(job, start, steps);
    var s := Run(job, Initial(job, start), steps);
    forall id | id in job.ids
      ensures id in s.claims && id in s.status && s.status[id] in {AwaitingReview, Failed}
    {
      var i :| 0 <= i < |job.ids| && job.ids[i] == id;
      assert NodeInv(job, s, i);
    }
    forall id | id in start && id !in job.ids
      ensures s.status[id] == start[id] && s.status[id] in {Approved, AwaitingReview, Failed}
    {
      assert start[id] !in {Pending, Rejected};
    }
    SettleOf(s.status);
  }

  function LayerStatuses(nodes: Nodes, layer: NodeType): Statuses {
    map id | id in nodes && nodes[id].nodeType == layer :: nodes[id].status
  }

  /** The runner's settle operation on the table concludes what the pool's check concludes on the
      statuses of the layer. */
  lemma {:induction false} SettleChecksAgree(nodes: Nodes, layer: NodeType)
    ensures SettleCheck(LayerStatuses(nodes, layer)) == Conclusion(nodes, layer)
  {
    var status := LayerStatuses(nodes, layer);
    SettledSplit(nodes, layer);
    assert status.Keys == LayerNodes(nodes, layer);
    assert Having(status, IN_FLIGHT) == WithStatus(nodes, layer, IN_FLIGHT);
    assert Having(status, HAS_CONTENT) == WithStatus(nodes, layer, HAS_CONTENT);
    assert status == map[] <==> status.Keys == {};
  }

  lemma {:induction false} SettleOf(status: Statuses)
    requires forall id :: id in status ==> status[id] in {Approved, AwaitingReview, Failed}
    ensures SettleCheck(status) ==
            if status == map[] then NothingToSettle
            else if Having(status, {Failed}) == status.Keys then AllFailed
            else Transitioned
  {
    assert Having(status, IN_FLIGHT) == {};
    if Having(status, HAS_CONTENT) == {} {
      forall id | id in status
        ensures id in Having(status, {Failed})
      {
        assert id !in Having(status, HAS_CONTENT);
      }
    } else {
      var id :| id in Having(status, HAS_CONTENT);
      assert id !in Having(status, {Failed});
    }
  }

  // ---------------------------------------------------------------- concurrency and budgets

  lemma {:induction false} PhaseCount(phases: seq<Phase>, i: nat, p: Phase, which: set<Phase>)
    requires i < |phases|
    ensures |InPhase(phases[i := p], which)| + One(phases[i], which) == |InPhase(phases, which)| + One(p, which)
  {
    var rest := InPhase(phases, which) - {i};
    assert InPhase(phases[i := p], which) - {i} == rest;
    assert InPhase(phases, which) == rest + if phases[i] in which then {i} else {};
    assert InPhase(phases[i := p], which) == rest + if p in which then {i} else {};
  }

  function Min(a: int, b: int): int {
    if a < b then a else b
  }

  const UNGENERATED: set<Phase> := {Waiting, Started, Claimed}

  /** Never more than five workers; a regeneration for each granted iteration at most; a review
      for each node and each regeneration at most. */
  ghost predicate BudgetInv(job: Job, s: State) {
    && |InPhase(s.phases, ACTIVE)| <= CONCURRENCY
    && s.regenerations + |InPhase(s.phases, {Granted})|
       <= Min(s.iterations, job.maxIterations - 1) - Min(job.used, job.maxIterations - 1)
    && s.reviews + |InPhase(s.phases, {ToReview})| + |InPhase(s.phases, UNGENERATED)| <= |s.phases| + s.regenerations
  }

  function One(p: Phase, which: set<Phase>): nat {
    if p in which then 1 else 0
  }

  /** What one worker's action adds to the totals it shares with the others. */
  lemma {:induction false} WorkAccounts(job: Job, s: State, i: nat, answer: Answer)
    requires i < |job.ids| == |job.read| == |s.phases|
    ensures var s' := WorkerStep(job, s, i, answer);
            var p, p' := s.phases[i], s'.phases[i];
            && s'.phases == s.phases[i := p']
            && One(p', ACTIVE) <= One(p, ACTIVE)
            && (if s'.iterations == s.iterations then
                  s'.regenerations + One(p', {Granted}) <= s.regenerations + One(p, {Granted})
                else
                  && s'.iterations == s.iterations + 1 && s'.regenerations == s.regenerations
                  && One(p', {Granted}) == if s'.iterations < job.maxIterations then 1 else 0)
            && s'.reviews + One(p', {ToReview}) + One(p', UNGENERATED) - s'.regenerations
               <= s.reviews + One(p, {ToReview}) + One(p, UNGENERATED) - s.regenerations
  {
    assert s.phases[i := s.phases[i]] == s.phases;
  }

  lemma {:induction false} WorkKeepsBudget(job: Job, s: State, i: nat, answer: Answer)
    requires |job.ids| == |job.read| == |s.phases| && i < |s.phases|
    requires BudgetInv(job, s)
    ensures BudgetInv(job, WorkerStep(job, s, i, answer))
  {
    var s' := WorkerStep(job, s, i, answer);
    WorkAccounts(job, s, i, answer);
    BudgetFollows(job, s, s', i);
  }

  lemma {:induction false} BudgetFollows(job: Job, s: State, s': State, i: nat)
    requires i < |s.phases| == |s'.phases| && s'.phases == s.phases[i := s'.phases[i]]
    requires BudgetInv(job, s)
    requires One(s'.phases[i], ACTIVE) <= One(s.phases[i], ACTIVE)
    requires if s'.iterations == s.iterations then
               s'.regenerations + One(s'.phases[i], {Granted}) <= s.regenerations + One(s.phases[i], {Granted})
             else
               && s'.iterations == s.iterations + 1 && s'.regenerations == s.regenerations
               && One(s'.phases[i], {Granted}) == if s'.iterations < job.maxIterations then 1 else 0
    requires s'.reviews + One(s'.phases[i], {ToReview}) + One(s'.phases[i], UNGENERATED) - s'.regenerations
             <= s.reviews + One(s.phases[i], {ToReview}) + One(s.phases[i], UNGENERATED) - s.regenerations
    ensures BudgetInv(job, s')
  {
    var p := s'.phases[i];
    PhaseCount(s.phases, i, p, ACTIVE);
    PhaseCount(s.phases, i, p, {Granted});
    PhaseCount(s.phases, i, p, {ToReview});
    PhaseCount(s.phases, i, p, UNGENERATED);
  }

  lemma {:induction false} RunKeepsBudget(job: Job, start: Statuses, steps: seq<Step>)
    requires |job.ids| == |job.read| && job.maxIterations >= 1
    ensures BudgetInv(job, Run(job, Initial(job, start), steps))
  {
    if steps == [] {
      InitialCounts(job, start);
    } else {
      RunKeepsBudget(job, start, Front(steps));
      var s := Run(job, Initial(job, start), Front(steps));
      match Last(steps)
      case Dispatch(i) =>
        if i < |s.phases| {
          PhaseCount(s.phases, i, Started, ACTIVE);
          PhaseCount(s.phases, i, Started, {Granted});
          PhaseCount(s.phases, i, Started, {ToReview});
          PhaseCount(s.phases, i, Started, UNGENERATED);
        }
      case Work(i, answer) =>
        if i < |s.phases| {
          WorkKeepsBudget(job, s, i, answer);
        }
      case Settle =>
    }
  }

  lemma {:induction false} InitialCounts(job: Job, start: Statuses)
    ensures var phases := Initial(job, start).phases;
            && InPhase(phases, ACTIVE) == {} && InPhase(phases, {Granted}) == {} && InPhase(phases, {ToReview}) == {}
            && |InPhase(phases, UNGENERATED)| <= |phases|
  {
    IndexCount(InPhase(Initial(job, start).phases, UNGENERATED), |job.ids|);
  }

  lemma {:induction false} IndexCount(indices: set<nat>, n: nat)
    requires forall i :: i in indices ==> i < n
    ensures |indices| <= n
  {
    if n > 0 {
      IndexCount(indices - {n - 1}, n - 1);
    } else {
      assert indices == {};
    }
  }

  /** With limit m, n nodes and a fresh counter, any schedule asks for at most m - 1 regenerations,
      the ones that break included, and performs at most n + m - 1 reviews in total; what earlier
      layers of the run used up is no longer available.  And there are never more than five workers
      busy. */
  lemma {:induction false} ReviewsBounded(job: Job, start: Statuses, steps: seq<Step>)
    requires |job.ids| == |job.read| && job.maxIterations >= 1
    ensures var s := Run(job, Initial(job, start), steps);
            && s.regenerations <= job.maxIterations - 1 - Min(job.used, job.maxIterations - 1)
            && s.reviews <= |job.ids| + s.regenerations
            && |InPhase(s.phases, ACTIVE)| <= 5
  {
    RunKeepsBudget(job, start, steps);
  }

  const ENDED_WELL: set<Phase> := {Finished(PassedReview), Finished(Escalated), Finished(BudgetFailed)}

  /** When neither model nor reviewer ever breaks, every content node ends approved by the
      reviewer, escalated, or failed on the budget. */
  lemma {:induction false} ContentEndings(job: Job, start: Statuses, steps: seq<Step>, i: nat)
    requires ReadFrom(job, start) && job.content && i < |job.ids|
    requires Work(i, Broken) !in steps
    ensures var p := Run(job, Initial(job, start), steps).phases[i];
            !p.Finished? || p in ENDED_WELL
  {
    if steps != [] {
      var s := Run(job, Initial(job, start), Front(steps));
      assert steps == Front(steps) + [Last(steps)];
      ContentEndings(job, start, Front(steps), i);
      assert s.phases[i] == Started ==> job.ids[i] in s.status && s.status[job.ids[i]] == job.read[i] by {
        RunKeepsInv(job, start, Front(steps));
        assert NodeInv(job, s, i);
      }
      EndsWell(job, s, Last(steps), i);
    }
  }

  lemma {:induction false} EndsWell(job: Job, s: State, step: Step, i: nat)
    requires i < |job.ids| == |job.read| == |s.phases| && job.content && step != Work(i, Broken)
    requires s.phases[i] == Started ==> job.ids[i] in s.status && s.status[job.ids[i]] == job.read[i]
    requires s.phases[i].Finished? ==> s.phases[i] in ENDED_WELL
    ensures var p := Apply(job, s, step).phases[i]; p.Finished? ==> p in ENDED_WELL
  {
    if !(step.Work? && step.i == i) {
      OthersStay(job, s, step, i);
    }
  }

  // ---------------------------------------------------------------- what a worker's end says

  /** The request at which worker i last got an answer that moved it on, and that answer. */
  function LastAnswer(job: Job, s: State, steps: seq<Step>, i: nat): Option<(Phase, Answer)>
    requires |job.ids| == |job.read| == |s.phases| && i < |s.phases|
  {
    if steps == [] then None
    else
      var before, step := Run(job, s, Front(steps)), Last(steps);
      if step.Work? && step.i == i && Asking(before.phases[i]) && Apply(job, before, step) != before then
        Some((before.phases[i], step.answer))
      else
        LastAnswer(job, s, Front(steps), i)
  }

  predicate Asking(p: Phase) {
    p in {Claimed, ToReview, Granted}
  }

  /** What a worker has been told last, by the phase it is in. */
  predicate ToldBy(p: Phase, last: Option<(Phase, Answer)>) {
    match p
    case Waiting | Started | Claimed => last == None
    case ToReview => last in {Some((Claimed, Good)), Some((Granted, Good))}
    case NeedIncrement | Granted => last == Some((ToReview, Disapproved))
    case Finished(how) => (
      match how
      case Skipped => last == None
      case Unreviewed => last == Some((Claimed, Good))
      case PassedReview => last == Some((ToReview, Good))
      case Escalated => last == Some((ToReview, Disapproved))
      case BudgetFailed => last in {Some((Claimed, OverBudget)), Some((Granted, OverBudget))}
      case GenerationFailed => last == Some((Claimed, Broken))
      case ReviewStopped => last in {Some((ToReview, Broken)), Some((Granted, Broken))}
    )
  }

  lemma {:induction false} EveryEndIsTold(job: Job, s: State, steps: seq<Step>, i: nat)
    requires |job.ids| == |job.read| == |s.phases| && i < |s.phases| && s.phases[i].Waiting?
    ensures ToldBy(Run(job, s, steps).phases[i], LastAnswer(job, s, steps, i))
  {
    if steps != [] {
      EveryEndIsTold(job, s, Front(steps), i);
      var before, step := Run(job, s, Front(steps)), Last(steps);
      if step.Work? && step.i == i {
        WorkerTold(job, before, i, step.answer, LastAnswer(job, s, Front(steps), i));
      } else {
        OthersStay(job, before, step, i);
      }
    }
  }

  lemma {:induction false} WorkerTold(job: Job, s: State, i: nat, answer: Answer, last: Option<(Phase, Answer)>)
    requires i < |job.ids| == |job.read| == |s.phases| && ToldBy(s.phases[i], last)
    ensures var s' := WorkerStep(job, s, i, answer);
            ToldBy(s'.phases[i], if Asking(s.phases[i]) && s' != s then Some((s.phases[i], answer)) else last)
  {
  }

  /** Only its own work and its dispatch move a worker. */
  lemma {:induction false} OthersStay(job: Job, s: State, step: Step, i: nat)
    requires |job.ids| == |job.read| == |s.phases| && i < |s.phases| && !(step.Work? && step.i == i)
    ensures var p := Apply(job, s, step).phases[i];
            p == s.phases[i] || (step == Dispatch(i) && s.phases[i].Waiting? && p == Started)
  {
  }

  /** For every schedule, each end of a worker is the one its last answer calls for: it has passed review
      if and only if its last answer was the reviewer's approval, broken off, failed and unreviewed
      likewise; and an escalated one was disapproved of last, with the counter at the limit. */
  lemma {:induction false} EndingsExplained(job: Job, start: Statuses, steps: seq<Step>, i: nat)
    requires |job.ids| == |job.read| && i < |job.ids|
    ensures var s, last := Run(job, Initial(job, start), steps), LastAnswer(job, Initial(job, start), steps, i);
            && (s.phases[i] == Finished(PassedReview) <==> last == Some((ToReview, Good)))
            && (s.phases[i] == Finished(Escalated) ==>
                  last == Some((ToReview, Disapproved)) && s.iterations >= job.maxIterations)
            && (last == Some((ToReview, Disapproved)) ==>
                  s.phases[i] in {NeedIncrement, Granted, Finished(Escalated)})
            && (s.phases[i] == Finished(BudgetFailed) <==>
                  last == Some((Claimed, OverBudget)) || last == Some((Granted, OverBudget)))
            && (s.phases[i] == Finished(GenerationFailed) <==> last == Some((Claimed, Broken)))
            && (s.phases[i] == Finished(ReviewStopped) <==>
                  last == Some((ToReview, Broken)) || last == Some((Granted, Broken)))
  {
    EveryEndIsTold(job, Initial(job, start), steps, i);
    EscalatedAtLimit(job, Initial(job, start), steps, i);
  }

  lemma {:induction false} EscalatedAtLimit(job: Job, s: State, steps: seq<Step>, i: nat)
    requires |job.ids| == |job.read| == |s.phases| && i < |s.phases| && s.phases[i].Waiting?
    ensures Run(job, s, steps).phases[i] == Finished(Escalated) ==>
              Run(job, s, steps).iterations >= job.maxIterations
  {
    if steps != [] {
      EscalatedAtLimit(job, s, Front(steps), i);
      IterationsGrow(job, Run(job, s, Front(steps)), Last(steps));
      if !(Last(steps).Work? && Last(steps).i == i) {
        OthersStay(job, Run(job, s, Front(steps)), Last(steps), i);
      }
    }
  }

  lemma {:induction false} IterationsGrow(job: Job, s: State, step: Step)
    requires |job.ids| == |job.read| == |s.phases|
    ensures s.iterations <= Apply(job, s, step).iterations
  {
  }

  /** An increment is followed by escalation exactly when it brings the counter to the limit. */
  lemma {:induction false} EscalatesExactly(job: Job, s: State, step: Step, i: nat)
    requires |job.ids| == |job.read| == |s.phases| && i < |s.phases| && s.phases[i] == NeedIncrement
    requires Apply(job, s, step).phases[i] != NeedIncrement
    ensures var s' := Apply(job, s, step);
            && s'.iterations == s.iterations + 1
            && (s'.phases[i] == Finished(Escalated) <==> s'.iterations >= job.maxIterations)
            && (s'.phases[i] == Granted <==> s'.iterations < job.maxIterations)
  {
    if !(step.Work? && step.i == i) {
      OthersStay(job, s, step, i);
    }
  }

  /** How often worker i got this answer to this request. */
  function Answers(job: Job, s: State, steps: seq<Step>, i: nat, request: Phase, which: set<Answer>): nat
    requires |job.ids| == |job.read| == |s.phases| && i < |s.phases|
  {
    if steps == [] then 0
    else
      var step := Last(steps);
      Answers(job, s, Front(steps), i, request, which)
      + if step.Work? && step.i == i && step.answer in which && Run(job, s, Front(steps)).phases[i] == request
        then 1 else 0
  }

  /** Every disapproval leads to one regeneration, be it good, broken or refused by the budget, unless the
      worker has not come to it yet or is escalated. */
  lemma {:induction false} DisapprovalsRegenerate(job: Job, s: State, steps: seq<Step>, i: nat)
    requires |job.ids| == |job.read| == |s.phases| && i < |s.phases| && s.phases[i].Waiting?
    ensures var open := Answers(job, s, steps, i, ToReview, {Disapproved})
                        - Answers(job, s, steps, i, Granted, {Good, Broken, OverBudget});
            open == if Run(job, s, steps).phases[i] in {NeedIncrement, Granted, Finished(Escalated)} then 1 else 0
  {
    if steps != [] {
      DisapprovalsRegenerate(job, s, Front(steps), i);
      if !(Last(steps).Work? && Last(steps).i == i) {
        OthersStay(job, Run(job, s, Front(steps)), Last(steps), i);
      }
    }
  }

  /** A worker claims its node exactly when the node still has the status that was read, and otherwise
      leaves everything alone. */
  lemma {:induction false} ClaimsExactly(job: Job, s: State, i: nat, answer: Answer)
    requires i < |job.ids| == |job.read| == |s.phases| && s.phases[i] == Started
    ensures var s', id := WorkerStep(job, s, i, answer), job.ids[i];
            if id in s.status && s.status[id] == job.read[i] then
              s'.phases[i] == Claimed && s'.claims == s.claims + [id] && s'.status == s.status[id := Generating]
            else
              s'.phases[i] == Finished(Skipped) && s'.claims == s.claims && s'.status == s.status
  {
  }

  /** How often some worker at this request got one of these answers. */
  function AllAnswers(job: Job, s: State, steps: seq<Step>, request: Phase, which: set<Answer>): nat
    requires |job.ids| == |job.read| == |s.phases|
  {
    if steps == [] then 0
    else
      var before, step := Run(job, s, Front(steps)), Last(steps);
      AllAnswers(job, s, Front(steps), request, which)
      + if AnswersNow(before, step, request, which) then 1 else 0
  }

  const ANY: set<Answer> := {Good, Disapproved, OverBudget, Broken}

  /** The three counters count the reviews, the disapprovals that were counted, and the regenerations. */
  lemma {:induction false} CountersExact(job: Job, start: Statuses, steps: seq<Step>)
    requires |job.ids| == |job.read|
    ensures var s0 := Initial(job, start);
            var s := Run(job, s0, steps);
            && s.reviews == AllAnswers(job, s0, steps, ToReview, {Good, Disapproved, Broken})
            && s.iterations == job.used + AllAnswers(job, s0, steps, NeedIncrement, ANY)
            && s.regenerations == AllAnswers(job, s0, steps, Granted, {Good, Broken})
  {
    if steps != [] {
      CountersExact(job, start, Front(steps));
      StepCounts(job, Run(job, Initial(job, start), Front(steps)), Last(steps));
    }
  }

  predicate AnswersNow(s: State, step: Step, request: Phase, which: set<Answer>) {
    step.Work? && step.i < |s.phases| && s.phases[step.i] == request && step.answer in which
  }

  lemma {:induction false} StepCounts(job: Job, s: State, step: Step)
    requires |job.ids| == |job.read| == |s.phases|
    ensures var s' := Apply(job, s, step);
            && s'.reviews == s.reviews + (if AnswersNow(s, step, ToReview, {Good, Disapproved, Broken}) then 1 else 0)
            && s'.iterations == s.iterations + (if AnswersNow(s, step, NeedIncrement, ANY) then 1 else 0)
            && s'.regenerations == s.regenerations + (if AnswersNow(s, step, Granted, {Good, Broken}) then 1 else 0)
  {
    if step.Work? {
      match step.answer case Good => case Disapproved => case OverBudget => case Broken =>
    }
  }

  /** Who waits, waits behind all that do not. */
  ghost predicate InOrder(phases: seq<Phase>) {
    forall i, j :: 0 <= i < j < |phases| && phases[i].Waiting? ==> phases[j].Waiting?
  }

  /** Nodes are taken up in the order of the list. */
  lemma {:induction false} DispatchedInOrder(job: Job, start: Statuses, steps: seq<Step>)
    requires |job.ids| == |job.read|
    ensures InOrder(Run(job, Initial(job, start), steps).phases)
  {
    if steps != [] {
      DispatchedInOrder(job, start, Front(steps));
      StepKeepsOrder(job, Run(job, Initial(job, start), Front(steps)), Last(steps));
    }
  }

  lemma {:induction false} StepKeepsOrder(job: Job, s: State, step: Step)
    requires |job.ids| == |job.read| == |s.phases| && InOrder(s.phases)
    ensures InOrder(Apply(job, s, step).phases)
  {
    var phases := Apply(job, s, step).phases;
    forall i, j | 0 <= i < j < |phases| && phases[i].Waiting?
      ensures phases[j].Waiting?
    {
      WaitingMeans(job, s, step, i);
      WaitingMeans(job, s, step, j);
    }
  }

  /** A waiting worker is dispatched exactly when the one before it has been and fewer than five are busy. */
  lemma {:induction false} WaitingMeans(job: Job, s: State, step: Step, i: nat)
    requires |job.ids| == |job.read| == |s.phases| && i < |s.phases|
    ensures Apply(job, s, step).phases[i].Waiting? <==>
              s.phases[i].Waiting? &&
              !(step == Dispatch(i) && (i == 0 || !s.phases[i - 1].Waiting?) && |InPhase(s.phases, ACTIVE)| < 5)
  {
  }

  // ---------------------------------------------------------------- every schedule ends

  function Rank(p: Phase): nat {
    match p
    case Waiting => 5
    case Started => 4
    case Claimed => 3
    case Granted => 3
    case ToReview => 2
    case NeedIncrement => 1
    case Finished(_) => 0
  }

  function TotalRank(phases: seq<Phase>): nat {
    if phases == [] then 0 else Rank(phases[0]) + TotalRank(phases[1..])
  }

  lemma {:induction false} RankMove(phases: seq<Phase>, i: nat, p: Phase)
    requires i < |phases|
    ensures TotalRank(phases[i := p]) + Rank(phases[i]) == TotalRank(phases) + Rank(p)
  {
    if i == 0 {
      assert phases[0 := p][1..] == phases[1..];
    } else {
      assert phases[i := p][1..] == phases[1..][i - 1 := p];
      RankMove(phases[1..], i - 1, p);
    }
  }

  /** Work left, iterations still to be granted included. */
  function WorkLeft(job: Job, s: State): int
    requires job.maxIterations >= 1
  {
    TotalRank(s.phases) + 3 * (job.maxIterations - 1 - Min(s.iterations, job.maxIterations - 1))
      + if s.settled == None then 1 else 0
  }

  /** One worker's action lowers its rank, or uses up an iteration. */
  lemma {:induction false} WorkDecreases(job: Job, s: State, i: nat, answer: Answer)
    requires i < |job.ids| == |job.read| == |s.phases| && job.maxIterations >= 1
    requires WorkerStep(job, s, i, answer) != s
    ensures var s' := WorkerStep(job, s, i, answer);
            && s'.settled == s.settled
            && s'.phases == s.phases[i := s'.phases[i]]
            && Rank(s'.phases[i]) + 3 * (job.maxIterations - 1 - Min(s'.iterations, job.maxIterations - 1))
               < Rank(s.phases[i]) + 3 * (job.maxIterations - 1 - Min(s.iterations, job.maxIterations - 1))
  {
  }

  lemma {:induction false} EveryMoveDecreases(job: Job, s: State, step: Step)
    requires |job.ids| == |job.read| == |s.phases| && job.maxIterations >= 1
    requires Apply(job, s, step) != s
    ensures 0 <= WorkLeft(job, Apply(job, s, step)) < WorkLeft(job, s)
  {
    match step
    case Dispatch(i) =>
      RankMove(s.phases, i, Started);
    case Work(i, answer) =>
      WorkDecreases(job, s, i, answer);
      RankMove(s.phases, i, Apply(job, s, step).phases[i]);
    case Settle =>
  }

  /** The steps of a schedule that do something. */
  function Moves(job: Job, s: State, steps: seq<Step>): nat
    requires |job.ids| == |job.read| == |s.phases|
  {
    if steps == [] then 0
    else Moves(job, s, Front(steps))
         + if Apply(job, Run(job, s, Front(steps)), Last(steps)) != Run(job, s, Front(steps)) then 1 else 0
  }

  lemma {:induction false} MovesBounded(job: Job, s: State, steps: seq<Step>)
    requires |job.ids| == |job.read| == |s.phases| && job.maxIterations >= 1
    ensures Moves(job, s, steps) + WorkLeft(job, Run(job, s, steps)) <= WorkLeft(job, s)
  {
    if steps != [] {
      MovesBounded(job, s, Front(steps));
      var before := Run(job, s, Front(steps));
      if Apply(job, before, Last(steps)) != before {
        EveryMoveDecreases(job, before, Last(steps));
      }
    }
  }

  lemma {:induction false} AllWaitingRank(n: nat)
    ensures TotalRank(seq(n, _ => Waiting)) == 5 * n
  {
    if n > 0 {
      AllWaitingRank(n - 1);
      assert seq(n, _ => Waiting)[1..] == seq(n - 1, _ => Waiting);
    }
  }

  /** No schedule goes on forever: at most 5n + 3(m - 1) + 1 steps do anything. */
  lemma {:induction false} EveryScheduleEnds(job: Job, start: Statuses, steps: seq<Step>)
    requires |job.ids| == |job.read| && job.maxIterations >= 1
    ensures Moves(job, Initial(job, start), steps) <= 5 * |job.ids| + 3 * (job.maxIterations - 1) + 1
  {
    MovesBounded(job, Initial(job, start), steps);
    AllWaitingRank(|job.ids|);
    assert Initial(job, start).phases == seq(|job.ids|, _ => Waiting);
  }

  /** And none gets stuck: until the layer is settled some step can be taken. */
  lemma {:induction false} NoDeadlock(job: Job, s: State) returns (step: Step)
    requires |job.ids| == |job.read| == |s.phases| && s.settled == None
    ensures Apply(job, s, step) != s
  {
    if exists i :: 0 <= i < |s.phases| && Active(s.phases[i]) {
      var i :| 0 <= i < |s.phases| && Active(s.phases[i]);
      step := Work(i, Good);
      assert WorkerStep(job, s, i, Good).phases[i] != s.phases[i];
    } else if exists i :: 0 <= i < |s.phases| && s.phases[i].Waiting? {
      var i :| 0 <= i < |s.phases| && s.phases[i].Waiting?;
      while i > 0 && s.phases[i - 1].Waiting?
        invariant 0 <= i < |s.phases| && s.phases[i].Waiting?
      {
        i := i - 1;
      }
      step := Dispatch(i);
      assert InPhase(s.phases, ACTIVE) == {};
      assert Apply(job, s, step).phases[i] != s.phases[i];
    } else {
      step := Settle;
    }
  }
}
