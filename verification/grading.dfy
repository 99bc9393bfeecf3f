/**
 Grading: late penalties, waiver badges and the weighted course average, over the reals.
 */
module Grading {
  import opened Prelude

  const DEFAULT_RATE: real := 0.05
  const HOURS_PER_DAY: real := 24.0

  // ---------------------------------------------------------------- scores

  function Ceil(x: real): int {
    -((-x).Floor)
  }

  /** Times are in hours; no due date means no lateness. */
  function LateDays(submitted: real, due: Option<real>): (days: nat)
    ensures days == 0 <==> due.None? || submitted <= due.value
  {
    if due.Some? && submitted > due.value then
      CeilBounds((submitted - due.value) / HOURS_PER_DAY);
      Ceil((submitted - due.value) / HOURS_PER_DAY)
    else 0
  }

  lemma {:induction false} CeilBounds(x: real)
    ensures Ceil(x) as real - 1.0 < x <= Ceil(x) as real
  {
  }

  function EffectiveRate(configured: real): real {
    if configured == 0.0 then DEFAULT_RATE else configured
  }

  function Deduction(raw: real, rate: real, days: nat): real {
    raw * rate * days as real
  }

  function Penalty(raw: real, rate: real, days: nat): real {
    if days == 0 then 0.0
    else if Deduction(raw, rate, days) > raw then raw
    else Deduction(raw, rate, days)
  }

  function Clamped(score: real): real {
    if score < 0.0 then 0.0 else if score > 100.0 then 100.0 else score
  }

  datatype Grade = Grade(raw: real, lateDays: nat, rate: real, penalty: real, waived: bool, final: real)

  /** The grade that is stored. */
  function GradeOf(raw: real, rate: real, days: nat, waived: bool): Grade {
    var penalty := if waived then 0.0 else Penalty(raw, rate, days);
    Grade(raw, days, rate, penalty, waived, Clamped(raw - penalty))
  }

  /** The final score of a submission for which no waiver is used. */
  function Final(raw: real, configuredRate: real, submitted: real, due: Option<real>): real {
    GradeOf(raw, EffectiveRate(configuredRate), LateDays(submitted, due), false).final
  }

  lemma {:induction false} ProductGrows(a: real, b: real, c: real)
    requires 0.0 <= a && b <= c
    ensures a * b <= a * c
  {
  }

  /** A day is counted as soon as it has begun. */
  lemma {:induction false} LateDaysCount(submitted: real, due: real, days: nat)
    requires submitted > due
    ensures LateDays(submitted, Some(due)) == days <==>
            (days as real - 1.0) * 24.0 < submitted - due <= days as real * 24.0
  {
  }

  lemma {:induction false} PenaltyBounds(raw: real, rate: real, days: nat)
    requires 0.0 <= raw && 0.0 <= rate
    ensures 0.0 <= Penalty(raw, rate, days) <= raw
    ensures Penalty(raw, rate, days) == raw <==> raw == 0.0 || rate * days as real >= 1.0
  {
  }

  /** The final score lies between nothing and the raw score, is the raw score when in time or waived, and is
      nothing exactly when the penalty has eaten it up. */
  lemma {:induction false} FinalInRange(raw: real, configuredRate: real, submitted: real, due: Option<real>)
    requires 0.0 <= raw <= 100.0 && 0.0 <= configuredRate
    ensures 0.0 <= Final(raw, configuredRate, submitted, due) <= raw
    ensures LateDays(submitted, due) == 0 ==> Final(raw, configuredRate, submitted, due) == raw
    ensures GradeOf(raw, EffectiveRate(configuredRate), LateDays(submitted, due), true).final == raw
    ensures Final(raw, configuredRate, submitted, due) == 0.0 <==>
            raw == 0.0 || EffectiveRate(configuredRate) * LateDays(submitted, due) as real >= 1.0
  {
    PenaltyBounds(raw, EffectiveRate(configuredRate), LateDays(submitted, due));
  }

  /** A late submission loses the rate for each day begun, 5% when none is configured, until nothing is
      left. */
  lemma {:induction false} FinalExact(raw: real, configuredRate: real, submitted: real, due: Option<real>)
    requires 0.0 <= raw <= 100.0 && 0.0 <= configuredRate
    ensures var lost := (if configuredRate > 0.0 then configuredRate else 0.05) * LateDays(submitted, due) as real;
            Final(raw, configuredRate, submitted, due) == if lost <= 1.0 then raw * (1.0 - lost) else 0.0
  {
    var rate, days := EffectiveRate(configuredRate), LateDays(submitted, due);
    PenaltyExact(raw, rate, days);
    LeftOver(raw, rate * days as real);
  }

  lemma {:induction false} PenaltyExact(raw: real, rate: real, days: nat)
    requires 0.0 <= raw && 0.0 <= rate
    ensures Penalty(raw, rate, days) == raw * (if rate * days as real <= 1.0 then rate * days as real else 1.0)
  {
    var share := rate * days as real;
    assert Deduction(raw, rate, days) == raw * share;
    if share <= 1.0 {
      ProductGrows(raw, share, 1.0);
    } else {
      ProductGrows(raw, 1.0, share);
    }
  }

  lemma {:induction false} LeftOver(raw: real, share: real)
    ensures raw - raw * share == raw * (1.0 - share)
    ensures 0.0 <= raw <= 100.0 && 0.0 <= share <= 1.0 ==> 0.0 <= raw * (1.0 - share) <= 100.0
  {
    if 0.0 <= raw <= 100.0 && 0.0 <= share <= 1.0 {
      ProductGrows(raw, 1.0 - share, 1.0);
      ProductGrows(raw, 0.0, 1.0 - share);
    }
  }

  /** Handing in later never pays. */
  lemma {:induction false} LaterIsNoBetter(raw: real, configuredRate: real, early: real, late: real, due: Option<real>)
    requires 0.0 <= raw <= 100.0 && 0.0 <= configuredRate && early <= late
    ensures Final(raw, configuredRate, late, due) <= Final(raw, configuredRate, early, due)
  {
    var rate, a, b := EffectiveRate(configuredRate), LateDays(early, due), LateDays(late, due);
    DaysGrow(early, late, due);
    PenaltyGrows(raw, rate, a, b);
  }

  lemma {:induction false} PenaltyGrows(raw: real, rate: real, a: nat, b: nat)
    requires 0.0 <= raw && 0.0 <= rate && a <= b
    ensures Penalty(raw, rate, a) <= Penalty(raw, rate, b)
  {
    DeductionGrows(raw, rate, a, b);
    PenaltyBounds(raw, rate, b);
  }

  lemma {:induction false} DeductionGrows(raw: real, rate: real, a: nat, b: nat)
    requires 0.0 <= raw && 0.0 <= rate && a <= b
    ensures Deduction(raw, rate, a) <= Deduction(raw, rate, b)
  {
  }

  lemma {:induction false} DaysGrow(early: real, late: real, due: Option<real>)
    requires early <= late
    ensures LateDays(early, due) <= LateDays(late, due)
  {
  }

  // ---------------------------------------------------------------- badges and grades

  type Student = nat
  type BadgeId = nat
  type Submission = nat

  datatype Reward = LatePenaltyWaiver | GradeImprovement | OtherReward

  datatype Badge = Badge(reward: Reward, value: real, redeemedFor: Option<Submission>)

  /** A badge row: at most one for a student and a badge. */
  datatype Key = Key(student: Student, badge: BadgeId)

  predicate Unredeemed(badges: map<Key, Badge>, key: Key) {
    key in badges && badges[key].redeemedFor.None?
  }

  predicate FreeWaiver(badges: map<Key, Badge>, key: Key) {
    Unredeemed(badges, key) && badges[key].reward == LatePenaltyWaiver
  }

  /** The free waiver that was awarded first. */
  ghost predicate FirstFreeWaiver(badges: map<Key, Badge>, held: seq<Key>, key: Key) {
    exists i :: 0 <= i < |held| && held[i] == key && FreeWaiver(badges, key)
                && forall k :: 0 <= k < i ==> !FreeWaiver(badges, held[k])
  }

  /** UPDATE ... SET redeemed WHERE redeemed IS NULL. */
  function Redeemed(badges: map<Key, Badge>, key: Key, submission: Submission): map<Key, Badge> {
    if Unredeemed(badges, key) then badges[key := badges[key].(redeemedFor := Some(submission))] else badges
  }

  /** The tables and the operations on them while nobody interferes. */
  class GradeService {
    var badges: map<Key, Badge>
    var grades: map<Submission, Grade>

    constructor ()
      ensures badges == map[] && grades == map[]
    {
      badges, grades := map[], map[];
    }

    method AwardBadge(key: Key, reward: Reward, value: real) returns (ok: bool)
      modifies this`badges
      ensures ok <==> key !in old(badges)
      ensures badges == if ok then old(badges)[key := Badge(reward, value, None)] else old(badges)
    {
      ok := key !in badges;
      if ok {
        badges := badges[key := Badge(reward, value, None)];
      }
    }

    method RedeemBadge(key: Key, submission: Submission) returns (ok: bool)
      modifies this`badges
      ensures ok <==> Unredeemed(old(badges), key)
      ensures badges == Redeemed(old(badges), key, submission)
      ensures badges.Keys == old(badges).Keys && !Unredeemed(badges, key)
      ensures ok ==> badges[key].redeemedFor == Some(submission)
                     && badges[key].reward == old(badges)[key].reward && badges[key].value == old(badges)[key].value
      ensures forall other :: other in badges && other != key ==> badges[other] == old(badges)[other]
    {
      ok := key in badges && badges[key].redeemedFor.None?;
      if ok {
        badges := badges[key := badges[key].(redeemedFor := Some(submission))];
      }
    }

    /** The badges of the student in the order of being awarded. */
    method FindUnredeemedWaiverBadge(held: seq<Key>) returns (found: Option<Key>)
      requires forall key :: key in held ==> key in badges
      ensures match found
              case None => forall key :: key in held ==> !FreeWaiver(badges, key)
              case Some(key) => FirstFreeWaiver(badges, held, key)
    {
      for i := 0 to |held|
        invariant forall k :: 0 <= k < i ==> !FreeWaiver(badges, held[k])
      {
        var key := held[i];
        if badges[key].reward == LatePenaltyWaiver && badges[key].redeemedFor.None? {
          assert FirstFreeWaiver(badges, held, held[i]);
          return Some(key);
        }
      }
      found := None;
    }

    method ComputeAndStoreGrade(
      submission: Submission, student: Student, held: seq<Key>,
      raw: real, configuredRate: real, submitted: real, due: Option<real>)
      returns (used: Option<Key>)
      requires forall key :: key in held ==> key in badges && key.student == student
      modifies this
      ensures used.Some? ==>
                && FirstFreeWaiver(old(badges), held, used.value)
                && Penalty(raw, EffectiveRate(configuredRate), LateDays(submitted, due)) > 0.0
      ensures used.None? ==>
                || Penalty(raw, EffectiveRate(configuredRate), LateDays(submitted, due)) <= 0.0
                || forall key :: key in held ==> !FreeWaiver(old(badges), key)
      ensures badges == if used.Some? then Redeemed(old(badges), used.value, submission) else old(badges)
      ensures grades == old(grades)[submission :=
                GradeOf(raw, EffectiveRate(configuredRate), LateDays(submitted, due), used.Some?)]
      ensures var g := grades[submission];
              && g.raw == raw && g.lateDays == LateDays(submitted, due) && g.waived == used.Some?
              && g.rate == (if configuredRate == 0.0 then 0.05 else configuredRate)
              && (used.Some? ==> g.penalty == 0.0)
              && (used.None? ==> g.penalty == Penalty(raw, g.rate, g.lateDays))
              && (0.0 <= raw - g.penalty <= 100.0 ==> g.final == raw - g.penalty)
              && (raw - g.penalty < 0.0 ==> g.final == 0.0) && (raw - g.penalty > 100.0 ==> g.final == 100.0)
    {
      var lateDays := LateDays(submitted, due);
      var rate := configuredRate;
      if rate == 0.0 {
        rate := DEFAULT_RATE;
      }
      var penalty := 0.0;
      if lateDays > 0 {
        penalty := Deduction(raw, rate, lateDays);
        if penalty > raw {
          penalty := raw;
        }
      }
      assert penalty == Penalty(raw, rate, lateDays);
      used := None;
      if penalty > 0.0 {
        var found := FindUnredeemedWaiverBadge(held);
        if found.Some? {
          var ok := RedeemBadge(found.value, submission);
          if ok {
            penalty := 0.0;
            used := found;
          }
        }
      }
      assert penalty == GradeOf(raw, rate, lateDays, used.Some?).penalty;
      var final := raw - penalty;
      if final < 0.0 {
        final := 0.0;
      }
      if final > 100.0 {
        final := 100.0;
      }
      grades := grades[submission := Grade(raw, lateDays, rate, penalty, used.Some?, final)];
    }

    /** The course score with the unredeemed improvement badges added. */
    method ImprovedScore(weighted: real, held: seq<Key>) returns (score: real)
      requires forall key :: key in held ==> key in badges
      ensures score == WithImprovement(weighted, Improvement(badges, held))
    {
      var improvement := 0.0;
      for i := 0 to |held|
        invariant improvement == Improvement(badges, held[..i])
      {
        assert Front(held[..i + 1]) == held[..i];
        if badges[held[i]].reward == GradeImprovement && badges[held[i]].redeemedFor.None? {
          improvement := improvement + badges[held[i]].value;
        }
      }
      assert held[..|held|] == held;
      score := weighted;
      if improvement > 0.0 {
        score := weighted + improvement;
        if score > 100.0 {
          score := 100.0;
        }
      }
    }
  }

  // ---------------------------------------------------------------- concurrent grading

  datatype Phase = Graded | Looking | Chosen(key: Key) | Waived(key: Key) | Unwaived

  /** One grading call: its submission and student, the penalty it has computed, how far it is. */
  datatype Call = Call(submission: Submission, student: Student, penalty: real, phase: Phase)

  datatype State = State(badges: map<Key, Badge>, calls: seq<Call>)

  /** Begin starts a call that has computed its penalty.  Choose is the search, which may find any
      free waiver of the student, or none.  Award and UseBadge are other requests. */
  datatype Step =
    | Begin(submission: Submission, student: Student, penalty: real)
    | Choose(c: nat, choice: Option<Key>)
    | Redeem(c: nat)
    | Award(key: Key, reward: Reward, value: real)
    | UseBadge(key: Key, submission: Submission)

  function SetPhase(s: State, c: nat, phase: Phase): State
    requires c < |s.calls|
  {
    s.(calls := s.calls[c := s.calls[c].(phase := phase)])
  }

  function Apply(s: State, step: Step): State {
    match step
    case Begin(submission, student, penalty) =>
      s.(calls := s.calls + [Call(submission, student, penalty, if penalty > 0.0 then Looking else Graded)])
    case Choose(c, choice) =>
      if c < |s.calls| && s.calls[c].phase == Looking then
        match choice
        case None => SetPhase(s, c, Unwaived)
        case Some(key) =>
          if FreeWaiver(s.badges, key) && key.student == s.calls[c].student then SetPhase(s, c, Chosen(key)) else s
      else
        s
    case Redeem(c) =>
      if c < |s.calls| && s.calls[c].phase.Chosen? then
        var key := s.calls[c].phase.key;
        if Unredeemed(s.badges, key) then
          SetPhase(s, c, Waived(key)).(badges := Redeemed(s.badges, key, s.calls[c].submission))
        else
          SetPhase(s, c, Unwaived)
      else
        s
    case Award(key, reward, value) =>
      if key in s.badges then s else s.(badges := s.badges[key := Badge(reward, value, None)])
    case UseBadge(key, submission) => s.(badges := Redeemed(s.badges, key, submission))
  }

  function Run(badges: map<Key, Badge>, steps: seq<Step>): State {
    if steps == [] then State(badges, []) else Apply(Run(badges, Front(steps)), Last(steps))
  }

  ghost predicate IsWaiverOf(badges: map<Key, Badge>, key: Key, student: Student) {
    key in badges && badges[key].reward == LatePenaltyWaiver && key.student == student
  }

  ghost predicate CallInv(s: State, call: Call) {
    match call.phase
    case Chosen(key) => IsWaiverOf(s.badges, key, call.student) && call.penalty > 0.0
    case Waived(key) =>
      && IsWaiverOf(s.badges, key, call.student) && call.penalty > 0.0
      && s.badges[key].redeemedFor == Some(call.submission)
    case Looking => call.penalty > 0.0
    case _ => true
  }

  ghost predicate Inv(s: State) {
    && (forall c :: 0 <= c < |s.calls| ==> CallInv(s, s.calls[c]))
    && forall c, d :: 0 <= c < d < |s.calls| && s.calls[c].phase.Waived? && s.calls[d].phase.Waived?
         ==> s.calls[c].phase.key != s.calls[d].phase.key
  }

  /** Badge rows keep their reward, and a redemption is for good. */
  ghost predicate BadgesKept(before: map<Key, Badge>, after: map<Key, Badge>) {
    forall key :: key in before ==>
      && key in after && after[key].reward == before[key].reward
      && (before[key].redeemedFor.Some? ==> after[key].redeemedFor == before[key].redeemedFor)
  }

  lemma {:induction false} ApplyKeepsInv(s: State, step: Step)
    requires Inv(s)
    ensures Inv(Apply(s, step)) && BadgesKept(s.badges, Apply(s, step).badges)
  {
    var s' := Apply(s, step);
    forall c | 0 <= c < |s'.calls|
      ensures CallInv(s', s'.calls[c])
    {
      if c < |s.calls| {
        assert CallInv(s, s.calls[c]);
      }
    }
    if step.Redeem? && step.c < |s.calls| && s'.calls[step.c].phase.Waived? {
      assert CallInv(s, s.calls[step.c]);
      forall d | 0 <= d < |s.calls| && d != step.c && s.calls[d].phase.Waived? && s.calls[step.c].phase.Chosen?
        ensures s.calls[d].phase.key != s'.calls[step.c].phase.key
      {
        assert CallInv(s, s.calls[d]);
      }
    }
  }

  lemma {:induction false} RunKeepsInv(badges: map<Key, Badge>, steps: seq<Step>)
    ensures Inv(Run(badges, steps))
  {
    if steps != [] {
      RunKeepsInv(badges, Front(steps));
      ApplyKeepsInv(Run(badges, Front(steps)), Last(steps));
    }
  }

  /** Over any interleaving of grading calls, awards and other redemptions, a penalty is only zeroed
      by a waiver of the student's own that is redeemed for that submission, and no badge zeroes the
      penalties of two calls. */
  lemma {:induction false} WaiversAreSpentOnce(badges: map<Key, Badge>, steps: seq<Step>, c: nat)
    requires c < |Run(badges, steps).calls| && Run(badges, steps).calls[c].phase.Waived?
    ensures var s := Run(badges, steps);
            var call := s.calls[c];
            && IsWaiverOf(s.badges, call.phase.key, call.student)
            && s.badges[call.phase.key].redeemedFor == Some(call.submission)
            && forall d :: 0 <= d < |s.calls| && s.calls[d].phase.Waived? && s.calls[d].phase.key == call.phase.key
                 ==> d == c
  {
    RunKeepsInv(badges, steps);
    assert CallInv(Run(badges, steps), Run(badges, steps).calls[c]);
  }

  function Begins(steps: seq<Step>): nat {
    if steps == [] then 0 else Begins(Front(steps)) + if Last(steps).Begin? then 1 else 0
  }

  /** Every request that is made is a call of its own, and it is over without a search exactly when
      there is nothing to deduct. */
  lemma {:induction false} CallsExact(badges: map<Key, Badge>, steps: seq<Step>)
    ensures var s := Run(badges, steps);
            && |s.calls| == Begins(steps)
            && (steps != [] && Last(steps).Begin? ==>
                  var call := Last(s.calls);
                  && call.submission == Last(steps).submission && call.student == Last(steps).student
                  && call.penalty == Last(steps).penalty && (call.penalty > 0.0 ==> call.phase == Looking))
            && forall c :: 0 <= c < |s.calls| ==> (s.calls[c].phase == Graded <==> s.calls[c].penalty <= 0.0)
  {
    if steps != [] {
      CallsExact(badges, Front(steps));
    }
  }

  /** What one step does to a call: its submission, student and penalty stay; a search ends it unwaived
      or with a free waiver of the student's; the redemption waives the penalty exactly when the badge
      is still unredeemed then. */
  lemma {:induction false} CallSteps(s: State, step: Step, c: nat)
    requires c < |s.calls|
    ensures var call, call' := s.calls[c], Apply(s, step).calls[c];
            && call'.submission == call.submission && call'.student == call.student && call'.penalty == call.penalty
            && (call.phase == Looking ==>
                  && (step == Choose(c, None) <==> call'.phase == Unwaived)
                  && (forall key :: call'.phase == Chosen(key) <==>
                        && step == Choose(c, Some(key)) && key.student == call.student
                        && FreeWaiver(s.badges, key))
                  && (call'.phase in {Looking, Unwaived} || call'.phase.Chosen?))
            && (call.phase.Chosen? ==>
                  call'.phase == if step != Redeem(c) then call.phase
                                 else if Unredeemed(s.badges, call.phase.key) then Waived(call.phase.key)
                                 else Unwaived)
            && (call.phase.Graded? || call.phase.Waived? || call.phase.Unwaived? ==> call'.phase == call.phase)
  {
  }

  /** A badge row comes by its award, and is redeemed for good by the first redemption, in a grading call or
      elsewhere. */
  lemma {:induction false} BadgeSteps(s: State, step: Step, key: Key)
    ensures var badges, badges' := s.badges, Apply(s, step).badges;
            && (key !in badges ==>
                  if step.Award? && step.key == key then
                    key in badges' && badges'[key] == Badge(step.reward, step.value, None)
                  else key !in badges')
            && (key in badges ==>
                  && key in badges' && badges'[key].reward == badges[key].reward
                  && badges'[key].value == badges[key].value
                  && badges'[key].redeemedFor ==
                     if badges[key].redeemedFor.Some? then badges[key].redeemedFor
                     else if step.UseBadge? && step.key == key then Some(step.submission)
                     else if step.Redeem? && step.c < |s.calls| && s.calls[step.c].phase == Chosen(key) then
                       Some(s.calls[step.c].submission)
                     else None)
  {
  }

  // ---------------------------------------------------------------- the course average

  /** A graded homework: its weight and final score. */
  datatype Weighted = Weighted(weight: real, score: real)

  function TotalWeight(rows: seq<Weighted>): real {
    if rows == [] then 0.0 else TotalWeight(rows[1..]) + rows[0].weight
  }

  function WeightedSum(rows: seq<Weighted>): real {
    if rows == [] then 0.0 else WeightedSum(rows[1..]) + rows[0].score * rows[0].weight
  }

  function Average(rows: seq<Weighted>): real {
    if TotalWeight(rows) == 0.0 then 0.0 else WeightedSum(rows) / TotalWeight(rows)
  }

  lemma {:induction false} SumWithin(rows: seq<Weighted>, lo: real, hi: real)
    requires forall i :: 0 <= i < |rows| ==> rows[i].weight > 0.0 && lo <= rows[i].score <= hi
    ensures rows != [] ==> TotalWeight(rows) > 0.0
    ensures lo * TotalWeight(rows) <= WeightedSum(rows) <= hi * TotalWeight(rows)
  {
    if rows != [] {
      var w, x, rest := rows[0].weight, rows[0].score, rows[1..];
      SumWithin(rest, lo, hi);
      ProductGrows(w, lo, x);
      ProductGrows(w, x, hi);
      Distributes(lo, TotalWeight(rest), w);
      Distributes(hi, TotalWeight(rest), w);
    }
  }

  lemma {:induction false} Distributes(a: real, b: real, c: real)
    ensures a * (b + c) == a * b + c * a
  {
  }

  /** With positive weights the course average lies between any bounds of the final scores, the
      least and the greatest of them in particular. */
  lemma {:induction false} AverageWithin(rows: seq<Weighted>, lo: real, hi: real)
    requires rows != []
    requires forall i :: 0 <= i < |rows| ==> rows[i].weight > 0.0 && lo <= rows[i].score <= hi
    ensures lo <= Average(rows) <= hi
  {
    SumWithin(rows, lo, hi);
    var total, sum := TotalWeight(rows), WeightedSum(rows);
    QuotientWithin(sum, total, lo, hi);
  }

  lemma {:induction false} QuotientWithin(sum: real, total: real, lo: real, hi: real)
    requires total > 0.0 && lo * total <= sum <= hi * total
    ensures lo <= sum / total <= hi
  {
  }

  function Improvement(badges: map<Key, Badge>, held: seq<Key>): real
    requires forall key :: key in held ==> key in badges
  {
    if held == [] then 0.0
    else
      var badge := badges[Last(held)];
      Improvement(badges, Front(held))
        + if badge.reward == GradeImprovement && badge.redeemedFor.None? then badge.value else 0.0
  }

  function WithImprovement(weighted: real, improvement: real): real {
    if improvement > 0.0 then (if weighted + improvement > 100.0 then 100.0 else weighted + improvement) else weighted
  }

  /** A single badge adds its value exactly when it is an unredeemed improvement. */
  lemma {:induction false} ImprovementOfOne(badges: map<Key, Badge>, key: Key)
    requires key in badges
    ensures badges[key].reward == GradeImprovement && badges[key].redeemedFor == None ==>
              Improvement(badges, [key]) == badges[key].value
    ensures badges[key].reward != GradeImprovement || badges[key].redeemedFor.Some? ==>
              Improvement(badges, [key]) == 0.0
  {
    assert Front([key]) == [];
  }

  /** And the badges of two lists add up. */
  lemma {:induction false} ImprovementJoins(badges: map<Key, Badge>, a: seq<Key>, b: seq<Key>)
    requires forall key :: key in a || key in b ==> key in badges
    ensures Improvement(badges, a + b) == Improvement(badges, a) + Improvement(badges, b)
  {
    if b == [] {
      assert a + b == a;
    } else {
      assert Front(a + b) == a + Front(b);
      ImprovementJoins(badges, a, Front(b));
    }
  }

  /** An improvement that is worth something is added, up to 100. */
  lemma {:induction false} ImprovementCapped(weighted: real, improvement: real)
    ensures improvement <= 0.0 ==> WithImprovement(weighted, improvement) == weighted
    ensures improvement > 0.0 && weighted + improvement <= 100.0 ==>
              WithImprovement(weighted, improvement) == weighted + improvement
    ensures improvement > 0.0 && weighted + improvement > 100.0 ==> WithImprovement(weighted, improvement) == 100.0
  {
  }

  /** The course score after improvements: never below the average, never above 100, and 0 when
      nothing has been graded and nothing improved. */
  lemma {:induction false} CourseScoreInRange(rows: seq<Weighted>, improvement: real)
    requires forall i :: 0 <= i < |rows| ==> rows[i].weight > 0.0 && 0.0 <= rows[i].score <= 100.0
    ensures 0.0 <= Average(rows) <= WithImprovement(Average(rows), improvement) <= 100.0
    ensures rows == [] ==> Average(rows) == 0.0
  {
    if rows != [] {
      AverageWithin(rows, 0.0, 100.0);
    }
  }

  /** The average does not depend on the order in which the rows are added up. */
  lemma {:induction false} AverageIgnoresOrder(a: seq<Weighted>, b: seq<Weighted>)
    requires multiset(a) == multiset(b)
    ensures Average(a) == Average(b)
  {
    SumsIgnoreOrder(a, b);
  }

  lemma {:induction false} SumsIgnoreOrder(a: seq<Weighted>, b: seq<Weighted>)
    requires multiset(a) == multiset(b)
    ensures TotalWeight(a) == TotalWeight(b) && WeightedSum(a) == WeightedSum(b)
  {
    assert |a| == |multiset(a)| == |multiset(b)| == |b|;
    if a != [] {
      var k := Position(a, b);
      SameRest(a, b, k);
      SumsIgnoreOrder(a[1..], b[..k] + b[k + 1..]);
      SumsWithout(b, k);
    }
  }

  lemma {:induction false} Position(a: seq<Weighted>, b: seq<Weighted>) returns (k: nat)
    requires multiset(a) == multiset(b) && a != []
    ensures k < |b| && b[k] == a[0]
  {
    assert a[0] in multiset(b);
    k :| 0 <= k < |b| && b[k] == a[0];
  }

  lemma {:induction false} SameRest(a: seq<Weighted>, b: seq<Weighted>, k: nat)
    requires multiset(a) == multiset(b) && a != [] && k < |b| && b[k] == a[0]
    ensures multiset(a[1..]) == multiset(b[..k] + b[k + 1..])
  {
    assert a == [a[0]] + a[1..] && b == b[..k] + [b[k]] + b[k + 1..];
    assert multiset(a) == multiset{a[0]} + multiset(a[1..]);
    assert multiset(b) == multiset(b[..k]) + multiset{b[k]} + multiset(b[k + 1..]);
    assert multiset(b[..k] + b[k + 1..]) == multiset(b) - multiset{b[k]};
  }

  lemma {:induction false} SumsWithout(b: seq<Weighted>, k: nat)
    requires k < |b|
    ensures var rest := b[..k] + b[k + 1..];
            && TotalWeight(b) == TotalWeight(rest) + b[k].weight
            && WeightedSum(b) == WeightedSum(rest) + b[k].score * b[k].weight
  {
    var rest := b[..k] + b[k + 1..];
    if k == 0 {
      assert rest == b[1..];
    } else {
      SumsWithout(b[1..], k - 1);
      assert rest[1..] == b[1..][..k - 1] + b[1..][k..];
      assert rest[0] == b[0];
    }
  }

  // ---------------------------------------------------------------- homework and its weights

  /** A homework row with its due date, in days. */
  datatype Homework = Homework(section: nat, title: string, weight: real, due: int)

  /** One homework for each section title, due a week after the one before; None when the syllabus
      has no sections. */
  method AssignDueDates(titles: seq<string>, today: int) returns (result: Option<seq<Homework>>)
    ensures result.None? <==> titles == []
    ensures result.Some? ==> |result.value| == |titles|
    ensures result.Some? ==> forall i :: 0 <= i < |titles| ==>
              result.value[i] == Homework(i, titles[i], 1.0 / |titles| as real, today + 7 * (i + 1))
  {
    if |titles| == 0 {
      return None;
    }
    var weight := 1.0 / |titles| as real;
    var rows: seq<Homework> := [];
    for i := 0 to |titles|
      invariant |rows| == i
      invariant forall k :: 0 <= k < i ==> rows[k] == Homework(k, titles[k], weight, today + 7 * (k + 1))
    {
      rows := rows + [Homework(i, titles[i], weight, today + 7 * (i + 1))];
    }
    result := Some(rows);
  }

  function PlainSum(rows: seq<Weighted>): real {
    if rows == [] then 0.0 else PlainSum(rows[1..]) + rows[0].score
  }

  lemma {:induction false} EqualWeights(rows: seq<Weighted>, w: real)
    requires forall i :: 0 <= i < |rows| ==> rows[i].weight == w
    ensures TotalWeight(rows) == |rows| as real * w && WeightedSum(rows) == PlainSum(rows) * w
  {
    if rows != [] {
      var rest := rows[1..];
      EqualWeights(rest, w);
      assert |rows| as real == |rest| as real + 1.0;
      Distributes(w, |rest| as real, 1.0);
      Distributes(w, PlainSum(rest), rows[0].score);
    }
  }

  /** With the assigned weights, the course average of the homework graded so far is the plain mean
      of its final scores; and when everything is graded the weights add up to one. */
  lemma {:induction false} AssignedWeightsGiveMean(rows: seq<Weighted>, sections: nat)
    requires 0 < |rows| <= sections
    requires forall i :: 0 <= i < |rows| ==> rows[i].weight == 1.0 / sections as real
    ensures Average(rows) == PlainSum(rows) / |rows| as real
    ensures |rows| == sections ==> TotalWeight(rows) == 1.0
  {
    var n, k, sum := sections as real, |rows| as real, PlainSum(rows);
    EqualWeights(rows, 1.0 / n);
    assert 1.0 / n > 0.0;
    CancelWeight(sum, k, 1.0 / n);
  }

  lemma {:induction false} CancelWeight(sum: real, k: real, w: real)
    requires k > 0.0 && w > 0.0
    ensures k * w > 0.0 && (sum * w) / (k * w) == sum / k
  {
    ProductPositive(k, w);
    var q := sum / k;
    assert q * k == sum;
    assert sum * w == q * (k * w);
  }

  lemma {:induction false} ProductPositive(a: real, b: real)
    requires a > 0.0 && b > 0.0
    ensures a * b > 0.0
  {
  }
}
