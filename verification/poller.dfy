/**
 The runners of layered courses.  Every tick of the poller lists up to twenty courses that are
 generating or to be regenerated, and starts a runner for each that has none in flight.  A course
 whose syllabus has just been approved gets a seeding runner, which generates the first layer
 itself and is not recorded as in flight.

 Runners end, and courses are changed, at any moment in between.
 */
module Poller {
  import opened Prelude
  import opened CourseTree

  type Course = nat

  const BATCH := 20

  datatype Runner = Runner(course: Course, seeding: bool)

  /** Field written remembers the courses whose status was written since the last listing. */
  datatype State = State(
    status: map<Course, CourseStatus>,
    inFlight: set<Course>,
    runners: seq<Runner>,
    listed: seq<Course>,
    written: set<Course>)

  datatype Step =
    | List(rows: seq<Course>)
    | Dispatch
    | Seed(course: Course)
    | End(runner: nat, status: CourseStatus)
    | Change(course: Course, status: CourseStatus)

  const EMPTY := State(map[], {}, [], [], {})

  predicate Due(status: map<Course, CourseStatus>, course: Course) {
    course in status && status[course] in {CourseGenerating, AwaitingRegeneration}
  }

  predicate ReadyToSeed(status: map<Course, CourseStatus>, course: Course) {
    course in status && status[course] == SyllabusApproved
  }

  function Without(runners: seq<Runner>, i: nat): seq<Runner>
    requires i < |runners|
  {
    runners[..i] + runners[i + 1..]
  }

  /** One listed course: skipped when a runner of it is recorded as in flight. */
  function DispatchNext(s: State): State
    requires s.listed != []
  {
    var course, rest := s.listed[0], s.(listed := s.listed[1..]);
    if course in s.inFlight then rest
    else rest.(inFlight := s.inFlight + {course}, runners := s.runners + [Runner(course, false)])
  }

  function EndRunner(s: State, i: nat, status: CourseStatus): State
    requires i < |s.runners|
  {
    var r := s.runners[i];
    s.(status := s.status[r.course := status],
       inFlight := if r.seeding then s.inFlight else s.inFlight - {r.course},
       runners := Without(s.runners, i), written := s.written + {r.course})
  }

  ghost function Apply(s: State, step: Step): State {
    match step
    case List(rows) =>
      if s.listed == [] && |rows| <= BATCH && Distinct(rows) && forall c :: c in rows ==> Due(s.status, c) then
        s.(listed := rows, written := {})
      else
        s
    case Dispatch => if s.listed == [] then s else DispatchNext(s)
    case Seed(course) =>
      if ReadyToSeed(s.status, course) then s.(runners := s.runners + [Runner(course, true)]) else s
    case End(i, status) => if i < |s.runners| then EndRunner(s, i, status) else s
    case Change(course, status) =>
      s.(status := s.status[course := status], written := s.written + {course})
  }

  ghost function Run(steps: seq<Step>): State {
    if steps == [] then EMPTY else Apply(Run(Front(steps)), Last(steps))
  }

  lemma {:induction false} RunOneMore(steps: seq<Step>, step: Step)
    ensures Run(steps + [step]) == Apply(Run(steps), step)
  {
    assert Front(steps + [step]) == steps;
  }

  ghost predicate Live(s: State, course: Course) {
    exists i :: 0 <= i < |s.runners| && s.runners[i].course == course
  }

  ghost predicate SeedingLive(s: State, course: Course) {
    exists i :: 0 <= i < |s.runners| && s.runners[i] == Runner(course, true)
  }

  // ---------------------------------------------------------------- what the guard keeps

  /** No two runners that the poller started are of the same course. */
  ghost predicate PolledApart(runners: seq<Runner>) {
    forall i, j :: 0 <= i < j < |runners| && !runners[i].seeding && !runners[j].seeding ==>
      runners[i].course != runners[j].course
  }

  ghost predicate Inv(s: State) {
    && PolledApart(s.runners)
    && (forall c :: c in s.inFlight <==> Runner(c, false) in s.runners)
    && (forall c :: c in s.listed ==> c in s.written || Due(s.status, c))
  }

  lemma {:induction false} WithoutOne(runners: seq<Runner>, i: nat)
    requires i < |runners| && PolledApart(runners)
    ensures PolledApart(Without(runners, i))
    ensures forall c :: Runner(c, false) in Without(runners, i) <==>
              Runner(c, false) in runners && runners[i] != Runner(c, false)
  {
    var left := Without(runners, i);
    assert forall j :: 0 <= j < i ==> left[j] == runners[j];
    assert forall j :: i <= j < |left| ==> left[j] == runners[j + 1];
    forall c
      ensures Runner(c, false) in left <==> Runner(c, false) in runners && runners[i] != Runner(c, false)
    {
      if j :| 0 <= j < |runners| && j != i && runners[j] == Runner(c, false) {
        assert left[if j < i then j else j - 1] == Runner(c, false);
      }
    }
  }

  lemma {:induction false} RunKeepsInv(steps: seq<Step>)
    ensures Inv(Run(steps))
  {
    if steps != [] {
      RunKeepsInv(Front(steps));
      var s := Run(Front(steps));
      if Last(steps).End? && Last(steps).runner < |s.runners| {
        WithoutOne(s.runners, Last(steps).runner);
      }
    }
  }

  /** In every run a course has at most one runner that the poller started, and a listed course gets
      one exactly when it has none of them. */
  lemma {:induction false} OnePolledRunnerPerCourse(steps: seq<Step>)
    ensures var s := Run(steps);
            && PolledApart(s.runners)
            && (s.listed != [] ==>
                  var r := Runner(s.listed[0], false);
                  DispatchNext(s).runners == if r in s.runners then s.runners else s.runners + [r])
  {
    RunKeepsInv(steps);
  }

  /** A course for which a runner is started is still due unless its status was written after the
      listing. */
  lemma {:induction false} DispatchedIsDue(steps: seq<Step>)
    requires Run(steps).listed != [] && Run(steps).listed[0] !in Run(steps).written
    ensures Due(Run(steps).status, Run(steps).listed[0])
  {
    RunKeepsInv(steps);
    assert Run(steps).listed[0] in Run(steps).listed;
  }

  /** A listing is taken when the last one has been worked off, and exactly when it names at most twenty
      courses, none twice, each generating or to be regenerated; it replaces nothing else. */
  lemma {:induction false} ListsExactly(s: State, rows: seq<Course>)
    requires s.listed == []
    ensures var s' := Apply(s, List(rows));
            && s'.runners == s.runners && s'.inFlight == s.inFlight && s'.status == s.status
            && s'.listed == if && |rows| <= 20 && Distinct(rows)
                               && forall c :: c in rows ==>
                                    && c in s.status
                                    && (s.status[c] == CourseGenerating || s.status[c] == AwaitingRegeneration)
                            then rows else []
  {
  }

  /** A course is seeded exactly when its status says that its syllabus is approved. */
  lemma {:induction false} SeedsExactly(s: State, course: Course)
    ensures Apply(s, Seed(course)).runners
            == s.runners + (if course in s.status && s.status[course] == SyllabusApproved then [Runner(course, true)]
                            else [])
  {
    assert s.runners + [] == s.runners;
  }

  /** While a listing is worked off no other is taken, and courses leave it in order. */
  lemma {:induction false} ListedInOrder(s: State, step: Step)
    requires s.listed != []
    ensures Apply(s, step).listed == if step.Dispatch? then s.listed[1..] else s.listed
  {
  }

  // ---------------------------------------------------------------- when runners overlap

  /** No two runners at all are of the same course. */
  ghost predicate Apart(runners: seq<Runner>) {
    forall i, j :: 0 <= i < j < |runners| ==> runners[i].course != runners[j].course
  }

  /** A course is dispatched while a seeding runner of it is live, or seeded while any runner is. */
  ghost predicate Overlaps(s: State, step: Step) {
    || (step.Dispatch? && s.listed != [] && s.listed[0] !in s.inFlight && SeedingLive(s, s.listed[0]))
    || (step.Seed? && ReadyToSeed(s.status, step.course) && Live(s, step.course))
  }

  lemma {:induction false} RemovalKeepsApart(runners: seq<Runner>, i: nat)
    requires i < |runners| && Apart(runners)
    ensures Apart(Without(runners, i))
  {
    var left := Without(runners, i);
    assert forall j :: 0 <= j < i ==> left[j] == runners[j];
    assert forall j :: i <= j < |left| ==> left[j] == runners[j + 1];
  }

  lemma {:induction false} OneMoreApart(s: State, r: Runner)
    requires Apart(s.runners)
    ensures Apart(s.runners + [r]) <==> !Live(s, r.course)
  {
    var more, n := s.runners + [r], |s.runners|;
    assert more[n] == r && forall i :: 0 <= i < n ==> more[i] == s.runners[i];
    if i :| 0 <= i < n && s.runners[i].course == r.course {
      assert more[i].course == more[n].course;
    }
  }

  /** One step keeps the runners apart exactly when it does not overlap. */
  lemma {:induction false} StepApart(s: State, step: Step)
    requires Inv(s) && Apart(s.runners)
    ensures Apart(Apply(s, step).runners) <==> !Overlaps(s, step)
  {
    match step
    case Dispatch =>
      if s.listed != [] && s.listed[0] !in s.inFlight {
        OneMoreApart(s, Runner(s.listed[0], false));
        LiveMeans(s, s.listed[0]);
      }
    case Seed(course) => OneMoreApart(s, Runner(course, true));
    case End(i, _) =>
      if i < |s.runners| {
        RemovalKeepsApart(s.runners, i);
      }
    case _ =>
  }

  lemma {:induction false} LiveMeans(s: State, course: Course)
    requires Inv(s) && course !in s.inFlight
    ensures Live(s, course) <==> SeedingLive(s, course)
  {
    if i :| 0 <= i < |s.runners| && s.runners[i].course == course {
      assert s.runners[i] == Runner(course, s.runners[i].seeding);
      assert Runner(course, false) !in s.runners;
    }
  }

  ghost predicate AlwaysApart(steps: seq<Step>) {
    forall k :: 0 <= k <= |steps| ==> Apart(Run(steps[..k]).runners)
  }

  ghost predicate NeverOverlaps(steps: seq<Step>) {
    forall k :: 0 <= k < |steps| ==> !Overlaps(Run(steps[..k]), steps[k])
  }

  lemma {:induction false} AlwaysApartFront(steps: seq<Step>)
    requires steps != []
    ensures AlwaysApart(steps) <==> AlwaysApart(Front(steps)) && Apart(Run(steps).runners)
  {
    var n := |steps|;
    assert steps[..n] == steps && forall k :: 0 <= k < n ==> Front(steps)[..k] == steps[..k];
  }

  lemma {:induction false} NeverOverlapsFront(steps: seq<Step>)
    requires steps != []
    ensures NeverOverlaps(steps) <==> NeverOverlaps(Front(steps)) && !Overlaps(Run(Front(steps)), Last(steps))
  {
    var n := |steps|;
    assert steps[..n - 1] == Front(steps) && forall k :: 0 <= k < n - 1 ==> Front(steps)[..k] == steps[..k];
  }

  /** Throughout a run no course has two runners at once if and only if no course is ever dispatched
      while it is being seeded, or seeded while it has a runner. */
  lemma {:induction false} OverlapExactly(steps: seq<Step>)
    ensures AlwaysApart(steps) <==> NeverOverlaps(steps)
  {
    if steps == [] {
      assert forall k :: 0 <= k <= 0 ==> steps[..k] == [];
    } else {
      AlwaysApartFront(steps);
      NeverOverlapsFront(steps);
      OverlapExactly(Front(steps));
      if AlwaysApart(Front(steps)) {
        var n := |steps| - 1;
        assert Front(steps)[..n] == Front(steps);
        RunKeepsInv(Front(steps));
        StepApart(Run(Front(steps)), Last(steps));
      }
    }
  }

  /** A freshly approved course: its seeding runner sets it to generating, the next tick lists it, and
      a second runner is started beside the first. */
  lemma {:induction false} SeededCourseGetsTwo(course: Course)
    ensures Run([Change(course, SyllabusApproved), Seed(course), Change(course, CourseGenerating),
                 List([course]), Dispatch]).runners
            == [Runner(course, true), Runner(course, false)]
  {
    var a, b, c := Change(course, SyllabusApproved), Seed(course), Change(course, CourseGenerating);
    assert [a] == [] + [a] && [a, b] == [a] + [b] && [a, b, c] == [a, b] + [c];
    RunOneMore([], a);
    RunOneMore([a], b);
    RunOneMore([a, b], c);
    assert Run([a]) == State(map[course := SyllabusApproved], {}, [], [], {course});
    var s, d := Run([a, b, c]), List([course]);
    assert s == State(map[course := CourseGenerating], {}, [Runner(course, true)], [], {course});
    assert [a, b, c, d] == [a, b, c] + [d] && [a, b, c, d, Dispatch] == [a, b, c, d] + [Dispatch];
    RunOneMore([a, b, c], d);
    RunOneMore([a, b, c, d], Dispatch);
  }

  /** Whenever a course is listed while the runner the poller gave it is at work, that runner can end,
      leave the course waiting for approval, and the course is started again all the same. */
  lemma {:induction false} ListedCourseStartedAgain(steps: seq<Step>, i: nat)
    requires Run(steps).listed != [] && i < |Run(steps).runners|
    requires Run(steps).runners[i] == Runner(Run(steps).listed[0], false)
    ensures var course := Run(steps).listed[0];
            var after := Run(steps + [End(i, AwaitingLayerApproval)] + [Dispatch]);
            Runner(course, false) in after.runners && course in after.inFlight && !Due(after.status, course)
  {
    var s, finish := Run(steps), End(i, AwaitingLayerApproval);
    RunOneMore(steps, finish);
    RunOneMore(steps + [finish], Dispatch);
    var ended := Apply(s, finish);
    assert DispatchNext(ended).runners[|ended.runners|] == Runner(s.listed[0], false);
  }

  /** Such a run from the start: a course is listed while its runner is at work, the runner leaves it
      waiting for approval, and it is started again. */
  lemma {:induction false} SettledCourseStartedAgain(course: Course)
    ensures var s := Run([Change(course, CourseGenerating), List([course]), Dispatch, List([course]),
                          End(0, AwaitingLayerApproval), Dispatch]);
            s.runners == [Runner(course, false)] && course in s.inFlight
            && s.status == map[course := AwaitingLayerApproval]
  {
    var a, b, e := Change(course, CourseGenerating), List([course]), End(0, AwaitingLayerApproval);
    assert [a] == [] + [a] && [a, b] == [a] + [b] && [a, b, Dispatch] == [a, b] + [Dispatch];
    RunOneMore([], a);
    RunOneMore([a], b);
    RunOneMore([a, b], Dispatch);
    var s := Run([a, b, Dispatch]);
    assert s == State(map[course := CourseGenerating], {course}, [Runner(course, false)], [], {});
    assert [a, b, Dispatch, b] == [a, b, Dispatch] + [b];
    assert [a, b, Dispatch, b, e] == [a, b, Dispatch, b] + [e];
    assert [a, b, Dispatch, b, e, Dispatch] == [a, b, Dispatch, b, e] + [Dispatch];
    RunOneMore([a, b, Dispatch], b);
    RunOneMore([a, b, Dispatch, b], e);
    RunOneMore([a, b, Dispatch, b, e], Dispatch);
  }
}
