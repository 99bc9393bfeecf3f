/**
 Copying an admin's draft tree into a student's new course: every draft node becomes a course
 node under a new identifier, parents are translated on the way, and the course and its nodes
 are committed together or not at all.
 */
module DraftCopy {
  import opened Prelude
  import opened CourseTree
  import LayeredRuns

  datatype DraftNode = DraftNode(
    id: NodeId,
    parent: Option<NodeId>,
    nodeType: NodeType,
    ordering: int,
    status: NodeStatus,
    payload: string,
    createdAt: int)

  datatype CopyResult = Copied | ParentNotMapped(at: nat) | InsertFailed(at: nat)

  /** The state of a copy: its result so far, the identifiers given, the course's nodes. */
  datatype Copy = Copy(result: CopyResult, idMap: map<NodeId, NodeId>, nodes: Nodes)

  // ---------------------------------------------------------------- the copy

  /** What the course_nodes table accepts: primary key, ordering check, the two root checks, one
      root per course, a parent within the course, and unique siblings. */
  predicate CourseAccepts(nodes: Nodes, id: NodeId, parent: Option<NodeId>, nodeType: NodeType, ordering: int) {
    && id !in nodes
    && 0 <= ordering
    && (nodeType == Root <==> parent == None)
    && (nodeType == Root ==> !HasRoot(nodes))
    && (parent.Some? ==> parent.value in nodes && !Occupied(nodes, parent.value, ordering))
  }

  function Payload(dn: DraftNode): string {
    if |dn.payload| == 0 then EMPTY_PAYLOAD else dn.payload
  }

  function Translated(idMap: map<NodeId, NodeId>, parent: Option<NodeId>): Option<NodeId>
    requires parent.Some? ==> parent.value in idMap
  {
    if parent.None? then None else Some(idMap[parent.value])
  }

  function NewNode(dn: DraftNode, parent: Option<NodeId>, now: int): CourseNode
    requires 0 <= dn.ordering
  {
    CourseNode(parent, dn.nodeType, dn.ordering, Pending, Payload(dn), now)
  }

  /** One turn of the copy loop, for draft node dn at the given position. */
  function CopyOne(c: Copy, at: nat, dn: DraftNode, id: NodeId, now: int): Copy {
    if dn.parent.Some? && dn.parent.value !in c.idMap then
      c.(result := ParentNotMapped(at))
    else if !CourseAccepts(c.nodes, id, Translated(c.idMap, dn.parent), dn.nodeType, dn.ordering) then
      c.(result := InsertFailed(at))
    else
      Copy(Copied, c.idMap[dn.id := id], c.nodes[id := NewNode(dn, Translated(c.idMap, dn.parent), now)])
  }

  function CopyAll(rows: seq<DraftNode>, ids: seq<NodeId>, now: int): Copy
    requires |rows| <= |ids|
  {
    if rows == [] then Copy(Copied, map[], map[])
    else
      var c := CopyAll(Front(rows), ids, now);
      if c.result != Copied then c else CopyOne(c, |rows| - 1, Last(rows), ids[|rows| - 1], now)
  }

  lemma {:induction false} FailureStays(rows: seq<DraftNode>, k: nat, ids: seq<NodeId>, now: int)
    requires k <= |rows| <= |ids| && CopyAll(rows[..k], ids, now).result != Copied
    ensures CopyAll(rows, ids, now) == CopyAll(rows[..k], ids, now)
    decreases |rows|
  {
    if k == |rows| {
      assert rows[..k] == rows;
    } else {
      assert Front(rows)[..k] == rows[..k];
      FailureStays(Front(rows), k, ids, now);
    }
  }

  class AssignmentRepository {
    var courseNodes: Nodes

    constructor ()
      ensures courseNodes == map[]
    {
      courseNodes := map[];
    }

    method InsertCourseNode(id: NodeId, parent: Option<NodeId>, dn: DraftNode, now: int) returns (ok: bool)
      modifies this
      ensures ok == CourseAccepts(old(courseNodes), id, parent, dn.nodeType, dn.ordering)
      ensures courseNodes == if ok then old(courseNodes)[id := NewNode(dn, parent, now)] else old(courseNodes)
    {
      ok := CourseAccepts(courseNodes, id, parent, dn.nodeType, dn.ordering);
      if ok {
        courseNodes := courseNodes[id := NewNode(dn, parent, now)];
      }
    }

    /** rows is the draft ordered by creation time and id, ids are the identifiers the database
        is going to generate. */
    method CopyDraftNodesToCourse(rows: seq<DraftNode>, ids: seq<NodeId>, now: int)
      returns (result: CopyResult, idMap: map<NodeId, NodeId>)
      requires |rows| <= |ids| && courseNodes == map[]
      modifies this
      ensures Copy(result, idMap, courseNodes) == CopyAll(rows, ids, now)
    {
      idMap := map[];
      for k := 0 to |rows|
        invariant Copy(Copied, idMap, courseNodes) == CopyAll(rows[..k], ids, now)
      {
        var dn := rows[k];
        assert Front(rows[..k + 1]) == rows[..k] && Last(rows[..k + 1]) == dn;
        var newParentId: Option<NodeId> := None;
        if dn.parent.Some? {
          if dn.parent.value !in idMap {
            FailureStays(rows, k + 1, ids, now);
            return ParentNotMapped(k), idMap;
          }
          newParentId := Some(idMap[dn.parent.value]);
        }
        var ok := InsertCourseNode(ids[k], newParentId, dn, now);
        if !ok {
          FailureStays(rows, k + 1, ids, now);
          return InsertFailed(k), idMap;
        }
        idMap := idMap[dn.id := ids[k]];
      }
      assert rows[..|rows|] == rows;
      result := Copied;
    }
  }

  // ---------------------------------------------------------------- what a successful copy is

  ghost predicate Identified(rows: seq<DraftNode>, ids: seq<NodeId>) {
    && |rows| <= |ids| && Distinct(ids)
    && forall i, j :: 0 <= i < j < |rows| ==> rows[i].id != rows[j].id
  }

  /** The course's nodes are the draft's: same number, types, orderings and payloads, the parent
      relation carried over, all pending, and nothing else. */
  ghost predicate Isomorphic(rows: seq<DraftNode>, ids: seq<NodeId>, nodes: Nodes)
    requires |rows| <= |ids|
  {
    && (forall id :: id in nodes <==> GivenOut(ids, |rows|, id))
    && (forall i :: 0 <= i < |rows| ==> ids[i] in nodes && SameNode(rows[i], nodes[ids[i]]))
    && (forall i :: 0 <= i < |rows| ==> (rows[i].parent == None <==> nodes[ids[i]].parent == None))
    && (forall i, j :: 0 <= i < |rows| && 0 <= j < |rows| ==>
          (rows[i].parent == Some(rows[j].id) <==> nodes[ids[i]].parent == Some(ids[j])))
  }

  ghost predicate SameNode(dn: DraftNode, node: CourseNode) {
    && node.nodeType == dn.nodeType && node.ordering == dn.ordering && node.status == Pending
    && (dn.payload != "" ==> node.payload == dn.payload)
    && (dn.payload == "" ==> node.payload == "{}")
  }

  ghost predicate RowWithId(rows: seq<DraftNode>, d: NodeId) {
    exists i :: 0 <= i < |rows| && rows[i].id == d
  }

  ghost predicate GivenOut(ids: seq<NodeId>, n: nat, id: NodeId)
    requires n <= |ids|
  {
    exists i :: 0 <= i < n && ids[i] == id
  }

  /** Draft node dn went into the course as id. */
  ghost predicate NodeCarried(dn: DraftNode, id: NodeId, c: Copy, now: int) {
    && dn.id in c.idMap && c.idMap[dn.id] == id
    && (dn.parent.Some? ==> dn.parent.value in c.idMap)
    && 0 <= dn.ordering
    && id in c.nodes && c.nodes[id] == NewNode(dn, Translated(c.idMap, dn.parent), now)
  }

  ghost predicate Carried(rows: seq<DraftNode>, ids: seq<NodeId>, c: Copy, now: int)
    requires |rows| <= |ids|
  {
    && (forall i {:trigger NodeCarried(rows[i], ids[i], c, now)} ::
          0 <= i < |rows| ==> NodeCarried(rows[i], ids[i], c, now))
    && (forall d {:trigger RowWithId(rows, d)} :: d in c.idMap ==> RowWithId(rows, d))
    && (forall id {:trigger GivenOut(ids, |rows|, id)} :: id in c.nodes ==> GivenOut(ids, |rows|, id))
  }

  lemma {:induction false} CopyCarries(rows: seq<DraftNode>, ids: seq<NodeId>, now: int)
    requires Identified(rows, ids) && CopyAll(rows, ids, now).result == Copied
    ensures Carried(rows, ids, CopyAll(rows, ids, now), now)
  {
    if rows != [] {
      CopyCarries(Front(rows), ids, now);
      CarryOne(rows, ids, CopyAll(Front(rows), ids, now), now);
    }
  }

  lemma {:induction false} CarriedOn(dn: DraftNode, id: NodeId, c: Copy, c': Copy, now: int)
    requires NodeCarried(dn, id, c, now)
    requires forall d :: d in c.idMap ==> d in c'.idMap && c'.idMap[d] == c.idMap[d]
    requires forall x :: x in c.nodes ==> x in c'.nodes && c'.nodes[x] == c.nodes[x]
    ensures NodeCarried(dn, id, c', now)
  {
  }

  lemma {:induction false} CarryOne(rows: seq<DraftNode>, ids: seq<NodeId>, c: Copy, now: int)
    requires rows != [] && Identified(rows, ids) && Carried(Front(rows), ids, c, now)
    requires CopyOne(c, |rows| - 1, Last(rows), ids[|rows| - 1], now).result == Copied
    requires c.result == Copied
    ensures Carried(rows, ids, CopyOne(c, |rows| - 1, Last(rows), ids[|rows| - 1], now), now)
  {
    var n, dn := |rows| - 1, Last(rows);
    var c' := CopyOne(c, n, dn, ids[n], now);
    assert !RowWithId(Front(rows), dn.id);
    assert NodeCarried(dn, ids[n], c', now);
    forall i | 0 <= i < |rows|
      ensures NodeCarried(rows[i], ids[i], c', now)
    {
      if i < n {
        assert NodeCarried(Front(rows)[i], ids[i], c, now);
        CarriedOn(rows[i], ids[i], c, c', now);
      }
    }
    forall d | d in c'.idMap
      ensures RowWithId(rows, d)
    {
      if d != dn.id {
        assert RowWithId(Front(rows), d);
        var i :| 0 <= i < n && Front(rows)[i].id == d;
        assert rows[i].id == d;
      }
    }
    forall id | id in c'.nodes
      ensures GivenOut(ids, |rows|, id)
    {
      if id != ids[n] {
        assert GivenOut(ids, |Front(rows)|, id);
      }
    }
  }

  /** A copy that succeeds gives each draft node an identifier of its own, and the new course is
      isomorphic to the draft. */
  lemma {:induction false} CopyIsIsomorphic(rows: seq<DraftNode>, ids: seq<NodeId>, now: int)
    requires Identified(rows, ids) && CopyAll(rows, ids, now).result == Copied
    ensures var c := CopyAll(rows, ids, now);
            && (forall d :: d in c.idMap <==> RowWithId(rows, d))
            && (forall a, b :: a in c.idMap && b in c.idMap && a != b ==> c.idMap[a] != c.idMap[b])
            && Isomorphic(rows, ids, c.nodes)
  {
    CopyCarries(rows, ids, now);
    CarriedIsOneToOne(rows, ids, CopyAll(rows, ids, now), now);
    CarriedIsIsomorphic(rows, ids, CopyAll(rows, ids, now), now);
  }

  lemma {:induction false} CarriedIsOneToOne(rows: seq<DraftNode>, ids: seq<NodeId>, c: Copy, now: int)
    requires Identified(rows, ids) && Carried(rows, ids, c, now)
    ensures forall d :: d in c.idMap <==> RowWithId(rows, d)
    ensures forall a, b :: a in c.idMap && b in c.idMap && a != b ==> c.idMap[a] != c.idMap[b]
  {
    forall d
      ensures d in c.idMap <==> RowWithId(rows, d)
    {
      if i :| 0 <= i < |rows| && rows[i].id == d {
        assert NodeCarried(rows[i], ids[i], c, now);
      }
    }
    forall a, b | a in c.idMap && b in c.idMap && a != b
      ensures c.idMap[a] != c.idMap[b]
    {
      assert RowWithId(rows, a) && RowWithId(rows, b);
      var i :| 0 <= i < |rows| && rows[i].id == a;
      var j :| 0 <= j < |rows| && rows[j].id == b;
      assert NodeCarried(rows[i], ids[i], c, now) && NodeCarried(rows[j], ids[j], c, now);
    }
  }

  lemma {:induction false} CarriedIsIsomorphic(rows: seq<DraftNode>, ids: seq<NodeId>, c: Copy, now: int)
    requires Identified(rows, ids) && Carried(rows, ids, c, now)
    ensures Isomorphic(rows, ids, c.nodes)
  {
    forall i | 0 <= i < |rows|
      ensures ids[i] in c.nodes && SameNode(rows[i], c.nodes[ids[i]])
      ensures rows[i].parent == None <==> c.nodes[ids[i]].parent == None
    {
      assert NodeCarried(rows[i], ids[i], c, now);
    }
    forall i, j | 0 <= i < |rows| && 0 <= j < |rows|
      ensures rows[i].parent == Some(rows[j].id) <==> c.nodes[ids[i]].parent == Some(ids[j])
    {
      ParentCarried(rows, ids, c, now, i, j);
    }
    forall id
      ensures id in c.nodes <==> GivenOut(ids, |rows|, id)
    {
      if i :| 0 <= i < |rows| && ids[i] == id {
        assert NodeCarried(rows[i], ids[i], c, now);
      }
    }
  }

  lemma {:induction false} ParentCarried(rows: seq<DraftNode>, ids: seq<NodeId>, c: Copy, now: int, i: nat, j: nat)
    requires Identified(rows, ids) && Carried(rows, ids, c, now) && i < |rows| && j < |rows|
    ensures ids[i] in c.nodes
    ensures rows[i].parent == Some(rows[j].id) <==> c.nodes[ids[i]].parent == Some(ids[j])
  {
    assert NodeCarried(rows[i], ids[i], c, now) && NodeCarried(rows[j], ids[j], c, now);
    if rows[i].parent.Some? {
      assert RowWithId(rows, rows[i].parent.value);
      var p :| 0 <= p < |rows| && rows[p].id == rows[i].parent.value;
      assert NodeCarried(rows[p], ids[p], c, now);
    }
  }

  /** Whatever the draft, what has been copied is a tree that the course's runs can start from. */
  lemma {:induction false} CopyCanBeRun(rows: seq<DraftNode>, ids: seq<NodeId>, now: int)
    requires |rows| <= |ids|
    ensures LayeredRuns.Admissible(CopyAll(rows, ids, now).nodes)
  {
    if rows != [] {
      CopyCanBeRun(Front(rows), ids, now);
      var c, c', id := CopyAll(Front(rows), ids, now), CopyAll(rows, ids, now), ids[|rows| - 1];
      if c'.nodes != c.nodes {
        LayeredRuns.AddedSiblingsUnique(c.nodes, id, c'.nodes[id], c'.nodes);
        LayeredRuns.AddedRooted(c.nodes, id, c'.nodes[id], c'.nodes);
      }
    }
  }

  // ---------------------------------------------------------------- when a copy succeeds

  /** The node's parent does not occur earlier in the list. */
  ghost predicate Orphan(rows: seq<DraftNode>, k: nat)
    requires k < |rows|
  {
    rows[k].parent.Some? && forall j :: 0 <= j < k ==> rows[j].id != rows[k].parent.value
  }

  /** The course's constraints reject the node whatever its identifier. */
  ghost predicate Refused(rows: seq<DraftNode>, k: nat)
    requires k < |rows|
  {
    || rows[k].ordering < 0
    || (rows[k].nodeType == Root) != (rows[k].parent == None)
    || (rows[k].nodeType == Root && exists j :: 0 <= j < k && rows[j].nodeType == Root)
    || (rows[k].parent.Some? && exists j :: 0 <= j < k && Siblings(rows[j], rows[k]))
  }

  ghost predicate Siblings(a: DraftNode, b: DraftNode) {
    a.parent == b.parent && a.ordering == b.ordering
  }

  ghost predicate FaultFree(rows: seq<DraftNode>, k: nat)
    requires k <= |rows|
  {
    forall j :: 0 <= j < k ==> !Orphan(rows, j) && !Refused(rows, j)
  }

  /** The outcome is decided by the first node that is an orphan or refused: the ordering check
      fails exactly when that node is an orphan, an insert when it is not, and the copy succeeds
      exactly when there is no such node. */
  lemma {:induction false} CopyOutcome(rows: seq<DraftNode>, ids: seq<NodeId>, now: int)
    requires Identified(rows, ids)
    ensures OutcomeIs(rows, CopyAll(rows, ids, now).result)
  {
    if rows != [] {
      var front, n := Front(rows), |rows| - 1;
      CopyOutcome(front, ids, now);
      forall j | 0 <= j < n
        ensures Orphan(front, j) == Orphan(rows, j) && Refused(front, j) == Refused(rows, j)
      {
        PrefixFaults(rows, n, j);
      }
      var c := CopyAll(front, ids, now);
      if c.result == Copied {
        CopyCarries(front, ids, now);
        LastNode(rows, ids, c, now);
      }
    }
  }

  ghost predicate OutcomeIs(rows: seq<DraftNode>, result: CopyResult) {
    match result
    case Copied => FaultFree(rows, |rows|)
    case ParentNotMapped(k) => k < |rows| && FaultFree(rows, k) && Orphan(rows, k)
    case InsertFailed(k) => k < |rows| && FaultFree(rows, k) && !Orphan(rows, k) && Refused(rows, k)
  }

  lemma {:induction false} PrefixFaults(rows: seq<DraftNode>, n: nat, j: nat)
    requires j < n <= |rows|
    ensures Orphan(rows[..n], j) == Orphan(rows, j) && Refused(rows[..n], j) == Refused(rows, j)
  {
  }

  lemma {:induction false} LastNode(rows: seq<DraftNode>, ids: seq<NodeId>, c: Copy, now: int)
    requires rows != [] && Identified(rows, ids) && Carried(Front(rows), ids, c, now) && c.result == Copied
    ensures var n := |rows| - 1;
            CopyOne(c, n, Last(rows), ids[n], now).result ==
            if Orphan(rows, n) then ParentNotMapped(n) else if Refused(rows, n) then InsertFailed(n) else Copied
  {
    var n, dn, front := |rows| - 1, Last(rows), Front(rows);
    assert forall j :: 0 <= j < n ==> front[j] == rows[j];
    if dn.parent.Some? && dn.parent.value !in c.idMap {
      forall j | 0 <= j < n
        ensures rows[j].id != dn.parent.value
      {
        assert NodeCarried(front[j], ids[j], c, now);
      }
    } else {
      if dn.parent.Some? {
        assert RowWithId(front, dn.parent.value);
      }
      InsertAccepted(rows, ids, c, now);
    }
  }

  lemma {:induction false} InsertAccepted(rows: seq<DraftNode>, ids: seq<NodeId>, c: Copy, now: int)
    requires rows != [] && Identified(rows, ids) && Carried(Front(rows), ids, c, now)
    requires Last(rows).parent.Some? ==> Last(rows).parent.value in c.idMap
    ensures var n, dn := |rows| - 1, Last(rows);
            CourseAccepts(c.nodes, ids[n], Translated(c.idMap, dn.parent), dn.nodeType, dn.ordering)
            == !Refused(rows, n)
  {
    var n, dn, front := |rows| - 1, Last(rows), Front(rows);
    assert forall j :: 0 <= j < n ==> front[j] == rows[j];
    assert ids[n] !in c.nodes by {
      assert !GivenOut(ids, |front|, ids[n]);
    }
    RootSeen(front, ids, c, now);
    if dn.parent.Some? && 0 <= dn.ordering {
      SiblingSeen(front, ids, c, now, dn);
      assert RowWithId(front, dn.parent.value);
      var p :| 0 <= p < n && front[p].id == dn.parent.value;
      assert NodeCarried(front[p], ids[p], c, now);
    }
  }

  lemma {:induction false} RootSeen(rows: seq<DraftNode>, ids: seq<NodeId>, c: Copy, now: int)
    requires Identified(rows, ids) && Carried(rows, ids, c, now)
    ensures HasRoot(c.nodes) <==> exists j :: 0 <= j < |rows| && rows[j].nodeType == Root
  {
    if HasRoot(c.nodes) {
      var r :| r in c.nodes && c.nodes[r].nodeType == Root;
      assert GivenOut(ids, |rows|, r);
      var j :| 0 <= j < |rows| && ids[j] == r;
      assert NodeCarried(rows[j], ids[j], c, now);
    }
    if j :| 0 <= j < |rows| && rows[j].nodeType == Root {
      assert NodeCarried(rows[j], ids[j], c, now);
    }
  }

  lemma {:induction false} SiblingSeen(rows: seq<DraftNode>, ids: seq<NodeId>, c: Copy, now: int, dn: DraftNode)
    requires Identified(rows, ids) && Carried(rows, ids, c, now)
    requires dn.parent.Some? && dn.parent.value in c.idMap && 0 <= dn.ordering
    ensures Occupied(c.nodes, c.idMap[dn.parent.value], dn.ordering)
            <==> exists j :: 0 <= j < |rows| && Siblings(rows[j], dn)
  {
    assert RowWithId(rows, dn.parent.value);
    var p :| 0 <= p < |rows| && rows[p].id == dn.parent.value;
    assert NodeCarried(rows[p], ids[p], c, now);
    if Occupied(c.nodes, ids[p], dn.ordering) {
      var x :| x in c.nodes && IsChildAt(c.nodes[x], ids[p], dn.ordering);
      assert GivenOut(ids, |rows|, x);
      var j :| 0 <= j < |rows| && ids[j] == x;
      assert NodeCarried(rows[j], ids[j], c, now);
      ParentCarried(rows, ids, c, now, j, p);
      assert Siblings(rows[j], dn);
    }
    if j :| 0 <= j < |rows| && Siblings(rows[j], dn) {
      assert NodeCarried(rows[j], ids[j], c, now);
      assert IsChildAt(c.nodes[ids[j]], ids[p], dn.ordering);
    }
  }

  /** Among the lists the course's constraints do not refuse, the copy succeeds exactly on those
      that have parents first, and every failure is one of the ordering check. */
  lemma {:induction false} ParentsFirstSuffices(rows: seq<DraftNode>, ids: seq<NodeId>, now: int)
    requires Identified(rows, ids)
    requires forall k :: 0 <= k < |rows| ==> !Refused(rows, k)
    ensures var result := CopyAll(rows, ids, now).result;
            && (result == Copied <==> forall k :: 0 <= k < |rows| ==> !Orphan(rows, k))
            && (result.ParentNotMapped? <==> exists k :: 0 <= k < |rows| && Orphan(rows, k))
  {
    CopyOutcome(rows, ids, now);
  }

  /** Parents first is not enough: a second node without a parent, which the draft accepts, makes
      the copy fail on the course's own constraint. */
  lemma {:induction false} ParentlessNodeFails(ids: seq<NodeId>, now: int) returns (rows: seq<DraftNode>)
    requires |ids| >= 2 && Distinct(ids)
    ensures Identified(rows, ids)
    ensures forall k :: 0 <= k < |rows| ==> !Orphan(rows, k)
    ensures CopyAll(rows, ids, now).result == InsertFailed(1)
  {
    rows := [DraftNode(0, None, Root, 0, Approved, "{}", 0), DraftNode(1, None, Syllabus, 0, Pending, "{}", 1)];
    CopyOutcome(rows, ids, now);
    assert Refused(rows, 1);
    assert !Refused(rows, 0) && !Orphan(rows, 0) && !Orphan(rows, 1);
  }

  // ---------------------------------------------------------------- assigning students

  type CourseId = nat
  type StudentId = nat

  /** A course is open unless it is archived or completed. */
  datatype Course = Course(student: StudentId, open: bool, nodes: Nodes)

  datatype AssignError = StudentNotFound | CourseAlreadyActive | TreeCopyFailed | InternalError

  datatype AssignResult =
    | Created(student: StudentId, course: CourseId)
    | Refusal(student: StudentId, error: AssignError)

  /** What the database is going to answer for one student. */
  datatype Attempt = Attempt(
    student: StudentId,
    active: bool,
    course: CourseId,
    ids: seq<NodeId>,
    commits: bool)

  /** The unique index lets a student have one open course. */
  predicate SlotFree(courses: map<CourseId, Course>, student: StudentId) {
    forall c :: c in courses ==> !(courses[c].student == student && courses[c].open)
  }

  /** The result for one student, and the courses afterwards: a copy that fails leaves no course. */
  function Assigned(courses: map<CourseId, Course>, a: Attempt, rows: seq<DraftNode>, now: int):
    (AssignResult, map<CourseId, Course>)
    requires |rows| <= |a.ids|
  {
    if !a.active then (Refusal(a.student, StudentNotFound), courses)
    else if !SlotFree(courses, a.student) then (Refusal(a.student, CourseAlreadyActive), courses)
    else
      var c := CopyAll(rows, a.ids, now);
      if c.result != Copied then (Refusal(a.student, TreeCopyFailed), courses)
      else if !a.commits then (Refusal(a.student, InternalError), courses)
      else (Created(a.student, a.course), courses[a.course := Course(a.student, true, c.nodes)])
  }

  class AssignmentService {
    var courses: map<CourseId, Course>

    constructor ()
      ensures courses == map[]
    {
      courses := map[];
    }

    method AssignOneStudentDraft(a: Attempt, rows: seq<DraftNode>, now: int) returns (result: AssignResult)
      requires |rows| <= |a.ids|
      modifies this
      ensures (result, courses) == Assigned(old(courses), a, rows, now)
    {
      if !a.active {
        return Refusal(a.student, StudentNotFound);
      }
      if !SlotFree(courses, a.student) {
        return Refusal(a.student, CourseAlreadyActive);
      }
      var tx := new AssignmentRepository();
      var copied, _ := tx.CopyDraftNodesToCourse(rows, a.ids, now);
      if copied != Copied {
        return Refusal(a.student, TreeCopyFailed);
      }
      if !a.commits {
        return Refusal(a.student, InternalError);
      }
      courses := courses[a.course := Course(a.student, true, tx.courseNodes)];
      result := Created(a.student, a.course);
    }

    /** Every student asked for is answered once, in one of the two lists and in order. */
    method AssignStudents(attempts: seq<Attempt>, rows: seq<DraftNode>, now: int)
      returns (created: seq<AssignResult>, errs: seq<AssignResult>)
      requires forall a :: a in attempts ==> |rows| <= |a.ids|
      modifies this
      ensures var (results, after) := AssignAll(old(courses), attempts, rows, now);
              courses == after && created == OfKind(results, true) && errs == OfKind(results, false)
    {
      created, errs := [], [];
      var k := 0;
      while k < |attempts|
        invariant 0 <= k <= |attempts|
        invariant var (results, after) := AssignAll(old(courses), attempts[..k], rows, now);
                  courses == after && created == OfKind(results, true) && errs == OfKind(results, false)
      {
        assert Front(attempts[..k + 1]) == attempts[..k] && Last(attempts[..k + 1]) == attempts[k];
        var result := AssignOneStudentDraft(attempts[k], rows, now);
        if result.Refusal? {
          errs := errs + [result];
        } else {
          created := created + [result];
        }
        k := k + 1;
      }
      assert attempts[..k] == attempts;
    }
  }

  function AssignAll(courses: map<CourseId, Course>, attempts: seq<Attempt>, rows: seq<DraftNode>, now: int):
    (r: (seq<AssignResult>, map<CourseId, Course>))
    requires forall a :: a in attempts ==> |rows| <= |a.ids|
    ensures |r.0| == |attempts|
  {
    if attempts == [] then ([], courses)
    else
      var (results, before) := AssignAll(courses, Front(attempts), rows, now);
      var (result, after) := Assigned(before, Last(attempts), rows, now);
      (results + [result], after)
  }

  function OfKind(results: seq<AssignResult>, ok: bool): seq<AssignResult> {
    if results == [] then []
    else OfKind(Front(results), ok) + if Last(results).Created? == ok then [Last(results)] else []
  }

  /** The two lists hold each answer once, the created ones and the refusals in order. */
  lemma {:induction false} KindsPartition(results: seq<AssignResult>)
    ensures multiset(OfKind(results, true)) + multiset(OfKind(results, false)) == multiset(results)
    ensures forall r :: r in OfKind(results, true) ==> r.Created?
    ensures forall r :: r in OfKind(results, false) ==> r.Refusal?
  {
    if results != [] {
      assert results == Front(results) + [Last(results)];
      KindsPartition(Front(results));
    }
  }

  lemma {:induction false} KindsKeepOrder(a: seq<AssignResult>, b: seq<AssignResult>, ok: bool)
    ensures OfKind(a + b, ok) == OfKind(a, ok) + OfKind(b, ok)
  {
    if b == [] {
      assert a + b == a;
    } else {
      assert Front(a + b) == a + Front(b);
      KindsKeepOrder(a, Front(b), ok);
    }
  }

  /** The answer for one student on these courses, read off the draft itself. */
  ghost function Answer(courses: map<CourseId, Course>, rows: seq<DraftNode>, a: Attempt): AssignResult {
    if !a.active then Refusal(a.student, StudentNotFound)
    else if !SlotFree(courses, a.student) then Refusal(a.student, CourseAlreadyActive)
    else if !FaultFree(rows, |rows|) then Refusal(a.student, TreeCopyFailed)
    else if !a.commits then Refusal(a.student, InternalError)
    else Created(a.student, a.course)
  }

  /** One student: nothing happens to the courses there are, and a course that is created is a
      full copy of the draft. */
  ghost predicate AllOrNothing(
    rows: seq<DraftNode>, a: Attempt, result: AssignResult, before: map<CourseId, Course>, after: map<CourseId, Course>)
    requires |rows| <= |a.ids|
  {
    && result == Answer(before, rows, a)
    && (forall c :: c in before ==> c in after && after[c] == before[c])
    && (forall c :: c in after ==> c in before || c == a.course)
    && (result.Created? <==> a.course in after)
    && (result.Created? ==> CopiedFor(rows, a, after))
  }

  ghost predicate CopiedFor(rows: seq<DraftNode>, a: Attempt, after: map<CourseId, Course>)
    requires |rows| <= |a.ids|
  {
    && a.course in after && after[a.course].student == a.student && after[a.course].open
    && Isomorphic(rows, a.ids, after[a.course].nodes)
  }

  lemma {:induction false} AssignedAllOrNothing(
    courses: map<CourseId, Course>, a: Attempt, rows: seq<DraftNode>, now: int)
    requires Identified(rows, a.ids) && a.course !in courses
    ensures var (result, after) := Assigned(courses, a, rows, now);
            AllOrNothing(rows, a, result, courses, after)
  {
    CopyOutcome(rows, a.ids, now);
    if CopyAll(rows, a.ids, now).result == Copied {
      CopyIsIsomorphic(rows, a.ids, now);
    }
  }

  /** A created course takes its student's slot, and nothing else does. */
  lemma {:induction false} SlotTaken(
    rows: seq<DraftNode>, a: Attempt, result: AssignResult, before: map<CourseId, Course>, after: map<CourseId, Course>,
    student: StudentId)
    requires |rows| <= |a.ids| && AllOrNothing(rows, a, result, before, after)
    ensures SlotFree(after, student) <==> SlotFree(before, student) && !(result.Created? && a.student == student)
  {
  }

  ghost predicate Fresh(courses: map<CourseId, Course>, attempts: seq<Attempt>, rows: seq<DraftNode>) {
    && (forall a :: a in attempts ==> Identified(rows, a.ids) && a.course !in courses)
    && forall i, j :: 0 <= i < j < |attempts| ==> attempts[i].course != attempts[j].course
  }

  ghost predicate DoneFor(rows: seq<DraftNode>, a: Attempt, result: AssignResult, after: map<CourseId, Course>)
    requires |rows| <= |a.ids|
  {
    (result.Created? <==> a.course in after) && (result.Created? ==> CopiedFor(rows, a, after))
  }

  /** The old courses are untouched, the new ones are those of attempts, and each is a full copy. */
  ghost predicate AllDone(
    courses: map<CourseId, Course>, attempts: seq<Attempt>, rows: seq<DraftNode>, results: seq<AssignResult>,
    after: map<CourseId, Course>)
    requires |attempts| == |results|
    requires forall a :: a in attempts ==> |rows| <= |a.ids|
  {
    && (forall c :: c in courses ==> c in after && after[c] == courses[c])
    && (forall c :: c in after ==> c in courses || Attempted(attempts, c))
    && forall i :: 0 <= i < |attempts| ==> DoneFor(rows, attempts[i], results[i], after)
  }

  lemma {:induction false} NextDone(
    courses: map<CourseId, Course>, attempts: seq<Attempt>, rows: seq<DraftNode>, results: seq<AssignResult>,
    result: AssignResult, before: map<CourseId, Course>, after: map<CourseId, Course>)
    requires attempts != [] && |results| == |attempts| - 1
    requires forall a :: a in attempts ==> |rows| <= |a.ids|
    requires forall a :: a in Front(attempts) ==> a.course != Last(attempts).course
    requires AllDone(courses, Front(attempts), rows, results, before)
    requires AllOrNothing(rows, Last(attempts), result, before, after)
    ensures AllDone(courses, attempts, rows, results + [result], after)
  {
    var front, last := Front(attempts), Last(attempts);
    assert DoneFor(rows, last, result, after);
    forall i | 0 <= i < |front|
      ensures DoneFor(rows, attempts[i], results[i], after)
    {
      assert front[i] in front && DoneFor(rows, front[i], results[i], before);
      DoneStays(rows, front[i], results[i], last, result, before, after);
    }
    AttemptedGrows(attempts);
  }

  /** A failure leaves nothing behind and stops nobody else: every course created is a full copy, and
      the courses there were before are untouched. */
  lemma {:induction false} AssignmentsAreAllOrNothing(
    courses: map<CourseId, Course>, attempts: seq<Attempt>, rows: seq<DraftNode>, now: int)
    requires Fresh(courses, attempts, rows)
    ensures var (results, after) := AssignAll(courses, attempts, rows, now);
            AllDone(courses, attempts, rows, results, after)
  {
    if attempts != [] {
      var front, last := Front(attempts), Last(attempts);
      AssignmentsAreAllOrNothing(courses, front, rows, now);
      var (results, before) := AssignAll(courses, front, rows, now);
      assert !Attempted(front, last.course);
      AssignedAllOrNothing(before, last, rows, now);
      var (result, after) := Assigned(before, last, rows, now);
      NextDone(courses, attempts, rows, results, result, before, after);
    }
  }

  lemma {:induction false} AttemptedGrows(attempts: seq<Attempt>)
    requires attempts != []
    ensures forall c :: Attempted(attempts, c) <==> Attempted(Front(attempts), c) || c == Last(attempts).course
  {
  }

  lemma {:induction false} DoneStays(
    rows: seq<DraftNode>, a: Attempt, result: AssignResult, next: Attempt, answer: AssignResult,
    before: map<CourseId, Course>, after: map<CourseId, Course>)
    requires |rows| <= |a.ids| && |rows| <= |next.ids| && a.course != next.course
    requires DoneFor(rows, a, result, before) && AllOrNothing(rows, next, answer, before, after)
    ensures DoneFor(rows, a, result, after)
  {
  }

  ghost predicate Attempted(attempts: seq<Attempt>, course: CourseId) {
    exists i :: 0 <= i < |attempts| && attempts[i].course == course
  }

  /** One of the first n attempts created a course for this student. */
  ghost predicate Served(attempts: seq<Attempt>, results: seq<AssignResult>, student: StudentId, n: nat)
    requires n <= |attempts| <= |results|
  {
    exists j :: 0 <= j < n && attempts[j].student == student && results[j].Created?
  }

  /** Attempt i asks again for a student who is still active and has been served. */
  ghost predicate AsksAgain(attempts: seq<Attempt>, results: seq<AssignResult>, i: nat)
    requires i < |attempts| <= |results|
  {
    attempts[i].active && Served(attempts, results, attempts[i].student, i)
  }

  /** Each answer in turn, and whose slots are free afterwards. */
  lemma {:induction false} AnswersInTurn(
    courses: map<CourseId, Course>, attempts: seq<Attempt>, rows: seq<DraftNode>, now: int)
    requires Fresh(courses, attempts, rows)
    ensures var (results, after) := AssignAll(courses, attempts, rows, now);
            && (forall st ::
                  SlotFree(after, st) <==> SlotFree(courses, st) && !Served(attempts, results, st, |attempts|))
            && forall i :: 0 <= i < |attempts| ==>
                 results[i] == if AsksAgain(attempts, results, i)
                               then Refusal(attempts[i].student, CourseAlreadyActive)
                               else Answer(courses, rows, attempts[i])
  {
    if attempts != [] {
      var front, last, n := Front(attempts), Last(attempts), |attempts| - 1;
      AnswersInTurn(courses, front, rows, now);
      var (some, before) := AssignAll(courses, front, rows, now);
      var (results, after) := AssignAll(courses, attempts, rows, now);
      assert last.course !in before by {
        AssignmentsAreAllOrNothing(courses, front, rows, now);
        assert !Attempted(front, last.course);
      }
      AssignedAllOrNothing(before, last, rows, now);
      forall st, k | 0 <= k <= n
        ensures Served(attempts, results, st, k) == Served(front, some, st, k)
      {
        ServedEarlier(front, some, last, results[n], st, k);
        assert front + [last] == attempts && some + [results[n]] == results;
      }
      forall st
        ensures SlotFree(after, st) <==> SlotFree(courses, st) && !Served(attempts, results, st, |attempts|)
      {
        SlotTaken(rows, last, results[n], before, after, st);
        ServedNext(attempts, results, st, n);
        assert Served(attempts, results, st, n) == Served(front, some, st, n);
      }
      forall i | 0 <= i < n
        ensures results[i] == if AsksAgain(attempts, results, i)
                              then Refusal(attempts[i].student, CourseAlreadyActive)
                              else Answer(courses, rows, attempts[i])
      {
        assert front[i] == attempts[i] && some[i] == results[i];
        assert Served(attempts, results, attempts[i].student, i) == Served(front, some, attempts[i].student, i);
      }
      assert Served(attempts, results, last.student, n) == Served(front, some, last.student, n);
    }
  }

  lemma {:induction false} ServedEarlier(
    attempts: seq<Attempt>, results: seq<AssignResult>, a: Attempt, result: AssignResult, student: StudentId, k: nat)
    requires k <= |attempts| == |results|
    ensures Served(attempts + [a], results + [result], student, k) == Served(attempts, results, student, k)
  {
    assert forall j :: 0 <= j < k ==> (attempts + [a])[j] == attempts[j] && (results + [result])[j] == results[j];
  }

  lemma {:induction false} ServedNext(
    attempts: seq<Attempt>, results: seq<AssignResult>, student: StudentId, n: nat)
    requires n < |attempts| <= |results|
    ensures Served(attempts, results, student, n + 1) <==>
            Served(attempts, results, student, n) || (attempts[n].student == student && results[n].Created?)
  {
  }

  /** The request asks again, at i, for an active student to whom an earlier attempt alone would have
      given a course. */
  ghost predicate Repeated(courses: map<CourseId, Course>, attempts: seq<Attempt>, rows: seq<DraftNode>, i: nat)
    requires i < |attempts|
  {
    attempts[i].active && exists j :: 0 <= j < i && WouldServe(courses, rows, attempts[j], attempts[i].student)
  }

  ghost predicate WouldServe(courses: map<CourseId, Course>, rows: seq<DraftNode>, a: Attempt, student: StudentId) {
    a.student == student && Answer(courses, rows, a).Created?
  }

  /** Who has been served can be told before the call. */
  lemma {:induction false} RepeatedMeans(
    courses: map<CourseId, Course>, attempts: seq<Attempt>, rows: seq<DraftNode>, results: seq<AssignResult>, i: nat)
    requires i < |attempts| == |results|
    requires forall k :: 0 <= k < |attempts| ==>
               results[k] == if AsksAgain(attempts, results, k)
                             then Refusal(attempts[k].student, CourseAlreadyActive)
                             else Answer(courses, rows, attempts[k])
    ensures AsksAgain(attempts, results, i) <==> Repeated(courses, attempts, rows, i)
  {
    var student := attempts[i].student;
    if Served(attempts, results, student, i) {
      var j :| 0 <= j < i && attempts[j].student == student && results[j].Created?;
      assert WouldServe(courses, rows, attempts[j], student);
    }
    if j :| 0 <= j < i && WouldServe(courses, rows, attempts[j], student) {
      if results[j].Refusal? {
        assert AsksAgain(attempts, results, j);
        var k :| 0 <= k < j && attempts[k].student == student && results[k].Created?;
        assert Served(attempts, results, student, i);
      }
    }
  }

  /** Read off the request, the draft and the courses alone: repeated students are refused, everyone
      else gets the answer they would get alone; so all answers are those if and only if nobody is
      repeated. */
  lemma {:induction false} AssignmentsAreIndependent(
    courses: map<CourseId, Course>, attempts: seq<Attempt>, rows: seq<DraftNode>, now: int)
    requires Fresh(courses, attempts, rows)
    ensures var results := AssignAll(courses, attempts, rows, now).0;
            && (forall i :: 0 <= i < |attempts| ==>
                  results[i] == if Repeated(courses, attempts, rows, i)
                                then Refusal(attempts[i].student, CourseAlreadyActive)
                                else Answer(courses, rows, attempts[i]))
            && ((forall i :: 0 <= i < |attempts| ==> results[i] == Answer(courses, rows, attempts[i])) <==>
                (forall i :: 0 <= i < |attempts| ==> !Repeated(courses, attempts, rows, i)))
  {
    AnswersInTurn(courses, attempts, rows, now);
    var results := AssignAll(courses, attempts, rows, now).0;
    forall i | 0 <= i < |attempts|
      ensures AsksAgain(attempts, results, i) <==> Repeated(courses, attempts, rows, i)
    {
      RepeatedMeans(courses, attempts, rows, results, i);
    }
    if i :| 0 <= i < |attempts| && Repeated(courses, attempts, rows, i) {
      var j :| 0 <= j < i && WouldServe(courses, rows, attempts[j], attempts[i].student);
      assert SlotFree(courses, attempts[i].student);
      assert results[i] != Answer(courses, rows, attempts[i]);
    }
  }

  /** The same student twice in one request: the second attempt is refused because the first succeeded. */
  lemma {:induction false} SameStudentTwice(a: Attempt, again: Attempt, rows: seq<DraftNode>, now: int)
    requires Fresh(map[], [a, again], rows) && FaultFree(rows, |rows|)
    requires a.active && again.active && a.commits && again.commits && again.student == a.student
    ensures AssignAll(map[], [a, again], rows, now).0
            == [Created(a.student, a.course), Refusal(a.student, CourseAlreadyActive)]
    ensures Answer(map[], rows, again) == Created(a.student, again.course)
  {
    var attempts := [a, again];
    AnswersInTurn(map[], attempts, rows, now);
    var results := AssignAll(map[], attempts, rows, now).0;
    assert !Served(attempts, results, a.student, 0);
    assert !AsksAgain(attempts, results, 0) && results[0] == Answer(map[], rows, a);
    assert Served(attempts, results, a.student, 1) && AsksAgain(attempts, results, 1);
  }
}
