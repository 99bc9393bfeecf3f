/**
 One course's knowledge tree: the rows, the statements that change them, and the layer
 operations built from those statements.
 */
module CourseTree {
  import opened Prelude

  type NodeId = nat

  datatype NodeType = Root | Syllabus | SectionGoal | Concept | Content

  datatype NodeStatus = Pending | Generating | AwaitingReview | Approved | Rejected | Failed

  datatype CourseNode = CourseNode(
    parent: Option<NodeId>,
    nodeType: NodeType,
    ordering: nat,
    status: NodeStatus,
    payload: string,
    updatedAt: int)

  type Nodes = map<NodeId, CourseNode>

  const EMPTY_PAYLOAD: string := "{}"
  const STALE_AFTER_SECONDS := 600

  /** The layer after this one, None after the last. */
  function NextLayer(layer: NodeType): Option<NodeType> {
    match layer
    case Root => Some(Syllabus)
    case Syllabus => Some(SectionGoal)
    case SectionGoal => Some(Concept)
    case Concept => Some(Content)
    case Content => None
  }

  // ---------------------------------------------------------------- statements

  function Put(nodes: Nodes, id: NodeId, node: CourseNode): Nodes {
    nodes[id := node]
  }

  predicate HasStatus(nodes: Nodes, id: NodeId, status: NodeStatus) {
    id in nodes && nodes[id].status == status
  }

  function SetStatus(nodes: Nodes, id: NodeId, status: NodeStatus, now: int): Nodes
    requires id in nodes
  {
    nodes[id := nodes[id].(status := status, updatedAt := now)]
  }

  /** UPDATE ... SET status = to WHERE id = id AND status = from. */
  function Transition(nodes: Nodes, id: NodeId, from: NodeStatus, to: NodeStatus, now: int): Nodes {
    if HasStatus(nodes, id, from) then SetStatus(nodes, id, to, now) else nodes
  }

  /** The completion write: whatever the status was, it becomes AwaitingReview. */
  function WritePayload(nodes: Nodes, id: NodeId, payload: string, now: int): Nodes {
    if id in nodes then
      nodes[id := nodes[id].(payload := payload, status := AwaitingReview, updatedAt := now)]
    else
      nodes
  }

  /** The node is where it was in the tree. */
  predicate SamePlace(node: CourseNode, was: CourseNode) {
    node.parent == was.parent && node.nodeType == was.nodeType && node.ordering == was.ordering
  }

  /** No row comes or goes, and every row but that of id is as it was. */
  predicate OthersKept(nodes: Nodes, was: Nodes, id: NodeId) {
    nodes.Keys == was.Keys && forall other :: other in nodes && other != id ==> nodes[other] == was[other]
  }

  /** The failure write: whatever the status was, it becomes Failed. */
  function MarkFailed(nodes: Nodes, id: NodeId, now: int): Nodes {
    if id in nodes then SetStatus(nodes, id, Failed, now) else nodes
  }

  /** Feedback turns a node under review into a rejected one. */
  function Reject(nodes: Nodes, id: NodeId, payload: string, now: int): Nodes {
    if HasStatus(nodes, id, AwaitingReview) then
      nodes[id := nodes[id].(payload := payload, status := Rejected, updatedAt := now)]
    else
      nodes
  }

  predicate Stale(node: CourseNode, now: int) {
    node.status == Generating && node.updatedAt < now - STALE_AFTER_SECONDS
  }

  /** Nodes that have been generating for too long go back to Pending. */
  function ResetStale(nodes: Nodes, now: int): Nodes {
    map id | id in nodes ::
      if Stale(nodes[id], now) then nodes[id].(status := Pending, updatedAt := now) else nodes[id]
  }

  /** Nothing is stale any more, and only the stale nodes changed, in their status and time. */
  predicate FreedFrom(nodes: Nodes, was: Nodes, now: int) {
    && nodes.Keys == was.Keys
    && forall id :: id in nodes ==>
         && !Stale(nodes[id], now) && SamePlace(nodes[id], was[id]) && nodes[id].payload == was[id].payload
         && (nodes[id] != was[id] <==> Stale(was[id], now))
  }

  lemma {:induction false} ResetStaleFrees(nodes: Nodes, now: int)
    ensures FreedFrom(ResetStale(nodes, now), nodes, now)
  {
    assert ResetStale(nodes, now).Keys == nodes.Keys;
  }

  /** The poller's reset of the rejected nodes of a layer. */
  function ResetRejected(nodes: Nodes, layer: NodeType, now: int): Nodes {
    map id | id in nodes ::
      if nodes[id].nodeType == layer && nodes[id].status == Rejected
      then nodes[id].(status := Pending, updatedAt := now)
      else nodes[id]
  }

  /** A child of parent with this ordering exists: the sibling index would be violated. */
  predicate Occupied(nodes: Nodes, parent: NodeId, ordering: nat) {
    exists c :: c in nodes && IsChildAt(nodes[c], parent, ordering)
  }

  predicate IsChildAt(node: CourseNode, parent: NodeId, ordering: nat) {
    node.parent == Some(parent) && node.ordering == ordering
  }

  predicate HasRoot(nodes: Nodes) {
    exists r :: r in nodes && nodes[r].nodeType == Root
  }

  /** INSERT ... ON CONFLICT (course_id, parent_id, ordering) DO NOTHING. */
  function InsertChild(nodes: Nodes, id: NodeId, child: CourseNode): Nodes
    requires child.parent.Some?
  {
    if id in nodes || child.parent.value !in nodes || Occupied(nodes, child.parent.value, child.ordering) then
      nodes
    else
      nodes[id := child]
  }

  /** INSERT of the root; a course has at most one. */
  function InsertRoot(nodes: Nodes, id: NodeId, payload: string, now: int): Nodes {
    if id in nodes || HasRoot(nodes) then
      nodes
    else
      nodes[id := CourseNode(None, Root, 0, Approved, payload, now)]
  }

  const ORDER: seq<NodeType> := [Root, Syllabus, SectionGoal, Concept, Content]

  /** The layers form one chain, from the root to the content. */
  lemma {:induction false} LayersInOrder(i: nat)
    requires i < 5
    ensures NextLayer(ORDER[i]) == if i < 4 then Some(ORDER[i + 1]) else None
  {
  }

  /** Feedback reaches exactly the nodes under review; the reset of a layer exactly its rejected nodes. */
  lemma {:induction false} RejectedExactly(nodes: Nodes, id: NodeId, payload: string, layer: NodeType, now: int)
    ensures Reject(nodes, id, payload, now).Keys == ResetRejected(nodes, layer, now).Keys == nodes.Keys
    ensures forall n :: n in nodes ==>
              Reject(nodes, id, payload, now)[n] ==
              if n == id && nodes[n].status == AwaitingReview then
                nodes[n].(payload := payload, status := Rejected, updatedAt := now)
              else nodes[n]
    ensures forall n :: n in nodes ==>
              ResetRejected(nodes, layer, now)[n] ==
              if nodes[n].nodeType == layer && nodes[n].status == Rejected then
                nodes[n].(status := Pending, updatedAt := now)
              else nodes[n]
  {
    assert ResetRejected(nodes, layer, now).Keys == nodes.Keys;
  }

  /** An insert of a child takes effect exactly when its parent is there, the place below it is free, and
      the id is new; an insert of a root exactly when there is none. */
  lemma {:induction false} InsertsExactly(nodes: Nodes, id: NodeId, child: CourseNode, payload: string, now: int)
    requires child.parent.Some?
    ensures InsertChild(nodes, id, child) ==
            if && id !in nodes && child.parent.value in nodes
               && (forall c :: c in nodes ==> !(nodes[c].parent == child.parent && nodes[c].ordering == child.ordering))
            then nodes[id := child] else nodes
    ensures InsertRoot(nodes, id, payload, now) ==
            if id !in nodes && (forall r :: r in nodes ==> nodes[r].nodeType != Root)
            then nodes[id := CourseNode(None, Root, 0, Approved, payload, now)] else nodes
  {
    if Occupied(nodes, child.parent.value, child.ordering) {
      var c :| c in nodes && IsChildAt(nodes[c], child.parent.value, child.ordering);
      assert nodes[c].parent == child.parent && nodes[c].ordering == child.ordering;
    }
    if c :| c in nodes && nodes[c].parent == child.parent && nodes[c].ordering == child.ordering {
      assert IsChildAt(nodes[c], child.parent.value, child.ordering);
    }
  }

  // ---------------------------------------------------------------- layer counts

  function LayerNodes(nodes: Nodes, layer: NodeType): (ids: set<NodeId>) {
    set id | id in nodes && nodes[id].nodeType == layer
  }

  function WithStatus(nodes: Nodes, layer: NodeType, statuses: set<NodeStatus>): set<NodeId> {
    set id | id in nodes && nodes[id].nodeType == layer && nodes[id].status in statuses
  }

  /** The rows of SELECT status, COUNT(*) ... GROUP BY status, in any order. */
  ghost predicate Grouping(nodes: Nodes, layer: NodeType, rows: seq<(NodeStatus, nat)>) {
    && (forall i, j :: 0 <= i < j < |rows| ==> rows[i].0 != rows[j].0)
    && (forall i :: 0 <= i < |rows| ==> rows[i].1 == |WithStatus(nodes, layer, {rows[i].0})|)
    && forall st: NodeStatus :: WithStatus(nodes, layer, {st}) != {} ==>
         exists i :: 0 <= i < |rows| && rows[i].0 == st
  }

  ghost function SeenStatuses(rows: seq<(NodeStatus, nat)>, i: nat): set<NodeStatus>
    requires i <= |rows|
  {
    set k | 0 <= k < i :: rows[k].0
  }

  /** Adding one more status to the ones counted adds its nodes. */
  lemma {:induction false} CountOneMoreStatus(
    nodes: Nodes, layer: NodeType, seen: set<NodeStatus>, st: NodeStatus, bucket: set<NodeStatus>)
    requires st !in seen
    ensures |WithStatus(nodes, layer, (seen + {st}) * bucket)|
            == |WithStatus(nodes, layer, seen * bucket)| + if st in bucket then |WithStatus(nodes, layer, {st})| else 0
  {
    var before, added := WithStatus(nodes, layer, seen * bucket), WithStatus(nodes, layer, {st});
    if st in bucket {
      assert WithStatus(nodes, layer, (seen + {st}) * bucket) == before + added;
      assert before !! added;
    } else {
      assert (seen + {st}) * bucket == seen * bucket;
    }
  }

  lemma {:induction false} CountOneMoreGroup(
    nodes: Nodes, layer: NodeType, rows: seq<(NodeStatus, nat)>, i: nat, bucket: set<NodeStatus>)
    requires Grouping(nodes, layer, rows) && i < |rows|
    ensures |WithStatus(nodes, layer, SeenStatuses(rows, i + 1) * bucket)|
            == |WithStatus(nodes, layer, SeenStatuses(rows, i) * bucket)| + if rows[i].0 in bucket then rows[i].1 else 0
  {
    assert SeenStatuses(rows, i + 1) == SeenStatuses(rows, i) + {rows[i].0};
    CountOneMoreStatus(nodes, layer, SeenStatuses(rows, i), rows[i].0, bucket);
  }

  lemma {:induction false} AllGroupsSeen(
    nodes: Nodes, layer: NodeType, rows: seq<(NodeStatus, nat)>, bucket: set<NodeStatus>)
    requires Grouping(nodes, layer, rows)
    ensures WithStatus(nodes, layer, SeenStatuses(rows, |rows|) * bucket) == WithStatus(nodes, layer, bucket)
  {
    forall id | id in WithStatus(nodes, layer, bucket)
      ensures nodes[id].status in SeenStatuses(rows, |rows|)
    {
      assert id in WithStatus(nodes, layer, {nodes[id].status});
    }
  }

  /** The sum of the counts of the first i groups whose status is in the bucket. */
  function GroupSum(rows: seq<(NodeStatus, nat)>, i: nat, bucket: set<NodeStatus>): nat
    requires i <= |rows|
  {
    if i == 0 then 0 else GroupSum(rows, i - 1, bucket) + if rows[i - 1].0 in bucket then rows[i - 1].1 else 0
  }

  lemma {:induction false} NothingSeen(nodes: Nodes, layer: NodeType, none: set<NodeStatus>)
    requires none == {}
    ensures WithStatus(nodes, layer, none) == {}
  {
  }

  lemma {:induction false} GroupSumCounts(
    nodes: Nodes, layer: NodeType, rows: seq<(NodeStatus, nat)>, i: nat, bucket: set<NodeStatus>)
    requires Grouping(nodes, layer, rows) && i <= |rows|
    ensures GroupSum(rows, i, bucket) == |WithStatus(nodes, layer, SeenStatuses(rows, i) * bucket)|
  {
    if i == 0 {
      NothingSeen(nodes, layer, SeenStatuses(rows, 0) * bucket);
    } else {
      GroupSumCounts(nodes, layer, rows, i - 1, bucket);
      CountOneMoreGroup(nodes, layer, rows, i - 1, bucket);
    }
  }

  lemma {:induction false} GroupsCounted(
    nodes: Nodes, layer: NodeType, rows: seq<(NodeStatus, nat)>, bucket: set<NodeStatus>)
    requires Grouping(nodes, layer, rows)
    ensures GroupSum(rows, |rows|, bucket) == |WithStatus(nodes, layer, bucket)|
  {
    GroupSumCounts(nodes, layer, rows, |rows|, bucket);
    AllGroupsSeen(nodes, layer, rows, bucket);
  }

  const UNSETTLED: set<NodeStatus> := {Pending, Generating, AwaitingReview, Rejected}
  const IN_FLIGHT: set<NodeStatus> := {Pending, Generating, Rejected}
  const HAS_CONTENT: set<NodeStatus> := {Approved, AwaitingReview}

  /** The counts that gate the expand step. */
  method LayerAggregate(ghost nodes: Nodes, ghost layer: NodeType, rows: seq<(NodeStatus, nat)>)
    returns (approved: nat, failed: nat, pending: nat)
    requires Grouping(nodes, layer, rows)
    ensures approved == |WithStatus(nodes, layer, {Approved})|
    ensures failed == |WithStatus(nodes, layer, {Failed})|
    ensures pending == |WithStatus(nodes, layer, {Pending, Generating, AwaitingReview, Rejected})|
  {
    approved, failed, pending := 0, 0, 0;
    for i := 0 to |rows|
      invariant approved == GroupSum(rows, i, {Approved})
      invariant failed == GroupSum(rows, i, {Failed})
      invariant pending == GroupSum(rows, i, UNSETTLED)
    {
      match rows[i].0
      case Approved => approved := approved + rows[i].1;
      case Failed => failed := failed + rows[i].1;
      case Pending | Generating | AwaitingReview | Rejected => pending := pending + rows[i].1;
    }
    GroupsCounted(nodes, layer, rows, {Approved});
    GroupsCounted(nodes, layer, rows, {Failed});
    GroupsCounted(nodes, layer, rows, UNSETTLED);
  }

  /** The counts that decide whether generation of a layer has settled. */
  method LayerSettleCounts(ghost nodes: Nodes, ghost layer: NodeType, rows: seq<(NodeStatus, nat)>)
    returns (inFlight: nat, approvedOrAwaiting: nat, allFailed: bool)
    requires Grouping(nodes, layer, rows)
    ensures inFlight == |WithStatus(nodes, layer, {Pending, Generating, Rejected})|
    ensures approvedOrAwaiting == |WithStatus(nodes, layer, {Approved, AwaitingReview})|
    ensures allFailed <==>
            LayerNodes(nodes, layer) != {} && LayerNodes(nodes, layer) == WithStatus(nodes, layer, {Failed})
  {
    inFlight, approvedOrAwaiting := 0, 0;
    var totalNodes := 0;
    ghost var everything := UNSETTLED + {Approved, Failed};
    for i := 0 to |rows|
      invariant totalNodes == GroupSum(rows, i, everything)
      invariant inFlight == GroupSum(rows, i, IN_FLIGHT)
      invariant approvedOrAwaiting == GroupSum(rows, i, HAS_CONTENT)
    {
      totalNodes := totalNodes + rows[i].1;
      match rows[i].0
      case Pending | Generating => inFlight := inFlight + rows[i].1;
      case Approved | AwaitingReview => approvedOrAwaiting := approvedOrAwaiting + rows[i].1;
      case Failed =>
      case Rejected => inFlight := inFlight + rows[i].1;
    }
    GroupsCounted(nodes, layer, rows, everything);
    GroupsCounted(nodes, layer, rows, IN_FLIGHT);
    GroupsCounted(nodes, layer, rows, HAS_CONTENT);
    EveryStatus(nodes, layer);
    allFailed := totalNodes > 0 && inFlight == 0 && approvedOrAwaiting == 0;
    SettledSplit(nodes, layer);
  }

  datatype Settled = AllFailed | Transitioned | NothingToSettle | StillInFlight

  /** What settling a layer should conclude. */
  function Conclusion(nodes: Nodes, layer: NodeType): Settled {
    if WithStatus(nodes, layer, IN_FLIGHT) != {} then StillInFlight
    else if LayerNodes(nodes, layer) == {} then NothingToSettle
    else if LayerNodes(nodes, layer) == WithStatus(nodes, layer, {Failed}) then AllFailed
    else Transitioned
  }

  lemma {:induction false} EveryStatus(nodes: Nodes, layer: NodeType)
    ensures WithStatus(nodes, layer, UNSETTLED + {Approved, Failed}) == LayerNodes(nodes, layer)
  {
    assert forall st: NodeStatus :: st in UNSETTLED + {Approved, Failed} by {
      forall st: NodeStatus
        ensures st in UNSETTLED + {Approved, Failed}
      {
        match st
        case Pending => case Generating => case AwaitingReview =>
        case Approved => case Rejected => case Failed =>
      }
    }
  }

  /** A layer is all failed exactly when nothing in it is in flight or has content. */
  lemma {:induction false} SettledSplit(nodes: Nodes, layer: NodeType)
    ensures WithStatus(nodes, layer, IN_FLIGHT) == {} && WithStatus(nodes, layer, HAS_CONTENT) == {}
            <==> LayerNodes(nodes, layer) == WithStatus(nodes, layer, {Failed})
  {
    var inFlight, content, failed :=
      WithStatus(nodes, layer, IN_FLIGHT), WithStatus(nodes, layer, HAS_CONTENT), WithStatus(nodes, layer, {Failed});
    forall id | id in LayerNodes(nodes, layer)
      ensures id in failed <==> id !in inFlight && id !in content
    {
      match nodes[id].status
      case Pending => case Generating => case AwaitingReview =>
      case Approved => case Rejected => case Failed =>
    }
    var all := LayerNodes(nodes, layer);
    assert inFlight <= all && content <= all && failed <= all;
  }

  /** SELECT status, COUNT(*) ... GROUP BY status. */
  method GroupByStatus(nodes: Nodes, layer: NodeType) returns (rows: seq<(NodeStatus, nat)>)
    ensures Grouping(nodes, layer, rows)
  {
    var all := [Pending, Generating, AwaitingReview, Approved, Rejected, Failed];
    rows := [];
    for i := 0 to |all|
      invariant forall k :: 0 <= k < |rows| ==>
                  rows[k].0 in all[..i] && rows[k].1 == |WithStatus(nodes, layer, {rows[k].0})|
      invariant forall k, l :: 0 <= k < l < |rows| ==> rows[k].0 != rows[l].0
      invariant forall k :: 0 <= k < i && WithStatus(nodes, layer, {all[k]}) != {} ==>
                  exists l :: 0 <= l < |rows| && rows[l].0 == all[k]
    {
      var ids := WithStatus(nodes, layer, {all[i]});
      if ids != {} {
        ghost var previous := rows;
        rows := rows + [(all[i], |ids|)];
        assert rows[|previous|].0 == all[i];
        assert forall l :: 0 <= l < |previous| ==> rows[l] == previous[l];
      }
    }
    forall st: NodeStatus | WithStatus(nodes, layer, {st}) != {}
      ensures exists l :: 0 <= l < |rows| && rows[l].0 == st
    {
      var k :| 0 <= k < |all| && all[k] == st by { StatusListed(st); }
    }
  }

  lemma {:induction false} StatusListed(st: NodeStatus)
    ensures var all := [Pending, Generating, AwaitingReview, Approved, Rejected, Failed];
            exists k :: 0 <= k < |all| && all[k] == st
  {
    var all := [Pending, Generating, AwaitingReview, Approved, Rejected, Failed];
    assert all[0] == Pending && all[1] == Generating && all[2] == AwaitingReview;
    assert all[3] == Approved && all[4] == Rejected && all[5] == Failed;
  }

  // ---------------------------------------------------------------- layer operations

  datatype ExpandResult = Expanded | TreeComplete | LayerExpandConflict

  datatype CourseStatus = SyllabusApproved | CourseGenerating | AwaitingLayerApproval | AwaitingRegeneration

  /** Every row that was there is there, unchanged. */
  ghost predicate Grown(before: Nodes, after: Nodes) {
    forall id :: id in before ==> id in after && after[id] == before[id]
  }

  /** Every slot 0..count of every parent is taken. */
  ghost predicate SlotsFilled(nodes: Nodes, parents: set<NodeId>, count: nat) {
    forall p, i: nat :: p in parents && i < count ==> Occupied(nodes, p, i)
  }

  /** Only fresh pending children of these parents, in these slots, were added. */
  ghost predicate OnlyAdded(before: Nodes, after: Nodes, parents: set<NodeId>, count: nat, layer: NodeType) {
    forall id :: id in after && id !in before ==>
      && after[id].parent.Some? && after[id].parent.value in parents
      && after[id].nodeType == layer && after[id].ordering < count
      && after[id].status == Pending && after[id].payload == EMPTY_PAYLOAD
      && !Occupied(before, after[id].parent.value, after[id].ordering)
  }

  ghost predicate SiblingsUnique(nodes: Nodes) {
    forall a, b ::
      (&& a in nodes && b in nodes && nodes[a].parent.Some?
       && nodes[a].parent == nodes[b].parent && nodes[a].ordering == nodes[b].ordering) ==> a == b
  }

  function ChildCount(layer: NodeType, conceptsPerSection: int): nat {
    if layer == Concept then EffectiveConcepts(conceptsPerSection) else 1
  }

  /** A concept count that is not configured, or not positive, means three. */
  function EffectiveConcepts(configured: int): nat {
    if configured <= 0 then 3 else configured
  }

  /** No homework rows, or none readable, means five sections. */
  function EffectiveSections(homeworkRows: nat): nat {
    if homeworkRows == 0 then 5 else homeworkRows
  }

  /** The table of one course, its course row, and the runner's operations on them. */
  class LayeredRunner {
    var nodes: Nodes
    var courseStatus: CourseStatus
    var currentLayer: Option<NodeType>
    var nextID: NodeId
    var clock: int

    ghost predicate Valid()
      reads this
    {
      && (forall id :: id in nodes ==> id < nextID)
      && SiblingsUnique(nodes)
      && (forall a, b :: a in nodes && b in nodes && nodes[a].nodeType == nodes[b].nodeType == Root ==> a == b)
    }

    constructor ()
      ensures Valid() && nodes == map[] && courseStatus == SyllabusApproved && currentLayer == None
    {
      nodes, courseStatus, currentLayer, nextID, clock := map[], SyllabusApproved, None, 0, 0;
    }

    /** The compare-and-set behind every claim and every approval. */
    method TransitionNodeStatus(id: NodeId, from: NodeStatus, to: NodeStatus) returns (ok: bool)
      requires Valid()
      modifies this`nodes
      ensures Valid()
      ensures ok <==> id in old(nodes) && old(nodes)[id].status == from
      ensures nodes == Transition(old(nodes), id, from, to, clock)
      ensures ok ==> nodes[id].status == to && nodes[id].updatedAt == clock
                     && nodes[id].payload == old(nodes)[id].payload
                     && SamePlace(nodes[id], old(nodes)[id])
      ensures OthersKept(nodes, old(nodes), id) && (!ok ==> nodes == old(nodes))
    {
      ok := id in nodes && nodes[id].status == from;
      if ok {
        nodes := nodes[id := nodes[id].(status := to, updatedAt := clock)];
      }
    }

    method SetNodePayload(id: NodeId, payload: string)
      requires Valid()
      modifies this`nodes
      ensures Valid() && nodes == WritePayload(old(nodes), id, payload, clock)
      ensures id in nodes ==> nodes[id].payload == payload && nodes[id].status == AwaitingReview
                              && nodes[id].updatedAt == clock
                              && SamePlace(nodes[id], old(nodes)[id])
      ensures OthersKept(nodes, old(nodes), id)
    {
      if id in nodes {
        nodes := nodes[id := nodes[id].(payload := payload, status := AwaitingReview, updatedAt := clock)];
      }
    }

    method FailNode(id: NodeId)
      requires Valid()
      modifies this`nodes
      ensures Valid() && nodes == MarkFailed(old(nodes), id, clock)
      ensures id in nodes ==> nodes[id].status == Failed && nodes[id].payload == old(nodes)[id].payload
                              && nodes[id].updatedAt == clock
                              && SamePlace(nodes[id], old(nodes)[id])
      ensures OthersKept(nodes, old(nodes), id)
    {
      if id in nodes {
        nodes := nodes[id := nodes[id].(status := Failed, updatedAt := clock)];
      }
    }

    /** Nodes stuck in generating for more than ten minutes can be claimed again. */
    method ResetStaleGeneratingNodes()
      requires Valid()
      modifies this`nodes
      ensures Valid() && nodes == ResetStale(old(nodes), clock)
      ensures FreedFrom(nodes, old(nodes), clock)
      ensures forall id :: id in nodes ==>
                if old(nodes)[id].status == Generating && clock - old(nodes)[id].updatedAt > 600 then
                  nodes[id].status == Pending && nodes[id].updatedAt == clock
                else nodes[id] == old(nodes)[id]
    {
      var freed := map id | id in nodes ::
        if nodes[id].status == Generating && nodes[id].updatedAt < clock - STALE_AFTER_SECONDS
        then nodes[id].(status := Pending, updatedAt := clock)
        else nodes[id];
      assert freed == ResetStale(nodes, clock);
      ResetStaleFrees(nodes, clock);
      nodes := freed;
    }

    /** After generation: the course waits for approval as soon as nothing of the layer is in flight
        and something has content. */
    method SettleLayer(layer: NodeType) returns (settled: Settled)
      modifies this`courseStatus, this`currentLayer
      ensures settled == Conclusion(nodes, layer)
      ensures courseStatus == if settled == Transitioned then AwaitingLayerApproval else old(courseStatus)
      ensures currentLayer == if settled == Transitioned then Some(layer) else old(currentLayer)
    {
      var rows := GroupByStatus(nodes, layer);
      var inFlight, approvedOrAwaiting, allFailed := LayerSettleCounts(nodes, layer, rows);
      SettledSplit(nodes, layer);
      if inFlight > 0 {
        return StillInFlight;
      }
      if allFailed {
        return AllFailed;
      }
      if approvedOrAwaiting == 0 {
        return NothingToSettle;
      }
      courseStatus, currentLayer := AwaitingLayerApproval, Some(layer);
      settled := Transitioned;
    }

    /** First activation: root and syllabus already approved, one pending section goal per section.
        What is already there is kept; the node found at the syllabus's place is used as it is. */
    method SeedTree(homeworkRows: nat, rootPayload: string, syllabusPayload: string)
      returns (rootID: NodeId, syllabusID: NodeId)
      requires Valid()
      modifies this`nodes, this`nextID, this`courseStatus, this`currentLayer
      ensures Valid() && Grown(old(nodes), nodes)
      ensures rootID in nodes && nodes[rootID].nodeType == Root
      ensures syllabusID in nodes && IsChildAt(nodes[syllabusID], rootID, 0)
      ensures rootID !in old(nodes) ==>
                nodes[rootID].parent == None && nodes[rootID].status == Approved && nodes[rootID].payload == rootPayload
      ensures syllabusID !in old(nodes) ==>
                && nodes[syllabusID].nodeType == Syllabus && nodes[syllabusID].status == Approved
                && nodes[syllabusID].payload == syllabusPayload
      ensures SlotsFilled(nodes, {syllabusID}, if homeworkRows == 0 then 5 else homeworkRows)
      ensures OnlyAdded(Put(Put(old(nodes), rootID, nodes[rootID]), syllabusID, nodes[syllabusID]), nodes,
                        {syllabusID}, EffectiveSections(homeworkRows), SectionGoal)
      ensures courseStatus == CourseGenerating && currentLayer == Some(SectionGoal)
    {
      rootID, syllabusID := SeedHead(rootPayload, syllabusPayload);
      ghost var seeded := nodes;
      AddChildren(seeded, {syllabusID}, syllabusID, SectionGoal, EffectiveSections(homeworkRows));
      assert nodes[rootID] == seeded[rootID] && nodes[syllabusID] == seeded[syllabusID];
      courseStatus, currentLayer := CourseGenerating, Some(SectionGoal);
    }

    /** The first two inserts of the seed. */
    method SeedHead(rootPayload: string, syllabusPayload: string) returns (rootID: NodeId, syllabusID: NodeId)
      requires Valid()
      modifies this`nodes, this`nextID
      ensures Valid() && Grown(old(nodes), nodes)
      ensures rootID in nodes && nodes[rootID].nodeType == Root
      ensures syllabusID in nodes && IsChildAt(nodes[syllabusID], rootID, 0)
      ensures nodes == Put(Put(old(nodes), rootID, nodes[rootID]), syllabusID, nodes[syllabusID])
      ensures rootID !in old(nodes) ==>
                nodes[rootID].parent == None && nodes[rootID].status == Approved && nodes[rootID].payload == rootPayload
      ensures syllabusID !in old(nodes) ==>
                && nodes[syllabusID].nodeType == Syllabus && nodes[syllabusID].status == Approved
                && nodes[syllabusID].payload == syllabusPayload
    {
      rootID := EnsureRoot(rootPayload);
      ghost var rooted := nodes;
      syllabusID := EnsureSyllabus(rootID, syllabusPayload);
      assert nodes[rootID] == rooted[rootID];
    }

    /** INSERT ... ON CONFLICT ... RETURNING id, for the root. */
    method EnsureRoot(payload: string) returns (rootID: NodeId)
      requires Valid()
      modifies this`nodes, this`nextID
      ensures Valid() && rootID in nodes && nodes[rootID].nodeType == Root
      ensures nodes == InsertRoot(old(nodes), old(nextID), payload, clock)
      ensures nodes == Put(old(nodes), rootID, nodes[rootID])
      ensures rootID !in old(nodes) ==> nodes[rootID] == CourseNode(None, Root, 0, Approved, payload, clock)
    {
      var roots := set id | id in nodes && nodes[id].nodeType == Root;
      assert forall id :: id in nodes && nodes[id].nodeType == Root ==> id in roots;
      if roots == {} {
        rootID := nextID;
        nodes := nodes[rootID := CourseNode(None, Root, 0, Approved, payload, clock)];
        nextID := nextID + 1;
      } else {
        var r :| r in roots;
        rootID := r;
      }
    }

    /** INSERT ... ON CONFLICT ... RETURNING id, for the syllabus. */
    method EnsureSyllabus(rootID: NodeId, payload: string) returns (syllabusID: NodeId)
      requires Valid() && rootID in nodes
      modifies this`nodes, this`nextID
      ensures Valid() && syllabusID in nodes && IsChildAt(nodes[syllabusID], rootID, 0)
      ensures nodes == InsertChild(
                old(nodes), old(nextID), CourseNode(Some(rootID), Syllabus, 0, Approved, payload, clock))
      ensures nodes == Put(old(nodes), syllabusID, nodes[syllabusID])
      ensures syllabusID !in old(nodes) ==>
                nodes[syllabusID] == CourseNode(Some(rootID), Syllabus, 0, Approved, payload, clock)
    {
      var taken := set c | c in nodes && nodes[c].parent == Some(rootID) && nodes[c].ordering == 0;
      assert forall c :: c in nodes && IsChildAt(nodes[c], rootID, 0) ==> c in taken;
      if taken == {} {
        syllabusID := nextID;
        nodes := nodes[syllabusID := CourseNode(Some(rootID), Syllabus, 0, Approved, payload, clock)];
        nextID := nextID + 1;
      } else {
        var c :| c in taken;
        syllabusID := c;
        assert IsChildAt(nodes[c], rootID, 0);
      }
    }

    /** One insert of the expand loop. */
    method InsertPending(parent: NodeId, layer: NodeType, ordering: nat)
      requires Valid() && parent in nodes && layer != Root
      modifies this`nodes, this`nextID
      ensures Valid()
      ensures nodes == InsertChild(
                old(nodes), old(nextID), CourseNode(Some(parent), layer, ordering, Pending, EMPTY_PAYLOAD, clock))
      ensures Occupied(nodes, parent, ordering)
    {
      var taken := set c | c in nodes && nodes[c].parent == Some(parent) && nodes[c].ordering == ordering;
      assert forall c :: c in nodes && IsChildAt(nodes[c], parent, ordering) ==> c in taken;
      if taken == {} {
        nodes := nodes[nextID := CourseNode(Some(parent), layer, ordering, Pending, EMPTY_PAYLOAD, clock)];
        assert IsChildAt(nodes[nextID], parent, ordering);
        nextID := nextID + 1;
      } else {
        var c :| c in taken;
        assert IsChildAt(nodes[c], parent, ordering);
      }
    }

    /** Gives every approved node of the layer its children in the next one.  The argument is not
        compared with the course's current layer, and the current layer is overwritten. */
    method ExpandToNextLayer(layer: NodeType, conceptsPerSection: int) returns (result: ExpandResult)
      requires Valid()
      modifies this`nodes, this`nextID, this`courseStatus, this`currentLayer
      ensures Valid() && Grown(old(nodes), nodes)
      ensures result == TreeComplete <==> layer == Content
      ensures result == LayerExpandConflict <==>
                && layer != Content
                && (WithStatus(old(nodes), layer, UNSETTLED) != {} || WithStatus(old(nodes), layer, {Approved}) == {})
      ensures result != Expanded ==>
                nodes == old(nodes) && courseStatus == old(courseStatus) && currentLayer == old(currentLayer)
      ensures result == Expanded ==>
                && courseStatus == CourseGenerating && currentLayer == NextLayer(layer)
                && (var parents, next := WithStatus(old(nodes), layer, {Approved}), NextLayer(layer).value;
                    var count :=
                      if next != Concept then 1 else if conceptsPerSection > 0 then conceptsPerSection else 3;
                    && SlotsFilled(nodes, parents, count)
                    && OnlyAdded(old(nodes), nodes, parents, count, next))
    {
      if layer == Content {
        return TreeComplete;
      }
      var rows := GroupByStatus(nodes, layer);
      var approvedCount, _, pendingCount := LayerAggregate(nodes, layer, rows);
      if pendingCount > 0 || approvedCount == 0 {
        return LayerExpandConflict;
      }
      var approved := WithStatus(nodes, layer, {Approved});
      var next := NextLayer(layer).value;
      AddLayer(approved, next, ChildCount(next, conceptsPerSection));
      courseStatus, currentLayer := CourseGenerating, Some(next);
      return Expanded;
    }

    /** The outer loop of the expand step: every parent in turn, in no particular order. */
    method AddLayer(parents: set<NodeId>, layer: NodeType, count: nat)
      requires Valid() && layer != Root && parents <= nodes.Keys
      modifies this`nodes, this`nextID
      ensures Valid() && Grown(old(nodes), nodes)
      ensures SlotsFilled(nodes, parents, count)
      ensures OnlyAdded(old(nodes), nodes, parents, count, layer)
    {
      ghost var before := nodes;
      var left := parents;
      while left != {}
        invariant Valid() && left <= parents && Grown(before, nodes)
        invariant SlotsFilled(nodes, parents - left, count)
        invariant OnlyAdded(before, nodes, parents, count, layer)
        decreases |left|
      {
        var parent :| parent in left;
        ghost var previous := nodes;
        AddChildren(before, parents, parent, layer, count);
        SlotsGrow(previous, nodes, parents - left, parent, count);
        left := left - {parent};
        assert parents - left == (parents - (left + {parent})) + {parent};
      }
      assert parents - left == parents;
    }

    /** The inner loop of the expand step. */
    method AddChildren(ghost before: Nodes, ghost parents: set<NodeId>, parent: NodeId, layer: NodeType, count: nat)
      requires Valid() && parent in parents && parent in before && layer != Root && Grown(before, nodes)
      requires OnlyAdded(before, nodes, parents, count, layer)
      modifies this`nodes, this`nextID
      ensures Valid() && Grown(before, nodes) && Grown(old(nodes), nodes)
      ensures SlotsFilled(nodes, {parent}, count)
      ensures OnlyAdded(before, nodes, parents, count, layer)
    {
      for i := 0 to count
        invariant Valid() && Grown(before, nodes) && Grown(old(nodes), nodes)
        invariant SlotsFilled(nodes, {parent}, i)
        invariant OnlyAdded(before, nodes, parents, count, layer)
      {
        ghost var previous := nodes;
        InsertPending(parent, layer, i);
        InsertedOnly(before, previous, nodes, parents, count, layer, parent, i);
        SlotAdded(previous, nodes, parent, i);
      }
    }
  }

  lemma {:induction false} OccupiedGrows(before: Nodes, after: Nodes)
    requires Grown(before, after)
    ensures forall p, i: nat :: Occupied(before, p, i) ==> Occupied(after, p, i)
  {
  }

  lemma {:induction false} SlotAdded(before: Nodes, after: Nodes, parent: NodeId, i: nat)
    requires Grown(before, after) && SlotsFilled(before, {parent}, i) && Occupied(after, parent, i)
    ensures SlotsFilled(after, {parent}, i + 1)
  {
    OccupiedGrows(before, after);
  }

  lemma {:induction false} SlotsGrow(before: Nodes, after: Nodes, parents: set<NodeId>, parent: NodeId, count: nat)
    requires Grown(before, after) && SlotsFilled(before, parents, count) && SlotsFilled(after, {parent}, count)
    ensures SlotsFilled(after, parents + {parent}, count)
  {
    OccupiedGrows(before, after);
  }

  lemma {:induction false} InsertedOnly(
    before: Nodes, previous: Nodes, after: Nodes, parents: set<NodeId>, count: nat, layer: NodeType,
    parent: NodeId, i: nat)
    requires Grown(before, previous) && OnlyAdded(before, previous, parents, count, layer)
    requires parent in parents && i < count
    requires exists id, now ::
               after == InsertChild(previous, id, CourseNode(Some(parent), layer, i, Pending, EMPTY_PAYLOAD, now))
    ensures OnlyAdded(before, after, parents, count, layer)
  {
  }

  /** Expanding a layer twice, nothing else having happened in between, adds nothing the second
      time, and no sibling position is ever used twice. */
  lemma {:induction false} ExpandAgainAddsNothing(
    before: Nodes, once: Nodes, twice: Nodes, layer: NodeType, conceptsPerSection: int)
    requires NextLayer(layer).Some?
    requires var next := NextLayer(layer).value;
             var count := ChildCount(next, conceptsPerSection);
             && SlotsFilled(once, WithStatus(before, layer, {Approved}), count)
             && Grown(before, once) && Grown(once, twice)
             && OnlyAdded(before, once, WithStatus(before, layer, {Approved}), count, next)
             && OnlyAdded(once, twice, WithStatus(once, layer, {Approved}), count, next)
    ensures WithStatus(once, layer, {Approved}) == WithStatus(before, layer, {Approved})
    ensures twice == once
  {
    forall id | id in WithStatus(once, layer, {Approved})
      ensures id in WithStatus(before, layer, {Approved})
    {
      assert id in before;
    }
    assert WithStatus(once, layer, {Approved}) == WithStatus(before, layer, {Approved});
    assert forall id :: id in twice ==> id in once;
  }
}
