/**
 Every interleaving of the layered pipeline on one course's tree: seeds and expands running
 statement by statement, claims, completion and failure writes, reviews, and resets.

 A completion or failure write may come at any time, from a generator that was started earlier.
 The tree need not start empty: a course made from a draft starts with the copied nodes.
 */
module LayeredRuns {
  import opened Prelude
  import opened CourseTree

  type TaskId = nat

  /** A seed or expand call, standing before its next statement. */
  datatype Task =
    | SeedRoot(sections: nat)
    | SeedSyllabus(sections: nat, root: NodeId)
    | SeedSections(sections: nat, syllabus: NodeId, i: nat)
    | ExpandCheck(layer: NodeType, concepts: int)
    | ExpandList(layer: NodeType, concepts: int)
    | ExpandInsert(layer: NodeType, concepts: int, parents: seq<NodeId>, p: nat, i: nat)

  /** `ever` collects the nodes that have been approved at some moment, `given` the nodes that were
      there at the start or were generated one by one. */
  datatype State = State(
    nodes: Nodes, ever: set<NodeId>, given: set<NodeId>, tasks: map<TaskId, Task>, clock: int)

  datatype Step =
    | StartSeed(t: TaskId, homeworkRows: nat)
    | StartExpand(t: TaskId, layer: NodeType, concepts: int)
    | Advance(t: TaskId, newID: NodeId, listing: seq<NodeId>)
    | Abort(t: TaskId)
    | Generate(newID: NodeId, nodeType: NodeType, parent: Option<NodeId>)
    | Claim(id: NodeId, from: NodeStatus)
    | Complete(id: NodeId, payload: string)
    | Fail(id: NodeId)
    | Approve(id: NodeId)
    | Feedback(id: NodeId, payload: string)
    | ResetStaleNodes
    | ResetRejectedNodes(layer: NodeType)
    | Tick(seconds: nat)

  /** A course whose tree is already there. */
  function Starting(nodes: Nodes, clock: int): State {
    State(nodes, ApprovedNow(nodes), nodes.Keys, map[], clock)
  }

  function ApprovedNow(nodes: Nodes): set<NodeId> {
    set id | id in nodes && nodes[id].status == Approved
  }

  /** A new table, with the approvals in it remembered. */
  function WithNodes(s: State, nodes: Nodes): State {
    s.(nodes := nodes, ever := s.ever + ApprovedNow(nodes))
  }

  ghost function RootOf(nodes: Nodes): NodeId
    requires HasRoot(nodes)
  {
    var r :| r in nodes && nodes[r].nodeType == Root;
    r
  }

  ghost function ChildAt(nodes: Nodes, parent: NodeId, ordering: nat): NodeId
    requires Occupied(nodes, parent, ordering)
  {
    var c :| c in nodes && IsChildAt(nodes[c], parent, ordering);
    c
  }

  function PendingChild(s: State, parent: NodeId, layer: NodeType, ordering: nat): CourseNode {
    CourseNode(Some(parent), layer, ordering, Pending, EMPTY_PAYLOAD, s.clock)
  }

  /** The child inserted, unless its place is taken, and task t moved on. */
  ghost function WithInserted(s: State, t: TaskId, newID: NodeId, child: CourseNode, task: Task): State
    requires child.parent.Some?
  {
    WithNodes(s, InsertChild(s.nodes, newID, child)).(tasks := s.tasks[t := task])
  }

  /** The next statement of a seed or expand call.  newID is what the database would generate. */
  ghost function AdvanceTask(s: State, t: TaskId, newID: NodeId, listing: seq<NodeId>): State
    requires t in s.tasks && newID !in s.nodes
  {
    match s.tasks[t]
    case SeedRoot(n) =>
      var nodes := InsertRoot(s.nodes, newID, EMPTY_PAYLOAD, s.clock);
      if HasRoot(nodes) then
        WithNodes(s, nodes).(tasks := s.tasks[t := SeedSyllabus(n, RootOf(nodes))])
      else
        s
    case SeedSyllabus(n, root) =>
      var nodes := InsertChild(s.nodes, newID, PendingChild(s, root, Syllabus, 0).(status := Approved));
      if Occupied(nodes, root, 0) then
        WithNodes(s, nodes).(tasks := s.tasks[t := SeedSections(n, ChildAt(nodes, root, 0), 0)])
      else
        s
    case SeedSections(n, syllabus, i) =>
      if i < n then
        WithInserted(s, t, newID, PendingChild(s, syllabus, SectionGoal, i), SeedSections(n, syllabus, i + 1))
      else
        s.(tasks := s.tasks - {t})
    case ExpandCheck(layer, c) =>
      if layer == Content
         || WithStatus(s.nodes, layer, UNSETTLED) != {} || WithStatus(s.nodes, layer, {Approved}) == {}
      then
        s.(tasks := s.tasks - {t})
      else
        s.(tasks := s.tasks[t := ExpandList(layer, c)])
    case ExpandList(layer, c) =>
      if (set p | p in listing) == WithStatus(s.nodes, layer, {Approved}) then
        s.(tasks := s.tasks[t := ExpandInsert(layer, c, listing, 0, 0)])
      else
        s
    case ExpandInsert(layer, c, parents, p, i) =>
      if p >= |parents| || NextLayer(layer) == None then
        s.(tasks := s.tasks - {t})
      else
        var next := NextLayer(layer).value;
        if i < ChildCount(next, c) then
          WithInserted(s, t, newID, PendingChild(s, parents[p], next, i), ExpandInsert(layer, c, parents, p, i + 1))
        else
          s.(tasks := s.tasks[t := ExpandInsert(layer, c, parents, p + 1, 0)])
  }

  /** The insert behind a request for a single node is accepted: any type but the root, below any
      node of the course that has no first child yet. */
  predicate GenerateAccepted(s: State, newID: NodeId, nodeType: NodeType, parent: Option<NodeId>) {
    && newID !in s.nodes && nodeType != Root
    && parent.Some? && parent.value in s.nodes && !Occupied(s.nodes, parent.value, 0)
  }

  /** One atomic step; a step that does not apply changes nothing. */
  ghost function Apply(s: State, step: Step): State {
    match step
    case StartSeed(t, rows) =>
      if t in s.tasks then s else s.(tasks := s.tasks[t := SeedRoot(EffectiveSections(rows))])
    case StartExpand(t, layer, c) =>
      if t in s.tasks then s else s.(tasks := s.tasks[t := ExpandCheck(layer, c)])
    case Advance(t, newID, listing) =>
      if t in s.tasks && newID !in s.nodes then AdvanceTask(s, t, newID, listing) else s
    case Abort(t) =>
      s.(tasks := s.tasks - {t})
    case Generate(newID, nodeType, parent) =>
      if GenerateAccepted(s, newID, nodeType, parent) then
        WithNodes(s, Put(s.nodes, newID, PendingChild(s, parent.value, nodeType, 0))).(given := s.given + {newID})
      else
        s
    case Claim(id, from) =>
      if from == Generating then s else WithNodes(s, Transition(s.nodes, id, from, Generating, s.clock))
    case Complete(id, payload) =>
      WithNodes(s, WritePayload(s.nodes, id, payload, s.clock))
    case Fail(id) =>
      WithNodes(s, MarkFailed(s.nodes, id, s.clock))
    case Approve(id) =>
      WithNodes(s, Transition(s.nodes, id, AwaitingReview, Approved, s.clock))
    case Feedback(id, payload) =>
      WithNodes(s, Reject(s.nodes, id, payload, s.clock))
    case ResetStaleNodes =>
      WithNodes(s, ResetStale(s.nodes, s.clock))
    case ResetRejectedNodes(layer) =>
      WithNodes(s, ResetRejected(s.nodes, layer, s.clock))
    case Tick(seconds) =>
      s.(clock := s.clock + seconds)
  }

  ghost function Run(s: State, steps: seq<Step>): State {
    if steps == [] then s else Apply(Run(s, Front(steps)), Last(steps))
  }

  // ---------------------------------------------------------------- the shape of the tree

  ghost predicate OneRoot(nodes: Nodes) {
    forall a, b :: a in nodes && b in nodes && nodes[a].nodeType == nodes[b].nodeType == Root ==> a == b
  }

  /** Roots have no parent; every other node hangs exactly one layer below an existing node. */
  ghost predicate Layered(nodes: Nodes) {
    forall id :: id in nodes ==>
      if nodes[id].nodeType == Root then
        nodes[id].parent == None
      else
        && nodes[id].parent.Some? && nodes[id].parent.value in nodes
        && NextLayer(nodes[nodes[id].parent.value].nodeType) == Some(nodes[id].nodeType)
  }

  /** Roots have no parent; every other node hangs below an existing node. */
  ghost predicate Rooted(nodes: Nodes) {
    forall id :: id in nodes ==>
      if nodes[id].nodeType == Root then nodes[id].parent == None
      else nodes[id].parent.Some? && nodes[id].parent.value in nodes
  }

  /** What the table's constraints enforce. */
  ghost predicate Admissible(nodes: Nodes) {
    OneRoot(nodes) && SiblingsUnique(nodes) && Rooted(nodes)
  }

  /** Concepts and contents that were not given were only ever put below nodes that had been approved. */
  ghost predicate ParentsApproved(nodes: Nodes, ever: set<NodeId>, given: set<NodeId>) {
    forall id :: id in nodes && id !in given && nodes[id].nodeType in {Concept, Content} ==>
      nodes[id].parent.Some? && nodes[id].parent.value in ever
  }

  /** How many children a node of the layer above may have. */
  function Fanout(layer: NodeType, sections: nat, concepts: nat): nat {
    match layer
    case SectionGoal => sections
    case Concept => concepts
    case Root | Syllabus | Content => 1
  }

  ghost predicate OrderingsBounded(nodes: Nodes, sections: nat, concepts: nat) {
    forall id :: id in nodes ==> nodes[id].ordering < Fanout(nodes[id].nodeType, sections, concepts)
  }

  /** How much of the tree's shape is followed through a run: what every run keeps, the layering as
      well, or the numbers of children too. */
  datatype Demand = Basic | Layers | Sized(sections: nat, concepts: nat)

  ghost predicate TreeInv(nodes: Nodes, ever: set<NodeId>, d: Demand) {
    && Admissible(nodes)
    && (d != Basic ==> Layered(nodes))
    && (d.Sized? ==> OrderingsBounded(nodes, d.sections, d.concepts))
    && ApprovedNow(nodes) <= ever
  }

  predicate SectionsAllowed(n: nat, d: Demand) {
    d.Sized? ==> n <= d.sections
  }

  predicate ConceptsAllowed(c: int, d: Demand) {
    d.Sized? ==> EffectiveConcepts(c) <= d.concepts
  }

  ghost predicate TaskInv(nodes: Nodes, ever: set<NodeId>, task: Task, d: Demand) {
    match task
    case SeedRoot(n) => SectionsAllowed(n, d)
    case SeedSyllabus(n, root) => SectionsAllowed(n, d) && root in nodes && nodes[root].nodeType == Root
    case SeedSections(n, syllabus, i) =>
      SectionsAllowed(n, d) && syllabus in nodes && (d != Basic ==> nodes[syllabus].nodeType == Syllabus)
    case ExpandCheck(_, c) => ConceptsAllowed(c, d)
    case ExpandList(_, c) => ConceptsAllowed(c, d)
    case ExpandInsert(layer, c, parents, _, _) =>
      && ConceptsAllowed(c, d)
      && forall p :: p in parents ==> p in nodes && nodes[p].nodeType == layer && p in ever
  }

  ghost predicate Inv(s: State, d: Demand) {
    && TreeInv(s.nodes, s.ever, d)
    && forall t :: t in s.tasks ==> TaskInv(s.nodes, s.ever, s.tasks[t], d)
  }

  /** A request for a single node that is accepted and puts it in the wrong layer. */
  predicate Misplaces(s: State, step: Step) {
    && step.Generate? && GenerateAccepted(s, step.newID, step.nodeType, step.parent)
    && NextLayer(s.nodes[step.parent.value].nodeType) != Some(step.nodeType)
  }

  /** No seed reads more than `sections` sections, no expand more than `concepts` concepts. */
  predicate Bounded(step: Step, sections: nat, concepts: nat) {
    match step
    case StartSeed(_, rows) => EffectiveSections(rows) <= sections
    case StartExpand(_, _, c) => EffectiveConcepts(c) <= concepts
    case Generate(_, nodeType, _) => 1 <= Fanout(nodeType, sections, concepts)
    case _ => true
  }

  predicate Sensible(d: Demand) {
    d.Sized? ==> d.sections >= 1
  }

  ghost predicate Permitted(s: State, step: Step, d: Demand) {
    && (d != Basic ==> !Misplaces(s, step))
    && (d.Sized? ==> Bounded(step, d.sections, d.concepts))
  }

  /** What that comes to, the defaults of five sections and three concepts included. */
  lemma {:induction false} PermittedExactly(s: State, step: Step, sections: nat, concepts: nat)
    ensures Permitted(s, step, Sized(sections, concepts)) <==>
            match step
            case StartSeed(_, rows) => (if rows == 0 then 5 else rows) <= sections
            case StartExpand(_, _, c) => (if c <= 0 then 3 else c) <= concepts
            case Generate(_, nodeType, _) =>
              && !Misplaces(s, step)
              && (nodeType == SectionGoal ==> sections > 0) && (nodeType == Concept ==> concepts > 0)
            case _ => true
  {
  }

  /** Nodes stay, with their type and place; only status, payload and time may differ. */
  ghost predicate SameShape(before: Nodes, after: Nodes) {
    forall id :: id in before ==>
      && id in after && after[id].nodeType == before[id].nodeType
      && after[id].parent == before[id].parent && after[id].ordering == before[id].ordering
  }

  lemma {:induction false} TasksStay(s: State, s': State, d: Demand)
    requires Inv(s, d)
    requires SameShape(s.nodes, s'.nodes) && s.ever <= s'.ever
    ensures forall t :: t in s.tasks ==> TaskInv(s'.nodes, s'.ever, s.tasks[t], d)
  {
  }

  /** Writes that touch no shape keep the tree's shape. */
  lemma {:induction false} StatusWriteKeepsTree(
    before: Nodes, after: Nodes, ever: set<NodeId>, d: Demand)
    requires TreeInv(before, ever, d)
    requires SameShape(before, after) && after.Keys == before.Keys
    ensures TreeInv(after, ever + ApprovedNow(after), d)
  {
  }

  /** A row that fits: below an existing node and, on demand, in the layer below and within bounds. */
  ghost predicate Fits(nodes: Nodes, child: CourseNode, d: Demand) {
    && child.parent.Some? && child.parent.value in nodes && child.nodeType != Root
    && (d != Basic ==> NextLayer(nodes[child.parent.value].nodeType) == Some(child.nodeType))
    && (d.Sized? ==> child.ordering < Fanout(child.nodeType, d.sections, d.concepts))
  }

  lemma {:induction false} AddedSiblingsUnique(nodes: Nodes, id: NodeId, child: CourseNode, after: Nodes)
    requires SiblingsUnique(nodes) && id !in nodes && after == Put(nodes, id, child)
    requires child.parent.Some? ==> !Occupied(nodes, child.parent.value, child.ordering)
    ensures SiblingsUnique(after)
  {
  }

  lemma {:induction false} AddedLayered(nodes: Nodes, id: NodeId, child: CourseNode, after: Nodes)
    requires Layered(nodes) && id !in nodes && after == Put(nodes, id, child)
    requires if child.nodeType == Root then child.parent == None else
               && child.parent.Some? && child.parent.value in nodes
               && NextLayer(nodes[child.parent.value].nodeType) == Some(child.nodeType)
    ensures Layered(after)
  {
  }

  lemma {:induction false} AddedRooted(nodes: Nodes, id: NodeId, child: CourseNode, after: Nodes)
    requires Rooted(nodes) && OneRoot(nodes) && id !in nodes && after == Put(nodes, id, child)
    requires if child.nodeType == Root then child.parent == None && !HasRoot(nodes)
             else child.parent.Some? && child.parent.value in nodes
    ensures Rooted(after) && OneRoot(after)
  {
  }

  lemma {:induction false} TreeFrom(nodes: Nodes, ever: set<NodeId>, d: Demand)
    requires Admissible(nodes)
    requires d != Basic ==> Layered(nodes)
    requires d.Sized? ==> OrderingsBounded(nodes, d.sections, d.concepts)
    ensures TreeInv(nodes, ever + ApprovedNow(nodes), d)
  {
  }

  /** A row in a free place keeps the tree. */
  lemma {:induction false} RowAdded(
    nodes: Nodes, ever: set<NodeId>, id: NodeId, row: CourseNode, after: Nodes, d: Demand)
    requires TreeInv(nodes, ever, d) && id !in nodes && after == Put(nodes, id, row)
    requires if row.nodeType == Root then row.parent == None && row.ordering == 0 && !HasRoot(nodes) else
               Fits(nodes, row, d) && !Occupied(nodes, row.parent.value, row.ordering)
    ensures TreeInv(after, ever + ApprovedNow(after), d)
  {
    AddedSiblingsUnique(nodes, id, row, after);
    AddedRooted(nodes, id, row, after);
    if d != Basic {
      AddedLayered(nodes, id, row, after);
    }
    TreeFrom(after, ever, d);
  }

  lemma {:induction false} InsertKeepsTree(
    nodes: Nodes, ever: set<NodeId>, id: NodeId, child: CourseNode, d: Demand)
    requires TreeInv(nodes, ever, d) && id !in nodes && Fits(nodes, child, d)
    ensures var after := InsertChild(nodes, id, child);
            && TreeInv(after, ever + ApprovedNow(after), d)
            && SameShape(nodes, after) && Occupied(after, child.parent.value, child.ordering)
  {
    var after := InsertChild(nodes, id, child);
    if Occupied(nodes, child.parent.value, child.ordering) {
      TreeFrom(nodes, ever, d);
    } else {
      RowAdded(nodes, ever, id, child, after, d);
      assert IsChildAt(after[id], child.parent.value, child.ordering);
    }
  }

  lemma {:induction false} RootRowShape(nodes: Nodes, id: NodeId, root: CourseNode)
    requires id !in nodes && root.nodeType == Root
    ensures SameShape(nodes, Put(nodes, id, root)) && HasRoot(Put(nodes, id, root))
  {
    assert Put(nodes, id, root)[id].nodeType == Root;
  }

  lemma {:induction false} InsertRootKeepsTree(
    nodes: Nodes, ever: set<NodeId>, id: NodeId, now: int, d: Demand)
    requires TreeInv(nodes, ever, d) && id !in nodes
    ensures var after := InsertRoot(nodes, id, EMPTY_PAYLOAD, now);
            && TreeInv(after, ever + ApprovedNow(after), d)
            && SameShape(nodes, after) && HasRoot(after)
  {
    if HasRoot(nodes) {
      TreeFrom(nodes, ever, d);
    } else {
      var root := CourseNode(None, Root, 0, Approved, EMPTY_PAYLOAD, now);
      RootRowShape(nodes, id, root);
      RowAdded(nodes, ever, id, root, InsertRoot(nodes, id, EMPTY_PAYLOAD, now), d);
    }
  }

  /** A state whose table is one statement further and whose task t has moved on. */
  lemma {:induction false} TaskMoved(s: State, nodes: Nodes, t: TaskId, task: Task, d: Demand)
    requires Inv(s, d) && SameShape(s.nodes, nodes)
    requires TreeInv(nodes, s.ever + ApprovedNow(nodes), d)
    requires TaskInv(nodes, s.ever + ApprovedNow(nodes), task, d)
    ensures Inv(WithNodes(s, nodes).(tasks := s.tasks[t := task]), d)
  {
    TasksStay(s, WithNodes(s, nodes), d);
  }

  lemma {:induction false} TaskGone(s: State, t: TaskId, d: Demand)
    requires Inv(s, d)
    ensures Inv(s.(tasks := s.tasks - {t}), d)
  {
  }

  /** A child that fits is inserted for task t, which moves on. */
  lemma {:induction false} ChildInserted(
    s: State, t: TaskId, newID: NodeId, child: CourseNode, task: Task, d: Demand)
    requires Inv(s, d) && newID !in s.nodes && Fits(s.nodes, child, d)
    requires TaskInv(s.nodes, s.ever, task, d)
    ensures Inv(WithInserted(s, t, newID, child, task), d)
  {
    InsertKeepsTree(s.nodes, s.ever, newID, child, d);
    TaskMoved(s, InsertChild(s.nodes, newID, child), t, task, d);
  }

  lemma {:induction false} SeedRootKeepsInv(s: State, t: TaskId, newID: NodeId, n: nat, d: Demand)
    requires Inv(s, d) && t in s.tasks && s.tasks[t] == SeedRoot(n) && newID !in s.nodes
    ensures Inv(AdvanceTask(s, t, newID, []), d)
  {
    assert TaskInv(s.nodes, s.ever, s.tasks[t], d);
    var nodes := InsertRoot(s.nodes, newID, EMPTY_PAYLOAD, s.clock);
    InsertRootKeepsTree(s.nodes, s.ever, newID, s.clock, d);
    TaskMoved(s, nodes, t, SeedSyllabus(n, RootOf(nodes)), d);
  }

  lemma {:induction false} SyllabusAdvance(
    s: State, t: TaskId, newID: NodeId, listing: seq<NodeId>, n: nat, root: NodeId, nodes: Nodes)
    requires t in s.tasks && s.tasks[t] == SeedSyllabus(n, root) && newID !in s.nodes
    requires nodes == InsertChild(s.nodes, newID, PendingChild(s, root, Syllabus, 0).(status := Approved))
    requires Occupied(nodes, root, 0)
    ensures AdvanceTask(s, t, newID, listing)
            == WithNodes(s, nodes).(tasks := s.tasks[t := SeedSections(n, ChildAt(nodes, root, 0), 0)])
  {
  }

  lemma {:induction false} FirstChildOfRoot(nodes: Nodes, root: NodeId, c: NodeId)
    requires Layered(nodes) && root in nodes && nodes[root].nodeType == Root
    requires c in nodes && IsChildAt(nodes[c], root, 0)
    ensures nodes[c].nodeType == Syllabus
  {
  }

  lemma {:induction false} SeedSyllabusKeepsInv(
    s: State, t: TaskId, newID: NodeId, listing: seq<NodeId>, n: nat, root: NodeId, d: Demand)
    requires Inv(s, d) && t in s.tasks && s.tasks[t] == SeedSyllabus(n, root) && newID !in s.nodes
    requires TaskInv(s.nodes, s.ever, s.tasks[t], d)
    ensures Inv(AdvanceTask(s, t, newID, listing), d)
  {
    var child := PendingChild(s, root, Syllabus, 0).(status := Approved);
    var nodes := InsertChild(s.nodes, newID, child);
    InsertKeepsTree(s.nodes, s.ever, newID, child, d);
    SyllabusAdvance(s, t, newID, listing, n, root, nodes);
    var c := ChildAt(nodes, root, 0);
    if d != Basic {
      FirstChildOfRoot(nodes, root, c);
    }
    TaskMoved(s, nodes, t, SeedSections(n, c, 0), d);
  }

  lemma {:induction false} SectionFits(s: State, n: nat, syllabus: NodeId, i: nat, d: Demand)
    requires TaskInv(s.nodes, s.ever, SeedSections(n, syllabus, i), d) && i < n
    ensures Fits(s.nodes, PendingChild(s, syllabus, SectionGoal, i), d)
    ensures TaskInv(s.nodes, s.ever, SeedSections(n, syllabus, i + 1), d)
  {
  }

  lemma {:induction false} ExpandListKeepsInv(
    s: State, t: TaskId, listing: seq<NodeId>, layer: NodeType, c: int, d: Demand)
    requires Inv(s, d) && t in s.tasks && s.tasks[t] == ExpandList(layer, c)
    requires (set p | p in listing) == WithStatus(s.nodes, layer, {Approved})
    ensures TaskInv(s.nodes, s.ever, ExpandInsert(layer, c, listing, 0, 0), d)
  {
    assert TaskInv(s.nodes, s.ever, s.tasks[t], d);
    forall p | p in listing
      ensures p in s.nodes && s.nodes[p].nodeType == layer && p in s.ever
    {
      assert p in (set q | q in listing);
      assert p in WithStatus(s.nodes, layer, {Approved});
      assert p in ApprovedNow(s.nodes);
    }
  }

  lemma {:induction false} ExpandedFits(
    s: State, layer: NodeType, c: int, parents: seq<NodeId>, p: nat, i: nat, d: Demand)
    requires TaskInv(s.nodes, s.ever, ExpandInsert(layer, c, parents, p, i), d) && Sensible(d)
    requires p < |parents| && NextLayer(layer).Some? && i < ChildCount(NextLayer(layer).value, c)
    ensures Fits(s.nodes, PendingChild(s, parents[p], NextLayer(layer).value, i), d)
    ensures TaskInv(s.nodes, s.ever, ExpandInsert(layer, c, parents, p, i + 1), d)
  {
  }

  lemma {:induction false} SectionAdvance(
    s: State, t: TaskId, newID: NodeId, listing: seq<NodeId>, n: nat, syllabus: NodeId, i: nat)
    requires t in s.tasks && s.tasks[t] == SeedSections(n, syllabus, i) && newID !in s.nodes && i < n
    ensures AdvanceTask(s, t, newID, listing)
            == WithInserted(s, t, newID, PendingChild(s, syllabus, SectionGoal, i), SeedSections(n, syllabus, i + 1))
  {
  }

  lemma {:induction false} ExpandAdvance(s: State, t: TaskId, newID: NodeId, listing: seq<NodeId>,
                      layer: NodeType, c: int, parents: seq<NodeId>, p: nat, i: nat)
    requires t in s.tasks && s.tasks[t] == ExpandInsert(layer, c, parents, p, i) && newID !in s.nodes
    requires p < |parents| && NextLayer(layer).Some? && i < ChildCount(NextLayer(layer).value, c)
    ensures AdvanceTask(s, t, newID, listing)
            == WithInserted(s, t, newID, PendingChild(s, parents[p], NextLayer(layer).value, i),
                            ExpandInsert(layer, c, parents, p, i + 1))
  {
  }

  lemma {:induction false} SeedSectionsKeepsInv(
    s: State, t: TaskId, newID: NodeId, listing: seq<NodeId>, n: nat, syllabus: NodeId, i: nat,
                             d: Demand)
    requires Inv(s, d) && t in s.tasks && newID !in s.nodes
    requires s.tasks[t] == SeedSections(n, syllabus, i) && i < n
    requires TaskInv(s.nodes, s.ever, s.tasks[t], d)
    ensures Inv(AdvanceTask(s, t, newID, listing), d)
  {
    SectionAdvance(s, t, newID, listing, n, syllabus, i);
    SectionFits(s, n, syllabus, i, d);
    ChildInserted(s, t, newID, PendingChild(s, syllabus, SectionGoal, i), SeedSections(n, syllabus, i + 1), d);
  }

  lemma {:induction false} ExpandInsertKeepsInv(s: State, t: TaskId, newID: NodeId, listing: seq<NodeId>,
                             layer: NodeType, c: int, parents: seq<NodeId>, p: nat, i: nat, d: Demand)
    requires Inv(s, d) && Sensible(d) && t in s.tasks && newID !in s.nodes
    requires s.tasks[t] == ExpandInsert(layer, c, parents, p, i)
    requires p < |parents| && NextLayer(layer).Some? && i < ChildCount(NextLayer(layer).value, c)
    requires TaskInv(s.nodes, s.ever, s.tasks[t], d)
    ensures Inv(AdvanceTask(s, t, newID, listing), d)
  {
    var child := PendingChild(s, parents[p], NextLayer(layer).value, i);
    ExpandAdvance(s, t, newID, listing, layer, c, parents, p, i);
    ExpandedFits(s, layer, c, parents, p, i, d);
    ChildInserted(s, t, newID, child, ExpandInsert(layer, c, parents, p, i + 1), d);
  }

  lemma {:induction false} TaskSet(s: State, t: TaskId, task: Task, d: Demand)
    requires Inv(s, d) && TaskInv(s.nodes, s.ever, task, d)
    ensures Inv(s.(tasks := s.tasks[t := task]), d)
  {
  }

  /** The steps of an expand that insert nothing. */
  lemma {:induction false} ExpandMoves(s: State, t: TaskId, newID: NodeId, listing: seq<NodeId>)
    requires t in s.tasks && newID !in s.nodes
    ensures match s.tasks[t]
            case ExpandCheck(layer, c) =>
              var s' := AdvanceTask(s, t, newID, listing);
              s' == s.(tasks := s.tasks - {t}) || s' == s.(tasks := s.tasks[t := ExpandList(layer, c)])
            case ExpandList(layer, c) =>
              (set p | p in listing) == WithStatus(s.nodes, layer, {Approved}) ==>
                AdvanceTask(s, t, newID, listing)
                == s.(tasks := s.tasks[t := ExpandInsert(layer, c, listing, 0, 0)])
            case _ => true
  {
  }

  lemma {:induction false} ExpandInsertMoves(
    s: State, t: TaskId, newID: NodeId, listing: seq<NodeId>,
    layer: NodeType, c: int, parents: seq<NodeId>, p: nat, i: nat)
    requires t in s.tasks && newID !in s.nodes && s.tasks[t] == ExpandInsert(layer, c, parents, p, i)
    requires !(p < |parents| && NextLayer(layer).Some? && i < ChildCount(NextLayer(layer).value, c))
    ensures var s' := AdvanceTask(s, t, newID, listing);
            || s' == s.(tasks := s.tasks - {t})
            || s' == s.(tasks := s.tasks[t := ExpandInsert(layer, c, parents, p + 1, 0)])
  {
  }

  lemma {:induction false} ExpandKeepsInv(s: State, t: TaskId, newID: NodeId, listing: seq<NodeId>, d: Demand)
    requires Inv(s, d) && Sensible(d) && t in s.tasks && newID !in s.nodes
    requires TaskInv(s.nodes, s.ever, s.tasks[t], d)
    requires s.tasks[t].ExpandCheck? || s.tasks[t].ExpandList? || s.tasks[t].ExpandInsert?
    ensures Inv(AdvanceTask(s, t, newID, listing), d)
  {
    TaskGone(s, t, d);
    match s.tasks[t]
    case ExpandCheck(layer, c) =>
      ExpandMoves(s, t, newID, listing);
      TaskSet(s, t, ExpandList(layer, c), d);
    case ExpandList(layer, c) =>
      if (set p | p in listing) == WithStatus(s.nodes, layer, {Approved}) {
        ExpandMoves(s, t, newID, listing);
        ExpandListKeepsInv(s, t, listing, layer, c, d);
        TaskSet(s, t, ExpandInsert(layer, c, listing, 0, 0), d);
      }
    case ExpandInsert(layer, c, parents, p, i) =>
      if p < |parents| && NextLayer(layer).Some? && i < ChildCount(NextLayer(layer).value, c) {
        ExpandInsertKeepsInv(s, t, newID, listing, layer, c, parents, p, i, d);
      } else {
        ExpandInsertMoves(s, t, newID, listing, layer, c, parents, p, i);
        TaskSet(s, t, ExpandInsert(layer, c, parents, p + 1, 0), d);
      }
  }

  lemma {:induction false} AdvanceKeepsInv(s: State, t: TaskId, newID: NodeId, listing: seq<NodeId>, d: Demand)
    requires Inv(s, d) && Sensible(d)
    requires t in s.tasks && newID !in s.nodes
    ensures Inv(AdvanceTask(s, t, newID, listing), d)
  {
    assert TaskInv(s.nodes, s.ever, s.tasks[t], d);
    match s.tasks[t]
    case SeedRoot(n) =>
      SeedRootKeepsInv(s, t, newID, n, d);
    case SeedSyllabus(n, root) =>
      SeedSyllabusKeepsInv(s, t, newID, listing, n, root, d);
    case SeedSections(n, syllabus, i) =>
      if i < n {
        SeedSectionsKeepsInv(s, t, newID, listing, n, syllabus, i, d);
      } else {
        TaskGone(s, t, d);
      }
    case _ =>
      ExpandKeepsInv(s, t, newID, listing, d);
  }

  lemma {:induction false} GenerateUnfolds(
    s: State, newID: NodeId, nodeType: NodeType, parent: Option<NodeId>, d: Demand)
    requires Permitted(s, Generate(newID, nodeType, parent), d)
    requires GenerateAccepted(s, newID, nodeType, parent)
    ensures var child := PendingChild(s, parent.value, nodeType, 0);
            && Fits(s.nodes, child, d)
            && Apply(s, Generate(newID, nodeType, parent))
               == WithNodes(s, Put(s.nodes, newID, child)).(given := s.given + {newID})
  {
  }

  lemma {:induction false} GenerateKeepsInv(
    s: State, newID: NodeId, nodeType: NodeType, parent: Option<NodeId>, d: Demand)
    requires Inv(s, d) && Permitted(s, Generate(newID, nodeType, parent), d)
    requires GenerateAccepted(s, newID, nodeType, parent)
    ensures Inv(Apply(s, Generate(newID, nodeType, parent)), d)
  {
    var child := PendingChild(s, parent.value, nodeType, 0);
    var after := Put(s.nodes, newID, child);
    GenerateUnfolds(s, newID, nodeType, parent, d);
    RowAdded(s.nodes, s.ever, newID, child, after, d);
    TasksStay(s, WithNodes(s, after), d);
  }

  /** The steps that write statuses and payloads only. */
  predicate WritesStatus(step: Step) {
    !step.StartSeed? && !step.StartExpand? && !step.Advance? && !step.Abort? && !step.Generate? && !step.Tick?
  }

  lemma {:induction false} StatusStepShape(s: State, step: Step)
    requires WritesStatus(step) && ApprovedNow(s.nodes) <= s.ever
    ensures var s' := Apply(s, step);
            && SameShape(s.nodes, s'.nodes) && s'.nodes.Keys == s.nodes.Keys
            && s'.tasks == s.tasks && s'.given == s.given && s'.ever == s.ever + ApprovedNow(s'.nodes)
  {
  }

  lemma {:induction false} StepKeepsInv(s: State, step: Step, d: Demand)
    requires Inv(s, d) && Sensible(d) && Permitted(s, step, d)
    ensures Inv(Apply(s, step), d)
  {
    if WritesStatus(step) {
      var s' := Apply(s, step);
      StatusStepShape(s, step);
      StatusWriteKeepsTree(s.nodes, s'.nodes, s.ever, d);
      TasksStay(s, s', d);
    } else if step.Advance? {
      if step.t in s.tasks && step.newID !in s.nodes {
        AdvanceKeepsInv(s, step.t, step.newID, step.listing, d);
      }
    } else if step.Generate? {
      if GenerateAccepted(s, step.newID, step.nodeType, step.parent) {
        GenerateKeepsInv(s, step.newID, step.nodeType, step.parent, d);
      }
    }
  }

  /** Every step of the run is one the demand permits in the state it meets. */
  ghost predicate PermittedRun(s: State, steps: seq<Step>, d: Demand) {
    forall k :: 0 <= k < |steps| ==> Permitted(Run(s, steps[..k]), steps[k], d)
  }

  lemma {:induction false} PermittedFront(s: State, steps: seq<Step>, d: Demand)
    requires PermittedRun(s, steps, d) && steps != []
    ensures PermittedRun(s, Front(steps), d) && Permitted(Run(s, Front(steps)), Last(steps), d)
  {
    var front := Front(steps);
    assert steps[..|steps| - 1] == front;
    forall k | 0 <= k < |front|
      ensures Permitted(Run(s, front[..k]), front[k], d)
    {
      assert front[..k] == steps[..k];
    }
  }

  lemma {:induction false} RunKeepsInv(s: State, steps: seq<Step>, d: Demand)
    requires Inv(s, d) && Sensible(d) && PermittedRun(s, steps, d)
    ensures Inv(Run(s, steps), d)
  {
    if steps != [] {
      PermittedFront(s, steps, d);
      RunKeepsInv(s, Front(steps), d);
      StepKeepsInv(Run(s, Front(steps)), Last(steps), d);
    }
  }

  // ---------------------------------------------------------------- approved parents

  ghost predicate ApprovedInv(s: State) {
    && s.given <= s.nodes.Keys
    && ParentsApproved(s.nodes, s.ever, s.given)
  }

  /** At most one row is new after a task's statement, and below an approved node where it has to be. */
  ghost predicate AddsApproved(s: State, s': State, newID: NodeId) {
    && s'.given == s.given && s.ever <= s'.ever
    && (s'.nodes == s.nodes
        || (newID in s'.nodes && s'.nodes == Put(s.nodes, newID, s'.nodes[newID])
            && (s'.nodes[newID].nodeType in {Concept, Content} ==>
                  s'.nodes[newID].parent.Some? && s'.nodes[newID].parent.value in s.ever)))
  }

  lemma {:induction false} InsertAddsApproved(s: State, t: TaskId, newID: NodeId, child: CourseNode, task: Task)
    requires child.parent.Some? && (child.nodeType in {Concept, Content} ==> child.parent.value in s.ever)
    ensures AddsApproved(s, WithInserted(s, t, newID, child, task), newID)
  {
  }

  lemma {:induction false} SeedAddsApproved(s: State, t: TaskId, newID: NodeId, listing: seq<NodeId>)
    requires t in s.tasks && newID !in s.nodes && (s.tasks[t].SeedRoot? || s.tasks[t].SeedSyllabus?)
    ensures AddsApproved(s, AdvanceTask(s, t, newID, listing), newID)
  {
  }

  lemma {:induction false} AdvanceAddsApproved(s: State, t: TaskId, newID: NodeId, listing: seq<NodeId>)
    requires t in s.tasks && newID !in s.nodes && TaskInv(s.nodes, s.ever, s.tasks[t], Basic)
    ensures AddsApproved(s, AdvanceTask(s, t, newID, listing), newID)
  {
    match s.tasks[t]
    case SeedSections(n, syllabus, i) =>
      if i < n {
        SectionAdvance(s, t, newID, listing, n, syllabus, i);
        InsertAddsApproved(s, t, newID, PendingChild(s, syllabus, SectionGoal, i), SeedSections(n, syllabus, i + 1));
      }
    case ExpandInsert(layer, c, parents, p, i) =>
      if p < |parents| && NextLayer(layer).Some? && i < ChildCount(NextLayer(layer).value, c) {
        ExpandAdvance(s, t, newID, listing, layer, c, parents, p, i);
        InsertAddsApproved(s, t, newID, PendingChild(s, parents[p], NextLayer(layer).value, i),
                           ExpandInsert(layer, c, parents, p, i + 1));
      } else {
        ExpandInsertMoves(s, t, newID, listing, layer, c, parents, p, i);
      }
    case ExpandCheck(_, _) => ExpandMoves(s, t, newID, listing);
    case ExpandList(layer, _) =>
      if (set p | p in listing) == WithStatus(s.nodes, layer, {Approved}) {
        ExpandMoves(s, t, newID, listing);
      }
    case _ => SeedAddsApproved(s, t, newID, listing);
  }

  lemma {:induction false} AdvanceKeepsApproved(s: State, t: TaskId, newID: NodeId, listing: seq<NodeId>)
    requires Inv(s, Basic) && ApprovedInv(s) && t in s.tasks && newID !in s.nodes
    ensures ApprovedInv(AdvanceTask(s, t, newID, listing))
  {
    AdvanceAddsApproved(s, t, newID, listing);
  }

  lemma {:induction false} StepKeepsApproved(s: State, step: Step)
    requires Inv(s, Basic) && ApprovedInv(s)
    ensures ApprovedInv(Apply(s, step))
  {
    if WritesStatus(step) {
      StatusStepShape(s, step);
    } else if step.Advance? && step.t in s.tasks && step.newID !in s.nodes {
      AdvanceKeepsApproved(s, step.t, step.newID, step.listing);
    }
  }

  lemma {:induction false} RunKeepsApproved(s: State, steps: seq<Step>)
    requires Inv(s, Basic) && ApprovedInv(s)
    ensures Inv(Run(s, steps), Basic) && ApprovedInv(Run(s, steps))
  {
    if steps != [] {
      RunKeepsApproved(s, Front(steps));
      StepKeepsInv(Run(s, Front(steps)), Last(steps), Basic);
      StepKeepsApproved(Run(s, Front(steps)), Last(steps));
    }
  }

  // ---------------------------------------------------------------- what every run keeps

  lemma {:induction false} StepKeepsShape(s: State, step: Step)
    ensures SameShape(s.nodes, Apply(s, step).nodes)
  {
  }

  lemma {:induction false} RunKeepsShape(s: State, steps: seq<Step>)
    ensures SameShape(s.nodes, Run(s, steps).nodes)
  {
    if steps != [] {
      RunKeepsShape(s, Front(steps));
      StepKeepsShape(Run(s, Front(steps)), Last(steps));
    }
  }

  /** Whatever the interleaving, whatever tree a course starts with, and whatever single nodes are
      requested: at most one root, no sibling position used twice, every other node below an existing
      one, the nodes of the start still in their places, and concepts and contents that were neither
      there at the start nor requested singly only below nodes that had been approved. */
  lemma {:induction false} EveryRunKeepsTheBasics(start: Nodes, clock: int, steps: seq<Step>)
    requires Admissible(start)
    ensures var s := Run(Starting(start, clock), steps);
            && Admissible(s.nodes) && SameShape(start, s.nodes)
            && ParentsApproved(s.nodes, s.ever, s.given)
  {
    RunKeepsApproved(Starting(start, clock), steps);
    RunKeepsShape(Starting(start, clock), steps);
  }

  lemma {:induction false} MisplacedForGood(s: State, steps: seq<Step>, k: nat)
    requires k < |steps| && Misplaces(Run(s, steps[..k]), steps[k])
    ensures !Layered(Run(s, steps).nodes)
  {
    var before := Run(s, steps[..k]);
    var after := Apply(before, steps[k]);
    RunOneMore(s, steps, k);
    assert after.nodes[steps[k].newID].parent == steps[k].parent;
    RunOfRest(s, steps, k + 1);
    RunKeepsShape(after, steps[k + 1..]);
  }

  lemma {:induction false} RunOfRest(s: State, steps: seq<Step>, k: nat)
    requires k <= |steps|
    ensures Run(s, steps) == Run(Run(s, steps[..k]), steps[k..])
    decreases |steps|
  {
    if k == |steps| {
      assert steps[..k] == steps;
    } else {
      RunOfRest(s, Front(steps), k);
      assert Front(steps)[..k] == steps[..k] && Front(steps)[k..] == Front(steps[k..]);
    }
  }

  /** The layers are kept exactly when they were there at the start and every accepted request for a
      single node named the layer below its parent's. */
  lemma {:induction false} LayeredExactly(start: Nodes, clock: int, steps: seq<Step>)
    requires Admissible(start)
    ensures var s := Starting(start, clock);
            Layered(Run(s, steps).nodes) <==>
            Layered(start) && forall k :: 0 <= k < |steps| ==> !Misplaces(Run(s, steps[..k]), steps[k])
  {
    var s := Starting(start, clock);
    RunKeepsShape(s, steps);
    if k :| 0 <= k < |steps| && Misplaces(Run(s, steps[..k]), steps[k]) {
      MisplacedForGood(s, steps, k);
    } else if Layered(start) {
      assert Inv(s, Layers);
      RunKeepsInv(s, steps, Layers);
    } else {
      UnlayeredForGood(start, Run(s, steps).nodes);
    }
  }

  lemma {:induction false} UnlayeredForGood(start: Nodes, after: Nodes)
    requires Rooted(start) && SameShape(start, after) && !Layered(start)
    ensures !Layered(after)
  {
  }

  /** A content node requested below the root: the layers are broken. */
  lemma {:induction false} ContentBelowRoot(start: Nodes, clock: int, root: NodeId, newID: NodeId)
    requires root in start && newID !in start && start[root].nodeType == Root && !Occupied(start, root, 0)
    ensures !Layered(Run(Starting(start, clock), [Generate(newID, Content, Some(root))]).nodes)
  {
    var s, step := Starting(start, clock), Generate(newID, Content, Some(root));
    assert [step][..0] == [];
    MisplacedForGood(s, [step], 0);
  }

  // ---------------------------------------------------------------- how large the tree gets

  /** A set that maps one-to-one into another is no larger. */
  lemma {:induction false} InjectionBound<A, B>(from: set<A>, into: set<B>, f: map<A, B>)
    requires from <= f.Keys
    requires forall a :: a in from ==> f[a] in into
    requires forall a, b :: a in from && b in from && f[a] == f[b] ==> a == b
    ensures |from| <= |into|
  {
    if from != {} {
      var a :| a in from;
      InjectionBound(from - {a}, into - {f[a]}, f);
    }
  }

  function Below(n: nat): (r: set<nat>)
    ensures forall i: nat :: i in r <==> i < n
    ensures |r| == n
  {
    if n == 0 then {} else Below(n - 1) + {n - 1}
  }

  lemma {:induction false} ChildrenOfOne(nodes: Nodes, own: set<NodeId>, parent: NodeId, fanout: nat)
    requires SiblingsUnique(nodes) && own <= nodes.Keys
    requires forall k :: k in own ==> nodes[k].parent == Some(parent) && nodes[k].ordering < fanout
    ensures |own| <= fanout
  {
    InjectionBound(own, Below(fanout), map k | k in own :: nodes[k].ordering);
  }

  /** The nodes of a layer number at most fan-out times their possible parents. */
  lemma {:induction false} LayerSize(nodes: Nodes, kids: set<NodeId>, parents: set<NodeId>, fanout: nat)
    requires SiblingsUnique(nodes) && kids <= nodes.Keys
    requires forall k :: k in kids ==>
               nodes[k].parent.Some? && nodes[k].parent.value in parents && nodes[k].ordering < fanout
    ensures |kids| <= |parents| * fanout
  {
    if parents == {} {
      assert kids == {};
    } else {
      var p :| p in parents;
      var own := set k | k in kids && nodes[k].parent == Some(p);
      assert |own| <= fanout by {
        ChildrenOfOne(nodes, own, p, fanout);
      }
      assert |kids - own| <= |parents - {p}| * fanout by {
        LayerSize(nodes, kids - own, parents - {p}, fanout);
      }
      SizeSplits(kids, own);
      SizeSplits(parents, {p});
      OneParentMore(|own|, |kids - own|, |parents - {p}|, fanout);
    }
  }

  lemma {:induction false} SizeSplits<A>(all: set<A>, part: set<A>)
    requires part <= all
    ensures |all| == |part| + |all - part|
  {
    assert all == part + (all - part);
  }

  lemma {:induction false} OneParentMore(own: nat, others: nat, parents: nat, fanout: nat)
    requires own <= fanout && others <= parents * fanout
    ensures own + others <= (1 + parents) * fanout
  {
  }

  lemma {:induction false} LayerBelow(nodes: Nodes, ever: set<NodeId>, above: NodeType, sections: nat, concepts: nat)
    requires TreeInv(nodes, ever, Sized(sections, concepts)) && NextLayer(above).Some?
    ensures var layer := NextLayer(above).value;
            |LayerNodes(nodes, layer)| <= |LayerNodes(nodes, above)| * Fanout(layer, sections, concepts)
  {
    var layer := NextLayer(above).value;
    forall k | k in LayerNodes(nodes, layer)
      ensures nodes[k].parent.Some? && nodes[k].parent.value in LayerNodes(nodes, above)
    {
      var p := nodes[k].parent.value;
      assert NextLayer(nodes[p].nodeType) == Some(layer);
    }
    LayerSize(nodes, LayerNodes(nodes, layer), LayerNodes(nodes, above), Fanout(layer, sections, concepts));
  }

  lemma {:induction false} TimesBound(a: nat, b: nat, c: nat)
    requires a <= b
    ensures a * c <= b * c
  {
  }

  lemma {:induction false} TreeSize(nodes: Nodes, ever: set<NodeId>, sections: nat, concepts: nat)
    requires TreeInv(nodes, ever, Sized(sections, concepts))
    ensures |nodes| <= 2 + sections + 2 * (sections * concepts)
  {
    LayerBelow(nodes, ever, Root, sections, concepts);
    LayerBelow(nodes, ever, Syllabus, sections, concepts);
    LayerBelow(nodes, ever, SectionGoal, sections, concepts);
    LayerBelow(nodes, ever, Concept, sections, concepts);
    AtMostOneRoot(nodes);
    SizesAddUp(|LayerNodes(nodes, Root)|, |LayerNodes(nodes, Syllabus)|, |LayerNodes(nodes, SectionGoal)|,
               |LayerNodes(nodes, Concept)|, |LayerNodes(nodes, Content)|, sections, concepts);
    LayersPartition(nodes);
  }

  lemma {:induction false} AtMostOneRoot(nodes: Nodes)
    requires OneRoot(nodes)
    ensures |LayerNodes(nodes, Root)| <= 1
  {
    var roots := LayerNodes(nodes, Root);
    if roots != {} {
      var r :| r in roots;
      assert roots == {r};
    }
  }

  lemma {:induction false} SizesAddUp(
    roots: nat, syllabi: nat, goals: nat, cons: nat, conts: nat, sections: nat, concepts: nat)
    requires roots <= 1 && syllabi <= roots * 1 && goals <= syllabi * sections
    requires cons <= goals * concepts && conts <= cons * 1
    ensures roots + syllabi + goals + cons + conts <= 2 + sections + 2 * (sections * concepts)
  {
    TimesBound(syllabi, 1, sections);
    TimesBound(goals, sections, concepts);
  }

  lemma {:induction false} UnionSize<A>(a: set<A>, b: set<A>)
    requires a !! b
    ensures |a + b| == |a| + |b|
  {
  }

  lemma {:induction false} LayersPartition(nodes: Nodes)
    ensures |nodes| == |LayerNodes(nodes, Root)| + |LayerNodes(nodes, Syllabus)| + |LayerNodes(nodes, SectionGoal)|
                       + |LayerNodes(nodes, Concept)| + |LayerNodes(nodes, Content)|
  {
    var upper := LayerNodes(nodes, Root) + LayerNodes(nodes, Syllabus);
    var lower := LayerNodes(nodes, Concept) + LayerNodes(nodes, Content);
    var middle := LayerNodes(nodes, SectionGoal);
    assert nodes.Keys == upper + middle + lower by {
      LayersCover(nodes);
    }
    UnionSize(LayerNodes(nodes, Root), LayerNodes(nodes, Syllabus));
    UnionSize(LayerNodes(nodes, Concept), LayerNodes(nodes, Content));
    UnionSize(upper, middle);
    UnionSize(upper + middle, lower);
    assert |nodes| == |nodes.Keys|;
  }

  lemma {:induction false} LayersCover(nodes: Nodes)
    ensures nodes.Keys == LayerNodes(nodes, Root) + LayerNodes(nodes, Syllabus) + LayerNodes(nodes, SectionGoal)
                          + (LayerNodes(nodes, Concept) + LayerNodes(nodes, Content))
  {
    forall id | id in nodes
      ensures nodes[id].nodeType in {Root, Syllabus, SectionGoal, Concept, Content}
    {
      match nodes[id].nodeType case Root => case Syllabus => case SectionGoal => case Concept => case Content =>
    }
  }

  /** A tree that starts layered and within bounds, the empty one in particular, and gets single nodes
      only in the layer below their parents: it stays layered, and with s sections and c concepts per
      section it has at most 2 + s + 2sc nodes. */
  lemma {:induction false} EveryRunKeepsTheTree(
    start: Nodes, clock: int, steps: seq<Step>, sections: nat, concepts: nat)
    requires Admissible(start) && Layered(start) && OrderingsBounded(start, sections, concepts)
    requires sections >= 1 && PermittedRun(Starting(start, clock), steps, Sized(sections, concepts))
    ensures var s := Run(Starting(start, clock), steps);
            && OneRoot(s.nodes) && SiblingsUnique(s.nodes) && Layered(s.nodes)
            && ParentsApproved(s.nodes, s.ever, s.given)
            && |s.nodes| <= 2 + sections + 2 * (sections * concepts)
  {
    var s, d := Starting(start, clock), Sized(sections, concepts);
    RunKeepsInv(s, steps, d);
    TreeSize(Run(s, steps).nodes, Run(s, steps).ever, sections, concepts);
    EveryRunKeepsTheBasics(start, clock, steps);
  }

  /** What is remembered as approved really was approved at an earlier point of the run. */
  lemma {:induction false} EverMeansEarlier(start: Nodes, clock: int, steps: seq<Step>, id: NodeId) returns (k: nat)
    requires id in Run(Starting(start, clock), steps).ever
    ensures k <= |steps| && HasStatus(Run(Starting(start, clock), steps[..k]).nodes, id, Approved)
  {
    if steps == [] {
      k := 0;
    } else {
      var s := Run(Starting(start, clock), Front(steps));
      if id in s.ever {
        k := EverMeansEarlier(start, clock, Front(steps), id);
        assert Front(steps)[..k] == steps[..k];
      } else {
        k := |steps|;
        assert steps[..k] == steps;
        NewApproval(s, Last(steps), id);
      }
    }
  }

  lemma {:induction false} NewApproval(s: State, step: Step, id: NodeId)
    requires id in Apply(s, step).ever && id !in s.ever
    ensures HasStatus(Apply(s, step).nodes, id, Approved)
  {
  }

  // ---------------------------------------------------------------- what a step does

  /** The status of a node that was there, after any step. */
  lemma {:induction false} StatusesExactly(s: State, step: Step, n: NodeId)
    requires n in s.nodes
    ensures n in Apply(s, step).nodes
    ensures var was, status := s.nodes[n], s.nodes[n].status;
            Apply(s, step).nodes[n].status ==
            match step
            case Claim(id, from) => if id == n && status == from then Generating else status
            case Complete(id, _) => if id == n then AwaitingReview else status
            case Fail(id) => if id == n then Failed else status
            case Approve(id) => if id == n && status == AwaitingReview then Approved else status
            case Feedback(id, _) => if id == n && status == AwaitingReview then Rejected else status
            case ResetStaleNodes => if status == Generating && s.clock - was.updatedAt > 600 then Pending else status
            case ResetRejectedNodes(layer) => if status == Rejected && was.nodeType == layer then Pending else status
            case _ => status
    ensures Apply(s, step).nodes[n].payload ==
            if step.Complete? && step.id == n then step.payload
            else if step.Feedback? && step.id == n && s.nodes[n].status == AwaitingReview then step.payload
            else s.nodes[n].payload
  {
  }

  /** Calls begin by being started and end by being aborted or by their own last statement; time passes by
      ticks alone. */
  lemma {:induction false} CallsExactly(s: State, step: Step, t: TaskId)
    ensures var s' := Apply(s, step);
            && (t !in s.tasks ==>
                  match step
                  case StartSeed(u, rows) =>
                    if u == t then t in s'.tasks && s'.tasks[t] == SeedRoot(if rows == 0 then 5 else rows)
                    else t !in s'.tasks
                  case StartExpand(u, layer, c) =>
                    if u == t then t in s'.tasks && s'.tasks[t] == ExpandCheck(layer, c) else t !in s'.tasks
                  case _ => t !in s'.tasks)
            && (t in s.tasks && step == Abort(t) ==> t !in s'.tasks)
            && (t in s.tasks && step != Abort(t) && !(step.Advance? && step.t == t) ==>
                  t in s'.tasks && s'.tasks[t] == s.tasks[t])
            && s'.clock == s.clock + if step.Tick? then step.seconds else 0
  {
  }

  lemma {:induction false} NewID(nodes: Nodes) returns (id: NodeId)
    ensures id !in nodes
  {
    var few := Below(|nodes.Keys| + 1);
    if few <= nodes.Keys {
      SizeSplits(nodes.Keys, few);
      assert false;
    }
    id :| id in few && id !in nodes.Keys;
  }

  predicate OnlyAdvances(steps: seq<Step>, t: TaskId) {
    forall k :: 0 <= k < |steps| ==> steps[k].Advance? && steps[k].t == t
  }

  lemma {:induction false} OccupiedStays(s: State, steps: seq<Step>, parent: NodeId, i: nat)
    requires Occupied(s.nodes, parent, i)
    ensures Occupied(Run(s, steps).nodes, parent, i)
  {
    RunKeepsShape(s, steps);
    var c :| c in s.nodes && IsChildAt(s.nodes[c], parent, i);
    assert IsChildAt(Run(s, steps).nodes[c], parent, i);
  }

  lemma {:induction false} RunFirst(s: State, first: Step, rest: seq<Step>)
    ensures Run(s, [first] + rest) == Run(Apply(s, first), rest)
  {
    var steps := [first] + rest;
    RunOfRest(s, steps, 1);
    assert steps[..1] == [first] && steps[1..] == rest && Front([first]) == [];
  }

  /** A seed that is left to itself fills the place of every section, and ends. */
  lemma {:induction false} SeedCompletes(s: State, t: TaskId, n: nat, syllabus: NodeId, i: nat)
    returns (steps: seq<Step>)
    requires t in s.tasks && s.tasks[t] == SeedSections(n, syllabus, i) && syllabus in s.nodes && i <= n
    ensures OnlyAdvances(steps, t) && t !in Run(s, steps).tasks
    ensures forall j :: i <= j < n ==> Occupied(Run(s, steps).nodes, syllabus, j)
    decreases n - i
  {
    var id := NewID(s.nodes);
    var first := Advance(t, id, []);
    var s' := Apply(s, first);
    if i == n {
      steps := [first];
      assert [first] + [] == steps;
      RunFirst(s, first, []);
    } else {
      SectionPlaced(s, t, id, n, syllabus, i);
      var rest := SeedCompletes(s', t, n, syllabus, i + 1);
      steps := [first] + rest;
      RunFirst(s, first, rest);
      OccupiedStays(s', rest, syllabus, i);
    }
  }

  lemma {:induction false} SectionPlaced(s: State, t: TaskId, id: NodeId, n: nat, syllabus: NodeId, i: nat)
    requires t in s.tasks && s.tasks[t] == SeedSections(n, syllabus, i) && syllabus in s.nodes && i < n
    requires id !in s.nodes
    ensures var s' := Apply(s, Advance(t, id, []));
            && t in s'.tasks && s'.tasks[t] == SeedSections(n, syllabus, i + 1) && syllabus in s'.nodes
            && Occupied(s'.nodes, syllabus, i)
  {
    ChildPlaced(s.nodes, id, PendingChild(s, syllabus, SectionGoal, i), syllabus, i);
  }

  lemma {:induction false} ChildPlaced(nodes: Nodes, id: NodeId, child: CourseNode, parent: NodeId, i: nat)
    requires id !in nodes && parent in nodes && IsChildAt(child, parent, i)
    ensures parent in InsertChild(nodes, id, child) && Occupied(InsertChild(nodes, id, child), parent, i)
  {
    if !Occupied(nodes, parent, i) {
      assert IsChildAt(InsertChild(nodes, id, child)[id], parent, i);
    }
  }

  /** And so does an expansion with all the children of all the nodes it has listed. */
  lemma {:induction false} ExpandCompletes(
    s: State, t: TaskId, layer: NodeType, c: int, parents: seq<NodeId>, p: nat, i: nat) returns (steps: seq<Step>)
    requires t in s.tasks && s.tasks[t] == ExpandInsert(layer, c, parents, p, i) && layer != Content
    requires p <= |parents| && forall k :: 0 <= k < |parents| ==> parents[k] in s.nodes
    requires i <= ChildCount(NextLayer(layer).value, c)
    ensures OnlyAdvances(steps, t) && t !in Run(s, steps).tasks
    ensures forall k, j: nat ::
              p <= k < |parents| && (k == p ==> i <= j) && j < ChildCount(NextLayer(layer).value, c) ==>
              Occupied(Run(s, steps).nodes, parents[k], j)
    decreases |parents| - p, ChildCount(NextLayer(layer).value, c) - i
  {
    var id := NewID(s.nodes);
    var count := ChildCount(NextLayer(layer).value, c);
    var first := Advance(t, id, []);
    var s' := Apply(s, first);
    var rest: seq<Step> := [];
    if p < |parents| {
      if i < count {
        ChildPlaced(s.nodes, id, PendingChild(s, parents[p], NextLayer(layer).value, i), parents[p], i);
        NodesStay(s, first);
        rest := ExpandCompletes(s', t, layer, c, parents, p, i + 1);
        OccupiedStays(s', rest, parents[p], i);
      } else {
        rest := ExpandCompletes(s', t, layer, c, parents, p + 1, 0);
      }
    }
    steps := [first] + rest;
    RunFirst(s, first, rest);
  }

  lemma {:induction false} NodesStay(s: State, step: Step)
    ensures forall id :: id in s.nodes ==> id in Apply(s, step).nodes
  {
    StepKeepsShape(s, step);
  }

  // ---------------------------------------------------------------- a pending syllabus

  function RootNode(): CourseNode {
    CourseNode(None, Root, 0, Approved, EMPTY_PAYLOAD, 0)
  }

  function PendingAt(parent: NodeId, layer: NodeType): CourseNode {
    CourseNode(Some(parent), layer, 0, Pending, EMPTY_PAYLOAD, 0)
  }

  /** Root 0 is approved and nothing else, a seed is under way, and so is an expansion. */
  function Racing(nodes: Nodes, seed: Task, expand: Task): State {
    State(nodes, {0}, {}, map[0 := seed, 1 := expand], 0)
  }

  lemma {:induction false} RootSeeded(s: State, rows: nat)
    requires s == Starting(map[], 0)
    ensures var n := EffectiveSections(rows);
            Apply(Apply(s, StartSeed(0, rows)), Advance(0, 0, []))
            == State(map[0 := RootNode()], {0}, {}, map[0 := SeedSyllabus(n, 0)], 0)
  {
    var s1 := Apply(s, StartSeed(0, rows));
    assert s1 == State(map[], {}, {}, map[0 := SeedRoot(EffectiveSections(rows))], 0);
    var nodes: Nodes := map[0 := RootNode()];
    assert InsertRoot(s1.nodes, 0, EMPTY_PAYLOAD, 0) == nodes && nodes[0].nodeType == Root;
    assert ApprovedNow(nodes) == {0};
  }

  lemma {:induction false} RootExpanded(n: nat, c: int)
    ensures var nodes: Nodes := map[0 := RootNode()];
            var s := Apply(State(nodes, {0}, {}, map[0 := SeedSyllabus(n, 0)], 0), StartExpand(1, Root, c));
            Apply(Apply(s, Advance(1, 1, [])), Advance(1, 1, [0]))
            == Racing(nodes, SeedSyllabus(n, 0), ExpandInsert(Root, c, [0], 0, 0))
  {
    var nodes: Nodes := map[0 := RootNode()];
    assert WithStatus(nodes, Root, UNSETTLED) == {};
    assert 0 in WithStatus(nodes, Root, {Approved}) && WithStatus(nodes, Root, {Approved}) == {0};
    assert (set p | p in [0]) == {0};
  }

  lemma {:induction false} SyllabusExpanded(n: nat, c: int)
    ensures Apply(Racing(map[0 := RootNode()], SeedSyllabus(n, 0), ExpandInsert(Root, c, [0], 0, 0)), Advance(1, 1, []))
            == Racing(map[0 := RootNode(), 1 := PendingAt(0, Syllabus)], SeedSyllabus(n, 0),
                      ExpandInsert(Root, c, [0], 0, 1))
  {
    var nodes: Nodes := map[0 := RootNode()];
    assert !Occupied(nodes, 0, 0);
    assert ApprovedNow(map[0 := RootNode(), 1 := PendingAt(0, Syllabus)]) == {0};
  }

  lemma {:induction false} SeedFindsIt(n: nat, expand: Task)
    ensures var nodes: Nodes := map[0 := RootNode(), 1 := PendingAt(0, Syllabus)];
            Apply(Racing(nodes, SeedSyllabus(n, 0), expand), Advance(0, 2, []))
            == Racing(nodes, SeedSections(n, 1, 0), expand)
  {
    var nodes: Nodes := map[0 := RootNode(), 1 := PendingAt(0, Syllabus)];
    assert IsChildAt(nodes[1], 0, 0) && Occupied(nodes, 0, 0);
    assert ApprovedNow(nodes) == {0};
    assert ChildAt(nodes, 0, 0) == 1;
  }

  lemma {:induction false} GoalSeeded(n: nat, expand: Task)
    requires n >= 1
    ensures var nodes: Nodes := map[0 := RootNode(), 1 := PendingAt(0, Syllabus)];
            Apply(Racing(nodes, SeedSections(n, 1, 0), expand), Advance(0, 2, []))
            == Racing(nodes[2 := PendingAt(1, SectionGoal)], SeedSections(n, 1, 1), expand)
  {
    var nodes: Nodes := map[0 := RootNode(), 1 := PendingAt(0, Syllabus)];
    assert !Occupied(nodes, 1, 0);
    assert ApprovedNow(nodes[2 := PendingAt(1, SectionGoal)]) == {0};
  }

  lemma {:induction false} RunFurther(s: State, steps: seq<Step>, a: Step, b: Step)
    ensures Run(s, steps + [a]) == Apply(Run(s, steps), a)
    ensures Run(s, steps + [a, b]) == Apply(Apply(Run(s, steps), a), b)
  {
    assert Front(steps + [a]) == steps;
    assert Front(steps + [a, b]) == steps + [a];
  }

  /** While a course is being seeded its root is expanded.  The expansion's syllabus comes first and is
      pending, the seed keeps it and puts the first section goal below it: a parent that was never
      approved. */
  lemma {:induction false} GoalBelowPendingSyllabus(rows: nat, c: int)
    ensures var s := Run(Starting(map[], 0),
                         [StartSeed(0, rows), Advance(0, 0, [])] + [StartExpand(1, Root, c)]
                         + [Advance(1, 1, []), Advance(1, 1, [0])] + [Advance(1, 1, [])]
                         + [Advance(0, 2, []), Advance(0, 2, [])]);
            2 in s.nodes && s.nodes[2] == PendingAt(1, SectionGoal) && 1 !in s.ever
  {
    var s, n := Starting(map[], 0), EffectiveSections(rows);
    var nodes: Nodes := map[0 := RootNode()];
    var one := [StartSeed(0, rows), Advance(0, 0, [])];
    assert [] + one == one && Run(s, []) == s;
    RunFurther(s, [], StartSeed(0, rows), Advance(0, 0, []));
    RootSeeded(s, rows);
    var two := one + [StartExpand(1, Root, c)];
    RunFurther(s, one, StartExpand(1, Root, c), StartExpand(1, Root, c));
    var three := two + [Advance(1, 1, []), Advance(1, 1, [0])];
    RunFurther(s, two, Advance(1, 1, []), Advance(1, 1, [0]));
    RootExpanded(n, c);
    var four := three + [Advance(1, 1, [])];
    RunFurther(s, three, Advance(1, 1, []), Advance(1, 1, []));
    SyllabusExpanded(n, c);
    RunFurther(s, four, Advance(0, 2, []), Advance(0, 2, []));
    SeedFindsIt(n, ExpandInsert(Root, c, [0], 0, 1));
    GoalSeeded(n, ExpandInsert(Root, c, [0], 0, 1));
  }

  // ---------------------------------------------------------------- exclusive claims

  /** This step is a claim of the node, and it wins. */
  predicate WinsClaim(s: State, step: Step, id: NodeId) {
    step.Claim? && step.id == id && step.from != Generating && HasStatus(s.nodes, id, step.from)
  }

  /** This step can take the node out of Generating. */
  predicate Releases(s: State, step: Step, id: NodeId) {
    || (step.Complete? && step.id == id)
    || (step.Fail? && step.id == id)
    || (step.ResetStaleNodes? && id in s.nodes && Stale(s.nodes[id], s.clock))
  }

  /** The only way out of Generating is a payload write, a failure or a stale reset. */
  lemma {:induction false} LeavingGenerating(s: State, step: Step, id: NodeId)
    requires HasStatus(s.nodes, id, Generating) && !HasStatus(Apply(s, step).nodes, id, Generating)
    ensures Releases(s, step, id)
  {
  }

  /** The only way into Generating is a winning claim. */
  lemma {:induction false} EnteringGenerating(s: State, step: Step, id: NodeId)
    requires !HasStatus(s.nodes, id, Generating) && HasStatus(Apply(s, step).nodes, id, Generating)
    ensures WinsClaim(s, step, id)
  {
  }

  /** Between two successful claims of one node, that node was written, failed or reset. */
  lemma {:induction false} ClaimsAreSeparated(s: State, steps: seq<Step>, id: NodeId, i: nat, j: nat) returns (k: nat)
    requires i < j < |steps|
    requires WinsClaim(Run(s, steps[..i]), steps[i], id) && WinsClaim(Run(s, steps[..j]), steps[j], id)
    ensures i < k < j && Releases(Run(s, steps[..k]), steps[k], id)
  {
    RunOneMore(s, steps, i);
    k := i + 1;
    while HasStatus(Run(s, steps[..k + 1]).nodes, id, Generating)
      invariant i < k < j && HasStatus(Run(s, steps[..k]).nodes, id, Generating)
      decreases j - k
    {
      k := k + 1;
    }
    RunOneMore(s, steps, k);
    LeavingGenerating(Run(s, steps[..k]), steps[k], id);
  }

  lemma {:induction false} RunOneMore(s: State, steps: seq<Step>, k: nat)
    requires k < |steps|
    ensures Run(s, steps[..k + 1]) == Apply(Run(s, steps[..k]), steps[k])
  {
    assert Front(steps[..k + 1]) == steps[..k];
  }

  /** How many claims of the node win in a run. */
  ghost function Wins(s: State, steps: seq<Step>, id: NodeId): nat {
    if steps == [] then 0
    else Wins(s, Front(steps), id) + if WinsClaim(Run(s, Front(steps)), Last(steps), id) then 1 else 0
  }

  /** Of any number of claimers that all read the same status, exactly one wins. */
  lemma {:induction false} ExactlyOneWins(s: State, steps: seq<Step>, id: NodeId, from: NodeStatus)
    requires steps != [] && from != Generating && HasStatus(s.nodes, id, from)
    requires forall k :: 0 <= k < |steps| ==> steps[k] == Claim(id, from)
    ensures Wins(s, steps, id) == 1 && HasStatus(Run(s, steps).nodes, id, Generating)
  {
    assert Last(steps) == Claim(id, from);
    if |steps| == 1 {
      assert Front(steps) == [];
      assert Wins(s, [], id) == 0;
    } else {
      ExactlyOneWins(s, Front(steps), id, from);
    }
  }
}
