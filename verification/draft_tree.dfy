/**
 The admin's draft tree: how its rows come about, and when its nodes, read in order of creation,
 have parents first.
 */
module DraftTree {
  import opened Prelude
  import opened CourseTree
  import opened DraftCopy

  // ---------------------------------------------------------------- statements

  /** What the draft_nodes table accepts: a new identifier, a parent in the same draft, and no
      sibling in the same place.  It says nothing about nodes without a parent. */
  predicate DraftAccepts(nodes: seq<DraftNode>, id: NodeId, parent: Option<NodeId>, ordering: int) {
    && !(exists j :: 0 <= j < |nodes| && nodes[j].id == id)
    && (parent.Some? ==>
          && (exists j :: 0 <= j < |nodes| && nodes[j].id == parent.value)
          && !(exists j :: 0 <= j < |nodes| && nodes[j].parent == parent && nodes[j].ordering == ordering))
  }

  function Insert(nodes: seq<DraftNode>, dn: DraftNode): seq<DraftNode> {
    if DraftAccepts(nodes, dn.id, dn.parent, dn.ordering) then nodes + [dn] else nodes
  }

  function Child(id: NodeId, parent: NodeId, layer: NodeType, ordering: nat, now: int): DraftNode {
    DraftNode(id, Some(parent), layer, ordering, Pending, EMPTY_PAYLOAD, now)
  }

  function Count(nodes: seq<DraftNode>, layer: NodeType, which: set<NodeStatus>): nat {
    if nodes == [] then 0
    else Count(Front(nodes), layer, which)
         + if Last(nodes).nodeType == layer && Last(nodes).status in which then 1 else 0
  }

  const OPEN: set<NodeStatus> := {Pending, Generating, AwaitingReview, Rejected}

  /** The gate of an expansion, on the aggregate counts. */
  predicate LayerReady(nodes: seq<DraftNode>, layer: NodeType) {
    Count(nodes, layer, {Approved}) != 0 && Count(nodes, layer, OPEN) == 0 && Count(nodes, layer, {Failed}) == 0
  }

  /** The ids of a layer, ordered by ordering, ties in any order. */
  ghost predicate LayerListing(nodes: seq<DraftNode>, layer: NodeType, ids: seq<NodeId>) {
    && Distinct(ids)
    && (forall id :: id in ids <==> exists j :: 0 <= j < |nodes| && nodes[j].id == id && nodes[j].nodeType == layer)
    && forall i, j, a, b ::
         (0 <= i < j < |ids| && 0 <= a < |nodes| && 0 <= b < |nodes| && nodes[a].id == ids[i] && nodes[b].id == ids[j])
         ==> nodes[a].ordering <= nodes[b].ordering
  }

  /** The rows after the insertion loop of an expansion has treated the first k parents. */
  function ChildrenInserted(
    nodes: seq<DraftNode>, next: NodeType, parents: seq<NodeId>, ids: seq<NodeId>, now: int, k: nat): seq<DraftNode>
    requires k <= |parents| == |ids|
  {
    if k == 0 then nodes
    else Insert(ChildrenInserted(nodes, next, parents, ids, now, k - 1),
                Child(ids[k - 1], parents[k - 1], next, k - 1, now + k))
  }

  datatype ExpandResult = TreeAlreadyComplete | LayerNotFullyApproved | NothingInserted | Inserted(count: nat)

  class DraftRepository {
    var nodes: seq<DraftNode>

    /** Creating a draft inserts its root, pending. */
    constructor (root: NodeId, payload: string, now: int)
      ensures nodes == [DraftNode(root, None, Root, 0, Pending, payload, now)]
    {
      nodes := [DraftNode(root, None, Root, 0, Pending, payload, now)];
    }

    method CreateDraftNode(dn: DraftNode) returns (ok: bool)
      modifies this
      ensures nodes == Insert(old(nodes), dn) && |nodes| == |old(nodes)| + (if ok then 1 else 0)
    {
      ok := DraftAccepts(nodes, dn.id, dn.parent, dn.ordering);
      if ok {
        nodes := nodes + [dn];
      }
    }

    /** parents is what the listing of the layer returns, ids what the database generates. */
    method ExpandLayer(layer: NodeType, parents: seq<NodeId>, ids: seq<NodeId>, now: int) returns (r: ExpandResult)
      requires LayerListing(nodes, layer, parents) && |ids| == |parents|
      modifies this
      ensures r == TreeAlreadyComplete <==> layer == Content
      ensures r == LayerNotFullyApproved <==> layer != Content && !LayerReady(old(nodes), layer)
      ensures nodes == if r.TreeAlreadyComplete? || r.LayerNotFullyApproved? then old(nodes)
                       else ChildrenInserted(old(nodes), NextLayer(layer).value, parents, ids, now, |parents|)
      ensures match r case Inserted(c) => |nodes| == |old(nodes)| + c && c > 0 case _ => nodes == old(nodes)
    {
      if layer == Content {
        return TreeAlreadyComplete;
      }
      var approved, failed := Count(nodes, layer, {Approved}), Count(nodes, layer, {Failed});
      var pending := Count(nodes, layer, OPEN);
      if approved == 0 || pending > 0 || failed > 0 {
        return LayerNotFullyApproved;
      }
      var next := NextLayer(layer).value;
      var inserted := 0;
      for i := 0 to |parents|
        invariant nodes == ChildrenInserted(old(nodes), next, parents, ids, now, i)
        invariant |nodes| == |old(nodes)| + inserted && (inserted == 0 ==> nodes == old(nodes))
      {
        var ok := CreateDraftNode(Child(ids[i], parents[i], next, i, now + i + 1));
        if ok {
          inserted := inserted + 1;
        }
      }
      r := if inserted == 0 then NothingInserted else Inserted(inserted);
    }
  }

  lemma {:induction false} CountZero(nodes: seq<DraftNode>, layer: NodeType, which: set<NodeStatus>)
    ensures Count(nodes, layer, which) == 0 <==>
            forall j :: 0 <= j < |nodes| ==> !(nodes[j].nodeType == layer && nodes[j].status in which)
  {
    if nodes != [] {
      var front := Front(nodes);
      CountZero(front, layer, which);
      assert forall j :: 0 <= j < |front| ==> front[j] == nodes[j];
    }
  }

  /** The gate opens exactly when the layer has a node and all its nodes are approved. */
  lemma {:induction false} ReadyMeansApproved(nodes: seq<DraftNode>, layer: NodeType)
    ensures LayerReady(nodes, layer) <==>
            && (exists j :: 0 <= j < |nodes| && nodes[j].nodeType == layer)
            && (forall j :: 0 <= j < |nodes| && nodes[j].nodeType == layer ==> nodes[j].status == Approved)
  {
    CountZero(nodes, layer, {Approved});
    CountZero(nodes, layer, OPEN);
    CountZero(nodes, layer, {Failed});
    forall st: NodeStatus
      ensures st == Approved || st == Failed || st in OPEN
    {
      match st
      case Pending => case Generating => case AwaitingReview =>
      case Approved => case Rejected => case Failed =>
    }
  }

  ghost predicate HasChildAt(nodes: seq<DraftNode>, parent: NodeId, ordering: int) {
    exists j :: 0 <= j < |nodes| && nodes[j].parent == Some(parent) && nodes[j].ordering == ordering
  }

  /** An expansion only appends, and only children of the layer's nodes, in the next layer. */
  lemma {:induction false} ExpansionAppends(
    nodes: seq<DraftNode>, next: NodeType, parents: seq<NodeId>, ids: seq<NodeId>, now: int, k: nat)
    requires k <= |parents| == |ids|
    ensures var after := ChildrenInserted(nodes, next, parents, ids, now, k);
            nodes <= after && forall j :: |nodes| <= j < |after| ==> NewChild(after[j], next, parents, ids, k)
  {
    if k > 0 {
      ExpansionAppends(nodes, next, parents, ids, now, k - 1);
      var before := ChildrenInserted(nodes, next, parents, ids, now, k - 1);
      var child := Child(ids[k - 1], parents[k - 1], next, k - 1, now + k);
      assert NewChild(child, next, parents, ids, k);
      forall j | |nodes| <= j < |before|
        ensures NewChild(before[j], next, parents, ids, k)
      {
        assert NewChild(before[j], next, parents, ids, k - 1);
      }
    }
  }

  /** After an expansion the i-th node of the layer has a child in place i. */
  lemma {:induction false} ExpansionFills(
    nodes: seq<DraftNode>, next: NodeType, parents: seq<NodeId>, ids: seq<NodeId>, now: int, k: nat)
    requires k <= |parents| == |ids| && Distinct(ids)
    requires forall i :: 0 <= i < |ids| ==> !RowWithId(nodes, ids[i])
    requires forall i :: 0 <= i < |parents| ==> RowWithId(nodes, parents[i])
    ensures var after := ChildrenInserted(nodes, next, parents, ids, now, k);
            forall i :: 0 <= i < k ==> HasChildAt(after, parents[i], i)
  {
    if k > 0 {
      ExpansionFills(nodes, next, parents, ids, now, k - 1);
      var before := ChildrenInserted(nodes, next, parents, ids, now, k - 1);
      StillFree(nodes, before, next, parents, ids, now, k - 1);
      OneMoreFilled(before, Child(ids[k - 1], parents[k - 1], next, k - 1, now + k), parents, k);
    }
  }

  lemma {:induction false} StillFree(
    nodes: seq<DraftNode>, before: seq<DraftNode>, next: NodeType, parents: seq<NodeId>, ids: seq<NodeId>, now: int,
    k: nat)
    requires k < |parents| == |ids| && Distinct(ids) && !RowWithId(nodes, ids[k]) && RowWithId(nodes, parents[k])
    requires before == ChildrenInserted(nodes, next, parents, ids, now, k)
    ensures !RowWithId(before, ids[k]) && RowWithId(before, parents[k])
  {
    ExpansionAppends(nodes, next, parents, ids, now, k);
    NotYetUsed(nodes, before, next, parents, ids, k);
    RowsStay(nodes, before);
  }

  lemma {:induction false} OneMoreFilled(before: seq<DraftNode>, child: DraftNode, parents: seq<NodeId>, k: nat)
    requires 0 < k <= |parents| && child.parent == Some(parents[k - 1]) && child.ordering == k - 1
    requires RowWithId(before, parents[k - 1]) && !RowWithId(before, child.id)
    requires forall i :: 0 <= i < k - 1 ==> HasChildAt(before, parents[i], i)
    ensures forall i :: 0 <= i < k ==> HasChildAt(Insert(before, child), parents[i], i)
  {
    InsertFills(before, child, parents[k - 1], k - 1);
    RowsStay(before, Insert(before, child));
  }

  /** And the children of an expansion are created after its start, one after the other. */
  lemma {:induction false} ExpansionTimes(
    nodes: seq<DraftNode>, next: NodeType, parents: seq<NodeId>, ids: seq<NodeId>, now: int, k: nat)
    requires k <= |parents| == |ids|
    ensures var after := ChildrenInserted(nodes, next, parents, ids, now, k);
            && |nodes| <= |after|
            && (forall j :: |nodes| <= j < |after| ==> now < after[j].createdAt <= now + k)
            && forall i, j :: |nodes| <= i < j < |after| ==> after[i].createdAt < after[j].createdAt
  {
    if k > 0 {
      ExpansionTimes(nodes, next, parents, ids, now, k - 1);
    }
  }

  lemma {:induction false} NotYetUsed(
    nodes: seq<DraftNode>, before: seq<DraftNode>, next: NodeType, parents: seq<NodeId>, ids: seq<NodeId>, k: nat)
    requires k < |parents| == |ids| && Distinct(ids) && !RowWithId(nodes, ids[k])
    requires nodes <= before && forall j :: |nodes| <= j < |before| ==> NewChild(before[j], next, parents, ids, k)
    ensures !RowWithId(before, ids[k])
  {
  }

  lemma {:induction false} RowsStay(before: seq<DraftNode>, after: seq<DraftNode>)
    requires before <= after
    ensures forall id :: RowWithId(before, id) ==> RowWithId(after, id)
    ensures forall p: nat, i: int :: HasChildAt(before, p, i) ==> HasChildAt(after, p, i)
  {
  }

  lemma {:induction false} InsertFills(before: seq<DraftNode>, child: DraftNode, parent: NodeId, i: nat)
    requires child.parent == Some(parent) && child.ordering == i
    requires RowWithId(before, parent) && !RowWithId(before, child.id)
    ensures Insert(before, child) == before || Insert(before, child) == before + [child]
    ensures HasChildAt(Insert(before, child), parent, i)
  {
    if !HasChildAt(before, parent, i) {
      assert Insert(before, child) == before + [child];
      assert (before + [child])[|before|] == child;
    }
  }

  ghost predicate NewChild(dn: DraftNode, next: NodeType, parents: seq<NodeId>, ids: seq<NodeId>, k: nat)
    requires k <= |parents| == |ids|
  {
    exists i :: 0 <= i < k && dn.id == ids[i] && dn.parent == Some(parents[i]) && dn.ordering == i
                && dn.nodeType == next && dn.status == Pending
  }

  // ---------------------------------------------------------------- runs of a draft

  /** An expansion that has passed its gate, and one that has listed the layer as well and is
      inserting children. */
  datatype Expansion = Gated(layer: NodeType) | Listed(next: NodeType, parents: seq<NodeId>)

  datatype State = State(nodes: seq<DraftNode>, expansions: seq<Expansion>)

  /** One atomic action of any request on the draft.  Time is the clock of the database. */
  datatype Step =
    | CreateDraft(id: NodeId, payload: string, time: int)
    | GenerateNode(id: NodeId, nodeType: NodeType, parent: Option<NodeId>, time: int)
    | ExpandCheck(layer: NodeType)
    | ExpandList(e: nat, parents: seq<NodeId>)
    | ExpandInsert(e: nat, i: nat, id: NodeId, time: int)
    | WriteNode(at: nat, status: NodeStatus, payload: string)

  /** The expansion goes on to the next layer below the nodes it has listed. */
  function WithParents(s: State, e: nat, parents: seq<NodeId>): State
    requires e < |s.expansions| && s.expansions[e].Gated?
  {
    if s.expansions[e].layer == Content then s
    else s.(expansions := s.expansions[e := Listed(NextLayer(s.expansions[e].layer).value, parents)])
  }

  predicate Inserting(s: State, e: nat, i: nat) {
    e < |s.expansions| && s.expansions[e].Listed? && i < |s.expansions[e].parents|
  }

  ghost function Apply(s: State, step: Step): State {
    match step
    case CreateDraft(id, payload, time) =>
      if s.nodes == [] then s.(nodes := [DraftNode(id, None, Root, 0, Pending, payload, time)]) else s
    case GenerateNode(id, nodeType, parent, time) =>
      if s.nodes == [] || nodeType == Root then s
      else s.(nodes := Insert(s.nodes, DraftNode(id, parent, nodeType, 0, Pending, EMPTY_PAYLOAD, time)))
    case ExpandCheck(layer) =>
      if layer != Content && LayerReady(s.nodes, layer) then s.(expansions := s.expansions + [Gated(layer)]) else s
    case ExpandList(e, parents) =>
      if e < |s.expansions| && s.expansions[e].Gated? && LayerListing(s.nodes, s.expansions[e].layer, parents) then
        WithParents(s, e, parents)
      else
        s
    case ExpandInsert(e, i, id, time) =>
      if Inserting(s, e, i) then
        s.(nodes := Insert(s.nodes, Child(id, s.expansions[e].parents[i], s.expansions[e].next, i, time)))
      else
        s
    case WriteNode(at, status, payload) =>
      if at < |s.nodes| then s.(nodes := s.nodes[at := s.nodes[at].(status := status, payload := payload)]) else s
  }

  ghost function Run(steps: seq<Step>): State {
    if steps == [] then State([], []) else Apply(Run(Front(steps)), Last(steps))
  }

  /** Where an expansion stands, and what moves it on: the gate opens exactly for a layer other than the
      last that has a node and whose nodes are all approved; its nodes are listed then, all of them and by
      ordering, and children go into the next layer. */
  lemma {:induction false} ExpansionsExactly(s: State, step: Step)
    ensures var s' := Apply(s, step);
            && (step.ExpandCheck? ==>
                  s'.expansions == s.expansions +
                    if && step.layer != Content
                       && (exists j :: 0 <= j < |s.nodes| && s.nodes[j].nodeType == step.layer)
                       && (forall j :: 0 <= j < |s.nodes| && s.nodes[j].nodeType == step.layer ==>
                             s.nodes[j].status == Approved)
                    then [Gated(step.layer)] else [])
            && (step.ExpandList? && step.e < |s.expansions| && s.expansions[step.e].Gated? ==>
                  var layer := s.expansions[step.e].layer;
                  s'.expansions == if layer != Content && LayerListing(s.nodes, layer, step.parents)
                                   then s.expansions[step.e := Listed(NextLayer(layer).value, step.parents)]
                                   else s.expansions)
            && (step.ExpandList? && !(step.e < |s.expansions| && s.expansions[step.e].Gated?) ==> s' == s)
            && (!step.ExpandCheck? && !step.ExpandList? ==> s'.expansions == s.expansions)
            && (step.ExpandCheck? || step.ExpandList? ==> s'.nodes == s.nodes)
  {
    assert s.expansions + [] == s.expansions;
    if step.ExpandCheck? {
      ReadyMeansApproved(s.nodes, step.layer);
    }
  }

  /** What a request does to the rows: a draft starts with its pending root, a node that is requested or
      inserted by an expansion is pending and empty, and a write touches status and payload of one row. */
  lemma {:induction false} RowsExactly(s: State, step: Step)
    ensures var nodes, nodes' := s.nodes, Apply(s, step).nodes;
            match step
            case CreateDraft(id, payload, time) =>
              nodes' == if nodes == [] then [DraftNode(id, None, Root, 0, Pending, payload, time)] else nodes
            case GenerateNode(id, nodeType, parent, time) =>
              nodes' == if nodes != [] && nodeType != Root && DraftAccepts(nodes, id, parent, 0)
                        then nodes + [DraftNode(id, parent, nodeType, 0, Pending, "{}", time)] else nodes
            case ExpandInsert(e, i, id, time) =>
              if e < |s.expansions| && s.expansions[e].Listed? && i < |s.expansions[e].parents| then
                var parent := Some(s.expansions[e].parents[i]);
                nodes' == if DraftAccepts(nodes, id, parent, i)
                          then nodes + [DraftNode(id, parent, s.expansions[e].next, i, Pending, "{}", time)] else nodes
              else nodes' == nodes
            case WriteNode(at, status, payload) =>
              && |nodes'| == |nodes|
              && (forall j :: 0 <= j < |nodes| && j != at ==> nodes'[j] == nodes[j])
              && (at < |nodes| ==> nodes'[at] == nodes[at].(status := status, payload := payload))
            case _ => nodes' == nodes
  {
  }

  /** The part of a node that no later write touches. */
  ghost predicate SameShape(a: DraftNode, b: DraftNode) {
    a.id == b.id && a.parent == b.parent && a.nodeType == b.nodeType && a.ordering == b.ordering
    && a.createdAt == b.createdAt
  }

  ghost predicate InPlace(nodes: seq<DraftNode>, k: nat)
    requires k < |nodes|
  {
    && !Orphan(nodes, k)
    && (nodes[k].nodeType == Root <==> k == 0)
    && (k == 0 ==> nodes[k].parent == None)
    && 0 <= nodes[k].ordering
    && (forall j :: 0 <= j < k ==> nodes[j].id != nodes[k].id)
    && (nodes[k].parent.Some? ==> forall j :: 0 <= j < k ==> !Siblings(nodes[j], nodes[k]))
  }

  ghost predicate Inv(s: State) {
    && (forall k :: 0 <= k < |s.nodes| ==> InPlace(s.nodes, k))
    && (s.nodes == [] ==> s.expansions == [])
    && forall e :: 0 <= e < |s.expansions| && s.expansions[e].Listed? ==> s.expansions[e].next != Root
  }

  lemma {:induction false} InsertKeeps(nodes: seq<DraftNode>, dn: DraftNode)
    requires forall k :: 0 <= k < |nodes| ==> InPlace(nodes, k)
    requires nodes != [] && dn.nodeType != Root && 0 <= dn.ordering
    ensures forall k :: 0 <= k < |Insert(nodes, dn)| ==> InPlace(Insert(nodes, dn), k)
  {
    var after := Insert(nodes, dn);
    forall k | 0 <= k < |after|
      ensures InPlace(after, k)
    {
      if k < |nodes| {
        assert InPlace(nodes, k);
        assert after[..|nodes|] == nodes;
        PrefixFaults(after, |nodes|, k);
        assert forall j :: 0 <= j <= k ==> after[j] == nodes[j];
      } else {
        assert after == nodes + [dn];
        assert forall j :: 0 <= j < k ==> after[j] == nodes[j];
        if dn.parent.Some? {
          var j :| 0 <= j < |nodes| && nodes[j].id == dn.parent.value;
          assert after[j].id == dn.parent.value;
        }
      }
    }
  }

  lemma {:induction false} WriteKeeps(nodes: seq<DraftNode>, at: nat, dn: DraftNode)
    requires forall k :: 0 <= k < |nodes| ==> InPlace(nodes, k)
    requires at < |nodes| && SameShape(nodes[at], dn)
    ensures var after := nodes[at := dn];
            forall k :: 0 <= k < |nodes| ==> InPlace(after, k)
  {
    var after := nodes[at := dn];
    assert forall j :: 0 <= j < |nodes| ==> SameShape(nodes[j], after[j]);
    forall k | 0 <= k < |nodes|
      ensures InPlace(after, k)
    {
      assert InPlace(nodes, k);
    }
  }

  lemma {:induction false} RunKeepsInv(steps: seq<Step>)
    ensures Inv(Run(steps))
  {
    if steps != [] {
      RunKeepsInv(Front(steps));
      var s := Run(Front(steps));
      match Last(steps)
      case CreateDraft(_, _, _) =>
      case GenerateNode(id, nodeType, parent, time) =>
        if s.nodes != [] && nodeType != Root {
          InsertKeeps(s.nodes, DraftNode(id, parent, nodeType, 0, Pending, EMPTY_PAYLOAD, time));
        }
      case ExpandCheck(layer) =>
        ReadyMeansApproved(s.nodes, layer);
      case ExpandList(_, _) =>
      case ExpandInsert(e, i, id, time) =>
        if Inserting(s, e, i) {
          InsertKeeps(s.nodes, Child(id, s.expansions[e].parents[i], s.expansions[e].next, i, time));
        }
      case WriteNode(at, status, payload) =>
        if at < |s.nodes| {
          WriteKeeps(s.nodes, at, s.nodes[at].(status := status, payload := payload));
        }
    }
  }

  // ---------------------------------------------------------------- reading the draft for a copy

  ghost predicate Before(a: DraftNode, b: DraftNode) {
    a.createdAt < b.createdAt || (a.createdAt == b.createdAt && a.id <= b.id)
  }

  ghost predicate Sorted(rows: seq<DraftNode>) {
    forall i, j :: 0 <= i < j < |rows| ==> Before(rows[i], rows[j])
  }

  /** The rows in the order of ORDER BY created_at, id. */
  ghost predicate Listing(nodes: seq<DraftNode>, rows: seq<DraftNode>) {
    multiset(rows) == multiset(nodes) && Sorted(rows)
  }

  ghost predicate Increasing(nodes: seq<DraftNode>) {
    forall i, j :: 0 <= i < j < |nodes| ==> nodes[i].createdAt < nodes[j].createdAt
  }

  /** With strictly increasing creation times that order is the order of insertion. */
  lemma {:induction false} ListingIsInsertionOrder(nodes: seq<DraftNode>, rows: seq<DraftNode>)
    requires Listing(nodes, rows) && Increasing(nodes)
    ensures rows == nodes
  {
    assert |rows| == |multiset(rows)| == |multiset(nodes)| == |nodes|;
    if nodes != [] {
      LastsAgree(nodes, rows);
      assert nodes == Front(nodes) + [Last(nodes)] && rows == Front(rows) + [Last(rows)];
      SameFronts(Front(nodes), Front(rows), Last(nodes));
      ListingIsInsertionOrder(Front(nodes), Front(rows));
    }
  }

  lemma {:induction false} SameFronts(a: seq<DraftNode>, b: seq<DraftNode>, x: DraftNode)
    requires multiset(a + [x]) == multiset(b + [x])
    ensures multiset(a) == multiset(b)
  {
    assert multiset(a) == multiset(a + [x]) - multiset{x};
    assert multiset(b) == multiset(b + [x]) - multiset{x};
  }

  lemma {:induction false} LastsAgree(nodes: seq<DraftNode>, rows: seq<DraftNode>)
    requires Listing(nodes, rows) && Increasing(nodes) && nodes != [] && rows != []
    ensures Last(rows) == Last(nodes)
  {
    var x, y := Last(nodes), Last(rows);
    assert x in multiset(rows) && y in multiset(nodes);
    var p :| 0 <= p < |rows| && rows[p] == x;
    var q :| 0 <= q < |nodes| && nodes[q] == y;
    assert p == |rows| - 1 || Before(x, y);
    assert q == |nodes| - 1 || y.createdAt < x.createdAt;
  }

  ghost predicate EveryoneHasParent(nodes: seq<DraftNode>) {
    forall k :: 0 < k < |nodes| ==> nodes[k].parent.Some?
  }

  /** What is true of a draft's rows in whatever order they are read. */
  ghost predicate Consistent(nodes: seq<DraftNode>) {
    && (forall a, b :: a in nodes && b in nodes && a.id == b.id ==> a == b)
    && (forall a, b :: a in nodes && b in nodes && a.nodeType == Root && b.nodeType == Root ==> a == b)
    && (forall a, b :: a in nodes && b in nodes && a.parent.Some? && Siblings(a, b) ==> a == b)
    && forall a :: a in nodes ==> Placed(nodes, a)
  }

  ghost predicate Placed(nodes: seq<DraftNode>, a: DraftNode) {
    0 <= a.ordering && (a.nodeType == Root ==> a.parent == None) && (a.parent.Some? ==> HasParent(nodes, a))
  }

  ghost predicate HasParent(nodes: seq<DraftNode>, a: DraftNode) {
    a.parent != Some(a.id) && exists p :: p in nodes && a.parent == Some(p.id)
  }

  /** Every parent comes before its child in the order of creation times and ids. */
  ghost predicate ParentsBefore(nodes: seq<DraftNode>) {
    forall p, a :: p in nodes && a in nodes && a.parent == Some(p.id) ==> Before(p, a)
  }

  lemma {:induction false} InPlaceIsConsistent(nodes: seq<DraftNode>)
    requires forall k :: 0 <= k < |nodes| ==> InPlace(nodes, k)
    ensures Consistent(nodes)
    ensures forall i, j :: 0 <= i < j < |nodes| ==> nodes[i].id != nodes[j].id
  {
    forall i, j | 0 <= i < j < |nodes|
      ensures nodes[i].id != nodes[j].id
      ensures !(nodes[i].nodeType == Root && nodes[j].nodeType == Root)
      ensures nodes[j].parent.Some? ==> !Siblings(nodes[i], nodes[j])
    {
      assert InPlace(nodes, i) && InPlace(nodes, j);
    }
    forall a | a in nodes
      ensures Placed(nodes, a)
    {
      var k :| 0 <= k < |nodes| && nodes[k] == a;
      assert InPlace(nodes, k);
    }
  }

  lemma {:induction false} SameRows(nodes: seq<DraftNode>, rows: seq<DraftNode>)
    requires multiset(rows) == multiset(nodes)
    ensures |rows| == |nodes| && forall a :: a in rows <==> a in nodes
  {
    assert |rows| == |multiset(rows)| == |multiset(nodes)| == |nodes|;
    forall a
      ensures a in rows <==> a in nodes
    {
      assert a in rows <==> a in multiset(rows);
      assert a in nodes <==> a in multiset(nodes);
    }
  }

  lemma {:induction false} ConsistentInAnyOrder(nodes: seq<DraftNode>, rows: seq<DraftNode>)
    requires Consistent(nodes) && forall a :: a in rows <==> a in nodes
    ensures Consistent(rows)
  {
    forall a | a in rows
      ensures Placed(rows, a)
    {
      assert Placed(nodes, a);
      if a.parent.Some? {
        var p :| p in nodes && a.parent == Some(p.id);
        assert p in rows;
      }
    }
  }

  /** Where a row occurs twice, it counts twice. */
  lemma {:induction false} TwiceCounted(rows: seq<DraftNode>, i: nat, j: nat)
    requires i < j < |rows| && rows[i] == rows[j]
    ensures multiset(rows)[rows[i]] >= 2
  {
    assert rows == rows[..j] + rows[j..];
    assert rows[..j][i] == rows[i] && rows[j..][0] == rows[i];
    assert multiset(rows) == multiset(rows[..j]) + multiset(rows[j..]);
  }

  lemma {:induction false} CountedOnce(nodes: seq<DraftNode>, a: DraftNode)
    requires Distinct(nodes)
    ensures multiset(nodes)[a] <= 1
  {
    if nodes != [] {
      assert nodes == Front(nodes) + [Last(nodes)];
      CountedOnce(Front(nodes), a);
      if a == Last(nodes) {
        assert a !in Front(nodes);
      }
    }
  }

  lemma {:induction false} DistinctInAnyOrder(nodes: seq<DraftNode>, rows: seq<DraftNode>)
    requires Distinct(nodes) && multiset(rows) == multiset(nodes)
    ensures Distinct(rows)
  {
    forall i, j | 0 <= i < j < |rows|
      ensures rows[i] != rows[j]
    {
      if rows[i] == rows[j] {
        TwiceCounted(rows, i, j);
        CountedOnce(nodes, rows[i]);
      }
    }
  }

  lemma {:induction false} IdsDistinct(rows: seq<DraftNode>)
    requires Distinct(rows) && Consistent(rows)
    ensures forall i, j :: 0 <= i < j < |rows| ==> rows[i].id != rows[j].id
  {
    forall i, j | 0 <= i < j < |rows|
      ensures rows[i].id != rows[j].id
    {
      assert rows[i] in rows && rows[j] in rows;
    }
  }

  /** In a listing a node is no orphan exactly when its parent is before it. */
  lemma {:induction false} OrphanMeans(rows: seq<DraftNode>, k: nat, p: nat)
    requires Distinct(rows) && Consistent(rows) && Sorted(rows)
    requires k < |rows| && p < |rows| && rows[k].parent == Some(rows[p].id)
    ensures !Orphan(rows, k) <==> Before(rows[p], rows[k])
  {
    IdsDistinct(rows);
    assert Placed(rows, rows[k]) by {
      assert rows[k] in rows;
    }
    if p < k {
      assert rows[p].id == rows[k].parent.value;
    } else {
      assert p != k && Before(rows[k], rows[p]);
    }
  }

  lemma {:induction false} NoOrphansMeans(rows: seq<DraftNode>)
    requires Distinct(rows) && Consistent(rows) && Sorted(rows)
    ensures (forall k :: 0 <= k < |rows| ==> !Orphan(rows, k)) <==> ParentsBefore(rows)
  {
    if ParentsBefore(rows) {
      forall k | 0 <= k < |rows|
        ensures !Orphan(rows, k)
      {
        assert rows[k] in rows && Placed(rows, rows[k]);
        if rows[k].parent.Some? {
          var x :| x in rows && rows[k].parent == Some(x.id);
          var p :| 0 <= p < |rows| && rows[p] == x;
          OrphanMeans(rows, k, p);
        }
      }
    } else {
      var x, a :| x in rows && a in rows && a.parent == Some(x.id) && !Before(x, a);
      var p :| 0 <= p < |rows| && rows[p] == x;
      var k :| 0 <= k < |rows| && rows[k] == a;
      OrphanMeans(rows, k, p);
    }
  }

  /** Whatever the order, the course's constraints refuse exactly the nodes without a parent that are
      not the root. */
  lemma {:induction false} RefusedMeans(rows: seq<DraftNode>, k: nat)
    requires Distinct(rows) && Consistent(rows) && k < |rows|
    ensures Refused(rows, k) <==> rows[k].nodeType != Root && rows[k].parent == None
  {
    assert rows[k] in rows && Placed(rows, rows[k]);
    forall j | 0 <= j < k
      ensures !(rows[j].nodeType == Root && rows[k].nodeType == Root)
      ensures rows[k].parent.Some? ==> !Siblings(rows[j], rows[k])
    {
      assert rows[j] in rows && rows[j] != rows[k];
    }
  }

  ghost predicate RootsOnly(nodes: seq<DraftNode>) {
    forall a :: a in nodes && a.parent == None ==> a.nodeType == Root
  }

  lemma {:induction false} ListingCopies(rows: seq<DraftNode>, ids: seq<NodeId>, now: int)
    requires Distinct(rows) && Consistent(rows) && Sorted(rows)
    requires |rows| <= |ids| && Distinct(ids)
    ensures Identified(rows, ids)
    ensures CopyAll(rows, ids, now).result == Copied <==> ParentsBefore(rows) && RootsOnly(rows)
  {
    IdsDistinct(rows);
    CopyOutcome(rows, ids, now);
    NoOrphansMeans(rows);
    forall k | 0 <= k < |rows|
      ensures Refused(rows, k) <==> rows[k].nodeType != Root && rows[k].parent == None
    {
      RefusedMeans(rows, k);
    }
    assert FaultFree(rows, |rows|) <==> ParentsBefore(rows) && RootsOnly(rows);
  }

  lemma {:induction false} RootsOnlyMeans(nodes: seq<DraftNode>)
    requires forall k :: 0 <= k < |nodes| ==> InPlace(nodes, k)
    ensures RootsOnly(nodes) <==> EveryoneHasParent(nodes)
  {
    forall k | 0 <= k < |nodes|
      ensures nodes[k].nodeType == Root <==> k == 0
    {
      assert InPlace(nodes, k);
    }
    if RootsOnly(nodes) {
      forall k | 0 < k < |nodes|
        ensures nodes[k].parent.Some?
      {
        assert nodes[k] in nodes;
      }
    }
  }

  /** For every run, with any creation times: the listing has parents first exactly when every parent
      is before its child, by creation time or, in a tie, by id; and the copy succeeds exactly when
      moreover every node but the root was given a parent. */
  lemma {:induction false} DraftCopiesExactly(steps: seq<Step>, rows: seq<DraftNode>, ids: seq<NodeId>, now: int)
    requires Listing(Run(steps).nodes, rows) && |rows| <= |ids| && Distinct(ids)
    ensures var nodes := Run(steps).nodes;
            && Identified(rows, ids)
            && ((forall k :: 0 <= k < |rows| ==> !Orphan(rows, k)) <==> ParentsBefore(nodes))
            && (CopyAll(rows, ids, now).result == Copied <==> ParentsBefore(nodes) && EveryoneHasParent(nodes))
  {
    var nodes := Run(steps).nodes;
    RunKeepsInv(steps);
    InPlaceIsConsistent(nodes);
    SameRows(nodes, rows);
    ConsistentInAnyOrder(nodes, rows);
    DistinctInAnyOrder(nodes, rows);
    NoOrphansMeans(rows);
    ListingCopies(rows, ids, now);
    RootsOnlyMeans(nodes);
  }

  lemma {:induction false} IncreasingIsBefore(nodes: seq<DraftNode>)
    requires Increasing(nodes) && forall k :: 0 <= k < |nodes| ==> InPlace(nodes, k)
    ensures ParentsBefore(nodes)
  {
    InPlaceIsConsistent(nodes);
    forall p, a | p in nodes && a in nodes && a.parent == Some(p.id)
      ensures Before(p, a)
    {
      var k :| 0 <= k < |nodes| && nodes[k] == a;
      assert InPlace(nodes, k);
      var j :| 0 <= j < k && nodes[j].id == a.parent.value;
      assert nodes[j] in nodes && nodes[j] == p;
    }
  }

  /** In particular every run with strictly increasing creation times yields a parents-first list, and
      it copies exactly when each node but the root was given a parent. */
  lemma {:induction false} EveryDraftCopies(steps: seq<Step>, rows: seq<DraftNode>, ids: seq<NodeId>, now: int)
    requires Increasing(Run(steps).nodes) && Listing(Run(steps).nodes, rows)
    requires |rows| <= |ids| && Distinct(ids)
    ensures Identified(rows, ids)
    ensures forall k :: 0 <= k < |rows| ==> !Orphan(rows, k)
    ensures CopyAll(rows, ids, now).result == Copied <==> EveryoneHasParent(rows)
  {
    RunKeepsInv(steps);
    IncreasingIsBefore(Run(steps).nodes);
    DraftCopiesExactly(steps, rows, ids, now);
    ListingIsInsertionOrder(Run(steps).nodes, rows);
  }

  /** Only a generate request that names no parent can make the copy fail. */
  lemma {:induction false} ParentsAreAlwaysGiven(steps: seq<Step>)
    requires forall st :: st in steps && st.GenerateNode? ==> st.parent.Some?
    ensures EveryoneHasParent(Run(steps).nodes)
  {
    if steps != [] {
      assert steps == Front(steps) + [Last(steps)];
      ParentsAreAlwaysGiven(Front(steps));
    }
  }

  /** With a tie the order is that of the random identifiers: here a child comes before its parent. */
  lemma {:induction false} TiesBreakTheCopy(ids: seq<NodeId>, now: int) returns (steps: seq<Step>, rows: seq<DraftNode>)
    requires |ids| >= 2 && Distinct(ids)
    ensures Listing(Run(steps).nodes, rows) && Identified(rows, ids)
    ensures CopyAll(rows, ids, now).result == ParentNotMapped(0)
  {
    var root, child := DraftNode(7, None, Root, 0, Pending, "t", 0), Child(3, 7, Syllabus, 0, 0);
    steps, rows := [CreateDraft(7, "t", 0), GenerateNode(3, Syllabus, Some(7), 0)], [child, root];
    TwoSteps(steps[0], steps[1], root, child);
    assert [steps[0], steps[1]] == steps;
    assert Orphan(rows, 0);
    CopyOutcome(rows, ids, now);
  }

  lemma {:induction false} TwoSteps(create: Step, generate: Step, root: DraftNode, child: DraftNode)
    requires create == CreateDraft(root.id, root.payload, root.createdAt)
    requires generate == GenerateNode(child.id, child.nodeType, child.parent, child.createdAt)
    requires root == DraftNode(root.id, None, Root, 0, Pending, root.payload, root.createdAt)
    requires child == Child(child.id, root.id, child.nodeType, 0, child.createdAt)
    requires child.nodeType != Root && child.id != root.id
    ensures Run([create, generate]).nodes == [root, child]
  {
    assert Front([create]) == [] && Run([create]).nodes == [root];
    assert Front([create, generate]) == [create];
    assert [root][0].id == root.id && DraftAccepts([root], child.id, Some(root.id), 0);
  }
}
