/** The adjacency-list graph: node and edge lists changed in place, group nesting, and the
    breadth-first path query. */
module AdjacencyGraph {
  type Edge = (int, int)

  datatype NodeData = NodeData(alive: bool, isGroup: bool, collapsed: bool, parentGroup: int, children: seq<int>)

  const FRESH_NODE := NodeData(true, false, false, -1, [])

  datatype Graph = Graph(nodes: seq<NodeData>, edges: seq<Edge>)

  predicate IsSlot(g: Graph, n: int) {
    0 <= n < |g.nodes|
  }

  predicate Live(g: Graph, n: int) {
    IsSlot(g, n) && g.nodes[n].alive
  }

  predicate IsGroup(g: Graph, n: int) {
    Live(g, n) && g.nodes[n].isGroup
  }

  predicate Touches(e: Edge, n: int) {
    e.0 == n || e.1 == n
  }

  // ----- what each operation does -----

  function WithoutNode(edges: seq<Edge>, n: int): seq<Edge> {
    if edges == [] then []
    else if Touches(edges[0], n) then WithoutNode(edges[1..], n)
    else [edges[0]] + WithoutNode(edges[1..], n)
  }

  /** The index of the first edge equal to `e`, or |edges|. */
  function FirstEdge(edges: seq<Edge>, e: Edge): (k: nat)
    ensures k <= |edges|
    ensures forall i :: 0 <= i < k ==> edges[i] != e
    ensures k < |edges| ==> edges[k] == e
    ensures e in edges <==> k < |edges|
  {
    if edges == [] then 0
    else if edges[0] == e then 0
    else
      assert e in edges <==> e in edges[1..];
      1 + FirstEdge(edges[1..], e)
  }

  /** `parent_group` and `children` after adding one live member to group `gid`. */
  function Adopted(nodes: seq<NodeData>, gid: int, m: int): (r: seq<NodeData>)
    requires 0 <= gid < |nodes| && 0 <= m < |nodes|
    ensures |r| == |nodes|
  {
    var adopted := nodes[m := nodes[m].(parentGroup := gid)];
    adopted[gid := adopted[gid].(children := adopted[gid].children + [m])]
  }

  /** The same after adding each live member of a list. */
  function Grouped(nodes: seq<NodeData>, gid: int, members: seq<int>): (r: seq<NodeData>)
    requires 0 <= gid < |nodes|
    ensures |r| == |nodes|
    decreases |members|
  {
    if members == [] then nodes
    else
      var m := members[0];
      Grouped(if 0 <= m < |nodes| && nodes[m].alive then Adopted(nodes, gid, m) else nodes, gid, members[1..])
  }

  /** `parent_group` cleared on each live node of a list. */
  function Orphaned(nodes: seq<NodeData>, members: seq<int>): (r: seq<NodeData>)
    ensures |r| == |nodes|
    decreases |members|
  {
    if members == [] then nodes
    else
      var m := members[0];
      var next := if 0 <= m < |nodes| && nodes[m].alive then nodes[m := nodes[m].(parentGroup := -1)] else nodes;
      Orphaned(next, members[1..])
  }

  /** The public operations; those that check their arguments leave the graph alone when the
      check fails. */
  datatype Op =
    | AddNode
    | RemoveNode(node: int)
    | AddEdge(source: int, target: int)
    | RemoveEdge(source: int, target: int)
    | ReplaceEdge(from: int, to: int, newFrom: int, newTo: int)
    | CreateGroup(members: seq<int>)
    | DeleteGroup(group: int)
    | SetExpanded(group: int, expanded: bool)
    | Clear

  function Apply(g: Graph, op: Op): Graph {
    match op
    case AddNode => g.(nodes := g.nodes + [FRESH_NODE])
    case RemoveNode(n) =>
      if !Live(g, n) then g
      else Graph(g.nodes[n := g.nodes[n].(alive := false)], WithoutNode(g.edges, n))
    case AddEdge(s, t) =>
      if Live(g, s) && Live(g, t) then g.(edges := g.edges + [(s, t)]) else g
    case RemoveEdge(s, t) =>
      var k := FirstEdge(g.edges, (s, t));
      if k == |g.edges| then g else g.(edges := g.edges[..k] + g.edges[k + 1..])
    case ReplaceEdge(from, to, nf, nt) =>
      var k := FirstEdge(g.edges, (from, to));
      if k == |g.edges| then g else g.(edges := g.edges[k := (nf, nt)])
    case CreateGroup(members) =>
      var gid := |g.nodes|;
      g.(nodes := Grouped(g.nodes + [FRESH_NODE.(isGroup := true)], gid, members))
    case DeleteGroup(group) =>
      if !IsGroup(g, group) then g
      else
        var nodes := Orphaned(g.nodes, g.nodes[group].children);
        g.(nodes := nodes[group := nodes[group].(alive := false)])
    case SetExpanded(group, expanded) =>
      if !IsGroup(g, group) then g
      else g.(nodes := g.nodes[group := g.nodes[group].(collapsed := !expanded)])
    case Clear => Graph([], [])
  }

  const EMPTY := Graph([], [])

  function Run(g: Graph, ops: seq<Op>): Graph
    decreases |ops|
  {
    if ops == [] then g else Run(Apply(g, ops[0]), ops[1..])
  }

  // ----- what grouping does, exactly -----

  /** The members of a list that are live, in list order. */
  function LiveOf(nodes: seq<NodeData>, members: seq<int>): seq<int> {
    if members == [] then []
    else if 0 <= members[0] < |nodes| && nodes[members[0]].alive then [members[0]] + LiveOf(nodes, members[1..])
    else LiveOf(nodes, members[1..])
  }

  lemma {:induction false} LiveOfMembers(nodes: seq<NodeData>, members: seq<int>)
    ensures forall m :: m in LiveOf(nodes, members) <==> m in members && 0 <= m < |nodes| && nodes[m].alive
  {
    if members != [] {
      assert members == [members[0]] + members[1..];
      LiveOfMembers(nodes, members[1..]);
    }
  }

  /** They come in list order, as often as they are listed. */
  lemma {:induction false} LiveOfInOrder(nodes: seq<NodeData>, xs: seq<int>, ys: seq<int>)
    ensures LiveOf(nodes, xs + ys) == LiveOf(nodes, xs) + LiveOf(nodes, ys)
    ensures forall m :: LiveOf(nodes, [m]) == if 0 <= m < |nodes| && nodes[m].alive then [m] else []
  {
    if xs == [] {
      assert xs + ys == ys;
    } else {
      assert (xs + ys)[1..] == xs[1..] + ys;
      LiveOfInOrder(nodes, xs[1..], ys);
    }
  }

  lemma {:induction false} SameLiveOf(a: seq<NodeData>, b: seq<NodeData>, members: seq<int>)
    requires |a| == |b| && forall n :: 0 <= n < |a| ==> a[n].alive == b[n].alive
    ensures LiveOf(a, members) == LiveOf(b, members)
  {
    if members != [] {
      SameLiveOf(a, b, members[1..]);
    }
  }

  /** A live node that is a member belongs to the given group; any other node is as it was. */
  function Reparented(node: NodeData, member: bool, gid: int): NodeData {
    if member && node.alive then node.(parentGroup := gid) else node
  }

  lemma AdoptedExactly(nodes: seq<NodeData>, gid: int, m: int)
    requires 0 <= gid < |nodes| && 0 <= m < |nodes| && nodes[m].alive
    ensures Adopted(nodes, gid, m)[gid]
         == Reparented(nodes[gid], m == gid, gid).(children := nodes[gid].children + [m])
    ensures forall n :: 0 <= n < |nodes| && n != gid ==> Adopted(nodes, gid, m)[n] == Reparented(nodes[n], n == m, gid)
  {
  }

  lemma {:induction false} GroupedChildren(nodes: seq<NodeData>, gid: int, members: seq<int>)
    requires 0 <= gid < |nodes|
    ensures Grouped(nodes, gid, members)[gid].children == nodes[gid].children + LiveOf(nodes, members)
    decreases |members|
  {
    if members != [] {
      var m, rest := members[0], members[1..];
      if 0 <= m < |nodes| && nodes[m].alive {
        var next := Adopted(nodes, gid, m);
        AdoptedExactly(nodes, gid, m);
        GroupedChildren(next, gid, rest);
        SameLiveOf(nodes, next, rest);
        assert (nodes[gid].children + [m]) + LiveOf(nodes, rest) == nodes[gid].children + ([m] + LiveOf(nodes, rest));
      } else {
        GroupedChildren(nodes, gid, rest);
      }
    }
  }

  lemma {:induction false} GroupedSelf(nodes: seq<NodeData>, gid: int, members: seq<int>)
    requires 0 <= gid < |nodes|
    ensures var slot := Grouped(nodes, gid, members)[gid];
            slot == Reparented(nodes[gid], gid in members, gid).(children := slot.children)
    decreases |members|
  {
    if members != [] {
      var m := members[0];
      assert members == [m] + members[1..];
      if 0 <= m < |nodes| && nodes[m].alive {
        AdoptedExactly(nodes, gid, m);
        GroupedSelf(Adopted(nodes, gid, m), gid, members[1..]);
      } else {
        GroupedSelf(nodes, gid, members[1..]);
      }
    }
  }

  lemma {:induction false} GroupedOther(nodes: seq<NodeData>, gid: int, members: seq<int>, n: int)
    requires 0 <= gid < |nodes| && 0 <= n < |nodes| && n != gid
    ensures Grouped(nodes, gid, members)[n] == Reparented(nodes[n], n in members, gid)
    decreases |members|
  {
    if members != [] {
      var m := members[0];
      assert members == [m] + members[1..];
      if 0 <= m < |nodes| && nodes[m].alive {
        AdoptedExactly(nodes, gid, m);
        GroupedOther(Adopted(nodes, gid, m), gid, members[1..], n);
      } else {
        GroupedOther(nodes, gid, members[1..], n);
      }
    }
  }

  /** Grouping appends the live members to the group's children, points exactly them at it (also
      the group itself, if it is among them), and changes nothing else. */
  lemma GroupedExactly(nodes: seq<NodeData>, gid: int, members: seq<int>)
    requires 0 <= gid < |nodes|
    ensures Grouped(nodes, gid, members)[gid]
         == Reparented(nodes[gid], gid in members, gid).(children := nodes[gid].children + LiveOf(nodes, members))
    ensures forall n :: 0 <= n < |nodes| && n != gid ==>
              Grouped(nodes, gid, members)[n] == Reparented(nodes[n], n in members, gid)
  {
    GroupedChildren(nodes, gid, members);
    GroupedSelf(nodes, gid, members);
    forall n | 0 <= n < |nodes| && n != gid
      ensures Grouped(nodes, gid, members)[n] == Reparented(nodes[n], n in members, gid)
    {
      GroupedOther(nodes, gid, members, n);
    }
  }

  lemma {:induction false} OrphanedExactly(nodes: seq<NodeData>, members: seq<int>)
    ensures forall n :: 0 <= n < |nodes| ==>
              Orphaned(nodes, members)[n] == Reparented(nodes[n], n in members, -1)
    decreases |members|
  {
    if members != [] {
      var m := members[0];
      assert members == [m] + members[1..];
      if 0 <= m < |nodes| && nodes[m].alive {
        OrphanedExactly(nodes[m := nodes[m].(parentGroup := -1)], members[1..]);
      } else {
        OrphanedExactly(nodes, members[1..]);
      }
    }
  }

  /** The graph after creating a group. */
  lemma CreatedGroup(g: Graph, members: seq<int>)
    ensures var gid, h := |g.nodes|, Apply(g, CreateGroup(members));
            && |h.nodes| == gid + 1 && h.edges == g.edges
            && h.nodes[gid].alive && h.nodes[gid].isGroup && !h.nodes[gid].collapsed
            && h.nodes[gid].parentGroup == (if gid in members then gid else -1)
            && (forall m :: m in h.nodes[gid].children <==> m in members && (Live(g, m) || m == gid))
            && (forall n :: 0 <= n < gid ==> h.nodes[n] == Reparented(g.nodes[n], n in members, gid))
  {
    var start := g.nodes + [FRESH_NODE.(isGroup := true)];
    GroupedExactly(start, |g.nodes|, members);
    LiveOfMembers(start, members);
    assert forall n :: 0 <= n < |g.nodes| ==> start[n] == g.nodes[n];
  }

  /** The graph after deleting a group. */
  lemma DeletedGroup(g: Graph, group: int)
    requires IsGroup(g, group)
    ensures var h, listed := Apply(g, DeleteGroup(group)), g.nodes[group].children;
            && |h.nodes| == |g.nodes| && h.edges == g.edges
            && h.nodes[group] == Reparented(g.nodes[group], group in listed, -1).(alive := false)
            && (forall n :: 0 <= n < |g.nodes| && n != group ==> h.nodes[n] == Reparented(g.nodes[n], n in listed, -1))
  {
    OrphanedExactly(g.nodes, g.nodes[group].children);
  }

  // ----- new slots and the flag of a group -----

  /** A new node is live, no group, and without parent or children; a new group is live and shown
      expanded. */
  lemma NewSlots(g: Graph, members: seq<int>)
    ensures var n := |g.nodes|;
            && Apply(g, AddNode).nodes == g.nodes + [NodeData(true, false, false, -1, [])]
            && Apply(g, AddNode).edges == g.edges
            && |Apply(g, CreateGroup(members)).nodes| == n + 1
            && var group := Apply(g, CreateGroup(members)).nodes[n];
               group.alive && group.isGroup && !group.collapsed && (n !in members ==> group.parentGroup == -1)
  {
    CreatedGroup(g, members);
  }

  /** Expanding or collapsing a live group sets its flag and nothing else; any other node is refused. */
  lemma SetExpandedExactly(g: Graph, group: int, expanded: bool)
    ensures var h := Apply(g, SetExpanded(group, expanded));
            && h.edges == g.edges && |h.nodes| == |g.nodes|
            && (forall n :: 0 <= n < |g.nodes| ==>
                  && h.nodes[n].collapsed
                  == (if n == group && IsGroup(g, group) then !expanded else g.nodes[n].collapsed)
                  && h.nodes[n].(collapsed := g.nodes[n].collapsed) == g.nodes[n])
  {
  }

  // ----- group membership, in every run -----

  /** A parent link names an existing group slot that lists the member. */
  ghost predicate GroupsKnowMembers(g: Graph) {
    forall m :: 0 <= m < |g.nodes| && g.nodes[m].parentGroup >= 0 ==>
      var p := g.nodes[m].parentGroup;
      IsSlot(g, p) && g.nodes[p].isGroup && m in g.nodes[p].children
  }

  lemma StepKeepsGroups(g: Graph, op: Op)
    requires GroupsKnowMembers(g)
    ensures GroupsKnowMembers(Apply(g, op))
  {
    match op
    case CreateGroup(members) => CreatedGroup(g, members);
    case DeleteGroup(group) =>
      if IsGroup(g, group) {
        DeletedGroup(g, group);
      }
    case _ =>
  }

  lemma {:induction false} RunKeepsGroups(g: Graph, ops: seq<Op>)
    requires GroupsKnowMembers(g)
    ensures GroupsKnowMembers(Run(g, ops))
    decreases |ops|
  {
    if ops != [] {
      StepKeepsGroups(g, ops[0]);
      RunKeepsGroups(Apply(g, ops[0]), ops[1..]);
    }
  }

  // ----- the other direction: listed nodes point back -----

  predicate Lists(g: Graph, p: int, m: int) {
    IsSlot(g, p) && m in g.nodes[p].children
  }

  predicate PointsBack(g: Graph, p: int, m: int)
    requires IsSlot(g, p)
  {
    IsSlot(g, m) && (IsGroup(g, p) && Live(g, m) ==> g.nodes[m].parentGroup == p)
  }

  /** Children are node slots, and a live node that a live group lists points back to it. */
  ghost predicate ListedPointBack(g: Graph) {
    forall p, m :: Lists(g, p, m) ==> PointsBack(g, p, m)
  }

  predicate ListedByGroup(g: Graph, m: int) {
    exists p :: 0 <= p < |g.nodes| && Lists(g, p, m) && IsGroup(g, p)
  }

  /** The one way to break it: grouping a live node that a live group still lists. */
  predicate ListsSafely(g: Graph, op: Op) {
    op.CreateGroup? ==> forall m :: m in op.members && Live(g, m) ==> !ListedByGroup(g, m)
  }

  lemma StepPointsBackIff(g: Graph, op: Op)
    requires ListedPointBack(g)
    ensures ListedPointBack(Apply(g, op)) <==> ListsSafely(g, op)
  {
    var h := Apply(g, op);
    match op
    case CreateGroup(members) => CreatingPointsBackIff(g, members);
    case DeleteGroup(group) =>
      if IsGroup(g, group) {
        DeletingPointsBack(g, group);
      }
    case _ =>
      assert forall p, m :: Lists(h, p, m) ==> Lists(g, p, m);
  }

  /** No other group loses a live child: a node that both list would point back to both. */
  lemma DeletingPointsBack(g: Graph, group: int)
    requires ListedPointBack(g) && IsGroup(g, group)
    ensures ListedPointBack(Apply(g, DeleteGroup(group)))
  {
    var h := Apply(g, DeleteGroup(group));
    DeletedGroup(g, group);
    forall p, m | Lists(h, p, m)
      ensures PointsBack(h, p, m)
    {
      assert Lists(g, p, m);
      assert Lists(g, group, m) ==> PointsBack(g, group, m);
    }
  }

  lemma CreatingPointsBackIff(g: Graph, members: seq<int>)
    requires ListedPointBack(g)
    ensures ListedPointBack(Apply(g, CreateGroup(members))) <==> ListsSafely(g, CreateGroup(members))
  {
    var gid, h := |g.nodes|, Apply(g, CreateGroup(members));
    CreatedGroup(g, members);
    assert forall p, m :: Lists(h, p, m) && p != gid ==> Lists(g, p, m);
    if m :| m in members && Live(g, m) && ListedByGroup(g, m) {
      var p :| 0 <= p < |g.nodes| && Lists(g, p, m) && IsGroup(g, p);
      assert Lists(h, p, m) && !PointsBack(h, p, m);
    } else {
      forall p, m | Lists(h, p, m)
        ensures PointsBack(h, p, m)
      {
        if p != gid {
          assert PointsBack(g, p, m);
          assert IsGroup(g, p) ==> ListedByGroup(g, m);
        }
      }
    }
  }

  // ----- live nodes belong to live groups -----

  ghost predicate ParentsLive(g: Graph) {
    forall m :: Live(g, m) && g.nodes[m].parentGroup >= 0 ==> IsGroup(g, g.nodes[m].parentGroup)
  }

  /** The one way to break it: removing a group node that another live node still belongs to. */
  predicate RemovesSafely(g: Graph, op: Op) {
    op.RemoveNode? && Live(g, op.node) ==>
      forall m :: 0 <= m < |g.nodes| && m != op.node && g.nodes[m].alive ==> g.nodes[m].parentGroup != op.node
  }

  lemma StepKeepsParentsIff(g: Graph, op: Op)
    requires GroupsKnowMembers(g) && ParentsLive(g)
    ensures ParentsLive(Apply(g, op)) <==> RemovesSafely(g, op)
  {
    var h := Apply(g, op);
    match op
    case RemoveNode(n) =>
      if m :| 0 <= m < |g.nodes| && m != n && g.nodes[m].alive && g.nodes[m].parentGroup == n && Live(g, n) {
        assert Live(h, m) && !Live(h, n);
      }
      assert forall m :: Live(h, m) ==> Live(g, m);
    case CreateGroup(members) =>
      CreatedGroup(g, members);
      assert forall m :: Live(h, m) && m != |g.nodes| ==> Live(g, m);
    case DeleteGroup(group) =>
      if IsGroup(g, group) {
        DeletedGroup(g, group);
      }
      assert forall m :: Live(h, m) ==> Live(g, m);
    case _ =>
      assert forall m :: Live(h, m) && IsSlot(g, m) ==> Live(g, m);
  }

  // ----- nesting -----

  /** Parent links go to later slots, so no chain of them returns to its start. */
  ghost predicate NestsUpwards(g: Graph) {
    forall m :: 0 <= m < |g.nodes| && g.nodes[m].parentGroup >= 0 ==> m < g.nodes[m].parentGroup
  }

  /** The one way to break nesting: asking for a group that lists the identifier it will get. */
  predicate NestsSafely(g: Graph, op: Op) {
    op.CreateGroup? ==> |g.nodes| !in op.members
  }

  lemma StepNestsIff(g: Graph, op: Op)
    requires NestsUpwards(g)
    ensures NestsUpwards(Apply(g, op)) <==> NestsSafely(g, op)
  {
    match op
    case CreateGroup(members) => CreatedGroup(g, members);
    case DeleteGroup(group) =>
      if IsGroup(g, group) {
        DeletedGroup(g, group);
      }
    case _ =>
  }

  /** `k` steps along parent links; `-1` once a node has no parent. */
  function Ancestor(g: Graph, m: int, k: nat): int
    requires k > 0 ==> m == -1 || IsSlot(g, m)
    decreases k
  {
    if k == 0 || m == -1 then m
    else
      var p := g.nodes[m].parentGroup;
      if IsSlot(g, p) then Ancestor(g, p, k - 1) else -1
  }

  lemma {:induction false} NestingIsAcyclic(g: Graph, m: int, k: nat)
    requires NestsUpwards(g) && IsSlot(g, m) && k > 0
    ensures Ancestor(g, m, k) == -1 || Ancestor(g, m, k) > m
    decreases k
  {
    var p := g.nodes[m].parentGroup;
    if IsSlot(g, p) && k > 1 {
      NestingIsAcyclic(g, p, k - 1);
    }
  }

  // ----- edges between live nodes -----

  ghost predicate EdgesLive(g: Graph) {
    forall e :: e in g.edges ==> Live(g, e.0) && Live(g, e.1)
  }

  /** The operations that may leave an edge dangling, and when they do not. */
  predicate EdgeSafe(g: Graph, op: Op) {
    match op
    case ReplaceEdge(from, to, nf, nt) => (from, to) in g.edges ==> Live(g, nf) && Live(g, nt)
    case DeleteGroup(group) => IsGroup(g, group) ==> forall e :: e in g.edges ==> !Touches(e, group)
    case _ => true
  }

  lemma {:induction false} WithoutNodeKeepsOthers(edges: seq<Edge>, n: int)
    ensures forall e :: e in WithoutNode(edges, n) <==> e in edges && !Touches(e, n)
  {
    if edges != [] {
      WithoutNodeKeepsOthers(edges[1..], n);
      assert edges == [edges[0]] + edges[1..];
    }
  }

  /** Removing a node keeps every occurrence of every edge that does not touch it. */
  lemma {:induction false} WithoutNodeCounts(edges: seq<Edge>, n: int, e: Edge)
    ensures multiset(WithoutNode(edges, n))[e] == if Touches(e, n) then 0 else multiset(edges)[e]
  {
    if edges != [] {
      WithoutNodeCounts(edges[1..], n, e);
      assert edges == [edges[0]] + edges[1..];
    }
  }

  lemma StepKeepsEdgesIff(g: Graph, op: Op)
    requires EdgesLive(g)
    ensures EdgesLive(Apply(g, op)) <==> EdgeSafe(g, op)
  {
    var h := Apply(g, op);
    match op
    case RemoveNode(n) =>
      WithoutNodeKeepsOthers(g.edges, n);
    case ReplaceEdge(from, to, nf, nt) =>
      var k := FirstEdge(g.edges, (from, to));
      if k < |g.edges| {
        assert h.edges[k] == (nf, nt);
        forall e | e in h.edges
          ensures e == (nf, nt) || e in g.edges
        {
          var i :| 0 <= i < |h.edges| && h.edges[i] == e;
          assert i == k || g.edges[i] == e;
        }
        assert (nf, nt) in h.edges;
      }
    case CreateGroup(members) =>
      CreatedGroup(g, members);
      assert forall n :: Live(g, n) ==> Live(h, n);
    case DeleteGroup(group) =>
      if IsGroup(g, group) {
        DeletedGroup(g, group);
        assert forall n :: n != group && Live(g, n) ==> Live(h, n);
        assert !Live(h, group);
      }
    case _ =>
  }

  predicate SafeStep(g: Graph, op: Op) {
    EdgeSafe(g, op) && NestsSafely(g, op) && ListsSafely(g, op) && RemovesSafely(g, op)
  }

  /** Every step of a run meets the four guards in the state it acts on. */
  predicate SafeRun(g: Graph, ops: seq<Op>)
    decreases |ops|
  {
    ops == [] || (SafeStep(g, ops[0]) && SafeRun(Apply(g, ops[0]), ops[1..]))
  }

  ghost predicate Sound(g: Graph) {
    GroupsKnowMembers(g) && ListedPointBack(g) && ParentsLive(g) && NestsUpwards(g) && EdgesLive(g)
  }

  /** A run keeps all five invariants in every intermediate state exactly when each of its
      steps is safe. */
  lemma {:induction false} RunStaysSoundIff(g: Graph, ops: seq<Op>)
    requires Sound(g)
    ensures SafeRun(g, ops) <==> forall k :: 0 <= k <= |ops| ==> Sound(Run(g, ops[..k]))
    decreases |ops|
  {
    if ops != [] {
      var h := Apply(g, ops[0]);
      StepKeepsGroups(g, ops[0]);
      StepPointsBackIff(g, ops[0]);
      StepKeepsParentsIff(g, ops[0]);
      StepNestsIff(g, ops[0]);
      StepKeepsEdgesIff(g, ops[0]);
      assert forall k :: 0 < k <= |ops| ==> ops[..k][0] == ops[0] && ops[..k][1..] == ops[1..][..k - 1];
      assert Run(g, ops[..1]) == h by {
        assert ops[..1][1..] == [];
      }
      if Sound(h) {
        RunStaysSoundIff(h, ops[1..]);
        if SafeRun(g, ops) {
          forall k | 0 <= k <= |ops|
            ensures Sound(Run(g, ops[..k]))
          {
            if k > 0 {
              assert Run(g, ops[..k]) == Run(h, ops[1..][..k - 1]);
            } else {
              assert ops[..0] == [];
            }
          }
        }
        if forall k :: 0 <= k <= |ops| ==> Sound(Run(g, ops[..k])) {
          forall k | 0 <= k <= |ops[1..]|
            ensures Sound(Run(h, ops[1..][..k]))
          {
            assert Run(g, ops[..k + 1]) == Run(h, ops[1..][..k + 1 - 1]);
          }
        }
      }
    } else {
      assert ops[..0] == [];
    }
  }

  /** The empty graph, in which a graph starts and to which clearing returns, has all five, so safe runs
      from it keep them. */
  lemma SafeRunsStaySound(g: Graph, ops: seq<Op>)
    ensures EMPTY.nodes == [] && EMPTY.edges == [] && Apply(g, Clear) == EMPTY && Sound(EMPTY)
    ensures GroupsKnowMembers(Run(EMPTY, ops))
    ensures SafeRun(EMPTY, ops) ==> Sound(Run(EMPTY, ops))
  {
    RunKeepsGroups(EMPTY, ops);
    RunStaysSoundIff(EMPTY, ops);
    assert ops[..|ops|] == ops;
  }

  /** Replacing an edge can leave it dangling. */
  lemma ReplacedEdgeDangles() returns (replaced: Graph)
    ensures replaced == Run(EMPTY, [AddNode, AddNode, AddEdge(0, 1), ReplaceEdge(0, 1, 0, 9)]) && !EdgesLive(replaced)
  {
    var two := Apply(Apply(EMPTY, AddNode), AddNode);
    assert |two.nodes| == 2;
    var joined := Apply(two, AddEdge(0, 1));
    assert joined.edges == [(0, 1)];
    replaced := Apply(joined, ReplaceEdge(0, 1, 0, 9));
    assert replaced.edges[0] == (0, 9) && (0, 9) in replaced.edges;
    RunFour(EMPTY, AddNode, AddNode, AddEdge(0, 1), ReplaceEdge(0, 1, 0, 9));
  }

  /** Deleting a group can leave its edges dangling. */
  lemma DeletedGroupDangles() returns (deleted: Graph)
    ensures deleted == Run(EMPTY, [AddNode, CreateGroup([0]), AddEdge(0, 1), DeleteGroup(1)]) && !EdgesLive(deleted)
  {
    var one := Apply(EMPTY, AddNode);
    assert one.nodes == [FRESH_NODE];
    CreatedGroup(one, [0]);
    var linked := Apply(Apply(one, CreateGroup([0])), AddEdge(0, 1));
    assert linked.edges == [(0, 1)] && IsGroup(linked, 1);
    deleted := Apply(linked, DeleteGroup(1));
    DeletedGroup(linked, 1);
    assert (0, 1) in deleted.edges;
    RunFour(EMPTY, AddNode, CreateGroup([0]), AddEdge(0, 1), DeleteGroup(1));
  }

  lemma RunFour(g: Graph, a: Op, b: Op, c: Op, d: Op)
    ensures Run(g, [a, b, c, d]) == Apply(Apply(Apply(Apply(g, a), b), c), d)
  {
    assert [a, b, c, d][1..] == [b, c, d] && [b, c, d][1..] == [c, d] && [c, d][1..] == [d] && [d][1..] == [];
    var h := Apply(Apply(g, a), b);
    assert Run(h, [c, d]) == Run(Apply(h, c), [d]) == Run(Apply(Apply(h, c), d), []);
  }

  lemma RemoveAt<T>(s: seq<T>, k: nat)
    requires k < |s|
    ensures multiset(s[..k] + s[k + 1..]) == multiset(s) - multiset{s[k]}
  {
    assert s == s[..k] + [s[k]] + s[k + 1..];
  }

  /** Removing an added edge restores the edges as a multiset; when the edge was not there before
      it restores the whole graph. */
  lemma RemoveUndoesAdd(g: Graph, s: int, t: int)
    requires Live(g, s) && Live(g, t)
    ensures Apply(Apply(g, AddEdge(s, t)), RemoveEdge(s, t)).nodes == g.nodes
    ensures multiset(Apply(Apply(g, AddEdge(s, t)), RemoveEdge(s, t)).edges) == multiset(g.edges)
    ensures (s, t) !in g.edges ==> Apply(Apply(g, AddEdge(s, t)), RemoveEdge(s, t)) == g
  {
    RemoveAppended(g.edges, (s, t));
  }

  lemma RemoveAppended(edges: seq<Edge>, e: Edge)
    ensures FirstEdge(edges + [e], e) < |edges + [e]|
    ensures var k := FirstEdge(edges + [e], e);
            multiset((edges + [e])[..k] + (edges + [e])[k + 1..]) == multiset(edges)
    ensures e !in edges ==>
              var k := FirstEdge(edges + [e], e);
              (edges + [e])[..k] + (edges + [e])[k + 1..] == edges
  {
    var longer := edges + [e];
    assert longer[|edges|] == e;
    var k := FirstEdge(longer, e);
    RemoveAt(longer, k);
    assert multiset(longer) == multiset(edges) + multiset{e};
    if e !in edges {
      FirstOfAppended(edges, e);
      DropLast(edges, e);
    }
  }

  lemma FirstOfAppended(edges: seq<Edge>, e: Edge)
    requires e !in edges
    ensures FirstEdge(edges + [e], e) == |edges|
  {
    assert (edges + [e])[|edges|] == e;
  }

  lemma DropLast<T>(s: seq<T>, x: T)
    ensures (s + [x])[..|s|] + (s + [x])[|s| + 1..] == s
  {
  }

  /** Replacing trades one occurrence of the old edge for the new one; replacing back undoes it
      when the new edge was not there before. */
  lemma ReplaceTradesOneEdge(g: Graph, from: int, to: int, nf: int, nt: int)
    requires (from, to) in g.edges
    ensures multiset(Apply(g, ReplaceEdge(from, to, nf, nt)).edges)
         == multiset(g.edges) - multiset{(from, to)} + multiset{(nf, nt)}
    ensures (nf, nt) !in g.edges ==>
              Apply(Apply(g, ReplaceEdge(from, to, nf, nt)), ReplaceEdge(nf, nt, from, to)) == g
  {
  }

  /** Deleting a group right after creating it frees its live members, keeps every edge, and
      leaves all other nodes as they were; the group's slot stays, dead. */
  lemma CreateThenDelete(g: Graph, members: seq<int>, n: int)
    requires IsSlot(g, n)
    ensures var gid := |g.nodes|;
            var h := Apply(Apply(g, CreateGroup(members)), DeleteGroup(gid));
            && h.edges == g.edges && |h.nodes| == gid + 1 && !Live(h, gid)
            && h.nodes[n] == Reparented(g.nodes[n], n in members, -1)
  {
    CreatedGroup(g, members);
    DeletedGroup(Apply(g, CreateGroup(members)), |g.nodes|);
  }
}
