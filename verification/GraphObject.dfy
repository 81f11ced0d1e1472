/** The graph object itself: vectors of nodes and edges that its methods change in place. */
module GraphObject {
  import opened AdjacencyGraph
  import opened Common

  /** A chain of at least one edge, all of whose nodes but the last are node slots. */
  ghost predicate IsChain(g: Graph, p: seq<int>) {
    && |p| >= 2
    && forall i :: 0 <= i < |p| - 1 ==> IsSlot(g, p[i]) && (p[i], p[i + 1]) in g.edges
  }

  ghost predicate ChainJoins(g: Graph, s: int, t: int, p: seq<int>) {
    IsChain(g, p) && p[0] == s && p[|p| - 1] == t
  }

  ghost predicate Connected(g: Graph, s: int, t: int) {
    exists p :: ChainJoins(g, s, t, p)
  }

  lemma {:induction false} DistinctFits(q: seq<int>, n: nat)
    requires NoRepeats(q) && forall v :: v in q ==> 0 <= v < n
    ensures |q| <= n
    decreases n
  {
    if q != [] {
      assert q[0] in q;
      if k :| 0 <= k < |q| && q[k] == n - 1 {
        var rest := q[..k] + q[k + 1..];
        forall v | v in rest
          ensures 0 <= v < n - 1
        {
          assert v in q;
        }
        DistinctFits(rest, n - 1);
      } else {
        forall v | v in q
          ensures v < n - 1
        {
          var k :| 0 <= k < |q| && q[k] == v;
        }
        DistinctFits(q, n - 1);
      }
    }
  }

  /** The edges out of `n` lead away from `target` and, within the node slots, into `queue`. */
  ghost predicate Settled(g: Graph, n: int, target: int, queue: seq<int>) {
    forall e :: e in g.edges && e.0 == n ==> e.1 != target && (IsSlot(g, e.1) ==> e.1 in queue)
  }

  lemma {:induction false} SettledQueueMissesTarget(g: Graph, source: int, target: int, queue: seq<int>, p: seq<int>,
                                                    k: nat)
    requires forall n :: n in queue ==> Settled(g, n, target, queue)
    requires source in queue && ChainJoins(g, source, target, p) && k < |p| - 1
    ensures p[k] in queue && p[k + 1] != target
  {
    if k > 0 {
      SettledQueueMissesTarget(g, source, target, queue, p, k - 1);
    }
  }

  class GraphImpl {
    var nodes: seq<NodeData>
    var edgeList: seq<Edge>

    constructor ()
      ensures View() == EMPTY
    {
      nodes, edgeList := [], [];
    }

    ghost function View(): Graph
      reads this
    {
      Graph(nodes, edgeList)
    }

    predicate Valid(n: int)
      reads this
    {
      0 <= n < |nodes| && nodes[n].alive
    }

    method AddNode() returns (id: int)
      modifies this
      ensures View() == Apply(old(View()), Op.AddNode)
      ensures id == |old(nodes)| && Live(View(), id)
    {
      id := |nodes|;
      nodes := nodes + [FRESH_NODE];
    }

    method RemoveNode(n: int) returns (ok: bool)
      modifies this
      ensures View() == Apply(old(View()), Op.RemoveNode(n))
      ensures ok <==> Live(old(View()), n)
      ensures !Live(View(), n) && forall e :: e in edgeList && ok ==> !Touches(e, n)
    {
      ok := Valid(n);
      if ok {
        nodes := nodes[n := nodes[n].(alive := false)];
        WithoutNodeKeepsOthers(edgeList, n);
        edgeList := WithoutNode(edgeList, n);
      }
    }

    method AddEdge(s: int, t: int) returns (ok: bool)
      modifies this
      ensures View() == Apply(old(View()), Op.AddEdge(s, t))
      ensures ok <==> Live(old(View()), s) && Live(old(View()), t)
    {
      ok := Valid(s) && Valid(t);
      if ok {
        edgeList := edgeList + [(s, t)];
      }
    }

    method RemoveEdge(s: int, t: int) returns (ok: bool)
      modifies this
      ensures View() == Apply(old(View()), Op.RemoveEdge(s, t))
      ensures ok <==> (s, t) in old(edgeList)
    {
      var k := FirstEdge(edgeList, (s, t));
      ok := k < |edgeList|;
      if ok {
        edgeList := edgeList[..k] + edgeList[k + 1..];
      }
    }

    method ReplaceEdge(from: int, to: int, nf: int, nt: int) returns (ok: bool)
      modifies this
      ensures View() == Apply(old(View()), Op.ReplaceEdge(from, to, nf, nt))
      ensures ok <==> (from, to) in old(edgeList)
    {
      for k := 0 to |edgeList|
        invariant edgeList == old(edgeList) && nodes == old(nodes)
        invariant forall i :: 0 <= i < k ==> edgeList[i] != (from, to)
      {
        if edgeList[k] == (from, to) {
          assert FirstEdge(edgeList, (from, to)) == k;
          edgeList := edgeList[k := (nf, nt)];
          return true;
        }
      }
      ok := false;
    }

    method CreateGroup(members: seq<int>) returns (gid: int)
      modifies this
      ensures View() == Apply(old(View()), Op.CreateGroup(members))
      ensures gid == |old(nodes)|
    {
      gid := AddNode();
      nodes := nodes[gid := nodes[gid].(isGroup := true, collapsed := false)];
      ghost var start := nodes;
      assert start == old(nodes) + [FRESH_NODE.(isGroup := true)];
      for k := 0 to |members|
        invariant |nodes| == gid + 1 && edgeList == old(edgeList)
        invariant Grouped(start, gid, members) == Grouped(nodes, gid, members[k..])
      {
        var m := members[k];
        assert members[k..][1..] == members[k + 1..];
        if Valid(m) {
          nodes := nodes[m := nodes[m].(parentGroup := gid)];
          nodes := nodes[gid := nodes[gid].(children := nodes[gid].children + [m])];
        }
      }
    }

    method DeleteGroup(group: int) returns (ok: bool)
      modifies this
      ensures View() == Apply(old(View()), Op.DeleteGroup(group))
      ensures ok <==> IsGroup(old(View()), group)
    {
      ok := Valid(group) && nodes[group].isGroup;
      if ok {
        var children := nodes[group].children;
        for k := 0 to |children|
          invariant |nodes| == |old(nodes)| && edgeList == old(edgeList)
          invariant Orphaned(old(nodes), children) == Orphaned(nodes, children[k..])
        {
          assert children[k..][1..] == children[k + 1..];
          if Valid(children[k]) {
            nodes := nodes[children[k] := nodes[children[k]].(parentGroup := -1)];
          }
        }
        nodes := nodes[group := nodes[group].(alive := false)];
      }
    }

    method SetGroupExpanded(group: int, expanded: bool) returns (ok: bool)
      modifies this
      ensures View() == Apply(old(View()), Op.SetExpanded(group, expanded))
      ensures ok <==> IsGroup(old(View()), group)
    {
      ok := Valid(group) && nodes[group].isGroup;
      if ok {
        nodes := nodes[group := nodes[group].(collapsed := !expanded)];
      }
    }

    method Clear()
      modifies this
      ensures View() == EMPTY && nodes == [] && edgeList == []
    {
      nodes, edgeList := [], [];
    }

    /** Intermediate nodes only need to be slots, so a chain may run through a dead node. */
    method PathExists(source: int, target: int) returns (found: bool)
      ensures found <==>
                source == target ||
                (Live(View(), source) && Live(View(), target) && Connected(View(), source, target))
    {
      if source == target { return true; }
      ghost var g := View();
      var size := |nodes|;
      if !Valid(source) || !Valid(target) { return false; }
      var visited := new bool[size](_ => false);
      visited[source] := true;
      var queue := [source];
      var head := 0;
      while head < |queue|
        invariant 0 < |queue| && head <= |queue| && queue[0] == source
        invariant NoRepeats(queue) && target !in queue
        invariant forall v :: v in queue ==> IsSlot(g, v)
        invariant forall v :: 0 <= v < size ==> (visited[v] <==> v in queue)
        invariant forall v :: v in queue ==> v == source || Connected(g, source, v)
        invariant forall i :: 0 <= i < head ==> Settled(g, queue[i], target, queue)
        decreases size - head
      {
        DistinctFits(queue, size);
        var cur := queue[head];
        head := head + 1;
        for k := 0 to |edgeList|
          invariant 0 < |queue| && head <= |queue| && queue[0] == source && queue[head - 1] == cur
          invariant NoRepeats(queue) && target !in queue
          invariant forall v :: v in queue ==> IsSlot(g, v)
          invariant forall v :: 0 <= v < size ==> (visited[v] <==> v in queue)
          invariant forall v :: v in queue ==> v == source || Connected(g, source, v)
          invariant forall i :: 0 <= i < head - 1 ==> Settled(g, queue[i], target, queue)
          invariant forall j :: 0 <= j < k && edgeList[j].0 == cur ==>
                      edgeList[j].1 != target && (IsSlot(g, edgeList[j].1) ==> edgeList[j].1 in queue)
        {
          var e := edgeList[k];
          if e.0 == cur {
            ConnectedStep(g, source, cur, e);
            if e.1 == target { return true; }
            if 0 <= e.1 < size && !visited[e.1] {
              visited[e.1] := true;
              queue := queue + [e.1];
            }
          }
        }
        assert Settled(g, cur, target, queue);
      }
      if Connected(g, source, target) {
        var p :| ChainJoins(g, source, target, p);
        assert queue[0] in queue;
        SettledQueueMissesTarget(g, source, target, queue, p, |p| - 2);
      }
      found := false;
    }
  }

  lemma ConnectedStep(g: Graph, source: int, cur: int, e: Edge)
    requires cur == source || Connected(g, source, cur)
    requires IsSlot(g, cur) && e in g.edges && e.0 == cur
    ensures Connected(g, source, e.1)
  {
    assert e == (cur, e.1);
    if cur == source {
      assert ChainJoins(g, source, e.1, [source, e.1]);
    } else {
      var p :| ChainJoins(g, source, cur, p);
      assert ChainJoins(g, source, e.1, p + [e.1]);
    }
  }

  /** In a sound graph a chain that starts at a live node stays on live nodes. */
  lemma {:induction false} SoundChainsAreLive(g: Graph, p: seq<int>, k: nat)
    requires EdgesLive(g) && IsChain(g, p) && k < |p|
    ensures Live(g, p[k])
  {
    if k < |p| - 1 {
      assert (p[k], p[k + 1]) in g.edges;
    } else {
      assert (p[k - 1], p[k - 1 + 1]) in g.edges;
    }
  }
}
