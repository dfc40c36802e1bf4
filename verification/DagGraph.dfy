/** The scheduling graph of a workflow: construction, cycle detection, Kahn's sort and ready nodes. */
module DagGraph {
  import opened CycleSearch
  import opened Optional
  import opened Sequences
  import opened Workflows

  // ---------- what the adjacency lists and in-degrees contain ----------

  /** The sources of the scheduling edges into v, in edge order, parallel edges repeated. */
  function Sources(edges: seq<Edge>, v: string): seq<string> {
    if edges == [] then [] else
      var k := |edges| - 1;
      Sources(edges[..k], v) +
      if !edges[k].isInternal && edges[k].target == v then [edges[k].source] else []
  }

  lemma {:induction false} SourcesArePredecessors(edges: seq<Edge>, u: string, v: string)
    ensures u in Sources(edges, v) <==> EdgeIn(edges, u, v)
  {
    if edges != [] {
      var k := |edges| - 1;
      assert edges == edges[..k] + [edges[k]];
      SourcesArePredecessors(edges[..k], u, v);
    }
  }

  /** The list names the source of every scheduling edge into v, edge by edge in their order. */
  lemma {:induction false} SourcesInOrder(edges: seq<Edge>, v: string) returns (at: seq<nat>)
    ensures forall j, k :: 0 <= j < k < |at| ==> at[j] < at[k]
    ensures forall i: nat :: i in at <==> i < |edges| && !edges[i].isInternal && edges[i].target == v
    ensures |at| == |Sources(edges, v)|
    ensures forall j :: 0 <= j < |at| ==> at[j] < |edges| && Sources(edges, v)[j] == edges[at[j]].source
  {
    if edges == [] {
      at := [];
    } else {
      var k := |edges| - 1;
      at := SourcesInOrder(edges[..k], v);
      assert forall j :: 0 <= j < |at| ==> at[j] in at;
      if !edges[k].isInternal && edges[k].target == v {
        at := at + [k];
      }
    }
  }

  /** How many scheduling edges enter v from sources that are not done. */
  function Pending(edges: seq<Edge>, v: string, done: set<string>): nat {
    if edges == [] then 0 else
      var k := |edges| - 1;
      var e := edges[k];
      Pending(edges[..k], v, done) +
      if !e.isInternal && e.target == v && e.source !in done then 1 else 0
  }

  ghost function EdgesInto(edges: seq<Edge>, v: string, done: set<string>): set<nat> {
    set i: nat | i < |edges| && !edges[i].isInternal && edges[i].target == v && edges[i].source !in done
  }

  lemma {:induction false} PendingCounts(edges: seq<Edge>, v: string, done: set<string>)
    ensures Pending(edges, v, done) == |EdgesInto(edges, v, done)|
  {
    if edges != [] {
      var k := |edges| - 1;
      PendingCounts(edges[..k], v, done);
      assert EdgesInto(edges, v, done) - {k} == EdgesInto(edges[..k], v, done);
      assert k in EdgesInto(edges, v, done) <==>
             !edges[k].isInternal && edges[k].target == v && edges[k].source !in done;
      assert k !in EdgesInto(edges[..k], v, done);
    }
  }

  /** Counting the sources in the list that are not done counts the edges. */
  function NotDone(deps: seq<string>, done: set<string>): nat {
    if deps == [] then 0 else NotDone(deps[..|deps| - 1], done) + if deps[|deps| - 1] in done then 0 else 1
  }

  lemma {:induction false} SourcesPending(edges: seq<Edge>, v: string, done: set<string>)
    ensures NotDone(Sources(edges, v), done) == Pending(edges, v, done)
  {
    if edges != [] {
      var k := |edges| - 1;
      SourcesPending(edges[..k], v, done);
      if !edges[k].isInternal && edges[k].target == v {
        var deps := Sources(edges, v);
        assert deps[..|deps| - 1] == Sources(edges[..k], v);
      } else {
        assert Sources(edges, v) == Sources(edges[..k], v);
      }
    }
  }

  lemma {:induction false} PendingZero(edges: seq<Edge>, v: string, done: set<string>)
    ensures Pending(edges, v, done) == 0 <==> forall u :: EdgeIn(edges, u, v) ==> u in done
  {
    if edges != [] {
      var k := |edges| - 1;
      assert edges == edges[..k] + [edges[k]];
      PendingZero(edges[..k], v, done);
      assert EdgeIn(edges, edges[k].source, v) || edges[k].isInternal || edges[k].target != v;
    }
  }

  /** Finishing u releases exactly the edges from u to v, parallel ones counted. */
  lemma {:induction false} PendingFinish(edges: seq<Edge>, v: string, done: set<string>, u: string)
    requires u !in done
    ensures Pending(edges, v, done) ==
            Pending(edges, v, done + {u}) + multiset(Targets(edges, u))[v]
  {
    if edges != [] {
      PendingFinish(edges[..|edges| - 1], v, done, u);
    }
  }

  // ---------- sorting by OrderNo ----------

  ghost predicate Ordered(nodes: seq<Node>) {
    forall i, j :: 0 <= i < j < |nodes| ==> nodes[i].orderNo <= nodes[j].orderNo
  }

  /** sort.Slice on distinct nodes: the same nodes in non-decreasing OrderNo, ties in any order. */
  method SortByOrderNo(nodes: seq<Node>) returns (r: seq<Node>)
    requires DistinctIds(nodes)
    ensures DistinctIds(r) && Ordered(r) && Elems(r) == Elems(nodes)
  {
    r := [];
    for i := 0 to |nodes|
      invariant DistinctIds(r) && Ordered(r) && Elems(r) == Elems(nodes[..i])
    {
      var k := |r|;
      while k > 0 && r[k - 1].orderNo > nodes[i].orderNo
        invariant 0 <= k <= |r|
        invariant forall j :: k <= j < |r| ==> r[j].orderNo > nodes[i].orderNo
      {
        k := k - 1;
      }
      DistinctIdsMeans(nodes);
      forall n | n in r ensures n.id != nodes[i].id {
        assert n in Elems(nodes[..i]);
      }
      InsertedKeeps(r, k, nodes[i]);
      Grown(r, k, nodes[i]);
      Grown(nodes[..i], i, nodes[i]);
      assert nodes[..i + 1] == nodes[..i] + [nodes[i]] + nodes[..i][i..];
      r := r[..k] + [nodes[i]] + r[k..];
    }
    assert nodes[..|nodes|] == nodes;
  }

  lemma InsertedKeeps(r: seq<Node>, k: nat, n: Node)
    requires DistinctIds(r) && Ordered(r) && k <= |r|
    requires forall m :: m in r ==> m.id != n.id
    requires forall j :: 0 <= j < k ==> r[j].orderNo <= n.orderNo
    requires forall j :: k <= j < |r| ==> n.orderNo <= r[j].orderNo
    ensures DistinctIds(r[..k] + [n] + r[k..]) && Ordered(r[..k] + [n] + r[k..])
  {
    var r' := r[..k] + [n] + r[k..];
    DistinctIdsMeans(r);
    DistinctIdsMeans(r');
    forall i, j | 0 <= i < j < |r'| ensures r'[i].id != r'[j].id && r'[i].orderNo <= r'[j].orderNo {
      InsertedAt(r, k, n, i);
      InsertedAt(r, k, n, j);
    }
  }

  /** A list of distinct workflow nodes with exactly the given IDs, sorted by OrderNo. */
  ghost predicate LaunchList(wf: Workflow, ids: set<string>, r: seq<Node>) {
    && DistinctIds(r) && Ordered(r)
    && Elems(r) == set n | n in wf.nodes && n.id in ids
  }

  /** The nodes among the first i whose IDs are wanted. */
  ghost predicate Picked(nodes: seq<Node>, i: nat, ids: set<string>, picked: seq<Node>)
    requires i <= |nodes|
  {
    DistinctIds(picked) && Elems(picked) == set n | n in nodes[..i] && n.id in ids
  }

  lemma PickNext(nodes: seq<Node>, i: nat, ids: set<string>, picked: seq<Node>)
    requires DistinctIds(nodes) && i < |nodes| && Picked(nodes, i, ids, picked)
    ensures Picked(nodes, i + 1, ids, if nodes[i].id in ids then picked + [nodes[i]] else picked)
  {
    var n := nodes[i];
    assert nodes[..i + 1] == nodes[..i] + [n];
    DistinctIdsMeans(nodes);
    forall k | 0 <= k < |picked| ensures picked[k].id != n.id {
      assert picked[k] in Elems(picked);
      var j :| 0 <= j < i && nodes[j] == picked[k];
    }
    var longer := picked + [n];
    DistinctIdsMeans(picked);
    DistinctIdsMeans(longer);
    assert Elems(longer) == Elems(picked) + {n} by {
      assert longer[|picked|] == n;
      forall m | m in picked ensures m in longer { }
    }
  }

  // ---------- Kahn's algorithm ----------

  /** Edges into listed nodes come from nodes listed earlier. */
  ghost predicate SourcesFirst(wf: Workflow, order: seq<string>) {
    forall u, v {:trigger wf.HasEdge(u, v)} :: wf.HasEdge(u, v) && v in order ==>
      u in order && IndexOf(order, u) < IndexOf(order, v)
  }

  /** Kahn's count. `done` has left the queue, `queued` is in it, and `rest` are the targets of the
      last node popped that are still to be counted down: a node has been queued exactly when its
      remaining in-degree is zero. */
  ghost predicate Counting(wf: Workflow, deg: map<string, int>, done: set<string>, queued: set<string>,
                           rest: seq<string>) {
    && done !! queued && Elems(rest) <= deg.Keys
    && done + queued == (set v | v in deg && deg[v] == 0)
    && (forall v :: v in deg ==> deg[v] == Pending(wf.edges, v, done) + multiset(rest)[v])
  }

  lemma PopKeeps(wf: Workflow, deg: map<string, int>, done: set<string>, queued: set<string>, id: string)
    requires Counting(wf, deg, done, queued, []) && id in queued
    requires forall v :: wf.HasEdge(id, v) ==> v in deg
    ensures Counting(wf, deg, done + {id}, queued - {id}, Targets(wf.edges, id))
    ensures forall u :: wf.HasEdge(u, id) ==> u in done
  {
    forall t | t in Targets(wf.edges, id) ensures t in deg {
      TargetsAreSuccessors(wf.edges, id, t);
      assert wf.HasEdge(id, t);
    }
    forall v | v in deg
      ensures deg[v] == Pending(wf.edges, v, done + {id}) + multiset(Targets(wf.edges, id))[v]
    {
      PendingFinish(wf.edges, v, done, id);
    }
    assert id in done + queued;
    PendingZero(wf.edges, id, done);
  }

  /** Counting one target down, and queueing it when its count reaches zero. */
  lemma CountTarget(wf: Workflow, deg: map<string, int>, done: set<string>, queued: set<string>,
                    targets: seq<string>, j: nat)
    requires j < |targets| && Counting(wf, deg, done, queued, targets[j..])
    ensures targets[j] in deg && targets[j] !in done + queued
    ensures var t := targets[j];
            Counting(wf, deg[t := deg[t] - 1], done, if deg[t] == 1 then queued + {t} else queued, targets[j + 1..])
  {
    var t := targets[j];
    assert t in Elems(targets[j..]) by { assert targets[j..][0] == t; }
    assert targets[j..] == [t] + targets[j + 1..];
    assert multiset(targets[j..])[t] == multiset(targets[j + 1..])[t] + 1;
    assert t !in done + queued;
  }

  lemma AppendSourced(wf: Workflow, order: seq<string>, t: string)
    requires Distinct(order) && SourcesFirst(wf, order) && t !in order
    requires forall u :: wf.HasEdge(u, t) ==> u in order
    ensures Distinct(order + [t]) && SourcesFirst(wf, order + [t])
  {
    var o := order + [t];
    forall v | v in order ensures IndexOf(o, v) == IndexOf(order, v) {
      IndexOfDistinct(o, IndexOf(order, v));
    }
    IndexOfDistinct(o, |order|);
  }

  /** The roots start the count. */
  lemma StartCounting(wf: Workflow, deg: map<string, int>, roots: seq<Node>)
    requires LaunchList(wf, wf.Ready({}), roots)
    requires deg.Keys == wf.Ids() && forall v :: v in deg ==> deg[v] == Pending(wf.edges, v, {})
    ensures Counting(wf, deg, {}, Elems(IdsOf(roots)), []) && Distinct(IdsOf(roots))
  {
    var order := IdsOf(roots);
    forall i | 0 <= i < |order| ensures order[i] in wf.Ready({}) {
      assert roots[i] in Elems(roots);
    }
    forall v | v in wf.Ids() ensures v in order <==> deg[v] == 0 {
      PendingZero(wf.edges, v, {});
      if deg[v] == 0 {
        var n :| n in wf.nodes && n.id == v;
        assert n in Elems(roots);
        var i :| 0 <= i < |roots| && roots[i] == n;
        assert order[i] == v;
      }
    }
  }

  /** When the queue is empty, having listed every node and being acyclic are the same thing. */
  lemma CountingDone(wf: Workflow, deg: map<string, int>, order: seq<string>)
    requires wf.WellFormed() && deg.Keys == wf.Ids() && Counting(wf, deg, Elems(order), {}, [])
    requires Distinct(order) && SourcesFirst(wf, order)
    ensures |order| == |wf.nodes| <==> wf.Acyclic()
    ensures |order| == |wf.nodes| ==> wf.IsTopologicalOrder(order)
  {
    IdsSize(wf);
    DistinctSize(order);
    assert Elems(order) == Elems(order) + {};
    SubsetSize(Elems(order), wf.Ids());
    if |order| == |wf.nodes| {
      assert Elems(order) == wf.Ids();
      forall u, v | wf.HasEdge(u, v) ensures v in order {
        assert v in Elems(order);
      }
      TopologicalOrderIsAcyclic(wf, order);
    } else {
      var s := wf.Ids() - Elems(order);
      var missing := SmallerMisses(Elems(order), wf.Ids());
      assert missing in s;
      forall v | v in s ensures HasPredIn(wf, s, v) {
        PendingZero(wf.edges, v, Elems(order));
        var u :| wf.HasEdge(u, v) && u !in Elems(order);
        assert u in s;
      }
      NoSourceMeansCycle(wf, s);
    }
  }

  /** The inner loop: one target after another is counted down, and queued at zero. */
  method CountDown(ghost wf: Workflow, ghost done: set<string>, deg0: map<string, int>,
                   queue0: seq<string>, targets: seq<string>)
    returns (deg: map<string, int>, queue: seq<string>)
    requires Counting(wf, deg0, done, Elems(queue0), targets) && Distinct(queue0)
    ensures Counting(wf, deg, done, Elems(queue), []) && Distinct(queue) && deg.Keys == deg0.Keys
  {
    deg, queue := deg0, queue0;
    assert targets[0..] == targets;
    for j := 0 to |targets|
      invariant Counting(wf, deg, done, Elems(queue), targets[j..]) && Distinct(queue)
      invariant deg.Keys == deg0.Keys
    {
      var t := targets[j];
      CountTarget(wf, deg, done, Elems(queue), targets, j);
      assert Elems(queue + [t]) == Elems(queue) + {t};
      deg := deg[t := deg[t] - 1];
      if deg[t] == 0 {
        queue := queue + [t];
      }
    }
    assert targets[|targets|..] == [];
  }

  ghost predicate NodesById(wf: Workflow, nodeMap: map<string, Node>) {
    forall v :: v in nodeMap ==> nodeMap[v].id == v && nodeMap[v] in wf.nodes
  }

  /** The nodes of the workflow with the listed ids, in that order. */
  ghost predicate ListsNodes(wf: Workflow, result: seq<Node>, listed: seq<string>) {
    && |result| == |listed|
    && forall k :: 0 <= k < |result| ==> result[k].id == listed[k] && result[k] in wf.nodes
  }

  /** Popping the first queued node keeps the counts, with its targets still to be counted down. */
  lemma PopFirst(wf: Workflow, adj: map<string, seq<string>>, deg: map<string, int>, queue: seq<string>,
                 listed: seq<string>)
    requires Adjacent(wf, adj) && deg.Keys == adj.Keys && queue != [] && Distinct(queue)
    requires Counting(wf, deg, Elems(listed), Elems(queue), []) && Distinct(listed) && SourcesFirst(wf, listed)
    ensures queue[0] in adj && Distinct(queue[1..])
    ensures Counting(wf, deg, Elems(listed + [queue[0]]), Elems(queue[1..]), adj[queue[0]])
    ensures Distinct(listed + [queue[0]]) && SourcesFirst(wf, listed + [queue[0]])
    ensures Elems(listed) < Elems(listed + [queue[0]]) <= adj.Keys
  {
    var id, done := queue[0], Elems(listed);
    QueueTail(queue);
    assert id in done + Elems(queue);
    PopKeeps(wf, deg, done, Elems(queue), id);
    AppendSourced(wf, listed, id);
    ElemsSnoc(listed, id);
  }

  lemma QueueTail(queue: seq<string>)
    requires queue != [] && Distinct(queue)
    ensures queue[0] in Elems(queue) && Distinct(queue[1..]) && Elems(queue[1..]) == Elems(queue) - {queue[0]}
  {
    assert queue == [queue[0]] + queue[1..];
  }

  lemma ElemsSnoc(s: seq<string>, x: string)
    ensures Elems(s + [x]) == Elems(s) + {x}
  {
  }

  /** Where Kahn's loop stands: nodes are listed after their predecessors, the others are counted down. */
  ghost predicate Draining(wf: Workflow, adj: map<string, seq<string>>, deg: map<string, int>, queue: seq<string>,
                           result: seq<Node>, listed: seq<string>)
  {
    && Counting(wf, deg, Elems(listed), Elems(queue), []) && Distinct(queue) && deg.Keys == adj.Keys
    && Distinct(listed) && SourcesFirst(wf, listed) && ListsNodes(wf, result, listed)
  }

  /** The loop's body. */
  method DrainFirst(wf: Workflow, adj: map<string, seq<string>>, nodeMap: map<string, Node>, deg0: map<string, int>,
                    queue0: seq<string>, result0: seq<Node>, ghost listed0: seq<string>)
    returns (deg: map<string, int>, queue: seq<string>, result: seq<Node>, ghost listed: seq<string>)
    requires Adjacent(wf, adj) && NodesById(wf, nodeMap) && adj.Keys == nodeMap.Keys
    requires Draining(wf, adj, deg0, queue0, result0, listed0) && queue0 != []
    ensures Draining(wf, adj, deg, queue, result, listed)
    ensures Elems(listed0) < Elems(listed) <= adj.Keys
  {
    var nodeId := queue0[0];
    PopFirst(wf, adj, deg0, queue0, listed0);
    result, listed := result0 + [nodeMap[nodeId]], listed0 + [nodeId];
    deg, queue := CountDown(wf, Elems(listed), deg0, queue0[1..], adj[nodeId]);
  }

  /** Kahn's loop: pop the first queued node, count its targets down, queue those that reach zero.
      It ends with every node listed that has no unlisted predecessor. */
  method DrainQueue(wf: Workflow, adj: map<string, seq<string>>, nodeMap: map<string, Node>,
                    inDegree: map<string, int>, roots: seq<string>)
    returns (result: seq<Node>, deg: map<string, int>, ghost listed: seq<string>)
    requires Adjacent(wf, adj) && NodesById(wf, nodeMap) && adj.Keys == inDegree.Keys == nodeMap.Keys
    requires Counting(wf, inDegree, {}, Elems(roots), []) && Distinct(roots)
    ensures deg.Keys == inDegree.Keys && Counting(wf, deg, Elems(listed), {}, [])
    ensures Distinct(listed) && SourcesFirst(wf, listed) && ListsNodes(wf, result, listed)
  {
    var queue := roots;
    result, listed, deg := [], [], inDegree;
    assert Elems(listed) == {};
    while |queue| > 0
      invariant Draining(wf, adj, deg, queue, result, listed)
      decreases adj.Keys - Elems(listed)
    {
      deg, queue, result, listed := DrainFirst(wf, adj, nodeMap, deg, queue, result, listed);
    }
    assert Elems(queue) == {};
  }

  // ---------- the graph object ----------

  /** NewDAGGraph's first loop: every node gets an entry, in-degree 0 and no outgoing edges. */
  method NodeMaps(nodes: seq<Node>)
    returns (nodeMap: map<string, Node>, inDegree: map<string, int>, adj: map<string, seq<string>>)
    ensures nodeMap.Keys == inDegree.Keys == adj.Keys == set n | n in nodes :: n.id
    ensures forall v :: v in nodeMap ==> nodeMap[v].id == v && nodeMap[v] in nodes
    ensures forall v :: v in inDegree ==> inDegree[v] == 0
    ensures forall v :: v in adj ==> adj[v] == []
  {
    nodeMap, inDegree, adj := map[], map[], map[];
    for i := 0 to |nodes|
      invariant nodeMap.Keys == inDegree.Keys == adj.Keys == set n | n in nodes[..i] :: n.id
      invariant forall v :: v in nodeMap ==> nodeMap[v].id == v && nodeMap[v] in nodes
      invariant forall v :: v in inDegree ==> inDegree[v] == 0
      invariant forall v :: v in adj ==> adj[v] == []
    {
      var id := nodes[i].id;
      assert nodes[..i + 1] == nodes[..i] + [nodes[i]];
      nodeMap, inDegree, adj := nodeMap[id := nodes[i]], inDegree[id := 0], adj[id := []];
    }
    assert nodes[..|nodes|] == nodes;
  }

  // A key that a map does not hold reads as the zero value.
  function ListAt(adj: map<string, seq<string>>, v: string): seq<string> {
    if v in adj then adj[v] else []
  }

  function CountAt(inDegree: map<string, int>, v: string): int {
    if v in inDegree then inDegree[v] else 0
  }

  /** NewDAGGraph's second loop: internal edges are skipped, every other edge is recorded once at
      its source and once at its target, be they nodes of the workflow or not. */
  method EdgeMaps(edges: seq<Edge>, ghost ids: set<string>, zero: map<string, int>, none: map<string, seq<string>>)
    returns (inDegree: map<string, int>, adj: map<string, seq<string>>)
    requires zero.Keys == none.Keys == ids
    requires forall v :: v in ids ==> zero[v] == 0 && none[v] == []
    ensures MapsOf(edges, ids, inDegree, adj)
  {
    inDegree, adj := zero, none;
    for i := 0 to |edges|
      invariant MapsOf(edges[..i], ids, inDegree, adj)
    {
      var e := edges[i];
      NextEdge(edges, i, ids, inDegree, adj);
      if e.isInternal {
        continue;
      }
      adj := adj[e.source := ListAt(adj, e.source) + [e.target]];
      inDegree := inDegree[e.target := CountAt(inDegree, e.target) + 1];
    }
    assert edges[..|edges|] == edges;
  }

  /** The targets of the scheduling edges out of every ID and the number of those into it. */
  ghost predicate MapsOf(edges: seq<Edge>, ids: set<string>, inDegree: map<string, int>,
                         adj: map<string, seq<string>>)
  {
    forall v :: ListedAt(edges, ids, adj, v) && CountedAt(edges, ids, inDegree, v)
  }

  ghost predicate ListedAt(edges: seq<Edge>, ids: set<string>, adj: map<string, seq<string>>, v: string) {
    ListAt(adj, v) == Targets(edges, v) && (v in adj <==> v in ids || Targets(edges, v) != [])
  }

  ghost predicate CountedAt(edges: seq<Edge>, ids: set<string>, inDegree: map<string, int>, v: string) {
    CountAt(inDegree, v) == Pending(edges, v, {}) && (v in inDegree <==> v in ids || Pending(edges, v, {}) > 0)
  }

  lemma EdgeAt(edges: seq<Edge>, i: nat, v: string)
    requires i < |edges|
    ensures Targets(edges[..i + 1], v) == Targets(edges[..i], v) +
            if !edges[i].isInternal && edges[i].source == v then [edges[i].target] else []
    ensures Pending(edges[..i + 1], v, {}) == Pending(edges[..i], v, {}) +
            if !edges[i].isInternal && edges[i].target == v then 1 else 0
  {
    assert edges[..i + 1][..i] == edges[..i];
  }

  lemma NextEdge(edges: seq<Edge>, i: nat, ids: set<string>, inDegree: map<string, int>, adj: map<string, seq<string>>)
    requires i < |edges| && MapsOf(edges[..i], ids, inDegree, adj)
    ensures var e := edges[i];
            if e.isInternal then MapsOf(edges[..i + 1], ids, inDegree, adj)
            else MapsOf(edges[..i + 1], ids, inDegree[e.target := CountAt(inDegree, e.target) + 1],
                        adj[e.source := ListAt(adj, e.source) + [e.target]])
  {
    var e := edges[i];
    var degrees := if e.isInternal then inDegree else inDegree[e.target := CountAt(inDegree, e.target) + 1];
    var lists := if e.isInternal then adj else adj[e.source := ListAt(adj, e.source) + [e.target]];
    var longer := edges[..i + 1];
    forall v ensures ListedAt(longer, ids, lists, v) && CountedAt(longer, ids, degrees, v) {
      EdgeAt(edges, i, v);
      assert ListedAt(edges[..i], ids, adj, v) && CountedAt(edges[..i], ids, inDegree, v);
    }
  }

  lemma KeyInside(wf: Workflow, inDegree: map<string, int>, adj: map<string, seq<string>>, v: string)
    requires wf.EdgesInside() && MapsOf(wf.edges, wf.Ids(), inDegree, adj) && (v in adj || v in inDegree)
    ensures v in wf.Ids() && v in adj && v in inDegree
    ensures adj[v] == Targets(wf.edges, v) && inDegree[v] == Pending(wf.edges, v, {})
  {
    assert ListedAt(wf.edges, wf.Ids(), adj, v) && CountedAt(wf.edges, wf.Ids(), inDegree, v);
    if Targets(wf.edges, v) != [] {
      TargetsAreSuccessors(wf.edges, v, Targets(wf.edges, v)[0]);
    }
    PendingZero(wf.edges, v, {});
  }

  /** Edges that join nodes of the workflow add no keys. */
  lemma MapsInside(wf: Workflow, inDegree: map<string, int>, adj: map<string, seq<string>>)
    requires wf.EdgesInside() && MapsOf(wf.edges, wf.Ids(), inDegree, adj)
    ensures adj.Keys == inDegree.Keys == wf.Ids()
    ensures forall v :: v in adj ==> adj[v] == Targets(wf.edges, v)
    ensures forall v :: v in inDegree ==> inDegree[v] == Pending(wf.edges, v, {})
  {
    forall v | v in adj || v in inDegree
      ensures v in wf.Ids() && v in adj && v in inDegree
      ensures adj[v] == Targets(wf.edges, v) && inDegree[v] == Pending(wf.edges, v, {})
    {
      KeyInside(wf, inDegree, adj, v);
    }
    forall v | v in wf.Ids() ensures v in adj && v in inDegree {
      assert ListedAt(wf.edges, wf.Ids(), adj, v) && CountedAt(wf.edges, wf.Ids(), inDegree, v);
    }
  }

  class DAGGraph {
    const workflow: Workflow
    var adj: map<string, seq<string>>
    var inDegree: map<string, int>
    var nodeMap: map<string, Node>
    var rootNodes: seq<Node>

    /** The maps say what the workflow's nodes and scheduling edges say. */
    ghost predicate Mapped()
      reads this
    {
      && workflow.EdgesInside()
      && adj.Keys == workflow.Ids() && inDegree.Keys == adj.Keys && nodeMap.Keys == adj.Keys
      && Adjacent(workflow, adj) && NodesById(workflow, nodeMap)
      && (forall v :: v in inDegree ==> inDegree[v] == Pending(workflow.edges, v, {}))
    }

    ghost predicate Built()
      reads this
    {
      DistinctIds(workflow.nodes) && Mapped()
    }

    ghost predicate Rooted()
      reads this
    {
      Built() && LaunchList(workflow, workflow.Ready({}), rootNodes)
    }

    /** What NewDAGGraph hands out. */
    ghost predicate Valid()
      reads this
    {
      Rooted() && workflow.Acyclic()
    }

    constructor (wf: Workflow)
      requires wf.WellFormed()
      ensures Built() && workflow == wf && rootNodes == []
    {
      workflow, rootNodes := wf, [];
      var nodeMap, zero, none := NodeMaps(wf.nodes);
      var inDegree, adj := EdgeMaps(wf.edges, wf.Ids(), zero, none);
      MapsInside(wf, inDegree, adj);
      this.nodeMap, this.inDegree, this.adj := nodeMap, inDegree, adj;
    }

    /** Three-colour search from every still white node. */
    method DetectCycle() returns (hasCycle: bool, path: seq<string>)
      requires Mapped()
      ensures hasCycle <==> !workflow.Acyclic()
      ensures hasCycle ==> IsReport(workflow, path)
    {
      var nodes := workflow.nodes;
      var search := new CycleDetector(workflow, adj);
      for i := 0 to |nodes|
        invariant search.Valid() && search.wf == workflow && search.path == []
        invariant search.adj == adj
        invariant AllIn(IdsOf(nodes), i, Blacks(search.color))
      {
        ghost var before := Blacks(search.color);
        EarlierLeadNowhere(workflow, search.color, search.finished, i);
        var found := search.Visit(nodes[i].id);
        if found {
          return true, search.path;
        }
        AllInNext(IdsOf(nodes), i, before, Blacks(search.color));
      }
      AllFinished(workflow, search.color, search.finished);
      return false, [];
    }

    method BuildRootNodes()
      requires Built() && rootNodes == []
      modifies this`rootNodes
      ensures Rooted()
    {
      var nodes := workflow.nodes;
      for i := 0 to |nodes|
        invariant Picked(nodes, i, workflow.Ready({}), rootNodes)
      {
        PickNext(nodes, i, workflow.Ready({}), rootNodes);
        PendingZero(workflow.edges, nodes[i].id, {});
        if inDegree[nodes[i].id] == 0 {
          rootNodes := rootNodes + [nodes[i]];
        }
      }
      rootNodes := SortByOrderNo(rootNodes);
      assert nodes[..|nodes|] == nodes;
    }

    function GetRootNodes(): seq<Node>
      reads this
    {
      rootNodes
    }

    /** The sources of the scheduling edges into a node. */
    method GetDepNodes(nodeId: string) returns (deps: seq<string>)
      ensures deps == Sources(workflow.edges, nodeId)
      ensures forall u :: u in deps <==> workflow.HasEdge(u, nodeId)
    {
      deps := [];
      var edges := workflow.edges;
      for i := 0 to |edges|
        invariant deps == Sources(edges[..i], nodeId)
      {
        assert edges[..i + 1][..i] == edges[..i];
        if edges[i].target == nodeId && !edges[i].isInternal {
          deps := deps + [edges[i].source];
        }
      }
      assert edges[..|edges|] == edges;
      forall u ensures u in deps <==> workflow.HasEdge(u, nodeId) {
        SourcesArePredecessors(edges, u, nodeId);
      }
    }

    /** What the snapshot at a pause records for a node: how many of its dependencies are still open,
        parallel edges counted each. It is 0 exactly when the node could be run. */
    method RemainingDeps(nodeId: string, completed: set<string>) returns (remaining: nat)
      ensures remaining == |EdgesInto(workflow.edges, nodeId, completed)|
      ensures remaining == 0 <==> workflow.DepsIn(completed, nodeId)
    {
      var deps := GetDepNodes(nodeId);
      remaining := 0;
      for j := 0 to |deps|
        invariant remaining == NotDone(deps[..j], completed)
      {
        assert deps[..j + 1][..j] == deps[..j];
        if deps[j] !in completed {
          remaining := remaining + 1;
        }
      }
      assert deps[..|deps|] == deps;
      SourcesPending(workflow.edges, nodeId, completed);
      PendingCounts(workflow.edges, nodeId, completed);
      PendingZero(workflow.edges, nodeId, completed);
    }

    /** GetReadyNodes's inner loop over the predecessors of one node. */
    method DepsDone(nodeId: string, completed: set<string>) returns (allDone: bool)
      ensures allDone <==> workflow.DepsIn(completed, nodeId)
    {
      var deps := GetDepNodes(nodeId);
      allDone := true;
      for j := 0 to |deps|
        invariant allDone <==> forall k :: 0 <= k < j ==> deps[k] in completed
      {
        if deps[j] !in completed {
          allDone := false;
          break;
        }
      }
    }

    /** Exactly the nodes that are not completed while all their predecessors are. */
    method GetReadyNodes(completed: set<string>) returns (ready: seq<Node>)
      requires Valid()
      ensures LaunchList(workflow, workflow.Ready(completed), ready)
    {
      var nodes := workflow.nodes;
      ready := [];
      for i := 0 to |nodes|
        invariant Picked(nodes, i, workflow.Ready(completed), ready)
      {
        PickNext(nodes, i, workflow.Ready(completed), ready);
        if nodes[i].id in completed {
          continue;
        }
        var allDone := DepsDone(nodes[i].id, completed);
        if allDone {
          ready := ready + [nodes[i]];
        }
      }
      ready := SortByOrderNo(ready);
      assert nodes[..|nodes|] == nodes;
    }

    /** Kahn's algorithm. It succeeds exactly on acyclic workflows, so on a graph that
        NewDAGGraph returned the error branch is unreachable. */
    method TopologicalSort() returns (r: Option<seq<Node>>)
      requires Rooted()
      ensures r.Some? <==> workflow.Acyclic()
      ensures r.Some? ==> workflow.IsTopologicalOrder(IdsOf(r.value))
      ensures r.Some? ==> |r.value| == |workflow.nodes| && forall n :: n in r.value ==> n in workflow.nodes
    {
      StartCounting(workflow, inDegree, rootNodes);
      var result, deg, listed := DrainQueue(workflow, adj, nodeMap, inDegree, IdsOf(rootNodes));
      CountingDone(workflow, deg, listed);
      if |result| != |workflow.nodes| {
        return None;
      }
      assert IdsOf(result) == listed;
      return Some(result);
    }
  }

  /** Rejects a workflow exactly when its scheduling edges contain a cycle. */
  method NewDAGGraph(wf: Workflow) returns (g: DAGGraph?, cyclePath: seq<string>)
    requires wf.WellFormed()
    ensures g == null <==> !wf.Acyclic()
    ensures g == null ==> IsReport(wf, cyclePath)
    ensures g != null ==> fresh(g) && g.workflow == wf && g.Valid()
  {
    var graph := new DAGGraph(wf);
    var hasCycle, path := graph.DetectCycle();
    if hasCycle {
      return null, path;
    }
    graph.BuildRootNodes();
    return graph, [];
  }
}
