/** Cycle detection by three-colour depth-first search, and what its report says. */
module CycleSearch {
  import opened Sequences
  import opened Workflows

  /** The targets of the scheduling edges leaving u, in edge order, parallel edges repeated. */
  function Targets(edges: seq<Edge>, u: string): seq<string> {
    if edges == [] then [] else
      var k := |edges| - 1;
      Targets(edges[..k], u) +
      if !edges[k].isInternal && edges[k].source == u then [edges[k].target] else []
  }

  lemma {:induction false} TargetsAreSuccessors(edges: seq<Edge>, u: string, v: string)
    ensures v in Targets(edges, u) <==> EdgeIn(edges, u, v)
  {
    if edges != [] {
      var k := |edges| - 1;
      assert edges == edges[..k] + [edges[k]];
      TargetsAreSuccessors(edges[..k], u, v);
    }
  }

  // ---------- three-colour depth-first search ----------

  datatype Color = White | Gray | Black

  /** Every edge leaving a finished node ends at a node that finished before it. */
  ghost predicate FinishOrder(wf: Workflow, finished: seq<string>) {
    && Distinct(finished)
    && forall u, v {:trigger wf.HasEdge(u, v)} :: u in finished && wf.HasEdge(u, v) ==>
         v in finished && IndexOf(finished, v) < IndexOf(finished, u)
  }

  ghost function Whites(color: map<string, Color>): set<string> {
    set v | v in color && color[v] == White
  }

  ghost function Blacks(color: map<string, Color>): set<string> {
    set v | v in color && color[v] == Black
  }

  /** The grey nodes form a walk, and the black ones a finishing order. */
  ghost predicate Searching(wf: Workflow, color: map<string, Color>, path: seq<string>, finished: seq<string>) {
    && (forall v :: v in path <==> v in color && color[v] == Gray)
    && (forall v :: v in finished <==> v in color && color[v] == Black)
    && wf.IsWalk(path) && Distinct(path) && Greedy(wf, path)
    && FinishOrder(wf, finished)
  }

  lemma EnterKeeps(wf: Workflow, color: map<string, Color>, path: seq<string>, finished: seq<string>, id: string)
    requires Searching(wf, color, path, finished) && id in color && color[id] == White
    requires path != [] ==> wf.HasEdge(path[|path| - 1], id) && Follows(wf, path[|path| - 1], id)
    ensures Searching(wf, color[id := Gray], path + [id], finished)
  {
    assert id !in path && id !in finished;
  }

  lemma LeaveKeeps(wf: Workflow, color: map<string, Color>, outer: seq<string>, finished: seq<string>, id: string,
                   targets: seq<string>)
    requires Searching(wf, color, outer + [id], finished)
    requires AllIn(targets, |targets|, Blacks(color))
    requires targets == Targets(wf.edges, id)
    ensures id in color && color[id] == Gray
    ensures Searching(wf, color[id := Black], outer, finished + [id])
    ensures Blacks(color[id := Black]) == Blacks(color) + {id}
    ensures Whites(color[id := Black]) == Whites(color)
    ensures (outer + [id])[..|outer|] == outer
  {
    StepBack(wf, outer, id);
    assert id in outer + [id];
    forall v | wf.HasEdge(id, v) ensures v in finished {
      TargetsAreSuccessors(wf.edges, id, v);
    }
    FinishNode(wf, finished, id);
  }

  lemma StepBack(wf: Workflow, outer: seq<string>, id: string)
    requires var path := outer + [id]; Distinct(path) && wf.IsWalk(path) && Greedy(wf, path)
    ensures Distinct(outer) && wf.IsWalk(outer) && Greedy(wf, outer) && id !in outer
    ensures forall v :: v in outer + [id] <==> v in outer || v == id
    ensures (outer + [id])[..|outer|] == outer
  {
    var path := outer + [id];
    assert path[|outer|] == id;
    forall i | 0 <= i < |outer| ensures path[i] == outer[i] && outer[i] != id { }
  }

  lemma FinishNode(wf: Workflow, finished: seq<string>, id: string)
    requires FinishOrder(wf, finished) && id !in finished
    requires forall v :: wf.HasEdge(id, v) ==> v in finished
    ensures FinishOrder(wf, finished + [id])
  {
    var f := finished + [id];
    forall v | v in finished ensures IndexOf(f, v) == IndexOf(finished, v) {
      IndexOfDistinct(f, IndexOf(finished, v));
    }
    IndexOfDistinct(f, |finished|);
  }

  /** A reported path: a walk along scheduling edges that ends at a node already on it. */
  ghost predicate ClosesCycle(wf: Workflow, p: seq<string>) {
    |p| >= 2 && wf.IsWalk(p) && p[|p| - 1] in p[..|p| - 1]
  }

  /** An edge from the innermost grey node back to a grey node closes a cycle. */
  lemma GreyTargetCloses(wf: Workflow, path: seq<string>, target: string)
    requires wf.IsWalk(path) && Distinct(path) && Greedy(wf, path) && target in path
    requires wf.HasEdge(path[|path| - 1], target) && Follows(wf, path[|path| - 1], target)
    ensures Closes(wf, path + [target])
  {
    assert (path + [target])[..|path|] == path;
  }

  lemma ClosingPathHasCycle(wf: Workflow, p: seq<string>)
    requires ClosesCycle(wf, p)
    ensures !wf.Acyclic()
  {
    var i :| 0 <= i < |p| - 1 && p[i] == p[|p| - 1];
    assert wf.IsCycle(p[i..]);
  }

  /** Following edges from v one runs into a cycle. */
  ghost predicate LeadsToCycle(wf: Workflow, v: string) {
    exists p :: ClosesCycle(wf, p) && p[0] == v
  }

  /** The reported path starts at the first node, in the workflow's order, that leads to a cycle. */
  ghost predicate StartsFirst(wf: Workflow, p: seq<string>) {
    p != [] && exists i :: 0 <= i < |wf.nodes| && wf.nodes[i].id == p[0] &&
                           forall j :: 0 <= j < i ==> !LeadsToCycle(wf, wf.nodes[j].id)
  }

  /** v is a target of u, and no target before it leads to a cycle. */
  ghost predicate Follows(wf: Workflow, u: string, v: string) {
    exists j :: TargetAt(wf, u, j, v)
  }

  ghost predicate TargetAt(wf: Workflow, u: string, j: int, v: string) {
    var targets := Targets(wf.edges, u);
    0 <= j < |targets| && targets[j] == v && forall i :: 0 <= i < j ==> !LeadsToCycle(wf, targets[i])
  }

  /** From every node the walk passes over only targets, in edge order, that lead to no cycle. */
  ghost predicate Greedy(wf: Workflow, p: seq<string>) {
    forall i, j {:trigger Follows(wf, p[i], p[j])} :: 0 <= i && i + 1 == j < |p| ==> Follows(wf, p[i], p[j])
  }

  /** A greedy walk that stops as soon as it comes to a node for the second time. */
  ghost predicate Closes(wf: Workflow, p: seq<string>) {
    ClosesCycle(wf, p) && Greedy(wf, p) && Distinct(p[..|p| - 1])
  }

  /** What the search reports: it closes, from the first listed node that leads to a cycle. */
  ghost predicate IsReport(wf: Workflow, p: seq<string>) {
    Closes(wf, p) && StartsFirst(wf, p)
  }

  /** A walk from a finished node stays among the finished nodes, going back in finishing order. */
  lemma {:induction false} FinishedWalk(wf: Workflow, finished: seq<string>, p: seq<string>, n: nat)
    requires FinishOrder(wf, finished) && wf.IsWalk(p) && n < |p| && p[0] in finished
    ensures forall i :: 0 <= i <= n ==> p[i] in finished
    ensures forall i :: 0 <= i < n ==> IndexOf(finished, p[n]) < IndexOf(finished, p[i])
  {
    if n > 0 {
      FinishedWalk(wf, finished, p, n - 1);
      assert wf.HasEdge(p[n - 1], p[n]);
    }
  }

  lemma FinishedLeadsNowhere(wf: Workflow, finished: seq<string>, v: string)
    requires FinishOrder(wf, finished) && v in finished
    ensures !LeadsToCycle(wf, v)
  {
    forall p | |p| >= 2 && wf.IsWalk(p) && p[0] == v ensures !ClosesCycle(wf, p) {
      FinishedWalk(wf, finished, p, |p| - 1);
    }
  }

  lemma FinishedAllIsAcyclic(wf: Workflow, finished: seq<string>)
    requires wf.EdgesInside() && FinishOrder(wf, finished) && Elems(finished) == wf.Ids()
    ensures wf.Acyclic()
  {
    var rank := map v | v in finished :: -(IndexOf(finished, v) as int);
    forall u, v | wf.HasEdge(u, v) ensures u in rank && v in rank && rank[u] < rank[v] {
      assert u in wf.Ids() && u in Elems(finished);
    }
    RankedIsAcyclic(wf, rank);
  }

  /** The adjacency lists hold every scheduling edge, under a key for either end. */
  ghost predicate Adjacent(wf: Workflow, adj: map<string, seq<string>>) {
    && (forall u, v {:trigger wf.HasEdge(u, v)} :: wf.HasEdge(u, v) ==> u in adj && v in adj)
    && forall u :: u in adj ==> adj[u] == Targets(wf.edges, u)
  }

  /** The first i of some ids lie in a set. */
  ghost predicate AllIn(ids: seq<string>, i: nat, members: set<string>)
    requires i <= |ids|
  {
    forall j :: 0 <= j < i ==> ids[j] in members
  }

  lemma AllInNext(ids: seq<string>, i: nat, before: set<string>, after: set<string>)
    requires i < |ids| && AllIn(ids, i, before) && before <= after && ids[i] in after
    ensures AllIn(ids, i + 1, after)
  {
  }

  /** Once the targets before it are black, a target is the next to follow. */
  lemma NextFollows(wf: Workflow, color: map<string, Color>, path: seq<string>, finished: seq<string>, id: string,
                    j: nat)
    requires Searching(wf, color, path, finished)
    requires j < |Targets(wf.edges, id)| && AllIn(Targets(wf.edges, id), j, Blacks(color))
    ensures Follows(wf, id, Targets(wf.edges, id)[j])
  {
    var targets := Targets(wf.edges, id);
    forall i | 0 <= i < j ensures !LeadsToCycle(wf, targets[i]) {
      assert targets[i] in Blacks(color);
      FinishedLeadsNowhere(wf, finished, targets[i]);
    }
    assert TargetAt(wf, id, j, targets[j]);
  }

  /** The state of one search: the colours, the grey path from the start node, and (for the
      proof) the black nodes in the order they turned black. */
  class CycleDetector {
    const wf: Workflow
    const adj: map<string, seq<string>>
    var color: map<string, Color>
    var path: seq<string>
    ghost var finished: seq<string>

    constructor (wf: Workflow, adj: map<string, seq<string>>)
      requires Adjacent(wf, adj)
      ensures this.wf == wf && this.adj == adj && Valid() && path == [] && finished == []
    {
      this.wf, this.adj := wf, adj;
      color := map v | v in adj :: White;
      path, finished := [], [];
    }

    ghost predicate Valid()
      reads this
    {
      Adjacent(wf, adj) && adj.Keys == color.Keys && Searching(wf, color, path, finished)
    }

    method Dfs(id: string) returns (found: bool)
      requires Valid() && id in color && color[id] == White
      requires path != [] ==> wf.HasEdge(path[|path| - 1], id) && Follows(wf, path[|path| - 1], id)
      modifies this
      ensures found ==> Closes(wf, path) && path[0] == (if old(path) == [] then id else old(path)[0])
      ensures !found ==> Valid() && path == old(path) && id in Blacks(color)
      ensures !found ==> Blacks(old(color)) <= Blacks(color)
      ensures !found ==> Whites(color) <= Whites(old(color))
      decreases Whites(color), 1
    {
      var outer, targets := path, adj[id];
      Enter(id);
      for j := 0 to |targets|
        invariant Valid() && path == outer + [id]
        invariant Blacks(old(color)) <= Blacks(color)
        invariant Whites(color) < Whites(old(color))
        invariant AllIn(targets, j, Blacks(color))
      {
        TargetsAreSuccessors(wf.edges, id, targets[j]);
        NextFollows(wf, color, path, finished, id, j);
        ghost var before := Blacks(color);
        found := Follow(targets[j]);
        if found {
          return true;
        }
        AllInNext(targets, j, before, Blacks(color));
      }
      Leave(id, outer);
      return false;
    }

    /** Starts from a node unless an earlier start has been there: the body of detectCycle's loop. */
    method Visit(id: string) returns (found: bool)
      requires Valid() && path == [] && id in color
      modifies this
      ensures found ==> Closes(wf, path) && path[0] == id && !wf.Acyclic()
      ensures !found ==> Valid() && path == [] && id in Blacks(color) && Blacks(old(color)) <= Blacks(color)
    {
      if color[id] == White {
        found := Dfs(id);
        if found {
          ClosingPathHasCycle(wf, path);
        }
        return;
      }
      return false;
    }

    /** Follows one edge from the innermost grey node: the body of Dfs's loop. */
    method Follow(target: string) returns (found: bool)
      requires Valid() && path != [] && wf.HasEdge(path[|path| - 1], target)
      requires Follows(wf, path[|path| - 1], target)
      modifies this
      ensures found ==> Closes(wf, path) && path[0] == old(path)[0]
      ensures !found ==> Valid() && path == old(path) && target in Blacks(color)
      ensures !found ==> Blacks(old(color)) <= Blacks(color)
      ensures !found ==> Whites(color) <= Whites(old(color))
      decreases Whites(color), 2
    {
      if color[target] == Gray {
        GreyTargetCloses(wf, path, target);
        path := path + [target];
        return true;
      }
      if color[target] == White {
        found := Dfs(target);
        return;
      }
      return false;
    }

    /** Turns a white node grey and puts it on the path. */
    method Enter(id: string)
      requires Valid() && id in color && color[id] == White
      requires path != [] ==> wf.HasEdge(path[|path| - 1], id) && Follows(wf, path[|path| - 1], id)
      modifies this`color, this`path
      ensures Valid() && path == old(path) + [id]
      ensures Whites(color) == Whites(old(color)) - {id}
    {
      EnterKeeps(wf, color, path, finished, id);
      color := color[id := Gray];
      path := path + [id];
    }

    /** Turns the innermost grey node black and takes it off the path. */
    method Leave(id: string, outer: seq<string>)
      requires Valid() && path == outer + [id] && id in adj
      requires AllIn(adj[id], |adj[id]|, Blacks(color))
      modifies this
      ensures Valid() && path == outer && Blacks(color) == Blacks(old(color)) + {id}
      ensures Whites(color) == Whites(old(color))
    {
      LeaveKeeps(wf, color, outer, finished, id, adj[id]);
      color, finished, path := color[id := Black], finished + [id], path[..|path| - 1];
    }
  }

  lemma EarlierLeadNowhere(wf: Workflow, color: map<string, Color>, finished: seq<string>, i: nat)
    requires Searching(wf, color, [], finished) && i <= |wf.nodes| && AllIn(IdsOf(wf.nodes), i, Blacks(color))
    ensures forall j :: 0 <= j < i ==> !LeadsToCycle(wf, wf.nodes[j].id)
  {
    forall j | 0 <= j < i ensures !LeadsToCycle(wf, wf.nodes[j].id) {
      assert IdsOf(wf.nodes)[j] in Blacks(color);
      FinishedLeadsNowhere(wf, finished, wf.nodes[j].id);
    }
  }

  lemma AllFinished(wf: Workflow, color: map<string, Color>, finished: seq<string>)
    requires wf.EdgesInside() && color.Keys == wf.Ids() && Searching(wf, color, [], finished)
    requires AllIn(IdsOf(wf.nodes), |wf.nodes|, Blacks(color))
    ensures wf.Acyclic()
  {
    assert forall j :: 0 <= j < |wf.nodes| ==> wf.nodes[j].id == IdsOf(wf.nodes)[j];
    assert Elems(finished) == wf.Ids();
    FinishedAllIsAcyclic(wf, finished);
  }

  // ---------- reports ----------

  /** Every node of a walk that runs into a cycle leads to one. */
  lemma ClosingLeads(wf: Workflow, p: seq<string>, k: nat)
    requires ClosesCycle(wf, p) && k < |p|
    ensures LeadsToCycle(wf, p[k])
  {
    var n := |p| - 1;
    var i :| 0 <= i < n && p[i] == p[n];
    var q := p[k..] + p[i + 1..];
    forall a, b | 0 <= a && a + 1 == b < |q| ensures wf.HasEdge(q[a], q[b]) {
      if b < n + 1 - k {
        assert q[a] == p[k + a] && q[b] == p[k + b];
      } else if b == n + 1 - k {
        assert q[a] == p[n] == p[i] && q[b] == p[i + 1];
      } else {
        var c := a - (n + 1 - k) + i + 1;
        assert q[a] == p[c] && q[b] == p[c + 1];
      }
    }
    assert q[n - k] == p[n] && q[|q| - 1] == p[n] && q[..|q| - 1][n - k] == p[n];
    assert ClosesCycle(wf, q) && q[0] == p[k];
  }

  lemma CycleLeads(wf: Workflow, c: seq<string>, k: nat)
    requires wf.IsCycle(c) && k < |c|
    ensures LeadsToCycle(wf, c[k])
  {
    assert c[..|c| - 1][0] == c[|c| - 1];
    ClosingLeads(wf, c, k);
  }

  /** There is only one way to follow a node towards a cycle. */
  lemma FollowsOnce(wf: Workflow, u: string, v: string, w: string)
    requires Follows(wf, u, v) && Follows(wf, u, w) && LeadsToCycle(wf, v) && LeadsToCycle(wf, w)
    ensures v == w
  {
    var i :| TargetAt(wf, u, i, v);
    var j :| TargetAt(wf, u, j, w);
  }

  ghost predicate AllLead(wf: Workflow, p: seq<string>) {
    forall k :: 0 <= k < |p| ==> LeadsToCycle(wf, p[k])
  }

  lemma {:induction false} Agree(wf: Workflow, p: seq<string>, q: seq<string>, k: nat)
    requires Greedy(wf, p) && Greedy(wf, q) && AllLead(wf, p) && AllLead(wf, q)
    requires k < |p| && k < |q| && p[0] == q[0]
    ensures p[k] == q[k]
  {
    if k > 0 {
      Agree(wf, p, q, k - 1);
      assert Follows(wf, p[k - 1], p[k]) && Follows(wf, q[k - 1], q[k]);
      FollowsOnce(wf, p[k - 1], p[k], q[k]);
    }
  }

  lemma NotLonger(wf: Workflow, p: seq<string>, q: seq<string>)
    requires Closes(wf, p) && Closes(wf, q) && p[0] == q[0]
    ensures |q| <= |p|
  {
    if |q| > |p| {
      var n := |p| - 1;
      var i :| 0 <= i < n && p[i] == p[n];
      NoRepeat(q, i, n);
      ClosingAgree(wf, p, q, i);
      ClosingAgree(wf, p, q, n);
    }
  }

  lemma NoRepeat(p: seq<string>, i: nat, j: nat)
    requires i < j < |p| - 1 && Distinct(p[..|p| - 1])
    ensures p[i] != p[j]
  {
    assert p[..|p| - 1][i] == p[i] && p[..|p| - 1][j] == p[j];
  }

  lemma ClosingAgree(wf: Workflow, p: seq<string>, q: seq<string>, k: nat)
    requires Closes(wf, p) && Closes(wf, q) && p[0] == q[0] && k < |p| && k < |q|
    ensures p[k] == q[k]
  {
    forall i | 0 <= i < |p| ensures LeadsToCycle(wf, p[i]) { ClosingLeads(wf, p, i); }
    forall i | 0 <= i < |q| ensures LeadsToCycle(wf, q[i]) { ClosingLeads(wf, q, i); }
    Agree(wf, p, q, k);
  }

  /** The workflow alone determines the report: whatever search is used, there is only one. */
  lemma ReportUnique(wf: Workflow, p: seq<string>, q: seq<string>)
    requires IsReport(wf, p) && IsReport(wf, q)
    ensures p == q
  {
    SameStart(wf, p, q);
    NotLonger(wf, p, q);
    NotLonger(wf, q, p);
    forall k | 0 <= k < |p| ensures p[k] == q[k] {
      ClosingAgree(wf, p, q, k);
    }
  }

  lemma SameStart(wf: Workflow, p: seq<string>, q: seq<string>)
    requires ClosesCycle(wf, p) && StartsFirst(wf, p) && ClosesCycle(wf, q) && StartsFirst(wf, q)
    ensures p[0] == q[0]
  {
    ClosingLeads(wf, p, 0);
    ClosingLeads(wf, q, 0);
    var i :| 0 <= i < |wf.nodes| && wf.nodes[i].id == p[0] &&
             forall j :: 0 <= j < i ==> !LeadsToCycle(wf, wf.nodes[j].id);
    var k :| 0 <= k < |wf.nodes| && wf.nodes[k].id == q[0] &&
             forall j :: 0 <= j < k ==> !LeadsToCycle(wf, wf.nodes[j].id);
    assert !(i < k) && !(k < i);
  }

  /** A greedy walk that has come to the repeated node of a report goes round in the report's cycle. */
  lemma {:induction false} GoesRound(wf: Workflow, p: seq<string>, c: seq<string>, i: nat, k: nat) returns (t: nat)
    requires Closes(wf, p) && i < |p| - 1 && p[i] == p[|p| - 1]
    requires Greedy(wf, c) && AllLead(wf, c) && c != [] && c[0] == p[0] && i <= k < |c|
    ensures i <= t < |p| - 1 && c[k] == p[t]
  {
    forall j | 0 <= j < |p| ensures LeadsToCycle(wf, p[j]) { ClosingLeads(wf, p, j); }
    if k == i {
      Agree(wf, p, c, i);
      t := i;
    } else {
      t := GoesRound(wf, p, c, i, k - 1);
      assert Follows(wf, c[k - 1], c[k]) && Follows(wf, p[t], p[t + 1]);
      FollowsOnce(wf, p[t], c[k], p[t + 1]);
      t := if t + 1 == |p| - 1 then i else t + 1;
    }
  }

  /** The report is a cycle from its first node, as documented, if and only if following first targets
      that lead to a cycle comes back to that node. */
  lemma ReportTheorem(wf: Workflow, p: seq<string>)
    requires IsReport(wf, p)
    ensures p[0] == p[|p| - 1] <==> exists c :: wf.IsCycle(c) && Greedy(wf, c) && c[0] == p[0]
  {
    if p[0] == p[|p| - 1] {
      assert wf.IsCycle(p);
    }
    if c :| wf.IsCycle(c) && Greedy(wf, c) && c[0] == p[0] {
      var n := |p| - 1;
      var i :| 0 <= i < n && p[i] == p[n];
      forall k | 0 <= k < |c| ensures LeadsToCycle(wf, c[k]) { CycleLeads(wf, c, k); }
      forall k | 0 <= k < |p| ensures LeadsToCycle(wf, p[k]) { ClosingLeads(wf, p, k); }
      forall k | 0 < k < n ensures p[k] != p[0] { NoRepeat(p, 0, k); }
      var m := |c| - 1;
      if m < i {
        Agree(wf, p, c, m);
      } else {
        var t := GoesRound(wf, p, c, i, m);
      }
    }
  }

  /** The path reported for a cycle need not be one: with b looping to itself and a listed first, any
      report starts at a, which lies on no cycle, and so never comes back to its first node. */
  lemma LeadIn() returns (wf: Workflow)
    ensures wf.WellFormed() && !wf.Acyclic()
    ensures forall p :: ClosesCycle(wf, p) && StartsFirst(wf, p) ==> p[0] != p[|p| - 1]
  {
    wf := Workflow([Node("a", 0, false, true), Node("b", 1, false, true)],
                   [Edge("a", "b", false), Edge("b", "b", false)]);
    assert wf.nodes[0] in wf.nodes && wf.nodes[1] in wf.nodes;
    LeadInEdges(wf);
    LeadInPath(wf);
    forall p | ClosesCycle(wf, p) && StartsFirst(wf, p) ensures p[0] != p[|p| - 1] {
      LeadInReport(wf, p);
    }
  }

  lemma LeadInReport(wf: Workflow, p: seq<string>)
    requires wf.nodes != [] && wf.nodes[0].id == "a" && LeadsToCycle(wf, "a")
    requires forall u, v :: wf.HasEdge(u, v) ==> v == "b"
    requires ClosesCycle(wf, p) && StartsFirst(wf, p)
    ensures p[0] == "a" && p[|p| - 1] == "b"
  {
    assert wf.HasEdge(p[|p| - 2], p[|p| - 1]);
    assert LeadsToCycle(wf, wf.nodes[0].id);
  }

  lemma LeadInEdges(wf: Workflow)
    requires wf.edges == [Edge("a", "b", false), Edge("b", "b", false)]
    ensures forall u, v :: wf.HasEdge(u, v) <==> v == "b" && (u == "a" || u == "b")
  {
    assert wf.edges[0] in wf.edges && wf.edges[1] in wf.edges;
  }

  lemma LeadInPath(wf: Workflow)
    requires wf.HasEdge("a", "b") && wf.HasEdge("b", "b")
    ensures LeadsToCycle(wf, "a") && !wf.Acyclic()
  {
    assert wf.IsCycle(["b", "b"]);
    var p := ["a", "b", "b"];
    assert p[..2][1] == "b" && p[2] in p[..2];
    assert ClosesCycle(wf, p) && p[0] == "a";
  }
}
