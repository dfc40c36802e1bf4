/** Workflow definitions, and what their scheduling edges mean: walks, cycles, readiness and depth. */
module Workflows {
  import opened Sequences

  datatype Node = Node(id: string, orderNo: int, skipOnFailure: bool, hasExecutor: bool)

  // An internal edge (a loop's back edge) takes no part in scheduling.
  datatype Edge = Edge(source: string, target: string, isInternal: bool)

  ghost predicate EdgeIn(edges: seq<Edge>, u: string, v: string) {
    exists e :: e in edges && !e.isInternal && e.source == u && e.target == v
  }

  function IdsOf(nodes: seq<Node>): seq<string> {
    seq(|nodes|, i requires 0 <= i < |nodes| => nodes[i].id)
  }

  ghost predicate DistinctIds(nodes: seq<Node>) {
    Distinct(IdsOf(nodes))
  }

  lemma DistinctIdsMeans(nodes: seq<Node>)
    ensures DistinctIds(nodes) <==> forall i, j :: 0 <= i < j < |nodes| ==> nodes[i].id != nodes[j].id
  {
    if forall i, j :: 0 <= i < j < |nodes| ==> nodes[i].id != nodes[j].id {
    } else {
      var i, j :| 0 <= i < j < |nodes| && nodes[i].id == nodes[j].id;
      assert IdsOf(nodes)[i] == IdsOf(nodes)[j];
    }
  }

  datatype Workflow = Workflow(nodes: seq<Node>, edges: seq<Edge>) {
    ghost function Ids(): set<string> {
      set n | n in nodes :: n.id
    }

    predicate HasExecutor(v: string) {
      exists n :: n in nodes && n.id == v && n.hasExecutor
    }

    predicate SkipsOnFailure(v: string) {
      exists n :: n in nodes && n.id == v && n.skipOnFailure
    }

    ghost predicate EdgesInside() {
      forall e :: e in edges ==> e.source in Ids() && e.target in Ids()
    }

    ghost predicate WellFormed() {
      DistinctIds(nodes) && EdgesInside()
    }

    ghost predicate HasEdge(u: string, v: string) {
      EdgeIn(edges, u, v)
    }

    ghost predicate IsWalk(p: seq<string>) {
      forall i, j {:trigger HasEdge(p[i], p[j])} :: 0 <= i && i + 1 == j < |p| ==> HasEdge(p[i], p[j])
    }

    ghost predicate IsCycle(p: seq<string>) {
      |p| >= 2 && IsWalk(p) && p[0] == p[|p| - 1]
    }

    ghost predicate Acyclic() {
      forall p :: !IsCycle(p)
    }

    /** A repetition-free listing of all nodes in which every edge points forward. */
    ghost predicate IsTopologicalOrder(order: seq<string>) {
      && Distinct(order) && Elems(order) == Ids()
      && forall u, v {:trigger HasEdge(u, v)} :: HasEdge(u, v) ==>
           u in order && v in order && IndexOf(order, u) < IndexOf(order, v)
    }

    ghost predicate DepsIn(done: set<string>, v: string) {
      forall u :: HasEdge(u, v) ==> u in done
    }

    ghost predicate PredClosed(done: set<string>) {
      forall v :: v in done ==> DepsIn(done, v)
    }

    /** Not yet done, with every predecessor done. */
    ghost function Ready(done: set<string>): set<string> {
      set v | v in Ids() && v !in done && DepsIn(done, v)
    }

    /** No walk with more than k edges ends at v: the longest-path depth of v is at most k. */
    ghost predicate DepthAtMost(v: string, k: nat) {
      forall p :: |p| > 0 && IsWalk(p) && p[|p| - 1] == v ==> |p| <= k + 1
    }

    ghost function UpToDepth(k: nat): set<string> {
      set v | v in Ids() && DepthAtMost(v, k)
    }

    ghost predicate Reaches(u: string, v: string) {
      exists p :: |p| >= 2 && IsWalk(p) && p[0] == u && p[|p| - 1] == v
    }
  }

  lemma {:induction false} IdsSize(wf: Workflow)
    requires wf.WellFormed()
    ensures |wf.Ids()| == |wf.nodes|
  {
    var ids := IdsOf(wf.nodes);
    forall v | v in wf.Ids() ensures v in ids {
      var n :| n in wf.nodes && n.id == v;
      var i :| 0 <= i < |wf.nodes| && wf.nodes[i] == n;
      assert ids[i] == v;
    }
    assert Elems(ids) == wf.Ids();
    DistinctSize(ids);
  }

  lemma {:induction false} IdsAtMost(nodes: seq<Node>)
    ensures |set n | n in nodes :: n.id| <= |nodes|
  {
    if nodes == [] {
      assert (set n | n in nodes :: n.id) == {};
    } else {
      var k := |nodes| - 1;
      IdsAtMost(nodes[..k]);
      assert nodes == nodes[..k] + [nodes[k]];
      assert (set n | n in nodes :: n.id) == (set n | n in nodes[..k] :: n.id) + {nodes[k].id};
    }
  }

  /** A ranking that every edge increases rules out cycles. */
  lemma {:induction false} RankedIsAcyclic(wf: Workflow, rank: map<string, int>)
    requires forall u, v :: wf.HasEdge(u, v) ==> u in rank && v in rank && rank[u] < rank[v]
    ensures wf.Acyclic()
  {
    forall p ensures !wf.IsCycle(p) {
      if wf.IsCycle(p) {
        RankGrows(wf, rank, p);
      }
    }
  }

  lemma {:induction false} RankGrows(wf: Workflow, rank: map<string, int>, p: seq<string>)
    requires forall u, v :: wf.HasEdge(u, v) ==> u in rank && v in rank && rank[u] < rank[v]
    requires |p| >= 2 && wf.IsWalk(p)
    ensures p[0] in rank && p[|p| - 1] in rank && rank[p[0]] < rank[p[|p| - 1]]
  {
    var k := |p| - 1;
    assert wf.HasEdge(p[k - 1], p[k]);
    if k > 1 {
      RankGrows(wf, rank, p[..k]);
    }
  }

  lemma TopologicalOrderIsAcyclic(wf: Workflow, order: seq<string>)
    requires wf.IsTopologicalOrder(order)
    ensures wf.Acyclic()
  {
    RankedIsAcyclic(wf, map v | v in order :: IndexOf(order, v));
  }

  ghost predicate HasPredIn(wf: Workflow, s: set<string>, v: string) {
    exists u :: u in s && wf.HasEdge(u, v)
  }

  /** If every node of a non-empty finite set has a predecessor in the set, following
      predecessors long enough closes a cycle. */
  lemma {:induction false} NoSourceMeansCycle(wf: Workflow, s: set<string>)
    requires s != {}
    requires forall v {:trigger HasPredIn(wf, s, v)} :: v in s ==> HasPredIn(wf, s, v)
    ensures !wf.Acyclic()
  {
    var p := BackwardWalk(wf, s, |s| + 1);
    var i, j := Pigeonhole(p, s);
    assert wf.IsCycle(p[i..j + 1]);
  }

  lemma {:induction false} BackwardWalk(wf: Workflow, s: set<string>, n: nat) returns (p: seq<string>)
    requires s != {} && n >= 1
    requires forall v {:trigger HasPredIn(wf, s, v)} :: v in s ==> HasPredIn(wf, s, v)
    ensures |p| == n && wf.IsWalk(p) && Elems(p) <= s
  {
    if n == 1 {
      var v :| v in s;
      p := [v];
    } else {
      var q := BackwardWalk(wf, s, n - 1);
      assert q[0] in Elems(q) && HasPredIn(wf, s, q[0]);
      var u :| u in s && wf.HasEdge(u, q[0]);
      p := [u] + q;
    }
  }

  /** Progress: an acyclic workflow with unfinished nodes has a ready one. */
  lemma ReadyExists(wf: Workflow, done: set<string>)
    requires wf.EdgesInside() && wf.Acyclic()
    requires !(wf.Ids() <= done)
    ensures wf.Ready(done) != {}
  {
    var s := wf.Ids() - done;
    if forall v {:trigger HasPredIn(wf, s, v)} :: v in s ==> HasPredIn(wf, s, v) {
      var v :| v in wf.Ids() && v !in done;
      assert v in s;
      NoSourceMeansCycle(wf, s);
    } else {
      var v :| v in s && !HasPredIn(wf, s, v);
      forall u | wf.HasEdge(u, v) ensures u in done {
        assert u in wf.Ids();
      }
      assert v in wf.Ready(done);
    }
  }

  /** Depth 0 is having no incoming edge; depth k + 1 is having only predecessors of depth k.
      Hence the ready nodes over all nodes up to depth k are those of depth exactly k + 1. */
  lemma DepthStep(wf: Workflow, k: nat)
    requires wf.EdgesInside()
    ensures wf.UpToDepth(0) == wf.Ready({})
    ensures wf.UpToDepth(k + 1) == wf.UpToDepth(k) + wf.Ready(wf.UpToDepth(k))
    ensures wf.PredClosed(wf.UpToDepth(k))
  {
    forall v ensures wf.DepthAtMost(v, 0) <==> wf.DepsIn({}, v) {
      DepthZero(wf, v);
    }
    forall v ensures wf.DepthAtMost(v, k + 1) <==> wf.DepsIn(wf.UpToDepth(k), v) {
      DepthSucc(wf, v, k);
    }
    forall v | wf.DepthAtMost(v, k) ensures wf.DepsIn(wf.UpToDepth(k), v) {
      assert wf.DepthAtMost(v, k + 1);
    }
    assert forall v :: wf.DepthAtMost(v, k) ==> wf.DepthAtMost(v, k + 1);
  }

  lemma DepthZero(wf: Workflow, v: string)
    requires wf.EdgesInside()
    ensures wf.DepthAtMost(v, 0) <==> wf.DepsIn({}, v)
  {
    if wf.DepthAtMost(v, 0) {
      forall u | wf.HasEdge(u, v) ensures false {
        assert wf.IsWalk([u, v]);
      }
    } else {
      var p :| |p| > 0 && wf.IsWalk(p) && p[|p| - 1] == v && |p| > 1;
      assert wf.HasEdge(p[|p| - 2], v);
    }
  }

  lemma DepthSucc(wf: Workflow, v: string, k: nat)
    requires wf.EdgesInside()
    ensures wf.DepthAtMost(v, k + 1) <==> wf.DepsIn(wf.UpToDepth(k), v)
  {
    if wf.DepthAtMost(v, k + 1) {
      forall u | wf.HasEdge(u, v) ensures u in wf.UpToDepth(k) {
        forall p | |p| > 0 && wf.IsWalk(p) && p[|p| - 1] == u ensures |p| <= k + 1 {
          assert wf.IsWalk(p + [v]);
        }
        assert u in wf.Ids();
      }
    }
    if wf.DepsIn(wf.UpToDepth(k), v) {
      forall p | |p| > 0 && wf.IsWalk(p) && p[|p| - 1] == v ensures |p| <= k + 2 {
        if |p| > 1 {
          var q := p[..|p| - 1];
          assert wf.HasEdge(q[|q| - 1], v);
          assert wf.IsWalk(q);
        }
      }
    }
  }

  lemma RepeatIsCycle(wf: Workflow, p: seq<string>, i: nat, j: nat)
    requires wf.IsWalk(p) && i < j < |p| && p[i] == p[j]
    ensures wf.IsCycle(p[i..j + 1])
  {
  }

  /** In an acyclic workflow no walk repeats a node, so depths stay below the number of nodes. */
  lemma DepthBound(wf: Workflow)
    requires wf.EdgesInside() && wf.Acyclic()
    ensures wf.UpToDepth(|wf.nodes|) == wf.Ids()
  {
    IdsAtMost(wf.nodes);
    forall v, p | v in wf.Ids() && |p| > 0 && wf.IsWalk(p) && p[|p| - 1] == v
      ensures |p| <= |wf.nodes| + 1
    {
      if |p| > |wf.nodes| + 1 {
        forall i | 0 <= i < |p| ensures p[i] in wf.Ids() {
          if i < |p| - 1 { assert wf.HasEdge(p[i], p[i + 1]); }
        }
        var i, j := Pigeonhole(p, wf.Ids());
        RepeatIsCycle(wf, p, i, j);
      }
    }
    forall v | v in wf.Ids() ensures wf.DepthAtMost(v, |wf.nodes|) { }
  }

  /** Everything upstream of a node whose predecessors lie in a closed set lies in that set. */
  lemma {:induction false} AncestorsIn(wf: Workflow, done: set<string>, u: string, v: string)
    requires wf.PredClosed(done) && wf.DepsIn(done, v) && wf.Reaches(u, v)
    ensures u in done
  {
    var p :| |p| >= 2 && wf.IsWalk(p) && p[0] == u && p[|p| - 1] == v;
    WalkIn(wf, done, p);
  }

  lemma {:induction false} WalkIn(wf: Workflow, done: set<string>, p: seq<string>)
    requires |p| >= 2 && wf.IsWalk(p) && wf.PredClosed(done) && wf.DepsIn(done, p[|p| - 1])
    ensures p[0] in done
  {
    var q := p[..|p| - 1];
    assert wf.HasEdge(q[|q| - 1], p[|p| - 1]);
    if |q| >= 2 {
      WalkIn(wf, done, q);
    }
  }
}
