/**
 CPI depth: a backtracking depth-first search with a shared visiting set and a depth cap,
 proved to find the longest call walk that repeats no caller.
 */
module CpiDepth {
  datatype CpiCall = CpiCall(callee: string, isInternal: bool, resolved: bool)

  type Graph = map<string, seq<CpiCall>>

  /** The search gives up below this depth. */
  const DEPTH_CAP: nat := 10
  const CPI_LIMIT: nat := 4

  predicate IsFollowed(c: CpiCall) {
    c.isInternal && c.resolved
  }

  function CallsOf(g: Graph, node: string): seq<CpiCall> {
    if node in g then g[node] else []
  }

  function Max(a: nat, b: nat): nat {
    if a >= b then a else b
  }

  /** What the search returns at a node, at a depth, with these nodes being visited. */
  function Depth(g: Graph, node: string, depth: nat, visiting: set<string>): (r: nat)
    requires depth <= DEPTH_CAP + 1
    ensures r >= depth
    decreases DEPTH_CAP + 1 - depth, 1, 0
  {
    if depth > DEPTH_CAP || node in visiting then depth
    else DepthOver(g, CallsOf(g, node), depth, visiting + {node})
  }

  function DepthOver(g: Graph, calls: seq<CpiCall>, depth: nat, visiting: set<string>): (r: nat)
    requires depth <= DEPTH_CAP
    ensures r >= depth
    decreases DEPTH_CAP + 1 - depth, 0, |calls|
  {
    if calls == [] then depth
    else
      Max(if IsFollowed(calls[0]) then Depth(g, calls[0].callee, depth + 1, visiting) else depth,
          DepthOver(g, calls[1..], depth, visiting))
  }

  class Search {
    const graph: Graph
    var visiting: set<string>

    constructor (graph: Graph)
      ensures this.graph == graph && visiting == {}
    {
      this.graph := graph;
      visiting := {};
    }

    method ComputeMaxDepth(node: string, depth: nat) returns (max: nat)
      requires depth <= DEPTH_CAP + 1
      modifies this
      ensures visiting == old(visiting)
      ensures max == Depth(graph, node, depth, old(visiting))
      decreases DEPTH_CAP + 1 - depth
    {
      if depth > DEPTH_CAP {
        return depth;
      }
      if node in visiting {
        return depth;
      }
      visiting := visiting + {node};
      max := depth;
      var calls := CallsOf(graph, node);
      for i := 0 to |calls|
        invariant visiting == old(visiting) + {node}
        invariant max >= depth
        invariant Max(max, DepthOver(graph, calls[i..], depth, visiting)) == DepthOver(graph, calls, depth, visiting)
      {
        if IsFollowed(calls[i]) {
          var next := ComputeMaxDepth(calls[i].callee, depth + 1);
          if next > max {
            max := next;
          }
        }
      }
      visiting := visiting - {node};
    }
  }

  // ---- walks ------------------------------------------------------------------------------------

  /** The graph lists a resolved internal call from a to b. */
  ghost predicate CallsInto(g: Graph, a: string, b: string) {
    a in g && CpiCall(b, true, true) in g[a]
  }

  lemma FollowedCalls(g: Graph, a: string, c: CpiCall)
    ensures c in CallsOf(g, a) && IsFollowed(c) <==> CallsInto(g, a, c.callee) && c == CpiCall(c.callee, true, true)
  {
  }

  /** A walk of |w| - 1 calls whose callers are pairwise distinct and avoid the given nodes. */
  ghost predicate IsWalk(g: Graph, w: seq<string>, avoid: set<string>) {
    && |w| >= 1
    && (forall i :: 0 <= i < |w| - 1 ==> CallsInto(g, w[i], w[i + 1]))
    && (forall i :: 0 <= i < |w| - 1 ==> w[i] !in avoid)
    && (forall i, j :: 0 <= i < j < |w| - 1 ==> w[i] != w[j])
  }

  ghost predicate HasWalk(g: Graph, node: string, avoid: set<string>, calls: nat) {
    exists w :: IsWalk(g, w, avoid) && w[0] == node && |w| == calls + 1
  }

  lemma ExtendWalk(g: Graph, node: string, callee: string, avoid: set<string>, calls: nat)
    requires node !in avoid && CallsInto(g, node, callee) && HasWalk(g, callee, avoid + {node}, calls)
    ensures HasWalk(g, node, avoid, calls + 1)
  {
    var w :| IsWalk(g, w, avoid + {node}) && w[0] == callee && |w| == calls + 1;
    var v := [node] + w;
    assert forall i :: 0 < i < |v| ==> v[i] == w[i - 1];
    assert IsWalk(g, v, avoid);
  }

  lemma ShortenWalk(g: Graph, node: string, avoid: set<string>, calls: nat, fewer: nat)
    requires HasWalk(g, node, avoid, calls) && fewer <= calls
    ensures HasWalk(g, node, avoid, fewer)
  {
    var w :| IsWalk(g, w, avoid) && w[0] == node && |w| == calls + 1;
    assert IsWalk(g, w[..fewer + 1], avoid);
  }

  lemma TailOfWalk(g: Graph, node: string, avoid: set<string>, calls: nat) returns (c: CpiCall)
    requires HasWalk(g, node, avoid, calls + 1)
    ensures node !in avoid && c in CallsOf(g, node) && IsFollowed(c)
    ensures HasWalk(g, c.callee, avoid + {node}, calls)
  {
    var w :| IsWalk(g, w, avoid) && w[0] == node && |w| == calls + 2;
    assert CallsInto(g, w[0], w[1]);
    c := CpiCall(w[1], true, true);
    FollowedCalls(g, w[0], c);
    assert IsWalk(g, w[1..], avoid + {node}) by {
      assert forall i :: 0 <= i < |w| - 1 ==> w[1..][i] == w[i + 1];
    }
  }

  /** The result is the depth plus the length of the longest admissible walk under the cap. */
  lemma {:induction false} DepthIsLongestWalk(g: Graph, node: string, depth: nat, visiting: set<string>)
    requires depth <= 11
    ensures var d := Depth(g, node, depth, visiting);
      && depth <= d <= 11
      && HasWalk(g, node, visiting, d - depth)
      && forall k: nat :: HasWalk(g, node, visiting, k) && depth + k <= 11 ==> depth + k <= d
    decreases DEPTH_CAP + 1 - depth, 1, 0
  {
    assert HasWalk(g, node, visiting, 0) by {
      assert IsWalk(g, [node], visiting);
    }
    var d := Depth(g, node, depth, visiting);
    if depth <= DEPTH_CAP && node !in visiting {
      LongestOverCalls(g, node, CallsOf(g, node), depth, visiting);
    }
    forall k: nat | HasWalk(g, node, visiting, k) && depth + k <= DEPTH_CAP + 1
      ensures depth + k <= d
    {
      if k > 0 {
        var c := TailOfWalk(g, node, visiting, k - 1);
      }
    }
  }

  lemma {:induction false} LongestOverCalls(g: Graph, node: string, calls: seq<CpiCall>, depth: nat, visiting: set<string>)
    requires depth <= DEPTH_CAP && node !in visiting && forall c :: c in calls ==> c in CallsOf(g, node)
    ensures var d := DepthOver(g, calls, depth, visiting + {node});
      && depth <= d <= DEPTH_CAP + 1
      && HasWalk(g, node, visiting, d - depth)
      && forall c, k: nat ::
           (c in calls && IsFollowed(c) && HasWalk(g, c.callee, visiting + {node}, k) && depth + k <= DEPTH_CAP)
           ==> depth + 1 + k <= d
    decreases DEPTH_CAP + 1 - depth, 0, |calls|
  {
    if calls == [] {
      assert IsWalk(g, [node], visiting);
    } else {
      LongestOverCalls(g, node, calls[1..], depth, visiting);
      if IsFollowed(calls[0]) {
        DepthIsLongestWalk(g, calls[0].callee, depth + 1, visiting + {node});
        var d := Depth(g, calls[0].callee, depth + 1, visiting + {node});
        assert calls[0] in CallsOf(g, node);
        FollowedCalls(g, node, calls[0]);
        ExtendWalk(g, node, calls[0].callee, visiting, d - depth - 1);
      }
      assert calls == [calls[0]] + calls[1..];
    }
  }

  /** An instruction overflows the limit exactly when some walk of five calls starts at it. */
  lemma OverflowIffWalkOfFive(g: Graph, node: string)
    ensures Depth(g, node, 0, {}) > CPI_LIMIT <==> HasWalk(g, node, {}, 5)
  {
    DepthIsLongestWalk(g, node, 0, {});
    if Depth(g, node, 0, {}) > CPI_LIMIT {
      ShortenWalk(g, node, {}, Depth(g, node, 0, {}), CPI_LIMIT + 1);
    }
  }

  /** The overflow findings of `analyze_cpi_depth`: one per instruction of the program, in any order. */
  method AnalyzeCpiDepth(graph: Graph) returns (overflowing: set<string>)
    ensures forall ix :: ix in overflowing <==> ix in graph && HasWalk(graph, ix, {}, 5)
  {
    overflowing := {};
    var todo := graph.Keys;
    while todo != {}
      invariant todo <= graph.Keys
      invariant forall ix :: ix in overflowing <==> ix in graph && ix !in todo && HasWalk(graph, ix, {}, 5)
      decreases todo
    {
      var ix :| ix in todo;
      var search := new Search(graph);
      var depth := search.ComputeMaxDepth(ix, 0);
      OverflowIffWalkOfFive(graph, ix);
      if depth > CPI_LIMIT {
        overflowing := overflowing + {ix};
      }
      todo := todo - {ix};
    }
  }
}
