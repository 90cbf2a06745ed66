/**
 * `RegexCompiler.dfs`: the stack-driven search that collects every node
 * reachable from an origin, following all edges or only epsilon edges.
 */
module Search {
  import opened Wrappers
  import opened Nfa

  /** Whether `dfs(_, acceptNonEps)` follows edge `e`: always for epsilon edges, and for class edges when asked. */
  predicate Follows(e: Edge, acceptNonEps: bool)
  {
    e.cc.None? || acceptNonEps
  }

  /** One followed edge from `m` to `n`. */
  ghost predicate Step(nodes: seq<Node>, m: nat, n: nat, acceptNonEps: bool)
  {
    m < |nodes| &&
    exists k :: 0 <= k < |nodes[m].out| && Follows(nodes[m].out[k], acceptNonEps) && nodes[m].out[k].target == n
  }

  /** `path` lists the nodes visited from `from` to `to`, one followed edge at a time. */
  ghost predicate IsPath(nodes: seq<Node>, from: nat, to: nat, path: seq<nat>, acceptNonEps: bool)
  {
    |path| > 0 && path[0] == from && path[|path| - 1] == to &&
    (forall i :: 0 <= i < |path| ==> path[i] < |nodes|) &&
    (forall i :: 0 <= i < |path| - 1 ==> Step(nodes, path[i], path[i + 1], acceptNonEps))
  }

  ghost predicate Reaches(nodes: seq<Node>, from: nat, to: nat, acceptNonEps: bool)
  {
    exists path :: IsPath(nodes, from, to, path, acceptNonEps)
  }

  /** The nodes reachable from `from`; over epsilon edges only, this is the epsilon closure of `from`. */
  ghost function Reachable(nodes: seq<Node>, from: nat, acceptNonEps: bool): set<nat>
  {
    set n | 0 <= n < |nodes| && Reaches(nodes, from, n, acceptNonEps)
  }

  /** No followed edge leaves `s`. */
  ghost predicate Closed(nodes: seq<Node>, s: set<nat>, acceptNonEps: bool)
  {
    forall m, k :: m in s && m < |nodes| && 0 <= k < |nodes[m].out| && Follows(nodes[m].out[k], acceptNonEps) ==>
      nodes[m].out[k].target in s
  }

  lemma {:induction false} ClosedContainsPath(nodes: seq<Node>, s: set<nat>, from: nat, to: nat,
                                              path: seq<nat>, acceptNonEps: bool)
    requires Closed(nodes, s, acceptNonEps) && from in s && IsPath(nodes, from, to, path, acceptNonEps)
    ensures to in s
    decreases |path|
  {
    if |path| > 1 {
      var p := path[..|path| - 1];
      var m := p[|p| - 1];
      assert IsPath(nodes, from, m, p, acceptNonEps);
      ClosedContainsPath(nodes, s, from, m, p, acceptNonEps);
      assert Step(nodes, m, to, acceptNonEps);
    }
  }

  /** A closed set holds everything reachable from each of its members. */
  lemma ClosedContainsReachable(nodes: seq<Node>, s: set<nat>, from: nat, acceptNonEps: bool)
    requires Closed(nodes, s, acceptNonEps) && from in s
    ensures Reachable(nodes, from, acceptNonEps) <= s
  {
    forall n | n in Reachable(nodes, from, acceptNonEps) ensures n in s {
      var path :| IsPath(nodes, from, n, path, acceptNonEps);
      ClosedContainsPath(nodes, s, from, n, path, acceptNonEps);
    }
  }

  lemma PathSnoc(nodes: seq<Node>, from: nat, m: nat, path: seq<nat>, k: nat, acceptNonEps: bool)
    requires IsPath(nodes, from, m, path, acceptNonEps)
    requires k < |nodes[m].out| && Follows(nodes[m].out[k], acceptNonEps) && nodes[m].out[k].target < |nodes|
    ensures IsPath(nodes, from, nodes[m].out[k].target, path + [nodes[m].out[k].target], acceptNonEps)
  {
    var p := path + [nodes[m].out[k].target];
    forall i | 0 <= i < |p| - 1 ensures Step(nodes, p[i], p[i + 1], acceptNonEps) {
      if i < |path| - 1 {
        assert p[i] == path[i] && p[i + 1] == path[i + 1];
      }
    }
  }

  lemma SubsetCard<T>(a: set<T>, b: set<T>)
    requires a <= b
    ensures |a| <= |b|
  {
    if a != {} {
      var x :| x in a;
      SubsetCard(a - {x}, b - {x});
    }
  }

  /** A set of indices below `n` has at most `n` members. */
  lemma RangeCard(s: set<nat>, n: nat)
    requires forall x :: x in s ==> x < n
    ensures |s| <= n
  {
    if n > 0 {
      RangeCard(s - {n - 1}, n - 1);
    } else {
      assert s == {};
    }
  }

  /** Reaching `m` and following edge `k` out of it reaches that edge's target. */
  lemma ReachesStep(nodes: seq<Node>, from: nat, m: nat, k: nat, acceptNonEps: bool)
    requires WellFormed(nodes) && m < |nodes| && Reaches(nodes, from, m, acceptNonEps)
    requires k < |nodes[m].out| && Follows(nodes[m].out[k], acceptNonEps)
    ensures Reaches(nodes, from, nodes[m].out[k].target, acceptNonEps)
  {
    var path :| IsPath(nodes, from, m, path, acceptNonEps);
    PathSnoc(nodes, from, m, path, k, acceptNonEps);
  }

  /** Everything in `res` and on the stack lies in the graph and is reachable from `origin`. */
  ghost predicate Found(nodes: seq<Node>, origin: nat, res: set<nat>, toVisit: seq<nat>, acceptNonEps: bool)
  {
    (forall n :: n in res ==> n < |nodes| && Reaches(nodes, origin, n, acceptNonEps)) &&
    (forall i :: 0 <= i < |toVisit| ==> toVisit[i] < |nodes| && Reaches(nodes, origin, toVisit[i], acceptNonEps))
  }

  /** Every followed edge out of a visited node other than `skip` leads into `res` or onto the stack. */
  ghost predicate Frontier(nodes: seq<Node>, res: set<nat>, toVisit: seq<nat>, acceptNonEps: bool, skip: int)
  {
    forall m, k :: m in res && m != skip && m < |nodes| && 0 <= k < |nodes[m].out| && Follows(nodes[m].out[k], acceptNonEps) ==>
      nodes[m].out[k].target in res || nodes[m].out[k].target in toVisit
  }

  /** The loop over `node.out` in `dfs`: push the target of every followed edge of `node`. */
  method PushTargets(nodes: seq<Node>, ghost origin: nat, ghost res: set<nat>, toVisit: seq<nat>,
                     node: nat, acceptNonEps: bool) returns (toVisit': seq<nat>)
    requires WellFormed(nodes) && node in res
    requires Found(nodes, origin, res, toVisit, acceptNonEps)
    requires Frontier(nodes, res, toVisit, acceptNonEps, node)
    ensures Found(nodes, origin, res, toVisit', acceptNonEps)
    ensures forall x :: x in toVisit ==> x in toVisit'
    ensures Frontier(nodes, res, toVisit', acceptNonEps, -1)
  {
    toVisit' := toVisit;
    var out := nodes[node].out;
    for k := 0 to |out|
      invariant Found(nodes, origin, res, toVisit', acceptNonEps)
      invariant forall x :: x in toVisit ==> x in toVisit'
      invariant forall j :: 0 <= j < k && Follows(out[j], acceptNonEps) ==> out[j].target in toVisit'
      invariant Frontier(nodes, res, toVisit', acceptNonEps, node)
    {
      if Follows(out[k], acceptNonEps) {
        ReachesStep(nodes, origin, node, k, acceptNonEps);
        toVisit' := toVisit' + [out[k].target];
      }
    }
  }

  /** `dfs(origin, acceptNonEps)`: the nodes reachable from `origin`, found with an explicit stack. */
  method Dfs(nodes: seq<Node>, origin: nat, acceptNonEps: bool) returns (res: set<nat>)
    requires WellFormed(nodes) && origin < |nodes|
    ensures res == Reachable(nodes, origin, acceptNonEps)
    ensures origin in res && Closed(nodes, res, acceptNonEps)
  {
    res := {};
    var toVisit := [origin];
    assert IsPath(nodes, origin, origin, [origin], acceptNonEps);
    while toVisit != []
      invariant Found(nodes, origin, res, toVisit, acceptNonEps)
      invariant origin in res || origin in toVisit
      invariant Frontier(nodes, res, toVisit, acceptNonEps, -1)
      decreases |nodes| - |res|, |toVisit|
    {
      RangeCard(res, |nodes|);
      var node := toVisit[|toVisit| - 1];
      toVisit := toVisit[..|toVisit| - 1];
      if node in res {
        continue;
      }
      res := res + {node};
      RangeCard(res, |nodes|);
      toVisit := PushTargets(nodes, origin, res, toVisit, node, acceptNonEps);
    }
    ClosedContainsReachable(nodes, res, origin, acceptNonEps);
  }
}
