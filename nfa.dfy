/**
 * The epsilon-NFA of `RegexCompiler.NFA`: nodes live in an arena and are
 * named by their index, which replaces the global id counter of `NFA.Node`.
 * This module holds the data, the notion of a labelled run, and the lemmas
 * about runs that the Thompson construction's proof uses.
 */
module Nfa {
  import opened Wrappers
  import opened Regex

  /** An out-edge: the class it reads, or `None` for an epsilon edge (`null` in the source). */
  datatype Edge = Edge(cc: Option<CharClass>, target: nat)

  /** An `NFA.Node`: its ordered out-edges and the patterns accepted on reaching it. */
  datatype Node = Node(out: seq<Edge>, patternIds: set<nat>)

  /** An `NFA`: the begin and end nodes of a fragment. */
  datatype Nfa = Nfa(begin: nat, end: nat)

  /** The arena after `Node.transition` appends edge `e` to node `from`. */
  function AddEdge(nodes: seq<Node>, from: nat, e: Edge): (r: seq<Node>)
    requires from < |nodes|
    ensures |r| == |nodes| && r[from].out == nodes[from].out + [e]
    ensures r[from].patternIds == nodes[from].patternIds
    ensures forall n :: 0 <= n < |nodes| && n != from ==> r[n] == nodes[n]
  {
    nodes[from := Node(nodes[from].out + [e], nodes[from].patternIds)]
  }

  /** Every edge leads to a node of the arena. */
  ghost predicate WellFormed(nodes: seq<Node>)
  {
    forall n, k :: 0 <= n < |nodes| && 0 <= k < |nodes[n].out| ==> nodes[n].out[k].target < |nodes|
  }

  /** The nodes `lo..hi` exist and their edges never leave that range. */
  ghost predicate ClosedRange(nodes: seq<Node>, lo: nat, hi: nat)
  {
    hi <= |nodes| &&
    forall n, k :: lo <= n < hi && 0 <= k < |nodes[n].out| ==> lo <= nodes[n].out[k].target < hi
  }

  /** `s` grows `t`: more nodes, and each old node keeps its edges as a prefix and its pattern ids. */
  ghost predicate Extends(t: seq<Node>, s: seq<Node>)
  {
    |t| <= |s| &&
    forall n :: 0 <= n < |t| ==> t[n].out <= s[n].out && t[n].patternIds <= s[n].patternIds
  }

  /**
   * `run` lists the out-edge taken at each step, from node `from` to node
   * `to`; an epsilon edge reads nothing, a class edge reads one code unit of
   * `w` that its class accepts, and the whole of `w` is read.
   */
  ghost predicate IsRun(nodes: seq<Node>, from: nat, to: nat, run: seq<nat>, w: seq<CodeUnit>)
    decreases |run|
  {
    if run == [] then from == to && w == []
    else
      from < |nodes| && run[0] < |nodes[from].out| &&
      var e := nodes[from].out[run[0]];
      match e.cc
      case None => IsRun(nodes, e.target, to, run[1..], w)
      case Some(cc) => |w| > 0 && AcceptsChar(cc, w[0]) && IsRun(nodes, e.target, to, run[1..], w[1..])
  }

  /** Node `to` is reached from `from` by reading exactly `w`. */
  ghost predicate Accepts(nodes: seq<Node>, from: nat, to: nat, w: seq<CodeUnit>)
  {
    exists run :: IsRun(nodes, from, to, run, w)
  }

  lemma ExtendsTrans(r: seq<Node>, s: seq<Node>, t: seq<Node>)
    requires Extends(r, s) && Extends(s, t)
    ensures Extends(r, t)
  {
    forall n | 0 <= n < |r| ensures r[n].out <= t[n].out {
      assert r[n].out <= s[n].out <= t[n].out;
    }
  }

  /** Two runs that meet make one run reading the concatenated words. */
  lemma {:induction false} RunConcat(nodes: seq<Node>, a: nat, b: nat, c: nat,
                                     r1: seq<nat>, w1: seq<CodeUnit>, r2: seq<nat>, w2: seq<CodeUnit>)
    requires IsRun(nodes, a, b, r1, w1) && IsRun(nodes, b, c, r2, w2)
    ensures IsRun(nodes, a, c, r1 + r2, w1 + w2)
    decreases |r1|
  {
    if r1 == [] {
      assert r1 + r2 == r2 && w1 + w2 == w2;
    } else {
      var e := nodes[a].out[r1[0]];
      assert (r1 + r2)[0] == r1[0] && (r1 + r2)[1..] == r1[1..] + r2;
      match e.cc
      case None =>
        RunConcat(nodes, e.target, b, c, r1[1..], w1, r2, w2);
      case Some(cc) =>
        RunConcat(nodes, e.target, b, c, r1[1..], w1[1..], r2, w2);
        assert (w1 + w2)[0] == w1[0] && (w1 + w2)[1..] == w1[1..] + w2;
    }
  }

  /** A run that takes one epsilon edge `k` of `a` and then continues. */
  lemma EpsilonStep(nodes: seq<Node>, a: nat, k: nat, c: nat, r: seq<nat>, w: seq<CodeUnit>)
    requires a < |nodes| && k < |nodes[a].out| && nodes[a].out[k].cc == None
    requires IsRun(nodes, nodes[a].out[k].target, c, r, w)
    ensures IsRun(nodes, a, c, [k] + r, w)
  {
    assert ([k] + r)[1..] == r;
  }

  /** Growing the arena keeps every run. */
  lemma {:induction false} RunExtends(t: seq<Node>, s: seq<Node>, a: nat, b: nat, r: seq<nat>, w: seq<CodeUnit>)
    requires Extends(t, s) && IsRun(t, a, b, r, w)
    ensures IsRun(s, a, b, r, w)
    decreases |r|
  {
    if r != [] {
      assert t[a].out <= s[a].out;
      var e := t[a].out[r[0]];
      assert s[a].out[r[0]] == e;
      match e.cc
      case None => RunExtends(t, s, e.target, b, r[1..], w);
      case Some(_) => RunExtends(t, s, e.target, b, r[1..], w[1..]);
    }
  }

  /**
   * A run of `s` that starts inside a range that is closed in `t`, where `s`
   * only appends edges to `t`'s nodes there: it is a run of `t` up to the
   * first appended edge it takes (at index `i`, from node `m`, after reading
   * `w[..j]`), or a run of `t` throughout.
   */
  lemma {:induction false} RunExit(s: seq<Node>, t: seq<Node>, lo: nat, hi: nat,
                                   from: nat, to: nat, run: seq<nat>, w: seq<CodeUnit>)
      returns (i: nat, m: nat, j: nat)
    requires ClosedRange(t, lo, hi) && hi <= |s|
    requires forall n :: lo <= n < hi ==> t[n].out <= s[n].out
    requires lo <= from < hi && IsRun(s, from, to, run, w)
    ensures i <= |run| && j <= |w| && lo <= m < hi
    ensures IsRun(t, from, m, run[..i], w[..j]) && IsRun(s, m, to, run[i..], w[j..])
    ensures i < |run| ==> |t[m].out| <= run[i]
    ensures i == |run| ==> m == to && j == |w|
    decreases |run|
  {
    if run == [] {
      i, m, j := 0, from, 0;
    } else if |t[from].out| <= run[0] {
      i, m, j := 0, from, 0;
    } else {
      var e := s[from].out[run[0]];
      assert t[from].out[run[0]] == e;
      var w' := if e.cc.None? then w else w[1..];
      var i', m', j' := RunExit(s, t, lo, hi, e.target, to, run[1..], w');
      i, m := i' + 1, m';
      j := if e.cc.None? then j' else j' + 1;
      assert run[..i][1..] == run[1..][..i'];
      assert run[i..] == run[1..][i'..];
      if e.cc.Some? {
        assert w[..j][1..] == w'[..j'] && w[j..] == w'[j'..];
      }
    }
  }

  /** A run of `s` inside a closed range of `t` on which `s` and `t` agree is a run of `t`. */
  lemma RunStays(s: seq<Node>, t: seq<Node>, lo: nat, hi: nat,
                 from: nat, to: nat, run: seq<nat>, w: seq<CodeUnit>)
    requires ClosedRange(t, lo, hi) && hi <= |s|
    requires forall n :: lo <= n < hi ==> t[n].out == s[n].out
    requires lo <= from < hi && IsRun(s, from, to, run, w)
    ensures IsRun(t, from, to, run, w) && lo <= to < hi
  {
    var i, m, j := RunExit(s, t, lo, hi, from, to, run, w);
    assert run[..i] == run && w[..j] == w;
  }
}
