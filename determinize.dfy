/**
 * `RegexCompiler.toDFA`: the DFA over sets of macro-nodes ("power states").
 * Its transfer table computes, per character, one row of successor
 * macro-nodes for each macro-node and caches it.
 */
module Determinize {
  import opened Wrappers
  import opened Regex
  import opened Nfa
  import opened Search
  import opened EClosure

  /** `rows` is the transfer function for character `t`: row `i` holds `j` exactly when an edge `i -> j` accepts `t`. */
  ghost predicate IsTransfer(macro: seq<Node>, t: CodeUnit, rows: seq<set<nat>>)
  {
    |rows| == |macro| &&
    forall i, j :: 0 <= i < |rows| ==>
      (j in rows[i] <==>
        exists k :: 0 <= k < |macro[i].out| && macro[i].out[k].target == j &&
          macro[i].out[k].cc.Some? && AcceptsChar(macro[i].out[k].cc.value, t))
  }

  /** The NFA nodes reached from the set `c` by reading `t`: epsilon closures of the targets of the accepting edges. */
  ghost function Step(nodes: seq<Node>, c: set<nat>, t: CodeUnit): set<nat>
  {
    set p, n | p in EdgesOf(nodes, c) && IsEdge(nodes, p) && nodes[p.0].out[p.1].cc.Some? &&
               AcceptsChar(nodes[p.0].out[p.1].cc.value, t) &&
               n in Reachable(nodes, nodes[p.0].out[p.1].target, false) :: n
  }

  /** The NFA nodes that the macro-nodes of `row` stand for. */
  ghost function Image(contents: seq<set<nat>>, row: set<nat>): set<nat>
  {
    set j, n | j in row && j < |contents| && n in contents[j] :: n
  }

  /** A row read off the finished macro-node with contents `c` and edges `out`. */
  lemma RowImage(nodes: seq<Node>, contents: seq<set<nat>>, out: seq<Edge>, c: set<nat>, t: CodeUnit, row: set<nat>)
    requires MacroEdges(nodes, contents, out, c)
    requires forall j :: j in row <==>
      exists k :: 0 <= k < |out| && out[k].target == j && out[k].cc.Some? && AcceptsChar(out[k].cc.value, t)
    ensures Image(contents, row) == Step(nodes, c, t)
  {
    forall n | n in Image(contents, row) ensures n in Step(nodes, c, t) {
      var j :| j in row && j < |contents| && n in contents[j];
      var k :| 0 <= k < |out| && out[k].target == j && out[k].cc.Some? && AcceptsChar(out[k].cc.value, t);
      assert n in Dest(nodes, c, out[k].cc.value);
    }
    forall n | n in Step(nodes, c, t) ensures n in Image(contents, row) {
      var p: EdgeRef :| p in EdgesOf(nodes, c) && IsEdge(nodes, p) && nodes[p.0].out[p.1].cc.Some? &&
               AcceptsChar(nodes[p.0].out[p.1].cc.value, t) &&
               n in Reachable(nodes, nodes[p.0].out[p.1].target, false);
      var cc := nodes[p.0].out[p.1].cc.value;
      assert cc in MemberClasses(nodes, c);
      var k :| 0 <= k < |out| && out[k].cc == Some(cc);
      assert n in Dest(nodes, c, cc);
      assert out[k].target in row;
    }
  }

  /** Row `i` for `t` stands for exactly the NFA nodes that one step on `t` reaches from macro-node `i`'s contents. */
  lemma RowStep(nodes: seq<Node>, begin: nat, macro: seq<Node>, contents: seq<set<nat>>,
                t: CodeUnit, rows: seq<set<nat>>, i: nat)
    requires IsEClosure(nodes, begin, macro, contents) && IsTransfer(macro, t, rows) && i < |macro|
    ensures Image(contents, rows[i]) == Step(nodes, contents[i], t)
  {
    RowImage(nodes, contents, macro[i].out, contents[i], t, rows[i]);
  }

  /** Macro-node edges lead to macro-nodes. */
  lemma MacroWellFormed(nodes: seq<Node>, begin: nat, macro: seq<Node>, contents: seq<set<nat>>)
    requires IsEClosure(nodes, begin, macro, contents)
    ensures WellFormed(macro)
  {
    forall i, k | 0 <= i < |macro| && 0 <= k < |macro[i].out| ensures macro[i].out[k].target < |macro| {
      assert MacroEdges(nodes, contents, macro[i].out, contents[i]);
    }
  }

  /** The `basis` loop of `toDFA`: each macro-node's pattern ids, copied into a bitset of its own. */
  method TerminatedSets(macro: seq<Node>) returns (basis: seq<set<nat>>)
    ensures |basis| == |macro|
    ensures forall i :: 0 <= i < |macro| ==> basis[i] == macro[i].patternIds
  {
    basis := [];
    for i := 0 to |macro|
      invariant |basis| == i
      invariant forall j :: 0 <= j < i ==> basis[j] == macro[j].patternIds
    {
      var terminated: set<nat> := {};
      var pats := macro[i].patternIds;
      while pats != {}
        invariant terminated + pats == macro[i].patternIds && terminated !! pats
        decreases |pats|
      {
        var pat :| pat in pats;
        terminated := terminated + {pat};
        pats := pats - {pat};
      }
      basis := basis + [terminated];
    }
  }

  /**
   * The `DFA` built by `toDFA`: the macro-nodes (`id2node`, numbered in
   * creation order), the terminated patterns of each (`basis`), the initial
   * power state and the per-character cache of transfer functions.
   */
  class Dfa {
    const macro: seq<Node>
    const basis: seq<set<nat>>
    const initial: set<nat>
    var transfer: map<CodeUnit, seq<set<nat>>>
    /** The NFA this automaton was built from, and each macro-node's contents. */
    ghost const nodes: seq<Node>
    ghost const nfa: Nfa
    ghost const contents: seq<set<nat>>

    ghost predicate Valid()
      reads this
    {
      |basis| == |macro| > 0 && WellFormed(macro) && initial == {0} &&
      forall t :: t in transfer ==> IsTransfer(macro, t, transfer[t])
    }

    /** `toDFA(nfa, numPatterns)`; `numPatterns` only sizes the source's bitsets. */
    constructor (nodes: seq<Node>, nfa: Nfa, numPatterns: nat)
      requires WellFormed(nodes) && nfa.begin < |nodes|
      ensures Valid() && transfer == map[] && this.nodes == nodes && this.nfa == nfa
      ensures IsEClosure(nodes, nfa.begin, macro, contents)
      ensures forall i :: 0 <= i < |basis| ==> basis[i] == PatternUnion(nodes, contents[i])
    {
      var m, c := ComputeEClosure(nodes, nfa.begin);
      var b := TerminatedSets(m);
      MacroWellFormed(nodes, nfa.begin, m, c);
      this.macro := m;
      this.basis := b;
      this.initial := {0};
      this.transfer := map[];
      this.nodes := nodes;
      this.nfa := nfa;
      this.contents := c;
    }

    /** `computeTransferFor(token)`: one row of successor macro-nodes per macro-node. */
    method ComputeTransferFor(t: CodeUnit) returns (rows: seq<set<nat>>)
      requires Valid()
      ensures IsTransfer(macro, t, rows)
    {
      rows := [];
      for i := 0 to |macro|
        invariant |rows| == i
        invariant forall i', j :: 0 <= i' < i ==>
          (j in rows[i'] <==>
            exists k :: 0 <= k < |macro[i'].out| && macro[i'].out[k].target == j &&
              macro[i'].out[k].cc.Some? && AcceptsChar(macro[i'].out[k].cc.value, t))
      {
        var res: set<nat> := {};
        var out := macro[i].out;
        for k := 0 to |out|
          invariant forall j :: j in res <==>
            exists k' :: 0 <= k' < k && out[k'].target == j && out[k'].cc.Some? && AcceptsChar(out[k'].cc.value, t)
        {
          if out[k].cc.Some? && AcceptsChar(out[k].cc.value, t) {
            res := res + {out[k].target};
          }
        }
        rows := rows + [res];
      }
    }

    /** `forToken(token)`: the cached transfer function for `t`, computed and stored on first use. */
    method ForToken(t: CodeUnit) returns (rows: seq<set<nat>>)
      requires Valid()
      modifies this
      ensures Valid() && IsTransfer(macro, t, rows)
      ensures transfer == old(transfer)[t := rows]
      ensures t in old(transfer) ==> rows == old(transfer)[t]
    {
      if t in transfer {
        rows := transfer[t];
      } else {
        rows := ComputeTransferFor(t);
        transfer := transfer[t := rows];
      }
    }

    /**
     * `resetTerminatedPattern(state, pattern)`: the sub-states of `state` that have
     * not terminated `pattern`, plus the initial macro-node. `state` itself is a
     * value here, so it is left as it was.
     */
    method ResetTerminatedPattern(state: set<nat>, pattern: nat) returns (r: set<nat>)
      requires Valid() && forall s :: s in state ==> s < |basis|
      ensures 0 in r
      ensures forall s :: s in r && s != 0 ==> s in state && pattern !in basis[s]
      ensures forall s :: s in state && pattern !in basis[s] ==> s in r
    {
      var reset := state;
      for substate := 0 to |basis|
        invariant forall s :: s in reset ==> s in state
        invariant forall s :: s in state && (s >= substate || pattern !in basis[s]) ==> s in reset
        invariant forall s :: s in reset && s < substate ==> pattern !in basis[s]
      {
        if substate in reset && pattern in basis[substate] {
          reset := reset - {substate};
        }
      }
      r := reset + initial;
    }
  }
}
