/**
 * `RegexCompiler.computeEClosure`: the epsilon-free "macro" automaton whose
 * nodes stand for sets of NFA nodes (their contents), built by a worklist.
 */
module EClosure {
  import opened Wrappers
  import opened Regex
  import opened Nfa
  import opened Search

  /** An edge named by its source node and its position in that node's `out` list. */
  type EdgeRef = (nat, nat)

  ghost predicate IsEdge(nodes: seq<Node>, p: EdgeRef)
  {
    p.0 < |nodes| && p.1 < |nodes[p.0].out|
  }

  /** Every edge leaving a node of `c`. */
  ghost function EdgesOf(nodes: seq<Node>, c: set<nat>): set<EdgeRef>
  {
    set m, k | m in c && m < |nodes| && 0 <= k < |nodes[m].out| :: (m, k)
  }

  /** The character classes on the non-epsilon edges among `es`. */
  ghost function ClassesOn(nodes: seq<Node>, es: set<EdgeRef>): set<CharClass>
  {
    set p | p in es && IsEdge(nodes, p) && nodes[p.0].out[p.1].cc.Some? :: nodes[p.0].out[p.1].cc.value
  }

  /** The union of the epsilon closures of the targets of the `cc` edges among `es`. */
  ghost function DestOn(nodes: seq<Node>, es: set<EdgeRef>, cc: CharClass): set<nat>
  {
    set p, n | p in es && IsEdge(nodes, p) && nodes[p.0].out[p.1].cc == Some(cc) &&
               n in Reachable(nodes, nodes[p.0].out[p.1].target, false) :: n
  }

  /** The classes of the non-epsilon edges leaving the members of `c`. */
  ghost function MemberClasses(nodes: seq<Node>, c: set<nat>): set<CharClass>
  {
    ClassesOn(nodes, EdgesOf(nodes, c))
  }

  /** Where the macro-node with contents `c` goes on class `cc`. */
  ghost function Dest(nodes: seq<Node>, c: set<nat>, cc: CharClass): set<nat>
  {
    DestOn(nodes, EdgesOf(nodes, c), cc)
  }

  /** The union of the members' pattern ids. */
  ghost function PatternUnion(nodes: seq<Node>, c: set<nat>): set<nat>
  {
    set m, p | m in c && m < |nodes| && p in nodes[m].patternIds :: p
  }

  lemma ClassesOnAdd(nodes: seq<Node>, es: set<EdgeRef>, p: EdgeRef)
    requires IsEdge(nodes, p)
    ensures ClassesOn(nodes, es + {p}) ==
      ClassesOn(nodes, es) + (if nodes[p.0].out[p.1].cc.Some? then {nodes[p.0].out[p.1].cc.value} else {})
  {
  }

  lemma DestOnAdd(nodes: seq<Node>, es: set<EdgeRef>, p: EdgeRef, cc: CharClass)
    requires IsEdge(nodes, p)
    ensures DestOn(nodes, es + {p}, cc) ==
      DestOn(nodes, es, cc) + (if nodes[p.0].out[p.1].cc == Some(cc) then Reachable(nodes, nodes[p.0].out[p.1].target, false) else {})
  {
  }

  /** `node2closure`: every node of `all` is mapped to its epsilon closure. */
  ghost predicate ClosureTable(nodes: seq<Node>, all: set<nat>, closure: map<nat, set<nat>>)
  {
    (forall n :: n in all ==> n < |nodes| && n in closure && closure[n] == Reachable(nodes, n, false)) &&
    Closed(nodes, all, true)
  }

  /** `class2dest` after the edges `es` are grouped: `classes` holds its keys in insertion order. */
  ghost predicate Grouped(nodes: seq<Node>, es: set<EdgeRef>, classes: seq<CharClass>, dest: map<CharClass, set<nat>>)
  {
    (forall i, j :: 0 <= i < j < |classes| ==> classes[i] != classes[j]) &&
    (forall cc :: cc in dest <==> cc in classes) &&
    dest.Keys == ClassesOn(nodes, es) &&
    (forall cc :: cc in dest ==> dest[cc] == DestOn(nodes, es, cc))
  }

  /** The first `k` edges of node `m`. */
  ghost function OutPrefix(m: nat, k: nat): set<EdgeRef>
  {
    set j | 0 <= j < k :: (m, j)
  }

  lemma OutPrefixNext(m: nat, k: nat)
    ensures OutPrefix(m, k + 1) == OutPrefix(m, k) + {(m, k)}
  {
  }

  lemma EdgesOfAdd(nodes: seq<Node>, c: set<nat>, m: nat)
    requires m < |nodes|
    ensures EdgesOf(nodes, c + {m}) == EdgesOf(nodes, c) + OutPrefix(m, |nodes[m].out|)
  {
  }

  /** Adding edge `(m, k)` to `class2dest` keeps it grouped. */
  lemma GroupedAdd(nodes: seq<Node>, es: set<EdgeRef>, classes: seq<CharClass>, dest: map<CharClass, set<nat>>,
                   m: nat, k: nat, classes': seq<CharClass>, dest': map<CharClass, set<nat>>)
    requires Grouped(nodes, es, classes, dest) && m < |nodes| && k < |nodes[m].out|
    requires nodes[m].out[k].cc.None? ==> classes' == classes && dest' == dest
    requires nodes[m].out[k].cc.Some? ==>
      var cc := nodes[m].out[k].cc.value;
      var d := if cc in dest then dest[cc] else {};
      classes' == (if cc in dest then classes else classes + [cc]) &&
      dest' == dest[cc := d + Reachable(nodes, nodes[m].out[k].target, false)]
    ensures Grouped(nodes, es + {(m, k)}, classes', dest')
  {
    ClassesOnAdd(nodes, es, (m, k));
    forall cc | cc in dest'
      ensures dest'[cc] == DestOn(nodes, es + {(m, k)}, cc)
    {
      DestOnAdd(nodes, es, (m, k), cc);
    }
    var cs := nodes[m].out[k].cc;
    if cs.Some? && cs.value !in dest {
      assert DestOn(nodes, es, cs.value) == {};
    }
  }

  /** The `class2dest` loop of `computeEClosure` for one macro-node with contents `c`. */
  method GroupByClass(nodes: seq<Node>, all: set<nat>, closure: map<nat, set<nat>>, c: set<nat>)
    returns (classes: seq<CharClass>, dest: map<CharClass, set<nat>>)
    requires ClosureTable(nodes, all, closure) && c <= all
    ensures Grouped(nodes, EdgesOf(nodes, c), classes, dest)
  {
    classes, dest := [], map[];
    ghost var seen: set<EdgeRef> := {};
    var rest := c;
    while rest != {}
      invariant rest <= c
      invariant seen == EdgesOf(nodes, c - rest)
      invariant Grouped(nodes, seen, classes, dest)
      decreases |rest|
    {
      var m :| m in rest;
      ghost var done := c - rest;
      rest := rest - {m};
      classes, dest := GroupEdges(nodes, all, closure, m, seen, classes, dest);
      EdgesOfAdd(nodes, done, m);
      seen := seen + OutPrefix(m, |nodes[m].out|);
      assert done + {m} == c - rest;
    }
    assert c - rest == c;
  }

  /** The inner loop of `class2dest`: the out-edges of one member `m`, in order. */
  method GroupEdges(nodes: seq<Node>, all: set<nat>, closure: map<nat, set<nat>>, m: nat,
                    ghost es: set<EdgeRef>, classes0: seq<CharClass>, dest0: map<CharClass, set<nat>>)
    returns (classes: seq<CharClass>, dest: map<CharClass, set<nat>>)
    requires ClosureTable(nodes, all, closure) && m in all
    requires Grouped(nodes, es, classes0, dest0)
    ensures Grouped(nodes, es + OutPrefix(m, |nodes[m].out|), classes, dest)
  {
    classes, dest := classes0, dest0;
    var out := nodes[m].out;
    ghost var seen := es;
    for k := 0 to |out|
      invariant seen == es + OutPrefix(m, k)
      invariant Grouped(nodes, seen, classes, dest)
    {
      ghost var classes1, dest1 := classes, dest;
      if out[k].cc.Some? {
        var cc := out[k].cc.value;
        if cc !in dest {
          classes := classes + [cc];
          dest := dest[cc := {}];
        }
        dest := dest[cc := dest[cc] + closure[out[k].target]];
      }
      GroupedAdd(nodes, seen, classes1, dest1, m, k, classes, dest);
      OutPrefixNext(m, k);
      seen := seen + {(m, k)};
    }
  }

  /** `patternIds.addAll` over the members of `c`. */
  method UnionPatternIds(nodes: seq<Node>, c: set<nat>) returns (ids: set<nat>)
    requires forall n :: n in c ==> n < |nodes|
    ensures ids == PatternUnion(nodes, c)
  {
    ids := {};
    var rest := c;
    while rest != {}
      invariant rest <= c
      invariant ids == PatternUnion(nodes, c - rest)
      decreases |rest|
    {
      var m :| m in rest;
      assert PatternUnion(nodes, c - rest + {m}) == PatternUnion(nodes, c - rest) + nodes[m].patternIds;
      ids := ids + nodes[m].patternIds;
      assert c - rest + {m} == c - (rest - {m});
      rest := rest - {m};
    }
    assert c - rest == c;
  }

  /** Every subset of the node indices below `n`. */
  ghost function Subsets(n: nat): set<set<nat>>
  {
    if n == 0 then {{}} else
      var smaller := Subsets(n - 1);
      smaller + set x | x in smaller :: x + {n - 1}
  }

  lemma InSubsets(x: set<nat>, n: nat)
    requires forall m :: m in x ==> m < n
    ensures x in Subsets(n)
  {
    if n > 0 {
      InSubsets(x - {n - 1}, n - 1);
      var smaller := Subsets(n - 1);
      if n - 1 in x {
        var y := x - {n - 1};
        assert y in smaller && x == y + {n - 1};
        assert x in set z | z in smaller :: z + {n - 1};
      } else {
        assert x == x - {n - 1};
      }
    } else {
      assert x == {};
    }
  }

  /** The contents sets that already have a macro-node. */
  ghost function ContentSet(contents: seq<set<nat>>): set<set<nat>>
  {
    set i | 0 <= i < |contents| :: contents[i]
  }

  /** `contents2newNode` is the inverse of `newNode2contents`. */
  ghost predicate Numbered(contents: seq<set<nat>>, index: map<set<nat>, nat>)
  {
    (forall i :: 0 <= i < |contents| ==> contents[i] in index && index[contents[i]] == i) &&
    (forall d :: d in index ==> index[d] < |contents| && contents[index[d]] == d)
  }

  /** The out-edges of a finished macro-node with contents `c`: one edge per member class, to the node of its destination. */
  ghost predicate MacroEdges(nodes: seq<Node>, contents: seq<set<nat>>, out: seq<Edge>, c: set<nat>)
  {
    (forall k :: 0 <= k < |out| ==>
       out[k].cc.Some? && out[k].target < |contents| && contents[out[k].target] == Dest(nodes, c, out[k].cc.value)) &&
    (forall k, l :: 0 <= k < l < |out| ==> out[k].cc != out[l].cc) &&
    (forall cc :: cc in MemberClasses(nodes, c) <==> exists k :: 0 <= k < |out| && out[k].cc == Some(cc))
  }

  /** The invariant of the worklist loop of `computeEClosure`. */
  ghost predicate Building(nodes: seq<Node>, all: set<nat>, macro: seq<Node>, contents: seq<set<nat>>,
                           index: map<set<nat>, nat>)
  {
    |macro| == |contents| && Numbered(contents, index) &&
    (forall i :: 0 <= i < |contents| ==> contents[i] <= all) &&
    (forall i :: 0 <= i < |macro| ==> macro[i].patternIds == PatternUnion(nodes, contents[i]))
  }

  lemma ClosedEpsilon(nodes: seq<Node>, s: set<nat>)
    requires Closed(nodes, s, true)
    ensures Closed(nodes, s, false)
  {
  }

  /** The edges written for the grouped classes, in order, make a finished macro-node. */
  lemma FinishNode(nodes: seq<Node>, contents: seq<set<nat>>, out: seq<Edge>, c: set<nat>,
                   classes: seq<CharClass>, dest: map<CharClass, set<nat>>)
    requires Grouped(nodes, EdgesOf(nodes, c), classes, dest) && |out| == |classes|
    requires forall k :: 0 <= k < |out| ==>
      out[k].cc == Some(classes[k]) && out[k].target < |contents| && contents[out[k].target] == dest[classes[k]]
    ensures MacroEdges(nodes, contents, out, c)
  {
    forall cc | cc in MemberClasses(nodes, c)
      ensures exists k :: 0 <= k < |out| && out[k].cc == Some(cc)
    {
      var k :| 0 <= k < |classes| && classes[k] == cc;
      assert out[k].cc == Some(cc);
    }
  }

  /** Appending macro-nodes leaves the finished ones finished. */
  lemma MacroEdgesExtend(nodes: seq<Node>, contents: seq<set<nat>>, contents': seq<set<nat>>, out: seq<Edge>, c: set<nat>)
    requires MacroEdges(nodes, contents, out, c)
    requires |contents| <= |contents'| && contents'[..|contents|] == contents
    ensures MacroEdges(nodes, contents', out, c)
  {
    forall k | 0 <= k < |out|
      ensures contents'[out[k].target] == contents[out[k].target]
    {
      assert contents'[..|contents|][out[k].target] == contents'[out[k].target];
    }
  }

  /** Destinations of macro-nodes within the reachable nodes stay within them. */
  lemma DestWithin(nodes: seq<Node>, all: set<nat>, closure: map<nat, set<nat>>, c: set<nat>, cc: CharClass)
    requires ClosureTable(nodes, all, closure) && c <= all
    ensures Dest(nodes, c, cc) <= all
  {
    ClosedEpsilon(nodes, all);
    forall n | n in Dest(nodes, c, cc) ensures n in all {
      var p: EdgeRef :| p in EdgesOf(nodes, c) && IsEdge(nodes, p) && nodes[p.0].out[p.1].cc == Some(cc) &&
        n in Reachable(nodes, nodes[p.0].out[p.1].target, false);
      ClosedContainsReachable(nodes, all, nodes[p.0].out[p.1].target, false);
    }
  }

  /** `newNodesToVisit` holds the macro-nodes `from`, `from + 1`, ... in creation order. */
  ghost predicate Pending(queue: seq<nat>, from: nat)
  {
    forall k :: 0 <= k < |queue| ==> queue[k] == from + k
  }

  lemma PendingSnoc(queue: seq<nat>, from: nat)
    requires Pending(queue, from)
    ensures Pending(queue + [from + |queue|], from)
  {
  }

  lemma PendingTail(queue: seq<nat>, from: nat)
    requires Pending(queue, from) && queue != []
    ensures Pending(queue[1..], from + 1)
  {
  }

  /** Registering a new macro-node for the unseen contents `d`. */
  lemma BuildingAppend(nodes: seq<Node>, all: set<nat>, macro: seq<Node>, contents: seq<set<nat>>,
                       index: map<set<nat>, nat>, d: set<nat>, ids: set<nat>)
    requires Building(nodes, all, macro, contents, index) && d !in index && d <= all
    requires ids == PatternUnion(nodes, d)
    ensures Building(nodes, all, macro + [Node([], ids)], contents + [d], index[d := |contents|])
    ensures d !in ContentSet(contents) && ContentSet(contents + [d]) == ContentSet(contents) + {d}
  {
    var contents' := contents + [d];
    assert forall i :: 0 <= i < |contents| ==> contents'[i] == contents[i];
    assert contents'[|contents|] == d;
    forall x | x in ContentSet(contents') ensures x in ContentSet(contents) + {d} {
      var i :| 0 <= i < |contents'| && contents'[i] == x;
      if i < |contents| {
        assert contents[i] == x;
      }
    }
  }

  /** Adding an edge keeps every macro-node's pattern ids. */
  lemma BuildingEdge(nodes: seq<Node>, all: set<nat>, macro: seq<Node>, contents: seq<set<nat>>,
                     index: map<set<nat>, nat>, i: nat, e: Edge)
    requires Building(nodes, all, macro, contents, index) && i < |macro|
    ensures Building(nodes, all, AddEdge(macro, i, e), contents, index)
  {
  }

  lemma ContentSetPrefix(contents: seq<set<nat>>, contents': seq<set<nat>>)
    requires |contents| <= |contents'| && contents'[..|contents|] == contents
    ensures ContentSet(contents) <= ContentSet(contents')
  {
    forall i | 0 <= i < |contents| ensures contents[i] in ContentSet(contents') {
      assert contents'[i] == contents[i];
    }
  }

  /** Creating a macro-node for a contents set not seen before shrinks the sets still unused. */
  lemma Shrinks(n: nat, contents: seq<set<nat>>, contents': seq<set<nat>>)
    requires |contents| < |contents'| && contents'[..|contents|] == contents
    requires contents'[|contents|] !in ContentSet(contents)
    requires forall m :: m in contents'[|contents|] ==> m < n
    ensures Subsets(n) - ContentSet(contents') < Subsets(n) - ContentSet(contents)
  {
    ContentSetPrefix(contents, contents');
    InSubsets(contents'[|contents|], n);
    assert contents'[|contents|] in ContentSet(contents');
  }

  /** The `node2closure` table: the epsilon closure of every node of `all`. */
  method ClosureTableOf(nodes: seq<Node>, all: set<nat>) returns (closure: map<nat, set<nat>>)
    requires WellFormed(nodes) && Closed(nodes, all, true) && forall n :: n in all ==> n < |nodes|
    ensures ClosureTable(nodes, all, closure)
  {
    closure := map[];
    var rest := all;
    while rest != {}
      invariant rest <= all
      invariant forall n :: n in all - rest ==> n in closure && closure[n] == Reachable(nodes, n, false)
      decreases |rest|
    {
      var n :| n in rest;
      var r := Dfs(nodes, n, false);
      closure := closure[n := r];
      rest := rest - {n};
    }
    assert all - rest == all;
  }

  /**
   * One key `cc` of `class2dest` with destination `d`: find the macro-node of
   * `d`, creating and queueing it if `d` is new, and add the edge to it.
   */
  method LinkOne(nodes: seq<Node>, ghost all: set<nat>, i: nat, cc: CharClass, d: set<nat>,
                 macro: seq<Node>, contents: seq<set<nat>>, index: map<set<nat>, nat>, queue: seq<nat>, ghost from: nat)
    returns (macro': seq<Node>, contents': seq<set<nat>>, index': map<set<nat>, nat>, queue': seq<nat>, target: nat)
    requires Building(nodes, all, macro, contents, index) && i < |macro|
    requires forall n :: n in all ==> n < |nodes|
    requires d <= all
    requires |queue| == |macro| - from && Pending(queue, from)
    ensures Building(nodes, all, macro', contents', index')
    ensures |contents| <= |contents'| && contents'[..|contents|] == contents
    ensures |contents'| > |contents| ==> contents'[|contents|] == d && d !in ContentSet(contents)
    ensures target < |contents'| && contents'[target] == d
    ensures macro'[i].out == macro[i].out + [Edge(Some(cc), target)]
    ensures forall n :: 0 <= n < |macro| && n != i ==> macro'[n] == macro[n]
    ensures forall n :: |macro| <= n < |macro'| ==> macro'[n].out == []
    ensures |queue'| == |macro'| - from && Pending(queue', from)
  {
    macro', contents', index', queue' := macro, contents, index, queue;
    if d in index' {
      target := index'[d];
    } else {
      target := |macro'|;
      var ids := UnionPatternIds(nodes, d);
      BuildingAppend(nodes, all, macro', contents', index', d, ids);
      macro' := macro' + [Node([], ids)];
      contents' := contents' + [d];
      index' := index'[d := target];
      PendingSnoc(queue', from);
      queue' := queue' + [target];
      assert contents'[..|contents|] == contents;
    }
    BuildingEdge(nodes, all, macro', contents', index', i, Edge(Some(cc), target));
    macro' := AddEdge(macro', i, Edge(Some(cc), target));
  }

  /** The first `j` edges of a macro-node lead, class by class, to the macro-nodes of their destinations. */
  ghost predicate LinkedTo(out: seq<Edge>, classes: seq<CharClass>, dest: map<CharClass, set<nat>>,
                           contents: seq<set<nat>>, j: nat)
  {
    |out| == j && j <= |classes| &&
    forall k :: 0 <= k < j ==>
      (classes[k] in dest && out[k].cc == Some(classes[k]) &&
       out[k].target < |contents| && contents[out[k].target] == dest[classes[k]])
  }

  /** One more linked class keeps the earlier edges, the old contents and the freshness of the first new set. */
  lemma LinkStep(classes: seq<CharClass>, dest: map<CharClass, set<nat>>, j: nat,
                 contents: seq<set<nat>>, contents1: seq<set<nat>>, contents': seq<set<nat>>,
                 out1: seq<Edge>, target: nat)
    requires j < |classes| && classes[j] in dest
    requires LinkedTo(out1, classes, dest, contents1, j)
    requires |contents| <= |contents1| && contents1[..|contents|] == contents
    requires |contents1| > |contents| ==> contents1[|contents|] !in ContentSet(contents)
    requires |contents1| <= |contents'| && contents'[..|contents1|] == contents1
    requires |contents'| > |contents1| ==> contents'[|contents1|] !in ContentSet(contents1)
    requires target < |contents'| && contents'[target] == dest[classes[j]]
    ensures LinkedTo(out1 + [Edge(Some(classes[j]), target)], classes, dest, contents', j + 1)
    ensures |contents| <= |contents'| && contents'[..|contents|] == contents
    ensures |contents'| > |contents| ==> contents'[|contents|] !in ContentSet(contents)
  {
    var out' := out1 + [Edge(Some(classes[j]), target)];
    forall k | 0 <= k < j
      ensures contents'[out1[k].target] == contents1[out1[k].target]
    {
      assert contents'[..|contents1|][out1[k].target] == contents'[out1[k].target];
    }
    assert contents'[..|contents|] == contents by {
      assert contents'[..|contents1|][..|contents|] == contents'[..|contents|];
    }
    if |contents1| == |contents| && |contents'| > |contents| {
      assert contents1 == contents;
    } else if |contents1| > |contents| {
      assert contents'[..|contents1|][|contents|] == contents'[|contents|];
    }
  }

  /**
   * The loop over `class2dest.keySet()` for macro-node `i`: find or create the
   * macro-node of each destination and add the edge to it.
   */
  method LinkClasses(nodes: seq<Node>, ghost all: set<nat>, i: nat, classes: seq<CharClass>,
                     dest: map<CharClass, set<nat>>, macro: seq<Node>, contents: seq<set<nat>>,
                     index: map<set<nat>, nat>, queue: seq<nat>, ghost from: nat)
    returns (macro': seq<Node>, contents': seq<set<nat>>, index': map<set<nat>, nat>, queue': seq<nat>)
    requires Building(nodes, all, macro, contents, index) && i < |macro| && macro[i].out == []
    requires forall n :: n in all ==> n < |nodes|
    requires forall cc :: cc in classes ==> cc in dest && dest[cc] <= all
    requires |queue| == |macro| - from && Pending(queue, from)
    ensures Building(nodes, all, macro', contents', index')
    ensures |contents| <= |contents'| && contents'[..|contents|] == contents
    ensures |macro'[i].out| == |classes|
    ensures forall k :: 0 <= k < |classes| ==>
      (macro'[i].out[k].cc == Some(classes[k]) &&
       macro'[i].out[k].target < |contents'| && contents'[macro'[i].out[k].target] == dest[classes[k]])
    ensures forall n :: 0 <= n < |macro| && n != i ==> macro'[n] == macro[n]
    ensures forall n :: |macro| <= n < |macro'| ==> macro'[n].out == []
    ensures |queue'| == |macro'| - from && Pending(queue', from)
    ensures |contents'| > |contents| ==> contents'[|contents|] !in ContentSet(contents)
  {
    macro', contents', index', queue' := macro, contents, index, queue;
    for j := 0 to |classes|
      invariant Building(nodes, all, macro', contents', index')
      invariant |contents| <= |contents'| && contents'[..|contents|] == contents
      invariant LinkedTo(macro'[i].out, classes, dest, contents', j)
      invariant forall n :: 0 <= n < |macro| && n != i ==> macro'[n] == macro[n]
      invariant forall n :: |macro| <= n < |macro'| ==> macro'[n].out == []
      invariant |queue'| == |macro'| - from && Pending(queue', from)
      invariant |contents'| > |contents| ==> contents'[|contents|] !in ContentSet(contents)
    {
      ghost var macro1, contents1 := macro', contents';
      var target;
      macro', contents', index', queue', target :=
        LinkOne(nodes, all, i, classes[j], dest[classes[j]], macro', contents', index', queue', from);
      LinkStep(classes, dest, j, contents, contents1, contents', macro1[i].out, target);
    }
  }

  /**
   * What `computeEClosure` returns for the NFA starting at `begin`: macro-nodes
   * in creation order (index 0 is the new initial node) with their contents.
   */
  ghost predicate IsEClosure(nodes: seq<Node>, begin: nat, macro: seq<Node>, contents: seq<set<nat>>)
  {
    // one contents set per macro-node, the first being the epsilon closure of `begin`
    |macro| == |contents| > 0 && contents[0] == Reachable(nodes, begin, false) &&
    // a contents set is given a macro-node only once
    (forall i, j :: 0 <= i < j < |contents| ==> contents[i] != contents[j]) &&
    // contents are made of NFA nodes reachable from `begin`
    (forall i :: 0 <= i < |contents| ==> contents[i] <= Reachable(nodes, begin, true)) &&
    // pattern ids are inherited from the members
    (forall i :: 0 <= i < |macro| ==> macro[i].patternIds == PatternUnion(nodes, contents[i])) &&
    // one edge per member class, to the macro-node of its destination
    (forall i :: 0 <= i < |macro| ==> MacroEdges(nodes, contents, macro[i].out, contents[i]))
  }

  lemma Concluded(nodes: seq<Node>, begin: nat, all: set<nat>, macro: seq<Node>, contents: seq<set<nat>>,
                  index: map<set<nat>, nat>)
    requires Building(nodes, all, macro, contents, index) && all == Reachable(nodes, begin, true)
    requires |contents| > 0 && contents[0] == Reachable(nodes, begin, false)
    requires forall i :: 0 <= i < |macro| ==> MacroEdges(nodes, contents, macro[i].out, contents[i])
    ensures IsEClosure(nodes, begin, macro, contents)
  {
    forall i, j | 0 <= i < j < |contents| ensures contents[i] != contents[j] {
      assert index[contents[i]] == i && index[contents[j]] == j;
    }
  }

  /**
   * One turn of the worklist loop of `computeEClosure`: take macro-node
   * `done`, the head of `newNodesToVisit`, group its members' edges by class
   * and link it to the macro-node of each destination.
   */
  method Expand(nodes: seq<Node>, all: set<nat>, closure: map<nat, set<nat>>, macro: seq<Node>,
                contents: seq<set<nat>>, index: map<set<nat>, nat>, queue: seq<nat>, ghost done: nat)
    returns (macro': seq<Node>, contents': seq<set<nat>>, index': map<set<nat>, nat>, queue': seq<nat>)
    requires ClosureTable(nodes, all, closure) && Building(nodes, all, macro, contents, index)
    requires done < |macro| && |queue| == |macro| - done && Pending(queue, done)
    requires forall i :: 0 <= i < done ==> MacroEdges(nodes, contents, macro[i].out, contents[i])
    requires forall i :: done <= i < |macro| ==> macro[i].out == []
    ensures Building(nodes, all, macro', contents', index')
    ensures |contents| <= |contents'| && contents'[..|contents|] == contents
    ensures |queue'| == |macro'| - (done + 1) && Pending(queue', done + 1)
    ensures forall i :: 0 <= i <= done ==> MacroEdges(nodes, contents', macro'[i].out, contents'[i])
    ensures forall i :: done + 1 <= i < |macro'| ==> macro'[i].out == []
    ensures |contents'| > |contents| ==> Subsets(|nodes|) - ContentSet(contents') < Subsets(|nodes|) - ContentSet(contents)
  {
    var i := queue[0];
    PendingTail(queue, done);
    var rest := queue[1..];
    var classes, dest := GroupByClass(nodes, all, closure, contents[i]);
    forall cc | cc in dest ensures dest[cc] <= all {
      DestWithin(nodes, all, closure, contents[i], cc);
    }
    macro', contents', index', queue' := LinkClasses(nodes, all, i, classes, dest, macro, contents, index, rest, done + 1);
    if |contents'| > |contents| {
      Shrinks(|nodes|, contents, contents');
    }
    FinishNode(nodes, contents', macro'[i].out, contents'[i], classes, dest);
    forall n | 0 <= n < done
      ensures MacroEdges(nodes, contents', macro'[n].out, contents'[n])
    {
      MacroEdgesExtend(nodes, contents, contents', macro[n].out, contents[n]);
    }
  }

  /** `computeEClosure`: the epsilon-free macro automaton of the NFA starting at `begin`. */
  method ComputeEClosure(nodes: seq<Node>, begin: nat) returns (macro: seq<Node>, contents: seq<set<nat>>)
    requires WellFormed(nodes) && begin < |nodes|
    ensures IsEClosure(nodes, begin, macro, contents)
  {
    var all := Dfs(nodes, begin, true);
    var closure := ClosureTableOf(nodes, all);
    ClosedEpsilon(nodes, all);
    ClosedContainsReachable(nodes, all, begin, false);

    var initialEC := closure[begin];
    var ids := UnionPatternIds(nodes, initialEC);
    macro, contents := [Node([], ids)], [initialEC];
    var index: map<set<nat>, nat> := map[initialEC := 0];
    var queue: seq<nat> := [0];
    ghost var done := 0;
    while queue != []
      invariant Building(nodes, all, macro, contents, index) && |contents| > 0 && contents[0] == initialEC
      invariant done <= |macro| && |queue| == |macro| - done
      invariant Pending(queue, done)
      invariant forall i :: 0 <= i < done ==> MacroEdges(nodes, contents, macro[i].out, contents[i])
      invariant forall i :: done <= i < |macro| ==> macro[i].out == []
      decreases Subsets(|nodes|) - ContentSet(contents), |queue|
    {
      ghost var contents0 := contents;
      macro, contents, index, queue := Expand(nodes, all, closure, macro, contents, index, queue, done);
      assert contents[..|contents0|][0] == contents[0];
      if |contents| == |contents0| {
        assert contents == contents[..|contents0|];
      }
      done := done + 1;
    }
    Concluded(nodes, begin, all, macro, contents, index);
  }
}
