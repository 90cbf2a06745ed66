/**
 * `RegexCompiler.toNFA`: the Thompson construction. The arena of NFA nodes
 * is a class whose `nodes` field every step appends to or updates, as
 * `new NFA.Node()`, `Node.transition` and `patternIds.add` do.
 *
 * Every fragment is proved to read exactly the language of its pattern
 * (soundness and completeness), its nodes are fresh and their edges stay
 * among them, and nodes allocated before it are left exactly as they were.
 */
module Thompson {
  import opened Wrappers
  import opened Regex
  import opened Nfa

  /**
   * What `toNFA(x)` leaves behind when it turns arena `before` into `after`
   * and returns `nfa`: its shape, and the language it reads.
   */
  ghost predicate IsFragment(before: seq<Node>, after: seq<Node>, nfa: Nfa, x: RxNode)
  {
    FragmentShape(before, after, nfa, x) && FragmentLanguage(after, nfa, x)
  }

  ghost predicate FragmentShape(before: seq<Node>, after: seq<Node>, nfa: Nfa, x: RxNode)
  {
    // both ends are fresh, distinct nodes
    |before| <= nfa.begin < |after| && |before| <= nfa.end < |after| && nfa.begin != nfa.end &&
    // nodes that existed before are untouched
    after[..|before|] == before &&
    // the fresh nodes only point at fresh nodes
    ClosedRange(after, |before|, |after|) &&
    // the fresh nodes only carry pattern ids that occur in x, and a label lands on the end node
    (forall n :: |before| <= n < |after| ==> after[n].patternIds <= Labels(x)) &&
    (x.Labeled? ==> x.patternId in after[nfa.end].patternIds)
  }

  /** The fragment reads exactly the language of `x` from its begin to its end node. */
  ghost predicate FragmentLanguage(nodes: seq<Node>, nfa: Nfa, x: RxNode)
  {
    (forall w :: Matches(x, w) ==> Accepts(nodes, nfa.begin, nfa.end, w)) && RunsMatch(nodes, nfa, x)
  }

  /** Every word read from the fragment's begin to its end node is a word of `x`. */
  ghost predicate RunsMatch(nodes: seq<Node>, nfa: Nfa, x: RxNode)
  {
    forall run, w :: IsRun(nodes, nfa.begin, nfa.end, run, w) ==> Matches(x, w)
  }

  lemma PrefixExtends(before: seq<Node>, after: seq<Node>)
    requires |before| <= |after| && after[..|before|] == before
    ensures Extends(before, after)
  {
    forall n | 0 <= n < |before| ensures before[n] == after[n] {
      assert after[..|before|][n] == after[n];
    }
  }

  /**
   * A run that starts inside a range closed in `t`, where `s` agrees with
   * `t` except for one appended epsilon edge `e -> dest`, and that ends
   * outside the range, reads a run of `t` to `e`, then takes that edge.
   */
  lemma ExitVia(s: seq<Node>, t: seq<Node>, lo: nat, hi: nat, e: nat, dest: nat,
                from: nat, to: nat, run: seq<nat>, w: seq<CodeUnit>)
      returns (pre: seq<nat>, j: nat, rest: seq<nat>)
    requires ClosedRange(t, lo, hi) && hi <= |s| && lo <= e < hi
    requires forall n :: lo <= n < hi && n != e ==> s[n].out == t[n].out
    requires s[e].out == t[e].out + [Edge(None, dest)]
    requires lo <= from < hi && !(lo <= to < hi) && IsRun(s, from, to, run, w)
    ensures j <= |w| && IsRun(t, from, e, pre, w[..j]) && IsRun(s, dest, to, rest, w[j..])
  {
    forall n | lo <= n < hi ensures t[n].out <= s[n].out {
      if n == e { assert t[e].out <= t[e].out + [Edge(None, dest)]; }
    }
    var i, m;
    i, m, j := RunExit(s, t, lo, hi, from, to, run, w);
    assert run[i..][0] == run[i];
    assert m == e && run[i] == |t[e].out|;
    pre, rest := run[..i], run[i + 1..];
    assert run[i..][1..] == rest;
  }

  /**
   * The arena `s` of an `Alternative` fragment: fresh nodes `lo` and `lo + 1`,
   * branch `a` built into `sa` on `lo + 2..|sa|`, branch `b` built into `sb`
   * on `|sa|..|sb|`, and the four epsilon edges added afterwards.
   */
  ghost predicate AltShape(s: seq<Node>, sa: seq<Node>, sb: seq<Node>, lo: nat, a: Nfa, b: Nfa)
  {
    lo + 2 <= |sa| <= |sb| == |s| &&
    ClosedRange(sa, lo + 2, |sa|) && lo + 2 <= a.begin < |sa| && lo + 2 <= a.end < |sa| &&
    ClosedRange(sb, |sa|, |sb|) && |sa| <= b.begin < |sb| && |sa| <= b.end < |sb| &&
    s[lo].out == [Edge(None, a.begin), Edge(None, b.begin)] && s[lo + 1].out == [] &&
    (forall n :: lo + 2 <= n < |sa| && n != a.end ==> s[n].out == sa[n].out) &&
    s[a.end].out == sa[a.end].out + [Edge(None, lo + 1)] &&
    (forall n :: |sa| <= n < |sb| && n != b.end ==> s[n].out == sb[n].out) &&
    s[b.end].out == sb[b.end].out + [Edge(None, lo + 1)]
  }

  lemma AltCompleteRun(s: seq<Node>, sa: seq<Node>, sb: seq<Node>, lo: nat, a: Nfa, b: Nfa, x: RxNode,
                       run: seq<nat>, w: seq<CodeUnit>)
    requires x.Alternative? && lo + 2 <= |sa| <= |sb| == |s|
    requires AltShape(s, sa, sb, lo, a, b)
    requires RunsMatch(sa, a, x.a) && RunsMatch(sb, b, x.b)
    requires IsRun(s, lo, lo + 1, run, w)
    ensures Matches(x, w)
  {
    var first := if run[0] == 0 then a else b;
    var flo, fhi, fs := if run[0] == 0 then lo + 2 else |sa|, if run[0] == 0 then |sa| else |sb|,
                        if run[0] == 0 then sa else sb;
    var pre, j, rest := ExitVia(s, fs, flo, fhi, first.end, lo + 1, first.begin, lo + 1, run[1..], w);
    assert w[..j] == w;
  }

  /** Completeness of an `Alternative` fragment `nfa`. */
  lemma AltComplete(s: seq<Node>, sa: seq<Node>, sb: seq<Node>, lo: nat, a: Nfa, b: Nfa, x: RxNode, nfa: Nfa)
    requires x.Alternative? && lo + 2 <= |sa| <= |sb| == |s| && nfa == Nfa(lo, lo + 1)
    requires AltShape(s, sa, sb, lo, a, b)
    requires RunsMatch(sa, a, x.a) && RunsMatch(sb, b, x.b)
    ensures RunsMatch(s, nfa, x)
  {
    forall run, w | IsRun(s, nfa.begin, nfa.end, run, w) ensures Matches(x, w) {
      AltCompleteRun(s, sa, sb, lo, a, b, x, run, w);
    }
  }

  /** Soundness of an `Alternative` fragment. */
  lemma AltSound(s: seq<Node>, sa: seq<Node>, sb: seq<Node>, lo: nat, a: Nfa, b: Nfa, x: RxNode, nfa: Nfa)
    requires x.Alternative? && lo + 1 < |s| && nfa == Nfa(lo, lo + 1)
    requires Extends(sa, s) && Extends(sb, s) && a.end < |sa| && b.end < |sb|
    requires s[lo].out == [Edge(None, a.begin), Edge(None, b.begin)]
    requires s[a.end].out == sa[a.end].out + [Edge(None, lo + 1)]
    requires s[b.end].out == sb[b.end].out + [Edge(None, lo + 1)]
    requires forall w :: Matches(x.a, w) ==> Accepts(sa, a.begin, a.end, w)
    requires forall w :: Matches(x.b, w) ==> Accepts(sb, b.begin, b.end, w)
    ensures forall w :: Matches(x, w) ==> Accepts(s, nfa.begin, nfa.end, w)
  {
    forall w | Matches(x, w) ensures Accepts(s, nfa.begin, nfa.end, w) {
      if Matches(x.a, w) {
        BranchSound(s, sa, lo, 0, a, w);
      } else {
        BranchSound(s, sb, lo, 1, b, w);
      }
    }
  }

  /** A word of one branch `f` of an `Alternative` fragment, entered by edge `k` of its begin node. */
  lemma BranchSound(s: seq<Node>, t: seq<Node>, lo: nat, k: nat, f: Nfa, w: seq<CodeUnit>)
    requires lo + 1 < |s| && Extends(t, s) && f.end < |t|
    requires k < |s[lo].out| && s[lo].out[k] == Edge(None, f.begin)
    requires s[f.end].out == t[f.end].out + [Edge(None, lo + 1)]
    requires Accepts(t, f.begin, f.end, w)
    ensures Accepts(s, lo, lo + 1, w)
  {
    var r: seq<nat> :| IsRun(t, f.begin, f.end, r, w);
    RunExtends(t, s, f.begin, f.end, r, w);
    EpsilonStep(s, f.end, |t[f.end].out|, lo + 1, [], []);
    RunConcat(s, f.begin, f.end, lo + 1, r, w, [|t[f.end].out|], []);
    assert w + [] == w;
    EpsilonStep(s, lo, k, lo + 1, r + [|t[f.end].out|], w);
  }

  /** Completeness of a `Sequence` fragment. */
  lemma SeqComplete(s: seq<Node>, sa: seq<Node>, sb: seq<Node>, lo: nat, a: Nfa, b: Nfa, x: RxNode)
    requires x.Sequence? && lo <= |sa| <= |sb| == |s|
    requires ClosedRange(sa, lo, |sa|) && lo <= a.begin < |sa| && lo <= a.end < |sa|
    requires ClosedRange(sb, |sa|, |sb|) && |sa| <= b.begin < |sb| && |sa| <= b.end < |sb|
    requires forall n :: lo <= n < |sa| && n != a.end ==> s[n].out == sa[n].out
    requires s[a.end].out == sa[a.end].out + [Edge(None, b.begin)]
    requires forall n :: |sa| <= n < |sb| ==> s[n].out == sb[n].out
    requires RunsMatch(sa, a, x.a)
    requires RunsMatch(sb, b, x.b)
    ensures RunsMatch(s, Nfa(a.begin, b.end), x)
  {
    forall run, w | IsRun(s, a.begin, b.end, run, w) ensures Matches(x, w) {
      SeqCompleteRun(s, sa, sb, lo, a, b, x, run, w);
    }
  }

  lemma SeqCompleteRun(s: seq<Node>, sa: seq<Node>, sb: seq<Node>, lo: nat, a: Nfa, b: Nfa, x: RxNode,
                       run: seq<nat>, w: seq<CodeUnit>)
    requires x.Sequence? && lo <= |sa| <= |sb| == |s|
    requires ClosedRange(sa, lo, |sa|) && lo <= a.begin < |sa| && lo <= a.end < |sa|
    requires ClosedRange(sb, |sa|, |sb|) && |sa| <= b.begin < |sb| && |sa| <= b.end < |sb|
    requires forall n :: lo <= n < |sa| && n != a.end ==> s[n].out == sa[n].out
    requires s[a.end].out == sa[a.end].out + [Edge(None, b.begin)]
    requires forall n :: |sa| <= n < |sb| ==> s[n].out == sb[n].out
    requires RunsMatch(sa, a, x.a)
    requires RunsMatch(sb, b, x.b)
    requires IsRun(s, a.begin, b.end, run, w)
    ensures Matches(x, w)
  {
    var pre, j, rest := ExitVia(s, sa, lo, |sa|, a.end, b.begin, a.begin, b.end, run, w);
    RunStays(s, sb, |sa|, |sb|, b.begin, b.end, rest, w[j..]);
    SequenceSplit(x, w, j);
  }

  /** A word cut at `j` into a word of each operand is a word of the `Sequence`. */
  lemma SequenceSplit(x: RxNode, w: seq<CodeUnit>, j: nat)
    requires x.Sequence? && j <= |w| && Matches(x.a, w[..j]) && Matches(x.b, w[j..])
    ensures Matches(x, w)
  {
  }

  /** Soundness of a `Sequence` fragment. */
  lemma SeqSound(s: seq<Node>, sa: seq<Node>, sb: seq<Node>, a: Nfa, b: Nfa, x: RxNode)
    requires x.Sequence?
    requires Extends(sa, s) && Extends(sb, s) && a.end < |sa|
    requires s[a.end].out == sa[a.end].out + [Edge(None, b.begin)]
    requires forall w :: Matches(x.a, w) ==> Accepts(sa, a.begin, a.end, w)
    requires forall w :: Matches(x.b, w) ==> Accepts(sb, b.begin, b.end, w)
    ensures forall w :: Matches(x, w) ==> Accepts(s, a.begin, b.end, w)
  {
    forall w | Matches(x, w) ensures Accepts(s, a.begin, b.end, w) {
      var k := SequenceCut(x.a, x.b, w);
      SeqSoundWord(s, sa, sb, a, b, w[..k], w[k..]);
      assert w[..k] + w[k..] == w;
    }
  }

  /** A word of `x.a` followed by a word of `x.b` is read across the joining epsilon edge. */
  lemma SeqSoundWord(s: seq<Node>, sa: seq<Node>, sb: seq<Node>, a: Nfa, b: Nfa, u: seq<CodeUnit>, v: seq<CodeUnit>)
    requires Extends(sa, s) && Extends(sb, s) && a.end < |sa|
    requires s[a.end].out == sa[a.end].out + [Edge(None, b.begin)]
    requires Accepts(sa, a.begin, a.end, u) && Accepts(sb, b.begin, b.end, v)
    ensures Accepts(s, a.begin, b.end, u + v)
  {
    var r1: seq<nat> :| IsRun(sa, a.begin, a.end, r1, u);
    var r2: seq<nat> :| IsRun(sb, b.begin, b.end, r2, v);
    RunExtends(sa, s, a.begin, a.end, r1, u);
    RunExtends(sb, s, b.begin, b.end, r2, v);
    EpsilonStep(s, a.end, |sa[a.end].out|, b.end, r2, v);
    RunConcat(s, a.begin, a.end, b.end, r1, u, [|sa[a.end].out|] + r2, v);
  }

  /** Joining two fragments with an epsilon edge from the end of the first to the begin of the second. */
  lemma SeqFragment(s0: seq<Node>, sa: seq<Node>, sb: seq<Node>, s: seq<Node>, a: Nfa, b: Nfa, x: RxNode)
    requires x.Sequence?
    requires IsFragment(s0, sa, a, x.a) && IsFragment(sa, sb, b, x.b)
    requires s == AddEdge(sb, a.end, Edge(None, b.begin))
    ensures IsFragment(s0, s, Nfa(a.begin, b.end), x)
  {
    assert forall n :: 0 <= n < |sa| ==> sb[n] == sa[n] by {
      forall n | 0 <= n < |sa| ensures sb[n] == sa[n] { assert sb[..|sa|][n] == sb[n]; }
    }
    assert s[..|s0|] == s0 by {
      assert forall n :: 0 <= n < |s0| ==> sa[..|s0|][n] == sa[n];
    }
    PrefixExtends(sa, sb);
    ExtendsTrans(sa, sb, s);
    SeqSound(s, sa, sb, a, b, x);
    SeqComplete(s, sa, sb, |s0|, a, b, x);
  }

  lemma {:induction false} OnceOrMoreCompleteRun(s: seq<Node>, sa: seq<Node>, lo: nat, a: Nfa, x: RxNode,
                                                 run: seq<nat>, w: seq<CodeUnit>)
    requires x.OnceOrMore? && lo <= |sa| == |s|
    requires ClosedRange(sa, lo, |sa|) && lo <= a.begin < |sa| && lo <= a.end < |sa|
    requires forall n :: lo <= n < |sa| && n != a.end ==> s[n].out == sa[n].out
    requires s[a.end].out == sa[a.end].out + [Edge(None, a.begin)]
    requires RunsMatch(sa, a, x.a)
    requires IsRun(s, a.begin, a.end, run, w)
    ensures Matches(x, w)
    decreases |run|
  {
    forall n | lo <= n < |sa| ensures sa[n].out <= s[n].out {
      if n == a.end { assert sa[n].out <= sa[n].out + [Edge(None, a.begin)]; }
    }
    var i, m, j := RunExit(s, sa, lo, |sa|, a.begin, a.end, run, w);
    if i == |run| {
      assert run[..i] == run && w[..j] == w;
    } else {
      assert run[i..][0] == run[i];
      assert m == a.end && run[i] == |sa[a.end].out|;
      assert run[i..][1..] == run[i + 1..];
      OnceOrMoreCompleteRun(s, sa, lo, a, x, run[i + 1..], w[j..]);
      OnceOrMoreCons(x.a, w[..j], w[j..]);
      assert w[..j] + w[j..] == w;
    }
  }

  /** Completeness of a `OnceOrMore` fragment: any number of trips round the back edge. */
  lemma OnceOrMoreComplete(s: seq<Node>, sa: seq<Node>, lo: nat, a: Nfa, x: RxNode)
    requires x.OnceOrMore? && lo <= |sa| == |s|
    requires ClosedRange(sa, lo, |sa|) && lo <= a.begin < |sa| && lo <= a.end < |sa|
    requires forall n :: lo <= n < |sa| && n != a.end ==> s[n].out == sa[n].out
    requires s[a.end].out == sa[a.end].out + [Edge(None, a.begin)]
    requires RunsMatch(sa, a, x.a)
    ensures RunsMatch(s, a, x)
  {
    forall run, w | IsRun(s, a.begin, a.end, run, w) ensures Matches(x, w) {
      OnceOrMoreCompleteRun(s, sa, lo, a, x, run, w);
    }
  }

  lemma {:induction false} OnceOrMoreSoundWord(s: seq<Node>, sa: seq<Node>, a: Nfa, x: RxNode, w: seq<CodeUnit>)
    requires x.OnceOrMore? && Extends(sa, s) && a.end < |sa|
    requires s[a.end].out == sa[a.end].out + [Edge(None, a.begin)]
    requires forall w :: Matches(x.a, w) ==> Accepts(sa, a.begin, a.end, w)
    requires Matches(x, w)
    ensures Accepts(s, a.begin, a.end, w)
    decreases |w|
  {
    if Matches(x.a, w) {
      var r: seq<nat> :| IsRun(sa, a.begin, a.end, r, w);
      RunExtends(sa, s, a.begin, a.end, r, w);
    } else {
      var k :| 1 <= k < |w| && Matches(x.a, w[..k]) && Matches(x, w[k..]);
      var r1: seq<nat> :| IsRun(sa, a.begin, a.end, r1, w[..k]);
      RunExtends(sa, s, a.begin, a.end, r1, w[..k]);
      OnceOrMoreSoundWord(s, sa, a, x, w[k..]);
      var r2: seq<nat> :| IsRun(s, a.begin, a.end, r2, w[k..]);
      EpsilonStep(s, a.end, |sa[a.end].out|, a.end, r2, w[k..]);
      RunConcat(s, a.begin, a.end, a.end, r1, w[..k], [|sa[a.end].out|] + r2, w[k..]);
      assert w[..k] + w[k..] == w;
    }
  }

  /** Soundness of a `OnceOrMore` fragment. */
  lemma OnceOrMoreSound(s: seq<Node>, sa: seq<Node>, a: Nfa, x: RxNode)
    requires x.OnceOrMore? && Extends(sa, s) && a.end < |sa|
    requires s[a.end].out == sa[a.end].out + [Edge(None, a.begin)]
    requires forall w :: Matches(x.a, w) ==> Accepts(sa, a.begin, a.end, w)
    ensures forall w :: Matches(x, w) ==> Accepts(s, a.begin, a.end, w)
  {
    forall w | Matches(x, w) ensures Accepts(s, a.begin, a.end, w) {
      OnceOrMoreSoundWord(s, sa, a, x, w);
    }
  }

  /** The four epsilon edges of `toNFA` on an `Alternative` turn the two branch fragments into one. */
  lemma AltFragment(s0: seq<Node>, s1: seq<Node>, sa: seq<Node>, sb: seq<Node>,
                    t1: seq<Node>, t2: seq<Node>, t3: seq<Node>, s: seq<Node>, a: Nfa, b: Nfa, x: RxNode)
    requires x.Alternative? && s1 == s0 + [Node([], {}), Node([], {})]
    requires IsFragment(s1, sa, a, x.a) && IsFragment(sa, sb, b, x.b)
    requires t1 == AddEdge(sb, |s0|, Edge(None, a.begin))
    requires t2 == AddEdge(t1, |s0|, Edge(None, b.begin))
    requires t3 == AddEdge(t2, a.end, Edge(None, |s0| + 1))
    requires s == AddEdge(t3, b.end, Edge(None, |s0| + 1))
    ensures IsFragment(s0, s, Nfa(|s0|, |s0| + 1), x)
    ensures AltShape(s, sa, sb, |s0|, a, b)
  {
    var lo, nfa := |s0|, Nfa(|s0|, |s0| + 1);
    AltStructure(s0, s1, sa, sb, t1, t2, t3, s, a, b, x);
    AltSound(s, sa, sb, lo, a, b, x, nfa);
    AltComplete(s, sa, sb, lo, a, b, x, nfa);
  }

  lemma AltStructure(s0: seq<Node>, s1: seq<Node>, sa: seq<Node>, sb: seq<Node>,
                     t1: seq<Node>, t2: seq<Node>, t3: seq<Node>, s: seq<Node>, a: Nfa, b: Nfa, x: RxNode)
    requires x.Alternative? && s1 == s0 + [Node([], {}), Node([], {})]
    requires FragmentShape(s1, sa, a, x.a) && FragmentShape(sa, sb, b, x.b)
    requires t1 == AddEdge(sb, |s0|, Edge(None, a.begin))
    requires t2 == AddEdge(t1, |s0|, Edge(None, b.begin))
    requires t3 == AddEdge(t2, a.end, Edge(None, |s0| + 1))
    requires s == AddEdge(t3, b.end, Edge(None, |s0| + 1))
    ensures AltShape(s, sa, sb, |s0|, a, b) && Extends(sa, s) && Extends(sb, s)
    ensures FragmentShape(s0, s, Nfa(|s0|, |s0| + 1), x)
  {
    var lo := |s0|;
    forall n | 0 <= n < |s1| ensures sa[n] == s1[n] { assert sa[..|s1|][n] == sa[n]; }
    forall n | 0 <= n < |sa| ensures sb[n] == sa[n] { assert sb[..|sa|][n] == sb[n]; }
    assert sb[lo] == Node([], {}) && sb[lo + 1] == Node([], {}) by {
      assert s1[lo] == Node([], {}) && s1[lo + 1] == Node([], {});
    }
    assert s[lo].out == [Edge(None, a.begin), Edge(None, b.begin)];
    forall n | 0 <= n < |sb| ensures sb[n].out <= s[n].out && sb[n].patternIds == s[n].patternIds {
    }
    assert Extends(sb, s);
    PrefixExtends(sa, sb);
    ExtendsTrans(sa, sb, s);
    assert s[..lo] == s0 by {
      forall n | 0 <= n < lo ensures s[n] == s0[n] { assert s1[n] == s0[n]; }
    }
    AltClosed(s0, s1, sa, sb, t1, t2, t3, s, a, b, x);
  }

  /** The nodes of an alternative fragment only point inside the fragment. */
  lemma AltClosed(s0: seq<Node>, s1: seq<Node>, sa: seq<Node>, sb: seq<Node>,
                  t1: seq<Node>, t2: seq<Node>, t3: seq<Node>, s: seq<Node>, a: Nfa, b: Nfa, x: RxNode)
    requires x.Alternative? && s1 == s0 + [Node([], {}), Node([], {})]
    requires FragmentShape(s1, sa, a, x.a) && FragmentShape(sa, sb, b, x.b)
    requires t1 == AddEdge(sb, |s0|, Edge(None, a.begin))
    requires t2 == AddEdge(t1, |s0|, Edge(None, b.begin))
    requires t3 == AddEdge(t2, a.end, Edge(None, |s0| + 1))
    requires s == AddEdge(t3, b.end, Edge(None, |s0| + 1))
    ensures ClosedRange(s, |s0|, |s|)
  {
    var lo := |s0|;
    forall n | 0 <= n < |s1| ensures sa[n] == s1[n] { assert sa[..|s1|][n] == sa[n]; }
    forall n | 0 <= n < |sa| ensures sb[n] == sa[n] { assert sb[..|sa|][n] == sb[n]; }
    assert sb[lo] == Node([], {}) && sb[lo + 1] == Node([], {}) by {
      assert s1[lo] == Node([], {}) && s1[lo + 1] == Node([], {});
    }
    forall n, k | lo <= n < |s| && 0 <= k < |s[n].out| ensures lo <= s[n].out[k].target < |s| {
      if lo + 2 <= n < |sa| {
        assert k < |sa[n].out| ==> s[n].out[k] == sa[n].out[k];
      } else if |sa| <= n {
        assert k < |sb[n].out| ==> s[n].out[k] == sb[n].out[k];
      }
    }
  }

  /**
   * Labelling a fragment whose pattern does not already use the id puts the
   * id on the end node and on no other fresh node.
   */
  lemma LabelOnEndOnly(s0: seq<Node>, sa: seq<Node>, s: seq<Node>, nfa: Nfa, x: RxNode)
    requires x.Labeled? && x.patternId !in Labels(x.a)
    requires IsFragment(s0, sa, nfa, x.a)
    requires s == sa[nfa.end := Node(sa[nfa.end].out, sa[nfa.end].patternIds + {x.patternId})]
    ensures forall n :: |s0| <= n < |s| ==> (x.patternId in s[n].patternIds <==> n == nfa.end)
  {
    forall n | |s0| <= n < |s| && n != nfa.end ensures x.patternId !in s[n].patternIds {
      assert sa[n].patternIds <= Labels(x.a);
    }
  }

  /** The arena of NFA nodes of one compilation. */
  class Arena {
    var nodes: seq<Node>

    constructor ()
      ensures nodes == []
    {
      nodes := [];
    }

    /** `new NFA.Node()`: a node with no edges and no pattern ids. */
    method NewNode() returns (n: nat)
      modifies this
      ensures n == |old(nodes)| && nodes == old(nodes) + [Node([], {})]
    {
      n := |nodes|;
      nodes := nodes + [Node([], {})];
    }

    /** `Node.transition(cc, dest)`: append an out-edge. */
    method Transition(from: nat, cc: Option<CharClass>, to: nat)
      requires from < |nodes|
      modifies this
      ensures nodes == AddEdge(old(nodes), from, Edge(cc, to))
    {
      nodes := nodes[from := Node(nodes[from].out + [Edge(cc, to)], nodes[from].patternIds)];
    }

    /** `node.patternIds.add(p)`. */
    method AddPatternId(n: nat, p: nat)
      requires n < |nodes|
      modifies this
      ensures nodes == old(nodes)[n := Node(old(nodes)[n].out, old(nodes)[n].patternIds + {p})]
    {
      nodes := nodes[n := Node(nodes[n].out, nodes[n].patternIds + {p})];
    }

    /** `toNFA(x)`: allocate the fragment of `x` in the arena. */
    method ToNfa(x: RxNode) returns (nfa: Nfa)
      modifies this
      ensures IsFragment(old(nodes), nodes, nfa, x)
      decreases x, 1
    {
      match x
      case Alternative(_, _) => nfa := BuildAlternative(x);
      case CharClassNode(cc) => nfa := BuildLeaf(Some(cc), x);
      case Empty => nfa := BuildLeaf(None, x);
      case OnceOrMore(_) => nfa := BuildOnceOrMore(x);
      case Sequence(_, _) => nfa := BuildSequence(x);
      case Labeled(_, _) => nfa := BuildLabeled(x);
    }

    /** `Empty` (an epsilon edge) and `CharacterClass` (an edge reading the class). */
    method BuildLeaf(cc: Option<CharClass>, x: RxNode) returns (nfa: Nfa)
      requires (x == Empty && cc == None) || (x.CharClassNode? && cc == Some(x.cc))
      modifies this
      ensures nodes == old(nodes) + [Node([Edge(cc, |old(nodes)| + 1)], {}), Node([], {})]
      ensures nfa == Nfa(|old(nodes)|, |old(nodes)| + 1)
      ensures IsFragment(old(nodes), nodes, nfa, x)
    {
      ghost var s0 := nodes;
      var begin := NewNode();
      var end := NewNode();
      ghost var s2 := nodes;
      assert s2 == s0 + [Node([], {}), Node([], {})];
      Transition(begin, cc, end);
      nfa := Nfa(begin, end);
      assert nodes == s0 + [Node([Edge(cc, |s0| + 1)], {}), Node([], {})] by {
        var r := s0 + [Node([Edge(cc, |s0| + 1)], {}), Node([], {})];
        assert s2[begin] == Node([], {});
        forall i | 0 <= i < |r| ensures nodes[i] == r[i] {
          if i < |s0| { assert nodes[i] == s2[i]; }
        }
      }
      assert nodes[end].out == [];
      forall w | Matches(x, w) ensures Accepts(nodes, begin, end, w) {
        assert IsRun(nodes, end, end, [], []);
        if cc.Some? {
          assert w == [w[0]] && IsRun(nodes, begin, end, [0], w);
        } else {
          assert IsRun(nodes, begin, end, [0], w);
        }
      }
      forall run, w | IsRun(nodes, begin, end, run, w) ensures Matches(x, w) {
        assert run[0] == 0;
        var w' := if cc.None? then w else w[1..];
        assert IsRun(nodes, end, end, run[1..], w');
        assert run[1..] == [] && w' == [];
      }
    }

    method BuildAlternative(x: RxNode) returns (nfa: Nfa)
      requires x.Alternative?
      modifies this
      ensures IsFragment(old(nodes), nodes, nfa, x)
      ensures nfa == Nfa(|old(nodes)|, |old(nodes)| + 1) && nodes[nfa.end].out == []
      ensures |nodes[nfa.begin].out| == 2 && nodes[nfa.begin].out[0].cc == None && nodes[nfa.begin].out[1].cc == None
      ensures exists sa: seq<Node>, sb: seq<Node>, a: Nfa, b: Nfa ::
        IsFragment(old(nodes) + [Node([], {}), Node([], {})], sa, a, x.a) && IsFragment(sa, sb, b, x.b) &&
        AltShape(nodes, sa, sb, |old(nodes)|, a, b)
      decreases x, 0
    {
      ghost var s0 := nodes;
      var begin := NewNode();
      var end := NewNode();
      ghost var s1 := nodes;
      var a := ToNfa(x.a);
      ghost var sa := nodes;
      var b := ToNfa(x.b);
      ghost var sb := nodes;
      Transition(begin, None, a.begin);
      ghost var t1 := nodes;
      Transition(begin, None, b.begin);
      ghost var t2 := nodes;
      Transition(a.end, None, end);
      ghost var t3 := nodes;
      Transition(b.end, None, end);
      nfa := Nfa(begin, end);
      AltFragment(s0, s1, sa, sb, t1, t2, t3, nodes, a, b, x);
      assert IsFragment(s1, sa, a, x.a) && IsFragment(sa, sb, b, x.b) && AltShape(nodes, sa, sb, |s0|, a, b);
    }

    method BuildSequence(x: RxNode) returns (nfa: Nfa)
      requires x.Sequence?
      modifies this
      ensures IsFragment(old(nodes), nodes, nfa, x)
      ensures exists sa: seq<Node>, sb: seq<Node>, a: Nfa, b: Nfa ::
        IsFragment(old(nodes), sa, a, x.a) && IsFragment(sa, sb, b, x.b) &&
        nfa == Nfa(a.begin, b.end) && nodes == AddEdge(sb, a.end, Edge(None, b.begin))
      decreases x, 0
    {
      ghost var s0 := nodes;
      var a := ToNfa(x.a);
      ghost var sa := nodes;
      var b := ToNfa(x.b);
      ghost var sb := nodes;
      nfa := Nfa(a.begin, b.end);
      Transition(a.end, None, b.begin);
      SeqFragment(s0, sa, sb, nodes, a, b, x);
      assert IsFragment(s0, sa, a, x.a) && IsFragment(sa, sb, b, x.b);
    }

    method BuildOnceOrMore(x: RxNode) returns (nfa: Nfa)
      requires x.OnceOrMore?
      modifies this
      ensures IsFragment(old(nodes), nodes, nfa, x)
      ensures |nodes[nfa.end].out| > 0 && nodes[nfa.end].out[|nodes[nfa.end].out| - 1] == Edge(None, nfa.begin)
      ensures exists sa: seq<Node> :: IsFragment(old(nodes), sa, nfa, x.a) && nodes == AddEdge(sa, nfa.end, Edge(None, nfa.begin))
      decreases x, 0
    {
      ghost var s0 := nodes;
      nfa := ToNfa(x.a);
      ghost var sa := nodes;
      Transition(nfa.end, None, nfa.begin);
      OnceOrMoreSound(nodes, sa, nfa, x);
      OnceOrMoreComplete(nodes, sa, |s0|, nfa, x);
      assert IsFragment(s0, sa, nfa, x.a);
    }

    method BuildLabeled(x: RxNode) returns (nfa: Nfa)
      requires x.Labeled?
      modifies this
      ensures IsFragment(old(nodes), nodes, nfa, x)
      // the pattern id lands on the end node and nowhere else
      ensures exists sa: seq<Node> ::
        IsFragment(old(nodes), sa, nfa, x.a) &&
        nodes == sa[nfa.end := Node(sa[nfa.end].out, sa[nfa.end].patternIds + {x.patternId})]
      decreases x, 0
    {
      ghost var s0 := nodes;
      nfa := ToNfa(x.a);
      ghost var sa := nodes;
      AddPatternId(nfa.end, x.patternId);
      forall run, w | IsRun(nodes, nfa.begin, nfa.end, run, w) ensures Matches(x, w) {
        RunStays(nodes, sa, |s0|, |sa|, nfa.begin, nfa.end, run, w);
      }
      forall w | Matches(x, w) ensures Accepts(nodes, nfa.begin, nfa.end, w) {
        assert Matches(x.a, w);
        var r: seq<nat> :| IsRun(sa, nfa.begin, nfa.end, r, w);
        RunExtends(sa, nodes, nfa.begin, nfa.end, r, w);
      }
      assert IsFragment(s0, sa, nfa, x.a);
    }
  }
}
