/**
 * `RegexCompiler.compileToDFA` and `compileToBiDFA`: label each pattern,
 * join the patterns into one alternative, and build its automaton; the
 * bidirectional form frames every pattern to match anywhere for the forward
 * automaton and reverses it for the backward one.
 */
module Compiler {
  import opened Wrappers
  import opened Regex
  import opened Reversal
  import opened Nfa
  import opened Thompson
  import opened EClosure
  import opened Determinize

  datatype CompileError = EmptyPatternList

  /** `Alternative(...Alternative(Labeled(p0, 0), Labeled(p1, 1))..., Labeled(p(n-1), n-1))`. */
  function LabeledFold(roots: seq<RxNode>, n: nat): RxNode
    requires 0 < n <= |roots|
  {
    if n == 1 then Labeled(roots[0], 0)
    else Alternative(LabeledFold(roots, n - 1), Labeled(roots[n - 1], n - 1))
  }

  /** The joined pattern matches exactly the words of some pattern. */
  lemma {:induction false} LabeledFoldMatches(roots: seq<RxNode>, n: nat, w: seq<CodeUnit>)
    requires 0 < n <= |roots|
    ensures Matches(LabeledFold(roots, n), w) <==> exists i :: 0 <= i < n && Matches(roots[i], w)
  {
    if n > 1 {
      LabeledFoldMatches(roots, n - 1, w);
    }
  }

  /** The pattern ids of the pattern `i < n` occurring inside them. */
  ghost function InnerLabels(roots: seq<RxNode>, n: nat): set<nat>
    requires n <= |roots|
  {
    set i, p | 0 <= i < n && p in Labels(roots[i]) :: p
  }

  /** The joined pattern carries the ids `0..n-1` and those already inside the patterns. */
  lemma {:induction false} LabeledFoldLabels(roots: seq<RxNode>, n: nat)
    requires 0 < n <= |roots|
    ensures forall p: nat :: p in Labels(LabeledFold(roots, n)) <==> p < n || p in InnerLabels(roots, n)
  {
    if n > 1 {
      LabeledFoldLabels(roots, n - 1);
      assert InnerLabels(roots, n) == InnerLabels(roots, n - 1) + Labels(roots[n - 1]);
    } else {
      assert InnerLabels(roots, 1) == Labels(roots[0]);
      assert LabeledFold(roots, 1) == Labeled(roots[0], 0);

    }
  }

  /** The first two loops of `compileToDFA`: wrap each pattern in its label and fold the labelled patterns. */
  method Combine(roots: seq<RxNode>) returns (r: Result<RxNode, CompileError>)
    ensures r.Err? <==> roots == []
    ensures r.Ok? ==> r.value == LabeledFold(roots, |roots|)
  {
    if roots == [] {
      return Err(EmptyPatternList);
    }
    var labeled: seq<RxNode> := [];
    for i := 0 to |roots|
      invariant |labeled| == i
      invariant forall j :: 0 <= j < i ==> labeled[j] == Labeled(roots[j], j)
    {
      labeled := labeled + [Labeled(roots[i], i)];
    }
    var alt := labeled[0];
    for i := 1 to |roots|
      invariant alt == LabeledFold(roots, i)
    {
      alt := Alternative(alt, labeled[i]);
    }
    return Ok(alt);
  }

  lemma FragmentWellFormed(nodes: seq<Node>, nfa: Nfa, x: RxNode)
    requires IsFragment([], nodes, nfa, x)
    ensures WellFormed(nodes) && nfa.begin < |nodes|
  {
  }

  /**
   * `compileToDFA(rxNodes)`: an error for an empty list; otherwise the
   * automaton of the Thompson NFA of the joined pattern.
   */
  method CompileToDfa(roots: seq<RxNode>) returns (r: Result<Dfa, CompileError>)
    ensures r.Err? <==> roots == []
    ensures r.Ok? ==> fresh(r.value) && r.value.Valid() && r.value.transfer == map[]
    ensures r.Ok? ==> IsFragment([], r.value.nodes, r.value.nfa, LabeledFold(roots, |roots|))
    ensures r.Ok? ==> IsEClosure(r.value.nodes, r.value.nfa.begin, r.value.macro, r.value.contents)
    ensures r.Ok? ==> forall i :: 0 <= i < |r.value.basis| ==> r.value.basis[i] == PatternUnion(r.value.nodes, r.value.contents[i])
  {
    var alt := Combine(roots);
    if alt.Err? {
      return Err(alt.error);
    }
    var arena := new Arena();
    var nfa := arena.ToNfa(alt.value);
    FragmentWellFormed(arena.nodes, nfa, alt.value);
    var dfa := new Dfa(arena.nodes, nfa, |roots|);
    return Ok(dfa);
  }

  /** `Sequence(dotStar, Sequence(root, dotStar))`: the forward framing of a pattern. */
  function Anywhere(root: RxNode): RxNode
  {
    Sequence(DotStar, Sequence(root, DotStar))
  }

  /** `Sequence(reverse(root), dotStar)`: the backward framing of a pattern. */
  function ReversedPrefix(root: RxNode): RxNode
  {
    Sequence(Reverse(root), DotStar)
  }

  lemma {:induction false} AnyPlus(w: seq<CodeUnit>)
    requires |w| > 0
    ensures Matches(OnceOrMore(CharClassNode(AnyChar)), w)
    decreases |w|
  {
    if |w| > 1 {
      AnyPlus(w[1..]);
      assert Matches(CharClassNode(AnyChar), w[..1]);
    }
  }

  /** `dotStar` matches every word. */
  lemma DotStarAll(w: seq<CodeUnit>)
    ensures Matches(DotStar, w)
  {
    if |w| > 0 {
      AnyPlus(w);
    }
  }

  lemma AnywhereSound(root: RxNode, w: seq<CodeUnit>)
    requires Matches(Anywhere(root), w)
    ensures exists i, j :: 0 <= i <= j <= |w| && Matches(root, w[i..j])
  {
    var i := SequenceCut(DotStar, Sequence(root, DotStar), w);
    var v := w[i..];
    var k := SequenceCut(root, DotStar, v);
    assert v[..k] == w[i..i + k];
  }

  lemma AnywhereComplete(root: RxNode, w: seq<CodeUnit>, i: nat, j: nat)
    requires 0 <= i <= j <= |w| && Matches(root, w[i..j])
    ensures Matches(Anywhere(root), w)
  {
    var v := w[i..];
    assert v[..j - i] == w[i..j];
    DotStarAll(v[j - i..]);
    assert Matches(Sequence(root, DotStar), v);
    DotStarAll(w[..i]);
  }

  /** The forward framing matches the texts that contain a word of the pattern. */
  lemma AnywhereLanguage(root: RxNode, w: seq<CodeUnit>)
    ensures Matches(Anywhere(root), w) <==> exists i, j :: 0 <= i <= j <= |w| && Matches(root, w[i..j])
  {
    if Matches(Anywhere(root), w) {
      AnywhereSound(root, w);
    }
    if exists i, j :: 0 <= i <= j <= |w| && Matches(root, w[i..j]) {
      var i, j :| 0 <= i <= j <= |w| && Matches(root, w[i..j]);
      AnywhereComplete(root, w, i, j);
    }
  }

  /**
   * The backward framing, fed a text read from its end (`w`), matches when
   * some prefix of `w`, put back in text order, is a word of the pattern.
   */
  lemma ReversedPrefixLanguage(root: RxNode, w: seq<CodeUnit>)
    ensures Matches(ReversedPrefix(root), w) <==> exists j :: 0 <= j <= |w| && Matches(root, Rev(w[..j]))
  {
    if Matches(ReversedPrefix(root), w) {
      var j := ReversedPrefixSound(root, w);
    }
    if exists j :: 0 <= j <= |w| && Matches(root, Rev(w[..j])) {
      var j :| 0 <= j <= |w| && Matches(root, Rev(w[..j]));
      ReversedPrefixComplete(root, w, j);
    }
  }

  /** A backward match ends with a prefix that, put back in text order, is a word of the pattern. */
  lemma ReversedPrefixSound(root: RxNode, w: seq<CodeUnit>) returns (j: nat)
    requires Matches(ReversedPrefix(root), w)
    ensures j <= |w| && Matches(root, Rev(w[..j]))
  {
    j := SequenceCut(Reverse(root), DotStar, w);
    ReverseLanguage(root, Rev(w[..j]));
    RevRev(w[..j]);
  }

  /** A prefix whose reversal is a word of the pattern makes a backward match of the whole input. */
  lemma ReversedPrefixComplete(root: RxNode, w: seq<CodeUnit>, j: nat)
    requires j <= |w| && Matches(root, Rev(w[..j]))
    ensures Matches(ReversedPrefix(root), w)
  {
    ReverseLanguage(root, Rev(w[..j]));
    RevRev(w[..j]);
    DotStarAll(w[j..]);
    assert w[..j] + w[j..] == w;
  }

  /** The loop of `compileToBiDFA` that frames every pattern both ways. */
  method Frame(roots: seq<RxNode>) returns (anywhere: seq<RxNode>, reversed: seq<RxNode>)
    ensures |anywhere| == |reversed| == |roots|
    ensures forall i :: 0 <= i < |roots| ==> anywhere[i] == Anywhere(roots[i]) && reversed[i] == ReversedPrefix(roots[i])
  {
    anywhere, reversed := [], [];
    for i := 0 to |roots|
      invariant |anywhere| == |reversed| == i
      invariant forall j :: 0 <= j < i ==> anywhere[j] == Anywhere(roots[j]) && reversed[j] == ReversedPrefix(roots[j])
    {
      var dotStar := Alternative(Empty, OnceOrMore(CharClassNode(AnyChar)));
      anywhere := anywhere + [Sequence(dotStar, Sequence(roots[i], dotStar))];
      reversed := reversed + [Sequence(Reverse(roots[i]), dotStar)];
    }
  }

  /** `compileToBiDFA(roots)`: the forward automaton of the framed patterns and the automaton of the reversed ones. */
  method CompileToBiDfa(roots: seq<RxNode>) returns (r: Result<(Dfa, Dfa), CompileError>)
    ensures r.Err? <==> roots == []
    ensures r.Ok? ==> fresh(r.value.0) && fresh(r.value.1) && r.value.0.Valid() && r.value.1.Valid()
    ensures r.Ok? ==> exists anywhere: seq<RxNode> ::
      |anywhere| == |roots| && (forall i :: 0 <= i < |roots| ==> anywhere[i] == Anywhere(roots[i])) &&
      IsFragment([], r.value.0.nodes, r.value.0.nfa, LabeledFold(anywhere, |roots|))
    ensures r.Ok? ==> exists reversed: seq<RxNode> ::
      |reversed| == |roots| && (forall i :: 0 <= i < |roots| ==> reversed[i] == ReversedPrefix(roots[i])) &&
      IsFragment([], r.value.1.nodes, r.value.1.nfa, LabeledFold(reversed, |roots|))
    ensures r.Ok? ==> IsEClosure(r.value.0.nodes, r.value.0.nfa.begin, r.value.0.macro, r.value.0.contents)
    ensures r.Ok? ==> IsEClosure(r.value.1.nodes, r.value.1.nfa.begin, r.value.1.macro, r.value.1.contents)
    ensures r.Ok? ==> forall i :: 0 <= i < |r.value.0.basis| ==> r.value.0.basis[i] == PatternUnion(r.value.0.nodes, r.value.0.contents[i])
    ensures r.Ok? ==> forall i :: 0 <= i < |r.value.1.basis| ==> r.value.1.basis[i] == PatternUnion(r.value.1.nodes, r.value.1.contents[i])
  {
    var anywhere, reversed := Frame(roots);
    var forward := CompileToDfa(anywhere);
    var backward := CompileToDfa(reversed);
    if forward.Err? || backward.Err? {
      return Err(EmptyPatternList);
    }
    return Ok((forward.value, backward.value));
  }
}
