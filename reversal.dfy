/**
 * `RegexCompiler.reverse`: the structural transform used to build the
 * automaton that reads a pattern backwards.
 */
module Reversal {
  import opened Regex

  /** Only `Sequence` swaps its operands; every other node is rebuilt in place. */
  function Reverse(x: RxNode): RxNode
  {
    match x
    case Empty => x
    case CharClassNode(_) => x
    case Sequence(a, b) => Sequence(Reverse(b), Reverse(a))
    case Alternative(a, b) => Alternative(Reverse(a), Reverse(b))
    case OnceOrMore(a) => OnceOrMore(Reverse(a))
    case Labeled(a, p) => Labeled(Reverse(a), p)
  }

  /** The mirror image of a word. */
  function Rev(w: seq<CodeUnit>): (r: seq<CodeUnit>)
    ensures |r| == |w|
  {
    if w == [] then [] else Rev(w[1..]) + [w[0]]
  }

  lemma {:induction false} RevConcat(u: seq<CodeUnit>, v: seq<CodeUnit>)
    ensures Rev(u + v) == Rev(v) + Rev(u)
    decreases |u|
  {
    if u == [] {
      assert u + v == v;
    } else {
      assert (u + v)[1..] == u[1..] + v;
      RevConcat(u[1..], v);
    }
  }

  lemma {:induction false} RevRev(w: seq<CodeUnit>)
    ensures Rev(Rev(w)) == w
    decreases |w|
  {
    if w != [] {
      RevConcat(Rev(w[1..]), [w[0]]);
      RevRev(w[1..]);
    }
  }

  /** Reversal is an involution: `reverse(reverse(x)) == x`. */
  lemma {:induction false} ReverseInvolutive(x: RxNode)
    ensures Reverse(Reverse(x)) == x
  {
    match x
    case Empty =>
    case CharClassNode(_) =>
    case Sequence(a, b) => ReverseInvolutive(a); ReverseInvolutive(b);
    case Alternative(a, b) => ReverseInvolutive(a); ReverseInvolutive(b);
    case OnceOrMore(a) => ReverseInvolutive(a);
    case Labeled(a, _) => ReverseInvolutive(a);
  }

  /** Reversal keeps every pattern id. */
  lemma {:induction false} ReverseLabels(x: RxNode)
    ensures Labels(Reverse(x)) == Labels(x)
  {
    match x
    case Empty =>
    case CharClassNode(_) =>
    case Sequence(a, b) => ReverseLabels(a); ReverseLabels(b);
    case Alternative(a, b) => ReverseLabels(a); ReverseLabels(b);
    case OnceOrMore(a) => ReverseLabels(a);
    case Labeled(a, _) => ReverseLabels(a);
  }

  /** Cutting a word at `k` cuts its mirror image at `|w| - k`, the two pieces swapped. */
  lemma RevCut(w: seq<CodeUnit>, k: nat)
    requires k <= |w|
    ensures Rev(w) == Rev(w[k..]) + Rev(w[..k])
  {
    assert w == w[..k] + w[k..];
    RevConcat(w[..k], w[k..]);
  }

  /** Mirrored operands of a cut word make a word of the swapped `Sequence`. */
  lemma SequenceMirror(a: RxNode, b: RxNode, w: seq<CodeUnit>, k: nat)
    requires k <= |w| && Matches(b, Rev(w[k..])) && Matches(a, Rev(w[..k]))
    ensures Matches(Sequence(b, a), Rev(w))
  {
    RevCut(w, k);
    var r := Rev(w);
    var k' := |w| - k;
    assert r[..k'] == Rev(w[k..]) && r[k'..] == Rev(w[..k]);
  }

  /** A mirrored first iteration goes behind the mirrored rest of a one-or-more loop. */
  lemma OnceOrMoreMirror(a: RxNode, w: seq<CodeUnit>, k: nat)
    requires k <= |w| && Matches(a, Rev(w[..k])) && Matches(OnceOrMore(a), Rev(w[k..]))
    ensures Matches(OnceOrMore(a), Rev(w))
  {
    OnceOrMoreSnoc(a, Rev(w[k..]), Rev(w[..k]));
    RevCut(w, k);
  }

  lemma {:induction false} ReverseMatchesForward(x: RxNode, w: seq<CodeUnit>)
    requires Matches(x, w)
    ensures Matches(Reverse(x), Rev(w))
    decreases x, |w|
  {
    match x
    case Empty =>
    case CharClassNode(_) =>
      assert Rev(w) == w;
    case Sequence(a, b) =>
      var k :| 0 <= k <= |w| && Matches(a, w[..k]) && Matches(b, w[k..]);
      ReverseMatchesForward(a, w[..k]);
      ReverseMatchesForward(b, w[k..]);
      SequenceMirror(Reverse(a), Reverse(b), w, k);
    case Alternative(a, b) =>
      if Matches(a, w) { ReverseMatchesForward(a, w); } else { ReverseMatchesForward(b, w); }
    case OnceOrMore(a) =>
      if Matches(a, w) {
        ReverseMatchesForward(a, w);
      } else {
        var k :| 1 <= k < |w| && Matches(a, w[..k]) && Matches(OnceOrMore(a), w[k..]);
        ReverseMatchesForward(a, w[..k]);
        ReverseMatchesForward(x, w[k..]);
        OnceOrMoreMirror(Reverse(a), w, k);
      }
    case Labeled(a, _) =>
      ReverseMatchesForward(a, w);
  }

  /**
   * The reversed pattern recognises exactly the mirror images of the words
   * of the original one.
   */
  lemma ReverseLanguage(x: RxNode, w: seq<CodeUnit>)
    ensures Matches(Reverse(x), Rev(w)) <==> Matches(x, w)
  {
    if Matches(x, w) {
      ReverseMatchesForward(x, w);
    }
    if Matches(Reverse(x), Rev(w)) {
      ReverseMatchesForward(Reverse(x), Rev(w));
      ReverseInvolutive(x);
      RevRev(w);
    }
  }
}
