/**
 * The pattern AST (`RxNode` and its subclasses) and its character classes,
 * together with the language of a pattern, which the rest of the model uses
 * to state what the compiler's transformations preserve.
 */
module Regex {

  /** A Java `char`: one UTF-16 code unit. */
  type CodeUnit = c: int | 0 <= c < 0x1_0000

  /** The largest code unit, `Character.MAX_VALUE`. */
  const MaxCodeUnit: CodeUnit := 0xFFFF

  /**
   * A character class: `CharacterClass.oneOf(s)` accepts exactly the code
   * units of `s`; `CharacterClass.ANY_CHAR` accepts every code unit.
   */
  datatype CharClass = OneOf(members: set<CodeUnit>) | AnyChar

  predicate AcceptsChar(cc: CharClass, c: CodeUnit)
  {
    match cc
    case OneOf(members) => c in members
    case AnyChar => true
  }

  /** The pattern AST consumed by the compiler. */
  datatype RxNode =
    | Empty
    | CharClassNode(cc: CharClass)
    | Sequence(a: RxNode, b: RxNode)
    | Alternative(a: RxNode, b: RxNode)
    | OnceOrMore(a: RxNode)
    | Labeled(a: RxNode, patternId: nat)

  /** `new Alternative(new Empty(), new OnceOrMore(CharacterClass.ANY_CHAR))`: zero or more of anything. */
  const DotStar: RxNode := Alternative(Empty, OnceOrMore(CharClassNode(AnyChar)))

  /** The pattern ids that occur in a pattern. */
  function Labels(x: RxNode): set<nat>
  {
    match x
    case Empty => {}
    case CharClassNode(_) => {}
    case Sequence(a, b) => Labels(a) + Labels(b)
    case Alternative(a, b) => Labels(a) + Labels(b)
    case OnceOrMore(a) => Labels(a)
    case Labeled(a, p) => Labels(a) + {p}
  }

  /**
   * The language of a pattern: `Matches(x, w)` holds when the whole of `w`
   * is a word of `x`. A one-or-more loop is a non-empty first iteration
   * followed by the rest, or a single iteration.
   */
  ghost predicate Matches(x: RxNode, w: seq<CodeUnit>)
    decreases x, |w|
  {
    match x
    case Empty => w == []
    case CharClassNode(cc) => |w| == 1 && AcceptsChar(cc, w[0])
    case Sequence(a, b) => exists k :: 0 <= k <= |w| && Matches(a, w[..k]) && Matches(b, w[k..])
    case Alternative(a, b) => Matches(a, w) || Matches(b, w)
    case OnceOrMore(a) =>
      Matches(a, w) || exists k :: 1 <= k < |w| && Matches(a, w[..k]) && Matches(OnceOrMore(a), w[k..])
    case Labeled(a, _) => Matches(a, w)
  }

  /** A word of a `Sequence`, cut where its operands meet. */
  lemma SequenceCut(a: RxNode, b: RxNode, w: seq<CodeUnit>) returns (k: nat)
    requires Matches(Sequence(a, b), w)
    ensures k <= |w| && Matches(a, w[..k]) && Matches(b, w[k..])
  {
    k :| k <= |w| && Matches(a, w[..k]) && Matches(b, w[k..]);
  }

  /** One more iteration in front of a one-or-more loop stays in its language. */
  lemma OnceOrMoreCons(a: RxNode, u: seq<CodeUnit>, v: seq<CodeUnit>)
    requires Matches(a, u) && Matches(OnceOrMore(a), v)
    ensures Matches(OnceOrMore(a), u + v)
  {
    if u == [] {
      assert u + v == v;
    } else if v == [] {
      assert u + v == u;
    } else {
      var w := u + v;
      assert w[..|u|] == u && w[|u|..] == v;
    }
  }

  /** One more iteration behind a one-or-more loop stays in its language. */
  lemma {:induction false} OnceOrMoreSnoc(a: RxNode, u: seq<CodeUnit>, v: seq<CodeUnit>)
    requires Matches(OnceOrMore(a), u) && Matches(a, v)
    ensures Matches(OnceOrMore(a), u + v)
    decreases |u|
  {
    if Matches(a, u) {
      OnceOrMoreCons(a, u, v);
      assert Matches(OnceOrMore(a), v);
    } else {
      var k :| 1 <= k < |u| && Matches(a, u[..k]) && Matches(OnceOrMore(a), u[k..]);
      OnceOrMoreSnoc(a, u[k..], v);
      assert (u + v)[..k] == u[..k] && (u + v)[k..] == u[k..] + v;
      OnceOrMoreCons(a, u[..k], u[k..] + v);
    }
  }
}
