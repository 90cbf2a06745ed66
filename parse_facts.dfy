/**
 * What `RegexParser` promises about its input, stated on the functions of
 * `Grammar`: where a top-level parse stops, that it never looks past the
 * character it stops at, and the shapes it builds for alternation,
 * juxtaposition, the postfix operators, groups, classes and escapes.
 */
module ParseFacts {
  import opened Wrappers
  import opened Regex
  import opened Grammar

  /** A sequence stops before a `|`, before a `)`, or at the end of the text. */
  lemma {:induction false} SequenceStops(s: seq<CodeUnit>, pos: nat)
    requires pos <= |s| && SequenceAt(s, pos).Ok?
    ensures var p := SequenceAt(s, pos).value.1; p == |s| || s[p] == Bar || s[p] == RParen
    decreases |s| - pos
  {
    if PeekAt(s, pos) != Some(Bar) && PeekAt(s, pos) != Some(RParen) {
      var p := UnaryAt(s, pos).value.1;
      if PeekAt(s, p) != Some(Bar) && PeekAt(s, p) != Some(RParen) && PeekAt(s, p) != None {
        SequenceStops(s, p);
      }
    }
  }

  /** An alternation stops before a `)` or at the end of the text. */
  lemma {:induction false} AltStops(s: seq<CodeUnit>, pos: nat)
    requires pos <= |s| && AltAt(s, pos).Ok?
    ensures var p := AltAt(s, pos).value.1; p == |s| || s[p] == RParen
    decreases |s| - pos
  {
    SequenceStops(s, pos);
    var p := SequenceAt(s, pos).value.1;
    if PeekAt(s, p) == Some(Bar) {
      AltStops(s, p + 1);
    }
  }

  /** `s` and `t` both extend past `hi` and agree on the positions `lo..hi`. */
  ghost predicate Agree(s: seq<CodeUnit>, t: seq<CodeUnit>, lo: nat, hi: nat)
  {
    lo <= hi < |s| && hi < |t| && forall i :: lo <= i <= hi ==> s[i] == t[i]
  }

  lemma AgreeShrink(s: seq<CodeUnit>, t: seq<CodeUnit>, lo: nat, hi: nat, lo': nat, hi': nat)
    requires Agree(s, t, lo, hi) && lo <= lo' <= hi' <= hi
    ensures Agree(s, t, lo', hi')
  {
  }

  /** `parseChar` reads nothing after the position it stops at. */
  lemma CharLocal(s: seq<CodeUnit>, t: seq<CodeUnit>, pos: nat)
    requires pos <= |s| && Agree(s, t, pos, CharAt(s, pos).1)
    ensures CharAt(t, pos) == CharAt(s, pos)
  {
  }

  /** The postfix loop reads nothing after the position it stops at. */
  lemma {:induction false} PostfixLocal(s: seq<CodeUnit>, t: seq<CodeUnit>, pos: nat, a: RxNode)
    requires pos <= |s| && Agree(s, t, pos, PostfixAt(s, pos, a).1)
    ensures PostfixAt(t, pos, a) == PostfixAt(s, pos, a)
    decreases |s| - pos
  {
    var p := PostfixAt(s, pos, a).1;
    if s[pos] == Plus {
      AgreeShrink(s, t, pos, p, pos + 1, p);
      PostfixLocal(s, t, pos + 1, OnceOrMore(a));
    } else if s[pos] == Question {
      AgreeShrink(s, t, pos, p, pos + 1, p);
      PostfixLocal(s, t, pos + 1, Alternative(Empty, a));
    } else if s[pos] == Star {
      AgreeShrink(s, t, pos, p, pos + 1, p);
      PostfixLocal(s, t, pos + 1, Alternative(Empty, OnceOrMore(a)));
    }
  }

  /** The class loop reads nothing after the position it stops at. */
  lemma {:induction false} RangeLocal(s: seq<CodeUnit>, t: seq<CodeUnit>, pos: nat,
                                      last: Option<CodeUnit>, acc: set<CodeUnit>)
    requires pos <= |s| && RangeAt(s, pos, last, acc).Ok?
    requires Agree(s, t, pos, RangeAt(s, pos, last, acc).value.1)
    ensures RangeAt(t, pos, last, acc) == RangeAt(s, pos, last, acc)
    decreases |s| - pos
  {
    var q := RangeAt(s, pos, last, acc).value.1;
    if s[pos] != RBracket {
      var (c, p1) := CharAt(s, pos);
      AgreeShrink(s, t, pos, q, pos, p1);
      CharLocal(s, t, pos);
      if c == Some(Dash) && last.Some? {
        var (hi, p2) := CharAt(s, p1);
        AgreeShrink(s, t, pos, q, p1, p2);
        CharLocal(s, t, p1);
        AgreeShrink(s, t, pos, q, p2, q);
        RangeLocal(s, t, p2, hi, acc + Span(last.value, hi.value));
      } else {
        AgreeShrink(s, t, pos, q, p1, q);
        RangeLocal(s, t, p1, c, acc + (if c.Some? then {c.value} else NullText));
      }
    }
  }

  /** An alternation reads nothing after the position it stops at. */
  lemma {:induction false} AltLocal(s: seq<CodeUnit>, t: seq<CodeUnit>, pos: nat)
    requires pos <= |s| && AltAt(s, pos).Ok? && Agree(s, t, pos, AltAt(s, pos).value.1)
    ensures AltAt(t, pos) == AltAt(s, pos)
    decreases |s| - pos, 4
  {
    var q := AltAt(s, pos).value.1;
    var p := SequenceAt(s, pos).value.1;
    AgreeShrink(s, t, pos, q, pos, p);
    SeqLocal(s, t, pos);
    if PeekAt(s, p) == Some(Bar) {
      AgreeShrink(s, t, pos, q, p + 1, q);
      AltLocal(s, t, p + 1);
    }
  }

  /** A sequence reads nothing after the position it stops at. */
  lemma {:induction false} SeqLocal(s: seq<CodeUnit>, t: seq<CodeUnit>, pos: nat)
    requires pos <= |s| && SequenceAt(s, pos).Ok? && Agree(s, t, pos, SequenceAt(s, pos).value.1)
    ensures SequenceAt(t, pos) == SequenceAt(s, pos)
    decreases |s| - pos, 3
  {
    if PeekAt(s, pos) != Some(Bar) && PeekAt(s, pos) != Some(RParen) {
      var q := SequenceAt(s, pos).value.1;
      var p := UnaryAt(s, pos).value.1;
      AgreeShrink(s, t, pos, q, pos, p);
      UnaryLocal(s, t, pos);
      if PeekAt(s, p) != Some(Bar) && PeekAt(s, p) != Some(RParen) && PeekAt(s, p) != None {
        AgreeShrink(s, t, pos, q, p, q);
        SeqLocal(s, t, p);
      }
    }
  }

  /** A unary term reads nothing after the position it stops at. */
  lemma {:induction false} UnaryLocal(s: seq<CodeUnit>, t: seq<CodeUnit>, pos: nat)
    requires pos <= |s| && UnaryAt(s, pos).Ok? && Agree(s, t, pos, UnaryAt(s, pos).value.1)
    ensures UnaryAt(t, pos) == UnaryAt(s, pos)
    decreases |s| - pos, 2
  {
    var q := UnaryAt(s, pos).value.1;
    var (a, p) := AtomAt(s, pos).value;
    AgreeShrink(s, t, pos, q, pos, p);
    AtomLocal(s, t, pos);
    AgreeShrink(s, t, pos, q, p, q);
    PostfixLocal(s, t, p, a);
  }

  /** An atom reads nothing after the position it stops at. */
  lemma {:induction false} AtomLocal(s: seq<CodeUnit>, t: seq<CodeUnit>, pos: nat)
    requires pos <= |s| && AtomAt(s, pos).Ok? && Agree(s, t, pos, AtomAt(s, pos).value.1)
    ensures AtomAt(t, pos) == AtomAt(s, pos)
    decreases |s| - pos, 1
  {
    var q := AtomAt(s, pos).value.1;
    if s[pos] == LParen {
      AgreeShrink(s, t, pos, q, pos + 1, q);
      ParenLocal(s, t, pos + 1);
    } else if s[pos] == LBracket {
      AgreeShrink(s, t, pos, q, pos + 1, q);
      RangeLocal(s, t, pos + 1, None, {});
    } else {
      CharLocal(s, t, pos);
    }
  }

  /** A group reads nothing after the position it stops at. */
  lemma {:induction false} ParenLocal(s: seq<CodeUnit>, t: seq<CodeUnit>, pos: nat)
    requires pos <= |s| && ParenAt(s, pos).Ok? && Agree(s, t, pos, ParenAt(s, pos).value.1)
    ensures ParenAt(t, pos) == ParenAt(s, pos)
    decreases |s| - pos, 5
  {
    var q := ParenAt(s, pos).value.1;
    var p := AltAt(s, pos).value.1;
    AgreeShrink(s, t, pos, q, pos, p);
    AltLocal(s, t, pos);
  }

  /**
   * A top-level parse that stops before the end stops at a `)`, and
   * whatever follows that `)` never changes the result.
   */
  lemma TrailingIgnored(s: seq<CodeUnit>, u: seq<CodeUnit>)
    requires AltAt(s, 0).Ok? && AltAt(s, 0).value.1 < |s|
    ensures s[AltAt(s, 0).value.1] == RParen
    ensures ParseRegex(s[..AltAt(s, 0).value.1 + 1] + u) == ParseRegex(s)
  {
    AltStops(s, 0);
    var p := AltAt(s, 0).value.1;
    var t := s[..p + 1] + u;
    assert Agree(s, t, 0, p);
    AltLocal(s, t, 0);
  }

  const LowerA: CodeUnit := 0x61
  const LowerB: CodeUnit := 0x62
  const LowerC: CodeUnit := 0x63

  /** The single-character class that a plain character parses to. */
  function Lit(c: CodeUnit): RxNode
  {
    CharClassNode(OneOf({c}))
  }

  /** A character with no special meaning and no postfix operator after it is a one-character class. */
  lemma PlainUnary(s: seq<CodeUnit>, pos: nat)
    requires pos < |s| && s[pos] != LParen && s[pos] != LBracket && s[pos] != Backslash
    requires pos + 1 == |s| || (s[pos + 1] != Plus && s[pos + 1] != Question && s[pos + 1] != Star)
    ensures UnaryAt(s, pos) == Ok((Lit(s[pos]), pos + 1))
  {
    assert CharAt(s, pos) == (Some(s[pos]), pos + 1);
    assert AtomAt(s, pos) == Ok((Lit(s[pos]), pos + 1));
  }

  /** A `\` makes the character after it a one-character class, whatever that character is. */
  lemma EscapedUnary(s: seq<CodeUnit>, pos: nat)
    requires pos + 1 < |s| && s[pos] == Backslash
    requires pos + 2 == |s| || (s[pos + 2] != Plus && s[pos + 2] != Question && s[pos + 2] != Star)
    ensures UnaryAt(s, pos) == Ok((Lit(s[pos + 1]), pos + 2))
  {
    assert CharAt(s, pos) == (Some(s[pos + 1]), pos + 2);
    assert AtomAt(s, pos) == Ok((Lit(s[pos + 1]), pos + 2));
  }

  /** `a|b|c`: alternation nests to the right. */
  lemma AltExample()
    ensures ParseRegex([LowerA, Bar, LowerB, Bar, LowerC]) == Ok(Alternative(Lit(LowerA), Alternative(Lit(LowerB), Lit(LowerC))))
  {
    var s := [LowerA, Bar, LowerB, Bar, LowerC];
    PlainUnary(s, 0);
    PlainUnary(s, 2);
    PlainUnary(s, 4);
    assert SequenceAt(s, 4) == Ok((Lit(LowerC), 5));
    assert AltAt(s, 4) == Ok((Lit(LowerC), 5));
    assert SequenceAt(s, 2) == Ok((Lit(LowerB), 3));
    assert AltAt(s, 2) == Ok((Alternative(Lit(LowerB), Lit(LowerC)), 5));
    assert SequenceAt(s, 0) == Ok((Lit(LowerA), 1));
  }

  /** `abc`: juxtaposition nests to the right. */
  lemma SequenceExample()
    ensures ParseRegex([LowerA, LowerB, LowerC]) == Ok(Sequence(Lit(LowerA), Sequence(Lit(LowerB), Lit(LowerC))))
  {
    var s := [LowerA, LowerB, LowerC];
    PlainUnary(s, 0);
    PlainUnary(s, 1);
    PlainUnary(s, 2);
    assert SequenceAt(s, 2) == Ok((Lit(LowerC), 3));
    assert SequenceAt(s, 1) == Ok((Sequence(Lit(LowerB), Lit(LowerC)), 3));
    assert SequenceAt(s, 0) == Ok((Sequence(Lit(LowerA), Sequence(Lit(LowerB), Lit(LowerC))), 3));
  }

  /** `|a` and `(|)`: a sequence before `|` or `)` is `Empty`. */
  lemma EmptyExample()
    ensures ParseRegex([Bar, LowerA]) == Ok(Alternative(Empty, Lit(LowerA)))
    ensures ParseRegex([LParen, Bar, RParen]) == Ok(Alternative(Empty, Empty))
  {
    var s := [Bar, LowerA];
    PlainUnary(s, 1);
    assert SequenceAt(s, 1) == Ok((Lit(LowerA), 2));
    assert AltAt(s, 1) == Ok((Lit(LowerA), 2));
    assert SequenceAt(s, 0) == Ok((Empty, 0));
    var t := [LParen, Bar, RParen];
    assert SequenceAt(t, 2) == Ok((Empty, 2));
    assert AltAt(t, 2) == Ok((Empty, 2));
    assert SequenceAt(t, 1) == Ok((Empty, 1));
    assert AltAt(t, 1) == Ok((Alternative(Empty, Empty), 2));
    assert ParenAt(t, 1) == Ok((Alternative(Empty, Empty), 3));
    assert AtomAt(t, 0) == Ok((Alternative(Empty, Empty), 3));
    assert UnaryAt(t, 0) == Ok((Alternative(Empty, Empty), 3));
    assert SequenceAt(t, 0) == Ok((Alternative(Empty, Empty), 3));
  }

  /** `a+?` and `a*`: postfix operators apply left to right. */
  lemma PostfixExample()
    ensures ParseRegex([LowerA, Plus, Question]) == Ok(Alternative(Empty, OnceOrMore(Lit(LowerA))))
    ensures ParseRegex([LowerA, Star]) == Ok(Alternative(Empty, OnceOrMore(Lit(LowerA))))
  {
    var s := [LowerA, Plus, Question];
    assert CharAt(s, 0) == (Some(LowerA), 1);
    assert AtomAt(s, 0) == Ok((Lit(LowerA), 1));
    assert PostfixAt(s, 3, Alternative(Empty, OnceOrMore(Lit(LowerA)))) == (Alternative(Empty, OnceOrMore(Lit(LowerA))), 3);
    assert PostfixAt(s, 2, OnceOrMore(Lit(LowerA))) == (Alternative(Empty, OnceOrMore(Lit(LowerA))), 3);
    assert PostfixAt(s, 1, Lit(LowerA)) == (Alternative(Empty, OnceOrMore(Lit(LowerA))), 3);
    assert SequenceAt(s, 0) == Ok((Alternative(Empty, OnceOrMore(Lit(LowerA))), 3));
    var t := [LowerA, Star];
    assert CharAt(t, 0) == (Some(LowerA), 1);
    assert AtomAt(t, 0) == Ok((Lit(LowerA), 1));
    assert PostfixAt(t, 2, Alternative(Empty, OnceOrMore(Lit(LowerA)))) == (Alternative(Empty, OnceOrMore(Lit(LowerA))), 2);
    assert PostfixAt(t, 1, Lit(LowerA)) == (Alternative(Empty, OnceOrMore(Lit(LowerA))), 2);
    assert SequenceAt(t, 0) == Ok((Alternative(Empty, OnceOrMore(Lit(LowerA))), 2));
  }

  /** `(a` fails because the group is not closed; `a)b` stops at the `)`. */
  lemma GroupExample()
    ensures ParseRegex([LParen, LowerA]) == Err(UnclosedGroup(None))
    ensures ParseRegex([LowerA, RParen, LowerB]) == Ok(Lit(LowerA))
  {
    var s := [LParen, LowerA];
    PlainUnary(s, 1);
    assert SequenceAt(s, 1) == Ok((Lit(LowerA), 2));
    assert AltAt(s, 1) == Ok((Lit(LowerA), 2));
    assert ParenAt(s, 1) == Err(UnclosedGroup(None));
    assert AtomAt(s, 0) == Err(UnclosedGroup(None));
    assert SequenceAt(s, 0) == Err(UnclosedGroup(None));
    var t := [LowerA, RParen, LowerB];
    PlainUnary(t, 0);
    assert SequenceAt(t, 0) == Ok((Lit(LowerA), 1));
  }

  /**
   * Inside a class, a `-` (escaped or not) after a member `x`, followed by a
   * character `y`, adds the code units from `x` to `y` to the class and goes
   * on with `y` as the last member; nothing is added when `y` is below `x`.
   * A `-` with no character after it is an error, and so is `y` = U+FFFF.
   */
  lemma RangeDash(s: seq<CodeUnit>, pos: nat, x: CodeUnit, acc: set<CodeUnit>, y: CodeUnit, p1: nat, p2: nat)
    requires pos <= |s| && CharAt(s, pos) == (Some(Dash), p1) && CharAt(s, p1) == (Some(y), p2)
    ensures y < MaxCodeUnit ==> RangeAt(s, pos, Some(x), acc) == RangeAt(s, p2, Some(y), acc + Span(x, y))
    ensures y < MaxCodeUnit ==> forall c: CodeUnit :: c in acc + Span(x, y) <==> c in acc || x <= c <= y
    ensures y < x ==> acc + Span(x, y) == acc
    ensures y == MaxCodeUnit ==> RangeAt(s, pos, Some(x), acc) == Err(NoTermination)
  {
    if y < x {
      assert Span(x, y) == {};
    }
  }

  /** A `-` after a member with nothing after it ends the class with an error. */
  lemma RangeDashEnd(s: seq<CodeUnit>, pos: nat, x: CodeUnit, acc: set<CodeUnit>, p1: nat)
    requires pos <= |s| && CharAt(s, pos) == (Some(Dash), p1) && CharAt(s, p1).0.None?
    ensures RangeAt(s, pos, Some(x), acc) == Err(NullRangeEnd)
  {
  }

  /** `[a-c]` holds `a`, `b` and `c`; `[ab]` holds `a` and `b`. */
  lemma RangeExample()
    ensures ParseRegex([LBracket, LowerA, Dash, LowerC, RBracket]) == Ok(CharClassNode(OneOf({LowerA, LowerB, LowerC})))
    ensures ParseRegex([LBracket, LowerA, LowerB, RBracket]) == Ok(CharClassNode(OneOf({LowerA, LowerB})))
  {
    var abc := CharClassNode(OneOf({LowerA, LowerB, LowerC}));
    var s := [LBracket, LowerA, Dash, LowerC, RBracket];
    assert Span(LowerA, LowerC) == {LowerA, LowerB, LowerC};
    assert {LowerA} + Span(LowerA, LowerC) == {LowerA, LowerB, LowerC};
    assert RangeAt(s, 4, Some(LowerC), {LowerA, LowerB, LowerC}) == Ok((abc, 5));
    assert CharAt(s, 2) == (Some(Dash), 3);
    assert CharAt(s, 3) == (Some(LowerC), 4);
    assert RangeAt(s, 2, Some(LowerA), {LowerA}) == Ok((abc, 5));
    assert CharAt(s, 1) == (Some(LowerA), 2);
    assert {} + {LowerA} == {LowerA};
    assert RangeAt(s, 1, None, {}) == Ok((abc, 5));
    assert AtomAt(s, 0) == Ok((abc, 5));
    assert SequenceAt(s, 0) == Ok((abc, 5));
    var ab := CharClassNode(OneOf({LowerA, LowerB}));
    var t := [LBracket, LowerA, LowerB, RBracket];
    assert RangeAt(t, 3, Some(LowerB), {LowerA, LowerB}) == Ok((ab, 4));
    assert CharAt(t, 2) == (Some(LowerB), 3);
    assert {LowerA} + {LowerB} == {LowerA, LowerB};
    assert RangeAt(t, 2, Some(LowerA), {LowerA}) == Ok((ab, 4));
    assert CharAt(t, 1) == (Some(LowerA), 2);
    assert {} + {LowerA} == {LowerA};
    assert RangeAt(t, 1, None, {}) == Ok((ab, 4));
    assert AtomAt(t, 0) == Ok((ab, 4));
    assert SequenceAt(t, 0) == Ok((ab, 4));
  }

  /** `[a`, `[a-` and `[a-\uffff]`: the inputs on which the class loop never ends or fails. */
  lemma RangeErrorExample()
    ensures ParseRegex([LBracket, LowerA]) == Err(NoTermination)
    ensures ParseRegex([LBracket, LowerA, Dash]) == Err(NullRangeEnd)
    ensures ParseRegex([LBracket, LowerA, Dash, MaxCodeUnit, RBracket]) == Err(NoTermination)
  {
    var s := [LBracket, LowerA];
    assert CharAt(s, 1) == (Some(LowerA), 2);
    assert RangeAt(s, 1, None, {}) == Err(NoTermination);
    assert AtomAt(s, 0) == Err(NoTermination);
    assert UnaryAt(s, 0) == Err(NoTermination);
    assert SequenceAt(s, 0) == Err(NoTermination);
    var t := [LBracket, LowerA, Dash];
    assert CharAt(t, 1) == (Some(LowerA), 2);
    assert {} + {LowerA} == {LowerA};
    assert CharAt(t, 2) == (Some(Dash), 3);
    assert CharAt(t, 3) == (None, 3);
    assert RangeAt(t, 2, Some(LowerA), {LowerA}) == Err(NullRangeEnd);
    assert RangeAt(t, 1, None, {}) == Err(NullRangeEnd);
    assert AtomAt(t, 0) == Err(NullRangeEnd);
    assert UnaryAt(t, 0) == Err(NullRangeEnd);
    assert SequenceAt(t, 0) == Err(NullRangeEnd);
    var u := [LBracket, LowerA, Dash, MaxCodeUnit, RBracket];
    assert CharAt(u, 1) == (Some(LowerA), 2);
    assert {} + {LowerA} == {LowerA};
    assert CharAt(u, 2) == (Some(Dash), 3);
    assert CharAt(u, 3) == (Some(MaxCodeUnit), 4);
    assert RangeAt(u, 2, Some(LowerA), {LowerA}) == Err(NoTermination);
    assert RangeAt(u, 1, None, {}) == Err(NoTermination);
    assert AtomAt(u, 0) == Err(NoTermination);
    assert UnaryAt(u, 0) == Err(NoTermination);
    assert SequenceAt(u, 0) == Err(NoTermination);
  }

  /** `\(` is a literal `(`; an empty text and a trailing `\` give the class of the text "null". */
  lemma EscapeExample()
    ensures ParseRegex([Backslash, LParen]) == Ok(Lit(LParen))
    ensures ParseRegex([]) == Ok(CharClassNode(OneOf(NullText)))
    ensures ParseRegex([LowerA, Backslash]) == Ok(Sequence(Lit(LowerA), CharClassNode(OneOf(NullText))))
  {
    var s := [Backslash, LParen];
    EscapedUnary(s, 0);
    assert SequenceAt(s, 0) == Ok((Lit(LParen), 2));
    var e: seq<CodeUnit> := [];
    assert CharAt(e, 0) == (None, 0);
    assert UnaryAt(e, 0) == Ok((CharClassNode(OneOf(NullText)), 0));
    assert SequenceAt(e, 0) == Ok((CharClassNode(OneOf(NullText)), 0));
    var u := [LowerA, Backslash];
    PlainUnary(u, 0);
    assert CharAt(u, 1) == (None, 2);
    assert AtomAt(u, 1) == Ok((CharClassNode(OneOf(NullText)), 2));
    assert UnaryAt(u, 1) == Ok((CharClassNode(OneOf(NullText)), 2));
    assert SequenceAt(u, 1) == Ok((CharClassNode(OneOf(NullText)), 2));
    assert SequenceAt(u, 0) == Ok((Sequence(Lit(LowerA), CharClassNode(OneOf(NullText))), 2));
  }
}
