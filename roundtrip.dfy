/**
 * A printer for the patterns the parser can produce, and the proof that
 * parsing a printed pattern gives it back (`ParsePrint`): every group is
 * parenthesised, every class is written as `[...]` and every character in it
 * escaped, so the printed text exercises grouping, alternation,
 * juxtaposition, `+`, bracket classes and `\`. Every pattern the parser
 * returns is printable, so it re-parses from its print (`Reparse`).
 */
module RoundTrip {
  import opened Wrappers
  import opened Regex
  import opened Grammar

  /** The patterns made of the parser's own forms: no labels and no `AnyChar`. */
  ghost predicate Printable(x: RxNode)
  {
    match x
    case Empty => true
    case CharClassNode(cc) => cc.OneOf?
    case Sequence(a, b) => Printable(a) && Printable(b)
    case Alternative(a, b) => Printable(a) && Printable(b)
    case OnceOrMore(a) => Printable(a)
    case Labeled(_, _) => false
  }

  /** The length of the printed form of `x`. */
  ghost function Width(x: RxNode): nat
  {
    match x
    case Empty => 2
    case CharClassNode(cc) => if cc.OneOf? then 2 * |cc.members| + 2 else 2
    case Sequence(a, b) => Width(a) + Width(b) + 2
    case Alternative(a, b) => Width(a) + Width(b) + 3
    case OnceOrMore(a) => Width(a) + 3
    case Labeled(a, _) => Width(a)
  }

  /** The members of a class in printing order: a `-` comes first, where it cannot start a range. */
  ghost function Members(m: set<CodeUnit>): (r: seq<CodeUnit>)
    ensures |r| == |m| && forall c :: c in r <==> c in m
    ensures forall i :: 0 < i < |r| ==> r[i] != Dash
    decreases |m|
  {
    if m == {} then []
    else if Dash in m then [Dash] + Members(m - {Dash})
    else var c :| c in m; [c] + Members(m - {c})
  }

  /** Every unit of `l`, each preceded by a backslash. */
  ghost function Escaped(l: seq<CodeUnit>): (r: seq<CodeUnit>)
    ensures |r| == 2 * |l|
  {
    if l == [] then [] else [Backslash, l[0]] + Escaped(l[1..])
  }

  /** What follows the `[` of a printed class: its escaped members and the `]`. */
  ghost function ClassText(m: set<CodeUnit>): (r: seq<CodeUnit>)
    ensures |r| == 2 * |m| + 1
  {
    Escaped(Members(m)) + [RBracket]
  }

  /**
   * The printed form: every group is parenthesised (a juxtaposition as
   * `(a)b`, so that its left operand is one unary term) and every class is
   * a bracket class of escaped members.
   */
  ghost function Print(x: RxNode): (r: seq<CodeUnit>)
    requires Printable(x)
    ensures |r| == Width(x)
  {
    match x
    case Empty => [LParen, RParen]
    case CharClassNode(cc) => [LBracket] + ClassText(cc.members)
    case Sequence(a, b) => [LParen] + Print(a) + [RParen] + Print(b)
    case Alternative(a, b) => [LParen] + Print(a) + [Bar] + Print(b) + [RParen]
    case OnceOrMore(a) => [LParen] + Print(a) + [RParen] + [Plus]
  }

  /** Where the printed form of `x` ends when it starts at `pos`. */
  ghost function End(pos: nat, x: RxNode): nat
  {
    pos + Width(x)
  }

  /** `w` occurs in `s` at `pos`. */
  ghost predicate At(s: seq<CodeUnit>, pos: nat, w: seq<CodeUnit>)
  {
    pos + |w| <= |s| && forall i {:trigger w[i]} :: 0 <= i < |w| ==> s[pos + i] == w[i]
  }

  /** The printed form of `x` occurs in `s` at `pos`, stated piece by piece on positions. */
  ghost predicate Printed(s: seq<CodeUnit>, pos: nat, x: RxNode)
    decreases x
  {
    End(pos, x) <= |s| &&
    match x
    case Empty => s[pos] == LParen && s[pos + 1] == RParen
    case CharClassNode(cc) => cc.OneOf? && s[pos] == LBracket && ClassAt(s, pos + 1, Members(cc.members))
    case Sequence(a, b) =>
      s[pos] == LParen && Printed(s, pos + 1, a) && s[End(pos + 1, a)] == RParen &&
      Printed(s, End(pos + 1, a) + 1, b)
    case Alternative(a, b) =>
      s[pos] == LParen && Printed(s, pos + 1, a) && s[End(pos + 1, a)] == Bar &&
      Printed(s, End(pos + 1, a) + 1, b) && s[End(End(pos + 1, a) + 1, b)] == RParen
    case OnceOrMore(a) =>
      s[pos] == LParen && Printed(s, pos + 1, a) && s[End(pos + 1, a)] == RParen &&
      s[End(pos + 1, a) + 1] == Plus
    case Labeled(_, _) => false
  }

  /** The escaped units of `l` and then a `]` occur in `s` at `pos`. */
  ghost predicate ClassAt(s: seq<CodeUnit>, pos: nat, l: seq<CodeUnit>)
    decreases |l|
  {
    if l == [] then pos < |s| && s[pos] == RBracket
    else pos + 1 < |s| && s[pos] == Backslash && s[pos + 1] == l[0] && ClassAt(s, pos + 2, l[1..])
  }

  /** Where the text of a class occurs, its units are where `ClassAt` says. */
  lemma {:induction false} ClassAtOf(s: seq<CodeUnit>, pos: nat, l: seq<CodeUnit>)
    requires At(s, pos, Escaped(l) + [RBracket])
    ensures ClassAt(s, pos, l)
    decreases |l|
  {
    if l == [] {
      assert Escaped(l) + [RBracket] == [RBracket];
      assert s[pos + 0] == [RBracket][0];
    } else {
      assert Escaped(l) + [RBracket] == [Backslash, l[0]] + (Escaped(l[1..]) + [RBracket]);
      AtAppend(s, pos, [Backslash, l[0]], Escaped(l[1..]) + [RBracket]);
      AtPair(s, pos, [Backslash, l[0]]);
      ClassAtOf(s, pos + 2, l[1..]);
    }
  }

  /** A printed pattern starts with `(` or `[`, never with a stop or a postfix operator. */
  lemma PrintedHead(s: seq<CodeUnit>, pos: nat, x: RxNode)
    requires Printed(s, pos, x)
    ensures pos + 1 < End(pos, x) <= |s| && (s[pos] == LParen || s[pos] == LBracket)
  {
  }

  lemma SequencePieces(s: seq<CodeUnit>, pos: nat, a: RxNode, b: RxNode)
    requires Printed(s, pos, Sequence(a, b))
    ensures End(pos + 1, a) < |s| && s[pos] == LParen && s[End(pos + 1, a)] == RParen
    ensures Printed(s, pos + 1, a) && Printed(s, End(pos + 1, a) + 1, b)
    ensures End(pos, Sequence(a, b)) == End(End(pos + 1, a) + 1, b)
  {
  }

  lemma AlternativePieces(s: seq<CodeUnit>, pos: nat, a: RxNode, b: RxNode)
    requires Printed(s, pos, Alternative(a, b))
    ensures End(End(pos + 1, a) + 1, b) < |s| && s[pos] == LParen && s[End(pos + 1, a)] == Bar
    ensures s[End(End(pos + 1, a) + 1, b)] == RParen
    ensures Printed(s, pos + 1, a) && Printed(s, End(pos + 1, a) + 1, b)
    ensures End(pos, Alternative(a, b)) == End(End(pos + 1, a) + 1, b) + 1
  {
  }

  lemma OnceOrMorePieces(s: seq<CodeUnit>, pos: nat, a: RxNode)
    requires Printed(s, pos, OnceOrMore(a))
    ensures End(pos + 1, a) + 1 < |s| && s[pos] == LParen && s[End(pos + 1, a)] == RParen
    ensures s[End(pos + 1, a) + 1] == Plus && Printed(s, pos + 1, a)
    ensures End(pos, OnceOrMore(a)) == End(pos + 1, a) + 2
  {
  }

  lemma SequenceJoin(s: seq<CodeUnit>, pos: nat, a: RxNode, b: RxNode)
    requires End(End(pos + 1, a) + 1, b) <= |s| && s[pos] == LParen && s[End(pos + 1, a)] == RParen
    requires Printed(s, pos + 1, a) && Printed(s, End(pos + 1, a) + 1, b)
    ensures Printed(s, pos, Sequence(a, b))
  {
  }

  lemma AlternativeJoin(s: seq<CodeUnit>, pos: nat, a: RxNode, b: RxNode)
    requires End(End(pos + 1, a) + 1, b) < |s| && s[pos] == LParen && s[End(pos + 1, a)] == Bar
    requires s[End(End(pos + 1, a) + 1, b)] == RParen
    requires Printed(s, pos + 1, a) && Printed(s, End(pos + 1, a) + 1, b)
    ensures Printed(s, pos, Alternative(a, b))
  {
  }

  lemma OnceOrMoreJoin(s: seq<CodeUnit>, pos: nat, a: RxNode)
    requires End(pos + 1, a) + 1 < |s| && s[pos] == LParen && s[End(pos + 1, a)] == RParen
    requires s[End(pos + 1, a) + 1] == Plus && Printed(s, pos + 1, a)
    ensures Printed(s, pos, OnceOrMore(a))
  {
  }

  /** Where `Print(x)` occurs, its pieces are where `Printed` says. */
  lemma {:induction false} PrintedOf(x: RxNode, s: seq<CodeUnit>, pos: nat)
    requires Printable(x) && At(s, pos, Print(x))
    ensures Printed(s, pos, x)
    decreases x, 1
  {
    match x
    case Empty =>
      AtPair(s, pos, [LParen, RParen]);
    case CharClassNode(cc) =>
      PrintedOfChar(cc, s, pos);
    case Sequence(a, b) =>
      PrintedOfSequence(a, b, s, pos);
    case Alternative(a, b) =>
      PrintedOfAlternative(a, b, s, pos);
    case OnceOrMore(a) =>
      PrintedOfOnceOrMore(a, s, pos);
  }

  lemma PrintedOfChar(cc: CharClass, s: seq<CodeUnit>, pos: nat)
    requires Printable(CharClassNode(cc)) && At(s, pos, Print(CharClassNode(cc)))
    ensures Printed(s, pos, CharClassNode(cc))
  {
    AtCons(s, pos, LBracket, ClassText(cc.members));
    ClassAtOf(s, pos + 1, Members(cc.members));
  }

  lemma {:induction false} PrintedOfSequence(a: RxNode, b: RxNode, s: seq<CodeUnit>, pos: nat)
    requires Printable(Sequence(a, b)) && At(s, pos, Print(Sequence(a, b)))
    ensures Printed(s, pos, Sequence(a, b))
    decreases Sequence(a, b), 0
  {
    var m := End(pos + 1, a);
    GroupPieces(s, pos, Print(a), RParen, Print(b), m);
    PrintedOf(a, s, pos + 1);
    PrintedOf(b, s, m + 1);
    SequenceJoin(s, pos, a, b);
  }

  lemma {:induction false} PrintedOfAlternative(a: RxNode, b: RxNode, s: seq<CodeUnit>, pos: nat)
    requires Printable(Alternative(a, b)) && At(s, pos, Print(Alternative(a, b)))
    ensures Printed(s, pos, Alternative(a, b))
    decreases Alternative(a, b), 0
  {
    var m := End(pos + 1, a);
    AlternativeText(a, b, s, pos);
    PrintedOf(a, s, pos + 1);
    PrintedOf(b, s, m + 1);
    AlternativeJoin(s, pos, a, b);
  }

  lemma {:induction false} PrintedOfOnceOrMore(a: RxNode, s: seq<CodeUnit>, pos: nat)
    requires Printable(OnceOrMore(a)) && At(s, pos, Print(OnceOrMore(a)))
    ensures Printed(s, pos, OnceOrMore(a))
    decreases OnceOrMore(a), 0
  {
    var m := End(pos + 1, a);
    GroupPieces(s, pos, Print(a), RParen, [Plus], m);
    AtCons(s, m + 1, Plus, []);
    PrintedOf(a, s, pos + 1);
    OnceOrMoreJoin(s, pos, a);
  }

  /** Where the print of `Alternative(a, b)` occurs, the prints of `a` and `b` and the `|` and `)` are at their offsets. */
  lemma AlternativeText(a: RxNode, b: RxNode, s: seq<CodeUnit>, pos: nat)
    requires Printable(Alternative(a, b)) && At(s, pos, Print(Alternative(a, b)))
    ensures End(End(pos + 1, a) + 1, b) < |s| && s[pos] == LParen && s[End(pos + 1, a)] == Bar
    ensures s[End(End(pos + 1, a) + 1, b)] == RParen
    ensures At(s, pos + 1, Print(a)) && At(s, End(pos + 1, a) + 1, Print(b))
  {
    var m := End(pos + 1, a);
    assert Print(Alternative(a, b)) == [LParen] + Print(a) + [Bar] + Print(b) + [RParen];
    ClosedPieces(s, pos, Print(a), Print(b), m, End(m + 1, b));
  }

  /** Where `(v|u)` occurs, with `v` ending at `m` and `u` at `q`, each piece is at its offset. */
  lemma ClosedPieces(s: seq<CodeUnit>, pos: nat, v: seq<CodeUnit>, u: seq<CodeUnit>, m: nat, q: nat)
    requires At(s, pos, [LParen] + v + [Bar] + u + [RParen])
    requires m == pos + 1 + |v| && q == m + 1 + |u|
    ensures q < |s| && s[pos] == LParen && s[m] == Bar && s[q] == RParen
    ensures At(s, pos + 1, v) && At(s, m + 1, u)
  {
    AtAppend(s, pos, [LParen] + v + [Bar] + u, [RParen]);
    AtCons(s, q, RParen, []);
    GroupPieces(s, pos, v, Bar, u, m);
  }

  /** Where `(v` followed by `c` and `u` occurs, with `v` ending at `m`, each piece is at its offset. */
  lemma GroupPieces(s: seq<CodeUnit>, pos: nat, v: seq<CodeUnit>, c: CodeUnit, u: seq<CodeUnit>, m: nat)
    requires At(s, pos, [LParen] + v + [c] + u) && m == pos + 1 + |v|
    ensures m < |s| && s[pos] == LParen && s[m] == c
    ensures At(s, pos + 1, v) && At(s, m + 1, u)
  {
    AtAppend(s, pos, [LParen] + v + [c], u);
    AtAppend(s, pos, [LParen] + v, [c]);
    AtCons(s, pos, LParen, v);
    AtCons(s, m, c, []);
  }

  /** Where a two-unit word occurs, its units are at `pos` and `pos + 1`. */
  lemma AtPair(s: seq<CodeUnit>, pos: nat, w: seq<CodeUnit>)
    requires |w| == 2 && At(s, pos, w)
    ensures pos + 1 < |s| && s[pos] == w[0] && s[pos + 1] == w[1]
  {
    assert s[pos + 0] == w[0];
  }

  /** Where `[c] + v` occurs, `c` is at `pos` and `v` follows it. */
  lemma AtCons(s: seq<CodeUnit>, pos: nat, c: CodeUnit, v: seq<CodeUnit>)
    requires At(s, pos, [c] + v)
    ensures pos < |s| && s[pos] == c && At(s, pos + 1, v)
  {
    assert s[pos + 0] == ([c] + v)[0];
    forall i | 0 <= i < |v| ensures s[pos + 1 + i] == v[i] {
      assert s[pos + (1 + i)] == ([c] + v)[1 + i];
    }
  }

  /** Where `u + v` occurs, `u` occurs at `pos` and `v` right after it. */
  lemma AtAppend(s: seq<CodeUnit>, pos: nat, u: seq<CodeUnit>, v: seq<CodeUnit>)
    requires At(s, pos, u + v)
    ensures At(s, pos, u) && At(s, pos + |u|, v)
  {
    forall i | 0 <= i < |u| ensures s[pos + i] == u[i] {
      assert s[pos + i] == (u + v)[i];
    }
    forall i | 0 <= i < |v| ensures s[pos + |u| + i] == v[i] {
      assert s[pos + (|u| + i)] == (u + v)[|u| + i];
    }
  }

  /** What may follow a pattern inside a group or at the end of the text. */
  ghost predicate AltStop(s: seq<CodeUnit>, p: nat)
  {
    p == |s| || (p < |s| && s[p] == RParen)
  }

  /** What may follow a juxtaposition. */
  ghost predicate SeqStop(s: seq<CodeUnit>, p: nat)
  {
    p == |s| || (p < |s| && (s[p] == RParen || s[p] == Bar))
  }

  /** What may follow an operand without extending it by `+`, `?` or `*`. */
  ghost predicate NoPostfix(s: seq<CodeUnit>, p: nat)
  {
    p == |s| || (p < |s| && s[p] != Plus && s[p] != Question && s[p] != Star)
  }

  // One step of each parsing function, unfolded once.

  lemma AltLast(s: seq<CodeUnit>, pos: nat, a: RxNode, p: nat)
    requires pos <= |s| && SequenceAt(s, pos) == Ok((a, p)) && AltStop(s, p)
    ensures AltAt(s, pos) == Ok((a, p))
  {
  }

  lemma AltMore(s: seq<CodeUnit>, pos: nat, a: RxNode, p: nat, b: RxNode, q: nat)
    requires pos <= |s| && SequenceAt(s, pos) == Ok((a, p)) && p < |s| && s[p] == Bar
    requires AltAt(s, p + 1) == Ok((b, q))
    ensures AltAt(s, pos) == Ok((Alternative(a, b), q))
  {
  }

  lemma SeqLast(s: seq<CodeUnit>, pos: nat, a: RxNode, p: nat)
    requires pos < |s| && s[pos] != Bar && s[pos] != RParen && UnaryAt(s, pos) == Ok((a, p)) && SeqStop(s, p)
    ensures SequenceAt(s, pos) == Ok((a, p))
  {
  }

  lemma SeqMore(s: seq<CodeUnit>, pos: nat, a: RxNode, p: nat, b: RxNode, q: nat)
    requires pos < |s| && s[pos] != Bar && s[pos] != RParen && UnaryAt(s, pos) == Ok((a, p))
    requires p < |s| && s[p] != Bar && s[p] != RParen && SequenceAt(s, p) == Ok((b, q))
    ensures SequenceAt(s, pos) == Ok((Sequence(a, b), q))
  {
  }

  lemma SeqEmpty(s: seq<CodeUnit>, pos: nat)
    requires pos < |s| && (s[pos] == Bar || s[pos] == RParen)
    ensures SequenceAt(s, pos) == Ok((Empty, pos))
  {
  }

  lemma UnaryPlain(s: seq<CodeUnit>, pos: nat, a: RxNode, p: nat)
    requires pos <= |s| && AtomAt(s, pos) == Ok((a, p)) && NoPostfix(s, p)
    ensures UnaryAt(s, pos) == Ok((a, p))
  {
  }

  lemma UnaryPlus(s: seq<CodeUnit>, pos: nat, a: RxNode, p: nat)
    requires pos <= |s| && AtomAt(s, pos) == Ok((a, p)) && p < |s| && s[p] == Plus && NoPostfix(s, p + 1)
    ensures UnaryAt(s, pos) == Ok((OnceOrMore(a), p + 1))
  {
    assert PostfixAt(s, p + 1, OnceOrMore(a)) == (OnceOrMore(a), p + 1);
  }

  lemma AtomGroup(s: seq<CodeUnit>, pos: nat, a: RxNode, p: nat)
    requires pos < |s| && s[pos] == LParen && AltAt(s, pos + 1) == Ok((a, p)) && p < |s| && s[p] == RParen
    ensures AtomAt(s, pos) == Ok((a, p + 1))
  {
    assert ParenAt(s, pos + 1) == Ok((a, p + 1));
  }

  lemma GroupUnary(s: seq<CodeUnit>, pos: nat, a: RxNode, p: nat)
    requires pos < |s| && s[pos] == LParen && AltAt(s, pos + 1) == Ok((a, p)) && p < |s| && s[p] == RParen
    requires NoPostfix(s, p + 1)
    ensures UnaryAt(s, pos) == Ok((a, p + 1))
  {
    AtomGroup(s, pos, a, p);
    UnaryPlain(s, pos, a, p + 1);
  }

  lemma GroupPlus(s: seq<CodeUnit>, pos: nat, a: RxNode, p: nat)
    requires pos < |s| && s[pos] == LParen && AltAt(s, pos + 1) == Ok((a, p)) && p < |s| && s[p] == RParen
    requires p + 1 < |s| && s[p + 1] == Plus && NoPostfix(s, p + 2)
    ensures UnaryAt(s, pos) == Ok((OnceOrMore(a), p + 2))
  {
    AtomGroup(s, pos, a, p);
    UnaryPlus(s, pos, a, p + 1);
  }

  // The round trip, one parsing level at a time.

  lemma {:induction false} AltLevel(x: RxNode, s: seq<CodeUnit>, pos: nat)
    requires Printed(s, pos, x) && AltStop(s, End(pos, x))
    ensures AltAt(s, pos) == Ok((x, End(pos, x)))
    decreases x, 6
  {
    SeqLevel(x, s, pos);
    AltLast(s, pos, x, End(pos, x));
  }

  lemma {:induction false} SeqLevel(x: RxNode, s: seq<CodeUnit>, pos: nat)
    requires Printed(s, pos, x) && SeqStop(s, End(pos, x))
    ensures SequenceAt(s, pos) == Ok((x, End(pos, x)))
    decreases x, 5
  {
    if x.Sequence? {
      SeqPair(x.a, x.b, s, pos);
    } else {
      SeqUnary(x, s, pos);
    }
  }

  lemma {:induction false} SeqUnary(x: RxNode, s: seq<CodeUnit>, pos: nat)
    requires !x.Sequence? && Printed(s, pos, x) && SeqStop(s, End(pos, x))
    ensures SequenceAt(s, pos) == Ok((x, End(pos, x)))
    decreases x, 4
  {
    PrintedHead(s, pos, x);
    UnaryLevel(x, s, pos);
    SeqLast(s, pos, x, End(pos, x));
  }

  lemma {:induction false} SeqPair(a: RxNode, b: RxNode, s: seq<CodeUnit>, pos: nat)
    requires Printed(s, pos, Sequence(a, b)) && SeqStop(s, End(pos, Sequence(a, b)))
    ensures SequenceAt(s, pos) == Ok((Sequence(a, b), End(pos, Sequence(a, b))))
    decreases Sequence(a, b), 4
  {
    SequencePieces(s, pos, a, b);
    var p := End(pos + 1, a);
    SeqOperands(a, b, s, pos, p);
    SeqGroup(s, pos, a, p, b, End(p + 1, b));
  }

  /** The operands of a printed juxtaposition, each read at its own level. */
  lemma {:induction false} SeqOperands(a: RxNode, b: RxNode, s: seq<CodeUnit>, pos: nat, p: nat)
    requires Printed(s, pos + 1, a) && p == End(pos + 1, a) && p < |s| && s[p] == RParen
    requires Printed(s, p + 1, b) && SeqStop(s, End(p + 1, b))
    ensures AltAt(s, pos + 1) == Ok((a, p))
    ensures p + 1 < |s| && s[p + 1] != Bar && s[p + 1] != RParen && NoPostfix(s, p + 1)
    ensures SequenceAt(s, p + 1) == Ok((b, End(p + 1, b)))
    decreases Sequence(a, b), 3
  {
    PrintedHead(s, p + 1, b);
    AltLevel(a, s, pos + 1);
    SeqLevel(b, s, p + 1);
  }

  /** A group holding `a`, followed by the juxtaposition's right operand `b`. */
  lemma SeqGroup(s: seq<CodeUnit>, pos: nat, a: RxNode, p: nat, b: RxNode, q: nat)
    requires pos < |s| && s[pos] == LParen && AltAt(s, pos + 1) == Ok((a, p)) && p < |s| && s[p] == RParen
    requires p + 1 < |s| && s[p + 1] != Bar && s[p + 1] != RParen && NoPostfix(s, p + 1)
    requires SequenceAt(s, p + 1) == Ok((b, q))
    ensures SequenceAt(s, pos) == Ok((Sequence(a, b), q))
  {
    GroupUnary(s, pos, a, p);
    SeqMore(s, pos, a, p + 1, b, q);
  }

  lemma {:induction false} UnaryLevel(x: RxNode, s: seq<CodeUnit>, pos: nat)
    requires Printed(s, pos, x) && !x.Sequence? && NoPostfix(s, End(pos, x))
    ensures UnaryAt(s, pos) == Ok((x, End(pos, x)))
    decreases x, 3
  {
    if x.Empty? {
      UnaryEmpty(s, pos);
    } else if x.CharClassNode? {
      UnaryChar(x, s, pos);
    } else if x.Alternative? {
      UnaryAlternative(x.a, x.b, s, pos);
    } else {
      UnaryOnceOrMore(x.a, s, pos);
    }
  }

  lemma UnaryEmpty(s: seq<CodeUnit>, pos: nat)
    requires Printed(s, pos, Empty) && NoPostfix(s, End(pos, Empty))
    ensures UnaryAt(s, pos) == Ok((Empty, End(pos, Empty)))
  {
    SeqEmpty(s, pos + 1);
    AltLast(s, pos + 1, Empty, pos + 1);
    AtomGroup(s, pos, Empty, pos + 1);
    UnaryPlain(s, pos, Empty, pos + 2);
  }

  lemma UnaryChar(x: RxNode, s: seq<CodeUnit>, pos: nat)
    requires x.CharClassNode? && Printed(s, pos, x) && NoPostfix(s, End(pos, x))
    ensures UnaryAt(s, pos) == Ok((x, End(pos, x)))
  {
    ClassPieces(s, pos, x.cc);
    MembersElements(x.cc.members);
    ClassUnary(s, pos, Members(x.cc.members), x.cc.members, End(pos, x));
  }

  lemma ClassPieces(s: seq<CodeUnit>, pos: nat, cc: CharClass)
    requires Printed(s, pos, CharClassNode(cc))
    ensures cc.OneOf? && pos < |s| && s[pos] == LBracket && ClassAt(s, pos + 1, Members(cc.members))
    ensures End(pos, CharClassNode(cc)) == pos + 2 * |cc.members| + 2
  {
  }

  /** A printed class, listing the members of `m`, with nothing postfix after it is one unary term. */
  lemma ClassUnary(s: seq<CodeUnit>, pos: nat, l: seq<CodeUnit>, m: set<CodeUnit>, e: nat)
    requires pos < |s| && s[pos] == LBracket && ClassAt(s, pos + 1, l)
    requires (forall i :: 0 < i < |l| ==> l[i] != Dash) && {} + Elements(l) == m
    requires e == pos + 2 * |l| + 2 && NoPostfix(s, e)
    ensures UnaryAt(s, pos) == Ok((CharClassNode(OneOf(m)), e))
  {
    AtomClass(s, pos, l);
    UnaryPlain(s, pos, CharClassNode(OneOf(m)), e);
  }

  /** A `[`, escaped units with no `-` after the first, and a `]` are read back as the class of those units. */
  lemma AtomClass(s: seq<CodeUnit>, pos: nat, l: seq<CodeUnit>)
    requires pos < |s| && s[pos] == LBracket && ClassAt(s, pos + 1, l)
    requires forall i :: 0 < i < |l| ==> l[i] != Dash
    ensures AtomAt(s, pos) == Ok((CharClassNode(OneOf({} + Elements(l))), pos + 2 * |l| + 2))
  {
    RangeList(s, pos + 1, None, {}, l);
    AtomBracket(s, pos);
  }

  lemma AtomBracket(s: seq<CodeUnit>, pos: nat)
    requires pos < |s| && s[pos] == LBracket
    ensures AtomAt(s, pos) == RangeAt(s, pos + 1, None, {})
  {
  }

  /** The printing order of a class lists exactly its members, with no `-` after the first. */
  lemma MembersElements(m: set<CodeUnit>)
    ensures {} + Elements(Members(m)) == m && |Members(m)| == |m|
    ensures forall i :: 0 < i < |Members(m)| ==> Members(m)[i] != Dash
  {
    ElementsOf(Members(m));
  }

  /** The units that occur in `l`. */
  ghost function Elements(l: seq<CodeUnit>): set<CodeUnit>
  {
    if l == [] then {} else {l[0]} + Elements(l[1..])
  }

  lemma {:induction false} ElementsOf(l: seq<CodeUnit>)
    ensures forall c :: c in Elements(l) <==> c in l
  {
    if l != [] {
      ElementsOf(l[1..]);
      assert l == [l[0]] + l[1..];
    }
  }

  /**
   * Inside `[...]`, escaped members up to the `]` are each added to the
   * class, provided a `-` can only come first, before any member.
   */
  lemma {:induction false} RangeList(s: seq<CodeUnit>, pos: nat, last: Option<CodeUnit>, acc: set<CodeUnit>, l: seq<CodeUnit>)
    requires ClassAt(s, pos, l)
    requires forall i :: 0 <= i < |l| && l[i] == Dash ==> i == 0 && last.None?
    ensures RangeAt(s, pos, last, acc) == Ok((CharClassNode(OneOf(acc + Elements(l))), pos + 2 * |l| + 1))
    decreases |l|
  {
    if l == [] {
      assert RangeAt(s, pos, last, acc) == Ok((CharClassNode(OneOf(acc)), pos + 1));
      assert acc + Elements(l) == acc;
    } else {
      RangeList(s, pos + 2, Some(l[0]), acc + {l[0]}, l[1..]);
      assert acc + {l[0]} + Elements(l[1..]) == acc + Elements(l);
    }
  }

  lemma {:induction false} UnaryAlternative(a: RxNode, b: RxNode, s: seq<CodeUnit>, pos: nat)
    requires Printed(s, pos, Alternative(a, b)) && NoPostfix(s, End(pos, Alternative(a, b)))
    ensures UnaryAt(s, pos) == Ok((Alternative(a, b), End(pos, Alternative(a, b))))
    decreases Alternative(a, b), 2
  {
    AlternativePieces(s, pos, a, b);
    var m := End(pos + 1, a);
    AlternativeOperands(a, b, s, pos, m, End(m + 1, b));
  }

  /** A group holding `a`, a `|` and `b`, with nothing postfix after it. */
  lemma AlternativeGroup(s: seq<CodeUnit>, pos: nat, a: RxNode, p: nat, b: RxNode, q: nat)
    requires pos < |s| && s[pos] == LParen && SequenceAt(s, pos + 1) == Ok((a, p))
    requires p < |s| && s[p] == Bar && AltAt(s, p + 1) == Ok((b, q))
    requires q < |s| && s[q] == RParen && NoPostfix(s, q + 1)
    ensures UnaryAt(s, pos) == Ok((Alternative(a, b), q + 1))
  {
    AltMore(s, pos + 1, a, p, b, q);
    GroupUnary(s, pos, Alternative(a, b), q);
  }

  /** The operands of a printed alternation, each read at its own level, make one unary term. */
  lemma {:induction false} AlternativeOperands(a: RxNode, b: RxNode, s: seq<CodeUnit>, pos: nat, m: nat, q: nat)
    requires pos < |s| && s[pos] == LParen && Printed(s, pos + 1, a) && m == End(pos + 1, a) && m < |s| && s[m] == Bar
    requires Printed(s, m + 1, b) && q == End(m + 1, b) && q < |s| && s[q] == RParen && NoPostfix(s, q + 1)
    ensures UnaryAt(s, pos) == Ok((Alternative(a, b), q + 1))
    decreases Alternative(a, b), 1
  {
    SeqLevel(a, s, pos + 1);
    AltLevel(b, s, m + 1);
    AlternativeGroup(s, pos, a, m, b, q);
  }

  lemma {:induction false} UnaryOnceOrMore(a: RxNode, s: seq<CodeUnit>, pos: nat)
    requires Printed(s, pos, OnceOrMore(a)) && NoPostfix(s, End(pos, OnceOrMore(a)))
    ensures UnaryAt(s, pos) == Ok((OnceOrMore(a), End(pos, OnceOrMore(a))))
    decreases OnceOrMore(a), 2
  {
    OnceOrMorePieces(s, pos, a);
    OnceOrMoreGroup(a, s, pos, End(pos + 1, a));
  }

  /** A group holding the printed `a`, followed by `+` and nothing postfix. */
  lemma {:induction false} OnceOrMoreGroup(a: RxNode, s: seq<CodeUnit>, pos: nat, p: nat)
    requires pos < |s| && s[pos] == LParen && Printed(s, pos + 1, a) && p == End(pos + 1, a)
    requires p + 1 < |s| && s[p] == RParen && s[p + 1] == Plus && NoPostfix(s, p + 2)
    ensures UnaryAt(s, pos) == Ok((OnceOrMore(a), p + 2))
    decreases OnceOrMore(a), 1
  {
    AltLevel(a, s, pos + 1);
    GroupPlus(s, pos, a, p);
  }

  /** Parsing a printed pattern gives the pattern back, also when a `)` and anything else follow it. */
  lemma ParsePrint(x: RxNode, rest: seq<CodeUnit>)
    requires Printable(x) && (rest == [] || rest[0] == RParen)
    ensures ParseRegex(Print(x) + rest) == Ok(x)
  {
    var s := Print(x) + rest;
    PrefixAt(Print(x), rest);
    PrintedOf(x, s, 0);
    assert AltStop(s, End(0, x));
    AltLevel(x, s, 0);
  }

  /** Every pattern the parser returns is printable, so printing it and parsing again gives it back. */
  lemma Reparse(s: seq<CodeUnit>)
    requires ParseRegex(s).Ok?
    ensures Printable(ParseRegex(s).value) && ParseRegex(Print(ParseRegex(s).value)) == ParseRegex(s)
  {
    AltPrintable(s, 0);
    ParsePrint(ParseRegex(s).value, []);
    assert Print(ParseRegex(s).value) + [] == Print(ParseRegex(s).value);
  }

  // The parser only builds printable patterns, one parsing function at a time.

  lemma {:induction false} AltPrintable(s: seq<CodeUnit>, pos: nat)
    requires pos <= |s|
    ensures AltAt(s, pos).Ok? ==> Printable(AltAt(s, pos).value.0)
    decreases |s| - pos, 4
  {
    SequencePrintable(s, pos);
    if SequenceAt(s, pos).Ok? {
      var p := SequenceAt(s, pos).value.1;
      if PeekAt(s, p) == Some(Bar) {
        AltPrintable(s, p + 1);
      }
    }
  }

  lemma {:induction false} SequencePrintable(s: seq<CodeUnit>, pos: nat)
    requires pos <= |s|
    ensures SequenceAt(s, pos).Ok? ==> Printable(SequenceAt(s, pos).value.0)
    decreases |s| - pos, 3
  {
    if PeekAt(s, pos) != Some(Bar) && PeekAt(s, pos) != Some(RParen) {
      UnaryPrintable(s, pos);
      if UnaryAt(s, pos).Ok? {
        var p := UnaryAt(s, pos).value.1;
        if PeekAt(s, p) != Some(Bar) && PeekAt(s, p) != Some(RParen) && PeekAt(s, p) != None {
          SequencePrintable(s, p);
        }
      }
    }
  }

  lemma {:induction false} UnaryPrintable(s: seq<CodeUnit>, pos: nat)
    requires pos <= |s|
    ensures UnaryAt(s, pos).Ok? ==> Printable(UnaryAt(s, pos).value.0)
    decreases |s| - pos, 2
  {
    AtomPrintable(s, pos);
    if AtomAt(s, pos).Ok? {
      PostfixPrintable(s, AtomAt(s, pos).value.1, AtomAt(s, pos).value.0);
    }
  }

  lemma {:induction false} AtomPrintable(s: seq<CodeUnit>, pos: nat)
    requires pos <= |s|
    ensures AtomAt(s, pos).Ok? ==> Printable(AtomAt(s, pos).value.0)
    decreases |s| - pos, 1
  {
    if PeekAt(s, pos) == Some(LParen) {
      ParenPrintable(s, pos + 1);
    } else if PeekAt(s, pos) == Some(LBracket) {
      RangePrintable(s, pos + 1, None, {});
    }
  }

  lemma {:induction false} ParenPrintable(s: seq<CodeUnit>, pos: nat)
    requires pos <= |s|
    ensures ParenAt(s, pos).Ok? ==> Printable(ParenAt(s, pos).value.0)
    decreases |s| - pos, 5
  {
    AltPrintable(s, pos);
  }

  lemma {:induction false} RangePrintable(s: seq<CodeUnit>, pos: nat, last: Option<CodeUnit>, acc: set<CodeUnit>)
    requires pos <= |s|
    ensures RangeAt(s, pos, last, acc).Ok? ==> Printable(RangeAt(s, pos, last, acc).value.0)
    decreases |s| - pos
  {
    if pos < |s| && s[pos] != RBracket {
      var (c, p1) := CharAt(s, pos);
      if c == Some(Dash) && last.Some? {
        var (hi, p2) := CharAt(s, p1);
        if hi.Some? && hi.value != MaxCodeUnit {
          RangePrintable(s, p2, hi, acc + Span(last.value, hi.value));
        }
      } else {
        RangePrintable(s, p1, c, acc + (if c.Some? then {c.value} else NullText));
      }
    }
  }

  lemma {:induction false} PostfixPrintable(s: seq<CodeUnit>, pos: nat, a: RxNode)
    requires pos <= |s| && Printable(a)
    ensures Printable(PostfixAt(s, pos, a).0)
    decreases |s| - pos
  {
    if pos < |s| && s[pos] == Plus {
      PostfixPrintable(s, pos + 1, OnceOrMore(a));
    } else if pos < |s| && s[pos] == Question {
      PostfixPrintable(s, pos + 1, Alternative(Empty, a));
    } else if pos < |s| && s[pos] == Star {
      PostfixPrintable(s, pos + 1, Alternative(Empty, OnceOrMore(a)));
    }
  }

  lemma PrefixAt(u: seq<CodeUnit>, rest: seq<CodeUnit>)
    ensures At(u + rest, 0, u)
  {
    forall i | 0 <= i < |u| ensures (u + rest)[0 + i] == u[i] {
    }
  }
}
