/**
 * `RegexParser`: recursive descent over a shared `Tokenizer` cursor. Every
 * parse method consumes input by advancing the cursor and is proved to
 * compute the matching function of `Grammar` from the position it started
 * at; an exception of the source is an `Err` that the callers pass on.
 */
module RegexParser {
  import opened Wrappers
  import opened Regex
  import opened Grammar

  /** `RegexParser.Tokenizer`: the text and a cursor into it. */
  class Tokenizer {
    const s: seq<CodeUnit>
    var pos: nat

    /** The cursor never passes the end of the text. */
    ghost predicate Valid()
      reads this
    {
      pos <= |s|
    }

    constructor (s: seq<CodeUnit>)
      ensures this.s == s && pos == 0 && Valid()
    {
      this.s := s;
      pos := 0;
    }

    /** `peek`: the code unit under the cursor, or `None` (`null`) at the end. */
    function Peek(): (r: Option<CodeUnit>)
      reads this
      ensures r.Some? <==> pos < |s|
      ensures r.Some? ==> r.value == s[pos]
    {
      if pos < |s| then Some(s[pos]) else None
    }

    /** `next`: what `peek` returns, moving the cursor on by one unless it is at the end. */
    method Next() returns (c: Option<CodeUnit>)
      requires Valid()
      modifies this
      ensures Valid()
      ensures c == old(Peek())
      ensures pos == if old(pos) < |s| then old(pos) + 1 else old(pos)
    {
      if pos < |s| {
        c := Some(s[pos]);
        pos := pos + 1;
      } else {
        c := None;
      }
    }
  }

  /** A parse method's result `r` and final cursor `pos` are those `spec` describes. */
  predicate Outcome(r: Result<RxNode, ParseError>, pos: nat, spec: Result<(RxNode, nat), ParseError>)
  {
    match spec
    case Ok((x, p)) => r == Ok(x) && pos == p
    case Err(e) => r == Err(e)
  }

  /** `RegexParser.parse`. */
  method Parse(regex: seq<CodeUnit>) returns (r: Result<RxNode, ParseError>)
    ensures r == ParseRegex(regex)
  {
    var t := new Tokenizer(regex);
    r := ParseAlt(t);
  }

  /** `parseAlt`: a sequence, then `|` and another alternation, nested to the right. */
  method ParseAlt(t: Tokenizer) returns (r: Result<RxNode, ParseError>)
    requires t.Valid()
    modifies t
    ensures t.Valid()
    ensures Outcome(r, t.pos, AltAt(t.s, old(t.pos)))
    decreases |t.s| - t.pos, 4
  {
    var a := ParseSequence(t);
    if a.Err? {
      return a;
    }
    if t.Peek() != Some(Bar) {
      return a;
    }
    var bar := t.Next();
    var b := ParseAlt(t);
    if b.Err? {
      return b;
    }
    r := Ok(Alternative(a.value, b.value));
  }

  /** `parseSequence`: `Empty` before `|` or `)`, otherwise unary terms nested to the right. */
  method ParseSequence(t: Tokenizer) returns (r: Result<RxNode, ParseError>)
    requires t.Valid()
    modifies t
    ensures t.Valid()
    ensures Outcome(r, t.pos, SequenceAt(t.s, old(t.pos)))
    decreases |t.s| - t.pos, 3
  {
    if t.Peek() == Some(Bar) || t.Peek() == Some(RParen) {
      return Ok(Empty);
    }
    var a := ParseUnary(t);
    if a.Err? {
      return a;
    }
    if t.Peek() == Some(Bar) || t.Peek() == Some(RParen) || t.Peek() == None {
      return a;
    }
    var b := ParseSequence(t);
    if b.Err? {
      return b;
    }
    r := Ok(Sequence(a.value, b.value));
  }

  /** `parseUnary`: an atom, then every postfix `+`, `?` or `*` that follows, left to right. */
  method ParseUnary(t: Tokenizer) returns (r: Result<RxNode, ParseError>)
    requires t.Valid()
    modifies t
    ensures t.Valid()
    ensures Outcome(r, t.pos, UnaryAt(t.s, old(t.pos)))
    decreases |t.s| - t.pos, 2
  {
    var atom := ParseAtom(t);
    if atom.Err? {
      return atom;
    }
    var a := atom.value;
    while true
      invariant t.Valid()
      invariant UnaryAt(t.s, old(t.pos)) == Ok(PostfixAt(t.s, t.pos, a))
      decreases |t.s| - t.pos
    {
      if t.Peek() == Some(Plus) {
        var op := t.Next();
        a := OnceOrMore(a);
      } else if t.Peek() == Some(Question) {
        var op := t.Next();
        a := Alternative(Empty, a);
      } else if t.Peek() == Some(Star) {
        var op := t.Next();
        a := Alternative(Empty, OnceOrMore(a));
      } else {
        return Ok(a);
      }
    }
  }

  /** `parseAtom`: a group, a bracketed class, or one (possibly escaped) character. */
  method ParseAtom(t: Tokenizer) returns (r: Result<RxNode, ParseError>)
    requires t.Valid()
    modifies t
    ensures t.Valid()
    ensures Outcome(r, t.pos, AtomAt(t.s, old(t.pos)))
    decreases |t.s| - t.pos, 1
  {
    if t.Peek() == Some(LParen) {
      var open := t.Next();
      r := ParseParen(t);
    } else if t.Peek() == Some(LBracket) {
      var open := t.Next();
      r := ParseCharacterRange(t);
    } else {
      var c := ParseChar(t);
      r := Ok(CharClassNode(OneOf(if c.Some? then {c.value} else NullText)));
    }
  }

  /** `parseParen`: an alternation that a `)` must close, which is consumed. */
  method ParseParen(t: Tokenizer) returns (r: Result<RxNode, ParseError>)
    requires t.Valid()
    modifies t
    ensures t.Valid()
    ensures Outcome(r, t.pos, ParenAt(t.s, old(t.pos)))
    decreases |t.s| - t.pos, 5
  {
    var a := ParseAlt(t);
    if a.Err? {
      return a;
    }
    if t.Peek() != Some(RParen) {
      return Err(UnclosedGroup(t.Peek()));
    }
    var close := t.Next();
    r := a;
  }

  /** The `for` loop of `parseCharacterRange`: append the code units `lo..hi` to `members`. */
  method AppendSpan(members: set<CodeUnit>, lo: CodeUnit, hi: CodeUnit) returns (r: set<CodeUnit>)
    requires hi < MaxCodeUnit
    ensures r == members + Span(lo, hi)
  {
    r := members;
    var i: int := lo;
    while i <= hi
      invariant lo <= i && (i <= hi + 1 || i == lo)
      invariant r == members + Span(lo, i - 1)
      decreases hi - i
    {
      r := r + {i as CodeUnit};
      i := i + 1;
    }
  }

  /**
   * `parseCharacterRange`, just after the `[`: members up to the closing
   * `]`, which is consumed. Where the source would loop forever (no `]`
   * before the end, or a range ending at U+FFFF) the result is
   * `Err(NoTermination)`.
   */
  method ParseCharacterRange(t: Tokenizer) returns (r: Result<RxNode, ParseError>)
    requires t.Valid()
    modifies t
    ensures t.Valid()
    ensures Outcome(r, t.pos, RangeAt(t.s, old(t.pos), None, {}))
  {
    var members: set<CodeUnit> := {};
    var last: Option<CodeUnit> := None;
    while t.Peek() != Some(RBracket)
      invariant t.Valid()
      invariant RangeAt(t.s, t.pos, last, members) == RangeAt(t.s, old(t.pos), None, {})
      decreases |t.s| - t.pos
    {
      if t.Peek() == None {
        return Err(NoTermination);
      }
      var c := ParseChar(t);
      if c == Some(Dash) && last.Some? {
        c := ParseChar(t);
        if c.None? {
          return Err(NullRangeEnd);
        }
        if c.value == MaxCodeUnit {
          return Err(NoTermination);
        }
        members := AppendSpan(members, last.value, c.value);
      } else {
        members := members + (if c.Some? then {c.value} else NullText);
      }
      last := c;
    }
    var close := t.Next();
    r := Ok(CharClassNode(OneOf(members)));
  }

  /** `parseChar`: skip one `\`, then take the next code unit (`None` at the end). */
  method ParseChar(t: Tokenizer) returns (c: Option<CodeUnit>)
    requires t.Valid()
    modifies t
    ensures t.Valid()
    ensures (c, t.pos) == CharAt(t.s, old(t.pos))
  {
    if t.Peek() == Some(Backslash) {
      var escape := t.Next();
    }
    c := t.Next();
  }
}
