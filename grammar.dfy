/**
 * The language accepted by `RegexParser`, written as functions of the input
 * and a position: each returns the parsed node and the position after it,
 * or the way the parse fails. The imperative parser is proved to compute
 * these; the lemmas about parsing are stated here.
 */
module Grammar {
  import opened Wrappers
  import opened Regex

  const Bar: CodeUnit := 0x7C        // '|'
  const LParen: CodeUnit := 0x28     // '('
  const RParen: CodeUnit := 0x29     // ')'
  const LBracket: CodeUnit := 0x5B   // '['
  const RBracket: CodeUnit := 0x5D   // ']'
  const Backslash: CodeUnit := 0x5C  // '\'
  const Dash: CodeUnit := 0x2D       // '-'
  const Plus: CodeUnit := 0x2B       // '+'
  const Question: CodeUnit := 0x3F   // '?'
  const Star: CodeUnit := 0x2A       // '*'

  /** The characters of the text "null", which Java's string concatenation produces for a missing character. */
  const NullText: set<CodeUnit> := {0x6E, 0x75, 0x6C}

  datatype ParseError =
    | UnclosedGroup(got: Option<CodeUnit>)  // `IllegalArgumentException("Expected ')', got ...")`
    | NullRangeEnd                          // a range `x-` cut off by the end of input: unboxing `null`
    | NoTermination                         // the source loops forever on this input

  /** `Tokenizer.peek` at `pos`. */
  function PeekAt(s: seq<CodeUnit>, pos: nat): Option<CodeUnit>
  {
    if pos < |s| then Some(s[pos]) else None
  }

  /** `parseChar`: skip one backslash, then take the next character if there is one. */
  function CharAt(s: seq<CodeUnit>, pos: nat): (r: (Option<CodeUnit>, nat))
    requires pos <= |s|
    ensures pos <= r.1 <= |s|
    ensures pos < |s| ==> pos < r.1
    ensures r.0.None? <==> pos == |s| || (s[pos] == Backslash && pos + 1 == |s|)
    ensures r.0.Some? ==> r.1 == (if s[pos] == Backslash then pos + 2 else pos + 1) && r.0.value == s[r.1 - 1]
  {
    var p := if pos < |s| && s[pos] == Backslash then pos + 1 else pos;
    if p < |s| then (Some(s[p]), p + 1) else (None, p)
  }

  /** The code units `lo..hi`, both included. */
  function Span(lo: int, hi: int): (r: set<CodeUnit>)
    requires 0 <= lo && hi <= MaxCodeUnit
    ensures forall c: CodeUnit :: c in r <==> lo <= c <= hi
    decreases hi - lo
  {
    if lo > hi then {} else {lo as CodeUnit} + Span(lo + 1, hi)
  }

  /**
   * The loop of `parseCharacterRange` from `pos`, with the previous member
   * `last` and the members `acc` collected so far.
   */
  ghost function RangeAt(s: seq<CodeUnit>, pos: nat, last: Option<CodeUnit>, acc: set<CodeUnit>): (r: Result<(RxNode, nat), ParseError>)
    requires pos <= |s|
    ensures r.Ok? ==> pos < r.value.1 <= |s|
    decreases |s| - pos
  {
    if pos == |s| then Err(NoTermination)
    else if s[pos] == RBracket then Ok((CharClassNode(OneOf(acc)), pos + 1))
    else
      var (c, p1) := CharAt(s, pos);
      if c == Some(Dash) && last.Some? then
        var (hi, p2) := CharAt(s, p1);
        if hi.None? then Err(NullRangeEnd)
        else if hi.value == MaxCodeUnit then Err(NoTermination)
        else RangeAt(s, p2, hi, acc + Span(last.value, hi.value))
      else
        RangeAt(s, p1, c, acc + (if c.Some? then {c.value} else NullText))
  }

  /** The `while(true)` loop of `parseUnary` from `pos`, applied to the operand `a`. */
  function PostfixAt(s: seq<CodeUnit>, pos: nat, a: RxNode): (r: (RxNode, nat))
    requires pos <= |s|
    ensures pos <= r.1 <= |s|
    decreases |s| - pos
  {
    if pos < |s| && s[pos] == Plus then PostfixAt(s, pos + 1, OnceOrMore(a))
    else if pos < |s| && s[pos] == Question then PostfixAt(s, pos + 1, Alternative(Empty, a))
    else if pos < |s| && s[pos] == Star then PostfixAt(s, pos + 1, Alternative(Empty, OnceOrMore(a)))
    else (a, pos)
  }

  /** `parseAlt` from `pos`. */
  ghost function AltAt(s: seq<CodeUnit>, pos: nat): (r: Result<(RxNode, nat), ParseError>)
    requires pos <= |s|
    ensures r.Ok? ==> pos <= r.value.1 <= |s|
    decreases |s| - pos, 4
  {
    match SequenceAt(s, pos)
    case Err(e) => Err(e)
    case Ok((a, p)) =>
      if PeekAt(s, p) != Some(Bar) then Ok((a, p))
      else
        match AltAt(s, p + 1)
        case Err(e) => Err(e)
        case Ok((b, q)) => Ok((Alternative(a, b), q))
  }

  /** `parseSequence` from `pos`. */
  ghost function SequenceAt(s: seq<CodeUnit>, pos: nat): (r: Result<(RxNode, nat), ParseError>)
    requires pos <= |s|
    ensures r.Ok? ==> pos <= r.value.1 <= |s|
    ensures r.Ok? && pos < |s| && s[pos] != Bar && s[pos] != RParen ==> pos < r.value.1
    decreases |s| - pos, 3
  {
    if PeekAt(s, pos) == Some(Bar) || PeekAt(s, pos) == Some(RParen) then Ok((Empty, pos))
    else
      match UnaryAt(s, pos)
      case Err(e) => Err(e)
      case Ok((a, p)) =>
        if PeekAt(s, p) == Some(Bar) || PeekAt(s, p) == Some(RParen) || PeekAt(s, p) == None then Ok((a, p))
        else
          match SequenceAt(s, p)
          case Err(e) => Err(e)
          case Ok((b, q)) => Ok((Sequence(a, b), q))
  }

  /** `parseUnary` from `pos`. */
  ghost function UnaryAt(s: seq<CodeUnit>, pos: nat): (r: Result<(RxNode, nat), ParseError>)
    requires pos <= |s|
    ensures r.Ok? ==> pos <= r.value.1 <= |s|
    ensures r.Ok? && pos < |s| ==> pos < r.value.1
    decreases |s| - pos, 2
  {
    match AtomAt(s, pos)
    case Err(e) => Err(e)
    case Ok((a, p)) => Ok(PostfixAt(s, p, a))
  }

  /** `parseAtom` from `pos`. */
  ghost function AtomAt(s: seq<CodeUnit>, pos: nat): (r: Result<(RxNode, nat), ParseError>)
    requires pos <= |s|
    ensures r.Ok? ==> pos <= r.value.1 <= |s|
    ensures r.Ok? && pos < |s| ==> pos < r.value.1
    decreases |s| - pos, 1
  {
    if PeekAt(s, pos) == Some(LParen) then ParenAt(s, pos + 1)
    else if PeekAt(s, pos) == Some(LBracket) then RangeAt(s, pos + 1, None, {})
    else
      var (c, p) := CharAt(s, pos);
      Ok((CharClassNode(OneOf(if c.Some? then {c.value} else NullText)), p))
  }

  /** `parseParen` from `pos`, just after the `(`. */
  ghost function ParenAt(s: seq<CodeUnit>, pos: nat): (r: Result<(RxNode, nat), ParseError>)
    requires pos <= |s|
    ensures r.Ok? ==> pos < r.value.1 <= |s|
    decreases |s| - pos, 5
  {
    match AltAt(s, pos)
    case Err(e) => Err(e)
    case Ok((a, p)) =>
      if PeekAt(s, p) != Some(RParen) then Err(UnclosedGroup(PeekAt(s, p)))
      else Ok((a, p + 1))
  }

  /** `RegexParser.parse`: whatever follows the first top-level pattern is ignored. */
  ghost function ParseRegex(s: seq<CodeUnit>): Result<RxNode, ParseError>
  {
    match AltAt(s, 0)
    case Err(e) => Err(e)
    case Ok((x, _)) => Ok(x)
  }
}
