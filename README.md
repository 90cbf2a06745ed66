# Regex-to-automaton compiler (`net.ire.regex`), modelled in Dafny

This project models the two classes of the `net.ire.regex` package that turn
textual regular expressions into one deterministic, lazily built automaton:

- `RegexParser` — a recursive-descent parser over a shared `Tokenizer`
  cursor. It produces the `RxNode` pattern tree (`Empty`, character class,
  `Sequence`, `Alternative`, `OnceOrMore`, `Labeled`).
- `RegexCompiler` — it labels each pattern with its index and joins the
  labelled patterns into one `Alternative`. Then it builds a Thompson
  epsilon-NFA (`toNFA`) and removes epsilon edges by merging closures into
  macro-nodes (`computeEClosure`, using `dfs`). Finally, `toDFA` exposes a
  DFA over sets of macro-nodes ("power states"). That DFA computes and caches
  one transfer table per character, and it can reset a pattern that has just
  terminated. `compileToBiDFA` frames every pattern so it matches anywhere in
  the text (forward automaton). It also reverses every pattern (backward
  automaton).

Layout, one module per component:

| file | module | models |
|---|---|---|
| `wrappers.dfy` | `Wrappers` | `Option`, `Result` |
| `regex.dfy` | `Regex` | `RxNode`, `CharacterClass` (`OneOf` / `AnyChar`), and the language of a pattern (`Matches`) |
| `reversal.dfy` | `Reversal` | `reverse` |
| `nfa.dfy` | `Nfa` | `NFA`, `NFA.Node` as an arena of nodes; runs of an NFA |
| `thompson.dfy` | `Thompson` | `toNFA`, `Node.transition`, `patternIds.add` (class `Arena`) |
| `search.dfy` | `Search` | `dfs` |
| `eclosure.dfy` | `EClosure` | `computeEClosure` |
| `determinize.dfy` | `Determinize` | `toDFA`: `basis`, `computeTransferFor`, `forToken`, the initial state, `resetTerminatedPattern` (class `Dfa`) |
| `compiler.dfy` | `Compiler` | `compileToDFA`, `compileToBiDFA` |
| `grammar.dfy` | `Grammar` | the parser's behaviour as functions of (text, position) |
| `parser.dfy` | `RegexParser` | `Tokenizer` and the parse methods, proved equal to `Grammar` |
| `parse_facts.dfy` | `ParseFacts` | where a parse stops, locality, and worked examples |
| `roundtrip.dfy` | `RoundTrip` | a printer for every pattern the parser builds (classes as `[...]`), and the proofs that parsing a printed pattern returns it and that every parse result prints and re-parses to itself |

Modelling choices:

- A Java `char` is a `CodeUnit`, an integer in `0..0xFFFF`. Strings are
  sequences of code units.
- A `CharacterClass` is `OneOf(set)` or `AnyChar`, and `acceptsChar` is
  membership. Two classes are equal when they are equal values.
- NFA nodes are indices into an arena (`seq<Node>`). This replaces the global
  `AtomicInteger` id and the id-based `equals`/`hashCode`. An epsilon edge
  (`null` class) is `Edge(None, target)`.
- Macro-nodes are `Node`s of a second arena. They are numbered in the order
  they are created, and index 0 is the new initial node, as in `toDFA`'s
  `id2node`. The order in which the other macro-nodes are created, and the
  order of each macro-node's edges, agree with the source only up to a
  renaming of macro-nodes: the model walks a contents set and the classes
  found in it in an unspecified order (see "Left out"). The first contents
  set of a new macro-node is kept in `contents`, and `index` maps contents
  back to macro-nodes.
- `WrappedBitSet` is `set<nat>`. A transfer table is a sequence of rows, one
  set of successor macro-nodes per macro-node. The lazy cache is a map from
  code unit to table.
- Java exceptions are `Err` values: `EmptyPatternList` and
  `UnclosedGroup(got)`. `NullRangeEnd` stands for the `NullPointerException`
  raised when a range `x-` meets the end of input. Inputs on which the source
  loops forever give `Err(NoTermination)`. These are an unterminated `[`, a
  trailing `\` inside `[`, and a range whose upper end is U+FFFF (the `char`
  loop variable wraps round).
- A missing character (`parseChar` returning `null`) becomes the class of the
  three code units of the text `"null"`, as `CharacterClass.oneOf("" + null)`
  does.
- `compileToDFA` folds the labelled patterns to the left:
  `Alternative(Alternative(L0, L1), L2)`.

## Model

| member | source | states |
|---|---|---|
| `Reversal.ReverseInvolutive` | src/net/ire/regex/RegexCompiler.java:298-319 | reversing twice gives back the original pattern |
| `Reversal.ReverseLanguage` | src/net/ire/regex/RegexCompiler.java:298-319 | the reversed pattern matches a word exactly when the original matches its mirror image (only `Sequence` swaps operands) |
| `Reversal.ReverseLabels` | src/net/ire/regex/RegexCompiler.java:313-315 | reversal keeps every pattern id |
| `Reversal.RevRev` | src/net/ire/regex/RegexCompiler.java:298-319 | mirroring a word twice gives it back (used to state the reversed language) |
| `Compiler.Combine` | src/net/ire/regex/RegexCompiler.java:41-52 | an error exactly for the empty list; otherwise pattern i is wrapped as `Labeled(p_i, i)` and the labelled patterns are left-folded into `Alternative`s |
| `Compiler.LabeledFoldMatches` | src/net/ire/regex/RegexCompiler.java:45-52 | the joined pattern matches a word exactly when one of the patterns does |
| `Compiler.LabeledFoldLabels` | src/net/ire/regex/RegexCompiler.java:45-52 | the joined pattern carries the ids `0..n-1` plus the ids already inside the patterns, and nothing else |
| `Compiler.CompileToDfa` | src/net/ire/regex/RegexCompiler.java:41-54 | an error exactly for the empty list; otherwise a fresh, valid DFA with an empty cache, whose NFA is the Thompson fragment of the joined pattern and whose macro-nodes are its epsilon-closure graph, each basis pattern set being the union of the pattern ids of its macro-node's contents |
| `Compiler.Frame` | src/net/ire/regex/RegexCompiler.java:30-37 | root i becomes `Sequence(dotStar, Sequence(root, dotStar))` forward and `Sequence(reverse(root), dotStar)` backward |
| `Compiler.CompileToBiDfa` | src/net/ire/regex/RegexCompiler.java:30-39 | an error exactly for the empty list; otherwise two fresh DFAs, built separately from the forward and the backward framings, each with macro-nodes forming the epsilon-closure graph of its own NFA and each basis pattern set the union of its macro-node's pattern ids |
| `Compiler.DotStarAll` | src/net/ire/regex/RegexCompiler.java:34 | `dotStar` matches every word |
| `Compiler.AnywhereLanguage` | src/net/ire/regex/RegexCompiler.java:34-35 | the forward framing matches exactly the texts that contain a word of the pattern |
| `Compiler.ReversedPrefixLanguage` | src/net/ire/regex/RegexCompiler.java:36 | the backward framing, fed a text read from its end, matches exactly when some prefix, put back in text order, is a word of the pattern |
| `Thompson.Arena.NewNode` | src/net/ire/regex/RegexCompiler.java:274-279 | a new node with no edges and no pattern ids is appended to the arena; its index is the old arena size |
| `Thompson.Arena.Transition` | src/net/ire/regex/RegexCompiler.java:281-283 | the edge is appended to the node's out-list; nothing else changes |
| `Thompson.Arena.AddPatternId` | src/net/ire/regex/RegexCompiler.java:259 | the pattern id is added to one node; nothing else changes |
| `Thompson.Arena.ToNfa` | src/net/ire/regex/RegexCompiler.java:227-264 | the fragment's begin and end are distinct fresh nodes; older nodes are untouched; fresh nodes point only at fresh nodes; a label lands on the end node; and begin-to-end runs read exactly the language of the pattern |
| `Thompson.Arena.BuildLeaf` | src/net/ire/regex/RegexCompiler.java:237-244 | `Empty` and a character class add two nodes joined by one epsilon edge, or by one edge labelled with the class |
| `Thompson.Arena.BuildAlternative` | src/net/ire/regex/RegexCompiler.java:228-236 | a fresh begin/end pair is created; the begin node has exactly two epsilon edges and the end node none; the branches are built into fragments in turn after the pair, linked to it by epsilon edges begin-to-branch and branch-to-end; the fragment reads the union of the branches' languages |
| `Thompson.AltStructure` | src/net/ire/regex/RegexCompiler.java:228-236 | the four epsilon edges of `Alternative` are begin→a.begin, begin→b.begin, a.end→end and b.end→end, added to otherwise unchanged sub-fragments |
| `Thompson.Arena.BuildSequence` | src/net/ire/regex/RegexCompiler.java:250-255 | the operands are built in turn, the first one's end gets one epsilon edge to the second one's begin, and the fragment runs from the first begin to the second end; it reads exactly the concatenation of the two operands' languages, on fresh nodes only |
| `Thompson.SeqSound` | src/net/ire/regex/RegexCompiler.java:250-255 | the epsilon edge a.end→b.begin lets every concatenated word through |
| `Thompson.Arena.BuildOnceOrMore` | src/net/ire/regex/RegexCompiler.java:245-249 | the new arena is the operand's fragment with one epsilon edge added from its end back to its begin; the fragment reads one or more iterations |
| `Thompson.LabelOnEndOnly` | src/net/ire/regex/RegexCompiler.java:256-260 | after the id is added to the end node, among the new nodes exactly the end node carries the id, when the operand has no label of that id |
| `Thompson.Arena.BuildLabeled` | src/net/ire/regex/RegexCompiler.java:256-260 | the id is added to the end node only: the new arena is the fragment of the operand with the id added to its end node's set, so no other node gains it, and the language is unchanged |
| `Search.Dfs` | src/net/ire/regex/RegexCompiler.java:204-219 | the result is exactly the set of nodes reachable from `origin` along followed edges (all edges, or only epsilon edges); it contains `origin` and is closed under those edges |
| `Search.PushTargets` | src/net/ire/regex/RegexCompiler.java:211-215 | after pushing the followed edges of a visited node, every followed edge out of every visited node leads into the result or onto the stack, and everything on the stack is still reachable from `origin` |
| `Search.ClosedContainsReachable` | src/net/ire/regex/RegexCompiler.java:204-219 | a set closed under the followed edges holds everything reachable from each member |
| `EClosure.ClosureTableOf` | src/net/ire/regex/RegexCompiler.java:150-155 | `node2closure` maps every reachable node to its epsilon closure |
| `EClosure.UnionPatternIds` | src/net/ire/regex/RegexCompiler.java:162-164 | a macro-node's pattern ids are the union of its members' pattern ids |
| `EClosure.GroupEdges` | src/net/ire/regex/RegexCompiler.java:173-183 | one member's out-edges are grouped by class: epsilon edges are skipped, and each class gathers the epsilon closures of its targets |
| `EClosure.GroupByClass` | src/net/ire/regex/RegexCompiler.java:171-184 | `class2dest` has one key per class on a non-epsilon member edge, each mapped to the union of the epsilon closures of that class's targets |
| `EClosure.LinkOne` | src/net/ire/regex/RegexCompiler.java:186-197 | one destination set gets the macro-node already recorded for it, or a fresh one appended with the union of its members' pattern ids and queued; the edge added leads to a macro-node whose contents are that set, and no other macro-node changes |
| `EClosure.LinkClasses` | src/net/ire/regex/RegexCompiler.java:185-198 | each class gets exactly one edge, to the macro-node of its destination set; that macro-node is created only if the contents set is new |
| `EClosure.Expand` | src/net/ire/regex/RegexCompiler.java:168-198 | one turn of the worklist finishes the oldest queued macro-node (one edge per member class, to the closure of its targets), keeps every finished node finished and the later ones unfinished, and either adds no contents set or adds one not seen before |
| `EClosure.ComputeEClosure` | src/net/ire/regex/RegexCompiler.java:149-202 | macro-node 0 holds the epsilon closure of `begin`; contents sets are pairwise distinct; contents hold only nodes reachable from `begin`; pattern ids are the members' union; every macro-node has one edge per member class, leading to the closure of that class's targets |
| `Determinize.TerminatedSets` | src/net/ire/regex/RegexCompiler.java:72-79 | basis state i's terminated patterns are macro-node i's pattern ids |
| `Determinize.Dfa.constructor` | src/net/ire/regex/RegexCompiler.java:57-111 | the macro-nodes are the epsilon-closure graph of the NFA; each basis state holds the union of its members' pattern ids; the initial power state is exactly `{0}`; the cache is empty |
| `Determinize.Dfa.ComputeTransferFor` | src/net/ire/regex/RegexCompiler.java:93-106 | row i holds j exactly when macro-node i has an edge to j whose class accepts the character |
| `Determinize.RowStep` | src/net/ire/regex/RegexCompiler.java:93-106 | the macro-nodes of row i stand for exactly the NFA nodes that one step on the character reaches from macro-node i's contents |
| `Determinize.Dfa.ForToken` | src/net/ire/regex/RegexCompiler.java:84-91 | the result is the transfer table for the character; it is stored in the cache, and a cached entry is returned unchanged |
| `Determinize.Dfa.ResetTerminatedPattern` | src/net/ire/regex/RegexCompiler.java:135-145 | the result is the sub-states of `state` that have not terminated the pattern, plus the initial macro-node |
| `RegexParser.Tokenizer.Peek` | src/net/ire/regex/RegexParser.java:106-108 | the code unit under the cursor, or `None` exactly at the end |
| `RegexParser.Tokenizer.Next` | src/net/ire/regex/RegexParser.java:110-112 | returns what `peek` would and advances by one unless at the end, so the cursor never passes the end |
| `RegexParser.Parse` | src/net/ire/regex/RegexParser.java:7-9 | parses an alternation from position 0 of a new tokenizer and ignores what follows it |
| `RegexParser.ParseAlt` | src/net/ire/regex/RegexParser.java:11-19 | result and final cursor are those of `Grammar.AltAt`: a sequence, then optionally `|` and an alternation nested to the right |
| `RegexParser.ParseSequence` | src/net/ire/regex/RegexParser.java:21-31 | result and final cursor are those of `Grammar.SequenceAt`: `Empty` before `|` or `)`, otherwise unary terms nested to the right |
| `RegexParser.ParseUnary` | src/net/ire/regex/RegexParser.java:33-49 | result and final cursor are those of `Grammar.UnaryAt`: an atom with every following `+`, `?`, `*` applied left to right |
| `RegexParser.ParseAtom` | src/net/ire/regex/RegexParser.java:51-61 | result and final cursor are those of `Grammar.AtomAt`: a group, a bracketed class, or a one-character class |
| `RegexParser.ParseParen` | src/net/ire/regex/RegexParser.java:63-70 | result and final cursor are those of `Grammar.ParenAt`: the `)` is required, `UnclosedGroup` otherwise, and it is consumed |
| `RegexParser.ParseCharacterRange` | src/net/ire/regex/RegexParser.java:72-89 | result and final cursor are those of `Grammar.RangeAt`, including its error cases |
| `RegexParser.AppendSpan` | src/net/ire/regex/RegexParser.java:79-81 | every code unit from `lo` to `hi` inclusive is added |
| `RegexParser.ParseChar` | src/net/ire/regex/RegexParser.java:91-96 | result and final cursor are those of `Grammar.CharAt` |
| `Grammar.CharAt` | src/net/ire/regex/RegexParser.java:91-96 | one `\` is skipped and the next code unit is returned; `None` exactly at the end or after a final `\` |
| `Grammar.Span` | src/net/ire/regex/RegexParser.java:79-81 | holds exactly the code units from `lo` to `hi` |
| `ParseFacts.SequenceStops` | src/net/ire/regex/RegexParser.java:21-31 | a sequence stops before `|`, before `)`, or at the end |
| `ParseFacts.AltStops` | src/net/ire/regex/RegexParser.java:11-19 | an alternation stops before `)` or at the end |
| `ParseFacts.AltLocal` | src/net/ire/regex/RegexParser.java:11-19 | an alternation reads nothing after the position where it stops |
| `ParseFacts.TrailingIgnored` | src/net/ire/regex/RegexParser.java:7-9 | a top-level parse that stops early stops at a `)`, and whatever follows that `)` never changes the result |
| `ParseFacts.PlainUnary` | src/net/ire/regex/RegexParser.java:59 | a non-special character is a one-character class |
| `ParseFacts.EscapedUnary` | src/net/ire/regex/RegexParser.java:91-96 | `\` makes the next character a literal one-character class |
| `ParseFacts.AltExample` | src/net/ire/regex/RegexParser.java:11-19 | the text a, bar, b, bar, c parses to `Alternative(a, Alternative(b, c))` |
| `ParseFacts.SequenceExample` | src/net/ire/regex/RegexParser.java:21-31 | `abc` parses to `Sequence(a, Sequence(b, c))` |
| `ParseFacts.EmptyExample` | src/net/ire/regex/RegexParser.java:22-24 | an empty operand before a bar or `)` is `Empty` |
| `ParseFacts.PostfixExample` | src/net/ire/regex/RegexParser.java:33-49 | `a+?` is `Alternative(Empty, OnceOrMore(a))`, and so is `a*` |
| `ParseFacts.GroupExample` | src/net/ire/regex/RegexParser.java:63-70 | `(a` fails with `UnclosedGroup`; `a)b` stops at the `)` |
| `ParseFacts.RangeExample` | src/net/ire/regex/RegexParser.java:72-89 | `[a-c]` is the class `{a, b, c}` and `[ab]` is `{a, b}` |
| `ParseFacts.RangeDash` | src/net/ire/regex/RegexParser.java:77-81 | a `-` after a member `x`, followed by `y` < U+FFFF, adds exactly the code units `x..y` (none when `y` < `x`) and continues with `y` as the last member; `y` = U+FFFF never terminates |
| `ParseFacts.RangeDashEnd` | src/net/ire/regex/RegexParser.java:77-79 | a `-` after a member with nothing after it fails with `NullRangeEnd` |
| `ParseFacts.RangeErrorExample` | src/net/ire/regex/RegexParser.java:75-79 | `[a` and a range ending at U+FFFF never terminate, and `[a-` fails on the missing range end |
| `ParseFacts.EscapeExample` | src/net/ire/regex/RegexParser.java:91-96 | `\(` is a literal `(`; an empty text or a final `\` gives the class of `"null"` |
| `RoundTrip.ParsePrint` | src/net/ire/regex/RegexParser.java:7-96 | for every pattern without labels and without `AnyChar`, parsing its print (fully parenthesised, literals escaped, each `OneOf` class as a bracket class of escaped members with `-` first) gives the pattern back, also when a `)` and anything else follow |
| `RoundTrip.Reparse` | src/net/ire/regex/RegexParser.java:7-96 | every pattern the parser returns is printable, and parsing its print gives the same pattern back |
| `RoundTrip.RangeList` | src/net/ire/regex/RegexParser.java:72-89 | a class body of escaped members (a `-` only first, when there is no previous member) adds exactly those members to the accumulator and ends after the `]` |

## Left out

- `compile(List<RxNode>)` and `compile(String...)`: they only wrap the result into `DFARopePatternSet`, which is not part of this model.
- The commented-out Graphviz dump in `toDFA`: it is dead code.
- The global `AtomicInteger` node counter and id-based node equality: arena indices replace them.
- `reduceNFA`: it returns its argument unchanged, so `Compiler.CompileToDfa` builds the DFA from `toNFA`'s result directly.
- The `UnsupportedOperationException` for an unknown `RxNode` subclass: the datatype is closed, so that branch cannot happen.
- Concurrency of the unsynchronised transfer cache: the cache is a sequential map from code unit to table. It is not a 65536-slot array shared by threads.
- `PowerIntTable` (including `next` and `REDUCER`), `PowerIntState`, `WrappedBitSet`, `CharacterClass`, `DFA` and `BiDFA` are not part of this model. The model keeps only what `toDFA` hands them: the rows, the basis sets, the initial set and the reset rule. How `PowerIntTable.next` combines rows, and a power state's terminated-pattern query, are not modelled.
- `numPatterns`: it only sizes the source's bitsets, so the `Determinize.Dfa` constructor accepts it and does not use it.
- The copy into a fresh `WrappedBitSet` in `resetTerminatedPattern`: power states are values here, so the input state cannot change.
- Full regular-language correctness of the composed automaton (that scanning a text reports every occurrence) is not proved. What is proved is the chain of its parts: each Thompson fragment reads exactly its pattern's language; epsilon closure and macro-node contents are exact; and each transfer row is exactly one NFA step on the contents.
- Boxed-`Character` reference comparisons in the parser are modelled as value equality on code units.
- Non-termination of `parseCharacterRange` is modelled as the error value `NoTermination`, not as divergence.
- `EClosure.GroupByClass`, `EClosure.UnionPatternIds` and `EClosure.ComputeEClosure`: contents sets are `set<nat>`, so the model visits the members of a contents set in an unspecified order, while the source walks its `LinkedHashSet`s in insertion order and `class2dest.keySet()` in first-seen order. The numbering of the macro-nodes other than the initial one, and the order of each macro-node's edges, therefore match the source only up to a renaming of macro-nodes; the contents of every macro-node, its pattern ids, and the class and destination contents of each of its edges are exact.
