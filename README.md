# regox in Dafny

A model of regox, a small regular-expression engine written in Go, together
with proofs about it. The engine has two halves, and the model keeps both.

The matcher (`regox.go`) builds each regex construct as a `consumer`: a
function from the remaining input to a `RegResult` (success, captures,
coverage). The constructs are:

- `atom`
- the one-character classes `word`, `digit`, `any`, `backslash`, `space`,
  `tab` and `inRange`
- `negate` and `set`
- `option`
- the greedy repetitions `repeat`, `rangeRepeat`, `star` and `plus`, which
  never backtrack
- `concat`, first-success `union`, and `capture`

`Match`, `Matches` and `MatchAll` are the query API on top of them.

The parser (`parser.go`) has three stages:

- `tokenize` lexes a pattern into plain runs, structural characters and
  `\x` escapes.
- `setTokenize` lexes the contents of `[...]`.
- `splitConcatenation`/`splitRegex` parse the token list right to left. They
  peel one trailing unit at a time and reassemble the units in order.
  `splitUnion`, `deparens`, `separens` and `parencontains` do the
  depth-counted bracket work.

Modules, one per file:

- `Matcher` (matcher.dfy): the closed `datatype Node` standing for the
  consumer closures, and the total evaluator `Eval`. Its contract carries
  the central fact: a failure is exactly `Failure()`, and a success covers a
  prefix of its input.
- `Consumers` (consume.dfy): the loops of `regox.go` as methods, each proved
  equal to `Eval`.
- `MatcherFacts` (facts.dfy): what each construct accepts, stated as
  lemmas.
- `Regox` (regox.dfy): `Regex`, `Match`, `Matches`, and `MatchAll` with its
  left-to-right scan.
- `Lexer` (lexer.dfy): `tokenize`, `setTokenize`, `abbreviate`, `strSplit`
  and `strcontains` as loop methods. Each is proved against a
  specification function (`Lex`, `SetLex`, `Flatten`, `SplitOnce`), and
  the lexing properties are proved about those functions.
- `Brackets` (brackets.dfy): `deparens`/`separens` (`Group`), `parencontains`
  (`ParenHas`) and `splitUnion` (`Cut`, the split at top-level bars).
- `Parser` (parser.dfy): `splitRegex`, `splitSingular`, `splitSet`,
  `splitConcatenation` and `Parse`. A `None` result stands for a runtime
  panic of the source.
- `ParserFacts` (parser_facts.dfy): how whole patterns parse, and what the
  parsed trees match.

`RegResult` and the helpers `result` and `failure` (regox.go:10-14, 343-349)
are `Matcher.RegResult`, `Matcher.Success` and `Matcher.Failure`. The
`Regex` struct (regox.go:4-7) is `Regox.Regex`, a pattern text with its
tree.

## Model

| member | source | states |
|---|---|---|
| Matcher.Eval | regox.go:64-349 | every outcome is well shaped: a failure is exactly `failure()` (no captures, empty coverage), and a success covers a prefix of the input it was given |
| Matcher.Times | regox.go:208-222 | `repeat`'s remaining `k` applications fail as `failure()` or cover a prefix of the remaining input |
| Matcher.Greedy | regox.go:234-242 | `rangeRepeat`'s greedy loop covers a prefix of the input and counts at most the `k` applications it may make |
| Matcher.GreedyRun | regox.go:257-266 | the `star`/`plus` loop covers a prefix of the remaining input |
| Matcher.Sequence | regox.go:305-314 | `concat`'s children from `i` on give a well-shaped outcome |
| Matcher.FirstSuccess | regox.go:321-327 | `union`'s children from `i` on give a well-shaped outcome |
| Matcher.AfterAfter | regox.go:305-314 | gathering captures and coverage in two steps equals gathering them at once |
| Consumers.Consume | regox.go:64-340 | dispatching a node to its consumer computes exactly `Eval` |
| Consumers.ConsumeNegate | regox.go:154-165 | `negate` computes `Eval` of the node |
| Consumers.ConsumeOptional | regox.go:197-205 | `option` computes `Eval` of the node |
| Consumers.ConsumeCapture | regox.go:332-340 | `capture` computes `Eval` of the node |
| Consumers.ConsumeSet | regox.go:168-181 | `set`'s loop with early return computes `Eval` of the node |
| Consumers.ConsumeRepeat | regox.go:208-222 | `repeat`'s counted loop equals `Times` for the repetition count (none when it is not positive) |
| Consumers.ConsumeRangeRepeat | regox.go:225-248 | `rangeRepeat`'s loop, capped at `maxReps` or at `len(input)` when `maxReps` is -1, equals the greedy tally, which is then checked against both bounds |
| Consumers.GreedyStart | regox.go:227-233 | the initial accumulators and cap start the greedy invariant |
| Consumers.GreedyStop | regox.go:234-238 | the loop ends (cap reached or first failure) exactly when the gathered tally is the whole greedy tally |
| Consumers.GreedyAdvance | regox.go:235-241 | one successful application keeps the greedy invariant |
| Consumers.GreedyStep | regox.go:234-242 | one unrolling of the greedy loop: a failure stops it, a success adds one application |
| Consumers.ConsumeStar | regox.go:251-269 | `star` always succeeds, with no captures, covering the greedy run |
| Consumers.ConsumePlus | regox.go:272-294 | `plus` runs the same loop, keeps the captures, and fails when nothing was applied |
| Consumers.RunStep | regox.go:257-266 | one unrolling of the `star`/`plus` loop |
| Consumers.RunBegin | regox.go:253-256 | the initial accumulators start the run invariant |
| Consumers.RunEnd | regox.go:257 | at the end of the input the run is empty |
| Consumers.RunStop | regox.go:257-265 | the loop ends (end of input or first failure) exactly when the gathered run is the whole run |
| Consumers.RunAdvance | regox.go:258-262 | a success with coverage keeps the run invariant; a success without coverage ends the run |
| Consumers.ConsumeConcat | regox.go:297-316 | `concat` with no children fails; otherwise its loop equals `Sequence` from the first child |
| Consumers.SequenceStep | regox.go:305-313 | one child of `concat`: a failure aborts, a success is gathered before the rest |
| Consumers.ConsumeUnion | regox.go:319-329 | `union`'s loop with early return equals `FirstSuccess` |
| Consumers.TimesStep | regox.go:212-218 | one application of `repeat`: a failure aborts, a success is gathered before the rest |
| MatcherFacts.AtomIff | regox.go:64-74 | `atom(s)` succeeds iff `s` is a prefix of the input, then with coverage `s` and no captures; `atom("")` succeeds everywhere |
| MatcherFacts.CharClass | regox.go:77-148 | each one-character class consumes exactly the first character iff the input is non-empty and that character is in the class |
| MatcherFacts.NegateIff | regox.go:154-165 | `negate(c)` succeeds iff the input is non-empty and `c` fails on it, then covering exactly the first character |
| MatcherFacts.AnyMemberIff | regox.go:173-178 | `set`'s loop finds a succeeding member iff some member from `i` on succeeds |
| MatcherFacts.SetIff | regox.go:168-181 | `set(cs)` succeeds iff the input is non-empty and some member succeeds, then covering exactly the first character with no captures |
| MatcherFacts.OptionNeverFails | regox.go:197-205 | `option` never fails; it is the child's outcome when that succeeds, else an empty success |
| MatcherFacts.CaptureShape | regox.go:332-340 | `capture` fails iff its child fails, and otherwise puts the child's coverage before the child's captures |
| MatcherFacts.TimesAdd | regox.go:212-219 | `a + b` applications are `a` applications followed by `b` more on the rest |
| MatcherFacts.GreedyMaximal | regox.go:234-238 | when the greedy loop stops before its cap, the next application fails |
| MatcherFacts.GreedyIsTimes | regox.go:234-242 | the greedy tally of `rangeRepeat` is a successful `repeat` of its count |
| MatcherFacts.EvalRepeat | regox.go:208-222 | `repeat(c, n)` is `n` successive applications on the shrinking remainder |
| MatcherFacts.EvalRangeRepeat | regox.go:225-248 | `rangeRepeat` is the greedy tally checked against `minReps` and `maxReps` |
| MatcherFacts.RangeRepeatIsRepeat | regox.go:243-246 | `rangeRepeat` succeeds iff its greedy count lies within the bounds, and then equals `repeat` of that count (it never retries fewer) |
| MatcherFacts.RunChildOnly | regox.go:257-288 | `star` and `plus` of the same child run the same loop |
| MatcherFacts.RunMaximal | regox.go:257-266 | the run stops before the end only where the child fails or covers nothing |
| MatcherFacts.StarShape | regox.go:251-269 | `star` always succeeds, returns no captures, and covers the greedy run |
| MatcherFacts.PlusIff | regox.go:272-294 | `plus` succeeds iff the input is non-empty and the child succeeds on it, and then covers what `star` covers |
| MatcherFacts.ConcatNothing | regox.go:302-304 | `concat()` fails on every input, including "" |
| MatcherFacts.SequenceShift | regox.go:305-314 | running `concat`'s children from `i + 1` is running the tail's children from `i` |
| MatcherFacts.EvalConcat | regox.go:297-316 | a non-empty `concat` is its sequence loop from the first child |
| MatcherFacts.ConcatCons | regox.go:305-314 | `concat(a, rest...)` aborts when `a` fails, and otherwise gathers `a` before `concat(rest...)` on the remainder |
| MatcherFacts.ConcatSingle | regox.go:297-316 | `concat` of one child behaves as that child |
| MatcherFacts.FirstSuccessWins | regox.go:319-329 | `union` succeeds iff some alternative does; the first succeeding one wins and its coverage is appended as the last capture |
| MatcherFacts.UnionExample | regox_test.go:257-284 | `union(atom("gaben"), atom("heidi"))` on "gabenheidi" covers "gaben" |
| MatcherFacts.GreedyOverRun | regox.go:234-242 | over a run of 'a's, the greedy loop on `atom("a")` takes as many as the cap or the run allows |
| MatcherFacts.RangeRepeatOverRun | regox.go:225-248 | `rangeRepeat(atom("a"), 2, 4)` on at least four 'a's covers exactly four |
| MatcherFacts.RangeRepeatExample | regox_test.go:107-115 | `rangeRepeat(atom("a"), 2, 4)` on "aaaaa" covers "aaaa" |
| Regox.Match | regox.go:20-26 | success and coverage are the root's outcome on `s`; capture 0 is the whole input `s` (not the coverage), even on failure, followed by the tree's captures |
| Regox.Matches | regox.go:29-31 | `Matches` is the root outcome's success, the same as `Match`'s |
| Regox.Scan | regox.go:37-45 | every recorded hit is a successful outcome at an offset at or after the start |
| Regox.MatchAll | regox.go:34-47 | the loop records exactly the hits of the left-to-right scan |
| Regox.ScanRecord | regox.go:38-44 | one step of the loop keeps its invariant: a success is recorded and jumped over, a failure steps by one |
| Regox.ScanHit | regox.go:39-41 | a success is recorded and scanning resumes past its coverage |
| Regox.ScanFound | regox.go:34-47 | every recorded match is the tree's success on the suffix at its offset |
| Regox.ScanOrdered | regox.go:37-45 | recorded matches are in order and do not overlap |
| Regox.ScanComplete | regox.go:37-45 | every offset where the tree succeeds lies inside some recorded match |
| Lexer.FlattenLength | parser.go:303-309 | gluing non-empty tokens gives at least one character per token |
| Lexer.Abbreviate | parser.go:303-309 | `abbreviate` concatenates the tokens in order |
| Lexer.StrContains | parser.go:277-284 | `strcontains` is true iff the character occurs in the string |
| Lexer.RunLength | parser.go:233-234 | a plain run is the maximal prefix of characters outside `()[]{}\|.+*?` and backslash |
| Lexer.LexTokens | parser.go:215-237 | every token is a non-empty plain run, a single structural character, or a two-character escape |
| Lexer.RunEnds | parser.go:221-234 | a plain run extends up to the first character that is not plain |
| Lexer.RunSpan | parser.go:233-234 | the run length is exactly the extent of the plain characters |
| Lexer.LexingStart | parser.go:212-214 | the empty buffer, clear escape flag and no tokens start the lexing invariant |
| Lexer.EscapeStep | parser.go:216-219 | after a backslash the next character forms a `\x` token |
| Lexer.FlushRun | parser.go:222-230 | a pending run is emitted before a backslash, a structural character or the end |
| Lexer.BackslashStep | parser.go:221-226 | a backslash sets the escape flag |
| Lexer.StructuralStep | parser.go:227-232 | a structural character is a token of its own |
| Lexer.PlainStep | parser.go:233-234 | a plain character extends the buffer |
| Lexer.LexingDone | parser.go:238-242 | at the end the tokens are exactly `Lex` of the pattern |
| Lexer.Tokenize | parser.go:211-243 | `tokenize`'s loop computes `Lex` of the pattern |
| Lexer.LexRoundTrip | parser.go:211-243 | gluing the tokens back (`abbreviate`) gives exactly `Kept(p)`: the whole pattern, or the pattern without its last character when it ends in an odd number of backslashes, the last of them unpaired |
| Lexer.PairedBackslashKept | parser.go:216-219 | after a plain run, an escaped backslash `\\` survives the round trip whole |
| Lexer.LoneBackslashDropped | parser.go:221-226 | after a plain run, a lone final backslash is dropped by the round trip |
| Lexer.TrailingRun | parser.go:216-226 | `Trailing` counts the whole final run of backslashes |
| Lexer.LexRunThen | parser.go:221-234 | a run followed by a non-plain character (or the end) lexes as that run, then the rest |
| Lexer.LexStructuralThen | parser.go:227-232 | a structural character lexes as itself, then the rest |
| Lexer.LexNoAdjacentRuns | parser.go:215-237 | no two plain runs are adjacent in the token list |
| Lexer.ChunkLength | parser.go:182-200 | each set token takes one to three characters |
| Lexer.SetLex | parser.go:175-205 | non-empty set contents give at least one token |
| Lexer.SetChunksShape | parser.go:182-204 | the set tokens glue back to the contents; each is one character, a `\x` escape, an `x-y` triple or a trailing `x-`; a two-character token before the last is an escape |
| Lexer.SetLexShape | parser.go:175-205 | the tokens glue back to the contents, and a leading `^` is emitted alone first exactly when the contents start with one |
| Lexer.ChunkingStart | parser.go:176-181 | the leading `^` handling starts the set-lexing invariant |
| Lexer.BufferStep | parser.go:183-184 | an empty buffer takes the character |
| Lexer.PairStep | parser.go:187-189 | a buffered backslash and the character form an escape token |
| Lexer.SingleStep | parser.go:190-192 | a buffered character not followed by `-` is a token of its own |
| Lexer.DashStep | parser.go:193-194 | a buffered character followed by `-` starts a range |
| Lexer.RangeStep | parser.go:196-198 | a buffered `x-` and the character form a range token |
| Lexer.ChunkingDone | parser.go:201-204 | at the end, a pending buffer is emitted as the last token |
| Lexer.SetTokenize | parser.go:175-205 | `setTokenize`'s loop computes `SetLex` of the contents |
| Lexer.ChunkCons | parser.go:182-200 | a whole leading token is split off before the rest |
| Lexer.SetLexExample | regox_test.go:376-378 | `a-z-A-Z\\\\asA-zdf\\d.\\.-` lexes as `a-z`, `-`, `A-Z`, `\\`, `a`, `s`, `A-z`, `d`, `f`, `\d`, `.`, `\.`, `-` |
| Lexer.IndexOf | parser.go:268-271 | the first occurrence of the separator |
| Lexer.SplitOnce | parser.go:266-275 | with a separator, the two parts joined around it give the string and the first has no separator; without one, the whole string and "" |
| Lexer.StrSplit | parser.go:266-275 | `strSplit`'s loop computes `SplitOnce` |
| Lexer.IndexOfFirst | parser.go:268-271 | any position holding the first separator is `IndexOf` |
| Brackets.NestingAppend | parser.go:245-258 | bracket depth is additive over concatenation |
| Brackets.NestingNext | parser.go:155-159 | the depth after one more token is the depth before it plus that token's step |
| Brackets.NestingFront | parser.go:247-252 | the depth of a suffix is its first token's step plus the depth of the rest |
| Brackets.BalancedFrom | parser.go:247-256 | the right-to-left scan stops at the last start whose suffix balances, and no later start balances |
| Brackets.Group | parser.go:245-258 | `deparens` returns the shortest balanced suffix, or the whole list when there is none; a list ending in a closer gives at least two tokens |
| Brackets.Deparens | parser.go:245-258 | `deparens`'s loop computes `Group` |
| Brackets.Separens | parser.go:261-264 | the body and the group join back to the tokens, and the body is strictly shorter |
| Brackets.FlatSuffix | parser.go:247-256 | inside a group with no inner brackets, every proper suffix is one closer deep |
| Brackets.FlatSeparens | parser.go:261-264 | a trailing group with no inner brackets is split off exactly |
| Brackets.ParenContains | parser.go:286-301 | `parencontains`'s loop computes `ParenHas` |
| Brackets.LastTopBar | parser.go:160 | the last bar at depth zero at or before `i`, and there is none after it |
| Brackets.Cut | parser.go:150-169 | `splitUnion`'s pieces: never empty, each made of tokens from the input |
| Brackets.CutJoin | parser.go:150-169 | no token is lost: joining the pieces with bars gives the input back |
| Brackets.CutPiecesHaveNoTopBar | parser.go:160-165 | every depth-zero bar is cut at: no piece contains a bar at its own depth zero |
| Brackets.CutAtTopBars | parser.go:160-162 | every cut is at a depth-zero bar: the token just after the first `k + 1` pieces joined back is such a bar, so nested groups are never split |
| Brackets.CutExtend | parser.go:163-164 | a token that is not a depth-zero bar extends the last piece |
| Brackets.CutAtBar | parser.go:160-162 | a depth-zero bar closes the last piece and starts an empty one |
| Brackets.SameTopBars | parser.go:160 | adding a token does not move the earlier depth-zero bars |
| Brackets.BarStep | parser.go:160-162 | the bar branch of the loop keeps its invariant |
| Brackets.TokenStep | parser.go:155-164 | the other branch of the loop keeps its invariant |
| Brackets.SplitUnion | parser.go:150-169 | `splitUnion`'s loop splits the group's contents into exactly the pieces of `Cut` |
| Parser.LexValid | parser.go:93-130 | every token `tokenize` produces is acceptable to `splitSingular` (no empty token, no lone backslash) |
| Parser.SplitSingular | parser.go:93-130 | only `.` gives `any`; the nine class escapes `\d \D \w \W \s \S \t \T \\` give a class or its negation and never an atom; any other `\x` gives `atom("x")` and any other token `atom(token)` |
| Parser.SingularMeaning | parser.go:93-130 | `.` matches any first character; a plain token matches itself as a prefix; an unknown escape `\x` matches `x` |
| Parser.DigitWordMeaning | parser.go:98-126 | `\d`, `\D`, `\w` and `\W` match one digit, non-digit, byte in 'A'..'z', or byte outside it |
| Parser.SpaceTabMeaning | parser.go:98-120 | `\s`, `\S`, `\t`, `\T` and `\\` match one whitespace, non-whitespace, tab, non-tab or backslash character |
| Parser.SplitSet | parser.go:133-147 | `splitSet`'s loop maps each set token to its member node, in order |
| Parser.SetMemberMeaning | parser.go:137-142 | a three-character token matches a character in its range; `.` matches only a literal dot |
| Parser.Atoi | parser.go:56-65 | anything but a digit string reads as 0 (the conversion error is ignored) |
| Parser.AtoiNextDigit | parser.go:56-65 | a digit string is read in base ten |
| Parser.SplitRegex | parser.go:39-90 | each step returns a remainder that is a strictly shorter prefix of its input |
| Parser.GroupUnit | parser.go:44-50 | the `)` case returns a strictly shorter prefix as the remainder |
| Parser.BoundUnit | parser.go:51-67 | the `}` case returns a strictly shorter prefix as the remainder |
| Parser.Bounded | parser.go:54-66 | `{n}` builds `repeat(c, n)`; `{m,n}` builds `rangeRepeat` with `m` before the comma, and max -1 exactly when nothing follows the comma |
| Parser.SetUnit | parser.go:68-76 | the `]` case returns a strictly shorter prefix as the remainder |
| Parser.Alternatives | parser.go:150-169 | one node per alternative |
| Parser.Units | parser.go:28-31 | at most one unit per token, and at least one for a non-empty list |
| Parser.ParseSeq | parser.go:21-36 | an empty token list parses as `atom("")` |
| Parser.SplitConcatenation | parser.go:21-36 | the loop that peels units right to left and prepends them computes `ParseSeq` |
| Parser.Parsed | parser.go:8-18 | a parsed regex keeps its pattern text |
| Parser.Parse | parser.go:8-18 | `Parse` tokenizes, then parses, and computes `Parsed` |
| ParserFacts.UnitsInOrder | parser.go:21-36 | for single tokens, the units are their `splitSingular` nodes in left-to-right order |
| ParserFacts.ParseEmpty | regox_test.go:369-373 | `Parse("")` is `atom("")`, which matches every string, "" included |
| ParserFacts.ClosingCase | parser.go:44-76 | a list ending in `)`, `}` or `]` is handled by the group, bound or set case |
| ParserFacts.OneUnit | parser.go:32-34 | a single unit is returned without a `concat` wrapper |
| ParserFacts.RunThenStructural | parser.go:221-234 | a plain run then a structural character lexes as two tokens |
| ParserFacts.RunUnit | parser.go:41-42 | a lone plain run is one `atom` |
| ParserFacts.QuantifierUnit | parser.go:77-88 | a run followed by `*`, `+` or `?` is the matching wrapper around the run's atom |
| ParserFacts.QuantifiedRun | parser.go:77-88 | `w*`, `w+` and `w?` wrap the whole run `w`, so `ab*` repeats "ab" |
| ParserFacts.BoundTokens | parser.go:211-243 | `w{b}` lexes as run, brace, bound, brace |
| ParserFacts.BoundGroup | parser.go:51-52 | the bound is split off as a group after the run |
| ParserFacts.BoundOnRun | parser.go:51-67 | `w{b}` parses as the bound applied to `atom(w)` |
| ParserFacts.OnA | parser.go:51-67 | `a{b}` parses as the bound applied to `atom("a")` |
| ParserFacts.BoundTexts | parser.go:54-65 | the bound texts used below read and split as expected |
| ParserFacts.ExactBoundParse | regox_test.go:389-391 | `a{2}` parses as `repeat(atom("a"), 2)` |
| ParserFacts.ExactBoundExample | regox_test.go:389-391 | over a run of 'a's, `a{2}` matches iff there are at least two |
| ParserFacts.RangeOverRun | regox.go:225-248 | over a run of 'a's, a range repeat of `atom("a")` succeeds iff the run has at least `minReps` characters |
| ParserFacts.RangeBoundParse | regox_test.go:436-440 | `a{2,5}` parses as `rangeRepeat(atom("a"), 2, 5)` |
| ParserFacts.RangeBoundExample | regox_test.go:436-440 | over a run of 'a's, `a{2,5}` matches iff there are at least two ("aaaaaa" matches too) |
| ParserFacts.OpenBoundParse | regox_test.go:442-446 | `a{2,}` parses as `rangeRepeat(atom("a"), 2, -1)` |
| ParserFacts.OpenBoundExample | regox_test.go:442-446 | over a run of 'a's, `a{2,}` matches iff there are at least two |
| ParserFacts.NoLowerBoundParse | parser.go:55-63 | `a{,3}` has an empty lower bound, which reads as 0: `rangeRepeat(atom("a"), 0, 3)` |
| ParserFacts.NoLowerBoundExample | parser.go:55-63 | `a{,3}` matches every run of 'a's, the empty one included |
| ParserFacts.SetTokens | parser.go:211-243 | `[c]` lexes as bracket, run, bracket |
| ParserFacts.SetGroup | parser.go:68-71 | the set is split off whole and its contents are `c` |
| ParserFacts.ChunksNoBackslash | parser.go:182-204 | contents without a backslash split into set tokens that `splitSet` can all read (a range, a literal `.`, or a single token) |
| ParserFacts.RunMembersOk | parser.go:175-205 | every set token of a plain run, the leading `^` included, is one `splitSet` can read |
| ParserFacts.SetUnitOnRun | parser.go:68-76 | the `]` case turns `[c]` into the set node of `c` |
| ParserFacts.SetOnRun | parser.go:68-76 | for every plain run `c`, `[c]` parses as `set` over the members of `c`'s tokens, under `negate` when `c` starts with `^` |
| ParserFacts.NegatedSetRejectsCaret | parser.go:72-73 | the `^` token is still passed to `splitSet`, so `[^...]` rejects '^' itself |
| ParserFacts.RangeMembers | parser.go:133-147 | `a-c` gives the single member `inRange('a', 'c')` |
| ParserFacts.RangeSetExample | regox_test.go:418-420 | `[a-c]` parses as `set(inRange('a', 'c'))` and fails on "" |
| ParserFacts.CaretRangeMembers | parser.go:133-147 | `^a-c` gives the members `atom("^")` and `inRange('a', 'c')` |
| ParserFacts.NegatedRangeSetExample | regox_test.go:422-426 | `[^a-c]` matches "d" and does not match "c" |
| ParserFacts.NegatedRange | regox.go:154-194 | the negated set of `^` and `a-c` accepts 'd' and rejects 'c' |
| ParserFacts.UnionTokens | parser.go:211-243 | `(x\|y)` lexes as five tokens |
| ParserFacts.UnionSeparens | parser.go:44-45 | the group is split off whole |
| ParserFacts.UnionHasBar | parser.go:286-301 | `parencontains` finds the depth-one bar |
| ParserFacts.UnionCut | parser.go:150-169 | the contents split at the bar into `[x]` and `[y]` |
| ParserFacts.TwoAtoms | parser.go:161-167 | each branch parses as its atom |
| ParserFacts.UnionUnit | parser.go:46-47 | the group with a bar becomes `union(atom(x), atom(y))` |
| ParserFacts.ParenUnion | parser.go:44-50 | `(x\|y)` parses as `union(atom(x), atom(y))` |
| ParserFacts.UnionCaptures | regox_test.go:400-402 | when only `y` is a prefix of `s`, `(x\|y)` matches with captures `[s, y]`, as "riel" is captured from "Gabriel" |
| ParserFacts.CaptureTokens | parser.go:211-243 | `(x)` lexes as three tokens |
| ParserFacts.CaptureSeparens | parser.go:44-45 | the group is split off whole |
| ParserFacts.CaptureNoBar | parser.go:286-301 | `parencontains` finds no bar in `(x)` |
| ParserFacts.CaptureUnit | parser.go:49 | a group without a bar becomes `capture` of its contents |
| ParserFacts.ParenCapture | parser.go:44-50 | `(x)` parses as `capture(atom(x))` |
| ParserFacts.CaptureCaptures | regox.go:332-340 | when `x` is a prefix of `s`, `(x)` matches with captures `[s, x]` |

## Left out

- Consumers.ConsumeStar: differs from the source when the child succeeds
  while covering nothing before the end of the input. The source's loop
  never ends in that case (regox.go:257-266). The model counts that
  success once and stops.
- Consumers.ConsumePlus: the same zero-coverage exit as `ConsumeStar`,
  since `plus` runs the same loop after its first application.
- Matcher.GreedyRun: the specification of that loop, with the same
  zero-coverage exit: the success is counted once and the run ends there.
- Regox.MatchAll: differs from the source on a zero-length success. The
  source's loop never ends there (regox.go:37-45). The model records the
  match and moves on by one character (`Step`).
- `tab` on empty input: the source indexes `input[0]` and panics
  (regox.go:142). The model returns `Failure()`.
- Parser panics are modelled as `None`. These are a `{...}` bound with
  nothing before it, `[]` with no contents, and a set token that reaches
  `splitSingular` as a lone backslash. `Parser.Alternatives` and
  `Parser.Units` propagate `None`. `splitSingular` itself requires a
  non-empty token, and an escape with a second character. Every token of
  `tokenize` meets that requirement (`Parser.LexValid`).
- Parser.Atoi: reads a digit string in base ten and anything else as 0.
  Go's sign handling and overflow in `strconv.Atoi` are not modelled.
- Characters: strings are `seq<char>` compared one character at a time.
  The source's lexers range over runes, while its matchers index bytes.
  UTF-8 is not modelled, so the model matches the source on ASCII.
- The closure type `consumer` (regox.go:17) is a closed datatype `Node`
  with the evaluator `Eval`. Go function values are not modelled.
- Parser.SplitConcatenation and Brackets.SplitUnion are loop methods. The
  nested calls that parse groups and union branches go through the
  specification functions (`SplitRegex`, `ParseSeq`, `Alternatives`), not
  through mutually recursive methods. `SplitUnion` returns the token
  pieces, and `Alternatives` maps `splitConcatenation` over them.
- Malformed patterns, such as unbalanced brackets: `deparens` returns the
  whole list there, and the model follows it (`Brackets.Group`). No
  property is claimed about the resulting trees.
- ParserFacts: the whole-pattern lemmas cover plain runs, bounds, sets and
  one level of groups around plain runs. The other patterns of
  regox_test.go are not proved as whole patterns. They are:
  - the phone-number pattern (regox_test.go:361-367);
  - `\\{3}` (regox_test.go:393-395);
  - `[Gg]ab(e|riel)` (regox_test.go:397-410), and `MatchAll` on
    "Gabe gabriel Gabriel" with its offsets (regox_test.go:449-456);
  - `[a-c]{3}` (regox_test.go:412-416);
  - `.[.]\s\t\D\T\S` (regox_test.go:428-430);
  - the nested `(asdf|h(i|j)k)\w\W` (regox_test.go:432-434).

  Their parts are covered by the general lemmas: `Brackets.Cut`,
  `Brackets.CutJoin`, `Brackets.CutPiecesHaveNoTopBar`, `Parser.Bounded`,
  `Parser.SplitSingular`, `Parser.SetMemberMeaning` and the matcher facts.
- `Regex.expression` is stored (`Parser.Parsed` keeps it) but never read.
- The test harness in regox_test.go (`testing.T`, `Assert`, `fmt`) is not
  modelled. Its expected values appear as the example lemmas.
  `TestMatchAll` destructures two results from `MatchAll`, which returns
  one. Start offsets appear in the model only as the `start` field of the
  scan's hits.
