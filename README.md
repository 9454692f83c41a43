# RegExFromScratch, modelled in Dafny

A model of the regular-expression engine of RegExFromScratch. It has four stages:

1. `parse_regex` turns an infix pattern into postfix tokens. It is a shunting-yard scan with a backslash-escape flag and a bracket flag.
2. Thompson-style combinators build NFA fragments. Each fragment is a start state and an accept state.
3. `nfa_to_dfa` runs the subset construction over epsilon closures.
4. The driver `build_nfa` consumes the postfix tokens with a stack of fragments. On top of it sit `match` and the scans `findall`, `search`, `split` and `sub`.

The states form an arena: a sequence of `NState(isFinal, trans)` values addressed by index. `trans` maps a label string to a list of state indices. Epsilon is the label `"ε"`.

Each imperative routine of the source is a Dafny method with the same loops and the same in-place updates:

- `Parser.ParseRegex`
- the methods of class `Nfa.Arena`
- `Dfa.EpsilonClosure`, `Dfa.Move` and `Dfa.NfaToDfa`
- `RegexEngine.BuildNfa` and `RegexEngine.Match`
- `Scanning.FindAll`, `Scanning.Search`, `Scanning.Split` and `Scanning.Sub`

Each method is proved equal to a specification function (`Parse`, `Basic`/`Concat`/…, `Closure`, `Moved`, `SubsetConstruction`, `BuildFrom`, `MatchSpec`, `FindAllSpec`, …). The properties are proved as lemmas about those functions.

Module layout:

- `results.dfy`: `Result`. Every exception of the source is the single value `Err`.
- `parser.dfy`: src/parser.py.
- `nfa.dfy`: src/nfa.py.
- `dfa.dfy`: src/dfa.py.
- `engine.dfy`: `build_nfa`, `regex_to_nfa` and `match` of src/regex_engine.py.
- `scanning.dfy`: `findall`, `search`, `split` and `sub` of src/regex_engine.py, with Python's `str.find` and slicing.
- `scenarios.dfy`: concrete outcomes, including the values src/main.py prints.

## Behaviour of the code as written

The model follows the code. Several outcomes differ from what the pattern syntax suggests, and the lemmas named here prove them.

- No concatenation token is ever inserted. `"ab"` parses to `a b`. `build_nfa` returns the top fragment, so a pattern of plain characters matches exactly its last character, and only when that character is an alphabet symbol: `"ab"` matches `"b"` and does not match `"ab"` (`LiteralPatternMatchesLastChar`). A last character `ε` becomes an epsilon edge, and the pattern matches nothing.
- The DFA start state is created non-final and never replaced. The empty string therefore never matches any pattern, `"a*"` and `"a?"` included (`EmptyNeverMatches`).
- `(` has the highest precedence. So the next operator pops it to the output, and the closing `)` then finds no `(`: `"(a|b)"` fails (`GroupedAlternationFails`). A `(` that reaches the output becomes a literal fragment.
- `"*a"` is accepted. It parses to `a *`. `"a|"` and `")a"` fail (`MalformedPatterns`).
- Inside brackets every character is emitted as its own token. `build_nfa` then joins the tokens from the front of the list up to the first `]` into one label. Tokens before the `[` are swept into that label (`BracketSweepsPrefix`). `"[^a]"` becomes one fragment labelled `"[^a"`, so it matches nothing (`BracketPatternMatchesNothing`).
- `^` on an empty fragment stack pops an empty list and fails. Otherwise it negates the top fragment.
- `.` is a literal for the parser. For `build_nfa` it is the concatenation operator.
- `findall`, `search`, `split` and `sub` on the empty string never compile the pattern, so they report no error.

## Model

| member | source | states |
|---|---|---|
| `Parser.Precedence` | src/parser.py:46-47 | the rank is at most 8; it is 0 exactly for characters outside the table and 8 exactly for `(` and `[` |
| `Parser.PrecedenceChain` | src/parser.py:46-47 | `&#124;` < `+` < `?` < `*` < `^` < `$` < `.` < `(` = `[`, all above 0 |
| `Parser.ParseRegex` | src/parser.py:2-44 | the imperative scan with its two inner pop loops and final drain returns exactly `Parse(pattern)`, `Err` when `)` pops an empty stack |
| `Parser.EscapeEmitsVerbatim` | src/parser.py:10-14 | a backslash is dropped and the next character, whatever it is, is appended as one token |
| `Parser.ParseLiterals` | src/parser.py:38-39 | a pattern with no operator and no backslash parses to itself, one token per character, with no concatenation token |
| `Parser.StepLiterals` | src/parser.py:9-39 | one character adds to the output's non-operator characters exactly itself, unless it is a backslash that starts an escape; popped operators add none |
| `Parser.LiteralsFrom` | src/parser.py:9-39 | over a scan, the non-operator characters reach the output at once and in the pattern's order, escapes resolved |
| `Parser.LiteralOrder` | src/parser.py:9-44 | for every pattern that parses, the output's non-operator characters are the pattern's, in order, escapes resolved; without a backslash they are exactly the pattern's own, so operators only move |
| `Parser.InsideBracketVerbatim` | src/parser.py:21-22 | inside a bracket every character except `\` and `]`, operators included, is appended in order and the stack is untouched |
| `Parser.BracketVerbatim` | src/parser.py:15-22 | a whole `[body]` is emitted as `[`, the body and `]`, in order, and the bracket flag is cleared |
| `Parser.PopAtLeastSplits` | src/parser.py:35-36 | the pop loop removes a suffix of the stack whose entries all rank at least `p`, emits it top first, and stops above an entry ranked below `p` |
| `Parser.PopToOpenSplits` | src/parser.py:27-28 | the pop loop removes the entries above the topmost `(`, emits them top first, and leaves that `(` on top if there is one |
| `Parser.PushInfix` | src/parser.py:34-37 | pushing an operator first pops every top ranked at least as high; the entry left beneath it ranks strictly lower |
| `Parser.CloseGroup` | src/parser.py:26-29 | `)` fails exactly when no `(` is on the stack; otherwise it emits the entries above the topmost `(` and discards that `(` |
| `Parser.StepKeepsStackShape` | src/parser.py:23-37 | one character keeps the stack made only of `(` `&#124;` `*` `+` `?` `^` `$` |
| `Parser.ScanKeepsStackShape` | src/parser.py:9-39 | over a whole scan `[`, `]` and `)` never reach the stack, so the `[`/`]` stack branches are unreachable |
| `Parser.StepCloses` | src/parser.py:9-37 | one character adds a `)` to the output exactly when it is a `)` after a backslash or inside brackets; the two flags move as `VerbatimCloses` moves them |
| `Parser.NoCloseInOutputFrom` | src/parser.py:9-39 | over a scan, the `)` characters added to the output are exactly those copied as they are; every other `)` closes a group or fails the scan |
| `Parser.NoCloseInOutput` | src/parser.py:9-44 | the output of a successful parse holds one `)` for each `)` that was escaped or inside brackets and no other; so without backslashes and brackets it holds none |
| `Parser.GroupedAlternationFails` | src/parser.py:26-37 | `"(a&#124;b)"` is rejected, because `&#124;` pops `(` to the output |
| `Nfa.Basic` | src/nfa.py:9-13 | two fresh states are appended, the earlier states are unchanged, the fragment is the fresh pair and the arena stays well formed |
| `Nfa.BasicShape` | src/nfa.py:9-13 | non-final start whose only transition is the label to the accept; a final accept with no transitions; no old state changed |
| `Nfa.Concat` | src/nfa.py:15-18 | allocates no state and returns a fragment of the arena; the arena stays well formed |
| `Nfa.ConcatShape` | src/nfa.py:15-18 | the first accept is demoted with epsilon list `[f2.start]` and nothing else changes; the result is `(f1.start, f2.accept)` with the fragment shape |
| `Nfa.Alternate` | src/nfa.py:20-28 | two fresh states are appended and become the fragment; the arena stays well formed |
| `Nfa.AlternateShape` | src/nfa.py:20-28 | the fresh start has epsilon list `[f1.start, f2.start]`; both old accepts are demoted with epsilon list `[new accept]`; only they change |
| `Nfa.Star` | src/nfa.py:30-36 | two fresh states are appended and become the fragment; the arena stays well formed |
| `Nfa.StarShape` | src/nfa.py:30-36 | the fresh start and the demoted old accept both have epsilon list `[old start, new accept]`; only the old accept changes |
| `Nfa.Plus` | src/nfa.py:38-44 | two fresh states are appended and become the fragment; the arena stays well formed |
| `Nfa.PlusShape` | src/nfa.py:38-44 | as `StarShape`, except that the fresh start's epsilon list is `[old start]` only |
| `Nfa.Optional` | src/nfa.py:46-52 | two fresh states are appended and become the fragment; the arena stays well formed |
| `Nfa.OptionalShape` | src/nfa.py:46-52 | fresh start epsilon `[old start, new accept]`; demoted old accept epsilon `[new accept]` only |
| `Nfa.Negate` | src/nfa.py:54-60 | two fresh states are appended and nothing earlier changes; the arena stays well formed |
| `Nfa.NegateShape` | src/nfa.py:54-60 | the fresh start moves to the fresh accept on exactly the alphabet symbols that are not keys of the operand start; the operand is untouched |
| `Nfa.Arena.AddState` | src/nfa.py:10-11 | `State()` / `State(is_final=True)` appends one state with no transitions |
| `Nfa.Arena.ClearFinal` | src/nfa.py:16 | `is_final = False` on one state, nothing else changes |
| `Nfa.Arena.SetTransitions` | src/nfa.py:17 | overwrites one label's target list of one state, nothing else changes |
| `Nfa.Arena.CreateBasicNfa` | src/nfa.py:9-13 | the in-place updates leave the arena and fragment `Basic` describes |
| `Nfa.Arena.ConcatenateNfa` | src/nfa.py:15-18 | the in-place updates leave the arena and fragment `Concat` describes |
| `Nfa.Arena.AlternateNfa` | src/nfa.py:20-28 | the in-place updates leave the arena and fragment `Alternate` describes |
| `Nfa.Arena.KleeneStarNfa` | src/nfa.py:30-36 | the in-place updates leave the arena and fragment `Star` describes |
| `Nfa.Arena.OneOrMoreNfa` | src/nfa.py:38-44 | the in-place updates leave the arena and fragment `Plus` describes |
| `Nfa.Arena.ZeroOrOneNfa` | src/nfa.py:46-52 | the in-place updates leave the arena and fragment `Optional` describes |
| `Nfa.Arena.NegateNfa` | src/nfa.py:54-60 | the loop over the alphabet leaves the arena and fragment `Negate` describes |
| `Dfa.Closure` | src/dfa.py:4-13 | the epsilon closure contains the states it starts from |
| `Dfa.ClosureClosed` | src/dfa.py:4-13 | the closure is closed under epsilon transitions |
| `Dfa.ClosureLeast` | src/dfa.py:4-13 | the closure lies inside every epsilon-closed superset, so every member is epsilon-reachable from the start set |
| `Dfa.ClosureIdempotent` | src/dfa.py:4-13 | closing a closure changes nothing, which is why line 29 finds the key line 41 needs |
| `Dfa.ClosureBelow` | src/dfa.py:4-13 | the closure adds only states of the arena |
| `Dfa.ClosureOfEmpty` | src/dfa.py:4-13 | the closure of the empty set is empty |
| `Dfa.EpsilonClosure` | src/dfa.py:4-13 | the worklist loop returns exactly the least epsilon-closed superset |
| `Dfa.Move` | src/dfa.py:15-19 | the result is exactly the union of the symbol's successor lists of the given states |
| `Dfa.Visit` | src/dfa.py:31-41 | the alphabet loop keeps the construction's invariant and only appends new, distinct keys |
| `Dfa.Explore` | src/dfa.py:27-41 | the worklist empties, keeps the invariant, and keeps the existing keys as a prefix |
| `Dfa.Progress` | src/dfa.py:27-40 | each round either adds a key not seen before or shortens the worklist, so the loop terminates |
| `Dfa.SubsetConstruction` | src/dfa.py:21-43 | the DFA is deterministic, its worklist is empty, and state 0 is stored under the closure of the NFA start |
| `Dfa.RecordTransitions` | src/dfa.py:31-41 | the imperative alphabet loop computes exactly `Visit` |
| `Dfa.NfaToDfa` | src/dfa.py:21-43 | the imperative construction computes exactly `SubsetConstruction` |
| `Dfa.SkipCorrect` | src/dfa.py:32-36 | a symbol that is epsilon or whose successor closure is empty records no transition |
| `Dfa.AddKeyCorrect` | src/dfa.py:37-40 | a new closure becomes a pending key whose state is final iff the closure holds a final NFA state |
| `Dfa.AddKeyInv` | src/dfa.py:37-40 | adding a closed set of arena states as a new pending key keeps the construction's invariant |
| `Dfa.SetEdgeInv` | src/dfa.py:41 | recording a transition between existing DFA states keeps the invariant and leaves keys and worklist unchanged |
| `Dfa.SetEdgeRows` | src/dfa.py:41 | recording the transition for symbol `i` extends the processed row of the current closure to symbol `i + 1` |
| `Dfa.SetEdgeCorrect` | src/dfa.py:41 | the recorded transition is a one-element list to the state of `epsilon_closure(move(closure, c))` |
| `Dfa.PopCorrect` | src/dfa.py:28-29 | the popped closure is a key, no longer pending, and closes to itself |
| `Dfa.VisitCorrect` | src/dfa.py:31-41 | after the alphabet loop the processed closure has all its transitions |
| `Dfa.ExploreCorrect` | src/dfa.py:27-41 | when the worklist is empty every DFA state has all its transitions |
| `Dfa.SubsetCorrect` | src/dfa.py:21-43 | each closure is one distinct key; the start is non-final; every other state is final iff its closure holds a final NFA state; transitions exist exactly for non-epsilon symbols with a non-empty successor closure |
| `Dfa.SimEmpty` | src/dfa.py:34-36 | from the empty NFA state set no input reaches a state |
| `RegexEngine.TakeBracket` | src/regex_engine.py:62-69 | the label is the token prefix before the first `]`, and the rest follows that `]`; with no `]` everything is taken |
| `RegexEngine.TakeCharSet` | src/regex_engine.py:63-67 | popping from the front of the list computes exactly `TakeBracket` |
| `RegexEngine.Anchor` | src/regex_engine.py:52-61 | appends one fresh state, which becomes the accept; the start is kept |
| `RegexEngine.AnchorShape` | src/regex_engine.py:52-61 | the old accept is demoted with epsilon list `[fresh accept]`; only it changes; the fragment shape holds |
| `RegexEngine.BuildLiteralStep` | src/regex_engine.py:11-12 | a non-operator token pushes the basic fragment of its one-character label, and the build continues from the grown arena |
| `RegexEngine.BuildBracketStep` | src/regex_engine.py:62-69 | `[` pushes the basic fragment labelled by the tokens before the first `]`, and the build continues after that `]` |
| `RegexEngine.TakeBracketStep` | src/regex_engine.py:64-65 | popping one token that is not `]` moves it from the list onto the end of the label |
| `RegexEngine.ApplyBinary` | src/regex_engine.py:13-24 | `.` concatenates and `&#124;` alternates the two popped fragments, in place, as `Concat` and `Alternate` describe |
| `RegexEngine.ApplyQuantifier` | src/regex_engine.py:25-39 | `*`, `+` and `?` wrap the popped fragment, in place, as `Star`, `Plus` and `Optional` describe |
| `RegexEngine.AnchorNfa` | src/regex_engine.py:52-59 | `$` demotes the accept and links it to a fresh final state, in place, as `Anchor` describes |
| `RegexEngine.BuildArity` | src/regex_engine.py:11-61 | `.`/`&#124;` with fewer than two fragments, `*`/`+`/`?`/`^` on an empty stack, and `$` without exactly one fragment fail; a stray `]` is skipped |
| `RegexEngine.BuildEnd` | src/regex_engine.py:71-74 | the build fails iff the final stack is empty, and otherwise returns its top fragment |
| `RegexEngine.BuildFrom` | src/regex_engine.py:8-74 | a successful build yields a well-formed arena at least as long as the old one, with the fragment inside it |
| `RegexEngine.ShapedPush` | src/regex_engine.py:11-69 | replacing the top of the stack by a shaped fragment keeps every fragment shaped and pairwise apart when the arena changed only away from the kept endpoints |
| `RegexEngine.BinaryShaped` | src/regex_engine.py:13-24 | after `.` or `&#124;` every fragment on the stack has a non-final start and a final accept without transitions, and no two share an endpoint |
| `RegexEngine.UnaryShaped` | src/regex_engine.py:25-51 | the same after `*`, `+`, `?` and `^` on a non-empty stack |
| `RegexEngine.BasicShaped` | src/regex_engine.py:11-12 | the same after pushing a basic fragment, for a plain token and for `[` |
| `RegexEngine.BuildShape` | src/regex_engine.py:8-74 | from a stack of shaped, pairwise apart fragments, a successful build returns a fragment with a non-final start and a final accept without transitions |
| `RegexEngine.NfaOfShape` | src/regex_engine.py:76-78 | `regex_to_nfa` returns a fragment of that single-entry/single-exit shape |
| `RegexEngine.BuildNfa` | src/regex_engine.py:8-74 | the index loop over the shrinking token list, run on the arena, fails or succeeds exactly as `BuildFrom` does, with the same arena and fragment |
| `RegexEngine.NfaOf` | src/regex_engine.py:76-78 | a successful parse and build yields a well-formed arena holding the fragment |
| `RegexEngine.RegexToNfa` | src/regex_engine.py:76-78 | parsing then building on a fresh arena computes exactly `NfaOf` |
| `RegexEngine.Compile` | src/regex_engine.py:80-82 | compilation succeeds iff parse and build do; the DFA is deterministic and its start state is not final |
| `RegexEngine.Match` | src/regex_engine.py:80-91 | the DFA walk returns exactly `MatchSpec`; a character with no transition rejects at once |
| `RegexEngine.WalkSimulates` | src/regex_engine.py:84-91 | the walk accepts iff every character is a non-epsilon alphabet symbol and subset simulation ends in a set holding a final NFA state other than the start closure |
| `RegexEngine.MatchSimulates` | src/regex_engine.py:80-91 | `match` fails iff the pattern does not build; otherwise it is the subset simulation on the pattern's NFA, with the start closure never accepting |
| `RegexEngine.EmptyNeverMatches` | src/regex_engine.py:84-91 | no pattern matches the empty string |
| `RegexEngine.BuildLiterals` | src/regex_engine.py:11-12 | a run of literal tokens pushes one basic fragment each, and the build returns the last one |
| `RegexEngine.SingleEdgeSim` | src/nfa.py:9-13 | the subset simulation of a basic fragment reaches its final state on exactly its label, when that label is one alphabet character |
| `RegexEngine.EpsEdgeSim` | src/nfa.py:9-13 | a basic fragment labelled `ε` is an epsilon edge, and its subset simulation accepts nothing |
| `RegexEngine.LiteralPatternMatchesLastChar` | src/regex_engine.py:76-91 | a pattern of plain characters matches exactly the one-character string of its last character when that character is a non-ε alphabet symbol, and nothing otherwise |
| `RegexEngine.ParseBracketExample` | src/parser.py:15-20 | `"[^a]"` parses to the four tokens `[ ^ a ]` |
| `RegexEngine.BuildBracketExample` | src/regex_engine.py:62-69 | `"[^a]"` builds to one basic fragment labelled `"[^a"` |
| `RegexEngine.BracketPatternMatchesNothing` | src/regex_engine.py:62-91 | `"[^a]"` matches no string |
| `Scanning.PySliceMeaning` | src/regex_engine.py:114-116 | Python slicing: an in-range slice is the subsequence; otherwise both bounds are normalised and a crossed pair gives the empty string |
| `Scanning.OccursAtSlice` | src/regex_engine.py:113 | the character-by-character comparison `find` makes at a position is the slice comparison `s[m:m+len(sub)] == sub` |
| `Scanning.PyFind` | src/regex_engine.py:113 | `str.find` with a start: -1 or a position at or after the normalised start |
| `Scanning.FindFromFirst` | src/regex_engine.py:113 | `find` returns the first occurrence at or after the start, and -1 only when there is none |
| `Scanning.PyFindFirst` | src/regex_engine.py:113 | the same, stated for Python's start normalisation |
| `Scanning.PyFindFound` | src/regex_engine.py:113 | a successful `find` from a start within the string returns a position at or after it where the slice equals the match |
| `Scanning.FindsEachInOrder` | src/regex_engine.py:112-115 | when `find` never returns -1 along the matches, each match lies where it is reported, after the end of the previous one |
| `Scanning.HitPairsSound` | src/regex_engine.py:93-99 | every reported pair names a non-empty substring the DFA accepts |
| `Scanning.HitPairsComplete` | src/regex_engine.py:93-99 | every accepted non-empty substring is reported |
| `Scanning.HitPairsOrdered` | src/regex_engine.py:93-99 | the pairs are strictly ordered by start and then by end, so none repeats |
| `Scanning.FirstPairLeast` | src/regex_engine.py:101-106 | the first pair has the least start of any accepted substring; no pair means nothing is accepted |
| `Scanning.MatchAccepting` | src/regex_engine.py:96-97 | `match` accepts `s[b:e]` iff the pair `(b, e)` is accepted |
| `Scanning.FindAllMeaning` | src/regex_engine.py:93-99 | `findall` fails iff the string is non-empty and the pattern does not compile; otherwise it returns exactly the substrings `match` accepts, ordered by start then end, never empty |
| `Scanning.SearchMeaning` | src/regex_engine.py:101-106 | `search` fails iff `findall` does; -1 iff `match` accepts no non-empty substring; otherwise the least start of one |
| `Scanning.MatchRowScanStep` | src/regex_engine.py:96-98 | one `match` call on `s[i:j]` appends that substring to the row exactly when it is accepted |
| `Scanning.RowMatches` | src/regex_engine.py:95-98 | the inner loop of `findall` collects the row's accepted substrings |
| `Scanning.FindAll` | src/regex_engine.py:93-99 | the nested loops compute exactly `FindAllSpec` |
| `Scanning.MatchRowStep` | src/regex_engine.py:103-105 | an accepted `s[i:j]` means the row has a hit; a rejected one leaves the rest of the row to decide |
| `Scanning.RowHit` | src/regex_engine.py:102-105 | the inner loop of `search` reports whether its row has an accepted substring |
| `Scanning.Search` | src/regex_engine.py:101-106 | the nested loops compute exactly `SearchSpec` |
| `Scanning.SplitFrom` | src/regex_engine.py:108-117 | `split` produces one piece more than there are matches |
| `Scanning.SubIsJoinedSplit` | src/regex_engine.py:108-128 | the text `sub` builds is the `split` pieces joined with the replacement |
| `Scanning.SplitRebuilds` | src/regex_engine.py:108-117 | when each match is found in order, interleaving the pieces with the matches gives back the string |
| `Scanning.SubReplaces` | src/regex_engine.py:119-128 | the same for `sub`, which is then the string with each match replaced |
| `Scanning.SplitSubMeaning` | src/regex_engine.py:108-128 | `split` and `sub` fail iff `findall` does; `split` has `len(findall) + 1` pieces, and `sub` joins them with `repl` |
| `Scanning.SplitPieces` | src/regex_engine.py:110-117 | the loop over the matches computes exactly `SplitFrom` |
| `Scanning.Replace` | src/regex_engine.py:121-128 | the loop over the matches computes exactly `SubFrom` |
| `Scanning.Split` | src/regex_engine.py:108-117 | `split` computes exactly `SplitSpec` |
| `Scanning.Sub` | src/regex_engine.py:119-128 | `sub` computes exactly `SubSpec` |
| `Scenarios.MalformedPatterns` | src/regex_engine.py:19-29 | `"a&#124;"` and `")a"` fail; `"*a"` builds the star of the fragment of `a` |
| `Scenarios.TrailingBarFails` | src/regex_engine.py:19-21 | `"a&#124;"` parses to `a &#124;`, and the alternation finds one fragment and fails |
| `Scenarios.StrayCloseFails` | src/parser.py:26-29 | `")a"` fails in the parser: `)` pops an empty stack |
| `Scenarios.LeadingStarBuilds` | src/regex_engine.py:25-29 | `"*a"` parses to `a *` and builds the star of the fragment of `a` |
| `Scenarios.BracketSweepsPrefix` | src/regex_engine.py:62-69 | `"a[b]"` builds a single fragment labelled `"a[b"` after the fragment of `"a"` |
| `Scenarios.MainExamples` | src/main.py:14-17 | for pattern `"a"` on `"aaab"`: `findall` gives `["a","a","a"]`, `search` gives 0, `split` gives `["","","","b"]` and `sub` gives `"xxxb"` |

## Left out

- Exceptions: Python's exception types and messages are not modelled. Every `ValueError` and every `IndexError` from popping an empty list is the one value `Err`.
- Object identity: states are integer indices into an arena, not objects. A `frozenset` key of `dfa_states` is a mathematical set, and the dictionary is the list of its keys in insertion order beside the list of its states.
- The `State` class: state.py is not part of this model. Its shape (`is_final` and a `transitions` dictionary) is inferred from its uses.
- The alphabet: it is a sequence of label strings iterated in a fixed order, not a Python `set`. The model does not prove that the iteration order leaves the DFA's shape unchanged.
- `Dfa.ListOf`: `list(states)` at dfa.py:5 yields the members in an unspecified order. The model picks any order.
- `Scanning.PyFind`: `str.find` compares characters one by one (`OccursAt`); Python's faster search is not modelled. `split` and `sub` take the finder as a parameter (`Finder`) and use `PyFind`.
- `Scanning.SplitRebuilds`: it holds only when each match is found where it is reported, in order (`FoundInOrder`). `SubReplaces` requires that `find` never returns -1 along the matches (`FindsEach`). `findall` reports overlapping matches, and then `find` can return -1, after which Python's negative-index slicing applies. `PyFind` and `PySlice` encode that path, but no property is proved about it.
- `Scanning.FindAllSpec`: `findall`, `search`, `split` and `sub` are specified by ghost functions over the DFA's language. The methods are proved equal to them.
- Language equivalence: the model does not prove that the DFA accepts the language of the regex, or that the NFA and DFA accept the same language. The code does not meet either, as the section above shows. `WalkSimulates` relates the DFA walk to subset simulation instead.
- Performance: recompiling the pattern on every call, the quadratic substring scans, and the exponential subset construction are not modelled. The termination measure of the construction is the power set of the NFA states.
- src/main.py: it only prints. Its expected values appear in `Scenarios.MainExamples`.
