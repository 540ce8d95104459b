# Regex to DFA: Thompson construction and subset construction

This project models `RegexToDFA` from the two demo programs `flqn1.cpp` and
`flqn2.cpp`. The two programs hold the same pipeline:

- `parseRegex` scans a regular expression over alphanumeric symbols with
  `|`, `*` and parentheses. It uses an operand stack of NFA fragments and an
  operator stack, and builds the fragments with Thompson's primitives
  `charNFA`, `concatenate`, `alternate` and `star`.
- `convert` runs the subset construction on the resulting NFA. It uses
  `epsilonClosure`, `move` and a worklist of unmarked subsets, and produces
  a DFA with a partial transition table.
- `DFA::validate` (only in `flqn2.cpp`) runs a string through that table.

The two files differ only in comments, an unused `stateCounter` field,
`validate`, `main` and the heading line of `DFA::print` (`flqn2.cpp`
prints a blank line before it), so one model covers both. The "## Model" table cites
each member against one of them.

Modules, in dependency order:

- `Wrappers`: `Option`.
- `Automata`:
  - `NFAState`, with the value of an NFA (`NfaData`) and the class `NFA`
    whose methods are the helpers `addState`, `addTransition`,
    `addEpsilonTransition` and `setAccepting`;
  - the value of a DFA (`DfaData`) and the class `DFA` with `validate`;
  - the well-formedness invariant of an NFA;
  - `Run`/`Matches`, the meaning of `validate`.
- `Thompson`: the four primitives as methods with the source's copy loops.
  Each is proved equal to a pointwise specification function (`CharSpec`,
  `ConcatSpec`, `AltSpec`, `StarSpec`).
- `ThompsonProps`: the shape, well-formedness and label lemmas of the
  primitives.
- `Parser`: the parser as a stack machine over regular-expression terms
  (`Scan`, `FlushAll`, `FoldConcat`, `ParseTerm`). `Build(t)` is the
  Thompson automaton of a term. `ParseRegex`, which pushes and pops real
  `NFA` objects, is proved to return exactly `Build(ParseTerm(regex))`.
- `Subset`: the subset construction.
  - `Closure` is a least fixpoint.
  - `EpsilonClosure` is the breadth-first search and is proved to compute
    `Closure`; `Move` and `Meets` are the other inner loops.
  - `ConvertNfa` is the worklist. It is proved to build the complete table
    (`Complete`) with at most 2^n states, each state but the start one
    entered from an earlier row; `StatesReached` shows that every state is
    reached from the start state by some input.
  - `ConvertLanguage` proves that the DFA accepts exactly the strings the
    subset simulation of the NFA accepts.
- `Converter`: `convert` end to end.

Behaviours of the code that the model keeps and proves:

- Alternation is left-associative: `a|b|c` is `(a|b)|c`.
- Implicit concatenation is applied only after the scan. So `ab|c` is
  `a(b|c)`, because `|` joins the two operands nearest to it
  (`Parser.ParseConcatAltExample`).
- A `*` with no operand is ignored.
- Unknown characters are skipped (`Parser.ParseIgnoresUnknown`).
- Unbalanced parentheses do not fail. A `)` without its `(` still applies
  the pending `|` operators down to the bottom of the operator stack and
  then has nothing to pop, so `a|b)c` is `(a|b)c`
  (`Parser.ParseStrayCloseExample`). A `(` never closed is flushed with the
  other operators, and `processOperator` ignores it, so `(a|b` is `a|b`
  (`Parser.ParseOpenGroupExample`). This follows the code. A stricter
  design would reject such input, and the model does not.

The code calls `nfaStack.top()` on an empty operand stack when the regex
has no alphanumeric character, which is undefined behaviour. The model
returns `None` there, and proves that this happens exactly when the regex
has no alphanumeric character.

`validate` reads `transitions[currentState]` through `operator[]`, so it
can insert an empty row into the table. The model keeps that mutation
(`DFA.Validate` has `modifies this`) and proves that no lookup result
changes, so a second call on any input gives the same verdict as the first.

The lemmas `AddStatePreserves`, `AddTransitionPreserves`,
`AddEpsilonPreserves` and `SetAcceptingPreserves` stand alone: they are
the invariant-preservation partners of the four `NFA` helpers. The
Thompson proofs work on the pointwise specifications instead, so no other
proof calls them.

## Model

| member | source | states |
|---|---|---|
| Automata.AddStatePreserves | flqn2.cpp:33-37 | `addState` appends a fresh state whose id is the old size; it keeps the arena, the accept-flag/accept-set agreement, the exact alphabet and the whole invariant |
| Automata.AddTransitionPreserves | flqn2.cpp:39-42 | after `addTransition(from, symbol, to)` the target is in `transitions[symbol]`; the invariant is kept when `to` is an existing state |
| Automata.AddEpsilonPreserves | flqn2.cpp:44-46 | after `addEpsilonTransition(from, to)` the target is an epsilon successor; the invariant is kept when `to` exists |
| Automata.SetAcceptingPreserves | flqn2.cpp:48-51 | `setAccepting` sets both the per-state flag and the accept-set entry, and keeps the invariant |
| Automata.LabelsInsert | flqn2.cpp:39-42 | inserting a target under a symbol adds exactly that symbol to the labels in use, which is why the alphabet update keeps the alphabet exact |
| Automata.NFA.constructor | flqn2.cpp:31 | a new NFA has no states, start 0, no accepting states and an empty alphabet |
| Automata.NFA.Copy | flqn2.cpp:168 | the copy `NFA result = nfa1` holds the same value as its source |
| Automata.NFA.AddState | flqn2.cpp:33-37 | returns the old size and appends a non-accepting state with that id and no edges; nothing else changes |
| Automata.NFA.AddTransition | flqn2.cpp:39-42 | inserts `to` into the symbol's target set (creating it if missing); the symbol joins the alphabet unless it is the epsilon marker `'\0'`; nothing else changes |
| Automata.NFA.AddEpsilonTransition | flqn2.cpp:44-46 | inserts `to` into the epsilon set of `from`; nothing else changes |
| Automata.NFA.SetAccepting | flqn2.cpp:48-51 | marks the state accepting in the flag and in the accept set; nothing else changes |
| Automata.DFA.constructor | flqn2.cpp:55-62 | a new DFA has empty containers (the start state is left indeterminate, as in the code) |
| Automata.DFA.Validate | flqn2.cpp:99-115 | the verdict is `Matches` of the DFA it started with: walk from the start state, reject on a symbol outside the alphabet or a missing entry, and accept iff the last state is accepting; only empty rows may be added, so no lookup changes and every input gets the same verdict afterwards |
| Automata.MatchesEmpty | flqn2.cpp:99-115 | the empty string is accepted iff the start state is accepting |
| Automata.RunOutsideAlphabet | flqn2.cpp:102-105 | a symbol outside the alphabet anywhere in the input makes the run fail |
| Automata.SameLookupsRun | flqn2.cpp:99-115 | the walk of `validate` depends on the table only through its (state, symbol) entries: equal entries and alphabet give the same run |
| Automata.SameLookupsMatches | flqn2.cpp:99-115 | equal start, accepting set, alphabet and entries give the same verdict on every input, so repeated calls of `validate` agree |
| Automata.RunAppend | flqn2.cpp:102-112 | running `u + v` is running `u` and then `v` from where `u` ended: the matcher keeps no other memory |
| Thompson.CharNFA | flqn2.cpp:157-165 | `charNFA(c)` builds two states, 0 --c--> 1, start 0, with 1 the only accepting state (`CharSpec`) |
| ThompsonProps.CharWellFormed | flqn1.cpp:145-153 | `charNFA(c)` is well formed, has two states, accepts only state 1, and its alphabet is `{c}` unless `c` is the epsilon marker |
| Thompson.AddFreshStates | flqn2.cpp:171-173 | the `addState` loop appends one fresh state per state of the operand, with consecutive ids |
| Thompson.CopyTargets | flqn2.cpp:177-179 | the innermost copy loop gives the symbol exactly the shifted targets, and the symbol joins the alphabet iff there is at least one target and it is not `'\0'` |
| Thompson.CopyLabelled | flqn2.cpp:176-180 | copying all labelled edges of a state gives the fresh slot the shifted map, and adds that map's labels to the alphabet |
| Thompson.CopyEpsilon | flqn2.cpp:181-183 | copying the epsilon edges gives the fresh slot the shifted epsilon set |
| Thompson.CopyEdges | flqn2.cpp:175-184 | one copy round turns the fresh slot into the shifted state, and adds its labels to the alphabet |
| Thompson.AppendShifted | flqn2.cpp:170-184 | the block repeated in all three binary/unary primitives: the offset is the old size and the operand's states are appended shifted by it, with its labels added to the alphabet; start and accept set are unchanged |
| Thompson.ConnectAccepting | flqn2.cpp:186-189 | each accepting state of the left operand loses its flag and gains an epsilon edge to the right operand's shifted start; every other state is unchanged |
| Thompson.AcceptShifted | flqn2.cpp:191-194 | after `acceptStates.clear()`, the accept set is the right operand's accept set shifted by the offset, and those states are flagged |
| Thompson.ConcatStates | flqn2.cpp:167-197 | the states `concatenate` ends with, after the copy and both link loops, are `ConcatSpec`'s |
| Thompson.Concatenate | flqn2.cpp:167-197 | `concatenate(A, B)` returns a fresh NFA holding `ConcatSpec(A, B)`; both operands are untouched |
| Thompson.LinkAccepting | flqn2.cpp:241-246 | each accepting state of a copied operand gains an epsilon edge to the end state; every other state is unchanged |
| Thompson.AltCopies | flqn2.cpp:199-236 | the first part of `alternate`: new start 0, the two operands copied with offsets 1 and 1 + |A|, new end state, empty accept set, and both operands' labels in the alphabet |
| Thompson.AltStates | flqn2.cpp:199-250 | the states `alternate` ends with, after the links and `setAccepting(end)`, are `AltSpec`'s |
| Thompson.Alternate | flqn2.cpp:199-250 | `alternate(A, B)` returns a fresh NFA holding `AltSpec(A, B)`; both operands are untouched |
| Thompson.LoopAccepting | flqn2.cpp:278-281 | each accepting state of the copied operand gains epsilon edges to the end and back to the operand's shifted start |
| Thompson.StarCopies | flqn2.cpp:252-273 | the first part of `star`: new start 0, the operand copied with offset 1, new end state, empty accept set |
| Thompson.StarStates | flqn2.cpp:252-285 | the states `star` ends with are `StarSpec`'s |
| Thompson.Star | flqn2.cpp:252-285 | `star(A)` returns a fresh NFA holding `StarSpec(A)`; the operand is untouched |
| ThompsonProps.ConcatShape | flqn1.cpp:155-188 | `concatenate(A, B)` has |A| + |B| states and A's start; A's labelled edges are unchanged; A's accepting states reach B's shifted start by epsilon; the accept set is B's, shifted |
| ThompsonProps.ConcatWellFormed | flqn1.cpp:155-188 | `concatenate` of well-formed operands is well formed, and its alphabet is the union of theirs |
| ThompsonProps.ConcatLabels | flqn2.cpp:175-184 | the labels in use in `concatenate(A, B)` are exactly A's and B's |
| ThompsonProps.AltShape | flqn1.cpp:190-248 | `alternate(A, B)` has |A| + |B| + 2 states and start 0; state 0 has exactly the two epsilon edges into the shifted starts; every accepting state of A and of B reaches the end; the end is the only accepting state and has no edges |
| ThompsonProps.AltArena | flqn2.cpp:199-250 | every state of `alternate(A, B)` has its index as id and edges only into the result |
| ThompsonProps.AltWellFormed | flqn1.cpp:190-248 | `alternate` of well-formed operands is well formed, and its alphabet is the union of theirs |
| ThompsonProps.AltLabels | flqn2.cpp:209-234 | the labels in use in `alternate(A, B)` are exactly A's and B's |
| ThompsonProps.StarShape | flqn1.cpp:250-287 | `star(A)` has |A| + 2 states and start 0; the start reaches A's start and the end; each accepting state of A loops back and reaches the end; the end is the only accepting state |
| ThompsonProps.StarWellFormed | flqn1.cpp:250-287 | `star` of a well-formed operand is well formed, with the same alphabet |
| ThompsonProps.StarLabels | flqn2.cpp:262-271 | the labels in use in `star(A)` are exactly A's |
| Parser.BuildShape | flqn2.cpp:157-285 | every automaton the primitives build from a term starts at 0, has `Size(t)` states (at least two) and accepts only its last state |
| Parser.BuildWellFormed | flqn2.cpp:157-285 | every automaton built from a term is well formed, and its alphabet is the term's symbols |
| Parser.BuildLabels | flqn2.cpp:157-285 | the labels used by the automaton of a term are exactly the term's symbols |
| Parser.ConcatSingleAccept | flqn2.cpp:191-194 | when B accepts only its last state, `concatenate(A, B)` accepts only its own last state |
| Parser.BuildAcceptInRange | flqn2.cpp:186-194 | the accept states of every built automaton are existing states, which is what the primitives index with |
| Parser.Filter | flqn2.cpp:291-317 | the scanner's view of the string keeps only the characters it acts on and is no longer than the input |
| Parser.Reduce | flqn2.cpp:299-308 | the pop-and-apply loop stops at an empty operator stack or at a `(`, having only popped |
| Parser.ProcessOpEffect | flqn2.cpp:333-339 | `processOperator` changes the operand stack only for `|` with at least two operands, and then replaces the top two by their alternation, earlier operand on the left |
| Parser.ProcessOpKeeps | flqn1.cpp:337-343 | `processOperator` keeps the symbols on the operand stack, and never empties a non-empty stack |
| Parser.ReduceKeeps | flqn2.cpp:299-308 | the pop-and-apply loop keeps the operand symbols and keeps the stack non-empty iff it was |
| Parser.FlushAllKeeps | flqn2.cpp:319-322 | the flush after the scan keeps the operand symbols and keeps the stack non-empty iff it was |
| Parser.FoldConcatAll | flqn2.cpp:324-328 | the final fold leaves one operand, the right-nested concatenation of the stack with earlier fragments on the left |
| Parser.FoldConcatEmpty | flqn2.cpp:324-330 | the fold leaves an empty stack empty (the case the code reads with `top()`) |
| Parser.CatAllSymbols | flqn2.cpp:324-328 | the folded term has exactly the symbols of the stack |
| Parser.StepKeeps | flqn2.cpp:291-317 | one scan step adds its character to the operand symbols iff it is alphanumeric, and the stack is empty afterwards iff it was empty and the character is not alphanumeric |
| Parser.ScanKeeps | flqn2.cpp:291-317 | after the scan the operand stack holds exactly the regex's alphanumeric characters, and is empty iff there are none |
| Parser.StepStar | flqn2.cpp:310-315 | `*` leaves the operators alone, does nothing on an empty operand stack, and otherwise replaces only the top operand by its star |
| Parser.ScanSnoc | flqn2.cpp:291-317 | scanning one more character is one more step of the loop |
| Parser.ScanFilter | flqn2.cpp:291-317 | skipped characters do not change the scan |
| Parser.ParseIgnoresUnknown | flqn2.cpp:287-331 | `parseRegex` gives the same result with every unrecognised character removed |
| Parser.ParseTermSymbols | flqn2.cpp:287-331 | parsing fails (empty operand stack at `top()`) iff the regex has no alphanumeric character; otherwise the term's symbols are exactly those characters |
| Parser.ParseAutomaton | flqn1.cpp:290-335 | a parsed automaton is well formed, starts at 0, accepts only its last state, and its alphabet is the regex's alphanumeric characters |
| Parser.ScanGroup | flqn2.cpp:291-317 | `(a|b)*` reduces to a single operand, the star of the alternation, with no operator left |
| Parser.ParseGroupExample | flqn1.cpp:415 | the demo regex `(a|b)*abb` parses as `(a|b)*` followed by `a`, `b`, `b`, right-nested |
| Parser.ParseConcatAltExample | flqn2.cpp:304-328 | `ab|c` parses as `a(b|c)`, because concatenation is applied only after the scan |
| Parser.ParseAltChainExample | flqn2.cpp:304-309 | `a|b|c` parses as `(a|b)|c`: alternation is left-associative |
| Parser.ParseStrayCloseExample | flqn2.cpp:298-303 | a `)` without its `(` applies the pending `|` and pops nothing: `a|b)c` parses as `(a|b)c` |
| Parser.ParseOpenGroupExample | flqn2.cpp:319-322 | a `(` never closed is flushed and ignored by `processOperator`: `(a|b` parses as `a|b` |
| Parser.ProcessOperator | flqn2.cpp:333-339 | on NFA objects: only `|` with two operands changes the stack, by replacing the top two with a fresh alternation; the stack always holds the automata of `ProcessOp` on the terms |
| Parser.ApplyPending | flqn2.cpp:299-302 | the pop-and-apply loop on NFA objects leaves the automata of `Reduce` and its operator stack |
| Parser.ScanChar | flqn2.cpp:292-316 | one loop iteration on NFA objects leaves the automata of `Step` and its operator stack |
| Parser.FlushOperators | flqn2.cpp:319-322 | the flush on NFA objects leaves the automata of `FlushAll` |
| Parser.FoldOperands | flqn2.cpp:324-328 | the final fold on NFA objects leaves the automata of `FoldConcat` |
| Parser.ParseRegex | flqn2.cpp:287-331 | `parseRegex` fails exactly where `ParseTerm` does, and otherwise returns the Thompson automaton of the parsed term |
| Subset.AllSubsetsMember | flqn2.cpp:57-58 | the candidate DFA-state sets are exactly the subsets of the NFA's identities |
| Subset.AllSubsetsCard | flqn2.cpp:57-58 | there are 2^n of them |
| Subset.Closure | flqn2.cpp:122-141 | the reference epsilon closure stays within the NFA's states |
| Subset.ClosureGrows | flqn2.cpp:123 | the closure contains its seed set |
| Subset.ClosureClosed | flqn2.cpp:128-138 | the closure is closed under epsilon edges |
| Subset.ClosureLeast | flqn2.cpp:122-141 | the closure is contained in every epsilon-closed superset of the seed: it is the least one |
| Subset.ClosureIdempotent | flqn2.cpp:122-141 | closing twice is closing once |
| Subset.ClosureEmpty | flqn2.cpp:373-375 | the closure of the empty set is empty, so an empty move gives the empty closure the code skips |
| Subset.ClosureReachable | flqn1.cpp:108-127 | a state is in the closure iff it is reachable from the seed by a path of epsilon edges |
| Subset.EpsilonClosure | flqn2.cpp:122-141 | the breadth-first search with its queue returns exactly `Closure` |
| Subset.MoveFacts | flqn2.cpp:143-155 | `move` stays within the NFA's states, and is empty iff no state of the set has a non-empty edge on the symbol |
| Subset.Move | flqn1.cpp:130-142 | the nested loops return exactly the union of the symbol's targets over the set |
| Subset.Meets | flqn2.cpp:358-363 | the accept test with `break` answers whether the subset meets the NFA's accept set |
| Subset.HasLeast | flqn2.cpp:371 | a non-empty alphabet has a least symbol: `std::set` iteration order is well defined |
| Subset.OrderStep | flqn2.cpp:371 | taking the least remaining symbol keeps the visited symbols ascending and below all remaining ones |
| Subset.AddSubset | flqn2.cpp:376-387 | registering a new subset gives it the next id, maps it to that id, appends it to `dfaStates`, and makes the id accepting iff the subset meets the accept set |
| Subset.StartTable | flqn2.cpp:350-363 | after the start closure is registered as id 0, the table invariant holds with no row filled, and no state needs an entry leading to it yet |
| Subset.RegisterKeeps | flqn2.cpp:376-388 | registering an unseen subset keeps the table invariant: ids stay dense and a bijection with the subsets, and no row changes |
| Subset.RecordKeeps | flqn2.cpp:390 | recording the entry of an unvisited symbol with a non-empty successor extends the current row by that symbol |
| Subset.SkipKeeps | flqn2.cpp:375 | an empty successor records nothing and still counts the symbol as done |
| Subset.RowComplete | flqn2.cpp:371-392 | a row done for every alphabet symbol is complete, and the next row can start |
| Subset.DenseBound | flqn2.cpp:376-379 | distinct subsets under dense ids: at most 2^n DFA states |
| Subset.SymbolKeeps | flqn2.cpp:372-391 | one symbol of a round (skip, record, or register then record) keeps the round's invariant |
| Subset.ExpandSymbol | flqn2.cpp:372-391 | one symbol of a round changes the DFA as the symbol specification says, and queues exactly the new subsets |
| Subset.ExpandLeast | flqn2.cpp:371-392 | handling the least remaining symbol keeps the round invariant, the queue and the symbol order |
| Subset.ExpandRow | flqn2.cpp:369-392 | a round over the alphabet (in ascending order) completes the row of the dequeued subset; the queue stays the unprocessed tail of `dfaStates` |
| Subset.ExpandNext | flqn2.cpp:366-392 | dequeuing the oldest subset (whose id is the count processed) and running its round completes one more row |
| Subset.ConvertNfa | flqn1.cpp:346-407 | the subset construction ends with the start closure as id 0, the NFA's alphabet, every row complete (entry iff the successor closure is non-empty, pointing to its id), accept iff the subset meets the NFA's accept set, every id but 0 the target of an entry in an earlier row, and at most 2^n states |
| Subset.SymbolDiscovers | flqn2.cpp:376-390 | one symbol of a round keeps every non-start state entered from an earlier row: a new id gets the entry of the current row, and that entry was empty before |
| Subset.StatesReached | flqn2.cpp:365-393 | every state of the converted DFA is reached from the start state by some input: the worklist registers only the subsets it arrives at |
| Subset.NfaRunEmpty | flqn2.cpp:375 | once the simulated subset is empty it stays empty |
| Subset.NextLabelled | flqn2.cpp:143-155 | only a symbol that labels some edge can lead to a non-empty successor |
| Subset.RunTracks | flqn2.cpp:99-115 | from any DFA state, `validate`'s walk ends in the DFA state of the subset the NFA simulation holds, and fails exactly when that subset runs empty |
| Subset.ConvertLanguage | flqn2.cpp:342-396 | the DFA accepts exactly the strings the NFA accepts |
| Converter.Convert | flqn2.cpp:342-396 | `convert(regex)` fails exactly when the regex has no alphanumeric character; otherwise it is the complete subset construction of the parsed Thompson NFA, with the regex's alphanumeric characters as alphabet, at most 2^n states, the NFA's language, and every state reached from the start by some input |

## Left out

- `DFA::print`, `main` and the demo drivers are output only and are not modelled.
- The `regex` member and (in `flqn1.cpp`) `stateCounter` are written and never read. They are not modelled.
- `isalnum` is modelled as the ASCII letters and digits (the "C" locale).
- Characters are Dafny `char`s, not C++ bytes. `std::set<char>` iteration is modelled as ascending code-point order. This agrees with the code for every symbol the parser admits, since all of them are ASCII.
- `int` state ids are modelled as `nat`. Ids are vector indices, so they are never negative. Overflow at 2^31 states is not modelled.
- `std::stack` and `std::queue` are modelled as sequences: the top of a stack is the last element, the front of a queue the first.
- Loops over a `std::set` whose result does not depend on the order are modelled with an arbitrary choice of the next element. These are the epsilon-closure BFS, `move`, the copy and link loops, and the accept tests. The symbol loop of `convert` does depend on the order for the ids it hands out, and takes the least symbol first.
- `convert` pushes a new subset on `unmarked` before the accept test. The model registers the subset, runs the accept test, then queues it. These writes are independent, so the order changes nothing observable.
- Thompson.Concatenate: requires that the operands' accept states are existing states. For any other accept state the code would index out of range or, once offset, link a state of the other operand (`flqn2.cpp:187`, `flqn2.cpp:242`). `Parser.BuildAcceptInRange` shows that this holds for every automaton the parser builds.
- Thompson.Alternate: same precondition and reason as `Concatenate`.
- Thompson.Star: same precondition and reason as `Concatenate`.
- Subset.ConvertNfa: requires a start state inside the NFA and an arena-shaped NFA (`Automata.Arena`): edges only into the NFA, each state's id equal to its index, and no symbol mapped to an empty target set. The code indexes the state vector with the start state and the targets. The other two conditions are shape facts the model relies on, which the code never violates because `addState` and `addTransition` create only such states. `Parser.ParseAutomaton` provides all of them for parsed automata.
- Subset.ConvertNfa: states that every id but 0 is entered from an earlier row, but not the exact numbering order (ids in order of first discovery, row by row and symbol by symbol). So it does not state that two runs on the same NFA number the states identically.
- Subset.ConvertLanguage: the NFA's language is defined by the subset simulation (closure, then move and closure per symbol), not by labelled paths. The lemma requires every label in use to be in the alphabet, which `Parser.BuildLabels` and `Parser.BuildWellFormed` give for parsed automata.
- Converter.Convert: states the language of the DFA as that of the Thompson NFA. It does not state that this NFA accepts the language of the regular expression in the textbook sense.
- Automata.DFA.constructor: the code leaves `startState` uninitialised, and the model leaves it unconstrained. `convert` sets it to 0 straight away.
