# rec: the regex-to-NFA builder, modelled in Dafny

`rec` compiles a regular expression into a nondeterministic finite
automaton. In `dfa.cpp`, `Nfa::Nfa(const char*)` starts from one state, the
start state 0. It parses the whole C string with a recursive descent
(`parse_regex` → `parse_chunk` → `parse_element`, with the helpers
`lex_number` and `lex_hex`) and marks the exit of the top-level regex as
accepting. Every construct is given an entry state. It appends the states
it needs to the arena `m_states` through `emplace_new_state`. It adds three
kinds of edges: epsilon, omega (any byte) and character edges. It returns
its exit state and leaves the cursor after itself. A malformed regex
throws `Regex_Exception` with a fixed message.

The model has these layers:

* **`Cursor`, `Outcome`, `Lex`, `Arena`** hold the shared pieces.
  * A regex is a `seq<byte>`. `At` reads byte `i`, or 0 (the C string's
    NUL) at and beyond the end.
  * A thrown exception is `Err(message)`.
  * A state is a value with its accepting flag, its epsilon and omega edge
    sets, and its multiset of character edges.
  * The arena is a `seq<State>`.
  * `LexNumber` and `LexHex` are the two lexers, written as loops and
    proved against `LexNumberSpec` and `HexPair`.
* **`NfaSpec`** gives each parse routine as a pure function of the input,
  the cursor, the arena and the entry state. It yields the grown arena,
  the exit state and the new cursor, or the exception's message. `Compile`
  is the whole constructor.
* **`NfaBuilder.Nfa`** is the class with the mutable arena `states`. Its
  methods mirror the C++ member functions: they advance the cursor and
  append states and edges step by step. Each method is proved to leave
  exactly the arena and the result that the matching `NfaSpec` function
  computes.

The model follows the code as written, not the grammar comment at
`dfa.cpp:63-74`, wherever the two differ:

* The operator slot after an element always consumes one byte, so
  `ab` parses as `a` alone.
* A chunk ends only at `|` or NUL. A `)` can therefore never close a
  group: at the start of an element it is rejected, and right after an
  element it fills the operator slot and is dropped. So `a)` compiles like
  `a`, and `(a)` fails with "expected ')' to close '('".
* `lex_number` consumes the byte after the digits.
* Each `{...}` re-parse advances `save_ptr`.
* The `-` form asks for `max` optional copies, not `max - min`. Since
  every re-parse starts where the previous one stopped, a maximum above the
  minimum succeeds only as `{0-1}`. Any maximum of 2 or more fails at the
  `{`, so the difference from `max - min` never shows in a result.

`Growth` proves that no construct ever takes an edge away. With that, the
epsilon edge `parse_regex` adds from each alternative's exit is still
present in the finished automaton. The properties in `Properties` and
`Examples` state the consequences listed above outright.

## Model

| member | source | states |
|---|---|---|
| Lex.LexNumberSpec | dfa.cpp:14-26 | Fails with "failed to read number expected digit" exactly when the first byte is not a digit. Otherwise the value is below 2^32, every byte up to the terminator is a digit, the terminator is not a digit, and the cursor ends one past it. |
| Lex.LexNumber | dfa.cpp:14-26 | The digit loop with its 32-bit `unsigned int` wrap-around computes exactly `LexNumberSpec`. |
| Lex.LexNumberRoundTrip | dfa.cpp:14-26 | Lexing the decimal text of any n, followed by a non-digit, yields n mod 2^32, with the cursor one past the terminator. |
| Lex.HexPair | dfa.cpp:28-61 | The byte is 16 × the first digit's value + the second's; a byte that is not a hex digit counts as 0. |
| Lex.LexHex | dfa.cpp:28-61 | The two-round loop on the 8-bit `char` yields `HexPair` and consumes exactly two bytes. |
| Lex.HexRoundTrip | dfa.cpp:28-61 | Any byte written as two hex digits, in either case for each digit, lexes back to itself. |
| Arena.NewState | dfa.cpp:250-255 | Appends one fresh state and keeps every old state and the set of accepting states. |
| Arena.AddEpsilon | dfa.cpp:182-187 | Keeps the length and the accepting states, and keeps every edge in range. |
| Arena.AddOmega | dfa.cpp:89-91 | Keeps the length and the accepting states, and keeps every edge in range. |
| Arena.AddChar | dfa.cpp:155-157 | Keeps the length and the accepting states, and keeps every edge in range. |
| Arena.RangeEdges | dfa.cpp:99-102 | Every edge of a range lies between its bounds and leads to the target state. |
| Arena.RangeEdgesExact | dfa.cpp:99-102 | A range lo..hi adds hi - lo + 1 edges: exactly one for each byte in it and none for any other byte. |
| Arena.AddRange | dfa.cpp:99-102 | Adding a range keeps the length and the accepting states, and keeps every edge in range. |
| Arena.AddRangeStep | dfa.cpp:99-102 | One more loop round adds the edge on the next byte. |
| Arena.AddRangeFrom | dfa.cpp:99-102 | A range adds edges only from its entry state and only into its exit. |
| Arena.AddCharFrom | dfa.cpp:155-157 | A character edge is added only from the entry state and only into the exit. |
| Arena.AddOmegaFrom | dfa.cpp:89-91 | An omega edge is added only from the entry state and only into the exit. |
| Arena.AddEpsilonEdges | dfa.cpp:182-188 | The epsilon-edge relation grows by exactly the one pair, and nothing but epsilon edges changes. |
| Arena.MarkAccepting | dfa.cpp:245 | Marking a state accepting adds exactly that state to the accepting set. |
| Arena.NextChar | dfa.cpp:99 | `ch++` on an 8-bit char: the next byte, and 255 wraps to 0. |
| Arena.RangeLoopAsWritten | dfa.cpp:99-102 | The class loop as written; an empty range (hi below the start) adds nothing. |
| Arena.RangeLoopAsWrittenNeverEnds | dfa.cpp:99-102 | With a maximum of 255, the loop as written never stops, whatever the bound on rounds. |
| Arena.RangeLoopAsWrittenBelowTop | dfa.cpp:99-102 | With a maximum below 255, the loop as written stops and adds exactly `RangeEdges`. |
| NfaSpec.Escape | dfa.cpp:106-154 | Fails with "invalid escape sequence" exactly when the letter is not one of the 13 special bytes, not a named escape and not `x`. `/x` consumes two more bytes; every other escape consumes one. |
| NfaSpec.ClassRanges | dfa.cpp:92-105 | On success the exit is the given one, the cursor advances, and edges are added only from the entry into the exit. |
| NfaSpec.Element | dfa.cpp:76-169 | On success the arena grows, stays well formed and keeps its accepting states, and the cursor advances. A group `(` never succeeds on a C string. |
| NfaSpec.Chunk | dfa.cpp:171-228 | On success the arena grows, and the cursor stops at a `\|` or at NUL. |
| NfaSpec.Operator | dfa.cpp:179-225 | On success the arena grows and at least one byte is consumed. |
| NfaSpec.Braces | dfa.cpp:189-223 | On success the arena grows and the cursor moves past the `{`. |
| NfaSpec.BracesKind | dfa.cpp:197-222 | On success the arena grows and the kind byte is consumed. |
| NfaSpec.BracesMax | dfa.cpp:204-208 | On success the arena grows and the cursor moves past the maximum. |
| NfaSpec.OptionalCopies | dfa.cpp:209-219 | On success the arena grows and the closing `}` is consumed. |
| NfaSpec.Repeat | dfa.cpp:192-196 | On success the arena grows, both states are in range, and `save_ptr` never moves back. |
| NfaSpec.RepeatOptional | dfa.cpp:209-215 | On success the arena grows, both states are in range, and `save_ptr` never moves back. |
| NfaSpec.Alternatives | dfa.cpp:233-237 | On success the exit is the shared `out` state, the arena grows, and the cursor is one past a NUL. |
| NfaSpec.AlternativesAfter | dfa.cpp:235-237 | On success the exit is the shared one, and the cursor is one past a NUL. |
| NfaSpec.Regex | dfa.cpp:230-239 | On success the exit is the state allocated first, and the cursor has passed the end of a NUL-free input. |
| NfaSpec.Compile | dfa.cpp:241-246 | On success the automaton is well formed, has at least two states, and exactly state 1 is accepting. |
| Growth.ElementKeeps | dfa.cpp:76-169 | An element only appends states and adds edges: every state of the old arena keeps all its epsilon, omega and character edges. |
| Growth.ChunkKeeps | dfa.cpp:171-228 | A chunk keeps every edge of the arena it started from. |
| Growth.OperatorKeeps | dfa.cpp:179-225 | The operator slot keeps every edge of the element's arena. |
| Growth.BracesKeeps | dfa.cpp:189-223 | A `{...}` operator keeps every existing edge. |
| Growth.BracesKindKeeps | dfa.cpp:197-222 | The `}`/`+`/`-` switch keeps every edge of the copies' arena. |
| Growth.BracesMaxKeeps | dfa.cpp:204-208 | The `-` case keeps every edge of the copies' arena. |
| Growth.OptionalCopiesKeeps | dfa.cpp:209-219 | The optional copies keep every edge of the copies' arena. |
| Growth.RepeatKeeps | dfa.cpp:192-196 | The `{min}` re-parse loop keeps every existing edge. |
| Growth.RepeatOptionalKeeps | dfa.cpp:209-215 | The `{min-max}` loop keeps every existing edge. |
| Growth.AlternativesKeeps | dfa.cpp:233-237 | The alternatives loop keeps every existing edge. |
| Growth.AlternativesAfterKeeps | dfa.cpp:235-237 | After a chunk, the rest of the loop keeps every edge, including the one that joins that chunk's exit to `out`. |
| Growth.RegexKeeps | dfa.cpp:230-239 | `parse_regex` keeps every edge of the arena it started from. |
| Growth.AlternativesJoinsChunk | dfa.cpp:233-237 | The chunk parsed from `in_state` has an epsilon edge from its exit into the exit allocated first, in the arena the whole loop returns. Each later alternative restarts the loop after its `\|`, so the same holds for every alternative. |
| NfaBuilder.Nfa.Init | dfa.cpp:241 | `m_states(1)`: the arena is one fresh state. |
| NfaBuilder.Nfa.FromRegex | dfa.cpp:241-246 | The constructor throws exactly the message `Compile` gives; otherwise it builds a new object whose arena is `Compile`'s automaton. |
| NfaBuilder.Nfa.EmplaceNewState | dfa.cpp:250-255 | Returns the old size and appends one fresh state. |
| NfaBuilder.Nfa.ParseElement | dfa.cpp:76-169 | Result and final arena agree with `Element`. |
| NfaBuilder.Nfa.ParseClass | dfa.cpp:92-105 | Result and final arena agree with `ClassRanges`. |
| NfaBuilder.Nfa.AddRangeEdges | dfa.cpp:99-102 | The loop adds exactly `AddRange` (corrected bound; see Findings). |
| NfaBuilder.Nfa.ParseEscape | dfa.cpp:106-154 | Yields exactly `Escape`. |
| NfaBuilder.Nfa.ParseChunk | dfa.cpp:171-228 | Result and final arena agree with `Chunk`. |
| NfaBuilder.Nfa.ApplyOperator | dfa.cpp:179-225 | Result and final arena agree with `Operator`. |
| NfaBuilder.Nfa.ParseBraces | dfa.cpp:189-223 | Result and final arena agree with `Braces`. |
| NfaBuilder.Nfa.ParseBracesKind | dfa.cpp:197-222 | Result and final arena agree with `BracesKind`. |
| NfaBuilder.Nfa.ParseBracesMax | dfa.cpp:204-208 | Result and final arena agree with `BracesMax`. |
| NfaBuilder.Nfa.ParseOptionalCopies | dfa.cpp:209-219 | Result and final arena agree with `OptionalCopies`. |
| NfaBuilder.Nfa.RepeatElement | dfa.cpp:192-196 | Result and final arena agree with `Repeat`. |
| NfaBuilder.Nfa.RepeatOptionalElement | dfa.cpp:209-215 | Result and final arena agree with `RepeatOptional`. |
| NfaBuilder.Nfa.ParseRegex | dfa.cpp:230-239 | Result and final arena agree with `Regex`. |
| Properties.ElementAddsOneState | dfa.cpp:86-167 | Every element but a group allocates exactly one state, exits through it, and adds edges only from its entry into it. |
| Properties.ElementLiteral | dfa.cpp:155-157 | A literal byte succeeds, consumes one byte, and adds exactly the edge on itself to a fresh state. |
| Properties.ElementAnyChar | dfa.cpp:89-91 | `.` adds exactly one omega edge to a fresh state and no character edge. |
| Properties.ElementSingleRange | dfa.cpp:92-105 | `[x-y]` adds one edge for each byte between x and y, in either order, and none for any other byte. |
| Properties.ClassRangesOutcome | dfa.cpp:92-105 | The class loop succeeds exactly when `ClassEdges`, a reference that reads the ranges directly off the text, finds every `-`, and otherwise fails with the class message. |
| Properties.ClassRangesEdges | dfa.cpp:92-105 | On success the class loop adds exactly the reference's edges to the entry state and changes nothing else. |
| Properties.ElementRangeWithoutDash | dfa.cpp:96 | `[` followed by a byte and no `-` fails with "'-' required in character range". |
| Properties.ElementEscapedSpecial | dfa.cpp:106-122 | `/c` for each of the 13 special bytes adds the edge on `c` itself and consumes two bytes. |
| Properties.ElementNamedEscape | dfa.cpp:123-149 | `/n`, `/r`, `/t`, `/v`, `/f`, `/b`, `/a`, `/s` and `/z` add the edge on the byte they name. |
| Properties.ElementInvalidEscape | dfa.cpp:153 | Any other escape letter fails with "invalid escape sequence". |
| Properties.ElementUnexpected | dfa.cpp:158-166 | `]`, `)`, `*`, `+`, `?`, `{`, `}` and `-` at the start of an element fail with "unexpected character 'c'". |
| Properties.ElementEscapedHex | dfa.cpp:150-152 | Every byte, NUL included, is matched by its `/x` escape in either letter case. |
| Properties.OperatorSlot | dfa.cpp:179-188 | The slot always consumes one byte. Except for `{`, it keeps the exit, allocates nothing, and adds exactly the epsilon edges of `*`, `+` or `?` (none for any other byte). |
| Properties.ChunkSwallowsByte | dfa.cpp:178-179 | A literal followed by a non-operator byte: that byte is dropped, and the chunk goes on two bytes later. |
| Properties.ChunkRejectsCloseParen | dfa.cpp:160 | A chunk at `)` fails with "unexpected character ')'". |
| Properties.LiteralCopy | dfa.cpp:155-157 | A literal element's exit is a new state, and it consumes one byte. |
| Properties.BracesAfterLiteral | dfa.cpp:189-191 | `c{...` hands the re-parse to `Braces`, starting from `c` itself. |
| Properties.ClassRangesCursor | dfa.cpp:92-105 | Whether the class loop fails, its message and where it stops depend only on the text, not on the arena or the states. |
| Properties.ElementCursor | dfa.cpp:76-169 | For every element but a group, success, message and end cursor do not depend on the arena or the entry state, so a re-parse from `save_ptr` moves it as the first parse did. |
| Properties.ElementCursorClass | dfa.cpp:92-105 | The class case of `ElementCursor`. |
| Properties.ElementCursorEscape | dfa.cpp:106-154 | The escape case of `ElementCursor`. |
| Properties.ElementCursorByte | dfa.cpp:87-91 | The `.`, literal and unexpected-byte cases of `ElementCursor`. |
| Properties.ReparseAtBrace | dfa.cpp:192-196 | For any element but a group followed by `{`, a minimum of 2 or more fails on the second round, at the `{`. |
| Properties.OperatorRepeatFails | dfa.cpp:189-196 | A `{` whose re-parse loop fails makes the operator slot fail with the same message. |
| Properties.ChunkOperatorFails | dfa.cpp:178-179 | A failing operator slot ends the chunk with its message. |
| Properties.BracesSecondCopyFails | dfa.cpp:192-196 | For any element but a group followed by `{`, a minimum of 2 or more makes the chunk fail with "unexpected character '{'", because `save_ptr` has moved to the `{`. |
| Properties.OptionalSecondCopyFails | dfa.cpp:204-215 | For any element but a group followed by `{min-max}` with max above min and of 2 or more, the chunk fails with "unexpected character '{'": the optional loop reaches the `{` through `save_ptr`. |
| Properties.OptionalFromElement | dfa.cpp:210-214 | With minimum 0, the `{min}` loop leaves `save_ptr` at the element, and an optional loop of 2 or more rounds from there fails at `{`. |
| Properties.OptionalFromBrace | dfa.cpp:192-196 | With minimum 1, the `{min}` loop leaves `save_ptr` at the `{`, where any optional loop fails. |
| Properties.OptionalReparseAtBrace | dfa.cpp:210-214 | An optional round that starts at `{` fails with "unexpected character '{'". |
| Properties.OptionalSecondReparseFails | dfa.cpp:210-214 | From an element that ends at `{`, the first optional round ends there and the second fails. |
| Properties.BracesMinusFails | dfa.cpp:204-215 | With max above min, a failing optional loop fails the `{}` switch with its message. |
| Properties.BracesAfterCopies | dfa.cpp:191-197 | After the `{min}` loop, the byte following the number decides the `{...}` outcome. |
| Properties.OperatorBracesFails | dfa.cpp:189-191 | A failing `{...}` expression fails the operator slot with its message. |
| Properties.OperatorSwitchFails | dfa.cpp:189-197 | A failing switch after the `{min}` loop fails the operator slot with its message. |
| Properties.LiteralCopies | dfa.cpp:192-196 | The copies `c{0` or `c{1` leave: 1 + n new states chained from the entry, with `save_ptr` past each re-parsed copy. |
| Properties.LiteralBraces | dfa.cpp:189-222 | With a minimum of 0 or 1, `Braces` is `BracesKind` applied to those copies. |
| Properties.BracesKindAfterTerminator | dfa.cpp:197-221 | The kind is the byte after the number's terminator, so a lone `c{1}` fails with "unexpected character in {} expression". |
| Properties.BracesCopies | dfa.cpp:199 | `c{n}}` with n ≤ 1 yields the n + 1 chained copies. |
| Properties.BracesPlus | dfa.cpp:200-203 | `+` loops the last copy back to its entry and requires `}`; otherwise it fails with "expected } to close {". |
| Properties.BracesMaxEqualsMin | dfa.cpp:206-208 | With max equal to min the copies stand, and no `}` is looked for. |
| Properties.BracesOptionalCopy | dfa.cpp:204-219 | `c{0?-1?}` builds the end state, the skip edge, one optional copy, and the join into the end state when `}` follows, and otherwise fails with "expected } to close {". |
| Properties.OptionalLiteralTail | dfa.cpp:209-219 | The `-1?` tail after any copies of a literal: end state, skip edge, one copy and join when the next byte is `}`, and "expected } to close {" otherwise. |
| Properties.LiteralOptionalCopy | dfa.cpp:210-215 | One optional round for a literal: the skip edge, then the copy chained from the previous exit. |
| Properties.BracesMaxBelowMin | dfa.cpp:207 | A minimum of 1 with a maximum of 0 fails with "max is less than min in {} expression". A minimum of 2 or more never gets this far (see `BracesSecondCopyFails`). |
| Examples.CompileLiteral | dfa.cpp:241-246 | `c` compiles to start -c-> 2 -ε-> 1, with state 1 accepting. |
| Examples.CompileSwallowsSecondByte | dfa.cpp:178-179 | `cd`, with d not an operator (`)` included), compiles exactly like `c`. |
| Examples.CompileGroupFails | dfa.cpp:80-84 | `(c)` fails with "expected ')' to close '('": the `)` is swallowed by the operator slot after `c`, and the group's check reads past the NUL. |
| Examples.CompileStar | dfa.cpp:181-185 | `c*` compiles to the skip edge 0 → 2 and the loop-back edge 2 → 0. |
| Examples.Starred | dfa.cpp:181-185 | A starred literal adds one state and keeps the arena well formed. |
| Examples.ChunkStarred | dfa.cpp:171-228 | A chunk `c*` up to `\|` or NUL yields the starred arena. |
| Examples.RegexAlternatives | dfa.cpp:230-239 | `c*\|d*`: both alternatives start at the entry, and each exit is joined to the exit allocated first. |
| Examples.CompileAlternatives | dfa.cpp:241-246 | `c*\|d*` compiles to the exact four-state automaton. |
| Examples.AlternativesArena | dfa.cpp:233-237 | The arena of `c*\|d*`, state by state. |

## Left out

- The DFA: `Dfa::Dfa(const Nfa&)` at dfa.cpp:260 has an empty body, so there is nothing to model.
- The `std::string` constructor overload and the `states()` accessors: they only forward to the members above.
- Regex_Exception: modelled only as its message. The partially built `Nfa` that the exception abandons is dropped, and `FromRegex` returns no object.
- `char` is modelled as an unsigned byte. Where the platform's `char` is signed, bytes of 128 and above compare as negative. That changes the swap in a class range and moves the never-ending class loop to a maximum of 127.
- Reads past the terminating NUL: the C++ can read beyond the string when the NUL has already been consumed. This happens:
  - after `lex_number` consumes a NUL terminator (dfa.cpp:23);
  - in the operator slot after an element that ends at the NUL (dfa.cpp:179);
  - in every group's `)` check (dfa.cpp:83), since the inner `parse_regex` always consumes the NUL;
  - in `lex_hex` on a trailing `/x` (dfa.cpp:34);
  - in a class cut short by the end of the text (dfa.cpp:95-97).

  The model reads 0 at all of these, as `At` does. Its claim that a group never succeeds rests on that reading.
- The layout of `Nfa::state` comes from its uses in dfa.cpp. `dfa.h` is an older header: it declares `Nfa` with a `std::stringstream&` constructor and declares no `state` type and no members. The character transitions are kept as a multiset, so a duplicate pair is counted twice where a set-like container would keep one.
- `insert_order_map.h`, `input_parse.cpp`, `main.cpp`, `utils.h`, `named.h` and `regex_parse.*` are not part of this model. They hold the command-line front end and other helpers, not the builder.
- `NfaSpec.Element` states only that a group fails on NUL-free input, not which message it fails with; the message is either the inner failure or "expected ')' to close '('".
- `NfaBuilder.Nfa.AddRangeEdges` uses the corrected loop bound, so the builder terminates on every input. The as-written loop is kept in `Arena.RangeLoopAsWritten` (see Findings).
- Stack depth: the recursion depth of the C++ descent is not modelled.
- Properties.LiteralBraces: like `BracesCopies`, `BracesPlus`, `BracesMaxEqualsMin`, `BracesOptionalCopy`, `BracesKindAfterTerminator` and `BracesMaxBelowMin`, it gives the exact `{...}` arena only for a literal element. Any other element goes through the same `Braces` function. `BracesSecondCopyFails` and `OptionalSecondCopyFails` cover every element but a group.

## Findings

| source | as written | input that shows it | evidently intended | confidence | as-written member | corrected member |
|---|---|---|---|---|---|---|
| dfa.cpp:99 | `for(ch = min; ch <= max; ch++)` on an 8-bit `char`: when `max` is the largest `char` value, `ch <= max` always holds and `ch++` wraps, so the loop never ends | a class whose upper bound is byte 0xFF, e.g. the bytes `[`, `a`, `-`, 0xFF, `]` (with signed `char`, `[a-` followed by 0x7F) | add one edge per byte from min to max and stop | high; not executed | Arena.RangeLoopAsWrittenNeverEnds | Arena.RangeEdgesExact |
