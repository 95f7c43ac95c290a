# MyUtils expression parser, executor arguments and method holder, in Dafny

This project models three pieces of the MyUtils library.

1. **`BaseExpressionParser`.** It turns an expression such as
   `print(toJson(a)+toJson(2))` into a tree of `ParseResult` and `Arg` values.
   - `parse` takes the function name before the first `(`.
   - `parseArg` runs a one-pass character state machine. It tracks a segment start, a
     pending terminator (`'` or `)`), a quote/bracket counter, and the previous argument
     of the current comma group (`partLast`).
   - `createArg` classifies each segment as CONSTANT, ORIGIN or FUNC. It can also fuse an
     operator-prefixed call into the group's previous argument, which gives an
     OPERATOR_FUNC chain.
   - `extractOperators` reads the leading operators of such a call. It merges a doubled
     character and `<=`/`>=` into one token.
2. **`ExpressionExecutor`.**
   - Its constructor stores the expression, the function name and the argument list,
     modelled by the datatype `Executor.ExpressionExecutor`. Each of the three may be
     null, an `Option`.
   - `loadArgs` turns the argument list into values against an environment. The abstract
     `executeFunc` is a function parameter, the hook.
3. **`BaseMethodHolder`.**
   - A name → method table: `cacheMethod`, `hasMethod` and `getMethod`.
   - The arity decision of `invoke`.
   - The varargs repacking of `castToObjectArray`.

**Modules:**

| Module | Contents |
|---|---|
| `Wrappers` | `Option` and `Result` |
| `JavaStrings` | `String.trim` and `String.indexOf` |
| `CharConstants` | the parser's character constants and the two head patterns |
| `Ast` | `ParseResult`, `Arg` and their well-formedness |
| `Parser` | the imperative methods, each proved equal to a specification function of the same behaviour |
| `ParserProperties`, `ParserScans`, `ParserShapes` | what those functions promise |
| `Executor` | the executor's state and `loadArgs` |
| `MethodHolder` | the method holder |

**Arguments and `partLast`.**
- `Arg.value` is an untyped object in the source. Here it is a sum type with one variant
  per runtime class the parser stores:
  - `Text`, a String;
  - `Nested`, a ParseResult;
  - `Chain`, an ArrayList of Arg.
- `partLast` is always the last element of the result list. So it is modelled as a flag,
  `grouped`.
- Fusing into it replaces the last element of the result sequence.

**Where the code differs from its comments or from what a reader might expect.** The model
follows the code in each case:
- `parse` drops the last character without checking that it is `)`. So `g(f(a)` fails
  inside `f(a` (`ParserShapes.ParsedDropsLast`).
- `parse` fails with an index error when the first `(` is the last character, as in `f(`.
- A space is skipped before any other test, even at the last index. A text ending in a
  space therefore never gets its end-of-text close:
  - an open plain segment is dropped;
  - an unclosed quote or bracket is dropped, with no error.
- In `extractOperators`:
  - a space flushes the pending operator character, so `& &f` gives the two tokens `&`
    and `&` (`ParserProperties.ExtractOperatorsSpaced`);
  - a pending operator at the very end of the input is never emitted, so `& &` gives only
    one token and `-` none;
  - a pair of operators that does not fuse gives two one-character tokens at once.
- A comma right after a closed call or quote does not clear `partLast`. It reaches the
  close block only while a segment is open.
- If the arguments `loadArgs` receives are the parser's own `Arg` values (see the
  `Executor.LoadArg` line under "Left out"), an OPERATOR_FUNC argument makes `loadArgs`
  fail with a ClassCastException: its value is a list, and `loadArgs` casts it to String.
  Among well-formed arguments of the parser, it is the only kind that fails
  (`Executor.LoadWellFormed`).

## Model

| member | source | states |
|---|---|---|
| `JavaStrings.Trim` | src/main/java/expression/cheney/BaseExpressionParser.java:224 | the trimmed string is no longer than the input, starts and ends above U+0020, and leaves a string with no character at or below U+0020 unchanged |
| `JavaStrings.TrimExact` | src/main/java/expression/cheney/BaseExpressionParser.java:224 | what `trim` keeps is one stretch of the input, and every character it drops before or after that stretch is at or below U+0020 |
| `JavaStrings.IndexOf` | src/main/java/expression/cheney/BaseExpressionParser.java:112 | -1 exactly when the character is absent, otherwise a position holding it with no earlier occurrence |
| `JavaStrings.TrimKeeps` | src/main/java/expression/cheney/BaseExpressionParser.java:272-275 | trimming never empties a string that holds a character above U+0020 |
| `JavaStrings.IndexOfAt` | src/main/java/expression/cheney/BaseExpressionParser.java:112 | a position holding the character with no earlier occurrence is what indexOf returns |
| `CharConstants.OperatorRun` | src/main/java/expression/cheney/BaseExpressionParser.java:298-325 | the length of the leading run of operators and spaces; the character after it is neither |
| `Parser.ExtractFrom` | src/main/java/expression/cheney/BaseExpressionParser.java:298-325 | the scan stops at an index between its start and the end of the input |
| `Parser.OperatorArgs` | src/main/java/expression/cheney/BaseExpressionParser.java:233 | one OPERATOR argument per token, in order, holding the token |
| `Parser.Step` | src/main/java/expression/cheney/BaseExpressionParser.java:141-203 | one character keeps the segment invariant (start before the index, counter ≥ 1 while a terminator is pending), a FUNC segment holds a '(', and an error happens only at the last index |
| `Parser.Apply` | src/main/java/expression/cheney/BaseExpressionParser.java:163-201 | after a step the group's previous argument, if any, exists in the list |
| `Parser.Advance` | src/main/java/expression/cheney/BaseExpressionParser.java:141-203 | one loop iteration keeps the segment invariant and leaves a previous argument in the list whenever `partLast` is set |
| `Parser.Classified` | src/main/java/expression/cheney/BaseExpressionParser.java:220-283 | a successful `createArg` leaves a non-empty list, whose last element is the new `partLast` |
| `Parser.Fused` | src/main/java/expression/cheney/BaseExpressionParser.java:243-267 | a successful fusion leaves a non-empty list |
| `Parser.ExtractOperators` | src/main/java/expression/cheney/BaseExpressionParser.java:293-327 | the loop with its pending character computes the tokens and stop index of the scan `OperatorsOf`; what that scan does is stated by `ParserProperties.ExtractOperatorsSpec` (stop index, token shapes, spelling, the dropped odd last operator) and `ParserProperties.ExtractFromPair` (the fusing rule) |
| `Parser.Parse` | src/main/java/expression/cheney/BaseExpressionParser.java:108-121 | returns exactly the specification `Parsed`, whose outcomes the `ParserProperties.Parsed*` lemmas characterise |
| `Parser.ParseArg` | src/main/java/expression/cheney/BaseExpressionParser.java:129-206 | the loop over the characters, with start, terminator, counter, list and `partLast` as state, returns exactly `ArgsOf`, the fold of `Advance` over the text |
| `Parser.CloseSegment` | src/main/java/expression/cheney/BaseExpressionParser.java:163-203 | the close block on a closing character or at the last index performs exactly one `Advance` |
| `Parser.CloseEnclosed` | src/main/java/expression/cheney/BaseExpressionParser.java:165-184 | closing a quoted or bracketed segment (second apostrophe, matching ')', or "end char miss" at the last index) performs exactly one `Advance` |
| `Parser.ClosePlain` | src/main/java/expression/cheney/BaseExpressionParser.java:185-202 | closing a plain segment as ORIGIN (the last character included at the end of the text, nothing emitted for a closing character that would start the segment itself) performs exactly one `Advance` |
| `Parser.CreateArg` | src/main/java/expression/cheney/BaseExpressionParser.java:220-283 | returns exactly `Classified`: append one argument or replace the last with its fusion |
| `ParserProperties.ConcatSnoc` | src/main/java/expression/cheney/BaseExpressionParser.java:312-313 | the spelling of the tokens grows by the spelling of an appended token |
| `ParserProperties.NoSpacesSnoc` | src/main/java/expression/cheney/BaseExpressionParser.java:319-323 | reading one more character adds it to the non-space spelling unless it is a space |
| `ParserProperties.ExtractFromSpan` | src/main/java/expression/cheney/BaseExpressionParser.java:318-324 | every character before the stop index is an operator or a space, and the character at it is neither |
| `ParserProperties.ExtractFromTokens` | src/main/java/expression/cheney/BaseExpressionParser.java:303-317 | every emitted token is one operator, or a pair that fuses (doubled, or `=` after `<`/`>`) |
| `ParserProperties.SpellingOfPair` | src/main/java/expression/cheney/BaseExpressionParser.java:310-316 | fused or split, a pair of operators keeps the tokens spelling the input |
| `ParserProperties.SpellingOfFlush` | src/main/java/expression/cheney/BaseExpressionParser.java:318-322 | flushing the pending operator on a non-operator keeps the tokens spelling the input |
| `ParserProperties.EndsInOddRunParity` | src/main/java/expression/cheney/BaseExpressionParser.java:303-316 | the input ends with an odd run of operators exactly when the length of its final run of operators is odd |
| `ParserProperties.ExtractFromSpelling` | src/main/java/expression/cheney/BaseExpressionParser.java:298-325 | the tokens spell the non-space characters before the stop index; when the scan reads the whole input they spell all of it if it ends in an even run of operators, and all but its last character if the run is odd |
| `ParserProperties.ExtractOperatorsSpec` | src/main/java/expression/cheney/BaseExpressionParser.java:293-327 | `extractOperators` stops at the first character that is neither operator nor space; every token is an operator or fusing pair; the tokens spell the non-space input before the stop; an input of operators and spaces loses its last character exactly when it ends in a run of operators of odd length |
| `ParserProperties.ExtractFromPair` | src/main/java/expression/cheney/BaseExpressionParser.java:303-316 | two operators read with nothing pending become one two-character token when they fuse (a doubled character, or `=` after `<` or `>`) and two one-character tokens otherwise, for every input and position |
| `ParserProperties.ExtractOperatorsPair` | src/main/java/expression/cheney/BaseExpressionParser.java:303-316 | an input of two operators gives one token exactly when they fuse, otherwise two |
| `ParserProperties.ExtractOperatorsPairHead` | src/main/java/expression/cheney/BaseExpressionParser.java:303-325 | two operators before a name give one token when they fuse and two otherwise, and the scan stops at the name |
| `ParserProperties.ExtractOperatorsPairs` | src/main/java/expression/cheney/BaseExpressionParser.java:309-316 | `>=`, `<=`, `==`, `&&` and `||` each give one token; `=>` gives `=` and `>` |
| `ParserProperties.ExtractOperatorsSpaced` | src/main/java/expression/cheney/BaseExpressionParser.java:318-326 | `& &f` gives `&` and `&` and stops at `f`; `& &` gives only `&`; `-` gives nothing |
| `ParserProperties.ExtractOperatorsAndCall` | src/main/java/expression/cheney/test/Main.java:103 | the head `&&contains(b,'b')` of the demo expression gives the one token `&&` and stops at the name |
| `ParserProperties.NoSpacesNonEmpty` | src/main/java/expression/cheney/BaseExpressionParser.java:319-323 | an input with a non-space character has a non-empty spelling |
| `ParserProperties.ExtractOperatorsOnOperatorHead` | src/main/java/expression/cheney/BaseExpressionParser.java:228-233 | on a head matching the operators-then-name pattern, the scan stops exactly where the name starts and yields at least one well-formed token |
| `ParserProperties.OperatorArgsWellFormed` | src/main/java/expression/cheney/BaseExpressionParser.java:233 | OPERATOR arguments built from well-formed tokens are well formed |
| `ParserProperties.ChainExtended` | src/main/java/expression/cheney/BaseExpressionParser.java:259-266 | appending operators and a FUNC to a chain that ends with a FUNC gives a chain alternating FUNC and OPERATOR, ending with a FUNC |
| `ParserProperties.ChainElements` | src/main/java/expression/cheney/BaseExpressionParser.java:259-266 | every element of an extended chain is a well-formed FUNC or OPERATOR |
| `ParserProperties.ChainAlternates` | src/main/java/expression/cheney/BaseExpressionParser.java:259-266 | in an extended chain a FUNC is always followed by an OPERATOR |
| `ParserProperties.AppendWellFormed` | src/main/java/expression/cheney/BaseExpressionParser.java:277-281 | appending a well-formed non-OPERATOR argument keeps the list well formed |
| `ParserProperties.ReplaceLastWellFormed` | src/main/java/expression/cheney/BaseExpressionParser.java:253-261 | replacing the last argument by a well-formed non-OPERATOR one keeps the list well formed |
| `ParserProperties.StepShape` | src/main/java/expression/cheney/BaseExpressionParser.java:141-203 | a step emits only CONSTANT, FUNC or ORIGIN segments, a FUNC segment ends with ')', and a step fails only with "end char miss" |
| `ParserProperties.ParsedWellFormed` | src/main/java/expression/cheney/BaseExpressionParser.java:108-121 | whatever `parse` returns is well formed (FUNC names without '(', kinds agreeing with values, chains alternating and ending with FUNC); EmptyExpression only for the empty string, the index error only when the first '(' is last, every other error from the arguments |
| `ParserProperties.ParsedCallText` | src/main/java/expression/cheney/BaseExpressionParser.java:268-270 | `parse` on a call segment fails only in its arguments and otherwise gives a well-formed result |
| `ParserProperties.ScanWellFormed` | src/main/java/expression/cheney/BaseExpressionParser.java:140-204 | from any reachable state the scan yields a well-formed list, or an unmatched-terminator or last-argument-type error |
| `ParserProperties.AdvanceWellFormed` | src/main/java/expression/cheney/BaseExpressionParser.java:141-203 | one iteration keeps the list well formed and fails only with "end char miss" or "error type of last Arg" |
| `ParserProperties.ClassifiedWellFormed` | src/main/java/expression/cheney/BaseExpressionParser.java:220-283 | `createArg` on a well-formed list keeps it well formed and fails only with "end char miss" or "error type of last Arg" |
| `ParserProperties.OperatorCallRest` | src/main/java/expression/cheney/BaseExpressionParser.java:235 | what follows the leading operators of a call segment, trimmed, is again a call segment |
| `ParserProperties.HeadBeforeBracket` | src/main/java/expression/cheney/BaseExpressionParser.java:224 | the trimmed head is no longer than the text before the first '(' |
| `ParserProperties.RestOfCall` | src/main/java/expression/cheney/BaseExpressionParser.java:235 | a suffix that keeps the first '(' and the final ')', trimmed, is a call segment |
| `ParserProperties.TrimmedCall` | src/main/java/expression/cheney/BaseExpressionParser.java:235 | trimming text that holds a '(' and ends with ')' keeps both |
| `ParserProperties.OperatorCallWellFormed` | src/main/java/expression/cheney/BaseExpressionParser.java:228-267 | the operator-call branch of `createArg` keeps the list well formed and fails only with "end char miss" or "error type of last Arg" |
| `ParserProperties.FusedWellFormed` | src/main/java/expression/cheney/BaseExpressionParser.java:243-267 | fusing operators and a call keeps the list well formed, and fails only with "error type of last Arg" |
| `ParserProperties.LastPrefix` | src/main/java/expression/cheney/BaseExpressionParser.java:248-257 | the group's previous argument is a chain to extend or a call that starts one |
| `ParserProperties.ParsedOrigin` | src/main/java/expression/cheney/BaseExpressionParser.java:112-117 | `parse` yields ORIGIN exactly when the expression is non-empty and has no '(' or starts with one |
| `ParserProperties.ParsedErrors` | src/main/java/expression/cheney/BaseExpressionParser.java:109-118 | EmptyExpression exactly for the empty string; the index error exactly when the first '(' is the last character of an expression not starting with it |
| `ParserProperties.ArgsErrorKinds` | src/main/java/expression/cheney/BaseExpressionParser.java:129-206 | `parseArg` fails only with "end char miss" or "error type of last Arg" |
| `ParserProperties.ParsedFunc` | src/main/java/expression/cheney/BaseExpressionParser.java:118-120 | otherwise the result is FUNC named by the text before the first '(' with the arguments of the text between it and the dropped last character, or that text's error |
| `ParserProperties.ParsedCall` | src/main/java/expression/cheney/BaseExpressionParser.java:108-121 | `name(body)` with no '(' in the name parses to FUNC `name` with the arguments of `body`, or fails with their error |
| `ParserProperties.FusedKeepsSettled` | src/main/java/expression/cheney/BaseExpressionParser.java:243-267 | fusion appends one argument or replaces the group's previous one, never touching earlier arguments |
| `ParserProperties.AppendKeepsSettled` | src/main/java/expression/cheney/BaseExpressionParser.java:277-281 | appending keeps every earlier argument |
| `ParserProperties.ClassifiedKeepsSettled` | src/main/java/expression/cheney/BaseExpressionParser.java:220-283 | `createArg` appends one argument, or replaces the last one only when it is the group's previous argument |
| `ParserProperties.ScanKeepsSettled` | src/main/java/expression/cheney/BaseExpressionParser.java:140-204 | every argument finished by a comma stays in the final result unchanged |
| `ParserProperties.ArgsOfExtends` | src/main/java/expression/cheney/BaseExpressionParser.java:141-203 | one iteration keeps every settled argument and may only rewrite the current group's previous argument |
| `ParserScans.PieceArgSpace` | src/main/java/expression/cheney/BaseExpressionParser.java:142-145 | a leading space does not change the argument of a piece |
| `ParserScans.PlainArgsSpace` | src/main/java/expression/cheney/BaseExpressionParser.java:142-145 | a leading space belongs to no argument |
| `ParserScans.PlainArgsComma` | src/main/java/expression/cheney/BaseExpressionParser.java:146-149 | a leading comma ends an empty piece, which gives no argument |
| `ParserScans.PlainArgsAt` | src/main/java/expression/cheney/BaseExpressionParser.java:185-193 | the first comma splits off one piece in front of the rest |
| `ParserScans.PlainArgsLast` | src/main/java/expression/cheney/BaseExpressionParser.java:186-188 | with no comma left the rest is one piece |
| `ParserScans.AdvanceQuiet` | src/main/java/expression/cheney/BaseExpressionParser.java:141-203 | an iteration that calls nothing leaves the list alone and clears `partLast` only at a comma |
| `ParserScans.AdvanceOrigin` | src/main/java/expression/cheney/BaseExpressionParser.java:185-193 | a closed plain segment is appended, trimmed, as ORIGIN |
| `ParserScans.IdleScan` | src/main/java/expression/cheney/BaseExpressionParser.java:140-204 | from between segments, plain text with no trailing space or comma adds exactly its comma-separated non-blank pieces, trimmed |
| `ParserScans.SegmentToComma` | src/main/java/expression/cheney/BaseExpressionParser.java:146-193 | a plain segment up to a comma becomes one trimmed ORIGIN argument and ends the group |
| `ParserScans.SegmentToEnd` | src/main/java/expression/cheney/BaseExpressionParser.java:186-188 | a plain segment running to the last character becomes one trimmed ORIGIN argument including that character |
| `ParserScans.ArgsOfPlain` | src/main/java/expression/cheney/BaseExpressionParser.java:140-204 | text without quotes or brackets, not ending in a space or comma, gives one trimmed ORIGIN argument per non-blank comma-separated piece, in order |
| `ParserScans.QuoteScan` | src/main/java/expression/cheney/BaseExpressionParser.java:150-172 | inside a quote every character up to the closing apostrophe belongs to the constant; an unclosed quote is "end char miss" unless the last character is a space |
| `ParserScans.ArgsOfQuoted` | src/main/java/expression/cheney/BaseExpressionParser.java:167-172 | `'t'` is the CONSTANT `t`, untrimmed |
| `ParserScans.ArgsOfUnterminated` | src/main/java/expression/cheney/BaseExpressionParser.java:181-184 | an unclosed quote fails with "end char miss" for the apostrophe, or is dropped when the text ends in a space |
| `ParserScans.CallScan` | src/main/java/expression/cheney/BaseExpressionParser.java:155-179 | a head with brackets that close at their matching ')' is one FUNC segment handed to `createArg`, with the group left open |
| `ParserScans.BalancedCloses` | src/main/java/expression/cheney/BaseExpressionParser.java:173-179 | balanced brackets followed by ')' bring the counter back to the opening bracket |
| `ParserScans.CallSegment` | src/main/java/expression/cheney/BaseExpressionParser.java:155-179 | `name(inner)` with balanced brackets, where the head is a name or a run of operators, is a single call segment |
| `ParserScans.ArgsOfOperatorCall` | src/main/java/expression/cheney/BaseExpressionParser.java:226-228 | `ops(inner)` with a head of operators only and balanced brackets gives one ORIGIN argument holding the whole text |
| `ParserScans.ClassifiedPlainCall` | src/main/java/expression/cheney/BaseExpressionParser.java:268-271 | a call whose head holds no operator is parsed recursively and appended as FUNC |
| `ParserScans.ArgsOfCall` | src/main/java/expression/cheney/BaseExpressionParser.java:155-179 | `name(inner)` gives one FUNC argument holding the call parsed with the arguments of `inner`, or `inner`'s error |
| `ParserScans.ArgsOfUnclosed` | src/main/java/expression/cheney/BaseExpressionParser.java:181-184 | a call whose brackets never close fails with "end char miss" for ')', or is dropped when the text ends in a space |
| `ParserShapes.ParsedNoArg` | src/main/java/expression/cheney/test/Main.java:35 | `noArg()` is FUNC `noArg` with no arguments |
| `ParserShapes.WordArgs` | src/main/java/expression/cheney/BaseExpressionParser.java:272-275 | one ORIGIN argument per word, in order |
| `ParserShapes.JoinedPlain` | src/main/java/expression/cheney/test/Main.java:52 | bare words joined by commas are plain text ending in an argument |
| `ParserShapes.PlainArgsJoined` | src/main/java/expression/cheney/BaseExpressionParser.java:185-202 | splitting comma-joined words at the commas gives back the words |
| `ParserShapes.ParsedWords` | src/main/java/expression/cheney/test/Main.java:52 | `name(w1,…,wn)` with bare words parses to FUNC `name` with one ORIGIN argument per word, operators inside a word kept as text |
| `ParserShapes.ParsedDropsLast` | src/main/java/expression/cheney/BaseExpressionParser.java:118 | `g(f(a)` fails with "end char miss" for ')' because the last character is dropped unchecked |
| `ParserShapes.OperatorCallShape` | src/main/java/expression/cheney/BaseExpressionParser.java:224-233 | the head of `op name(inner)` matches the operators-then-name pattern and yields the single operator token |
| `ParserShapes.CallAfterOperator` | src/main/java/expression/cheney/BaseExpressionParser.java:235 | after the operator comes the call, which `parse` reads |
| `ParserShapes.ClassifiedOperatorCall` | src/main/java/expression/cheney/BaseExpressionParser.java:228-267 | `createArg` on `op name(inner)` fuses the operator and the parsed call into the group's previous argument |
| `ParserShapes.ArgsOfFusion` | src/main/java/expression/cheney/BaseExpressionParser.java:243-261 | `f(x) op g(y)` gives one OPERATOR_FUNC argument holding the first call, the operator and the second call, in order |
| `ParserShapes.FusedOntoCall` | src/main/java/expression/cheney/BaseExpressionParser.java:251-261 | fusing an operator and a call into a group whose previous argument is a call makes that argument the OPERATOR_FUNC chain of the call, the operator and the new call, in order |
| `ParserShapes.ParsedFusion` | src/main/java/expression/cheney/test/Main.java:94 | `print(toJson(a)+toJson(2))`'s shape parses to FUNC with one OPERATOR_FUNC argument |
| `Executor.Get` | src/main/java/expression/cheney/ExpressionExecutor.java:39 | `env.get`: the stored value, or null for an absent key |
| `Executor.LoadArg` | src/main/java/expression/cheney/ExpressionExecutor.java:32-40 | a CONSTANT gives its value unchanged, a FUNC the hook's value on its name and arguments with the same env, any other kind `env.get` of its string; the casts fail exactly on a value of the wrong class |
| `Executor.LoadAll` | src/main/java/expression/cheney/ExpressionExecutor.java:32-41 | one value per argument, or the first argument's exception |
| `Executor.LoadArgs` | src/main/java/expression/cheney/ExpressionExecutor.java:31-42 | null exactly for a null or empty list, otherwise the loaded values or the exception |
| `Executor.LoadAllElements` | src/main/java/expression/cheney/ExpressionExecutor.java:32-41 | succeeds exactly when every argument loads, with the k-th value that of the k-th argument; otherwise the exception of the first failing argument |
| `Executor.LoadAllAppend` | src/main/java/expression/cheney/ExpressionExecutor.java:32-41 | loading a concatenation loads the parts one after the other |
| `Executor.LoadAllConstants` | src/main/java/expression/cheney/ExpressionExecutor.java:33-34 | constants alone load to their own values, whatever the env and hook |
| `Executor.LoadAllFrame` | src/main/java/expression/cheney/ExpressionExecutor.java:31-42 | the result depends only on the keys the arguments name and on the hook's values for their calls |
| `Executor.LoadWellFormed` | src/main/java/expression/cheney/ExpressionExecutor.java:32-41 | on well-formed arguments of the parser's `Arg` type, loading fails exactly when an OPERATOR_FUNC argument is present |
| `Executor.LoadArgsExample` | src/main/java/expression/cheney/ExpressionExecutor.java:31-42 | `[a, 'x', f(b)]` with `a` bound loads to `a`'s value, `x`, and the hook's value on `f(b)` |
| `MethodHolder.Lookup` | src/main/java/reflect/methodHolder/BaseMethodHolder.java:86-88 | present exactly for a cached name, and then the method stored there, which carries that name |
| `MethodHolder.Cached` | src/main/java/reflect/methodHolder/BaseMethodHolder.java:95-99 | null changes nothing; otherwise the method is found under its name and every other name finds what it found before |
| `MethodHolder.CachedReplaces` | src/main/java/reflect/methodHolder/BaseMethodHolder.java:98 | a later method with the same name replaces the earlier one |
| `MethodHolder.CachedCommutes` | src/main/java/reflect/methodHolder/BaseMethodHolder.java:98 | caching methods of different names in either order gives the same table |
| `MethodHolder.Repacked` | src/main/java/reflect/methodHolder/BaseMethodHolder.java:60-73 | `parameterCount` entries: the first `parameterCount - 1` arguments unchanged, then an array of `args.length - parameterCount + 1` holding the rest |
| `MethodHolder.Unpacked` | src/main/java/reflect/methodHolder/BaseMethodHolder.java:66-71 | spreading the last array back out keeps the leading values in place and puts the array's items after them, in order |
| `MethodHolder.UnpackedRepacked` | src/main/java/reflect/methodHolder/BaseMethodHolder.java:60-73 | repacking loses nothing and reorders nothing |
| `MethodHolder.RepackedUnique` | src/main/java/reflect/methodHolder/BaseMethodHolder.java:60-73 | different argument lists never repack to the same array |
| `MethodHolder.Arity` | src/main/java/reflect/methodHolder/BaseMethodHolder.java:35-45 | arguments pass unchanged when null or no more than the parameters; with more, no parameters is an index error, a non-array last parameter is "error args num", otherwise the trailing arguments are packed |
| `MethodHolder.BaseMethodHolder.constructor` | src/main/java/reflect/methodHolder/BaseMethodHolder.java:25-28 | stores the class and starts with an empty table |
| `MethodHolder.BaseMethodHolder.HasMethod` | src/main/java/reflect/methodHolder/BaseMethodHolder.java:76-78 | true exactly when `getMethod` finds a method |
| `MethodHolder.BaseMethodHolder.GetMethod` | src/main/java/reflect/methodHolder/BaseMethodHolder.java:86-88 | the table lookup; a found method carries the name asked for |
| `MethodHolder.BaseMethodHolder.CacheMethod` | src/main/java/reflect/methodHolder/BaseMethodHolder.java:95-99 | null changes nothing; afterwards the method is found under its name, every other name is unchanged, and methods stay keyed by their own names |
| `MethodHolder.BaseMethodHolder.CastToObjectArray` | src/main/java/reflect/methodHolder/BaseMethodHolder.java:60-73 | the copy and fill loop builds a new array equal to `Repacked` of the arguments |
| `MethodHolder.BaseMethodHolder.Invoke` | src/main/java/reflect/methodHolder/BaseMethodHolder.java:31-50 | an unknown name throws NoSuchMethodException unwrapped; otherwise the arity decision's error, or the call's own failure, is wrapped with the class and method name, and success returns the call's value |

## Left out

- Null strings: `parse(null)` and null elements are not modelled. Dafny strings cannot be null, so only the empty string reaches the EmptyExpression error. Null is modelled, as `None`, only in the executor's state and in the name handed to the hook.
- The values of `CharConstants` are not part of this model. The constants are assumed:
  - `END_CHAR` holds exactly `,`, `'` and `)`;
  - the operators are `! & | > < = - + * /`;
  - LE is `<`, GE is `>` and EQUAL is `=`.
- `OPERATOR_PATTERN` and `OPERATOR_START_PATTERN` are predicates, not regular expressions:
  - a non-empty run of operator characters;
  - an operator, then operators or spaces, then a non-empty name of letters, digits and `_`.
- `JavaStrings.Trim`: its own contract gives only the shape of the result; that only characters at or below U+0020 are dropped, and only from the two ends, is stated by the lemma `JavaStrings.TrimExact`, so that the many proofs that unfold `Trim` do not carry its quantifiers.
- Java runtime exceptions other than the index error of `parse` on `f(` are not modelled. A ClassCastException is modelled only for the two casts in `loadArgs`.
- `Executor.LoadArg`: the `ExpressionParser.Arg` and `ExpressionParser.ParseResult` types that `loadArgs` reads, with their `isConstant`, `isFunc`, `getFuncName` and `getArgs`, are not part of this model. They are taken to be the parser's `Arg` and `ParseResult`, with `isConstant` true exactly for type CONSTANT and `isFunc` true exactly for type FUNC. That `parseExpression` hands the parser's list to the executor unchanged is not modelled either.
- `Executor.LoadArg`: the `executeFunc` hook is a total function of name, arguments and environment. An exception thrown by the hook, and side effects of the hook, are not modelled.
- `ExpressionExecutor.execute` is abstract in the source and has no body to model.
- `Method.invoke` is a function parameter. Its own behaviour and exceptions are reduced to a result or a reason string.
- `Array.newInstance` and `Array.set` are not modelled beyond their effect: a typed array of the component type. A component-type mismatch, which would throw IllegalArgumentException, is not modelled.
- `MethodHolder.BaseMethodHolder.CastToObjectArray` requires `1 <= parameterCount <= |args| + 1`. Its only caller, `invoke`, calls it only with `0 < parameterCount < args.length`. Other counts would throw in Java and are not modelled.
- The thread safety of `ConcurrentHashMap`, and its refusal of null keys, are not modelled.
- `getHoldClass` is not modelled. `holdClass` is only its simple name.
- Lombok-generated accessors are not modelled.
- `StatusMethodHolder`, `InternalFunction`, the POI workbook code, the HashMap timing harness and the test driver are not part of this model. The test driver's expressions appear only as shapes the lemmas of `ParserShapes` parse.
- The in-place mutation of `partLast` (`setValue`, `setType`, `addAll`) and its aliasing with the last list element are modelled as replacing the last element of an immutable sequence. The list `result` is a value that `parseArg` reassigns.
