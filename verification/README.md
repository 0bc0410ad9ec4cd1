# Stage0 of SultanC: a verified model

Stage0 is a small compiler written in C. It lexes and parses a module, follows its imports, checks every body
with a flow-sensitive analysis, and lowers checked bodies to a control-flow graph through the LLVM builder. This
project models the parts of it that carry state or that other parts rely on silently, and proves what they are for.

**Lowering** (`Syntax`, `Source`, `Machine`, `Elaboration`, `Lowering`, `Compilation`, `Emitter`, and the simulation
modules). Bodies are trees of statements over integers of 8 to 64 bits, booleans, text handles, records and
enumerations. `Source` gives them a big-step meaning, bounded by a number of loop iterations. `Machine` is a
control-flow-graph machine with registers, stack cells, `br`, `condbr`, `ret`, `unreachable` and trap; instruction
meanings follow the LLVM Language Reference, and whatever it leaves undefined stops the machine in the state
`Undefined`. The emitter looks types up in its own table of typed locals, coerces integers and refuses what it
cannot type; `Elaboration` is that part of it, and rewrites a body so that its annotations are the emitter's types.
`Lowering` builds the graph of an elaborated body, `Compilation` is the two together, and `Emitter` is the compiler's
own interleaving of them: a class whose methods append blocks, move the insertion point and grow the table of typed
locals, each proved to build what `Lowering` builds for what `Elaboration` yields and to fail where either does.
`Elaboration` and `Lowering` take a flag: with it, every nested block drops its locals when it ends; without it, only
match arms do, as in the compiler. `Hygiene` proves that both emissions coincide exactly when no name left over from
a nested block is used (`StaleFree`), `Leftovers` what leftover names do to types, and `Compiled` draws the
consequences, including a body that the compiler miscompiles.

**Checking** (`Checker`, `BodyChecker`, `CheckerFlow`, `CheckerSound`, `Suitability`, `Acceptance`, `EndToEnd`).
`BodyChecker` is the body context of the compiler, with capture, restore and merge of per-local facts and the
coverage arrays of a match; `Checker` is what it computes. The checker's verdict on falling through is proved to be
the emitter's, and accepted matches are proved exhaustive. Acceptance does not imply that a function compiles: the
checker lets an integer be a condition or a logical operand and types each literal by itself, and it forgets a nested
block's names. `Suitability` states what the emitter needs beyond acceptance, `Acceptance` proves which accepted
functions compile and exhibits accepted ones that do not, and `EndToEnd` proves that compiled calls of accepted
functions never reach undefined behaviour. The checker visits a loop body once, so initialization holds only for
loops whose body also checks from the facts its first run leaves (`LoopsKeep`, always true without loops); a loop
that is accepted and goes wrong is exhibited.

**Arithmetic** (`Integers`, `MachineIntegers`, `VectorAppend`). Bit patterns are numbers below a power of two, with
wrap-around written out. **Front end** (`Utf8`, `IdentifierIdentity`, `IntegerLiterals`, `LexicalForms`,
`LexerCursor`, `TokenStreams`, `StringLiterals`, `ExpressionGrammar`, `ExpressionParser`, `ExpressionParsing`,
`ExpressionPrinting`, `ParserCursor`, `ModuleAliases`). **Program level** (`Imports`, `ProgramLoader`,
`Reachability`, `TypeSubstitution`, `GenericInstances`).

Where the source changes state in place, the model is a class or a method with a loop, proved against a function,
and the properties are lemmas about that function.

## Model

| member | source | states |
|---|---|---|
| MachineIntegers.CheckedArithmeticExact | bootstrap/src/llvm/llvm_expressions.c:109-167 | add, subtract and multiply at every width and signedness trap exactly when the mathematical result does not fit, and otherwise the truncated double-width result denotes it |
| MachineIntegers.DivisionExact | bootstrap/src/llvm/llvm_expressions.c:247-296 | the two guards trap exactly on zero and on the signed minimum by minus one; otherwise the instruction yields the truncating quotient or remainder |
| MachineIntegers.ShiftExact | bootstrap/src/llvm/llvm_expressions.c:214-244 | a shift traps exactly when the count read as unsigned is at least the width, and otherwise computes the source shift |
| MachineIntegers.CompareExact | bootstrap/src/llvm/llvm_expressions.c:178-211 | the predicate chosen for a type compares the numbers that the patterns denote |
| MachineIntegers.BitNotExact | bootstrap/src/llvm/llvm_expressions.c:1049-1196 | bitwise complement on patterns is the source complement |
| MachineIntegers.ConversionExact | bootstrap/src/llvm/llvm_values.c:369-446 | the cast between two integer types yields the pattern of the same number reduced into the target |
| Integers.MeaningOfEncode | bootstrap/src/llvm/llvm_expressions.c:109-167 | encoding a number that fits and reading the pattern back is the identity |
| Integers.EncodeOfMeaning | bootstrap/src/llvm/llvm_expressions.c:109-167 | reading a pattern and encoding it back is the identity |
| StatementFrame.EmittedFunctionWellFormed | bootstrap/src/llvm/llvm_functions.c:295-391 | every emitted function is a well-formed graph: each block has exactly one terminator, all targets are its own blocks, stack cells only in the allocation block |
| StatementFrame.FlowReports | bootstrap/src/llvm/llvm_statements.c:209-258 | after every statement the path is reported terminated exactly when the insertion block has a terminator, so the inconsistency failures cannot occur |
| StatementFrame.EmitStatementFrame | bootstrap/src/llvm/llvm_statements.c:56-329 | emission of a statement only extends the blocks it opened and the block it started in, and leaves at most its exit block open |
| ExprSimulation.ExprGoes | bootstrap/src/llvm/llvm_expressions.c:369-512 | an emitted expression, short-circuit operators included, runs to its exit with the source value, or traps exactly when the source does |
| PatternSimulation.ConditionGoes | bootstrap/src/llvm/llvm_patterns.c:155-321 | an emitted pattern test yields whether the value matches, and reads a payload only under its own constructor's tag |
| PatternSimulation.BindGoes | bootstrap/src/llvm/llvm_patterns.c:16-152 | binding code leaves every bound name holding the part of the value the pattern denotes |
| StatementSimulation.DispatchGoes | bootstrap/src/llvm/llvm_patterns.c:453-567 | dispatch enters exactly the arm of the first case whose pattern matches, and the unreachable block only when none does |
| StatementSimulation.StatementGoes | bootstrap/src/llvm/llvm_statements.c:56-329 | running the code of a statement gives the store and the outcome of the source statement |
| FunctionSimulation.CallPreserved | bootstrap/src/llvm/llvm_functions.c:295-391 | for every call and every bound on loop iterations the machine ends as the source body does, or is still running when it is |
| FunctionSimulation.DivergencePreserved | bootstrap/src/llvm/llvm_statements.c:264-329 | a body that never ends is a machine run that never stops |
| FunctionSimulation.CallReflected | bootstrap/src/llvm/llvm_functions.c:295-391 | however the machine stops, the source body ends that way |
| Hygiene.EmissionsEqualIff | bootstrap/src/llvm/llvm_values.c:262-277 | emission that drops nested locals and emission that keeps them produce the same function if and only if no leftover name is used |
| Suitability.ExprElaborates | bootstrap/src/llvm/llvm_expressions.c:369-512 | an accepted expression keeps its annotations under the emitter's typing where its logical operands are boolean and its literals stand beside a typed operand or an expected type, and is refused everywhere else |
| Suitability.AcceptedElaborates | bootstrap/src/llvm/llvm_types.c:369-573 | with scoped names the emitter types an accepted function exactly as the checker did if every expression suits its place, and refuses it otherwise |
| Leftovers.ElaborationsMatched | bootstrap/src/llvm/llvm_values.c:262-277 | where every leftover used has a compatible type, the compiler's table and the scoped one give types to the same functions; where the types are equal, the same types |
| Leftovers.StaleFreeCompatible | bootstrap/src/llvm/llvm_values.c:262-277 | a body that uses no leftover name sees equal types in both tables at every use |
| Compilation.StatementEmits | bootstrap/src/llvm/llvm_statements.c:56-329 | a statement that has types is emitted without failure, reports its path rightly, and leaves exactly the predicted names in the table |
| Compilation.CompilesIff | bootstrap/src/llvm/llvm_functions.c:295-391 | for every function, accepted or not, compilation succeeds if and only if the emitter finds its types and no path of a function with a result ends without one |
| Compiled.CompiledCallPreserved | bootstrap/src/llvm/llvm_statements.c:20-329 | a compiled call ends as the typed body does, for every body that uses no leftover name |
| Compiled.CompiledCallReflected | bootstrap/src/llvm/llvm_statements.c:20-329 | and every way the compiled call stops is a way the typed body ends |
| Compiled.ShadowingMiscompiled | bootstrap/src/llvm/llvm_values.c:262-277 | a concrete body with a leftover name: the source returns its argument, the compiled function always returns the inner constant |
| Termination.EmissionEnds | bootstrap/src/llvm/llvm_statements.c:56-329 | an emitted statement is reported terminated exactly when every path through it returns |
| Termination.EndedNeverFalls | bootstrap/src/llvm/llvm_statements.c:56-329 | such a statement never falls through on any run |
| Source.FuelMonotone | bootstrap/src/llvm/llvm_statements.c:264-329 | a source run that ends within some number of loop iterations ends the same way with more |
| Patterns.AnalysisSound | bootstrap/src/llvm/llvm_patterns.c:155-321 | a pattern that passes the analysis binds values of the types it reports, an irrefutable one matches every value, and one with a tag only values with that tag |
| Emitter.FunctionEmitter.FindLocal | bootstrap/src/llvm/llvm_values.c:262-277 | the search returns the most recent local with the name |
| Emitter.FunctionEmitter.EmitTrapIf | bootstrap/src/llvm/llvm_expressions.c:19-70 | splits the insertion block on the condition into a trap block and a continuation |
| Emitter.FunctionEmitter.EmitCheckedArithmetic | bootstrap/src/llvm/llvm_expressions.c:109-167 | the instructions it builds are those whose effect is proved exact |
| Emitter.FunctionEmitter.EmitShift | bootstrap/src/llvm/llvm_expressions.c:214-244 | the guarded shift whose effect is proved exact |
| Emitter.FunctionEmitter.EmitDivisionOrRemainder | bootstrap/src/llvm/llvm_expressions.c:247-296 | the doubly guarded division whose effect is proved exact |
| Emitter.FunctionEmitter.Coerce | bootstrap/src/llvm/llvm_values.c:369-446 | a value of the target type passes, an integer is converted to an integer type, anything else is refused |
| Emitter.FunctionEmitter.EmitExpression | bootstrap/src/llvm/llvm_expressions.c:369-512 | refuses exactly the expressions without a type under the expected one, and otherwise leaves the builder state the simulation is about and the value's type |
| Emitter.FunctionEmitter.EmitLogical | bootstrap/src/llvm/llvm_expressions.c:453-512 | refuses an operand that does not come out boolean, and otherwise builds the short-circuit blocks the simulation is about |
| Emitter.FunctionEmitter.EmitPatternCondition | bootstrap/src/llvm/llvm_patterns.c:155-321 | the builder state after a pattern test is the one the simulation is about |
| Emitter.FunctionEmitter.BindPatternValue | bootstrap/src/llvm/llvm_patterns.c:16-152 | the builder state after binding is the one the simulation is about, and the table gains each bound name with the type of the part it denotes |
| Emitter.FunctionEmitter.EmitSelection | bootstrap/src/llvm/llvm_patterns.c:453-567 | the loop over the recorded case arrays builds the dispatch chain of the simulation |
| Emitter.FunctionEmitter.EmitMatch | bootstrap/src/llvm/llvm_patterns.c:341-637 | a match is typed by its scrutinee's own type or refused; it leaves the builder in the state the simulation is about, local count restored after every arm |
| Emitter.FunctionEmitter.EmitStatementList | bootstrap/src/llvm/llvm_statements.c:20-54 | statements are lowered until one terminates the path or is refused, termination is reported exactly, and the table has grown by the names the block leaves |
| Emitter.FunctionEmitter.EmitIf | bootstrap/src/llvm/llvm_statements.c:172-258 | the refusal of a condition that is not boolean, both branches, the joining block, and its absence when neither branch reaches it |
| Emitter.FunctionEmitter.EmitWhile | bootstrap/src/llvm/llvm_statements.c:264-329 | the refusal of a condition that is not boolean, and head, body and exit blocks with the back edge |
| Emitter.FunctionEmitter.EmitFunctionBody | bootstrap/src/llvm/llvm_functions.c:295-391 | succeeds exactly when compilation as specified does, with the same blocks, and they are well formed |
| CheckerFlow.StatementFalls | bootstrap/src/semantic/body_statement.c:6-361 | the checker's fall-through verdict says whether every path returns |
| CheckerFlow.NonFallingReturns | bootstrap/src/semantic/body_program.c:90-97 | a body accepted as not falling through never falls through on any run |
| CheckerFlow.VerdictIsTermination | bootstrap/src/semantic/body_statement.c:110-361 | for every accepted statement the checker's verdict is the negation of the emitter's termination report |
| CheckerFlow.AcceptedMatchExhaustive | bootstrap/src/semantic/body_match.c:289-365 | every value of the matched type is matched by some case of an accepted match |
| CheckerFlow.UnreachableReportsTrue | bootstrap/src/semantic/body_match.c:96-198 | a case reported unreachable matches only values that earlier cases match |
| Acceptance.AcceptedCompilesIff | bootstrap/src/semantic/body_program.c:90-97 | an accepted function is refused by the emitter for its types only |
| Acceptance.CompatibleCompilesIff | bootstrap/src/semantic/body_context.c:300-313 | unless it uses a leftover of an incompatible type, an accepted function compiles if and only if its conditions and logical operands are boolean and its literals find their types |
| Acceptance.StaleFreeCompiles | bootstrap/src/llvm/llvm_statements.c:56-329 | without leftover names used, what the compiler emits for an accepted function is the body as the checker typed it, or nothing if it does not suit |
| Acceptance.CompilationsEqualIff | bootstrap/src/llvm/llvm_values.c:262-277 | an accepted function that suits is typed and emitted as scoped names would have it if and only if it uses no leftover name |
| Acceptance.NumberBranchRefused | bootstrap/src/llvm/llvm_statements.c:172-202 | a branch on an integer is accepted by the checker and refused by the emitter |
| Acceptance.LiteralBranchRefused | bootstrap/src/llvm/llvm_expressions.c:685-705 | so is a comparison of two literals |
| Acceptance.HiddenConditionRefused | bootstrap/src/llvm/llvm_values.c:262-277 | so is a boolean condition whose name is hidden by a leftover integer |
| Acceptance.HiddenCopyCompiles | bootstrap/src/llvm/llvm_values.c:262-277 | using leftovers of incompatible types does not always refuse a function: two that agree with each other pass |
| Acceptance.HiddenNumberCompiles | bootstrap/src/llvm/llvm_values.c:262-277 | and a leftover truth value lets a function compile in which a number stands for a truth value |
| CheckerSound.StatementSound | bootstrap/src/semantic/body_flow.c:8-235 | on every run of an accepted statement, values that are read have been assigned and not moved, the facts describe the store afterwards, and a number is used as a truth value only where the statement does not suit |
| CheckerSound.ReadSound | bootstrap/src/semantic/body_lvalue_infer_lvalue.c:9-93 | a read the checker allows finds a value of its type |
| CheckerSound.LoopFreeKeeps | bootstrap/src/semantic/body_statement.c:104-150 | bodies without loops meet the loop condition of the soundness theorem |
| EndToEnd.CallSound | bootstrap/src/semantic/body_program.c:11-97 | a call of a sound function never gets stuck, returns what it declares, and needs a number as a truth value only if the function does not suit |
| EndToEnd.LoopFreeIsSound | bootstrap/src/semantic/body_program.c:11-97 | whatever the checker accepts without loops is sound |
| EndToEnd.AcceptedCallsAreSafe | bootstrap/src/llvm/llvm_functions.c:295-391 | a sound function without leftover names used compiles if and only if it suits, and a compiled call runs on, traps, or returns a value of the declared type; it never reaches undefined behaviour |
| EndToEnd.MovingLoopAccepted | bootstrap/src/semantic/body_statement.c:104-150 | a loop that the checker accepts and whose second iteration reads a moved value |
| BodyChecker.BodyContext.FindLocal | bootstrap/src/semantic/body_context.c:70-93 | the most recent local of the name |
| BodyChecker.BodyContext.Capture | bootstrap/src/semantic/body_flow.c:8-49 | a fresh copy of every local's fact |
| BodyChecker.BodyContext.Restore | bootstrap/src/semantic/body_flow.c:51-80 | facts go back to the snapshot and locals added since are dropped |
| BodyChecker.BodyContext.Merge | bootstrap/src/semantic/body_flow.c:83-127 | each fact becomes the merge of its two snapshots |
| BodyChecker.BodyContext.TransferExpression | bootstrap/src/semantic/body_flow.c:146-235 | moves a place out exactly when its type is not copied, and refuses what may not move |
| BodyChecker.BodyContext.DeclareLocal | bootstrap/src/semantic/body_initializer_declare_local.c:8-54 | refuses a name of the same scope, otherwise adds an uninitialized local |
| BodyChecker.BodyContext.CheckCondition | bootstrap/src/semantic/body_statement.c:121-128 | a condition is accepted exactly if its type is boolean or an integer type |
| BodyChecker.BodyContext.CheckIf | bootstrap/src/semantic/body_statement.c:153-255 | the verdict on a conditional, with facts restored before the second branch and merged after |
| BodyChecker.BodyContext.CheckWhile | bootstrap/src/semantic/body_statement.c:104-150 | the verdict on a loop whose body is checked once |
| BodyChecker.BodyContext.CheckBlockFlow | bootstrap/src/semantic/body_statement.c:316-361 | the verdict on a block, scope depth and locals restored |
| BodyChecker.BodyContext.RecordCoverage | bootstrap/src/semantic/body_match.c:96-198 | a case is refused exactly when nothing is left for it, and the coverage array becomes the union |
| BodyChecker.BodyContext.CheckMatch | bootstrap/src/semantic/body_match.c:12-386 | the verdict on all cases, coverage and merged facts included |
| BodyChecker.BodyContext.CheckFunctionBody | bootstrap/src/semantic/body_program.c:11-97 | accepts exactly the functions the soundness theorems are about, else reports their first error |
| ExpressionParsing.DerivablesParse | bootstrap/src/frontend/parser/parser_expression_precedence.c:8-57 | the tokens of every derivation of the ten-level grammar parse to its meaning and stop at its end |
| ExpressionParsing.MinDerives | bootstrap/src/frontend/parser/parser_expression_primary.c:12-200 | whatever parses has a derivation that spells exactly the tokens consumed |
| ExpressionParsing.ParserIsGrammar | bootstrap/src/frontend/parser/parser_expression_precedence.c:8-57 | a complete token string parses to an expression if and only if the left-associative ten-level grammar derives it |
| ExpressionParsing.Unambiguous | bootstrap/src/frontend/parser/parser_expression_operator.c:6-87 | two derivations of one token string mean the same expression |
| ExpressionPrinting.ParseInvertsPrint | bootstrap/src/frontend/parser/parser_expression_unary.c:9-116 | parsing the printed tokens of a canonical expression returns that expression and stops at their end |
| ExpressionPrinting.PrintsFewest | bootstrap/src/frontend/parser/parser_expression_precedence.c:8-57 | no derivation of an expression has fewer parentheses than its printed form |
| ExpressionPrinting.CanonicalIsParsed | bootstrap/src/frontend/parser/parser_expression_primary.c:16-93 | the canonical trees are exactly the trees parsing can return |
| ExpressionPrinting.LvalueInvertsPrint | bootstrap/src/frontend/parser/parser_lvalue.c:9-149 | assignable places, dereferences included, parse back from their tokens |
| ParserCursor.Parser.Advance | bootstrap/src/frontend/parser/parser_core_init.c:12-75 | the three-token window moves one token on |
| ParserCursor.Parser.ParseExpressionMin | bootstrap/src/frontend/parser/parser_expression_precedence.c:8-57 | the climbing loop consumes and returns what the specified parser does |
| ParserCursor.Parser.ParseUnaryExpression | bootstrap/src/frontend/parser/parser_expression_unary.c:46-116 | prefix operators and conversions as specified |
| ParserCursor.Parser.ParsePrimaryExpression | bootstrap/src/frontend/parser/parser_expression_primary.c:12-200 | parentheses, the rewrite of a parenthesised dereference, calls and atoms as specified |
| ParserCursor.Parser.ParseAssignablePlace | bootstrap/src/frontend/parser/parser_lvalue.c:9-149 | assignable places as specified |
| Imports.RankedIsAcyclic | bootstrap/src/core/program_load_file.c:59-268 | a closed set of files whose imports lead to lower ranks has no reachable cycle |
| Imports.EdgesAreImports | bootstrap/src/core/program_load_file.c:35-56 | the recorded edges are the declared imports, each once |
| ProgramLoader.LoadingImportIsCycle | bootstrap/src/core/program_load_file.c:59-268 | importing a unit that is still loading closes a cycle from the root |
| ProgramLoader.FinishedIsLoaded | bootstrap/src/core/program_load_file.c:59-268 | a finished table holds exactly the reachable files, each once, root first, index equal to position, no flag set, edges exact and acyclic |
| ProgramLoader.Program.FindPathIndex | bootstrap/src/core/program_load_file.c:14-33 | the first unit with the path |
| ProgramLoader.Program.HasImportIndex | bootstrap/src/core/program_load_file.c:35-56 | whether the edge is recorded already |
| ProgramLoader.Program.LoadFile | bootstrap/src/core/program_load_file.c:59-268 | terminates on every finite file map, keeps the search invariant, and any failure is a reachable fault or a reachable cycle |
| ProgramLoader.Program.LoadRoot | bootstrap/src/core/program_load_file.c:59-268 | success yields exactly the reachable program; when every reachable file is faultless it fails, with the cycle error, exactly when a cycle is reachable |
| Reachability.Worklist.Queue | bootstrap/src/llvm/llvm_functions.c:244-256 | queues a function once; the table never overflows |
| Reachability.Worklist.EmitReachable | bootstrap/src/llvm/llvm_functions.c:259-292 | the bodies emitted are exactly the functions reachable from the entry, each once, entry first |
| VectorAppend.Storage.Append | bootstrap/src/llvm/llvm_builtins.c:485-627 | the emitted sequence traps exactly when length, capacity or byte count overflow, and otherwise appends |
| VectorAppend.AppendsRefine | bootstrap/src/llvm/llvm_builtins.c:485-627 | any run of appends without a trap is sequence append, within capacity, backing bytes below 2^64, with fewer than two moves per element |
| Utf8.DecodesExactly | bootstrap/src/support/text/utf8_decode.c:6-73 | a character is decoded exactly when the bytes begin with the encoding of a scalar, and it is that scalar |
| Utf8.DecodeScalar | bootstrap/src/support/text/utf8_decode.c:6-73 | the first-byte test, continuation loop and overlong and surrogate checks accept exactly the table of section 4 of RFC 3629 |
| Utf8.EncodeIsWellFormed | bootstrap/src/support/text/utf8_encode.c:18-47 | every encoding is a well-formed character of that table whose payload bits spell the scalar |
| Utf8.WellFormedIsEncoded | bootstrap/src/support/text/utf8_encode.c:18-47 | every well-formed character is the encoding of the scalar it spells |
| Utf8.DecodeAllInvertsEncodeAll | bootstrap/src/support/text/utf8_decode.c:6-73 | a text of scalars is recovered from its bytes |
| IdentifierIdentity.NextSemanticScalar | bootstrap/src/frontend/identifier_identity.c:26-48 | the next scalar that counts, ignored ones skipped, or the invalid byte met first |
| IdentifierIdentity.Equals | bootstrap/src/frontend/identifier_identity.c:72-113 | the streaming comparison decides whether two spellings have one identity |
| IdentifierIdentity.IdentityIgnoresForm | bootstrap/src/frontend/identifier_identity.c:10-23 | two spellings have one identity exactly when they agree after dropping tatweels and folding the alef forms |
| IdentifierIdentity.SemanticIdempotent | bootstrap/src/frontend/identifier_identity.c:10-23 | identities are their own identities |
| IntegerLiterals.SeparatorsValid | bootstrap/src/frontend/lexer/lexer_number.c:25-55 | accepted exactly when every separator stands between two digits of the active base |
| IntegerLiterals.ParseIntegerValue | bootstrap/src/frontend/lexer/lexer_number.c:64-131 | the buffer and accumulator loops accept exactly the spellings of at most 255 bytes that denote at most 2^64-1, and store that number |
| IntegerLiterals.Accumulate | bootstrap/src/frontend/lexer/lexer_number.c:107-127 | the guarded accumulation equals the positional value, or fails on a bad digit or overflow |
| IntegerLiterals.ReadInvertsPrint | bootstrap/src/frontend/lexer/lexer_number.c:64-131 | printing any 64-bit number in base 2, 10 or 16 and reading it back is the identity |
| TokenStreams.ScanInvertsPrint | bootstrap/src/frontend/lexer/lexer_number.c:149-267 | a printed 64-bit number in front of anything that cannot continue it scans back as its token |
| IntegerLiterals.SeparatorsAreInvisible | bootstrap/src/frontend/lexer/lexer_number.c:84-91 | separators never change the number denoted |
| IntegerLiterals.NegativeAtomExact | bootstrap/src/frontend/parser/parser_atom.c:24-58 | a minus atom is accepted exactly for magnitudes up to 2^63 and denotes the negated number |
| LexicalForms.MaximalMunch | bootstrap/src/frontend/lexer/lexer_operator.c:34-58 | the first operator of the table that matches is a longest one |
| TokenStreams.TokenizationLossless | bootstrap/src/frontend/lexer/lexer_next.c:31-241 | trivia and lexemes of an accepted source, in order, are the source: every gap, before the first token and between any two, is trivia |
| TokenStreams.SkippedIsTrivia | bootstrap/src/frontend/lexer/lexer_next.c:45-76 | only white space and whole comments are skipped |
| TokenStreams.TokensPlaced | bootstrap/src/frontend/lexer/lexer_next.c:31-241 | tokens are in order, all but the last non-empty, and the end of file comes within one call more than there are bytes |
| TokenStreams.TokensResume | bootstrap/src/frontend/lexer/lexer_next.c:31-241 | tokenizing from a token boundary yields the remaining tokens |
| StringLiterals.GuillemetExact | bootstrap/src/frontend/lexer/lexer_string.c:98-164 | a guillemet literal is accepted exactly for balanced UTF-8 text nested at most 255 deep, and denotes that text |
| StringLiterals.QuotedExact | bootstrap/src/frontend/lexer/lexer_string.c:167-205 | a quoted literal is accepted exactly when its body is a sequence of spelled characters, and denotes their UTF-8 |
| StringLiterals.QuotedRoundTrip | bootstrap/src/frontend/lexer/lexer_escape.c:46-108 | any scalar sequence printed as a quoted literal reads back as its UTF-8 |
| LexerCursor.Lexer.AdvanceBytes | bootstrap/src/frontend/lexer/lexer_cursor_advance_bytes.c:7-27 | the cursor stops at the end of the source, and line and column stay the newline and character-start counts of the prefix, modulo 2^32 |
| LexerCursor.Lexer.ScanExponent | bootstrap/src/frontend/lexer/lexer_number.c:196-225 | an exponent without digits is rolled back with its line and column |
| LexerCursor.Lexer.ScanNumber | bootstrap/src/frontend/lexer/lexer_number.c:149-267 | the number token, its extent and its value |
| LexerCursor.Lexer.ParseHexEscape | bootstrap/src/frontend/lexer/lexer_escape.c:8-33 | the 32-bit shifts compute the hexadecimal number without wrapping |
| LexerCursor.Lexer.ScanEscape | bootstrap/src/frontend/lexer/lexer_escape.c:46-108 | the escape appends the UTF-8 of the character it stands for |
| LexerCursor.Lexer.ScanGuillemetString | bootstrap/src/frontend/lexer/lexer_string.c:98-164 | the depth-counting loop returns what the exactness theorem is about |
| LexerCursor.Lexer.ScanQuotedString | bootstrap/src/frontend/lexer/lexer_string.c:167-205 | the escape loop returns what the exactness theorem is about |
| LexerCursor.Lexer.ScanCharacter | bootstrap/src/frontend/lexer/lexer_string.c:208-328 | character literals, raw and escaped |
| LexerCursor.Lexer.Next | bootstrap/src/frontend/lexer/lexer_next.c:31-241 | the token the whole-source theorems are about, with the positions of its two ends; after a failure nothing moves |
| ModuleAliases.PublicBindingsResolve | bootstrap/src/frontend/parser/parser_module_alias.c:82-116 | in every item list parsing can build, each public root name reaches a public declaration within the step bound |
| ModuleAliases.QualifiedAliasesReach | bootstrap/src/frontend/parser/parser_module_alias.c:153-225 | each accepted qualified alias reaches a constructor of its parent within the step bound |
| ModuleAliases.MeaningsNeverChange | bootstrap/src/frontend/parser/parser_module_alias.c:228-396 | items accepted later never change what a resolved name or child name means |
| ModuleAliases.OnlyPrivateAliasesUnresolved | bootstrap/src/frontend/parser/parser_module_alias.c:256-289 | a bound name that does not resolve is a private alias of a built-in |
| ModuleAliases.PrivateAliasesMayCycle | bootstrap/src/frontend/parser/parser_module_alias.c:82-116 | two private aliases may name each other; the step bound ends their resolution |
| ModuleAliases.PrivateAliasMayChange | bootstrap/src/frontend/parser/parser_module_alias.c:256-289 | a private alias is the bound name whose resolution a later item may change |
| ModuleAliases.ItemList.FindBinding | bootstrap/src/frontend/parser/parser_module_name.c:7-26 | the first item that binds the name |
| ModuleAliases.ItemList.ResolveRootBinding | bootstrap/src/frontend/parser/parser_module_alias.c:82-116 | the bounded loop follows root aliases to the declaration they reach |
| ModuleAliases.ItemList.ResolveEnumChild | bootstrap/src/frontend/parser/parser_module_alias.c:153-225 | the bounded loop follows child aliases to the constructor they reach |
| ModuleAliases.ItemList.PushItem | bootstrap/src/frontend/parser/parser_module_item.c:7-25 | an item is appended exactly when its name is free |
| ModuleAliases.ItemList.PushDeclaration | bootstrap/src/frontend/parser/parser_module_type.c:40-60 | a declaration is appended exactly when its name is free, and the list stays one that parsing can build |
| ModuleAliases.ItemList.ParseAliasItem | bootstrap/src/frontend/parser/parser_module_alias.c:228-396 | the first failing check, in order, or the appended alias; the list stays one that parsing can build |
| TypeSubstitution.SubstituteIsSimultaneous | bootstrap/src/semantic/generic.c:92-228 | instantiating is simultaneous substitution: template nodes belong to the template's unit, arguments appear verbatim with their own |
| TypeSubstitution.SubstitutionComposes | bootstrap/src/semantic/generic.c:92-228 | substituting twice is substituting once with the second applied to the arguments |
| TypeSubstitution.CopyOfOwned | bootstrap/src/semantic/generic.c:104-141 | copying a type whose owners are recorded gives back that type |
| TypeSubstitution.CopyIsOwned | bootstrap/src/semantic/generic.c:71-90 | every copy has an owner recorded at each named node |
| GenericInstances.HistoryCanonical | bootstrap/src/semantic/generic.c:727-802 | under any equivalence of types, after any history of stable requests no two entries share a template with equal arguments, indices follow positions, and every request made is answered |
| GenericInstances.OwnedIsStable | bootstrap/src/semantic/generic.c:104-126 | requests whose arguments all have recorded owners are stable, whatever types of one name in two units the equivalence tells apart |
| GenericInstances.RepeatSharesIff | bootstrap/src/semantic/generic.c:767-776 | asking twice leaves one instance if and only if storing the arguments leaves them the types they were |
| GenericInstances.LocalRequestRepeats | bootstrap/src/semantic/generic.c:767-776 | with plain equality, two identical requests for a type without a recorded owner leave two entries with equal arguments |
| GenericInstances.SharedExactlyWhenSame | bootstrap/src/semantic/generic.c:727-802 | under any equivalence of types, two stable requests share an instance exactly when they name one template with equal arguments |
| GenericInstances.MadeIsSubstituted | bootstrap/src/semantic/generic.c:678-725 | an instance's type is the template's with the stored arguments substituted at once; the stored arguments are the requested ones exactly if all of those have recorded owners |
| GenericInstances.InstanceTable.FunctionInstance | bootstrap/src/semantic/generic.c:727-802 | the first entry that answers the request, or a new last one, under any relation of types; nothing for a wrong argument count |
| GenericInstances.InstanceTable.FunctionAt | bootstrap/src/semantic/generic.c:804-813 | the instance at a table position, whose index less the number of ordinary functions is that position |
| GenericInstances.InstanceTable.CheckInstances | bootstrap/src/semantic/body_program.c:104-135 | if the loop over the growing table reaches its end, every instance was checked and every instance any of them names with stable arguments is in the table; a table without duplicates stays so when all those requests are stable |

## Left out

- GenericInstances.InstanceTable.CheckInstances: takes a bound on the number of instances checked, because polymorphic recursion can grow the table without end; the source has no bound.
- CheckerSound.StatementSound: requires that loop bodies also check from the facts their first run leaves, because the checker examines a loop body once; `EndToEnd.MovingLoopAccepted` shows the requirement is needed. The converse is not claimed: a loop that breaks the condition may never run twice.
- Acceptance.CompatibleCompilesIff: does not say which functions compile when a leftover of an incompatible type is used; `Acceptance.AcceptedCompilesIff` says that it is those the emitter can type with the leftovers in its table, and `Acceptance.HiddenCopyCompiles` that not all of them are refused.
- GenericInstances.HistoryCanonical: requires stable requests; types written for locals in a body have no recorded owner, and `GenericInstances.LocalRequestRepeats` shows that requests with them may repeat.
- GenericInstances.MadeIsSubstituted: speaks of the signature; the cloned body, which rebuilds trees around substituted types, is not modelled.
- VectorAppend.Storage.Append: models the effect of the emitted instructions when they run, not their construction in the builder.
- Reachability.Worklist.EmitReachable: takes the functions each body uses as given, instead of obtaining them from emission.
- Compilation.CompilesIff: success means that emission succeeds. LLVM's own verification of the finished module is not modelled: a boolean hidden by a leftover integer and compared with a boolean literal counts as compiled, although the operands differ in width.
- GenericInstances.InstanceTable.FunctionInstance: compares types by one relation throughout; the source resolves a node without a recorded owner in the unit that is active at each call.
- BodyChecker.BodyContext.CheckCondition: characters and boxes, which the source also lets stand for truth values, are not types of the fragment.
- Compiled.CompiledCallPreserved: requires that no name left over from a nested block is used; `Compiled.ShadowingMiscompiled` shows the requirement is needed.
- TokenStreams.TokenizationLossless: speaks of sources the lexer accepts; what it reports for others is only the kind of error.
- Hygiene.EmissionsEqualIff: is about bodies whose emission succeeds; which those are is `Compilation.CompilesIff`.
- Tagged construction, calls, record, vector and box initializers, assignment to fields and indices: not in the lowered fragment; field and payload reads are.
- Borrows, their provenance, and known-length facts.
- Inferred local types: every declaration carries its type. In what the checker reads, operand types are annotations, and an implicit widening is an explicit conversion; a literal that is converted is annotated with the target type.
- Logical operands of character or box type, which the checker also accepts and the emitter refuses; equality of texts and of enumerations without payloads.
- Floats, text comparison and other text operations, raw kernel calls, inline assembly.
- Enumeration tags are unbounded numbers; the source stores 64 bits.
- Patterns carry resolved constructor and field indices. The scrutinee and binding copies of a match do not move ownership, as in the source.
- Copies into a destination of type void, globals, and the process entry.
- Type layout: a cell holds a value, a place is a cell and a path of fields. Target setup, object writing and linkage.
- Parser: contextual names are identifiers, the type after `as` is one opaque token, statements and declarations other than aliases are not parsed, spans are not kept.
- Lexer: the reserved words are a parameter; payload-kind checks against the token registry and the kernel of diagnostics are not modelled.
- Aliases: the two paths are given as read; names are their identities.
- Type owners: the table of owner facts, kept by node address and searched by bisection, is a field of each named node. 
- Import loading: path resolution, canonical paths and parsed files are given as finite maps.
- Allocation failure, arenas, diagnostics text, command line.
