# Suvarnam compiler: models and proofs

Suvarnam is a small compiler.  A front end builds a syntax tree and checks it; `HIRGenerator`
lowers the tree to a mid-level tree whose only loop is `while`; the code generator turns that
into basic blocks.  This project models the middle and back end and the self-contained
algorithms around them in Dafny 4.11, and proves that they do what they are for.
`dafny verify dfyconfig.toml` checks everything.

## How the models are built

**The compiler.**  `Syntax` holds values (64-bit signed integers, booleans, lists by
reference), stores and side-effect-free expressions; undefined C or target behaviour has no
result.  `Lexical`, `Hir` and `Cfg` give the three program forms their meaning: two
big-step interpreters in which each loop turn costs one unit of fuel, and a machine that runs
basic blocks step by step.  `HirGen` and `Codegen` say what one compiler call produces.
`Generator` and `Emitter` are the same passes as objects that change in place (statement
vectors, the loop number, blocks, the insert point, `loopStack`), each method proved to
produce what the function of its name says.  The proofs run over those functions:
`LexicalProof`, `RangeLowering`, `ListLowering` and `LoweringProof` for the lowering,
`CodegenExprProof`, `Simulation`, `CodegenProof` and `FunctionProof` for the generator,
`GraphShape` for the shape of the graph, and `Pipeline` for both passes together.  Source and
graph share operators, element accesses and stores; `SyntaxFacts` says what these mean without
their definitions.  `EveryForm` gives functions with every form of statement to which the
compiler theorem applies, and `EveryFormRun` what they compute, for all arguments.

The meaning of a source function in `Lexical` follows the checker's scopes: a function body is
one scope and every `for` opens another, new in each turn, for its iterator and the names
declared in its body; a name stands for the declaration that can be seen where it is used.  A
range loop runs its body over the values of a closed-form range, a list loop over the elements
its list has.  Nothing of a `for` is visible after it.  The compiled function has one slot for
each name and compiles list loops with a length taken from a type or a companion parameter.
`Lexical.Scoped`, which asks that no `for` shadows a live name and that lists keep the length
of their type, is where the two agree: `LexicalProof` goes from scopes to one variable for each
name (`Ast` says what a tree does then), the lowering proofs from there.

**What the code does that its own design does not promise.**  These are proved, not smoothed
over.  A name that is shadowed by an iterator, or declared again in a loop, shares the slot of
the outer one (`Shadowing.ShadowedNameIff`).  Two nested range loops without an iterator name
share one variable: the outer loop then makes at most one turn or never ends
(`Shadowing.AnonymousLoopsInterfere`, `Shadowing.InterferenceIff`).  `continue` in a lowered
`for`, over a range or a list, skips the step, so the loop stalls (`Limits.TurnAdvancesIff`,
`Limits.IndexAdvancesIff`, `Limits.ContinueDivergesIff`, `Limits.ListContinueDivergesIff`).  A
loop over a copy of a variadic group makes no turn, and one over a group that was assigned
another runs with the old length (`Limits.CopiedGroupIff`, `Limits.StaleGroupIff`).  A range loop
leaves after its last value exactly if the value past the end fits the type
(`RangeFacts.RangeExitExact`).  A condition the generator has no value for, such as any with
`&&` or `||` in it, counts as true in a `while` and as false in an `if`
(`Limits.WhileTestsIff`, `Limits.IfTestsIff`, `Limits.LogicalHasNoValue`).  The return analysis
reads a condition that applies an operator through an invalid pointer
(`ReturnAnalysis.AnalysisDefinedIff`), and an `if` whose condition text begins with `t` always
counts as returning (`ReturnAnalysis.ConstantTrueIsUnsound`,
`ReturnAnalysis.VariableTakenForTrue`); otherwise it is exact up to one caution, that nothing which
may leave stands before the part where every path returns (`ReturnAnalysis.AlwaysReturnsIff`,
`ReturnAnalysis.LateReturnRefused`).  The registration of a function reads a null type if a
variadic group is followed by a scalar (`Varargs.CheckParams`).  The checker chooses the group
of an argument by its base but accepts it up to numeric types, so a number of another type can
be packed into the last group (`Calls.StrayAccepted`, `Calls.AcceptedConformsIff`), and a variadic
function that has the name of a variadic builtin loses arguments (`Calls.NothingLostIff`).  Literals with a
`+` or a hex prefix pass the range check and are refused by the parser
(`IntegerLiteral.U128ParsedIff`); behind a `+` a hex literal is held against the decimal limit and
accepted far beyond its type (`IntegerLiteral.PlusHexExact`); -2^127 has no literal (`IntegerLiteral.I128Exact`).  After the
environment has been cleared an old pointer into the root frame, and no other, can find a
variable again (`FrameStack.RootPointerRevives`).  The import checker tests a flag that is never
set, so a failed import does not stop the walk; once an error has been reported later files are
loaded but not walked (`Imports.SemanticWalk.CheckExpr`); its test for circular imports only ever fires
for files that could not be opened (`Imports.SemanticWalk.LoadModule`), and the program's own
file is parsed again if a module imports it (`Imports.CheckProgram`).

**The algorithms.**  `Utf8`, `Utf8Text` and `Utf16` define well-formed text by the byte grammar
of section 4 of RFC 3629 and by sections 2.1 and 2.2 of RFC 2781; `Utf8Core`, `Utf8Unchecked`,
`CharLiteral` and `StrHelper` are the decoders, converters and runtime routines over bit
vectors.  `IntegerEval`, `IntegerBinop` and `IntegerLiteral` are constant evaluation and literal
checking with 128-bit arithmetic written out, `Bitwise` the bit operators on it.  `Varargs` and `Calls` are variadic calls,
`ScopeChain` the generator's symbol tables, `FrameStack` and `RuntimeEnv` the evaluator's
environment, `Imports` the module walk, `ListShape` list type inference and `ReturnAnalysis`
the check that a function returns.

An iterator passed by reference becomes an in- and an out-parameter; an output buffer is an
array.  Files, allocation and diagnostics are not modelled: a file system is a map, an error
message a flag.

## Model

| member | source | states |
|---|---|---|
| Pipeline.CompilationCorrect | src/middle-end/HIRGen/HIRGen.cpp:17-233 | For a call the source language defines, with lexical scopes: whenever the source ends, the compiled graph halts with the same value, heap and variables of the function; whenever the graph halts, so does the source; and one runs forever exactly if the other does |
| Pipeline.LoweredRuns | src/middle-end/HIRGen/constructor.cpp:122-170 | Turn for turn the lowered function body has the result that scopes give the source body |
| Pipeline.CompilableScoped | src/backend/codegen/emit_assign.cpp:25-64 | A source function whose names are declared before use can be emitted after lowering |
| EveryForm.EveryFormCompilable | src/middle-end/HIRGen/HIRGen.cpp:17-233 | A function with a variadic group, a list of known size and a copy of it, loops over lists and a range, element stores, `while`, `if`, `break`, `continue` and compound assignment satisfies all conditions of the compiler theorem, whatever its distinct identifiers |
| EveryForm.EveryFormFits | src/middle-end/HIRGen/constructor.cpp:143-163 | Any two lists, the second of the size in its type, and any number are arguments the theorem covers |
| EveryFormRun.SourceComputes | src/middle-end/HIRGen/HIRGen.cpp:17-233 | For any two lists of numbers and any limit up to the length of the second, the source of that function returns the smaller of the limit and the 64-bit sum of the numbers before the limit, leaves it in the returned variable, and stores that sum in every second element below the limit |
| EveryFormRun.GraphComputes | src/backend/codegen/handle_fn.cpp:57-97 | The compiled graph halts with that result, that variable and that heap |
| LoweringProof.LowerKeepsMeaning | src/middle-end/HIRGen/HIRGen.cpp:17-233 | Every regular statement in which nothing shadows ends when lowered as its scoped meaning says, for every fuel, with the same heap and variables in scope, leaving the names of outer loops alone |
| LexicalProof.ScopedMeaning | src/frontend/semantic/loop_handler.cpp:34-51 | Where no `for` shadows a live name, running a statement with one variable for each name gives every variable in scope the value that lexical scoping gives it |
| LexicalProof.InnerScope | src/frontend/semantic/loop_handler.cpp:34-51 | What a `for` declares is gone after it, and what was visible before still refers to the same declaration |
| LexicalProof.VariablesStay | src/frontend/semantic/loop_handler.cpp:34-51 | No statement takes away a variable of its scope or of an enclosing one, however it ends |
| LexicalProof.LocalsSeen | src/middle-end/SymbolTable/SemanticSymbolTable.cpp:82-100 | What an expression in the scope of the function sees is the variables in which results are stated |
| LexicalProof.DeclareKeeps | src/middle-end/SymbolTable/SemanticSymbolTable.cpp:82-100 | A scoped statement declares no name that can be seen already |
| LexicalProof.BoundIsExact | src/middle-end/HIRGen/handle_loops.cpp:210-218 | In every reachable state of a well-typed call the length a list loop is compiled with is the number of elements of its list |
| LoweringProof.FlattenRefines | src/middle-end/HIRGen/helper.cpp:19-53 | Running the flattened statement vector is running the sequence tree |
| HirGenProof.SeqRefines | src/middle-end/HIRGen/helper.cpp:24-26 | Concatenating the vectors of the two halves keeps order, and stops where the first half leaves |
| HirGenProof.CompoundIsReadModifyWrite | src/middle-end/HIRGen/constructor.cpp:32-103 | `t op= e` through a cloned target has the outcome of reading, combining and writing the one place, undefined cases included |
| HirGenProof.AssignRefines | src/middle-end/HIRGen/HIRGen.cpp:100-140 | Lowered assignments to variables and elements end as the source assignment |
| HirGenProof.WhileRefines | src/middle-end/HIRGen/handle_loops.cpp:281-305 | The lowered `while` means what the source `while` means; `continue` still runs its continuation assignment |
| HirGenProof.WhileAgrees | src/middle-end/HIRGen/handle_loops.cpp:281-305 | The same for one store and one amount of fuel |
| HirGenProof.IfRefines | src/middle-end/HIRGen/HIRGen.cpp:194-203 | A lowered `if` takes the branch of the source `if` |
| RangeLowering.RangeRefines | src/middle-end/HIRGen/handle_loops.cpp:12-115 | The `while` a range loop becomes, with its initializer, runs the body once for each value of the range in order, `break` and `return` included |
| RangeLowering.RangeTurn | src/middle-end/HIRGen/handle_loops.cpp:93-106 | One turn of the lowered loop: the body from the current value, then exactly one stride, with end and stride unchanged |
| RangeLowering.ConditionIsInRange | src/middle-end/HIRGen/handle_loops.cpp:70-82 | The chosen comparison holds exactly for values inside the range, both directions, inclusive or not |
| RangeLowering.LoweredDirection | src/middle-end/HIRGen/handle_loops.cpp:25-98 | The lowered loop starts at the start expression; it tests `>` or `>=` if both ends are literals and the first is larger, and `<` or `<=` otherwise; its last statement adds the given stride, or else -1 or 1 accordingly |
| LexicalProof.RangeRunsOneByOne | src/middle-end/HIRGen/handle_loops.cpp:25-43 | Without a stride the body runs for s, s - 1, .. down to e if both ends are literals and s > e, and for s, s + 1, .. up to e otherwise, e itself only if inclusive; the loop has no meaning exactly if the value past the last does not fit |
| LexicalProof.RangeRunsByStride | src/middle-end/HIRGen/handle_loops.cpp:25-43 | With a stride w it runs for s, s + w, .. while these lie before the end; it has no meaning exactly if w is 0 or points the other way, or the value past the last does not fit |
| RangeFacts.RangeCountCorrect | src/middle-end/HIRGen/handle_loops.cpp:25-43 | The closed form counts the values: all before it lie in the range, the next one does not |
| RangeFacts.RangeValuesCorrect | src/middle-end/HIRGen/handle_loops.cpp:25-43 | The values start at `start`, step by the stride, stay inside, and are followed by one outside |
| RangeFacts.RangeValuesExact | src/middle-end/HIRGen/handle_loops.cpp:25-43 | A sequence is what the closed form yields if and only if it steps from the start through the range to the first value outside, with a stride that points the right way |
| RangeFacts.RangeExitExact | src/middle-end/HIRGen/handle_loops.cpp:93-98 | After the last value the wrapped sum is outside the range if and only if the unwrapped sum fits 64 bits |
| ListLowering.ListRefines | src/middle-end/HIRGen/handle_loops.cpp:117-279 | Compiled with the length of its list, the `while` a list loop becomes runs the body once for each element in order; nested loops do not interfere |
| ListLowering.FetchInBounds | src/middle-end/HIRGen/handle_loops.cpp:209-247 | The test compares the index with the list's length, and where it holds the generated read is inside the list and yields that element |
| ListLowering.SetupRuns | src/middle-end/HIRGen/handle_loops.cpp:145-194 | The set-up leaves the iterator zeroed, the length of a parameter list, the list and index 0 under the generated names |
| ListLowering.BodyKeepsHead | src/middle-end/HIRGen/handle_loops.cpp:249-251 | The body, with the loops inside it, leaves the loop's own index, list and length alone |
| HirGenNames.NamesDistinct | src/middle-end/HIRGen/handle_loops.cpp:135-140 | Generated names of different kinds or of loops with different numbers differ |
| HirGenNames.NamesHidden | src/middle-end/HIRGen/handle_loops.cpp:135-140 | No generated name is an identifier the lexer accepts |
| HirGenNames.LexableVisible | src/middle-end/HIRGen/handle_loops.cpp:150-172 | Identifiers and the length companions of parameters are not generated names |
| HirGenNames.IdentifiersLexable | src/frontend/lexer/lexer.l:151 | Every identifier of the lexer can name a variable of the compiler theorem if and only if it does not begin with `@` |
| AstFacts.ExecKeeps | src/middle-end/HIRGen/handle_loops.cpp:84-106 | A statement changes only the variables it assigns, elements only if it stores some, and no list's length |
| AstFacts.NeverContinues | src/middle-end/HIRGen/handle_loops.cpp:84-106 | A statement without a `continue` that leaves it never ends by one |
| Generator.HirGenerator.Generate | src/middle-end/HIRGen/HIRGen.cpp:17-233 | The generator object returns the lowered tree and advances its loop number as specified |
| Generator.HirGenerator.FlattenSequence | src/middle-end/HIRGen/helper.cpp:19-53 | Appends the lowered leaves behind what the vector holds |
| Generator.HirGenerator.EmitForRangeLoop | src/middle-end/HIRGen/handle_loops.cpp:12-115 | Builds the block of which `RangeLowering.LoweredDirection` and `RangeLowering.RangeRefines` speak, with the step as last statement of the body |
| Generator.HirGenerator.EmitForLoop | src/middle-end/HIRGen/handle_loops.cpp:117-279 | Takes its number before lowering the body and builds the specified block |
| Generator.HirGenerator.EmitWhileLoop | src/middle-end/HIRGen/handle_loops.cpp:281-305 | Builds the specified loop with its continuation assignment |
| Limits.TurnAdvancesIff | src/middle-end/HIRGen/handle_loops.cpp:100-106 | A lowered range loop moves its iterator on in a turn if and only if the body did not end by `continue` |
| Limits.NextHeadIff | src/middle-end/HIRGen/handle_loops.cpp:93-106 | After a body that ends normally with end and stride unchanged, the lowered loop is at the source's next value if and only if the body left the iterator at its value |
| Limits.ContinueDivergesIff | src/middle-end/HIRGen/handle_loops.cpp:103-109 | Any range loop whose body is `continue` never ends when lowered if and only if its range has a value |
| Limits.ContinueEnds | src/middle-end/HIRGen/handle_loops.cpp:103-109 | In the source it always ends, with everything as it was |
| Limits.IndexAdvancesIff | src/middle-end/HIRGen/handle_loops.cpp:257-273 | A lowered list loop moves its index on in a turn if and only if the body did not end by `continue` |
| Limits.ListContinueDivergesIff | src/middle-end/HIRGen/handle_loops.cpp:257-273 | Any list loop whose body is `continue` never ends when lowered if and only if its list has an element |
| Limits.ListContinueEnds | src/middle-end/HIRGen/handle_loops.cpp:257-273 | In the source it always ends |
| Limits.CopiedGroupIff | src/middle-end/HIRGen/handle_loops.cpp:210-218 | A loop over a copied variadic group makes no turn when lowered; with a `return` in its body it ends as in the source if and only if the list is empty |
| Limits.StaleGroupIff | src/middle-end/HIRGen/handle_loops.cpp:164-178 | After one variadic group is assigned to another, a lowered loop over it stops behind the last element if and only if the two lengths are equal, and reads past the end if the new list is shorter |
| Shadowing.AnonymousLoopsInterfere | src/frontend/parser/loops.ly:25 | For any end expressions, negated ones and variables included, nested anonymous loops from 0 make the product of their turns in the source; lowered, the outer one makes at most one turn or the loops never end |
| Shadowing.InterferenceIff | src/frontend/parser/loops.ly:25 | The exact values of the ends for which the lowered loops end, and that their count is then right if and only if the outer loop makes at most one turn |
| Shadowing.ShadowedNameIff | src/backend/codegen/emit_assign.cpp:136-146 | `y = v; for x in s..e { z = w }; return y`, for any constant expressions, returns v in the source; compiled it does if and only if the slot y shares with the iterator or the inner declaration ends up with v; it is compilable if and only if y is neither |
| Limits.WhileTestsIff | src/backend/codegen/handle_loops.cpp:31-39 | The loop's branch is constantly true if and only if the condition has no value or is the literal |
| Limits.IfTestsIff | src/backend/codegen/helper.cpp:196-225 | The branch is constantly false if and only if the condition has no value or is the literal |
| Limits.LogicalHasNoValue | src/backend/codegen/op_handler.cpp:10-100 | The generator has a value for an expression if and only if all its names have slots and no `&&` or `\|\|` occurs anywhere in it |
| FunctionProof.FunctionCorrect | src/backend/codegen/handle_fn.cpp:57-97 | The emitted graph halts with a value and store, or goes wrong, exactly if the mid-level body does, and runs forever exactly if the body does |
| FunctionProof.FunctionForward | src/backend/codegen/handle_fn.cpp:57-97 | Every run of the body with given fuel is matched by the graph, out-of-fuel runs by at least that many steps |
| FunctionProof.ParamsStored | src/backend/codegen/handle_fn.cpp:72-83 | The entry code leaves every parameter's slot with its argument |
| FunctionProof.ArgumentsBound | src/backend/codegen/handle_fn.cpp:72-83 | Each parameter holds the argument in its place, of two with one name the later |
| FunctionProof.FallingOffGivesZero | src/backend/codegen/handle_fn.cpp:89-96 | If the body runs to its end the graph halts with 0, or with no value if the function is void |
| FunctionProof.EmptyBodyGivesZero | src/backend/codegen/handle_fn.cpp:89-96 | So does the graph of a function with an empty body, for any arguments |
| CodegenProof.EmitSimulates | src/backend/codegen/emit_expr.cpp:11-124 | From its insert point an emitted statement reaches the open block for normal ends, the innermost exit for `break`, the innermost step block for `continue`, a return for `return`, with the same store |
| CodegenProof.EmitAllSimulates | src/backend/codegen/emit_expr.cpp:86-97 | The same for a vector of statements, of which those after a terminator are dropped |
| CodegenProof.EmitIfSimulates | src/backend/codegen/helper.cpp:196-253 | The same for `if` with its merge block |
| CodegenProof.EmitWhileSimulates | src/backend/codegen/handle_loops.cpp:14-60 | The same for the four blocks of a loop |
| CodegenProof.JumpSimulates | src/backend/codegen/emit_expr.cpp:111-124 | `break` and `continue` go to the targets on top of the loop stack |
| CodegenProof.ReturnSimulates | src/backend/codegen/emit_expr.cpp:99-109 | A return halts with the value of its expression |
| CodegenProof.TerminatedIffEnds | src/backend/codegen/helper.cpp:192-194 | After a statement the insert block is terminated exactly if the statement always leaves, and the slots are those its scope predicts |
| Simulation.WhileSimulates | src/backend/codegen/handle_loops.cpp:14-60 | Any graph with the loop's four blocks simulates the loop if its parts simulate their statements |
| CodegenExprProof.ExprCorrect | src/backend/codegen/op_handler.cpp:10-193 | The code of an expression computes its value in the operand it names, going wrong where there is none, and touches no older register and no slot |
| CodegenExprProof.ValueIffResolves | src/backend/codegen/op_handler.cpp:10-100 | The generator yields an operand exactly for expressions of known names and supported operators |
| CodegenExprProof.AddressCorrect | src/backend/codegen/list_handler.cpp:127-178 | Element address code computes the address of the indexed element |
| CodegenExprProof.AssignCorrect | src/backend/codegen/emit_assign.cpp:4-100 | The code of an assignment changes the store as the assignment does |
| SyntaxFacts.ArithmeticAgrees | src/backend/codegen/op_handler.cpp:26-45 | Generated `+`, `-`, `*`, `/` and `%` give what the constant evaluator gives at 64 bits, and are undefined exactly for a zero divisor and for the lowest value by -1 |
| SyntaxFacts.OrderOfNumbers | src/backend/codegen/op_handler.cpp:47-100 | Two numbers are equal if and only if their difference is 0, and a number is below its successor |
| SyntaxFacts.OneOrder | src/backend/codegen/op_handler.cpp:47-100 | The six comparisons are those of one total order |
| SyntaxFacts.NegationCancels | src/backend/codegen/op_handler.cpp:103-193 | A number and its negation add up to 0, the lowest one included |
| SyntaxFacts.IndexReads | src/backend/codegen/list_handler.cpp:127-178 | An element access has a value if and only if list and index denote an element, and then that element |
| SyntaxFacts.ElementReadsBack | src/backend/codegen/emit_assign.cpp:4-100 | A store to an element is defined if and only if there is such an element, and changes that one cell of that list and nothing else |
| SyntaxFacts.NameReadsBack | src/backend/codegen/emit_assign.cpp:4-100 | A stored variable reads as stored, every other one as before |
| GraphShape.FunctionWellFormed | src/backend/codegen/handle_fn.cpp:57-97 | Every emitted function has each block once, with exactly one terminator whose targets are blocks of the function, and an empty loop stack |
| GraphShape.EmitShaped | src/backend/codegen/emit_expr.cpp:11-124 | At every call only the insert block and the blocks awaited by enclosing constructs are open, none is terminated twice, and the loop stack is restored |
| Emitter.FunctionEmitter.EmitExpr | src/backend/codegen/op_handler.cpp:10-193 | Emitting step by step adds the specified code to the current block and returns its operand |
| Emitter.FunctionEmitter.EmitAssign | src/backend/codegen/emit_assign.cpp:4-100 | Leaves the builder as specified for an assignment |
| Emitter.FunctionEmitter.Emit | src/backend/codegen/emit_expr.cpp:11-124 | Leaves the builder as specified for any statement |
| Emitter.FunctionEmitter.EmitBlock | src/backend/codegen/emit_expr.cpp:86-97 | The loop over statements stops at a terminated block |
| Emitter.FunctionEmitter.EmitIfStmt | src/backend/codegen/helper.cpp:196-253 | Leaves the builder as specified for an `if` |
| Emitter.FunctionEmitter.EmitWhileLoop | src/backend/codegen/handle_loops.cpp:14-60 | Leaves the builder as specified for a loop, the loop stack as before |
| Emitter.FunctionEmitter.EmitBody | src/backend/codegen/handle_fn.cpp:57-97 | Emits the specified function |
| ScopeChain.Scope.OwnerOf | include/middle-end/SymbolTable/SymbolTableInternal.hpp:95-110 | The scope an index expression refers to is the nearest one with an entry, or the root; looking up reads it |
| ScopeChain.Scope.Get | include/middle-end/SymbolTable/SymbolTableInternal.hpp:95-110 | Reading by index leaves a null entry in the root for an unknown name and changes nothing else |
| ScopeChain.Scope.Put | include/middle-end/SymbolTable/SymbolTableInternal.hpp:95-110 | Writing by index changes the owner's entry only |
| ScopeChain.FunctionSlots.GetOrCreateAlloca | src/backend/codegen/emit_assign.cpp:136-173 | From any scope of the function the name's slot is found, or a new one made and entered in the root; all tables keep agreeing |
| ScopeChain.FunctionSlots.Enter | src/backend/codegen/handle_loops.cpp:22 | A loop body opens a table above the one it stands in, and no slot changes |
| ScopeChain.FunctionSlots.Declare | src/backend/codegen/emit_assign.cpp:58-61 | A declaration also enters its slot in the current scope |
| ScopeChain.FunctionSlots.LookupFinds | src/backend/codegen/emit_assign.cpp:144-146 | Every scope of the function sees the same slot for a name |
| ScopeChain.OneSlotPerName | src/backend/codegen/emit_assign.cpp:136-173 | In any run of declarations two get the same slot if and only if they declare the same name |
| ScopeChain.IdentifiersGetSlots | src/backend/codegen/emit_assign.cpp:142-146 | An identifier of the lexer gets a slot if and only if it can name a variable |
| ReturnAnalysis.AnalysisDefinedIff | src/frontend/semantic/helper.cpp:85-95 | The analysis is defined if and only if none of the conditions it looks at applies an operator |
| ReturnAnalysis.AlwaysReturnsIff | src/frontend/semantic/helper.cpp:67-113 | With conditions that are no operators and do not begin with `t`, a body is accepted if and only if every path through it meets a `return` and nothing that may leave stands before the part where that is so |
| ReturnAnalysis.LateReturnRefused | src/frontend/semantic/helper.cpp:74-83 | `if c { return .. } else { s }` followed by a `return` returns on every path, and is accepted if and only if `s` alone is |
| ReturnAnalysis.TakenForLiteralIff | src/frontend/semantic/helper.cpp:87-95 | The conditions taken for a literal are the literals and the variables that begin with their letter; those read through an invalid pointer are the operators |
| ReturnAnalysis.AlwaysReturnsSound | src/frontend/semantic/helper.cpp:67-113 | Unless a constant-condition shortcut is misled, a body that is accepted never falls through; `ReturnAnalysis.AlwaysReturnsIff` says which ones are |
| ReturnAnalysis.ReturnsOnEveryPath | src/frontend/semantic/helper.cpp:67-113 | Without stray jumps such a body returns, diverges or is undefined |
| ReturnAnalysis.FallbackUnreachable | src/backend/codegen/handle_fn.cpp:89-96 | Such a function has the same results whichever fallback return it is compiled with |
| ReturnAnalysis.ResultIsReturned | src/backend/codegen/handle_fn.cpp:89-96 | Each result of such a compiled function is that of a `return` statement |
| ReturnAnalysis.ConstantTrueIsUnsound | src/frontend/semantic/helper.cpp:85-88 | `if true { s }`, with any `else`, always counts as returning and falls through exactly if `s` does |
| ReturnAnalysis.VariableTakenForTrue | src/frontend/semantic/helper.cpp:85-88 | `if t { s } else { u }` with a variable whose name begins with `t` always counts as returning and falls through if and only if the branch that the variable chooses does |
| Utf8.WellFormedIffEncoding | include/utils/utf-8_lib/utf8/core.hpp:223-276 | A byte string fits the grammar of RFC 3629 exactly if it is the encoding of a scalar value |
| Utf8.EncodeWellFormed | include/utils/utf-8_lib/utf8/unchecked.hpp:38-58 | Encoding a scalar value gives a well-formed character that decodes to it |
| Utf8.EncodeOfValue | include/utils/utf-8_lib/utf8/unchecked.hpp:61-89 | A well-formed character decodes to a scalar value whose encoding it is |
| Utf8.ValueInDigits | include/utils/utf-8_lib/utf8/unchecked.hpp:61-89 | The bytes of a character less their marks are the digits of its value in base 64 (section 3 of RFC 3629) |
| Utf8Text.ValidIffEncoding | include/utils/utf-8_lib/utf8/core.hpp:291-301 | Valid strings are exactly the concatenations of encodings of scalar values |
| Utf8Text.SplitUnique | include/utils/utf-8_lib/utf8/core.hpp:291-301 | A string is such a concatenation in one way only |
| Utf8Text.DecodeOfEncode | include/utils/utf-8_lib/utf8/unchecked.hpp:160-175 | Decoding all inverts encoding all on scalar values |
| Utf8Text.EncodeOfDecode | include/utils/utf-8_lib/utf8/unchecked.hpp:160-175 | Encoding all inverts decoding all on valid strings |
| Utf8Core.SequenceLengthIsLeadLength | include/utils/utf-8_lib/utf8/core.hpp:100-114 | The shifts compute the length by byte ranges |
| Utf8Core.GetSequence2 | include/utils/utf-8_lib/utf8/core.hpp:164-176 | Reports the first missing or wrong byte, else the two-byte value |
| Utf8Core.GetSequence3 | include/utils/utf-8_lib/utf8/core.hpp:179-195 | Reports the first missing or wrong byte, else the three-byte value |
| Utf8Core.GetSequence4 | include/utils/utf-8_lib/utf8/core.hpp:198-218 | Reports the first missing or wrong byte, else the four-byte value |
| Utf8Core.ChecksAgree | include/utils/utf-8_lib/utf8/core.hpp:92-133 | The checks on the decoded value fail exactly outside the grammar, and classify the fault as its byte ranges do |
| Utf8Core.ValidateNext | include/utils/utf-8_lib/utf8/core.hpp:223-276 | The error is the one the byte ranges call for; success moves over exactly one character and stores its value, failure leaves iterator and code point alone |
| Utf8Core.FindInvalid | include/utils/utf-8_lib/utf8/core.hpp:291-301 | Returns the end of the longest valid prefix, which is the end exactly if the string is valid |
| Utf8Core.LongestPrefixUnique | include/utils/utf-8_lib/utf8/core.hpp:291-301 | That prefix is unique |
| Utf8Core.IsValid | include/utils/utf-8_lib/utf8/core.hpp:303-307 | True exactly for valid strings |
| Utf8Unchecked.Append | include/utils/utf-8_lib/utf8/unchecked.hpp:38-58 | Writes the encoding in place and nothing else |
| Utf8Unchecked.Next | include/utils/utf-8_lib/utf8/unchecked.hpp:61-89 | On checked input takes one element off the full decoding |
| Utf8Unchecked.NextAgreesWithValidateNext | include/utils/utf-8_lib/utf8/unchecked.hpp:61-89 | At every boundary both decoders read the same value and move equally far |
| Utf8Unchecked.Prior | include/utils/utf-8_lib/utf8/unchecked.hpp:98-103 | Steps back over exactly the last character and reads it |
| Utf8Unchecked.Distance | include/utils/utf-8_lib/utf8/unchecked.hpp:119-127 | The number of characters |
| Utf8Unchecked.Utf32To8 | include/utils/utf-8_lib/utf8/unchecked.hpp:159-166 | Fills the buffer with the encodings of all code points |
| Utf8Unchecked.Utf8To32 | include/utils/utf-8_lib/utf8/unchecked.hpp:168-175 | Fills the buffer with the full decoding |
| Utf8Unchecked.Utf16To8 | include/utils/utf-8_lib/utf8/unchecked.hpp:129-142 | Fills the buffer with the UTF-8 form of the text |
| Utf8Unchecked.Utf8To16 | include/utils/utf-8_lib/utf8/unchecked.hpp:144-157 | Fills the buffer with the UTF-16 form of the text |
| Utf8Unchecked.Utf16RoundTrip | include/utils/utf-8_lib/utf8/unchecked.hpp:129-157 | The two conversions are inverse to each other on valid bytes and well-formed units |
| Utf16.SurrogateOffset | include/utils/utf-8_lib/utf8/core.hpp:54 | Adding the offset modulo 2^32 gives the value of a surrogate pair |
| Utf16.LeadOffset | include/utils/utf-8_lib/utf8/core.hpp:53 | The offsets give the two surrogates of a value |
| Utf16.PairInDigits | include/utils/utf-8_lib/utf8/unchecked.hpp:129-157 | Two surrogates less their marks are the digits in base 1024 of the value above 0x10000 (section 2.2 of RFC 2781) |
| Utf16.DecodeOfEncode16 | include/utils/utf-8_lib/utf8/unchecked.hpp:129-157 | Decoding UTF-16 inverts encoding |
| Utf16.EncodeOfDecode16 | include/utils/utf-8_lib/utf8/unchecked.hpp:129-157 | Encoding UTF-16 inverts decoding |
| CharLiteral.DecodeUtf8 | src/backend/codegen/str_handler.cpp:5-33 | The verdict follows the literal's division into characters; only a single character yields a code point and its length |
| CharLiteral.AcceptedIffOneScalar | src/backend/codegen/str_handler.cpp:5-33 | A literal is accepted exactly if it is the encoding of one scalar value |
| CharLiteral.JudgeErrors | src/backend/codegen/str_handler.cpp:5-33 | The verdict is invalid if and only if the bytes encode no sequence of scalar values, and several characters if and only if they encode more than one |
| StrHelper.GetCharAt | lib/helper/StrHelper.cpp:42-84 | Finds what the walk over the string finds, for every string the walk does not leave |
| StrHelper.WalkIsCharAt | lib/helper/StrHelper.cpp:42-84 | That is the i-th character seen, U+FFFD for a cut-off last one, 0 past the end; the walk leaves the string exactly behind a cut-off character |
| StrHelper.ValidIsLoose | lib/helper/StrHelper.cpp:42-84 | On valid strings indexing is indexing of the full decoding |
| StrHelper.CharAtOfEncode | lib/helper/StrHelper.cpp:88-116 | Indexing the encoding of a code point gives it back if and only if it is below 2^21 |
| StrHelper.CharAtConcat | lib/helper/StrHelper.cpp:8-19 | Indexing distributes over concatenation |
| StrHelper.CharAtRepeat | lib/helper/StrHelper.cpp:21-37 | Indexing a repetition is indexing modulo the length in characters |
| StrHelper.Concat | lib/helper/StrHelper.cpp:8-19 | A fresh terminated buffer with both strings |
| StrHelper.MulStr | lib/helper/StrHelper.cpp:21-37 | A fresh terminated buffer with n copies, none for n <= 0, null for null |
| StrHelper.EncodeCp | lib/helper/StrHelper.cpp:88-116 | A fresh terminated buffer with the encoding |
| IntegerEval.PowI128 | src/eval/eval_helper.c:193-204 | Returns a^b whenever it fits 128 signed bits, -2^127 included, without overflow on the way; overflows exactly otherwise; dies for b < 0 |
| IntegerEval.PowU128 | src/eval/eval_helper.c:206-216 | Returns a^b modulo 2^128 |
| IntegerBinop.EvalBinopNumeric | src/eval/binop.c:60-154 | On integers the mathematical result cut to the type; death for zero divisors; what C leaves undefined exactly where the 128-bit intermediate does not fit or a shift is not defined |
| IntegerBinop.EvalUnsigned | src/eval/binop.c:87-119 | For every unsigned width and operator the mathematical result modulo 2^w |
| IntegerBinop.EvalSigned | src/eval/binop.c:121-151 | The signed operators, shifts and bit operators included, with what is undefined visible; quotients and remainders as `IntegerBinop.QuotientTruncates` and `IntegerBinop.RemainderHasSignOfDividend` say |
| IntegerBinop.QuotientTruncates | src/eval/binop.c:134-135 | q is the quotient if and only if x - q * y is nearer to 0 than y and not on the other side of 0 from x, for every type and all operands but the lowest value by -1 |
| IntegerBinop.RemainderHasSignOfDividend | src/eval/binop.c:136-137 | r is the remainder if and only if it is nearer to 0 than y, has the sign of x or is 0, and differs from x by a multiple of y |
| IntegerBinop.LowestByMinusOne | src/eval/binop.c:134-135 | The lowest value by -1 is undefined at 128 bits and is itself again in narrower types |
| IntegerBinop.LowestRemainder | src/eval/binop.c:136-137 | Its remainder is undefined at 128 bits and 0 in narrower types |
| IntegerBinop.ShiftLeftScales | src/eval/binop.c:140-141 | A shift by a distance below 128 multiplies by the power of two and cuts; it is undefined for negative values and for products above the signed range |
| IntegerBinop.ShiftRightScales | src/eval/binop.c:142-143 | s is the result of a shift to the right if and only if s * 2^y <= x < (s + 1) * 2^y |
| IntegerBinop.BitsFit | src/eval/binop.c:112-117 | A bit operator computed at 128 bits stays within the operands' type |
| Bitwise.ApplyBits | src/eval/binop.c:112-117 | Every bit of a bit operator's result combines the operands' bits in its place |
| Bitwise.SumOfBits | src/eval/binop.c:144-149 | `x & y` and `x \| y` add up to `x + y`, and `x ^ y` is their difference |
| IntegerBinop.ReduceTwice | src/eval/eval_helper.c:142-165 | Computing at 128 bits first makes no difference |
| IntegerBinop.ReduceUnique | src/eval/eval_helper.c:142-165 | Cutting gives the only value of the type congruent modulo 2^w |
| IntegerBinop.NarrowNeverOverflows | src/eval/binop.c:121-151 | For 8 to 64 bits sums, differences, products, quotients, remainders and bit operators never overflow the intermediate |
| IntegerBinop.WideQuotientOverflow | src/eval/binop.c:134-137 | A 128-bit division overflows only for -2^127 by -1 |
| IntegerLiteral.U128Exact | src/frontend/semantic/typecheck.c:97-123 | A digit string with any leading zeros, with or without a plus, is accepted exactly if its value is at most 2^128-1; behind a minus never |
| IntegerLiteral.I128Exact | src/frontend/semantic/typecheck.c:81-117 | A signed digit string is accepted exactly if its magnitude is at most 2^127-1 |
| IntegerLiteral.U128HexExact | src/frontend/semantic/typecheck.c:97-111 | A hex literal in any case is accepted exactly if its value is at most 2^128-1 |
| IntegerLiteral.I128HexExact | src/frontend/semantic/typecheck.c:81-95 | A hex literal without a sign or with a minus is accepted exactly if its magnitude is at most 2^127-1; as unsigned, never with a minus |
| IntegerLiteral.PlusHexExact | src/frontend/semantic/typecheck.c:81-111 | With a plus the digits are held against the decimal limit: accepted are exactly the values up to the text of that limit read as a hexadecimal number, which is at least 2^128 |
| IntegerLiteral.LiteralForms | src/frontend/semantic/typecheck.c:42-53 | Everything accepted is an optional sign and decimal digits, or an optional sign, a prefix and hexadecimal digits |
| IntegerLiteral.FitsUnderIsNumeric | src/frontend/semantic/typecheck.c:72-79 | Length, then lexicographic order, is the order of the numbers |
| IntegerLiteral.SkipSignAndZeros | src/frontend/semantic/typecheck.c:64-70 | Returns the suffix without sign, hex prefix and leading zeros |
| IntegerLiteral.ParseU128 | src/eval/eval_helper.c:251-261 | Succeeds exactly on non-empty digit strings, with the value modulo 2^128 |
| IntegerLiteral.ParseI128 | src/eval/eval_helper.c:263-274 | The same behind an optional sign |
| IntegerLiteral.U128Parses | src/eval/eval_helper.c:251-261 | An accepted unsigned decimal literal parses to its value, no prefix wrapping |
| IntegerLiteral.I128Parses | src/eval/eval_helper.c:263-274 | An accepted signed decimal literal parses to its value |
| IntegerLiteral.U128ParsedIff | src/eval/eval_helper.c:251-261 | Of the accepted unsigned literals exactly those without `+` and hex prefix parse |
| IntegerLiteral.I128ParsedIff | src/eval/eval_helper.c:263-274 | Of the accepted signed literals exactly those without hex prefix parse |
| Varargs.CheckParams | src/frontend/semantic/register_handler.cpp:29-41 | Undefined exactly if a group is followed by a parameter without element type; otherwise no error exactly for lists with fixed parameters first and differing neighbouring groups |
| Varargs.GroupsConcatenate | src/middle-end/HIRGen/call.cpp:70-114 | For any arguments the groups concatenate to them in order |
| Varargs.UntypedTakesAll | src/middle-end/HIRGen/call.cpp:92-108 | An untyped first group takes all arguments |
| Varargs.RegroupIff | src/middle-end/HIRGen/call.cpp:70-114 | Distributing the concatenation of conforming groups gives them back for all groups if and only if neighbouring types differ |
| Varargs.Regroup | src/middle-end/HIRGen/call.cpp:92-108 | The positive half for given groups |
| Calls.CheckVarargs | src/frontend/semantic/fn_handler.cpp:286-339 | The checker accepts exactly if every argument has, up to numeric types, the type of its greedy group and no group of several is empty, with the groups of the lowering |
| Calls.SingleGroupAccepts | src/frontend/semantic/fn_handler.cpp:286-339 | A single group accepts anything if it is untyped or of unknown type, exactly numbers if of numbers, and otherwise exactly arguments of its very type |
| Calls.StrayIsNumeric | src/frontend/semantic/helper.cpp:26-42 | An accepted argument of another base than its group's stands in the last group, and is a number among numbers or the group's type is not known |
| Calls.AcceptedConformsIff | src/frontend/semantic/fn_handler.cpp:286-339 | An accepted call packs groups of the declared types if and only if no such argument falls to the last group |
| Calls.StrayAccepted | src/frontend/semantic/fn_handler.cpp:300-319 | `f(T ...s, N ...xs)` accepts a `T` and a number of another type than `N`, which no split of the arguments fits |
| Calls.LoneStrayAccepted | src/frontend/semantic/fn_handler.cpp:300-319 | So does `f(N ...xs)` with a single such number |
| Calls.AcceptedIffSplittable | src/frontend/semantic/fn_handler.cpp:286-339 | The lists accepted without a stray are exactly those that can be split into non-empty groups of the declared types, and the lowering finds that split, the only one |
| Calls.DistributeByChoices | src/middle-end/HIRGen/call.cpp:92-108 | Each lowered group holds, in order, the arguments the checker chose for it |
| Calls.CallLowering.DistributeLoweredArg | src/middle-end/HIRGen/call.cpp:70-114 | An argument is packed for a builtin, joins its group or joins the call |
| Calls.CallLowering.EmitVarargsToCall | src/middle-end/HIRGen/call.cpp:119-165 | Appends a list and its length for each group, or for what was packed |
| Calls.EmitCall | src/middle-end/HIRGen/call.cpp:169-240 | For any callee the call passes the fixed arguments, the pairs of the greedy groups, or a builtin's packed rest |
| Calls.NothingLostIff | src/middle-end/HIRGen/call.cpp:169-240 | Every argument is passed, in order, if and only if the callee is not both a variadic user function and a variadic builtin that packs some |
| Calls.BuiltinPacks | src/middle-end/HIRGen/call.cpp:169-240 | Without variadic parameters the call passes the arguments one by one, and those beyond the fixed ones of a variadic builtin as one list |
| Calls.CallCorrect | src/middle-end/HIRGen/call.cpp:70-240 | For every legal parameter list with several typed groups: a call is accepted without a stray exactly if its arguments split into groups of the declared types; the call then emitted passes that split; it meets the callee's parameters; and its lists hold elements of their types if and only if there is no stray |
| Calls.ExpandParams | src/middle-end/HIRGen/constructor.cpp:143-163 | A group becomes a list parameter and a length parameter |
| Calls.ExpandFixed | src/middle-end/HIRGen/constructor.cpp:143-163 | In a legal list a fixed parameter keeps its place, name and type |
| Calls.ExpandVariadic | src/middle-end/HIRGen/constructor.cpp:143-163 | A group becomes, in its place behind the groups before it, a list of its name and the companion that holds the length |
| Calls.CallMeetsCallee | src/middle-end/HIRGen/constructor.cpp:143-163 | Position by position the emitted call meets the expanded parameters, each length belonging to the list before it |
| FrameStack.RunKeeps | src/middle-end/SymbolTable/EvalSymbolTable.cpp:103-133 | In every run ids fall strictly to root id 0 and stay below the next id |
| FrameStack.DeadStaysDead | src/middle-end/SymbolTable/EvalSymbolTable.cpp:80-87 | A pointer into a frame that is gone dangles in all later states |
| FrameStack.PopKills | src/middle-end/SymbolTable/EvalSymbolTable.cpp:110-119 | Popping kills exactly the pointers into the popped non-root frame |
| FrameStack.PointerMeetsName | src/middle-end/SymbolTable/EvalSymbolTable.cpp:168-203 | The frame id of a name with the name leads to the binding of the name |
| FrameStack.PointerStays | src/middle-end/SymbolTable/EvalSymbolTable.cpp:103-151 | A working pointer keeps working while its frame is neither popped nor cleared |
| FrameStack.KeysBelowTopStay | src/middle-end/SymbolTable/EvalSymbolTable.cpp:135-151 | Apart from clearing everything no operation changes the variables of a frame below the top |
| FrameStack.RootPointerRevives | src/middle-end/SymbolTable/EvalSymbolTable.cpp:121-133 | After clearing, some later run finds a binding through a pointer from before if and only if it points into the root |
| FrameStack.NameReadsInnermost | src/middle-end/SymbolTable/EvalSymbolTable.cpp:168-176 | A name reads what a pointer into the youngest frame that binds it reads, and is undefined if and only if no frame binds it |
| FrameStack.SetStores | src/middle-end/SymbolTable/EvalSymbolTable.cpp:135-143 | Assigning a name stores in the youngest frame that binds it, or in the top if none does; every other binding, all frames and the next id stay |
| FrameStack.SetCurrentStores | src/middle-end/SymbolTable/EvalSymbolTable.cpp:145-150 | Declaring a name stores in the frame with the highest id and nowhere else |
| FrameStack.SetAtStores | src/middle-end/SymbolTable/EvalSymbolTable.cpp:205-219 | Writing through a pointer stores there if a value of the same type is there, and otherwise changes nothing |
| FrameStack.SetReadsBack | src/middle-end/SymbolTable/EvalSymbolTable.cpp:135-150 | After an assignment or a declaration the name reads the new value, every other name what it read before |
| FrameStack.FramesRead | src/middle-end/SymbolTable/EvalSymbolTable.cpp:103-133 | Pushing, popping and clearing change what is read through pointers into the frames that came or went, and no others |
| FrameStack.OuterAssignmentStays | src/middle-end/SymbolTable/EvalSymbolTable.cpp:103-143 | A variable that a block assigns and an outer frame binds has the value after the block, and the stack is as if there had been no block |
| FrameStack.BlockDeclarationGoes | src/middle-end/SymbolTable/EvalSymbolTable.cpp:103-150 | What a block declares leaves nothing behind |
| RuntimeEnv.RuntimeEnvironment.Push | src/middle-end/SymbolTable/EvalSymbolTable.cpp:103-108 | Pushes an empty frame with a fresh id |
| RuntimeEnv.RuntimeEnvironment.Pop | src/middle-end/SymbolTable/EvalSymbolTable.cpp:110-119 | Removes the top frame, or empties the root |
| RuntimeEnv.RuntimeEnvironment.ClearAll | src/middle-end/SymbolTable/EvalSymbolTable.cpp:121-133 | Leaves an empty root, no functions and the next id as it was |
| RuntimeEnv.RuntimeEnvironment.FnRegister | src/middle-end/SymbolTable/EvalSymbolTable.cpp:221-228 | The first definition of a function name stays |
| RuntimeEnv.RuntimeEnvironment.FnLookup | src/middle-end/SymbolTable/EvalSymbolTable.cpp:230-233 | Finds exactly the registered definitions |
| RuntimeEnv.RuntimeEnvironment.Set | src/middle-end/SymbolTable/EvalSymbolTable.cpp:135-143 | Does to the linked frames what `FrameStack.SetStores` says: the innermost binding changes, or one is added to the top |
| RuntimeEnv.RuntimeEnvironment.SetCurrent | src/middle-end/SymbolTable/EvalSymbolTable.cpp:145-150 | Binds in the top frame |
| RuntimeEnv.RuntimeEnvironment.GetRef | src/middle-end/SymbolTable/EvalSymbolTable.cpp:168-176 | The innermost binding |
| RuntimeEnv.RuntimeEnvironment.FrameIdOf | src/middle-end/SymbolTable/EvalSymbolTable.cpp:178-187 | The id of the frame that binds the name |
| RuntimeEnv.RuntimeEnvironment.GetRefAt | src/middle-end/SymbolTable/EvalSymbolTable.cpp:189-203 | The binding in the frame with that id, dangling or undefined otherwise |
| RuntimeEnv.RuntimeEnvironment.SetAt | src/middle-end/SymbolTable/EvalSymbolTable.cpp:205-219 | Stores through a pointer if frame, name and type match, else changes nothing |
| RuntimeEnv.RuntimeEnvironment.GetThroughPointer | src/middle-end/SymbolTable/EvalSymbolTable.cpp:168-203 | A pointer just taken reads what the name reads |
| Imports.CheckProgram | src/frontend/semantic/semanic.cpp:32-48 | The walk ends for any import graph and loads only reachable files, without errors exactly those; an error is reported if and only if the program or a reachable file contains a reporting statement or an unresolved import, or a reachable file cannot be opened or parsed; every file is parsed at most once, but the program's own, without errors, twice exactly if it is reachable from its imports |
| Imports.SemanticWalk.LoadModule | src/middle-end/SymbolTable/SemanticSymbolTable.cpp:223-312 | A cached file is reported as imported even while its walk is going on; refused are exactly the files that could not be opened; an error is reported exactly for those, for malformed files and for unresolved paths; a file counts as parsed only if no error was reported before |
| Imports.SemanticWalk.HandleImport | src/frontend/semantic/import.cpp:100-123 | After an import the file is cached and all imports of finished modules are; without errors the finished modules have no faults, and an error comes from a fault; after an error the file is loaded and nothing else |
| Imports.SemanticWalk.CheckExpr | src/frontend/semantic/semanic.cpp:52-170 | The walk covers all imports of a tree, also after a failed one; a fault in the tree is reported, and what is reported is a fault in the tree or in a loaded file; after an error exactly the imports of the tree itself are loaded; module states only move from loading to loaded |
| ListShape.ListHandleLoop | src/frontend/semantic/list_handler.cpp:43-112 | The loop infers, checks and locks as specified |
| ListShape.AcceptedIffRectangular | src/frontend/semantic/list_handler.cpp:43-112 | Without a hint exactly the non-empty rectangular literals with scalars of one kind are accepted, with the sizes of their shape |
| ListShape.HintedIff | src/frontend/semantic/list_handler.cpp:16-112 | Against a complete type exactly the literals of its shape are accepted |
| ListShape.NumberTakesHint | src/frontend/semantic/numeric_helper.cpp:101-124 | A number takes the numeric type it is checked against, or that of the elements of the list type, and otherwise that of its text |
| ListShape.LockedSizeIsExact | src/frontend/semantic/list_handler.cpp:93-96 | The size a list loop is compiled with is the number of elements |

## Left out

- LLVM itself: instruction selection, constant folding in the builder, the `alloca` instructions (slots are kept by name; `ScopeChain` proves that a name has one slot per function), linking and target set-up.
- Types other than 64-bit signed integers, booleans and one-dimensional lists of them in the compiler theorem: floats, unsigned comparisons, mixed widths, strings, pointers, globals and calls inside expressions are not handled uniformly by the generator.
- Shifts, bit operators, power, `++` and `--` in the compiler theorem: their expressions have side effects or call the runtime.
- List literals as expressions, multi-dimensional index lists and the order of their indices: only single indices are modelled.
- The node kind for explicit blocks: the grammar never builds it.
- `if` conditions of integer type: the checker rejects them.
- Names that begin with `@` name builtins and have no slot (`ScopeChain`); the compiler theorem is about functions that use no such name as a variable.
- Source locations, type annotations on nodes, memory release and failed allocation.
- The `int` width of frame ids and of the loop number: both are unbounded here.
- Pipeline.CompilationCorrect: says nothing about calls for which the source language has no meaning (out-of-bounds elements, division by zero, a range whose value past the end does not fit), nor about functions that are not `Compilable`; `Shadowing` and `Limits` say what goes wrong in those.
- LexicalProof.ScopedMeaning: a name that a loop declares may be used again in the enclosing scope behind the loop, but not in a `while` around both.
- ListLowering.ListRefines: lists longer or shorter than the length the loop is compiled with; `LexicalProof.BoundIsExact` rules them out.
- IntegerBinop.EvalBinopNumeric: the floating-point half of the switch.
- HirGenProof.WhileRefines: the continuation of a `while` is an assignment, as the grammar has it.
- Calls.CheckVarargs: what lists and pointers have besides their base is an opaque shape; an argument has the same type when the checker looks a second time, as typed literals do.
- Imports.SemanticWalk.CheckExpr: other statements only report errors or contain statements; path resolution is a given.
- ListShape.ListHandleLoop: type objects are values; the sharing of one object between neighbouring elements is modelled by passing the locked type on.
- StrHelper.GetCharAt: strings on which the walk steps over the terminator, which the code reads past.
- The tree-walking interpreter, mid-level lowering of imports, command line, diagnostics, lexer and parser.
