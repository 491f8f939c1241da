# Verified models of lua-pure

lua-pure is a Lua 5.4 compiler, virtual machine and library written in Go. This project models the
parts of it that work by back-patching, aliasing, backtracking or hand-over of control, and proves
that each of them does what a plain specification says. `dafny verify dfyconfig.toml` checks
everything.

Lua errors are results (`Failed`, `Raised`, `Throws`, `Err`, `None`), Go panics that are not caught
are results of their own (`Crashed`, `Panicked`), and whatever depends on the host (metamethods,
comparators, number formatting, replacement functions) is a function-valued parameter over which every
theorem quantifies.

| files | component | main result |
|---|---|---|
| `Machine`, `Descriptor`, `Semantics`, `Compose`, `CodeGen`, `Parse`, `Compiler` | expression parser driving the code generator, and the machine | from tokens to the machine: compiled assignments, finished and run from every register state, leave the registers that the language prescribes, or raise the same error in the same statement |
| `Finish` | jump collapsing of `luaK_finish` | every run observes the same instructions with the same states, whatever the other instructions mean |
| `JumpLists` | jump lists threaded through the code | every sequence of emits, joins and patches leaves exactly the lists and landing places that sequences of jumps would |
| `Subexpr` | priority climbing | the tree is the only one in which every operand belongs to the operator that the manual's groups say, and every such tree is found, up to the depth limit |
| `Scope` | scoping and upvalue resolution | at any nesting depth the descriptors lead to the innermost visible declaration, at compile time and in the closures made at run time |
| `Upvalues` | open and closed upvalues | every run is that of one heap cell per variable |
| `Closures` | closures made and called at run time | through all reads, writes and closings, a closure's upvalue is the cell of the variable that its name means |
| `Pattern`, `Matcher`, `PatternManual`, `Gsub` | pattern matching and `string.gsub` | sound and complete against a declarative relation, back-references included; captures restored; panics and errors exactly where backtracking comes to one; the scan is ordered, ends, and rebuilds the subject |
| `Chunk`, `Dump`, `Grammar`, `Undump`, `ChunkRoundTrip` | binary chunks | from any bytes, loading gives what a grammar of chunks says they stand for, or its error; what was dumped stands for the prototype, for every tree; whatever stands for a prototype stands for a valid one, which comes back from its own dump |
| `Tables` | tables | refinement of a finite map; traversal under edits; borders; the assignment shortcut |
| `Coroutine` | coroutine hand-over | one running thread, the normal ones are its chain of resumers, the dead stay dead, no deadlock; every run passes the values that resume and yield prescribe |
| `Sort` | `table.sort` | a permutation for any comparator, sorted for a strict weak order, logarithmic depth |
| `PackFormat`, `Binary`, `Pack`, `PackLib` | `string.pack`, `unpack`, `packsize` | round trips both ways for every format; `packsize` is the packed length |
| `ForLoop`, `Words` | integer `for` loops | exactly the values that do not pass the limit, without wrap-around |
| `Quote`, `QuoteManual` | `%q` and the lexer's strings | every literal is read as what it denotes, or refused; a quoted string denotes the string |
| `ByteStrings`, `Options`, `Results` | shared types | |

## How the compiler theorem is put together

An expression descriptor (`ExpDesc`) denotes, at a place in the code, a value that is still to be
loaded and two lists of pending jumps. `Den` says what that means: executing the code so far from any
register state either falls through with the value available as the descriptor says, or leaves
through a pending jump whose list tells whether the value was true or false and whether a TESTSET has
stored it; registers below the entry level are untouched. Every method of `FuncState` is proved
against `Den` for the expression it has compiled so far. `Parse` runs the loop of `subexpr` over the
tokens with these methods in place of a tree, and shows that what the generator has at each point is
the meaning of the tree that the priorities give to the tokens read; `Compiler` adds assignments, the
finishing pass and the machine.

The host's comparisons may raise errors, and an error names the comparison that raised it. As the
theorem holds for every host, it also holds for one that raises an error in any comparison of a given
set, and `Compiler.WatchedBlock` shows that the block then stops at the first such call in the order
of evaluation. So the code makes the calls that the language prescribes, in the same order, as far as
repeated calls with the same operands can be told apart.

## Where the code and the promise differ

* **Sticky float operands.** `codeorder` takes the right operand for a float immediate when its
  descriptor is a numeral, although pending jumps may bring another value: `1 < (t or 5.0)` compares
  `t` with the float `1.0` instead of the integer `1`. `Coded` is what the code computes. It is the
  value of the manual wherever no `Sticky` comparison that is evaluated gets another right operand
  than a number (`Descriptor.CodedIsEval`), so always for expressions without one
  (`Descriptor.NoStickyUnseen`). For a sticky comparison it is so under a given host exactly if an
  operand throws or the host answers alike for the float and the integer; and a host that tells
  floats from integers wherever it is asked sees the difference exactly if the right operand is not
  a number (`Descriptor.StickyExact`). `Descriptor.StickyDiffers` gives inputs.
* **Counts in chunks.** `undumpReader.size` reads a number back if and only if it is below
  `(2^57 - 1) * 128` (`Grammar.NumberPrinted`); larger ones are refused, although the writer accepts
  all 64 bits.
* **Sources in chunks.** An empty source comes back as `=?`: an unstripped prototype is unchanged if
  and only if no source in it is empty (`Chunk.LoadedSame`). More than 255 upvalues of the main
  function are written and then refused (`Grammar.ChunkRead`).
* **NaN limits.** A numeric loop with limit NaN does not run if the step is positive, but runs down
  to the minimum integer if it is negative (`ForLoop.NaNLimit`); every other loop is exact
  (`ForLoop.IntegerFor`).
* **String lengths in `unpack`.** A length prefix of eight or more bytes that is negative as a signed
  integer passes the length check, and slicing panics. `string.unpack("s8", ("\255"):rep(8))` does
  (`Pack.CrashExample`); `Pack.CrashExact` says for which formats and data it happens, both ways, and
  formats with shorter prefixes are safe (`Pack.NeverCrashes`).
* **References to position captures.** `%1` compares with the text of a capture, and a position
  capture has none: slicing panics. A back-reference panics exactly if the capture that it names is
  one, and raises exactly if there is no such closed capture (`Matcher.MatchState.InlineReference`).
  An attempt panics exactly if backtracking comes to such a reference before it comes to a match
  (`Gsub.Attempt`), and `gsub` exactly if it comes to such an attempt (`Gsub.Substitute`); `()%1` does
  so everywhere (`Gsub.PositionReference`, `Gsub.CrashExample`, `Gsub.SubstituteCrashes`). A pattern
  without a reference to a `()` of its own never does (`Gsub.FreeOfPanic`).

## Model

| member | source | states |
|---|---|---|
| Compiler.CompileFunction | lua/lcode.go:862-1064 | from the tokens of any assignments to locals that parse and compile, and for every register state: the finished code run by the machine ends at the return with the registers that the statements prescribe, or raises the error that they raise, at an instruction of the same statement and with the locals as they are before it; by the manual from every register state in which no sticky comparison gets another right operand than a number; it fails only at a stated limit or where the tokens are no expression |
| Compiler.NoStickyBlock | lua/lcode.go:1360-1390 | no register state is excluded if no expression of the block has a sticky comparison |
| Compiler.TreeExact | lua/lparser.go:524-548 | the statement compiled is that of the one tree of its tokens in which every operand belongs to the operator that the manual says, within the depth limit |
| Compiler.WatchedBlock | lua/lvm.go:341-380 | a block under a host that raises in given comparisons stops at the first of its calls that is among them, in its statement, and otherwise nothing changes |
| Descriptor.FirstCall | lua/lvm.go:341-380 | the same for one expression: the calls of the host, in the order of evaluation, are those listed |
| Descriptor.LogicByManual | lua/lobject.go:110 | only nil and false are false; `and` and `or` give the operand that decides, `not` a boolean |
| Descriptor.IntegersByManual | lua/lvm.go:265-380 | integers compare as integers, and with finite floats as reals |
| Descriptor.NumbersByManual | lua/lvm.go:313-380 | the six comparisons of any two numbers agree with each other, and NaN is in no order |
| Descriptor.OthersByManual | lua/lvm.go:341-380 | other values are equal only to themselves unless the host says so of two objects; their order is the host's |
| Machine.FloatsInOrder | lua/lvm.go:313-338 | any two floats but NaN are in exactly one order, the reals in their own, the infinities outside |
| Machine.ExactIntIs | lua/lvm_arith.go:46-54 | the integer of a float is the 64-bit integer of the same value |
| Compiler.StoreLocal | lua/lcode.go:985-1006 | for the case of a local variable: one more assignment extends what the code does for all register states by that assignment, in the order of evaluation |
| Compiler.DoesDelivers | lua/lvm_execute.go:558-568 | the executor used for code with pending jumps and the machine's fetch-execute loop agree on complete code |
| Parse.SubExpr | lua/lparser.go:524-548 | driving the generator over the tokens: if it succeeds, the descriptor and pending jumps denote, at the entry point, the meaning of the tree that the priorities give to the tokens read, and code before it is as it was; it fails only at a limit or where there is no such tree |
| Parse.Operator | lua/lparser.go:536-543 | infix, second operand at the right priority and posfix turn the meaning of the left operand into that of the operation |
| Parse.Parenthesis | lua/lparser.go:367-372 | the descriptor of an expression in parentheses, discharged |
| Parse.OperatorsMeant | lua/lparser.go:458-505 | what each comparison token gives for two integers |
| Parse.OperatorsCovered | lua/lparser.go:458-505 | the binary operators of the fragment are the six comparisons, `and` and `or` |
| Parse.NamesAre | lua/lparser.go:524-548 | operands stand for literals and active locals |
| Parse.FragmentMeant | lua/lparser.go:524-548 | every tree of tokens of the fragment has a meaning |
| CodeGen.FuncState.PrefixNot | lua/lcode.go:1429-1446 | the operand after `not`, its lists kept, becomes its negation |
| CodeGen.FuncState.Exp2Reg | lua/lcode.go:862-886 | after it, execution from every register state reaches the end with the register holding the value and all registers below the entry level unchanged except the target |
| CodeGen.FuncState.Exp2NextReg | lua/lcode.go:890-895 | the same, in the first free register, which is then reserved |
| CodeGen.FuncState.Exp2AnyReg | lua/lcode.go:899-912 | the value is in some register, with no jumps pending; nothing changes if it was there already |
| CodeGen.FuncState.Discharge2Reg | lua/lcode.go:805-834 | the value without its jumps is in the register; pending jumps keep their meaning |
| CodeGen.FuncState.LoadNils | lua/lcode.go:577-595 | merged or not, exactly the registers of both LOADNILs are cleared, and only code after the last jump target is merged |
| CodeGen.FuncState.FixJump | lua/lcode.go:609-616 | the jump alone changes, to the given target, if and only if the offset can be encoded |
| CodeGen.FuncState.Concat | lua/lcode.go:619-636 | of two disjoint lists, the result lists exactly the members of both, in order, and only the last link of the first is rewritten |
| CodeGen.FuncState.PatchListAux | lua/lcode.go:685-718 | exactly the members of the list are retargeted, those that produce a value to the one target and the rest to the other, with the TESTSETs rewritten; nothing else changes |
| CodeGen.FuncState.PatchToHere | lua/lcode.go:727-730 | all members lead to the end of the code, which becomes a jump target |
| CodeGen.FuncState.RemoveValues | lua/lcode.go:700-704 | every TESTSET of the list becomes the TEST with the same condition |
| CodeGen.FuncState.NeedValue | lua/lcode.go:851-858 | true if and only if some jump of the list does not produce its value |
| CodeGen.FuncState.JumpOnCond | lua/lcode.go:1030-1045 | the emitted jump leaves exactly when the value is true (or false), with the negated form of a NOT folded in |
| CodeGen.FuncState.GoIfTrue | lua/lcode.go:1049-1064 | control falls through exactly when the expression is true; all other exits are in the false list |
| CodeGen.FuncState.GoIfFalse | lua/lcode.go:1068-1082 | control falls through exactly when the expression is false; all other exits are in the true list |
| CodeGen.FuncState.CodeNot | lua/lcode.go:1085-1104 | the result denotes the negation, with the lists exchanged and no value left in them |
| CodeGen.FuncState.CodeOrder | lua/lcode.go:1360-1390 | the jump denotes the comparison, also with immediate operands and exchanged sides |
| CodeGen.FuncState.CodeEq | lua/lcode.go:1394-1426 | the jump denotes (in)equality, in its register, constant and immediate forms |
| CodeGen.FuncState.InfixCircuit | lua/lcode.go:1450-1475 | after the first operand of `and` or `or`, control is at the second exactly when the first does not decide |
| CodeGen.FuncState.PosfixCircuit | lua/lcode.go:1494-1547 | the joined lists and the second descriptor denote the whole `and` or `or` |
| Descriptor.CodedIsEval | lua/lcode.go:1129-1151 | the code's value is the manual's, for any host and registers with which no sticky comparison gets another right operand than a number |
| Descriptor.NoStickyUnseen | lua/lcode.go:1360-1390 | expressions without a sticky comparison are such, for all hosts and registers |
| Descriptor.StickyExact | lua/lcode.go:1360-1390 | the code of a sticky comparison computes the manual's value under a host if and only if an operand throws or the host answers alike for the integer and the float equal to it; so whenever the right operand is a number or throws, and under the host that tells them apart if and only if it is a number |
| Descriptor.StickyDiffers | lua/lcode.go:1360-1390 | a family of inputs on which the code's value is not the manual's |
| Finish.FinalTarget | lua/lcode.go:1603-1612 | the result is reached by 1 to 100 hops, and is not a jump unless all 100 were used |
| Finish.FinishJumps | lua/lcode.go:1616-1639 | rewriting in place, in order, keeps where every pc leads (or that it loops), never lengthens a chain, and leaves each jump at its last instruction unless the chain is longer than the bound; it fails only for code too long for a jump |
| Finish.FinishPreserves | lua/lvm_execute.go:322-323 | for every meaning of the other instructions, state, start and length, the observed sequence of instructions and states is the same before and after |
| JumpLists.Run | lua/lcode.go:600-636 | after any sequence of jumps, other instructions, joins and patches, every list is acyclic, disjoint from the others, and has exactly the jumps, in their order, that appending and joining sequences gives; every patched jump lands where it was sent |
| JumpLists.Apply | lua/lcode.go:671-730 | one step of that |
| Subexpr.ParseExact | lua/lparser.go:524-548 | subexpr answers with a tree if and only if it is written there, every operator has the operands the priorities give it, no operator follows that belongs to it, and it is not too deep |
| Subexpr.OneTree | lua/lparser.go:508-522 | no two different trees fit the same tokens |
| Subexpr.RoundTrip | lua/lparser.go:550-552 | an expression with its necessary parentheses is parsed back from its tokens |
| Subexpr.Associates | lua/lparser.go:508-520 | concatenation and power associate to the right, all other operators to the left |
| Subexpr.AllowedByManual | lua/lparser.go:508-522 | a tree is allowed by the priorities if and only if between any two operators the operand belongs to the one that section 3.4.8 of the manual says, from its groups alone |
| Subexpr.ParsedByManual | lua/lparser.go:524-548 | all tokens are parsed as a tree if and only if they are its tokens, it is grouped so, and it is not too deep |
| Subexpr.TwoOperators | lua/lparser.go:508-520 | `x op y q z` is grouped to the right if and only if q is stronger, or both are `..` or both `^` |
| Subexpr.UnaryAndBinary | lua/lparser.go:522 | a unary operator takes the operand from every binary one but `^`, and stands after any |
| Subexpr.ClimbSound | lua/lparser.go:524-548 | whatever is parsed is written there, allowed, and ends where it must |
| Subexpr.Parser.SubExpr | lua/lparser.go:524-548 | the loop with its recursion, level counter and look-ahead operator computes that function |
| Scope.Compiler.SingleVarAux | lua/lparser_codegen.go:286-307 | a name at any depth resolves to its innermost visible declaration: the descriptors lead there, exactly the functions between get an upvalue unless they have one, the declaring block is marked, nothing else changes; it fails only where an upvalue list is full |
| Scope.Compiler.SearchVar | lua/lparser_codegen.go:249-262 | the innermost active variable of the name |
| Scope.Compiler.SearchUpvalue | lua/lparser_codegen.go:211-218 | the first upvalue of the name |
| Scope.Compiler.NewUpvalue | lua/lparser_codegen.go:231-245 | one descriptor more, for what the enclosing function found, and the invariant kept |
| Scope.Compiler.MarkUpval | lua/lparser_codegen.go:266-273 | exactly the block that declares the variable is marked |
| Scope.RegistersInOrder | lua/lparser_codegen.go:107-116 | the active variables of a function that are not compile-time constants have strictly increasing registers, and the number of those below any level parts them |
| Scope.Compiler.RegLevel | lua/lparser_codegen.go:107-116 | the number of variables below the level that are not compile-time constants; it is above the registers of these, and not above those of the rest |
| Scope.Compiler.NewLocalVar | lua/lparser_codegen.go:132-147 | one more variable, not yet active, if and only if there is room |
| Scope.Compiler.AdjustLocalVar | lua/lparser_codegen.go:159-170 | the variable becomes active in a register above those of all active variables, whose number it is |
| Scope.Compiler.AdjustConstant | lua/lparser.go:942-947 | the variable becomes active as a compile-time constant, without a register |
| Scope.Compiler.EnterBlock | lua/lparser_codegen.go:435-444 | a block that declares the variables to come, unmarked |
| Scope.Compiler.LeaveBlock | lua/lparser_codegen.go:446-465 | the block's variables go; if any is captured the block is closed, from a register at or below all of them, and above those of all variables that stay active |
| Scope.Compiler.OpenFunc | lua/lparser_codegen.go:491-503 | a new innermost function without variables or upvalues |
| Scope.Compiler.CloseFunc | lua/lparser_codegen.go:507-513 | its descriptors are right for the function around it, in which they will be used |
| Scope.ChaseMeans | lua/lparser_codegen.go:286-307 | in every reachable state every upvalue's chain ends at the register of the declaration that its name means |
| Scope.ClosureFollows | lua/lvm.go:515-526 | in nested frames, the closure's upvalue is the one at the end of the descriptors |
| Scope.NameAtRunTime | lua/lvm.go:515-526 | every upvalue of every closure aliases the slot of the variable that its name means |
| Closures.PushClosure | lua/lvm.go:515-526 | on the list of open upvalues: each upvalue of the new closure is the one for the stack slot or that of the enclosing closure, made only if there is none |
| Closures.ChainKept | lua/lvm.go:515-526 | after any uses of upvalues and slots, closings and calls of new closures, the upvalues of the active closures are wired as their descriptors say |
| Closures.NameIsVariable | lua/lvm.go:515-526 | after any such run, what a closure reads and writes under a name is the cell of the variable, or of the outer upvalue, that the name means |
| Closures.Play | lua/ldo.go:292-315 | the runtime with its open list gives every such run the outputs of the cells |
| Upvalues.Run | lua/ldo.go:292-315 | every sequence of slot writes, captures, reads, writes and closes gives the outputs of one cell per variable |
| Upvalues.Do | lua/lfunc.go:54-85 | each operation keeps the representation of the cells |
| Upvalues.Upvalue.Get | lua/lfunc.go:63-68 | the slot if open, the own value if closed |
| Upvalues.Upvalue.Set | lua/lfunc.go:70-76 | exactly the slot, or exactly the own value, is written |
| Upvalues.Upvalue.Detach | lua/lfunc.go:80-85 | the value at the moment of closing is kept |
| Upvalues.State.FindUpval | lua/ldo.go:292-301 | the one open upvalue of the slot, made only if there is none |
| Upvalues.State.CloseUpvals | lua/ldo.go:305-315 | the in-place filter keeps exactly those below the level, in order, and closes the others with their values |
| Pattern.MovesLead | lua/lstrlib_pattern.go:253-337 | the tries of one pattern item are exactly the moves that the item allows |
| Pattern.HitsAreMatches | lua/lstrlib_pattern.go:253-337 | the ends that backtracking can find, and the panics and malformed items it can come to, are exactly those of the declarative relation |
| Pattern.MatchesForward | lua/lstrlib_pattern.go:253-337 | every match ends within the subject, not before its start |
| Pattern.BalanceEven | lua/lstrlib_pattern.go:154-174 | the balanced text ends at the first place with as many closings as openings, counted from its start, if there is one |
| Pattern.BalanceSame | lua/lstrlib_pattern.go:154-174 | with one delimiter for both it ends at the next one |
| PatternManual.Classes | lua/lstrlib_pattern.go:67-111 | the characters of each class, of its complement, and of an escaped character that is no class |
| PatternManual.SetIsUnion | lua/lstrlib_pattern.go:113-135 | a set holds exactly what the characters, ranges and classes that it lists hold |
| PatternManual.SetEnds | lua/lstrlib_pattern.go:34-65 | a set ends with the first bracket after its first character that is not escaped |
| PatternManual.WordFrontier | lua/lstrlib_pattern.go:274-297 | `%f[%w]` holds exactly where a word begins, `%f[%W]` exactly where one ends, the ends of the subject included |
| PatternManual.TextMatches | lua/lstrlib_pattern.go:253-337 | a pattern without special characters matches itself and nothing else |
| PatternManual.Repetitions | lua/lstrlib_pattern.go:176-201 | which match comes first for each suffix, from the length of the run |
| PatternManual.DotAndDollar | lua/lstrlib_pattern.go:137-152 | the dot matches any character, the dollar at the end of the pattern the end of the subject |
| PatternManual.NestedCaptures | lua/lstrlib_pattern.go:203-235 | `((x)y)`: captures are numbered by their left parentheses and hold the text up to their right ones |
| PatternManual.RepeatedCapture | lua/lstrlib_pattern.go:237-247 | `(x)%1` matches x twice |
| PatternManual.PlainSound | lua/lstrlib_pattern.go:34-65 | a pattern without parentheses, escapes and sets is not malformed |
| PatternManual.MalformedPatterns | lua/lstrlib_pattern.go:34-65 | patterns that end too early, or close or refer to what is not there, are |
| Matcher.MatchState.Match | lua/lstrlib_pattern.go:253-337 | a returned end and its captures are the first alternative; failure means there is none, and level and captures are restored; it panics or raises only if the first alternative is a panic or a malformed item, and is given up only for a pattern longer than the depth left |
| Matcher.MatchState.MaxExpand | lua/lstrlib_pattern.go:176-188 | the longest repetition after which the rest matches |
| Matcher.MatchState.MinExpand | lua/lstrlib_pattern.go:190-201 | the shortest one |
| Matcher.MatchState.StartCapture | lua/lstrlib_pattern.go:203-216 | the rest matched with one capture more, which is dropped on failure |
| Matcher.MatchState.EndCapture | lua/lstrlib_pattern.go:218-235 | the rest matched with the last open capture closed, which is opened again on failure |
| Matcher.MatchState.FindClassEnd | lua/lstrlib_pattern.go:34-65 | where the item ends, or that it is malformed |
| Matcher.MatchState.MatchBracketClass | lua/lstrlib_pattern.go:113-135 | membership in the set, complemented or not |
| Matcher.MatchState.MatchBalance | lua/lstrlib_pattern.go:154-174 | the end of the balanced text: the first place with as many closings as openings |
| Matcher.MatchState.InlineReference | lua/lstrlib_pattern.go:237-247 | a back-reference goes on after the text of its capture exactly if that text is next; it raises if and only if there is no such closed capture, and panics if and only if that is a position capture |
| Gsub.Attempt | lua/lstrlib_pattern.go:525-589 | one attempt from the outside: sound, complete, first; it panics or raises if and only if backtracking comes to a panic or a malformed item first, so not if no reference is to a position capture, and not if the pattern is sound; it is given up only for a pattern too long for the depth limit |
| Matcher.SoundMove | lua/lstrlib_pattern.go:253-337 | past an item that is not malformed the pattern is sound if and only if it was before it |
| Matcher.SoundNeverBreaks | lua/lstrlib_pattern.go:253-337 | matching a sound pattern never comes to a malformed item, on any subject |
| Gsub.FreeOfPanic | lua/lstrlib_pattern.go:237-247 | a pattern in which no back-reference can name a position capture has no panic among its alternatives, on any subject |
| Gsub.NoPositionCaptures | lua/lstrlib_pattern.go:203-216 | a pattern without an empty pair of parentheses is such a pattern |
| Gsub.PositionReference | lua/lstrlib_pattern.go:237-247 | the pattern `()%1` is sound, and a panic is its only alternative, on any subject at any place |
| Gsub.CrashExample | lua/lstrlib_pattern.go:237-247 | an attempt with it panics |
| Gsub.Substitute | lua/lstrlib_pattern.go:525-589 | it ends, done, failed or panicking, exactly as the first thing that the scan comes to says: no trouble, a malformed item, a refused replacement or a panic; done, the replaced matches are those of the scan, left to right, disjoint, each the first at its place, and the output is the subject with their texts; only a pattern too long for the depth limit may fail besides |
| Gsub.SubstituteCrashes | lua/lstrlib_pattern.go:525-589 | gsub with the pattern `()%1` panics on every subject |
| Gsub.Round | lua/lstrlib_pattern.go:525-589 | each turn of the loop moves on, or stays once with an empty match; what it has replaced, and what is still to come, remain those of the scan |
| Gsub.ScanOrdered | lua/lstrlib_pattern.go:525-589 | the matches of a scan are in order, disjoint and at most as many as asked for |
| Gsub.ScanFirst | lua/lstrlib_pattern.go:525-589 | each of them is what an attempt at that place finds |
| Gsub.ScanMissesNone | lua/lstrlib_pattern.go:525-589 | no place that the scan passes over, before, between or after its matches, has a match other than an empty one where the last one ended; with an anchor it looks only at the start |
| Gsub.IdentityReplaced | lua/lstrlib_pattern.go:595-637 | replacing every match by itself gives the subject |
| Dump.DumpWriter.DumpProto | lua/ldump.go:302-316 | what has been written is the chunk of the prototype, or the sticky error |
| Dump.DumpWriter.Function | lua/ldump.go:247-297 | the bytes of a function and its nested ones, with the source left out where it is the parent's |
| Dump.DumpWriter.SizeOf | lua/ldump.go:118-134 | the number in groups of seven bits, the last one marked |
| Dump.CompressLines | lua/ldump.go:186-211 | line deltas and absolute entries as the format defines them |
| Chunk.TagIsVariant | lua/ldump.go:57-65 | the tags of constants are the numbers of their types with those of their variants |
| Chunk.InstructionFields | lua/lopcodes.go:55-123 | opcode and Bx are what an instruction is put together from |
| Chunk.WordWorth | lua/ldump.go:85-114 | words are written least significant byte first |
| Chunk.HeaderNumbers | lua/ldump.go:35-42 | the check number has the bits of 370.5; the other numbers of the header |
| Chunk.DeltaIsSigned | lua/ldump.go:186-211 | a line delta is a signed byte |
| Grammar.NumberPrinted | lua/ldump.go:118-134 | a written number is read as itself if and only if it is below the limit, and is malformed otherwise |
| Grammar.LinesBack | lua/ldump.go:186-211 | what compressLines writes is accepted and gives the lines |
| Grammar.ProtoRead | lua/ldump.go:247-297 | the printed form of a function within the limits, inherited source and nested functions included, stands for what loading gives back, whatever follows |
| Grammar.ProtosGiven | lua/ldump.go:531-619 | whatever bytes stand for a function, its code, counts and depth are valid, and so are those of the functions in it |
| Grammar.ChunkRead | lua/ldump.go:302-316 | a dumped chunk stands for its prototype, whatever follows it, unless it has more than 255 upvalues; then it is malformed |
| Grammar.ChunkGiven | lua/ldump.go:623-641 | whatever bytes stand for a chunk, its prototype is valid, with at most 255 upvalues |
| Undump.DecompressLines | lua/ldump.go:463-483 | for any deltas and entries: accepted if and only if every marker has the next entry and no entry is left, and then each line is its entry's, or the line before and the delta |
| Undump.UndumpReader.SizeOf | lua/ldump.go:360-378 | from any bytes: a number is read if and only if they begin with groups that end in a marked one and do not pass the limit, and then it is the number of these groups; malformed if and only if they pass it with more to come, else truncated |
| Undump.UndumpReader.Function | lua/ldump.go:531-600 | from any bytes, at any depth: the function that the grammar says they begin with, and what follows untouched; or the first error, truncated or malformed |
| Undump.UndumpReader.Validate | lua/ldump.go:605-619 | accepted if and only if all opcodes and closure indices are valid |
| Undump.Load | lua/ldump.go:623-641 | from any bytes: loaded if and only if they stand for a chunk by the grammar, as the prototype that they stand for, and otherwise refused with the grammar's error |
| ChunkRoundTrip.RoundTrip | lua/ldump.go:302-316 | dumping and loading gives the prototype, without debug information if stripped; unchanged if and only if no source is empty |
| ChunkRoundTrip.Reload | lua/ldump.go:623-641 | whatever loads, from any bytes, can be dumped and loads back as it is, or without debug information if stripped; unstripped, if its lines are within the range of the format |
| ChunkRoundTrip.Print | lua/ldump.go:85-114 | the chunk is written if and only if there is room for it |
| Chunk.LoadedSame | lua/ldump.go:531-600 | loading changes nothing if and only if no source in the tree is empty |
| Chunk.AcceptedFits | lua/ldump.go:302-316 | every accepted prototype fits the printer and is unchanged by it |
| Tables.SetRefines | lua/ltable.go:240-332 | storing keeps the invariants (unique key list equal to the hash's domain, normalised keys, no live key within or just after the array in the hash) and is the update of a finite map, nil deleting |
| Tables.KeyNorm | lua/ltable.go:107-131 | every value but nil and NaN is a key |
| Tables.SameKey | lua/ltable.go:107-131 | two values are the same key if and only if they are raw-equal; an integer and a float of the same value are the integer |
| Tables.FoundLast | lua/ltable.go:161-284 | the map holds the value of the last assignment to a raw-equal key |
| Tables.Assignments | lua/ltable.go:161-284 | after every sequence of assignments every key reads as the value of the last assignment whose key is raw-equal to it, or nil |
| Tables.Table.RawGet | lua/ltable.go:161-189 | the map's value for the normalised key |
| Tables.Table.RawSet | lua/ltable.go:240-260 | the map's update, in place |
| Tables.Table.AbsorbFromHash | lua/ltable.go:288-301 | keys move from the hash to the array while the next one is live |
| Tables.Table.Length | lua/ltable.go:336-378 | always a border: by bisection in the array, else by doubling and bisection, or by counting, in the hash; of a valid table it is at most the size of the array |
| Tables.Table.Next | lua/ltable.go:383-406 | the first live key after the given one's place; found if and only if the key has one, dead keys included |
| Tables.Traverse | lua/ltable.go:383-453 | with existing fields overwritten or cleared between steps, every key that stays live is visited, none twice, and it ends |
| Tables.ShortcutAgrees | lua/lvm.go:89-152 | the shortcut of settable and the general path give the same table or the same error, including the cap |
| Tables.ShortcutNeedsClear | lua/lvm.go:89-132 | without the invariant on the key after the array they would differ |
| Tables.Settable | lua/lvm.go:89-132 | the assignment as the general path defines it |
| Coroutine.StepKeeps | lua/lcorolib.go:128-257 | every enabled step of resume, yield, return, error, promotion and channel hand-over keeps the invariant |
| Coroutine.RunKeeps | lua/lcorolib.go:128-312 | so does every run |
| Coroutine.OneRunning | lua/lcorolib.go:128-152 | after every run exactly one thread is running, and the normal ones are exactly the chain of resumers from the main thread to it |
| Coroutine.DeadForever | lua/lcorolib.go:94-123 | a dead thread stays dead and never runs |
| Coroutine.NoDeadlock | lua/lcorolib.go:221-257 | the running thread runs, or a hand-over step is enabled |
| Coroutine.ChainBound | lua/lcorolib.go:128-152 | the chain is never longer than the C-call limit allows |
| Coroutine.TakesEffect | lua/lcorolib.go:128-152 | a resume takes effect if and only if the thread is neither dead nor in the chain, within the C-call limit, a close if and only if it is not in the chain |
| Coroutine.StepRefines | lua/lcorolib.go:157-239 | synchronous, promoted or on channels, each step is the step of plain resume and yield that its action and the message under way determine, with its value, or none |
| Coroutine.RunRefines | lua/lcorolib.go:128-312 | every run is a run of plain resume and yield, with the same threads, states and values given |
| Coroutine.ValuesPassed | lua/lcorolib.go:128-312 | from the start, after every run, while a thread executes its own code, every thread holds the value that plain resume and yield last gave it, and the same thread runs and the same ones are dead |
| Sort.AuxSort | lua/ltablib.go:167-194 | for any comparator a permutation within the range, or an error; for a strict weak order no error and sorted; recursion depth at most the binary logarithm of the size |
| Sort.ByKeys | lua/ltablib.go:167-194 | orders by a key, and by a second one among equals, are such orders |
| Sort.Partition | lua/ltablib.go:198-223 | stays in range for any comparator; for a strict weak order splits the range at the pivot |
| Sort.ScanUp | lua/ltablib.go:198-223 | stops within the range or raises; passes only elements not above the pivot |
| Sort.ScanDown | lua/ltablib.go:198-223 | stops within the range or raises; passes only elements not below the pivot |
| Sort.Round | lua/ltablib.go:167-194 | one turn of the loop: sorted, or split with both sides smaller |
| Sort.RecurseSmaller | lua/ltablib.go:167-194 | the shorter side is sorted by recursion, to a depth at most the binary logarithm of both sides together |
| ForLoop.IntegerFor | lua/lvm.go:436-491 | the loop runs exactly for the values that do not pass the limit, in order, for all 64-bit starts and steps, the limit a number or a string that denotes one |
| ForLoop.LimitExact | lua/lvm.go:389-432 | the clipped integer limit admits exactly the integers that the limit does |
| ForLoop.CountExact | lua/lvm.go:436-491 | the unsigned count, computed with wrap-around, is the number of further iterations |
| ForLoop.Iterate | lua/lvm_execute.go:466-484 | counting down, the index takes the values start + k * step and never wraps |
| ForLoop.NaNLimit | lua/lvm.go:411-432 | with limit NaN and a negative step it does not |
| PackFormat.GetNum | lua/lstrlib_pack.go:47-64 | the number at the index, or the default |
| PackFormat.NumExact | lua/lstrlib_pack.go:47-64 | that number never passes the maximum size, and stops only where one more digit could |
| PackFormat.DecimalDigits | lua/lstrlib_pack.go:47-64 | numbers are decimal |
| PackFormat.IntegerOptions | lua/lstrlib_pack.go:74-132 | the integer options and the sizes of their types |
| PackFormat.OtherOptions | lua/lstrlib_pack.go:74-132 | floats, zero-terminated strings, padding and alignment; any other character is an error |
| PackFormat.OrderOptions | lua/lstrlib_pack.go:74-132 | the byte order from there on |
| PackFormat.SizedOptions | lua/lstrlib_pack.go:74-132 | the options with a number after them: limits and defaults |
| PackFormat.AlignOptions | lua/lstrlib_pack.go:134-158 | X takes the alignment of the option after it, which is taken away, or is an error |
| PackFormat.PackHeader.GetOption | lua/lstrlib_pack.go:74-132 | the option, its size, and the header after it, or an error |
| PackFormat.PackHeader.GetDetails | lua/lstrlib_pack.go:134-158 | the option with its padding, X included |
| PackFormat.PadAligns | lua/lstrlib_pack.go:134-158 | the padding is the least that brings the item to a multiple of its alignment |
| Binary.PackInt | lua/lstrlib_pack.go:168-181 | bytes that are worth the number modulo 256 to their count, read from the right if little-endian and from the left if big-endian, for 1 to 16 bytes and more |
| Binary.UnpackInt | lua/lstrlib_pack.go:183-210 | the 64-bit integer that stands for what the bytes are worth, signed or unsigned, or the error if and only if there is none |
| Binary.OrderedWorth | lua/lstrlib_pack.go:160-165 | bytes put in either order are worth what their digits are |
| Binary.UnpackedStands | lua/lstrlib_pack.go:183-210 | what is read stands for what the bytes are worth, modulo 256 to their count |
| Binary.FitsRange | lua/lstrlib_pack.go:212-285 | an integer fits fewer than eight bytes if and only if it is in the range of the type |
| Binary.WordDecoded | lua/lstrlib_pack.go:168-210 | what is stored is what is read, signed and unsigned |
| Binary.DecodedWord | lua/lstrlib_pack.go:183-210 | bytes that can be read are the bytes stored for the result |
| Pack.RoundTrip | lua/lstrlib_pack.go:212-344 | whatever string.pack accepts, string.unpack gives back as its options took it, and then the position after it, whatever follows |
| Pack.Repack | lua/lstrlib_pack.go:212-344 | whatever string.unpack reads, string.pack accepts, takes as it is, and stores in as many bytes |
| Pack.PackSizeExact | lua/lstrlib_pack.go:354-372 | for what string.pack accepts, packsize is the packed length, unless the format has an s or z option or the length passes the maximum |
| Pack.TakenAsGiven | lua/lstrlib_pack.go:212-285 | an argument of the option's own type is carried unchanged |
| Pack.WrittenWorth | lua/lstrlib_pack.go:212-285 | what the bytes of integers, floats and length prefixes are worth, in the order of the option |
| Pack.WrittenText | lua/lstrlib_pack.go:212-285 | characters are filled up with zeros, a zero-terminated string has one zero, its last byte |
| Pack.ReadWorth | lua/lstrlib_pack.go:287-344 | an integer is read if and only if the bytes stand for one, and is that |
| Pack.FloatWorth | lua/lstrlib_pack.go:287-344 | the bits of a float are what its bytes are worth |
| Pack.OrderExample | lua/lstrlib_pack.go:212-285 | `<I2` packs 1 as 1, 0 and `>I2` as 0, 1 |
| Pack.StringExact | lua/lstrlib_pack.go:287-344 | a length-prefixed string is read if and only if it is all there; it crashes if and only if the length is from 2^63 to 2^64 - 1 |
| Pack.CrashExact | lua/lstrlib_pack.go:287-344 | string.unpack panics if and only if, after options that can be read, it comes to a string whose length is from 2^63 to 2^64 - 1 |
| Pack.CrashExample | lua/lstrlib_pack.go:287-344 | it does for the format s8 and eight bytes 255 |
| Pack.NeverCrashes | lua/lstrlib_pack.go:287-344 | with length prefixes of fewer than eight bytes, no data crashes |
| PackLib.PackString | lua/lstrlib_pack.go:212-285 | the loop computes the packed string, or raises where it should |
| PackLib.UnpackString | lua/lstrlib_pack.go:287-344 | the loop computes the values and the end, from any initial position |
| PackLib.PackSize | lua/lstrlib_pack.go:354-372 | the loop computes the size, or raises where it should |
| Quote.RoundTrip | lua/lstrlib.go:463-486 | lexing the quoted form of any byte string, followed by anything, gives it back |
| Quote.AddQuoted | lua/lstrlib.go:463-486 | the quoted form, with three digits for a control byte before a digit |
| Quote.LexState.ReadString | lua/llex.go:397-455 | for any input: the string that the literal denotes, what follows its delimiter and the lines counted, or an error if and only if it denotes nothing |
| Quote.LiteralQuoted | lua/lstrlib.go:463-486 | the quoted form, followed by anything, is a literal that denotes the string |
| QuoteManual.SimpleEscapes | lua/llex.go:397-455 | what each escape of one character denotes; unknown ones are errors |
| QuoteManual.OtherEscapes | lua/llex.go:397-455 | the other escapes by their first character |
| QuoteManual.HexDigits | lua/llex.go:119-138 | the hexadecimal digits and their values, in either case |
| QuoteManual.HexByte | lua/llex.go:334-345 | `\x` and two digits denote the byte |
| QuoteManual.DecimalByte | lua/llex.go:373-383 | up to three digits are decimal |
| QuoteManual.Utf8ByManual | lua/lutf8lib.go:28-48 | the first byte tells how many there are, the payloads put together are the number, and no fewer would do |
| QuoteManual.LineEnds | lua/llex.go:200-213 | a line end is one newline or carriage return, or both in either order |
| QuoteManual.SpacesSkipped | lua/llex.go:397-455 | `\z` skips everything up to the first character that is no space |
| QuoteManual.QuotedShown | lua/lstrlib.go:463-486 | the quoted form has no control character but the newline |
| Quote.LexState.ReadUtf8Esc | lua/llex.go:347-371 | the number in braces, in any number of digits, if and only if it is well formed and below 2^31 |
| Quote.Utf8Esc | lua/lutf8lib.go:28-48 | the UTF-8 sequence of one to six bytes, built from its last byte |
| Quote.LexState.ReadDecEsc | lua/llex.go:373-383 | the value of at most three digits, and no more of the input |
| Quote.LexState.IncLineNumber | lua/llex.go:200-213 | one line end, of one or two bytes |

## Left out

- Compiler.CompileFunction: expressions of locals, constants, `not`, `and`, `or` and comparisons, assigned to locals; no calls, indexing, arithmetic, folding, globals or upvalues in the compiled fragment.
- Compiler.StoreLocal: the case of a local variable; stores to upvalues and indexed places are not modelled.
- Compiler.WatchedBlock: a comparison of the host depends on its operands only; what else it may change is not seen.
- Parse.SubExpr: operand tokens stand for constants and locals; what may follow a parenthesis (calls, indexing) is not modelled.
- Floats in the compiler, table and loop models are extended reals, so that -0.0 and 0.0 are the same; in chunks and `string.pack` they are 64-bit words.
- Finish.FinishJumps: the rewriting of RETURN and TAILCALL flags in the same pass.
- Subexpr.ParseExact: calls, indexing, constructors and function bodies, which are single operand tokens here.
- Scope.Compiler.LeaveBlock: goto, break and labels, and the CLOSE and JMP instructions that are emitted; to-be-closed variables.
- Scope.NameAtRunTime: the frames are values; `Closures` joins it with the open list of `Upvalues`.
- Closures.NameIsVariable: the activations are those of the nested functions around the innermost one, each entered once and not left; other functions at work are seen only as uses of slots and closings.
- Matcher.MatchState.Match: the depth limit is an error outside the matching relation; which of the longer patterns come to it is not stated.
- Gsub.Substitute: how captures become values for the replacement (pushCaptures, oneCapture, the replacement string's own escapes); the replacement is any function of the match and its captures.
- string.find, string.match and string.gmatch: they use the same attempt.
- Tables.Table.Length: indices in the search beyond the array are unbounded integers, where the code's can wrap around; of a valid table the search never gets there.
- Tables: weak tables, metatables and iteration by lightweight caches.
- Coroutine.StepKeeps: a step system on values, for goroutines and channels; to-be-closed variables, closing handlers, panics of Go functions, and the re-execution of the instruction that triggers promotion.
- Sort.AuxSort: the comparator is any function of its two arguments and the number of the call; reading and writing the table around the sort.
- ForLoop.IntegerFor: the conversion of a string to a number is a parameter; loops over floats.
- Pack.RoundTrip: sizes and offsets are unbounded integers, where the code has 64-bit ones; a packed string that long does not fit in memory.
- Pack.Repack: with the f option, only for a host on which widening a single float and narrowing it again changes nothing.
- Quote.LexState.ReadString: what is left in the buffer, for the message, after an error.
- Quote.RoundTrip: for strings with fewer line ends than the lexer's line limit.
- Bit packing of instructions, debug hooks, error messages, garbage collection, input and output, the debugger and the command line.
