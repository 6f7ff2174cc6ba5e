# Proofs about a WebAssembly toolkit

This project models the parts of the toolkit that are hardest to get right and proves what they
promise. Every file is Dafny 4.11; `dafny verify dfyconfig.toml` checks all of it.

**Compiling to C** (`Wasm`, `Validation`, `Typing`, `CLang`, `CCompile`, `CSimulation`, `CRefinement`,
`CTheorem`, `CRename`, `CWriter`, `CModule`, `Symbols`, `COperators`). `Wasm` gives the instructions the C
writer supports an execution semantics, `Validation` checks types with a stack, as the tool does, and accepts
whatever the typing rules of the specification do (`Typing`), `CLang` gives the C subset that is emitted
(assignments, `goto`, `if`, `switch`, calls) its own semantics. `CCompile` says what code is emitted,
with symbolic variables: slot `k` of type `t` is the variable `(k, t)`. `CTheorem.SimFunc` is the
simulation: for every validated function, every operator meaning, every input and every amount of
fuel the C code ends with the same results, trap, globals and memory. `CWriter` is the writer itself,
a class that updates its type stack, label stack and symbol maps and emits C with real identifiers;
`CRename` shows that identifiers chosen injectively change no run. `CModule.WriteModule` puts it
together for whole modules: imports and exports are declared under the symbols they link with, which
`Mangling` spells out character by character, and no other identifier is one of these or reserved.
`COperators` evaluates the C text of every operator on integers, casts, shift masks and macros included, and
finds what the specification says the operator does.

**Names** (`References`, `Names`, `Pipeline`, `SharedNames`). Generating names and replacing indices by
them keeps what every branch, call and variable access refers to. `Pipeline.WasmToC` runs naming and the
C writer on a module as it was loaded, with its imports, exports and given names, and proves that the C
program runs as that module does; `Pipeline.WritableExactly` says for which modules that is possible, and
`SharedNames` what a caller can check for it.

**Decompiling** (`DecompilerTree`, `DecompilerListing`, `DecompilerSim`, `DecompilerAst`). The
builder of expression trees, with flushing to temporaries and rotation of statements. The tree it
returns ends every run as the function does and holds the same instructions in the same order, apart
from constants.

**The binary format** (`Leb128`, `BinaryFormat`, `BinaryCodec`, `BinaryReading`, `BinaryWriter`,
`CodeSection`, `SectionReader`, `FileRoundTrip`, `DataCount`). `BinaryFormat` is the format of instructions as
a relation between trees and bytes, with the bytes written out; numbers are those of section 5.2.2 of the
WebAssembly Core Specification. What the writer writes is in the format, and the reader, with its stack of
labels, accepts exactly what is, and a little more. Around it the stream with in-place size fixups and section
removal, the code section, and the reader's walk over the sections, whose order is a sequence of codes.
Alignments survive if and only if they are powers of two, which the text parser and the validator demand. With
failing custom sections tolerated, one that is read without an error but not to its end is still refused
(src/binary-reader.cc:2466-2470).

**Literals** (`Uint128`, `Powers`, `HexFloat`, `HexMeaning`, `HexExact`, `HexNumbers`, `HexRounding`). 128-bit
decimals on four limbs. Hexadecimal floats of both widths: `HexMeaning` says what a literal denotes and what
bits mean, apart from the code; what is printed denotes the bits, and what is parsed is denoted, for every
literal that needs no rounding, whatever its digits, underscores, dot and exponent look like.

**Helpers** (`ExprVisitor`, `IntrusiveList`, `LineFinder`): stateful code with a simple specification.

Operators on numbers, memory accesses, the table, host functions and the addresses of globals are
parameters of the semantics (`Wasm.Sem`), the same ones on both sides of every theorem. What is imported
twice is one thing: linking by symbols makes it so (`CModule.Linked`). Fuel makes runs total; a branch back to a
loop and a call cost one unit on both sides, so that the theorems for all amounts of fuel cover
diverging runs too.

## What turned out not to hold

Each property below is false of the code at the input given, and true exactly under the condition given.

- A function and a global imported from the same module and field both get the name "$module.field"
  (`SharedNames.SharedByImports`), and so do two from places whose names agree up to a NUL, as outside names
  are passed on as C strings (`SharedNames.SharedByNul`). The C writer has one map for both, where `insert`
  keeps the first entry, so that `global.get` is written with the function's symbol (`CModule.SharedName`).
  Every entity is found under its own symbol if and only if all names differ and imports with the same
  symbol are the same (`CModule.SymbolsRight`, `Pipeline.WritableExactly`). Memories and tables are in that
  map too. `SharedNames.NothingShared` gives a condition on the given names, imports and exports alone.
- Mangled import symbols do not tell all signatures apart (`Mangling.TwoResultsClash`; an import's results
  are not counted, src/c-writer.cc:775-781), nor a memory from a table. Two signatures share a symbol if and
  only if both have results and parameters and the same types in a row (`Mangling.SignatureTexts`); a
  signature is unique if and only if it has no results, no parameters, or one of each
  (`Mangling.UniqueExactly`).
- The identifiers of exports are not entered into the set of those taken, and can be those of imports: a
  memory imported as "foo" "vv" and a function exported as "foo" that takes and gives nothing
  (`Mangling.MemoryIsExport`). `Mangling.ImportIsExport` says exactly when. A function called
  "$Z_fooZ_vv" has that identifier as well (`CModule.DefinitionIsExport`); `CModule.ExportsApart` says that
  the identifiers differ otherwise.
- Labels that a program gave itself can capture a branch: the name generated for an inner block can be
  the given name of an outer one, and names are searched from the inside. `ApplyNames.GivenLabelCaptures`
  is a body that ends normally before and traps after. References are kept if and only if no branch has a
  label of its target's name between itself and the target (`ApplyNames.BodyKeptExactly`).
- `ParseUint128` accepts some numbers of 2^128 and more and returns others (`Uint128.AcceptedAsAnother`,
  `Uint128.WrapsSilently`). It returns the number of a digit string if and only if that is below 2^128
  (`Uint128.ExactlyBelowLimit`); whatever it accepts, it returns modulo 2^128 (`Uint128.ParsedModulo`).
- Bodies whose last lists are not closed are accepted: the first `end` behind them is taken for the function's
  (`BinaryReading.UnclosedBlock`: 02 40 0b; src/binary-reader-ir.cc:995-999). `BinaryReading.TreeExactly` says
  what is accepted, and `BinaryReading.BodyExactly` that no label is left open if and only if the body is in the
  format.
- Hexadecimal floats can be read as other numbers than they denote, since the loop over the exponent stops once
  what it has read, less the digits of the significand, is too large (src/literal.cc:325-337): a
  single-precision literal for 2^-142 with 33 digits behind the dot (`HexRounding.CutChangesValue`), and
  0x1p-1280, which is read as 2^-128 (`HexRounding.TooSmallIsRead`). A number that needs no rounding is read as
  itself if and only if it is zero, its exponent is, or the loop does not stop before the last digit
  (`HexNumbers.LiteralExactly`, `HexNumbers.Cut`).
- Rounding keeps the lower of two neighbours when it is even and more than half is dropped at once: 0x8.00000cp0
  is read as 8 (`HexRounding.MisroundedLiteral`). ShiftAndRoundToNearest rounds to nearest and ties to even if
  and only if that does not happen (`HexRounding.RoundsExactly`).
- The decompiler asks for more items than there are at the end of some functions with several results,
  such as one that consists of `unreachable` (`DecompilerSim.TooFewItems`, src/decompiler-ast.h:335-341).
  `DecompilerAst.AST.ConstructFunction` succeeds if and only if `DecompilerSim.ReturnFits`: no results, or
  `return` at the end, or at least as many items left as results, where the number of items is a function
  of the body.
- The decompiler's nodes for `br` and `br_if` do not take the values the branch carries
  (src/decompiler-ast.h:202-211), as in a block of type i32 with body `i32.const 1; br 0`. They do what the
  branch does if and only if it carries none (`DecompilerSim.CarriedLost`); a `br_table` takes its values.

## Model

| member | source | states |
|---|---|---|
| CTheorem.SimFunc | src/c-writer.cc:1268-1309 | for every valid function, all operator meanings, arguments, worlds and fuel: the C function and the wasm function end alike, and never with an undefined variable or label |
| CTheorem.SimExpr | src/c-writer.cc:1395-1686 | from matching states, the code of one instruction ends in matching states: every wasm slot equals its C variable, or the same branch, trap or return happens |
| CTheorem.SimList | src/c-writer.cc:1395-1400 | the same for lists of instructions, including that nothing after an unconditional branch is written |
| CTheorem.SimBlock | src/c-writer.cc:1402-1412 | a block: branches to it arrive behind its body with the carried value in the slot at its height |
| CTheorem.SimLoop | src/c-writer.cc:1568-1582 | a loop: branches to it go back to the label at the front, any number of times |
| CTheorem.SimIf | src/c-writer.cc:1525-1542 | both arms of an `if`, and one without `else` |
| CTheorem.SimBr | src/c-writer.cc:1414-1417 | an unconditional branch from any nesting depth |
| CTheorem.SimBrIf | src/c-writer.cc:1419-1423 | a conditional branch, taken and not taken |
| CTheorem.SimBrTable | src/c-writer.cc:1425-1438 | a branch table as a `switch`, default included |
| CTheorem.SimCall | src/c-writer.cc:1440-1462 | a call: arguments from their slots, the result into its slot |
| CTheorem.SimCallIndirect | src/c-writer.cc:1464-1490 | an indirect call, with the traps for a missing entry and a wrong type |
| Typing.TypedIsValid | src/type-checker.cc:345-725 | every function that is well-typed by the rules of section 3.3 of the WebAssembly Core Specification, dead code with its arbitrary types included, is accepted by the check the other theorems assume |
| COperators.OperatorText | src/c-writer.cc:1695-1928 | what is written for an operator on integers, evaluated as C, computes the operator, traps where it traps, and is never undefined |
| COperators.StatementText | src/c-writer.cc:1695-1708 | the statement made for such an operator, assignment operators included, does what its text does |
| CSimulation.SimSimple | src/c-writer.cc:1496-1667 | every instruction that becomes one statement |
| CSimulation.TypesAgree | src/c-writer.cc:388-427 | on validated code the writer's type stack is the typing of the operand stack at every point |
| CSimulation.CodeLabels | src/c-writer.cc:716-719 | the labels in emitted code are those of the source, each at most once when the source's are distinct |
| CRefinement.SimGoto | src/c-writer.cc:696-714 | the value move and the `goto` of a branch do what the branch does |
| CRefinement.Compose | src/c-writer.cc:1395-1400 | simulated pieces of code one after the other are simulated together |
| CRename.RenamedRun | src/c-writer.cc:657-742 | a program under chosen identifiers, of which only global names of the same import share one, runs as the program with symbolic variables |
| CRename.FuncAmong | src/c-writer.cc:581-594 | all variables and labels of a renamed function are among the identifiers that were chosen |
| CWriter.CWriter.WriteFunc | src/c-writer.cc:1268-1309 | what the writer emits is the specified code under an injective choice of identifiers that avoid all global symbols |
| CWriter.CWriter.WriteList | src/c-writer.cc:1395-1686 | the emitted statements are those of the list, the stacks end as specified, and no stack assertion can fail |
| CWriter.CWriter.WriteExpr | src/c-writer.cc:1395-1686 | the same for one instruction |
| CWriter.CWriter.WriteGoto | src/c-writer.cc:696-714 | marks the label as used and emits the move from the top slot to the slot at the label's height, then the jump |
| CWriter.CWriter.WriteNestedGoto | src/c-writer.cc:1419-1423 | a branch within an `if` or a `switch` arm |
| CWriter.CWriter.WriteBrTable | src/c-writer.cc:1425-1438 | one arm for each target and the default |
| CWriter.CWriter.WriteBlock | src/c-writer.cc:1402-1412 | resets the type stack to the label's height, pushes its results, and declares the label only if it is used |
| CWriter.CWriter.WriteLoop | src/c-writer.cc:1568-1582 | nothing for an empty loop, else the label before the body |
| CWriter.CWriter.WriteIf | src/c-writer.cc:1525-1542 | both arms, from the same type stack |
| CWriter.CWriter.WriteCall | src/c-writer.cc:1440-1462 | arguments deepest first, the result in the lowest argument's place |
| CWriter.CWriter.WriteCallIndirect | src/c-writer.cc:1464-1490 | the same through the table |
| CWriter.CWriter.FindLabel | src/c-writer.cc:429-450 | finds the innermost label of that name, or the function's own by index |
| CWriter.CWriter.PushLabel | src/c-writer.cc:415-427 | the label remembers the height of the type stack |
| CWriter.CWriter.ResetTypeStack | src/c-writer.cc:392-395 | cuts the type stack back to a mark below its height |
| CWriter.CWriter.DefineLocalScopeName | src/c-writer.cc:581-585 | a fresh identifier, recorded only if the name had none |
| CWriter.CWriter.SlotName | src/c-writer.cc:587-594 | one identifier for each slot and type, defined at first use, different from all others |
| CWriter.CWriter.StackVarName | src/c-writer.cc:726-742 | the identifier of the slot that many places below the top |
| CWriter.CWriter.WriteParams | src/c-writer.cc:1319-1336 | a fresh identifier for each parameter |
| CWriter.CWriter.WriteLocals | src/c-writer.cc:1338-1365 | a fresh identifier for each local, listed type by type, all of them |
| CModule.WriteModule | src/c-writer.cc:2308-2317 | the program written for a module whose entities have different names, and whose imports with the same symbol are the same, runs every function of it as the module does, for all inputs and every linking, and never goes wrong; every import is declared under its mangled symbol, everything else under identifiers that are not reserved, parameters, locals, slots and labels under ones that are neither; exports of every kind have their mangled identifiers and point to what they export |
| CModule.NameImports | src/c-writer.cc:912-966 | every import, memories and tables included, gets its mangled symbol; a name that is taken keeps the first import's |
| CModule.NameDefinitions | src/c-writer.cc:575-579 | every other function, global, memory and table gets a symbol no other has; a name that is taken keeps what it had |
| CModule.WriteFuncs | src/c-writer.cc:1258-1266 | every function is written with the module's symbols |
| CModule.SymbolsDiffer | src/c-writer.cc:565-573 | two imports have the same symbol if and only if they have the same module and field, and the same kind and type, clashing signatures, or are a memory and a table |
| CModule.SymbolsRight | src/c-writer.cc:565-579 | in the finished map every entity is found under its own symbol, and only the same imports share one, if and only if all names differ and imports with the same symbol are the same |
| CModule.SharedName | src/c-writer.cc:565-573 | where a function and a global have the same name, the name stands for the function's symbol and not for the global's |
| CModule.NamedRight | src/c-writer.cc:565-579 | an import has its mangled symbol, every other entity an identifier derived from its name that is not reserved |
| CModule.KindDeclared | src/c-writer.cc:657-694 | the functions, or globals, are declared under those identifiers, each under its own or that of one imported twice |
| CModule.ExportRight | src/c-writer.cc:1164-1234 | an exported function, global, memory or table, imported or not, is what its export points to |
| CModule.LocalsFree | src/c-writer.cc:862-866 | the identifiers within functions avoid the reserved ones and those of functions and globals |
| CModule.EnvAgrees | src/c-writer.cc:657-694 | the identifiers of functions and globals declare what their names refer to, or an import that linking makes the same |
| CModule.WriteExports | src/c-writer.cc:1164-1234 | every export gets its mangled identifier and the one of what it exports |
| CModule.ExportsApart | src/c-writer.cc:1164-1234 | identifiers of exports differ from each other, from those of imports but in one case, which is given exactly, and from those of definitions that do not look mangled |
| CModule.DefinitionIsExport | src/c-writer.cc:545-579 | a function of the module that is called "$Z_fooZ_vv" has the identifier of an export |
| Symbols.DefineName | src/c-writer.cc:545-563 | ends for every finite set of symbols and returns the first candidate that is not taken, a C identifier |
| Symbols.LegalizeName | src/c-writer.cc:532-543 | always a C identifier, and the name itself if it was one |
| Symbols.StrippedExactly | src/c-writer.cc:558-563 | one dollar sign is taken from the front of a name, if it is there |
| Symbols.CandidateInjective | src/c-writer.cc:549-557 | different counters give different candidates |
| Symbols.GetUniqueName | src/binary-reader-ir.cc:365-373 | ends for every finite table and returns the first of name, name.1, name.2, ... that is not in it |
| Mangling.MangleName | src/c-writer.cc:494-511 | the loop computes the escaped name |
| Mangling.MangledReadsBack | src/c-writer.cc:494-511 | a mangled name followed by anything that cannot be part of it determines the name |
| Mangling.EscapedExactly | src/c-writer.cc:494-511 | the escaped name, character by character: letters and digits but "Z" as they are, others as "Z" and two hexadecimal digits |
| Mangling.TypesExactly | src/c-writer.cc:472-492 | the letters of the types, and "v" for none |
| Mangling.SymbolExactly | src/c-writer.cc:513-525 | the symbol of an import, written out |
| Mangling.PrintSymbol | src/c-writer.cc:472-525 | "env" "print" with one i32 is "Z_envZ_printZ_vi" |
| Mangling.SignatureTexts | src/c-writer.cc:482-492 | two signatures have the same text if and only if they are equal, or all their lists are non-empty and the results followed by the parameters are the same |
| Mangling.UniqueExactly | src/c-writer.cc:482-492 | a signature shares its text with no other if and only if it has no results, no parameters, or one of each |
| Mangling.SignatureReadsBack | src/c-writer.cc:482-492 | mangled types are the same if and only if kind and type are, or both are clashing signatures |
| Mangling.ImportSymbolsEqual | src/c-writer.cc:472-525 | two import symbols are equal if and only if module and field are, and kind and type are, or both are clashing signatures, or they are a memory and a table |
| Mangling.ImportSymbolInjective | src/c-writer.cc:472-525 | the symbol determines module, field, kind and signature, whenever one signature is unambiguous or both have equally many or at most one result; a memory and a table share theirs |
| Mangling.TwoResultsClash | src/c-writer.cc:916-931 | two functions imported from the same place, with two results and with one, and the same symbol |
| Mangling.ExportSymbolsEqual | src/c-writer.cc:527-530 | two export symbols are equal if and only if the names are, and the kinds and types have the same mangled form |
| Mangling.ImportIsExport | src/c-writer.cc:1186-1188 | an import and an export have the same symbol if and only if the import is a memory or table whose module is the name of the exported function or global and whose field is the text of its type |
| Mangling.MemoryIsExport | src/c-writer.cc:942-957 | a memory imported as "foo" "vv" and a function exported as "foo" without parameters and results |
| References.SameRunFunc | src/apply-names.cc:127-136 | modules that differ only in how references are written run alike |
| References.SameValid | src/apply-names.cc:127-136 | and are valid alike |
| References.SameModuleTwice | src/apply-names.cc:462-487 | the relation composes |
| GenerateNames.Bindings.FreeName | src/generate-names.cc:153-167 | ends for every finite table and returns the first generated name that is not in it |
| GenerateNames.Bindings.NameAll | src/generate-names.cc:394-400 | every entity has a name afterwards, given ones are kept, names and indices stay in one-to-one correspondence |
| GenerateNames.Bindings.UseOutsideNames | src/generate-names.cc:178-194 | every entity with an outside name has a name afterwards; one that had none gets its first outside name up to a NUL, with a disambiguator if that is taken; no other name changes |
| GenerateNames.NamedOutside | src/generate-names.cc:283-392 | an entity with imports or exports has a name afterwards, and if it had none the first of them decides, as a C string |
| GenerateNames.DisambiguatorInjective | src/generate-names.cc:119-141 | different disambiguators give different names |
| GenerateNames.NameGenerator.VisitList | src/generate-names.cc:213-226 | labels are numbered in the order the traversal meets them, given ones are kept |
| GenerateNames.LabelsKeepRefs | src/generate-names.cc:213-236 | adding labels changes no reference by index |
| GenerateNames.LabelsNumbered | src/generate-names.cc:119-151 | in a body without labels the generated ones are pairwise different |
| ApplyNames.NameApplier.FindLabelByVar | src/apply-names.cc:110-125 | the name at that depth, or nothing when the depth is that of the function |
| ApplyNames.NameApplier.VisitList | src/apply-names.cc:228-246 | rewrites every reference as specified and leaves the label stack as it was |
| ApplyNames.NamesKeepRefs | src/apply-names.cc:294-322 | every reference by name denotes what its index denoted, and the only indices left are branches to the function's label |
| ApplyNames.BranchKept | src/apply-names.cc:110-136 | a branch by name to a label distinct from those inside it has the depth it had |
| ApplyNames.BranchKeptExactly | src/apply-names.cc:110-136 | a branch keeps its target if and only if no label further inside has that name |
| ApplyNames.BodyKeptExactly | src/apply-names.cc:110-246 | all references of an expression, nested bodies included, denote what they did if and only if no branch has a label of its target's name in between |
| ApplyNames.GivenLabelCaptures | src/generate-names.cc:143-151 | block "$B1" around a block that branches out of it: both passes rewrite the branch to the inner block, and the body that ended normally traps |
| Pipeline.GenerateModuleNames | src/generate-names.cc:402-422 | the named module has the names that imports, exports and numbers lead to, distinct in each kind, and given names and labels stay |
| Pipeline.GeneratedSame | src/generate-names.cc:402-422 | naming changes no reference |
| Pipeline.ApplyModuleNames | src/apply-names.cc:405-417 | every function's body is rewritten with its own tables |
| Pipeline.LocalsApart | src/generate-names.cc:196-236 | a local and a label of a function share a name in the end if and only if a name given to a local is that of a label |
| Pipeline.NameModule | src/apply-names.cc:462-487 | both passes: the same module up to references, valid and ready for the C writer, with the names that imports and exports lead to |
| Pipeline.WritableExactly | src/c-writer.cc:565-585 | the named module can be written with every entity under its own symbol if and only if no name is shared and imports with the same symbol are the same |
| Pipeline.WasmToC | src/generate-names.cc:402-422 | a module as loaded, with imports, exports and given names, named and written to C, runs as it did and never goes wrong, if no name is shared and imports with the same symbol are the same; every import is declared under its mangled symbol, exports of every kind under theirs, and nothing else under these or a reserved one |
| SharedNames.FirstFreeIsFree | src/generate-names.cc:153-167 | the search for a free name finds one for every finite set of taken names |
| SharedNames.KindDistinct | src/generate-names.cc:169-194 | all entities of one kind have names, and they differ |
| SharedNames.CommonName | src/generate-names.cc:119-151 | two prefixes can lead to the same name if and only if they are equal or one is the other with a disambiguator |
| SharedNames.NothingShared | src/generate-names.cc:283-422 | if no given name, import, export or number of one kind can lead to a name of another, the four kinds share no names |
| SharedNames.AnonymousApart | src/generate-names.cc:402-422 | a module without names, imports and exports shares none |
| SharedNames.SharedByImports | src/generate-names.cc:283-337 | a function and a global imported as "a" "b" are both called "$a.b" |
| SharedNames.SharedByNul | src/generate-names.cc:331-333 | a function imported as "a\0x" "b" and a global imported as "a\0y" "b" are both called "$a" |
| DecompilerAst.AST.ConstructFunction | src/decompiler-ast.h:217-361 | succeeds if and only if the return statement finds its items; then the tree ends every run as the function does, whatever the temporaries held, and holds its instructions in order, constants and a final `return` aside |
| DecompilerAst.AST.ConstructItems | src/decompiler-ast.h:217-326 | the items of a list stand for it: same effects in the same order, the results are the last items, and there are as many as the count says |
| DecompilerAst.AST.ConstructNext | src/decompiler-ast.h:225-319 | one instruction keeps the invariant on the expression stack: statements below, then variables, then single values |
| DecompilerAst.AST.ConstructExpr | src/decompiler-ast.h:149-215 | an instruction takes its operands from the stack and its nodes do what it does |
| DecompilerAst.AST.ConstructIf | src/decompiler-ast.h:179-191 | the condition and the arms in place |
| DecompilerAst.AST.ConstructTee | src/decompiler-ast.h:168-178 | a lone tee becomes a set and a get |
| DecompilerAst.AST.FlushBeforeStatement | src/decompiler-ast.h:276-288 | pending values are assigned to temporaries below the variables, before the statement, and read back after it |
| DecompilerAst.AST.FlushMultiValue | src/decompiler-ast.h:296-306 | several results and the values below them become temporaries at once |
| DecompilerAst.AST.LiftStatement | src/decompiler-ast.h:289-294 | a statement goes below variables only |
| DecompilerSim.FlushAlike | src/decompiler-ast.h:250-288 | flushing values around an effect changes neither effects nor values |
| DecompilerSim.LiftAlike | src/decompiler-ast.h:256-260 | lifting an effect over variables it does not assign changes nothing |
| DecompilerSim.CarriedLost | src/decompiler-ast.h:202-211 | the nodes of `br` and a taken `br_if` do what the branch does if and only if it carries no values |
| DecompilerSim.ContinuesStep | src/decompiler-ast.h:225-233 | replacing operands by the node of their instruction is a step of the stack machine |
| DecompilerSim.ContinuesStop | src/decompiler-ast.h:225-233 | items of a list with an unconditional branch never end normally, whatever stands behind it |
| DecompilerSim.EndReturnAdded | src/decompiler-ast.h:335-341 | leaving the results and returning them is the same |
| DecompilerSim.CountCovers | src/decompiler-ast.h:225-319 | the number of items is never below the number of operands, at least one after an instruction, and at least the results where the end can be reached |
| DecompilerSim.ReturnUsuallyFits | src/decompiler-ast.h:335-341 | the return statement fits for at most one result, and whenever the end of the body can be reached |
| DecompilerSim.TooFewItems | src/decompiler-ast.h:335-341 | with two results it does not fit behind `unreachable` alone, and does behind `nop` and `unreachable` |
| DecompilerSim.ReturnDropped | src/decompiler-ast.h:330-334 | a final `return` without values can go |
| DecompilerSim.FunctionRuns | src/decompiler-ast.h:326-357 | items that stand for a body make a tree that runs as the function |
| DecompilerTree.TempsLocal | src/decompiler-ast.h:250-269 | a tree changes only the temporaries it assigns and depends only on those it reads |
| DecompilerListing.FlushMoved | src/decompiler-ast.h:250-288 | a flush keeps all instructions, and the order of those that are not constants |
| DecompilerListing.FunctionKept | src/decompiler-ast.h:217-361 | so does the whole construction |
| Leb128.ReadU32Exact | src/leb128.cc:161-188 | accepts precisely the unsigned 32-bit encodings of section 5.2.2 and returns their value and length |
| Leb128.ReadS32Exact | src/leb128.cc:190-224 | the same for signed 32-bit encodings |
| Leb128.ReadS64Exact | src/leb128.cc:226-280 | the same for signed 64-bit encodings |
| Leb128.WriteU32Leb128 | src/leb128.cc:37-65 | the loop computes the recursive encoding |
| Leb128.WriteSLeb128 | src/leb128.cc:109-139 | the loop computes the recursive signed encoding |
| Leb128.U32Leb128Length | src/leb128.cc:28-35 | the number of bytes the writer writes |
| Leb128.URoundTrip | src/leb128.cc:60-65 | what is written reads back, whatever follows |
| Leb128.SRoundTrip | src/leb128.cc:133-139 | the same for signed numbers |
| Leb128.UShortest | src/leb128.cc:37-47 | no accepted encoding of a number is shorter than the one written |
| Leb128.SShortest | src/leb128.cc:109-131 | the same for signed numbers |
| Leb128.FixedReadsBack | src/leb128.cc:97-113 | the five-byte form reads back |
| BinaryCodec.BodyRoundTrip | src/binary-reader.cc:589-1592 | reading what was written for a body rebuilds its tree, with all immediates and signatures, and leaves only the function's label |
| BinaryCodec.WrittenForm | src/binary-writer.cc:392-758 | what is written for a body is in the binary format of section 5.4 of the WebAssembly Core Specification, byte by byte |
| BinaryCodec.FormsAgree | src/opcode.def:38-258 | the immediates of each opcode in the reader's and writer's tables are those of the format |
| BinaryReading.TreeExactly | src/binary-reader.cc:589-1592 | the reader accepts exactly the encodings of lists followed by `end`, where the last lists need not be closed, and returns what was encoded |
| BinaryReading.BodyExactly | src/binary-reader.cc:589-1592 | it is left with the function's label alone exactly if the body is in the format |
| BinaryReading.UnclosedBlock | src/binary-reader-ir.cc:995-999 | 02 40 0b is read as an empty block, although the block is not closed |
| BinaryCodec.ExprBack | src/binary-writer.cc:392-758 | what is written for an expression is appended to the open list |
| BinaryCodec.ListBack | src/binary-writer.cc:754-758 | the same for lists, at any nesting depth |
| BinaryCodec.ReadFunctionBody | src/binary-reader.cc:589-1592 | the loop over the opcodes computes the tree that BinaryReading.TreeExactly ties to the format, malformed input included |
| BinaryCodec.PopFilled | src/binary-reader-ir.cc:764-791 | ending a list puts it into the expression it belongs to |
| BinaryCodec.SwitchBack | src/binary-reader-ir.cc:746-762 | `else` and `catch` complete the first list and open the other one |
| BinaryCodec.OpenBack | src/binary-reader-ir.cc:668-675 | a block, loop, if or try opens a list with its signature |
| BinaryCodec.SigBack | src/binary-writer.cc:234-248 | a block signature reads back, as a value type or as the index of a function type |
| BinaryCodec.ImmBack | src/binary-writer.cc:368-390 | every immediate reads back |
| BinaryCodec.AlignExactly | src/binary-writer.cc:176-183 | an alignment reads back if and only if it is a power of two |
| BinaryWriter.BinaryWriter.WriteModule | src/binary-writer.cc:1116-1154 | the finished buffer is the flat layout: preamble, sections with code, size and payload, and a DataCount section exactly when it is needed, which DataCount.CountExactly spells out |
| BinaryWriter.BinaryWriter.WriteFixupU32Leb128Size | src/binary-writer.cc:212-232 | the size is filled in, and the payload behind it is untouched even when it moves |
| BinaryWriter.BinaryWriter.WriteU32Leb128Space | src/binary-writer.cc:201-210 | reserves the guessed number of bytes at the end |
| BinaryWriter.BinaryWriter.EndSection | src/binary-writer.cc:277-288 | closes the open section around its payload |
| BinaryWriter.BinaryWriter.EndSubsection | src/binary-writer.cc:298-304 | closes the open subsection without disturbing the section around it |
| BinaryWriter.BinaryWriter.WriteSection | src/binary-writer.cc:250-304 | a section with any number of subsections |
| BinaryWriter.BinaryWriter.WriteExprList | src/binary-writer.cc:754-758 | writes the encoding, and notices every memory.init and data.drop |
| BinaryWriter.BinaryWriter.WriteFuncLocals | src/binary-writer.cc:765-778 | appends the number of declarations, then the count and type of each |
| BinaryWriter.BinaryWriter.WriteCodeSection | src/binary-writer.cc:1116-1144 | every body, with its local declarations, has a size of its own within the section's |
| BinaryWriter.BinaryWriter.RemoveDataCount | src/binary-writer.cc:1146-1154 | deletes exactly the section and keeps what follows |
| BinaryWriter.Stream.MoveData | src/stream.cc:193-210 | memmove, growing the buffer |
| BinaryWriter.Stream.WriteDataAt | src/stream.cc:178-191 | overwrites in place or extends |
| BinaryWriter.Stream.Truncate | src/stream.cc:73-85 | cuts the data and pulls the position back |
| SectionReader.BinaryReader.ReadSections | src/binary-reader.cc:2352-2490 | ends on every input; completed passes tile the file; Ok if and only if sections whose codes come in the sequence of the format, none but custom ones behind the names, and whose readers end at their ends tile the whole file |
| SectionReader.BinaryReader.ReadSection | src/binary-reader.cc:2357-2486 | one pass ends in an error or exactly at the section's declared end, also when an error is tolerated |
| SectionReader.BinaryReader.ReadPayload | src/binary-reader.cc:2393-2482 | a reader never leaves its section |
| SectionReader.BinaryReader.ReadNameSection | src/binary-reader.cc:1594-1701 | subsections with rising numbers, each within its own limit; the section's limit is restored on every path |
| SectionReader.BinaryReader.ReadCustomSection | src/binary-reader.cc:1921-1944 | the name decides who reads on; unknown sections are skipped to their end |
| SectionReader.BinaryReader.ReadContents | src/binary-reader.cc:247-353 | a reader made of bounded primitives depends only on the bytes before its limit |
| SectionReader.TilesUnique | src/binary-reader.cc:2357-2366 | a file has one tiling |
| SectionReader.AllowedBelongs | src/binary-reader.cc:2383-2395 | comparing with the last known section is the same as comparing with all sections before; none can be repeated |
| SectionReader.OrderIsPlace | src/binary.h:32-68 | comparing orders is comparing places in the sequence 1, 2, 3, 4, 5, 6, 13, 7, 8, 9, 12, 10, 11 |
| SectionReader.TakeExactly | src/binary-reader.cc:247-353 | a primitive succeeds exactly if the bytes of such a value come next before the limit, and takes those |
| FileRoundTrip.LayoutRoundTrip | src/binary-writer.cc:250-288 | the file that was written begins with the eight bytes of the preamble and is tiled behind them by exactly the sections that were written, and in no other way |
| FileRoundTrip.SectionBack | src/binary-writer.cc:250-260 | a section reads back from where it was put, whichever form its size has |
| CodeSection.EntryForm | src/binary-writer.cc:765-784 | the entry written for a function is in the format: declarations of locals, each a count and a type, then the body |
| CodeSection.CodeSectionBack | src/binary-reader.cc:2267-2308 | the payload of the code section is in the format, whatever form the sizes have, and reads back into all functions |
| CodeSection.CodeExactly | src/binary-reader.cc:2267-2308 | the reader accepts exactly the payloads in the format, where the last lists of a body need not be closed, and returns the functions they encode |
| FileRoundTrip.WrittenRising | src/binary-writer.cc:876-1160 | what is written is in the order of the format when the sections around the code are |
| FileRoundTrip.WrittenGood | src/binary-reader.cc:2352-2490 | a file whose sections were given in order is good exactly for a reader that takes its sections one by one; their order never stands in the way |
| FileRoundTrip.WriteAndRead | src/binary-writer.cc:1116-1154 | reading what WriteModule left in the stream succeeds exactly if the reader takes the sections one by one, and finds exactly the sections written |
| DataCount.CountExactly | src/binary-writer.cc:1115-1154 | the finished file has a section with code 12, holding the number of segments, if and only if bulk memory is on, there are segments, and the code section read back holds memory.init (0xfc 8) or data.drop (0xfc 9) at some depth |
| DataCount.DropOrFill | src/binary-writer.cc:579-585 | data.drop alone keeps the section, memory.fill alone does not |
| Uint128.ParseUint128 | src/literal.cc:679-718 | computes the specified value or fails, for every string |
| Uint128.WriteUint128 | src/literal.cc:797-831 | prints the decimal numeral of the value |
| Uint128.ParsedExact | src/literal.cc:679-718 | every digit string worth less than 2^128, leading zeros or not, is parsed to its value |
| Uint128.PrintedParses | src/literal.cc:797-831 | parsing what was printed gives the value back |
| Uint128.ExactlyBelowLimit | src/literal.cc:679-718 | a digit string is parsed to its value if and only if that is below 2^128 |
| Uint128.ParsedModulo | src/literal.cc:679-718 | every digit string that is accepted is parsed to its value modulo 2^128 |
| Uint128.WrapsSilently | src/literal.cc:656-718 | what a numeral is parsed to that passes 2^128 with its last digit: its value modulo 2^128, or nothing when the last addition carries |
| Uint128.AcceptedAsAnother | src/literal.cc:656-718 | 10^39 is accepted as 319435266158123073073250785136463577088 |
| Uint128.AtMost39 | src/literal.cc:797-831 | at most 39 digits |
| Uint128.Mul10 | src/literal.cc:656-677 | ten times the value modulo 2^128, through all carries |
| Uint128.AddWithCarry | src/literal.cc:650-654 | sum and carry are exact |
| HexNumbers.HexRoundTrip | src/literal.cc:253-422 | for both widths and every bit pattern, parsing what is printed gives the same bits |
| HexMeaning.PrintedDenotes | src/literal.cc:457-555 | what is printed for a bit pattern denotes exactly what IEEE 754 makes of it: the number itself, infinity, or the payload of a NaN |
| HexMeaning.PrintedPlain | src/literal.cc:457-555 | digits are printed in lower case, without anything that no literal has |
| HexExact.NanAlone | src/literal.cc:243-249 | "nan" alone is 0x7fc00000 or 0x7ff8000000000000, for the parser and for the printer |
| HexExact.InfinityParsed | src/literal.cc:411-422 | texts that denote an infinity are parsed to its pattern |
| HexFloat.TextFits | src/literal.cc:463-463 | the text fits the declared buffer |
| HexFloat.WriteHex | src/literal.cc:457-555 | prints the specified text |
| HexFloat.WriteFraction | src/literal.cc:518-524 | prints the nybbles of the significand up to the last one that is not zero |
| HexFloat.WriteTag | src/literal.cc:484-494 | prints a NaN payload without leading zeros |
| HexFloat.WriteExp | src/literal.cc:525-546 | prints a signed exponent of up to four digits |
| HexNumbers.LiteralExactly | src/literal.cc:253-408 | every literal of a number the format has, normal or subnormal, with any digits, underscores, dot and exponent, is parsed to the pattern of that number if and only if it is zero, its exponent is, or the exponent loop does not stop before its last digit |
| HexNumbers.FinishExactly | src/literal.cc:345-405 | a significand and an exponent that make a number of the format give its pattern, and the same significand with another exponent does not |
| HexNumbers.ExponentFound | src/literal.cc:308-342 | the exponent that is found is the one written unless the loop stops too soon |
| HexRounding.CutChangesValue | src/literal.cc:325-337 | a literal of 2^-142 that is read as another number |
| HexRounding.TooSmallIsRead | src/literal.cc:325-337 | 0x1p-1280 is read as 2^-128 in single precision |
| HexRounding.RoundsExactly | src/literal.cc:192-204 | ShiftAndRoundToNearest rounds to nearest and ties to even if and only if it does not drop more than half at once, keeping an even number |
| HexRounding.MisroundedLiteral | src/literal.cc:192-204 | 0x8.00000cp0 is read as 8, although the next number is nearer |
| HexExact.NanExactly | src/literal.cc:207-249 | on every text, a NaN's pattern is returned exactly if the text denotes it: its payload, or the canonical one for "nan" alone |
| HexMeaning.FieldsMean | src/literal.cc:34-80 | what a bit pattern means, in terms of the fields the source takes it apart into |
| HexMeaning.MeaningInjective | src/literal.cc:180-188 | different bit patterns mean different things |
| HexFloat.ReadSig | src/literal.cc:273-300 | the scan of the significand |
| HexFloat.ReadExp | src/literal.cc:308-342 | the scan of the exponent |
| HexFloat.ReadTag | src/literal.cc:220-242 | the scan of a payload |
| ExprVisitor.ExprVisitor.VisitExpr | src/expr-visitor.cc:26-124 | for every tree and delegate, the callbacks of the recursive traversal in that order up to the first error; the stacks end empty |
| ExprVisitor.ExprVisitor.VisitExprList | src/expr-visitor.cc:126-130 | the same for lists |
| ExprVisitor.ExprVisitor.HandleDefaultState | src/expr-visitor.cc:136-390 | the first callback of an expression, and its list opened |
| ExprVisitor.ExprVisitor.FinishTry | src/expr-visitor.cc:88-105 | after the body of a `try` the catch callback, then the catch list, or its end at once when it is empty |
| ExprVisitor.Aligned | src/expr-visitor.cc:392-412 | the iterator stack is as long as there are states other than the default one |
| ExprVisitor.LogIsPrefix | src/expr-visitor.cc:26-124 | a log of the callbacks is the beginning of the recursive traversal's, all of it without an error |
| IntrusiveList.List.PushFront | src/intrusive-list.h:425-437 | the sequence with the node in front |
| IntrusiveList.List.PushBack | src/intrusive-list.h:444-458 | the sequence with the node behind |
| IntrusiveList.List.ExtractFront | src/intrusive-list.h:475-488 | the first node, free, and the others |
| IntrusiveList.List.ExtractBack | src/intrusive-list.h:490-503 | the last node, free, and the others |
| IntrusiveList.List.Insert | src/intrusive-list.h:513-536 | the node goes before the position |
| IntrusiveList.List.Extract | src/intrusive-list.h:544-568 | that node goes, the others stay in order |
| IntrusiveList.List.EraseRange | src/intrusive-list.h:578-584 | exactly the nodes of the range go |
| IntrusiveList.List.Splice | src/intrusive-list.h:622-629 | exactly the chosen nodes move, in order, without loss or duplication |
| IntrusiveList.List.SpliceAll | src/intrusive-list.h:604-612 | all nodes of the other list move |
| IntrusiveList.List.Clear | src/intrusive-list.h:594-602 | every node is deleted once, in order, and the list is empty |
| IntrusiveList.List.MoveFrom | src/intrusive-list.h:281-304 | the nodes change hands, and those the target had are deleted |
| IntrusiveList.List.Swap | src/intrusive-list.h:587-592 | the two lists exchange their nodes |
| IntrusiveList.List.Walk | src/intrusive-list.h:164-179 | walking back is walking forwards reversed |
| IntrusiveList.Relinked | src/intrusive-list.h:521-534 | the links around an added node make one list again |
| IntrusiveList.Unlinked | src/intrusive-list.h:549-565 | so do those around a node taken out |
| LineFinder.LexerSourceLineFinder.GetLineOffsets | src/lexer-source-line-finder.cc:69-123 | the line's range as if the whole file had been split, an error exactly when there is no such line, for every chunk size and history of queries |
| LineFinder.LexerSourceLineFinder.Scan | src/lexer-source-line-finder.cc:92-103 | a chunk extends the index; a carriage return may be the last byte of the chunk before |
| LineFinder.LinesSplit | src/lexer-source-line-finder.cc:92-110 | the ranges cover the file, without newlines in them and with nothing but line ends between them |
| LineFinder.SplitsUnique | src/lexer-source-line-finder.cc:92-110 | no other ranges do |
| LineFinder.ClampShows | src/lexer-source-line-finder.cc:126-151 | the part of a long line that is shown has the allowed length and contains the columns of interest |
| LineFinder.ClampCentres | src/lexer-source-line-finder.cc:133-147 | of all parts with the allowed length it is the one with its middle nearest to that of the columns of interest |

## Left out

- Instructions the C writer does not implement or only has placeholders for: SIMD, atomics, exceptions, bulk memory, references, tail calls; functions with more than one result and blocks with parameters in the C writer.
- The C text of operators on floats, of conversions and of memory accesses, the call-depth check at function entry, declarations and headers as text: these operators are shared parameters of both semantics, and call depth is not limited. For operators on integers COperators.OperatorText says what their text computes.
- COperators.OperatorText: where C leaves a choice, conversions to signed types keep the bits and negative numbers are shifted to the right arithmetically.
- Data and element segments, tables and memories as such: they belong to the uninterpreted world.
- The stack variable one below the first slot, which wraps around in the source, is modelled as the place before slot 0; validated code never asks for it.
- Nested statements are built as values and not as brace characters in a text stream; there is one writer object for each function.
- CModule.WriteModule: assumes different names for functions, globals, memories and tables, imports with the same symbol to be the same, and different names for labels and locals; CModule.SymbolsRight and Pipeline.LocalsApart say that the symbol maps are right exactly then. Memories and tables have names and symbols here, but no contents; the prefix that can be put before exports is empty, as it is unless defined.
- GenerateNames.Bindings.FreeName: does not model the option for alphabetic names.
- Pipeline.WasmToC: starts from modules as the binary reader makes them, whose blocks have no labels; ApplyNames.BodyKeptExactly covers labels given by a program text.
- DecompilerAst.AST.ConstructFunction: assumes `br` and `br_if` without values (DecompilerSim.CarriedLost), no block parameters, and that operands are there in code that is not reached too; the scopes of declarations, struct layout guesses and the text are not modelled.
- BinaryCodec.ReadFunctionBody: does not check indices against counts or feature flags, and knows the plain, memory, table, saturating and bulk opcodes but not SIMD and atomics; the label stack holds lists that are put into their expression when a label is popped or the function ends, where the source appends through a pointer into the tree; alignment exponents of 32 and more, which the source shifts by, stand for their powers of two.
- BinaryWriter.BinaryWriter.WriteModule: relocations and linking sections are not modelled; the payloads of sections other than the code section are byte strings; files of 2^32 bytes and more are excluded because sizes are 32 bits wide.
- BinaryWriter.BinaryWriter.EndSection: does not model the relocation sections' offsets and the section counter, which only relocations use.
- FileRoundTrip.WriteAndRead: leaves open whether each section's reader accepts its payload, as sections other than the code section are byte strings; for the code section CodeSection.CodeSectionBack says what is read.
- SectionReader.BinaryReader.ReadSections: what a section's reader does beyond asking for bounded primitives is arbitrary; callbacks of the delegate always succeed, except as the verdict of a section's reader.
- HexNumbers.LiteralExactly: literals that need rounding are covered by HexRounding.RoundsExactly only, step by step and not as a whole; decimal floats go through the C library; exponents and texts so long that the source's 32-bit counters overflow are not modelled.
- ExprVisitor.ExprVisitor.VisitExpr: delegates do not change the tree while it is visited.
- IntrusiveList.List.Splice: between two different lists; iterators over a list that was destroyed are not modelled.
- LineFinder.ClampShows: the dots that GetSourceLine puts over the ends of a clamped line are not modelled.
- Logging, object dumps, spec tests, error formatting, option parsing and file access.
