# A verified model of WasmEdge's core algorithms

WasmEdge is a WebAssembly runtime written in C++. This project models seven of its cores in Dafny
and proves what they are for.

- **Type equality and subtyping** (`WasmTypes`, `TypeSections`, `TypeTrees`, `TypeEquality`,
  `Matching`, `MatchingTheory`, `MatchingMeaning`, `TypeMatcher`, `TypeTheorems`, `Closure`).
  The type matcher compares defined types by their indices, possibly in the type sections of two
  modules. The model rolls a recursion group up into a
  tree in which references inside the group are positions and references outside are trees. The
  index comparison is proved to be equality of these trees, and matching is proved to be the
  declarative relations of section 3.3 of the WebAssembly Core Specification 3.0: the reflexive
  and transitive closure of the declared supertypes and of the abstract heap hierarchy. Equality of
  trees is tied back to the declarations, and matching to what can be done with a type. Span
  identity is a list id (`SameStorage`: lists with one id hold the same types).
- **Number theory** (`Arith`, `NumberTheory`, `Primality`). Wrapping `mulMod` and `powMod`, the
  strong probable prime test and `isPrime`. Fermat's little theorem is proved from the binomial
  theorem, and the square roots of one modulo a prime from Euclid's lemma.
- **128-bit arithmetic** (`Words`, `Int128`, `UInt128`). The portable division (Knuth's Algorithm D
  with wrapping words), shift-subtract division and remainder, multiplication by halves, shifts.
- **The execution stack** (`Activations`, `StackManager`, `StackRuns`, `TryBlocks`,
  `CatchTargets`, `Exceptions`, `SoundRuns`).
  A flat vector of values with frames and handlers that hold offsets into it refines nested
  activations. The ghost field `view` holds the nested form; `Valid` ties it to the two vectors.
- **Binary encoding** (`Leb128`, `Leb128Forms`, `FileManager`, `Serializer`, `Sections`,
  `SectionFormat`). LEB128 against the grammar of section 5.2.2 of the WebAssembly Core
  Specification, and which bytes load as a section.
- **Hash reads** (`RapidHash`). Where the hash reads its input.
- **Gas** (`GasCounter`). The lock-free cost counter as interleaved loads, exchanges and stores.

Integers are unbounded in the model; the width of a machine word is written out (`Wrap`, `% TWO32`,
`U32`, `U64`). The 32-bit casts of stack offsets are not modelled, see below.

## Findings

Where the code and an expected property differ, the model follows the code, and a lemma gives the
exact condition.

- A supertype may stand after its subtype inside one recursion group: the validator only rejects
  cycles (`TypeTheorems.SupertypeMayFollow`). Well-formedness therefore asks for an acyclic
  supertype relation, not for an index order.
- `mulMod(A, B, M)` is `A * B mod M` exactly when `2 A < 2^64 + M` or `M` divides `2^64 * (B / 2)`
  (`Primality.MulModCanBeWrong` gives an input on which it is not);
  `powMod(0, 0, 1)` is 1. `isPrime(2)` is false; every other prime below 2^64 is accepted.
- `removeInactiveHandler` stops at the first active handler. Its result is the list of active
  handlers at every position exactly when the ranges are nested. A branch out of a try block can
  leave a handler under that of a sibling block (`TryBlocks.StaleSiblingStays`).
- Such a stale handler can catch an exception that no active try block catches
  (`SoundRuns.StaleHandlerCatches`). An exception lands at the innermost active try block that
  catches it exactly when, in each activation that it visits, every stale handler that catches has an
  active one above it that catches (`CatchTargets.LandsAtActiveIff`).
- A throw that then passes the sibling finds fewer values than the stale handler's offset
  (`SoundRuns.StaleHandlerBreaksThrow`). All pops of a throw are legal exactly when the first is and
  the heights of the visited try blocks rise (`Exceptions.ThrowLegalIff`). Runs keep this if call
  arguments, block parameters and thrown values lie above the innermost open try block; branches and
  pops may go below it (`SoundRuns.PermittedRunIsLegal`).
- The end of a try block pops the top handler. It is the handler of that block exactly when no stale
  handler lies above it (`TryBlocks.LeaveIsOwnIff`, `SoundRuns.StaleHandlerIsPoppedInstead`).
- The last two reads of the hash may start before the remaining span, in bytes already consumed.
  This happens exactly for sizes above 48 whose remainder modulo 48 is below 16.
- A charge whose sum wraps around 64 bits is accepted and lowers the total
  (`GasCounter.WrappedChargeIsAccepted`). A refund of the whole total is refused. A relaxed load that
  sees an earlier total can refuse a charge that fits (`GasCounter.StaleLoadCanRefuse`).
- A section loads back exactly when its content is below 2^32 bytes, its count is below 2^32, and
  half the count is at most the number of bytes that follow it.

## Model

| member | source | states |
|---|---|---|
| TypeMatcher.IsDefTypeEqual | include/ast/type.h:463-502 | terminates and answers whether the rolled trees of two defined types, from one list or two, are equal |
| TypeMatcher.IsRecTypeEqual | include/ast/type.h:609-634 | answers whether two recursion groups roll up to the same sequence of types |
| TypeMatcher.IsSubTypeEqual | include/ast/type.h:609-633 | answers whether the types at one position of two groups agree in finality, supertypes and composite type |
| TypeMatcher.IsCompTypeEqual | include/ast/type.h:590-607 | answers whether two composite types are equal up to the rolling of their groups |
| TypeMatcher.IsFuncTypeEqual | include/ast/type.h:566-588 | the same for the parameters and the results of function types |
| TypeMatcher.IsFieldTypeEqual | include/ast/type.h:548-564 | the same for lists of fields with their mutability |
| TypeMatcher.IsValTypeEqual | include/ast/type.h:510-546 | the same for value types: indices inside the groups by position, the others by their trees |
| TypeEquality.TreesEqualIff | include/ast/type.h:463-635 | types have equal trees if and only if they stand at one offset of groups of one size whose members are declared alike: finality, supertypes, kinds, lengths, codes, mutabilities, and indices both inside at one offset or both outside and of equal types |
| TypeEquality.GroupEqualIff | include/ast/type.h:505-635 | the same for two recursion groups |
| TypeEquality.MemberEqualIff | include/ast/type.h:609-633 | the same for two members |
| TypeEquality.ValEqualIff | include/ast/type.h:510-546 | the same for two value types seen from their groups |
| TypeSections.GroupKeepsWellFormed | lib/validator/validator.cpp:597-631 | a section stays well formed when a group with recorded places, references in range and acyclic supertypes of one kind is appended |
| TypeMatcher.MatchDefType | include/ast/type.h:381-397 | answers whether the expected tree is the got tree or one of its ancestors; an index out of range does not match |
| TypeMatcher.MatchValType | include/ast/type.h:408-459 | decides declarative matching of value types: equal numeric or packed types, or matching heap types with admissible nullability |
| TypeMatcher.MatchHeapType | include/ast/type.h:408-459 | decides declarative matching of heap types for every mix of abstract and indexed ones |
| TypeMatcher.MatchAbsToIndex | include/ast/type.h:408-459 | the case of an indexed type where an abstract one is expected, also with an index out of range |
| TypeMatcher.MatchIndexToAbs | include/ast/type.h:408-459 | the case of an abstract type where an indexed one is expected: only the bottom of its hierarchy matches |
| TypeMatcher.MatchValTypes | include/ast/type.h:351-363 | decides pointwise matching of lists of equal length |
| TypeMatcher.MatchFieldType | include/ast/type.h:282-335 | decides field matching: covariant if both are constant, invariant if mutable |
| TypeMatcher.MatchCompType | include/ast/type.h:282-335 | decides matching of function, struct and array types |
| MatchingTheory.TreeShape | include/ast/type.h:463-502 | the tree of a type is its rolled group with its position, and keeps its composite kind |
| MatchingTheory.UnfoldRef | include/ast/type.h:510-546 | unrolling a rolled reference gives the tree of the referenced type |
| MatchingTheory.DefStepIff | include/ast/type.h:381-397 | the parents of a tree are exactly the trees of the declared supertypes |
| MatchingTheory.DefMatchesUnfold | include/ast/type.h:381-397 | matching holds if and only if the trees are equal or a declared supertype matches |
| MatchingTheory.NoCycle | lib/validator/validator.cpp:23-62 | no tree of a well-formed section is its own proper ancestor |
| MatchingTheory.DefMatchesAntisymmetric | include/ast/type.h:381-397 | types that match both ways have equal trees |
| MatchingTheory.HeapMatchesIff | include/ast/type.h:638-683 | the case analysis of the code decides the closure of the heap hierarchy in both directions |
| MatchingTheory.HeapMatchesReflexive | include/ast/type.h:408-459 | every known heap type matches itself |
| MatchingTheory.HeapMatchesTransitive | include/ast/type.h:408-459 | heap matching is transitive over abstract and indexed types |
| MatchingTheory.ValMatchesReflexive | include/ast/type.h:408-459 | every known value type matches itself |
| MatchingTheory.ValMatchesTransitive | include/ast/type.h:408-459 | value matching is transitive over every mix of types |
| MatchingTheory.ValsMatchTransitive | include/ast/type.h:351-363 | list matching is transitive |
| MatchingTheory.FieldMatchesTransitive | include/ast/type.h:282-335 | field matching is transitive |
| MatchingTheory.CompMatchesReflexive | include/ast/type.h:282-335 | composite matching is reflexive |
| MatchingTheory.CompMatchesTransitive | include/ast/type.h:282-335 | composite matching, with contravariant parameters and struct width, is transitive |
| MatchingMeaning.AbstractMatchesIff | include/ast/type.h:638-683 | the table of the abstract heap types, written out, both ways |
| MatchingMeaning.IndexMatchesAbstractIff | include/ast/type.h:422-455 | which abstract types are above a declared type, and which one is below it |
| MatchingMeaning.NumericMatchesIff | include/ast/type.h:412-416 | a numeric or packed type matches itself alone |
| MatchingMeaning.NullabilityMatches | include/ast/type.h:419-421 | a nullable type matches only a nullable one; otherwise the heap types decide |
| MatchingMeaning.NonNullableIsBelowNullable | include/ast/type.h:419-421 | for every heap type the non-nullable reference matches the nullable one and not the other way round |
| MatchingMeaning.FunctionMatchesIff | include/ast/type.h:305-313 | a function type matches if and only if it takes every argument list that fits the expected parameters and gives only result lists that fit the expected results |
| MatchingMeaning.FieldMatchesIff | include/ast/type.h:285-300 | a field matches if and only if what is read from it is accepted, its mutability is the same, and what may be written at the expected type may be written to it |
| MatchingMeaning.StructMatchesIff | include/ast/type.h:314-326 | a struct type matches if and only if it has a serving field in the place of each expected one |
| MatchingMeaning.ArrayMatchesIff | include/ast/type.h:327-331 | an array type matches if and only if its element field serves |
| MatchingMeaning.KindsMatch | include/ast/type.h:282-335 | composite types that match are of one kind |
| TypeTheorems.TreeDeterminesComp | include/ast/type.h:505-635 | the rolled tree determines the composite type: equal types have equal content |
| TypeTheorems.AncestorsMatch | lib/validator/validator.cpp:218-244 | in a validated section every ancestor is in the section, is not final, and its composite type is matched |
| TypeTheorems.SupertypeMayFollow | lib/validator/validator.cpp:597-631 | a validated section whose first type has the second one, of the same group, as its supertype |
| TypeTheorems.DefMatchingIsSound | include/ast/type.h:381-397 | a defined type that matches another, across modules, has a matching composite type |
| TypeTheorems.FinalHasNoProperSubtype | lib/validator/validator.cpp:218-244 | only an equal type matches a final one |
| TypeTheorems.DefMatchingIsTransitive | include/ast/type.h:381-397 | defined-type matching is transitive across three lists |
| TypeTheorems.ValMatchingIsAntisymmetric | include/ast/type.h:408-459 | value types that match both ways are the same up to equality of defined types |
| TypeTheorems.TopMatches | include/ast/type.h:638-683 | a top type is matched by exactly the heap types of its hierarchy |
| Primality.AddReducedIs | lib/common/hash.cpp:10-14 | the wrapping sum with one correction is the reduced sum, short of 2^64 when the corrected sum overflows |
| Primality.MulModFromIs | lib/common/hash.cpp:6-26 | closed form of the loop from any state |
| Primality.MulMod | lib/common/hash.cpp:6-26 | the product modulo M if A < M, the exact value for every input, and exactly when that is the product |
| Primality.MulModCanBeWrong | lib/common/hash.cpp:6-26 | for A = 2^64 - 1, B = 2, M = 3 the loop yields 2, and the product is a multiple of 3 |
| Primality.PowOwedExact | lib/common/hash.cpp:28-40 | powMod's value is the power modulo M when the first squaring loses nothing |
| Primality.PowMod | lib/common/hash.cpp:28-40 | the exact value for every base, and the power modulo M for A < M and M > 1 |
| Primality.SplitPowerOfTwo | lib/common/hash.cpp:43-60 | the shift cascade splits N - 1 into its odd part and its power of two |
| Primality.StripBits | lib/common/hash.cpp:49-60 | one shift of the cascade keeps the split |
| Primality.SquareUp | lib/common/hash.cpp:65-75 | the squaring loop, with its early exit, finds whether some later square of any first value is -1 |
| Primality.Sprp | lib/common/hash.cpp:42-76 | the exact answer for every N > 1 and every base, and for odd N and A < N whether N is a strong probable prime to base A |
| Primality.AcceptsIff | lib/common/hash.cpp:42-76 | the chain of squares that the code builds decides the strong probable prime condition |
| Primality.StrongProbablePrimeIff | lib/common/hash.cpp:42-76 | the textbook condition: with N - 1 = d 2^s and d odd, a^d is 1, or a^(d 2^r) is -1 for some r below s |
| Primality.PassingIsFermat | lib/common/hash.cpp:42-76 | what passes to a base satisfies Fermat's condition to it |
| Primality.BasesAreTheFirstPrimes | lib/common/hash.cpp:85-123 | the bases are the first twelve primes |
| Primality.PassesBase | lib/common/hash.cpp:85-123 | the test as `isPrime` uses it |
| NumberTheory.Fermat | lib/common/hash.cpp:42-76 | Fermat's little theorem, on which the test rests |
| NumberTheory.SquareRootsOfOne | lib/common/hash.cpp:65-74 | modulo a prime, 1 has no square roots but 1 and -1 |
| Primality.LastSquare | lib/common/hash.cpp:42-76 | for a prime the chain of squares ends in 1 |
| Primality.DescendSquares | lib/common/hash.cpp:65-75 | a chain of squares that reaches 1 started at 1 or passed -1 |
| Primality.PrimesPass | lib/common/hash.cpp:42-76 | every prime passes to every base below it |
| Primality.IsPrime | lib/common/hash.cpp:78-125 | which numbers are accepted, and that every prime but 2 is |
| Int128.TestIsExact | include/common/int128.h:57-114 | the correction test, with wrapping words, holds exactly when the estimate is above the digit |
| Int128.EstimateCorrected | include/common/int128.h:57-114 | a correction is needed at most twice and keeps the estimate |
| Int128.QuotientDigit | include/common/int128.h:57-114 | the digit is the floor quotient and at most two corrections are made |
| Int128.PartialRemainder | include/common/int128.h:57-114 | the wrapping subtraction gives the true partial remainder |
| Int128.DivideNormalised | include/common/int128.h:57-114 | two digits give quotient and remainder by a normalised divisor |
| Int128.DivideShort | include/common/int128.h:57-114 | quotient and remainder by a divisor below 2^32 |
| Int128.NormalisedDividend | include/common/int128.h:57-114 | shifting the pair of words multiplies the dividend |
| Int128.Udiv128By64To64 | include/common/int128.h:57-114 | Q V + R = U1 2^64 + U0 with R < V for every U1 < V |
| UInt128.LessIff | include/common/int128.h:208-210 | the word comparison is the numeric order, and equal words are equal numbers |
| UInt128.AddIs | include/common/int128.h:224-228 | addition modulo 2^128 |
| UInt128.SubIs | include/common/int128.h:229-232 | subtraction modulo 2^128 |
| UInt128.MulIs | include/common/int128.h:233-243 | multiplication by halves is exact modulo 2^128 |
| UInt128.ShiftLeftIs | include/common/int128.h:317-327 | multiplication by a power of two modulo 2^128 |
| UInt128.ShiftRightIs | include/common/int128.h:328-338 | division by a power of two |
| UInt128.LeadingZerosIs | include/common/int128.h:365-373 | shifting by the count brings the highest bit to the top |
| UInt128.DivBy64 | include/common/int128.h:244-262 | floor quotient by a 64-bit divisor |
| UInt128.Align | include/common/int128.h:263-286 | the shifted divisor is in range and starts the shift-subtract invariant |
| UInt128.Div | include/common/int128.h:263-286 | floor quotient for every nonzero divisor, on every path |
| UInt128.Mod | include/common/int128.h:287-304 | floor remainder for every nonzero divisor |
| UInt128.RapidMum | include/common/hash.h:31-36 | the two words of the full product |
| StackManager.FlatIsInjective | include/runtime/stackmgr.h:29-50 | values and frames determine the nested activations |
| StackManager.CallIsFlat | include/runtime/stackmgr.h:104-109 | a call changes no value and appends a frame that records the stack size |
| StackManager.TailCallIsFlat | include/runtime/stackmgr.h:110-123 | a tail call leaves the caller's values and the arguments, and keeps the return address |
| StackManager.ReturnIsFlat | include/runtime/stackmgr.h:127-138 | a return leaves the caller's values followed by the results |
| StackManager.EnterIsFlat | include/runtime/stackmgr.h:144-150 | a try block's offset is the stack size below its parameters |
| StackManager.BranchIsFlat | include/runtime/stackmgr.h:187-191 | a branch cuts a middle part of the values of the current activation |
| StackManager.ThrowIsFlat | include/runtime/stackmgr.h:153-167 | a throw leaves the prefix at the handler's offset and the thrown values |
| StackManager.ThrowFrames | include/runtime/stackmgr.h:153-167 | the frames after a throw: the catching one without its top handler |
| StackManager.TrimHandlers | include/runtime/stackmgr.h:170-184 | the handler loop pops the inactive handlers on top |
| StackManager.DropUncatching | include/runtime/stackmgr.h:153-166 | the frame loop pops the frames without a handler |
| StackManager.Land | include/runtime/stackmgr.h:155-163 | the handler popped and the values erased are those of the nested throw |
| StackManager.StackManager.constructor | include/runtime/stackmgr.h:54-57 | an empty stack |
| StackManager.StackManager.Push | include/runtime/stackmgr.h:78-80 | one operand more in the innermost activation |
| StackManager.StackManager.PushValVec | include/runtime/stackmgr.h:83-85 | the operands appended in order |
| StackManager.StackManager.Pop | include/runtime/stackmgr.h:88-92 | the top operand is returned and removed |
| StackManager.StackManager.PopN | include/runtime/stackmgr.h:95-101 | the top operands are returned in order and removed |
| StackManager.StackManager.SetTopN | include/runtime/stackmgr.h:67-70 | a write through any offset into the stack reaches the right operand, local or value of a caller, and changes nothing else |
| StackManager.StackManager.PushFrame | include/runtime/stackmgr.h:104-124 | refines the nested call and tail call; the assumptions in the body hold |
| StackManager.StackManager.PopFrame | include/runtime/stackmgr.h:127-138 | refines the nested return and gives the return address |
| StackManager.StackManager.PushHandler | include/runtime/stackmgr.h:144-150 | refines entering a try block |
| StackManager.StackManager.PopTopHandler | include/runtime/stackmgr.h:153-167 | refines one pop of a throw: handler, activations and values; none exactly when no activation has a try block |
| StackManager.StackManager.RemoveInactiveHandler | include/runtime/stackmgr.h:170-184 | refines trimming the try blocks of the innermost activation |
| StackManager.StackManager.EraseValueStack | include/runtime/stackmgr.h:187-191 | the range is erased and the frames stay; a range of operands of the innermost activation refines a branch |
| StackManager.StackManager.PopHandler | include/runtime/stackmgr.h:203-205 | refines leaving a try block |
| StackManager.StackManager.MaybePopFrameOrHandler | include/runtime/stackmgr.h:197-207 | returns at the end of an expression above the base frame, else pops the top handler at the end of a try block |
| StackManager.StackManager.Reset | include/runtime/stackmgr.h:218-221 | an empty stack |
| StackRuns.Execute | include/runtime/stackmgr.h:72-207 | along every legal run the flat stack stays the flat form of the nested one |
| StackRuns.StepValues | include/runtime/stackmgr.h:78-101 | the flat values after a push, a pop and an operation on handlers, from those before |
| StackRuns.StoreStep | include/runtime/stackmgr.h:67-70 | the same for a write |
| StackRuns.BranchStep | include/runtime/stackmgr.h:187-191 | the same for a branch |
| StackRuns.CallStepValues | include/runtime/stackmgr.h:104-138 | the same for calls, tail calls and returns |
| StackRuns.ThrowStepValues | include/runtime/stackmgr.h:153-167 | the same for one pop of a throw |
| StackRuns.StepFrames | include/runtime/stackmgr.h:104-138 | the frames after an operation, from those before |
| StackRuns.EnterStep | include/runtime/stackmgr.h:144-150 | the handlers after entering a try block |
| StackRuns.LeaveStep | include/runtime/stackmgr.h:203-205 | the handlers after leaving one |
| StackRuns.TrimStep | include/runtime/stackmgr.h:170-184 | the handlers after trimming are the outermost ones, as many as are left in range |
| StackRuns.RunKeepsCaller | include/runtime/stackmgr.h:104-138 | a run above a depth changes nothing below it; module and arity of the activation there are those of its last tail call |
| StackRuns.CallReturns | include/runtime/stackmgr.h:104-138 | after a call, any run above the caller and a return, the stack is the caller's without the arguments, then the results |
| StackRuns.TailCallsStay | include/runtime/stackmgr.h:104-124 | any number of tail calls among any other operations during which the activation stays, throws included, keeps caller, return address and frame base; module and arity are the last callee's |
| StackRuns.TailCallsReturn | include/runtime/stackmgr.h:104-138 | one return then gives the first caller its values, with the arguments replaced by the last callee's results |
| StackRuns.WithinCallStays | include/runtime/stackmgr.h:104-138 | operations without throws in which every call returns meet these conditions, with tail calls anywhere |
| StackRuns.OffsetsOrdered | include/runtime/stackmgr.h:29-50 | frame and handler offsets are ordered and inside the values |
| TryBlocks.TrimIsExactIff | include/runtime/stackmgr.h:170-184 | the kept handlers are the active ones if and only if none is stale under an active one |
| TryBlocks.TrimIsAlwaysExactIff | include/runtime/stackmgr.h:170-184 | that holds at every position if and only if the ranges are nested |
| TryBlocks.FirstVisitedIsActive | include/runtime/stackmgr.h:170-184 | the first handler kept is always the innermost active one |
| TryBlocks.EnterKeepsNestedIff | lib/executor/engine/controlInstr.cpp:244-250 | entering a block keeps the ranges nested if and only if all open blocks are active there |
| TryBlocks.TrimThenEnterIsNested | lib/executor/engine/controlInstr.cpp:244-250 | trimming before entering would always keep them nested |
| TryBlocks.StaleSiblingStays | include/runtime/stackmgr.h:170-184 | a stale handler that stays |
| TryBlocks.LeaveIsOwnIff | include/runtime/stackmgr.h:203-205 | the handler popped at the end of a try block is that block's if and only if no stale handler lies above it |
| Exceptions.StackedToThrown | lib/executor/helper.cpp:1153-1158 | past a handler that does not catch, the visited try blocks are stacked if and only if the rest are and the next pop is legal |
| Exceptions.ThrowLegalIff | lib/executor/helper.cpp:1148-1180 | every pop of a throw is legal if and only if the first is and the try blocks down to the one that catches are stacked |
| Exceptions.UncaughtThrowLegalIff | lib/executor/helper.cpp:1148-1180 | for an exception that nothing catches: if and only if all open try blocks of all activations are stacked |
| Exceptions.StackedThrowLegal | lib/executor/helper.cpp:1148-1180 | then the pops of every throw are legal |
| Exceptions.PassedOver | lib/executor/helper.cpp:1153-1176 | a handler that does not catch makes no difference to where the exception lands |
| CatchTargets.TargetIff | lib/executor/helper.cpp:1153-1180 | nothing is found exactly when no open try block of any activation catches |
| CatchTargets.TrimKeepsActive | include/runtime/stackmgr.h:170-184 | trimming takes no active try block |
| CatchTargets.CallerStaysAtCall | lib/executor/helper.cpp:776-781 | during a call the caller's try blocks are judged at the position of the call |
| CatchTargets.SameBlockIff | lib/executor/helper.cpp:1153-1176 | in one activation the block found is the first active one that catches if and only if every stale one that catches has an active one above it that catches |
| CatchTargets.LandsAtActiveIff | lib/executor/helper.cpp:1148-1180 | the same over all activations, each caller at the position of its call |
| Exceptions.TryTopHandler | lib/executor/helper.cpp:1153-1176 | one round of the loop keeps the outcome, or ends with it |
| Exceptions.Unwind | lib/executor/helper.cpp:1153-1180 | if its pops are legal, the loop lands at the innermost open try block that catches; the values are the prefix at its offset and the thrown ones |
| Exceptions.ThrowException | lib/executor/helper.cpp:1148-1180 | the same after trimming, and exactly when that is the innermost active block that catches |
| Exceptions.SelectsIff | lib/executor/helper.cpp:1160-1165 | a handler is taken if and only if a clause is for all exceptions or its tag is the thrown one in the module |
| Exceptions.NoClauseIff | lib/executor/helper.cpp:1160-1165 | the exception is uncaught if and only if no open try block of any activation has such a clause |
| Exceptions.FindClause | lib/executor/helper.cpp:1160-1165 | the scan finds the first such clause |
| Exceptions.TakeClause | lib/executor/helper.cpp:1166-1176 | with a reference clause the branch starts from the values below the block, the thrown ones and the reference, otherwise from the first two |
| Exceptions.CatchException | lib/executor/helper.cpp:1133-1180 | uncaught if and only if no try block left by trimming has a clause for the exception; otherwise the block is closed and the branch of its first such clause is taken from it |
| SoundRuns.SoundIsStackedIff | include/runtime/stackmgr.h:159-161 | a sound stack has stacked try blocks if and only if the operands reach the innermost one |
| SoundRuns.CallKeepsSoundIff | include/runtime/stackmgr.h:104-109 | a call keeps a sound stack sound if and only if its arguments lie above the innermost try block |
| SoundRuns.EnterKeepsSoundIff | include/runtime/stackmgr.h:144-150 | entering a try block does if and only if its parameters lie above the innermost one |
| SoundRuns.StepKeepsSound | include/runtime/stackmgr.h:72-207 | every permitted operation, a throw included, is legal and keeps the stack sound |
| SoundRuns.PermittedRunIsLegal | include/runtime/stackmgr.h:72-207 | every permitted run is legal; pops and branches may go below open try blocks, and nothing is assumed about what a throw finds |
| SoundRuns.ExecutePermitted | include/runtime/stackmgr.h:72-207 | the flat stack carries out every permitted run |
| SoundRuns.SoundThrowLegal | lib/executor/helper.cpp:1148-1158 | after such a run all pops of a whole throw are legal |
| SoundRuns.FloorAfterTrim | lib/executor/helper.cpp:776-781 | after trimming, operands above every active try block are above the innermost open one |
| SoundRuns.StackedCanThrow | include/runtime/stackmgr.h:159-161 | stacked try blocks and values above the innermost one give the assumption of a throw |
| SoundRuns.StaleHandlerBreaksThrow | lib/executor/helper.cpp:1148-1158 | a legal run after which the second pop of a throw finds too few values |
| SoundRuns.StaleHandlerIsPoppedInstead | include/runtime/stackmgr.h:203-205 | a run after which the end of a try block pops the handler of another block |
| SoundRuns.BesideStaleIsReached | lib/executor/engine/controlInstr.cpp:244-250 | a permitted run that ends in a try block beside a stale handler |
| SoundRuns.StaleHandlerCatches | lib/executor/helper.cpp:1148-1180 | there an exception with legal pops lands at the stale handler, and no active block catches it |
| Leb128.ParseUIff | lib/loader/filemgr.cpp:87-142 | reading yields a number exactly when a prefix is an encoding of it in the grammar |
| Leb128.ParseSIff | lib/loader/filemgr.cpp:144-215 | the same for signed numbers |
| Leb128.ParseUExtends | lib/loader/filemgr.cpp:87-142 | a number or a malformed number is recognised whatever follows |
| Leb128.ParseSExtends | lib/loader/filemgr.cpp:144-215 | the same for signed numbers |
| Leb128.ParseUEnds | lib/loader/filemgr.cpp:419-428 | the end of input is reported only where more input could complete a number |
| Leb128.ParseSEnds | lib/loader/filemgr.cpp:419-428 | the same for signed numbers |
| Leb128.RangeU | lib/loader/filemgr.cpp:87-142 | every number read is in range |
| Leb128.RangeS | lib/loader/filemgr.cpp:144-215 | every signed number read is in range |
| Leb128.RoundTripU | include/loader/serialize.h:134-149 | reading undoes writing for every width, value and continuation |
| Leb128.RoundTripS | include/loader/serialize.h:163-180 | the same for signed numbers |
| Leb128.ShortestU | include/loader/serialize.h:134-149 | no encoding is shorter, and no other one is as short |
| Leb128.ShortestS | include/loader/serialize.h:163-180 | the same for signed numbers |
| Leb128.LengthU | include/loader/serialize.h:137 | the bytes fit the buffer of N / 7 + 1 |
| Leb128.LengthS | include/loader/serialize.h:165 | the same for signed numbers |
| Leb128Forms.IsUForm | lib/loader/filemgr.cpp:87-142 | the grammar in closed form: a terminated sequence of at most ceil(n / 7) groups, its positional value, and that value below 2^n |
| Leb128Forms.IsSForm | lib/loader/filemgr.cpp:144-215 | the same with the two's-complement value in range |
| Leb128Forms.EndIsReportedIff | lib/loader/filemgr.cpp:419-428 | exactly when the end of the input is reported |
| Leb128Forms.UnsignedErrors | lib/loader/filemgr.cpp:98-110 | which error a malformed unsigned number gives, at which byte |
| Leb128Forms.SignedErrors | lib/loader/filemgr.cpp:161-211 | the same for signed numbers |
| FileManager.FinalGroup | lib/loader/filemgr.cpp:186-210 | or-ing the sign-extended last group into the wrapped word adds it |
| FileManager.AddUnsigned | lib/loader/filemgr.cpp:98-110 | one round of the unsigned loop against the grammar, with the overflow test |
| FileManager.AddSigned | lib/loader/filemgr.cpp:173-185 | one round of the signed loop |
| FileManager.FinishSigned | lib/loader/filemgr.cpp:186-210 | the last round yields the signed value or reports that it is too large |
| FileManager.SignedRound | lib/loader/filemgr.cpp:163-211 | one round of the signed loop: the answer of the last one, or a group to add |
| FileManager.FileManager.TestRead | lib/loader/filemgr.cpp:419-428 | the bound check, and the state after a failure |
| FileManager.FileManager.ReadUN | lib/loader/filemgr.cpp:87-142 | value, error, cursor, last offset and status are those of the grammar's reader; a failed status is sticky |
| FileManager.FileManager.ReadSN | lib/loader/filemgr.cpp:144-215 | the same for signed numbers held in a wider two's-complement type |
| Serializer.NextU | include/loader/serialize.h:139-147 | one round writes the first byte of the shortest encoding and leaves the rest |
| Serializer.NextS | include/loader/serialize.h:168-176 | the same for signed numbers |
| Serializer.FillUN | include/loader/serialize.h:134-149 | the buffer holds the shortest encoding, inside its bounds |
| Serializer.FillSN | include/loader/serialize.h:163-180 | the same for signed numbers |
| Serializer.SerializeUN | include/loader/serialize.h:134-149 | the encoding is inserted at the position and every other byte is kept |
| Serializer.SerializeSN | include/loader/serialize.h:163-180 | the encoding is appended |
| Serializer.SerializeElements | include/loader/serialize.h:224-226 | elements are appended up to the first failure |
| Serializer.InsertSize | include/loader/serialize.h:227-229 | the size of what was written is inserted before it and nothing else changes |
| Serializer.SerializeSectionContent | include/loader/serialize.h:212-232 | earlier bytes, id, size, count and elements in this order; nothing for an empty section; no size after a failure |
| Sections.LoadVecCnt | include/loader/loader.h:301-308 | the count, or an error when it cannot be plausible |
| Sections.LoadVec | include/loader/loader.h:310-326 | the elements one after the other, or the first error |
| Sections.LoadSectionContent | include/loader/loader.h:328-356 | the elements if the recorded size is available and is the size consumed, else the error; what loads takes the size field and exactly the recorded size |
| Sections.ElementsRoundTrip | include/loader/loader.h:318-324 | elements whose codecs undo each other load back |
| Sections.VecRoundTripIff | include/loader/loader.h:310-326 | a written vector loads back if and only if its count is recorded truly and is plausible |
| Sections.SectionRoundTripIff | include/loader/serialize.h:212-232 | a written section loads back, with exactly its bytes consumed, if and only if it is recoverable |
| Sections.SectionRoundTrip | include/loader/loader.h:328-361 | with elements of at least one byte: if and only if the content is below 2^32 bytes |
| SectionFormat.ElementsLoadIff | include/loader/loader.h:318-324 | elements load if and only if the loader reads them one after the other |
| SectionFormat.ElementFails | include/loader/loader.h:318-324 | the first element that fails gives the error of the vector, at its place |
| SectionFormat.VecLoadsIff | include/loader/loader.h:301-326 | for every byte sequence, a vector loads if and only if a prefix encodes a plausible number of elements and the elements follow |
| SectionFormat.SectionLoadsIff | include/loader/loader.h:328-361 | for every byte sequence, a section loads if and only if a prefix encodes a size, that many bytes are there, and a vector takes exactly them |
| SectionFormat.SectionErrors | include/loader/loader.h:336-354 | a size larger than what is left gives LengthOutOfBounds, and a vector that takes another size than the recorded one gives SectionSizeMismatch |
| SectionFormat.ElementsAre | include/loader/serialize.h:224-226 | what is written is the bytes of all elements, or of those up to and with the first that fails |
| RapidHash.ReadShort | lib/common/hash.cpp:218-229 | up to 16 bytes: all reads inside, all bytes read |
| RapidHash.ReadBlocks | lib/common/hash.cpp:231-256 | the blocks read a prefix completely and leave the remainder modulo 48 |
| RapidHash.ReadSchedule | lib/common/hash.cpp:213-274 | for every size, all reads inside the input and every byte read; when the tail reads step back |
| GasCounter.StepKeepsInv | include/common/statistics.h:85-120 | every atomic step keeps the invariant whatever its loads see, and with fresh loads also the sequential answers |
| GasCounter.EveryRunIsSequential | include/common/statistics.h:85-120 | in every interleaving, with stale loads, the total never exceeds the limit, accepted calls are sequential and refusals are due to a total that there was; with fresh loads the run is linearizable |
| GasCounter.EveryCallIsAnsweredOnce | include/common/statistics.h:85-120 | in every run the answers to a thread are the calls that it started, in order, without the one that it is trying |
| GasCounter.TotalChangesAtAnswers | include/common/statistics.h:96-119 | the total changes only by an exchange that succeeds or a store, and then the call is answered |
| GasCounter.FailureMeansProgress | include/common/statistics.h:96-97 | an exchange that meets another total was overtaken by a call accepted after the total that it had loaded |
| GasCounter.BalanceIs | include/common/statistics.h:85-120 | charges minus refunds since the last clear are the total plus 2^64 for each overflow |
| GasCounter.ConservedIff | include/common/statistics.h:85-120 | the total is that balance if and only if no accepted charge overflowed |
| GasCounter.ModestChargesAreExact | include/common/statistics.h:85-113 | with charges at most 2^64 - 1 - limit, accepted calls respect limit and balance, and with fresh loads calls are refused only there |
| GasCounter.WrappedChargeIsAccepted | include/common/statistics.h:91-95 | a run in which a charge beyond the limit is accepted |
| GasCounter.StaleLoadCanRefuse | include/common/statistics.h:88-95 | a run in which a stale load refuses a charge that the total admits |

## Left out

- Component-model types in the matcher, which the code marks as unfinished, and the `String` heap code.
- The validator itself: `Validated` states what it accepts about declared supertypes, and the predicate `Permitted` states what the stack needs of validated code. The one part that validation does not give is at the entry of a try block while a stale handler is on top.
- The sorted enum map: insertion sort and binary search on a constant table would add only easy members.
- The mixing of the hash and the generation of its secrets, which depends on randomness. That `isPrime` rejects every composite rests on published tables of bases.
- The assembler and intrinsic branches of the division and of the bit counts; `Clz` has its mathematical meaning. Formatting of 128-bit numbers.
- StackManager.StackManager.EraseValueStack: after a range that reaches below the operands of the innermost activation the frames no longer describe activations, so only the two vectors are stated.
- Exceptions.CatchException: the stop token that can interrupt a branch is not modelled.
- The 32-bit casts of stack sizes in frames and handlers.
- Files, memory maps, names, floats and headers of the file manager.
- Loader errors of elements are modelled as failed reads, and elements are pure functions of the bytes at the cursor; the default elements of a vector that failed half-way are not modelled.
- The limit of the gas counter is fixed during a run. A stale load may see any earlier total; that the loads of one thread do not go back in time is not used.
- The executor's instructions, the ahead-of-time compiler, the configuration and the host interface.
