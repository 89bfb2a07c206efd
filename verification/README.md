# Verified models of a CEL-to-WebAssembly runtime

The runtime compiles Common Expression Language programs to WebAssembly and evaluates them over one flat
linear memory. Its kernels are written in C and C++; their invariants are stated in comments. This project
models those kernels in Dafny and proves the invariants.

| file | models |
|---|---|
| Machine, Doubles, Values | machine integers, IEEE doubles as exact reals in a representable set with NaN and the infinities, round-to-nearest-even conversion, the tagged value |
| Compare, MapKeys | the cross-type numeric ladder, lossless key equality, the key hash |
| Swar, Probe, Counting, MapIndex | word-parallel byte scans, triangular probing, the SwissTable map index with `IndexBlock` and `ArenaMap` as classes over arrays |
| Arith, ThreeValued, KernelLaws, PartialEval | overflow-checked arithmetic, the strict and the logic kernels on decoded values, partial evaluation of expression trees |
| BumpArena, UnknownSets | the chained bump arena over malloc, unknown-set descriptors in linear memory, the slot-overwriting kernels |
| WasmBinary | LEB128, the section walk, appending a custom section |
| Utf8, Text, Decimal | the UTF-8 validator, code-point walks (charAt, trim, reverse), decimal parsing and printing |
| MinMax, Cidr | the min/max fold, address blocks |
| Activations, Marshal, Evaluation | lazily bound activations, the two-pass marshal into linear memory, the start of an evaluation |

Code that updates state step by step is modelled by methods and classes over arrays and proved against
specification functions; code made of expressions is modelled by functions.

Parameters stand for what the code does not decide: the bit mixer and the byte hash (`Mixer`), the
floating-point operations (`Floating`), whether an allocation is granted (`granted`, or a `Heap` whose
malloc may return null or any block apart from the live ones), and what a lazy binder produces.

## Where the code is not what its comments say

- `runtime/cel_arena.h` describes one malloc'd buffer and a constant-time reset. `runtime/cel_arena.c` keeps a
  chain of chunks, and a reset walks and frees all but the first. The model follows the code.
- The comment on `pick_grow_size` ends "up to the per-chunk cap". The code grants a request above the cap a
  chunk of exactly its size; `BumpArena.PickGrowSize` states both cases.
- The comment on `EnsureActivationBuffer` says an outgrown buffer returns to the allocator. The code never
  frees it; `Marshal.Instance.EnsureActivationBuffer` keeps it allocated.
- `AppendCustomSection` followed by `FindCustomSection` returns the payload exactly when the section body is
  shorter than 2^32 bytes; beyond that the size field wraps (`WasmBinary.FindAfterAppend`).
- Merging unknown sets computes its size in 32 bits. The merge stays inside the storage it obtains exactly
  when the sets have fewer than 2^30 ids together (`UnknownSets.MergeStaysInsideIff`; a set of 2^29 ids merged
  with itself, `UnknownSets.HalfMemoryMerge`, asks for one word).
- The marshal cuts host text lengths to 32 bits. The copy stays inside its extent exactly when the length is not
  within seven bytes below a multiple of 4 GiB, and arrives whole exactly up to 2^32 - 8 bytes
  (`Marshal.CopyStaysInside`, `Marshal.WholeTextArrives`, `Marshal.LostExtent`).
- A budget above 2^32 - 4096 bytes never succeeds, because rounding it to pages gives 0
  (`Marshal.LastPageReservesNothing`).
- `reverse` is an involution exactly on texts that do not start inside a code point, and on texts made of
  continuation bytes alone (`Text.ReverseTwice`).
- The comparison ladder is not exact: it calls an int and a double equal when rounding merges them
  (`Compare.LadderExactIff`, with the instance `Compare.LadderMergesNeighbours`). So `math.min` of two operands is
  the true minimum except in exactly that situation (`MinMax.BinaryExactIff`, with the instance `MinMax.MinKeepsTheLarger`).
- `runtime/cel_internal.h` states ERROR over UNKNOWN, with merged ids, for strict operations. The string
  extensions absorb left to right instead and drop the second operand's ids (`ThreeValued.AbsorptionsAgree`);
  partial evaluation stays sound under either rule.
- `&&` and `||` are safe for partial evaluation exactly when no unknown meets a value that is no boolean
  (`PartialEval.LogicMonotoneIff`); well-typed trees never get there.
- `&&` and `||` commute except that of two different errors the left one survives (`ThreeValued.LogicCommutes`).

## Model

| member | source | states |
|---|---|---|
| Doubles.RoundIntRespects | runtime/cel_compare.c:125-137 | converting an integer to double moves it across no double: it stays on the same side of every representable number, and hits it when equal |
| Doubles.RoundIntIsNearest | runtime/cel_compare.c:125-137 | conversion goes to a nearest double |
| Doubles.RoundsToNearestEven | runtime/cel_compare.c:125-137 | and of two equally near ones to the one with the even significand |
| Doubles.RoundIntMonotone | runtime/cel_compare.c:125-137 | the conversion is monotone on all integers |
| Doubles.CastRoundTrip | runtime/cel_compare.c:289-304 | the cast round trip accepts exactly the integral doubles, and then the cast is exact |
| Doubles.EndImages | runtime/cel_compare.c:125-137 | the range ends compared against are the double images of INT64_MIN, INT64_MAX and UINT64_MAX |
| Compare.LadderDecides | runtime/cel_compare.c:113-178 | with a double on either side the ladder compares double images, otherwise exact values; the early range exits change nothing |
| Compare.LadderIsSound | runtime/cel_compare.c:101-178 | Less and Greater are mathematically true, equal numbers compare Equal, Equal means equal images, NaN never orders, swapping flips |
| Compare.LadderExactIff | runtime/cel_compare.c:101-178 | the verdict is the mathematical one unless exactly one operand is a double, the images coincide and the numbers differ |
| Compare.SmallIntegersExact | runtime/cel_compare.c:125-137 | integers of magnitude at most 2^53 never merge with anything |
| Compare.LadderMergesNeighbours | runtime/cel_compare.c:125-137 | 2^53 + 1 and the double 2^53 compare Equal although they differ |
| MapKeys.ConversionsLossless | runtime/cel_compare.c:289-304 | a double converts to int or uint exactly when it is an integer in range, and then without loss |
| MapKeys.NumericKeyEqExact | runtime/cel_compare.c:308-329 | numeric key equality is mathematical equality; NaN equals nothing |
| MapKeys.MapKeyEqIsIdentity | runtime/cel_compare.c:332-339 | keys are equal exactly when they have the same identity, so key equality is an equivalence apart from NaN |
| MapKeys.KeyEqImpliesValueEq | runtime/cel_runtime.c:851-885 | equal keys are equal values |
| MapKeys.ValueEqIff | runtime/cel_runtime.c:851-885 | the operator's equality is sameness of double images with a double, of numbers without, and key equality on everything else |
| MapKeys.KeysByKind | runtime/cel_compare.c:332-339 | texts compare by bytes, booleans by value, ints and uints by number; no key equals one of another kind except among numbers |
| MapKeys.HashDependsOnNumber | runtime/cel_map_hash.h:168-257 | the hash of a numeric key is a function of the number alone, whatever its kind |
| MapKeys.EqualKeysHashAlike | runtime/cel_map_hash.h:21-36 | keys that are equal hash alike, across int, uint and double, for every mixer |
| MapKeys.HashBytes | runtime/cel_map_hash.h:203-214 | the byte loop computes the left fold of its step, finalised with the length |
| Swar.BroadcastIsProduct | runtime/cel_map_hash.h:94-97 | the product with 0x0101..01 puts the byte in every lane |
| Swar.GroupMatchLane | runtime/cel_map_hash.h:94-97 | no lane equal to h2 is missed, and a lane flagged wrongly holds h2 xor 1 |
| Swar.CandidateLanes | runtime/cel_map_index.c:82-90 | the candidate flags include every lane equal to h2 and only full slots |
| Swar.EmptyLanes | runtime/cel_map_hash.h:107-109 | without deletions the empty flags are exactly the empty lanes |
| Swar.LowestZeroFlagExact | runtime/cel_internal.h:239-242 | borrow can corrupt only flags above the lowest one, which is exact |
| Swar.LowestFlag | runtime/cel_map_index.c:88-91 | counting trailing zeros finds the lowest flagged lane |
| Swar.ClearLowestFlag | runtime/cel_map_index.c:96-96 | `match &= match - 1` removes exactly that lane |
| Swar.SwarMemchr | runtime/cel_internal.h:245-263 | the first occurrence of a byte, or none, for every length |
| Swar.BytesEqual | runtime/cel_internal.h:203-219 | word-wise comparison is equality of the byte strings |
| Swar.AsciiPrefixBlocks | runtime/cel_internal.h:314-324 | the run of whole 8-byte blocks that are ASCII, and no longer |
| Probe.NumSlots | runtime/cel_map_hash.h:297-313 | the least power of two, at least 8, with 8 * count <= 7 * slots |
| Probe.NumSlotsUnique | runtime/cel_map_hash.h:297-313 | build and lookup compute the same table size from the count |
| Probe.TrianglesDistinct | runtime/cel_map_index.c:77-79 | triangular numbers are distinct modulo a power of two |
| Probe.ProbeCovers | runtime/cel_map_index.c:74-106 | every slot lies in a group visited within slots/8 steps |
| Probe.ProbeInjective | runtime/cel_map_index.c:74-106 | no slot is visited twice in those steps |
| MapIndex.ScanFinds | runtime/cel_map.h:118-124 | the linear scan answers the first equal entry, and UINT32_MAX when there is none |
| MapIndex.BlockGeometry | runtime/cel_map_index.c:41-57 | control bytes and slot array are disjoint and aligned, and the size does not wrap; the last group and the last slot end exactly with them |
| MapIndex.SomeGroupNotFull | runtime/cel_map_index.c:77-79 | some probed group has an empty slot, so both probe loops stop |
| MapIndex.AbsentAfterEmpty | runtime/cel_map_index.c:99-102 | a key absent from all groups up to one with an empty slot is not stored |
| MapIndex.MatchIsUnique | runtime/cel_map.h:118-124 | a confirmed match is the entry that the linear scan meets first |
| MapIndex.EachEntryOnce | runtime/cel_map_index.c:114-155 | a published index holds every entry in exactly one full slot |
| MapIndex.ArenaMap.ScanGroup | runtime/cel_map_index.c:88-97 | one group either yields an entry equal to the key or holds none |
| MapIndex.ArenaMap.Find | runtime/cel_map_index.c:61-107 | the lookup returns what a linear scan returns, for every key |
| MapIndex.ArenaMap.PlaceEntry | runtime/cel_map_index.c:114-155 | places entry i in its own probe's first free slot and keeps the invariant, or reports an equal earlier key |
| MapIndex.ArenaMap.PlaceAll | runtime/cel_map_index.c:198-207 | succeeds exactly on pairwise distinct keys and then indexes all of them |
| MapIndex.ArenaMap.Build | runtime/cel_map_index.c:157-212 | poisons with DUPLICATE_KEY exactly when two keys are equal; otherwise publishes a complete index if storage is granted |
| Arith.Uint64MulOverflows | runtime/cel_arith.c:33-46 | overflow is reported exactly when the product exceeds 64 bits; otherwise the product is exact |
| Arith.Int64MulOverflows | runtime/cel_arith.c:51-77 | the same for signed operands, including INT64_MIN |
| Arith.TruncLaw | runtime/cel_arith.c:127-165 | quotient and remainder satisfy a = q * b + r with |r| < |b| and r signed like a |
| Arith.QuotientInRange | runtime/cel_arith.c:127-165 | INT64_MIN / -1 is the only quotient out of range |
| KernelLaws.IntAddLaw | runtime/cel_arith.c:85-97 | the sum is the number from which y can be taken to leave x; overflow exactly when it is out of range |
| KernelLaws.IntSubLaw | runtime/cel_arith.c:99-111 | the difference is the number to which y can be added to give x; overflow exactly when it is out of range |
| KernelLaws.SubUndoesAdd | runtime/cel_arith.c:85-111 | subtraction undoes addition |
| KernelLaws.IntMulLaw | runtime/cel_arith.c:113-125 | multiplication is repeated addition, with its overflows |
| KernelLaws.CelIntMul | runtime/cel_arith.c:113-125 | the kernel on the split product overflows exactly where that reports it |
| KernelLaws.IntDivModLaw | runtime/cel_arith.c:127-165 | quotient and remainder rebuild the dividend, the remainder signed like it; the three exceptions are errors |
| KernelLaws.IntNegLaw | runtime/cel_arith.c:167-180 | negation gives the number that cancels x, and fails only on INT64_MIN |
| KernelLaws.UintAddSubLaw | runtime/cel_arith.c:184-210 | the same for uint sums and differences |
| KernelLaws.UintMulLaw | runtime/cel_arith.c:212-224 | uint multiplication is repeated addition, with its overflows |
| KernelLaws.CelUintMul | runtime/cel_arith.c:212-224 | the kernel on the split product overflows exactly where that reports it |
| KernelLaws.UintDivModLaw | runtime/cel_arith.c:226-252 | uint quotient and remainder rebuild the dividend; zero divisors are errors |
| KernelLaws.DoubleArithmeticLaw | runtime/cel_arith.c:256-300 | each double operator is its own floating-point operation and never fails |
| KernelLaws.IntsFollowTheLadder | runtime/cel_compare.c:27-40 | the int comparisons say what the ladder says |
| KernelLaws.UintsFollowTheLadder | runtime/cel_compare.c:27-45 | the uint comparisons say what the ladder says |
| KernelLaws.DoublesFollowTheLadder | runtime/cel_compare.c:27-54 | the double comparisons say what the ladder says |
| KernelLaws.IntegersCompareAsNumbers | runtime/cel_compare.c:199-243 | on ints and uints in any mixture the comparisons are those of the numbers |
| KernelLaws.MixedCompareAsImages | runtime/cel_compare.c:199-243 | with a double on a side they are those of the double images, and all false with a NaN |
| KernelLaws.BoolsCompareAsDigits | runtime/cel_compare.c:58-64 | booleans compare like 0 and 1 |
| KernelLaws.IntKindsOnly | runtime/cel_internal.h:165-174 | operands of other kinds are a type mismatch |
| KernelLaws.UintKindsOnly | runtime/cel_internal.h:165-174 | operands of other kinds are a type mismatch |
| KernelLaws.DoubleKindsOnly | runtime/cel_internal.h:165-174 | operands of other kinds are a type mismatch |
| KernelLaws.BoolKindsOnly | runtime/cel_internal.h:165-174 | operands of other kinds are a type mismatch |
| KernelLaws.NumericKindsOnly | runtime/cel_internal.h:165-174 | operands of other kinds are a type mismatch |
| KernelLaws.StrictOperands | runtime/cel_internal.h:127-163 | the first error is the result, without one all unknowns are merged |
| ThreeValued.LogicLaws | runtime/cel_3vl.c:142-256 | associativity, identities, zeros, idempotence, De Morgan duality and double negation on three-valued operands |
| ThreeValued.FirstErrorSurvives | runtime/cel_3vl.c:156-174 | of two errors the left one survives |
| ThreeValued.NonBooleans | runtime/cel_3vl.c:183-256 | a value that is no boolean is a type mismatch on either side of anything but the deciding value, and when negated |
| ThreeValued.Booleans | runtime/cel_3vl.c:183-256 | on booleans the operators are the logical ones; negation hands on errors and unknowns |
| ThreeValued.ChainsComeTo | runtime/cel_3vl.c:142-241 | a chain of any length comes to the deciding value if it occurs, else to an unknown with all ids, else to the first error, else to the other value |
| ThreeValued.LogicCommutes | runtime/cel_3vl.c:142-241 | the operators commute unless both operands are errors and differ |
| ThreeValued.AbsorptionsAgree | runtime/cel_string_ext_internal.h:46-59 | left-to-right absorption agrees with the strict envelope exactly unless a left unknown meets an error or further ids |
| PartialEval.LeftFirstSettles | runtime/cel_string_ext_internal.h:46-59 | left-to-right absorption is monotone too, for every kernel |
| PartialEval.EvaluationIsClassical | runtime/cel_3vl.c:183-256 | on boolean leaves, trees of logic operators have their classical meaning |
| PartialEval.EvalTyped | runtime/cel_internal.h:165-174 | a well-typed tree yields its type, an unknown or an error, and adds no type error of its own |
| PartialEval.PartialEvaluationSound | runtime/cel_3vl.c:142-256 | for every well-typed tree, resolving unknown leaves, to whatever values or errors, never revises a settled result |
| PartialEval.StrictSettles | runtime/cel_internal.h:111-155 | ERROR over UNKNOWN is monotone for every strict kernel |
| PartialEval.LogicMonotoneIff | runtime/cel_3vl.c:142-241 | a logic operator is safe against every way its operands may turn out exactly when no unknown meets a value that is no boolean |
| PartialEval.DynamicPartialEvaluationSound | runtime/cel_3vl.c:142-256 | for every dynamically typed tree in which no unknown meets a non-boolean at a logic node, resolving unknown leaves never revises a settled result |
| PartialEval.TypedIsHarmonious | runtime/cel_internal.h:165-174 | well-typed trees have no such node in any environment of their types |
| PartialEval.ErrorFirstLogicUnsound | runtime/cel_3vl.c:142-174 | the strict precedence would make the logic operators revise a settled error |
| PartialEval.IllTypedLogicUnsound | runtime/cel_3vl.c:183-211 | the instance outside that condition: a settled type error is revised |
| PartialEval.UnknownIdsComeFromLeaves | runtime/cel_internal.h:111-155 | every id in an unknown result comes from an unknown leaf of the tree |
| BumpArena.DisjointBlocksFit | runtime/cel_arena.c:64-77 | disjoint blocks hold fewer bytes than the memory has, so the 32-bit totals never wrap |
| BumpArena.PickGrowSize | runtime/cel_arena.c:152-164 | twice the previous capacity between the two bounds, never below the request; above 1 MiB only for a request that large; behind 2 GiB the doubling wraps |
| BumpArena.Arena.AllocChunk | runtime/cel_arena.c:64-77 | a chunk of the wanted size, or null with nothing leaked |
| BumpArena.Arena.Init | runtime/cel_arena.c:93-150 | one empty chunk of the wanted size; a second call traps exactly on another size |
| BumpArena.Arena.Alloc | runtime/cel_arena.c:166-219 | zeroed, 8-aligned storage that nothing reserved before, from the tail chunk exactly when it fits there; 0 with nothing changed only for an unalignable size or when malloc refused a chunk; earlier allocations stay |
| BumpArena.Arena.Reset | runtime/cel_arena.c:225-245 | exactly the original chunk remains, empty, and the others are freed |
| BumpArena.Arena.HeapGrew | runtime/cel_arena.c:166-219 | blocks that others obtain from the same heap leave the arena valid and its bytes reserved |
| BumpArena.Arena.Layout | runtime/cel_arena.c:93-245 | after any run of allocations and resets: live allocations are pairwise disjoint, inside one chunk, at 8-multiples, apart from the OOM block, and the totals are the sums over the chain |
| UnknownSets.LowestByteFirst | runtime/cel_3vl.h:28-37 | a word lies in memory lowest byte first |
| UnknownSets.AbsorbedIffNoValue | runtime/cel_internal.h:157-163 | what an envelope hands on is exactly what denotes no value |
| UnknownSets.DescriptorExample | runtime/cel_3vl.h:28-37 | the descriptor layout on an instance |
| UnknownSets.MergeIsUnion | runtime/cel_3vl.c:19-47 | merging strictly sorted arrays gives the strictly sorted array of the union |
| UnknownSets.MergeSortedIdArrays | runtime/cel_3vl.c:19-47 | the merge loop over memory writes that array and nothing else |
| UnknownSets.HeldKept | runtime/cel_3vl.c:65-84 | a descriptor in held memory means the same after any later allocation |
| UnknownSets.MergeStaysInsideIff | runtime/cel_3vl.c:73-83 | for any two sets a memory can hold, a merge whose storage is granted stays inside its block exactly when they have fewer than 2^30 ids together |
| UnknownSets.HalfMemoryMerge | runtime/cel_3vl.c:73-83 | the instance: a set of 2^29 ids merged with itself asks for 4 bytes and writes 2 GiB |
| UnknownSets.Kernels.MergeUnknownDescriptors | runtime/cel_3vl.c:51-84 | a fresh descriptor of the union, leaving both inputs as they were; an overrun exactly where the merge would leave its block |
| UnknownSets.Kernels.UnknownMerge | runtime/cel_3vl.c:94-130 | the out slot means the union of the two sets, or an overflow error when malloc refused storage or the ids fill all but one word of 4 GiB; every other slot keeps its meaning, also when out is an operand; sets of together 2^30 ids or more never get a result: the run overruns or is refused |
| UnknownSets.Kernels.CelAnd | runtime/cel_3vl.c:183-211 | the out slot means the specified conjunction of what the operands meant; only the merge of two oversized sets overruns; of two errors the left slot is copied |
| UnknownSets.Kernels.CelOr | runtime/cel_3vl.c:215-241 | the same for disjunction |
| UnknownSets.Kernels.CelNot | runtime/cel_3vl.c:243-256 | the same for negation |
| UnknownSets.Kernels.StrictBinaryAt | runtime/cel_internal.h:111-155 | the out slot means the specified strict result, merging two unknowns |
| WasmBinary.ReadLeb128U32 | abi/wasm_binary.cc:57-70 | the reading loop computes the specified value and end position, or fails |
| WasmBinary.AppendLeb128U32 | abi/wasm_binary.cc:72-82 | the writing loop appends the encoding |
| WasmBinary.LebDenotes | abi/wasm_binary.cc:57-70 | a successful read takes at most five bytes and returns the number its groups denote, cut to 32 bits |
| WasmBinary.LebAcceptedIff | abi/wasm_binary.cc:57-70 | a read succeeds exactly when one of five bytes ends the groups |
| WasmBinary.EncodeLebDenotes | abi/wasm_binary.cc:72-82 | the encoding denotes its number and is minimal |
| WasmBinary.LebRoundTrip | abi/wasm_binary.cc:57-82 | reading what was appended gives the number back and ends behind it, for every u32 |
| WasmBinary.LebExtends | abi/wasm_binary.cc:57-70 | a successful read does not depend on bytes behind it |
| WasmBinary.FindCustomSection | abi/wasm_binary.cc:105-142 | the section walk computes the specified result: found payload, not found, or malformed |
| WasmBinary.PreambleIff | abi/wasm_binary.cc:44-55 | a bad preamble is reported exactly when the eight bytes are not those of a core module |
| WasmBinary.FindInModule | abi/wasm_binary.cc:105-142 | on every well-formed module: the payload of the one custom section with the name, a complaint on several, not found otherwise |
| WasmBinary.WalkExtends | abi/wasm_binary.cc:112-139 | appended bytes leave the walk over the old bytes as it was, ending at the old end |
| WasmBinary.BuildCustomSection | abi/wasm_binary.cc:161-172 | identifier, size and body |
| WasmBinary.ShortSection | abi/wasm_binary.cc:161-172 | a short custom section byte by byte |
| WasmBinary.AppendCustomSection | abi/wasm_binary.cc:144-159 | refuses a malformed binary and a present name, otherwise appends the section |
| WasmBinary.FindAfterAppend | abi/wasm_binary.cc:89-172 | find after append returns the payload exactly when the body is under 2^32 bytes, and every other name answers as before |
| Utf8.UnitSound | runtime/cel_convert.c:638-671 | an accepted unit is the encoding of a scalar value: no overlong form, no surrogate, nothing above U+10FFFF |
| Utf8.UnitComplete | runtime/cel_convert.c:638-671 | every encoding is accepted whole and decodes to its scalar value |
| Utf8.ValidIffEncoded | runtime/cel_convert.c:673-697 | the accepted texts are exactly the encodings of sequences of scalar values |
| Utf8.Examples | runtime/cel_convert.c:638-697 | the examples of section 7 of RFC 3629 and the forms it forbids |
| Utf8.Utf8Valid | runtime/cel_convert.c:673-697 | the validator's loop decides that |
| Text.Utf8DecodeMulti | runtime/cel_string_ext_internal.h:129-147 | the decoding loop computes the specified code point and length, with the one-byte fallback |
| Text.Utf8Decode | runtime/cel_string_ext_internal.h:156-167 | dispatch on the lead byte gives the specified result |
| Text.DecodeUnits | runtime/cel_string_ext_internal.h:129-167 | which bytes make a unit: a lead with its continuation bytes; every other byte stands for itself |
| Text.DecodePoints | runtime/cel_string_ext_internal.h:129-167 | what the unit denotes, overlong or not |
| Text.DecodeStable | runtime/cel_string_ext_internal.h:129-167 | cutting the text behind a decoded unit does not change it |
| Text.PiecesPartition | runtime/cel_string_ext_codepoint.cc:117-129 | the units of any byte string concatenate back to it, so charAt over all indices does |
| Text.PiecesOfEncoded | runtime/cel_string_ext_codepoint.cc:117-129 | on valid UTF-8 the units are the code points' encodings |
| Text.CharAtPartition | runtime/cel_string_ext_codepoint.cc:101-139 | the charAt answers for all positions concatenate back to the text, then one empty answer, then errors |
| Text.CharAtAnswers | runtime/cel_string_ext_codepoint.cc:113-138 | inside the text the one unit with pos units in front of it, just past the end the empty text, everywhere else an error |
| Text.CharAtEncoded | runtime/cel_string_ext_codepoint.cc:113-138 | on encoded text the encoding of the code point at pos |
| Text.CharAt | runtime/cel_string_ext_codepoint.cc:101-139 | unit number pos, the empty text exactly at the end, an error elsewhere; absorption left to right; on encoded text the code point at that position |
| Text.Trim | runtime/cel_string_ext_codepoint.cc:187-226 | the two walks compute the trimmed text |
| Text.TrimCuts | runtime/cel_string_ext_codepoint.cc:198-225 | trimming cuts whole blank units off both ends, and the rest keeps its units |
| Text.WhitespaceTable | runtime/cel_string_ext_codepoint.cc:43-52 | exactly the 25 code points of the White_Space property |
| Text.TrimEnds | runtime/cel_string_ext_codepoint.cc:198-225 | what is left starts and ends with a unit that is not blank, or is empty |
| Text.TrimEncoded | runtime/cel_string_ext_codepoint.cc:187-226 | on encoded text, the white space at both ends goes and nothing else |
| Text.TrimIdempotent | runtime/cel_string_ext_codepoint.cc:187-226 | trimming twice is trimming once, on arbitrary bytes |
| Text.PrevCodepoint | runtime/cel_string_ext_internal.h:175-181 | the backward walk stops at the last byte that is no continuation, or at the start |
| Text.Reverse | runtime/cel_string_ext_codepoint.cc:232-268 | the copying loop computes the reversal |
| Text.ReversedPermutes | runtime/cel_string_ext_codepoint.cc:253-263 | reversal permutes the bytes of any input |
| Text.ReversedEncoded | runtime/cel_string_ext_codepoint.cc:253-263 | on valid UTF-8, reversal is the encoding of the reversed code points |
| Text.ReverseTwice | runtime/cel_string_ext_codepoint.cc:232-268 | reversal twice is the identity exactly when the text starts cleanly or is all continuation bytes |
| Decimal.AccumulateDecimal | runtime/cel_convert.c:186-197 | the positional value of the digits, or failure exactly on a non-digit or a value above 64 bits |
| Decimal.Characters | runtime/cel_convert.c:186-197 | the digits and signs are the characters, and a digit counts its distance from zero |
| Decimal.PositionalConcat | runtime/cel_convert.c:186-197 | digits count tens of what stands in front of them |
| Decimal.NumeralsDenote | runtime/cel_convert.c:199-246 | digits behind nothing, a plus or a minus denote the number, the number and its negation |
| Decimal.NumeralShape | runtime/cel_convert.c:217-232 | and there are no other numerals |
| Decimal.LeadingZeros | runtime/cel_convert.c:186-197 | leading zeros do not change the number |
| Decimal.ParseInt64 | runtime/cel_convert.c:199-232 | accepts exactly an optional sign and digits in the int64 range, and returns the number denoted |
| Decimal.ParseUint64 | runtime/cel_convert.c:234-246 | accepts exactly an optional plus and digits in the uint64 range |
| Decimal.WriteUintDecimal | runtime/cel_convert.c:522-537 | writes the digits of v at the destination and nothing else |
| Decimal.WriteIntDecimal | runtime/cel_convert.c:541-549 | writes the signed text, including INT64_MIN |
| Decimal.TwentyDigits | runtime/cel_convert.c:527-527 | the 20-byte buffer is large enough |
| Decimal.StringToInt | runtime/cel_convert.c:444-459 | the result is the int denoted by the text, or an error exactly when there is none |
| Decimal.IntToString | runtime/cel_convert.c:570-582 | the result is the decimal text of the int |
| Decimal.PrintThenParse | runtime/cel_convert.c:186-246 | parsing a printed number gives it back |
| Decimal.ParseThenPrint | runtime/cel_convert.c:186-246 | printing a parsed numeral gives the text back exactly without plus sign, leading zeros and negative zero |
| MinMax.MinMaxList | runtime/cel_math_ext.c:377-415 | empty list, first non-number, or the fold of all elements |
| MinMax.FoldExtremal | runtime/cel_math_ext.c:334-339 | without NaN, no element's double image beats the result's |
| MinMax.FoldExact | runtime/cel_math_ext.c:377-415 | without doubles, the exact extremum and its first occurrence |
| MinMax.MinIsLeastMaxIsGreatest | runtime/cel_math_ext.c:377-424 | on ints and uints in any mixture min is a least and max a greatest element |
| MinMax.FoldNaN | runtime/cel_math_ext.c:320-328 | the result is NaN exactly when the first element is |
| MinMax.FoldIgnoresNaN | runtime/cel_math_ext.c:320-328 | behind a first non-NaN element, NaN elements are as good as absent |
| MinMax.BinaryExactIff | runtime/cel_math_ext.c:341-352 | the two-operand result is the true extremum exactly unless rounding merges an int and a double and the second is better |
| MinMax.FirstOfTwoStays | runtime/cel_math_ext.c:334-352 | the first operand stays unless the second is strictly better; no other operands |
| MinMax.FoldRepeatsBinary | runtime/cel_math_ext.c:377-415 | the list form repeats the two-operand form from the left |
| MinMax.MinKeepsTheLarger | runtime/cel_math_ext.c:341-352 | min of the int 2^53 + 1 and the double 2^53 is the int |
| Cidr.FirstNBitsMatch | runtime/cel_net_ext.c:384-396 | true exactly when the first n bits agree |
| Cidr.MostSignificantFirst | runtime/cel_net_ext.c:381-396 | bit 0 of a byte is its top bit, and the others follow downwards |
| Cidr.WholeBytePrefix | runtime/cel_net_ext.c:384-396 | a prefix of whole bytes agrees exactly when the leading bytes do |
| Cidr.MaskBits | runtime/cel_net_ext.c:399-408 | masks the array in place |
| Cidr.MaskedBits | runtime/cel_net_ext.c:399-408 | masking clears exactly the bits behind the prefix |
| Cidr.CidrContainsIp | runtime/cel_net_ext.c:536-558 | same family and same prefix bits |
| Cidr.CidrContainsCidr | runtime/cel_net_ext.c:572-594 | same family, no longer prefix, same prefix bits |
| Cidr.CidrMasked | runtime/cel_net_ext.c:620-639 | the block with its address masked |
| Cidr.FamilyWidths | runtime/cel_net_ext.c:442-450 | which blocks are valid: zero tail and prefix limit by family |
| Cidr.CoversIsSubset | runtime/cel_net_ext.c:572-594 | block containment holds exactly when every valid address in B is in A |
| Cidr.ContainsIffMaskedEqual | runtime/cel_net_ext.c:536-558 | within a family, membership is equality of masked addresses |
| Cidr.MaskingKeepsTheSet | runtime/cel_net_ext.c:620-639 | masking is idempotent, keeps validity and keeps the address set |
| Cidr.MutualCover | runtime/cel_net_ext.c:572-594 | two blocks contain each other exactly when they mask to the same block |
| Cidr.ParsePrefix | runtime/cel_net_ext.c:413-426 | accepts exactly a non-empty run of digits with value at most max |
| Activations.Activation.Bind | eval/activation.cc:13-21 | the name has this value and no binder, other names are untouched |
| Activations.Activation.BindLazy | eval/activation.cc:23-28 | the name has this binder and no value |
| Activations.Activation.Resolve | eval/activation.cc:30-48 | a value at hand is returned as it is; otherwise one binder run, memoised unless it fails |
| Activations.Activation.ClearLazyCache | eval/activation.cc:50-52 | no memo is left |
| Marshal.CopyStaysInside | eval/instance.cc:577-594 | the copy of a text stays inside its extent exactly when its length modulo 2^32 is at most 2^32 - 8 |
| Marshal.WholeTextArrives | eval/instance.cc:577-594 | a text arrives whole and inside its extent exactly when it has at most 2^32 - 8 bytes |
| Marshal.LostExtent | eval/instance.cc:577-594 | the instances: 2^32 - 1 bytes go into an empty extent, 2^32 bytes are cut to nothing |
| Marshal.SizingStep | eval/instance.cc:1036-1061 | adding a length and aligning, both in 32 bits, is adding the aligned 32-bit length and wrapping, for every length |
| Marshal.BudgetSplits | eval/instance.cc:1241-1243 | text bytes plus 16 per blanked variable is the sum over the variables |
| Marshal.TotalHostStringBytes | eval/instance.cc:1014-1063 | the sum of the aligned 32-bit text lengths modulo 2^32, with every text variable's value settled |
| Marshal.CostsStable | eval/instance.cc:1029-1034 | once settled, later binder runs do not change what a variable costs |
| Marshal.LastPageReservesNothing | eval/instance.cc:438-441 | page rounding reaches the budget exactly when that is at most 2^32 - 4096; 2^32 - 8 rounds to 0 |
| Marshal.Instance.EnsureActivationBuffer | eval/instance.cc:452-499 | afterwards the buffer is large enough, unless rounding to pages overflows 32 bits |
| Marshal.Instance.PlaceSpan | eval/instance.cc:580-594 | out of space exactly when the extent does not fit, an overrun exactly when the copy would leave it; otherwise the 32-bit length of bytes is at the cursor and nothing else changes |
| Marshal.OwnReprOnly | eval/instance.cc:711-931 | a value that is neither null nor a message fits the representation of its kind and no other |
| Marshal.MessagesFit | eval/instance.cc:614-706 | a message fits as a message, and a well-known one also where the kind it stands for fits |
| Marshal.NullFits | eval/instance.cc:701-715 | null fits the four scalars and nothing else |
| Marshal.TextsArePayloads | eval/instance.cc:558-595 | a text that fits arrives with its bytes, and texts alone take buffer space |
| Marshal.Instance.EncodeScalar | eval/instance.cc:711-768 | a scalar takes null, its wrapper message or its own kind, and nothing else |
| Marshal.Instance.EncodeTime | eval/instance.cc:774-808 | a duration or timestamp takes its message or its own kind, not null |
| Marshal.Instance.EncodeBoundValue | eval/instance.cc:953-993 | the declared representation decides which kinds fit, what cell results, and which failure otherwise |
| Marshal.Instance.EncodeUnknownVariable | eval/instance.cc:1151-1170 | a one-element descriptor at the cursor, within its 16 bytes |
| Marshal.BlankedMeansItsId | eval/instance.cc:1137-1150 | the kernels read that descriptor as the set of its one id |
| Marshal.WellBoundIsBlameless | eval/instance.cc:1177-1221 | with a value of its own kind for every variable, slots in range and texts contained, there is nothing to blame |
| Marshal.Instance.MarshalOneVariable | eval/instance.cc:1177-1221 | a variable uses up exactly its budgeted cost, or the cost does not fit, or the failure states what is wrong with it |
| Marshal.ExtentsApart | eval/instance.cc:558-595 | payload extents are disjoint and within the budget |
| Marshal.Instance.MarshalActivation | eval/instance.cc:1223-1275 | on success the cursor equals the budget, which is at most 2^32 - 4096, every text is contained in its own extent and every cell holds its value; out of space only above that budget, an overrun only at a text that is not contained; any other failure has a variable to blame or a refused malloc; every binder runs at most once and never for a blanked variable; an activation whose values have the declared kinds, within the budget, succeeds unless malloc refuses |
| Evaluation.StartEvaluation | eval/instance.cc:1137-1150 | the marshalled descriptors survive the arena reset that starts an evaluation: they lie in held memory and denote their ids |
| Evaluation.KernelsCanStart | eval/instance.cc:1137-1150 | the kernels' invariant holds of slots that carry them |

## Left out

- UnknownSets.Kernels.UnknownMerge: where the merge would leave its block the run ends as an overrun, and nothing is promised about the memory behind it; the same holds for the kernels that call it.
- Marshal.Instance.PlaceSpan: where the copy would leave its extent the run ends as an overrun, and nothing is promised about the memory behind it.
- Marshal.Instance.MarshalActivation: workspace slots are returned as one cell per variable instead of being overwritten in the low memory, so two variables sharing a slot offset are not modelled; the two size constants of a slot are kept for the bounds check.
- Marshal.Instance.EncodeBoundValue: a cell names the bound value it was taken from; converting scalar payloads and interning messages, lists and maps in externref tables are not part of this model.
- UnknownSets.Kernels.StrictBinaryAt: slots are an array of tagged values rather than 24-byte records, so slots that overlap in part are not modelled; slots that coincide are.
- MapIndex.ArenaMap.Build: the key run is a sequence and the index block an object of its own; that the arena hands out fresh zeroed blocks is proved in BumpArena, and the address arithmetic is covered by `MapIndex.BlockGeometry`.
- MapKeys.KeyEqImpliesValueEq: values behind references compare by reference; comparison inside lists, maps and messages is not part of this model.
- MinMax.MinMaxList: the fold starts from the list's elements; lifting a host list into the arena is left out.
- Cidr.CidrContainsIp: addresses arrive parsed; inet_pton, inet_ntop and resolving a text argument are left out.
- BumpArena.Arena.Init: the native build's fixed buffer is left out, the chained WebAssembly build is modelled.
- The sign of zero: doubles are reals, so 0.0 and -0.0 are one value.
- SIMD variants of the scans; the word-parallel forms are modelled.
- Quality of the bit mixer and of the byte hash; only determinism and the seven bits of H2 matter.
- Floating-point arithmetic results, `parse_double_str` and double formatting: the operations are parameters.
- Case folding, quoting and the other string extensions; bool parsing; timestamps and durations beyond equality.
- The engine, linker, stores, traps, protobuf reflection, the error tables, and the command line: foreign libraries or table lookups.
