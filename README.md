# Depthcharge core, modelled in Dafny

Depthcharge is a toolkit for inspecting and attacking the U-Boot bootloader of embedded
devices through its console. This project models its core and proves properties about
it:

- the **hunters**, which scan a memory image for constants, NUL-terminated strings,
  command tables (`cmd_tbl_s`), environments and flattened device trees, while skipping
  gaps;
- the **write planners**:
  - the CRC32-inversion planner (`ReverseCRC32Hunter`), together with the reverse of
    CRC-32 on four bytes (`reverse_crc32_4bytes`) and the Stratagem replay simulator;
  - the copy planner (`CpHunter`), built on longest common substrings;
- the **memory readers and writers** that turn a read or write into console commands:
  - block and word splitting;
  - the CRC32 and `cp` Stratagem writers;
  - the `itest` binary search;
- the **data models**:
  - `Stratagem`, `MemoryPatch` and `MemoryPatchList`;
  - `OperationSet` and `PayloadMap`;
  - the configuration checker's `SecurityRisk`, `Report`, `ConfigChecker` and
    `UBootConfigChecker`;
- the **encoders and parsers**:
  - the U-Boot environment in text and binary form;
  - U-Boot version ordering and `cmd_tbl_s` packing;
  - the jump-table locator and the `Architecture` conversions;
  - the string utilities, including `xxd` and its reverse, and the round trip between them;
  - the payloads' `str2uint`;
- the **companion firmware**:
  - the `Communicator` request state machine;
  - the I2C peripheral buffers and the command dispatch of `Companion`;
  - the sticky `Panic` reason.

There is one module per source file. A few support modules are shared:

| module | what it holds |
|---|---|
| `Errors` | `Option`, `Result` and the Python exception kinds |
| `PyBytes` | Python slices and `int.to_bytes`/`from_bytes` |
| `PyInt` | `str.isspace` and `strip`, `int(s, 0)` and `int(s, 16)` over ASCII digits and letters (underscore grouping included), and formatting |
| `PyStr` | ASCII case mapping, `split`, `join` and `splitlines` |
| `Crc` | CRC-32 as zlib computes it: the reflected polynomial 0xEDB88320, with initial value and final XOR 0xFFFFFFFF (IEEE 802.3, clause 3.2.9) |
| `TargetMemory` | the target's memory as a function from address to byte |

The model's shapes follow the source:

- Code that updates state in place is a `class` with `modifies` clauses, or a method with loops and invariants. Examples are `Stratagem`, `MemoryPatchList`, `OperationSet`, `PayloadMap`, `Report`, `ConfigChecker`, the firmware classes and the simulator's array.
- Each such method is proved against a specification function. The lemmas state the source's promises about that function: round trips, bounds, orderings and error cases.

## Model

| member | source | states |
|---|---|---|
| ReverseCrc.ReverseCrc32 | python/depthcharge/revcrc32.py:21-58 | for every 32-bit `crc`, the CRC-32 of the result's four little-endian bytes is `crc`, and every word with that CRC is the result (the preimage is unique) |
| ReverseCrc.Round | python/depthcharge/revcrc32.py:45-55 | one loop round: shift `data` right, folding in the polynomial when its low bit was set, then XOR the inverse polynomial when the operand bit is set |
| ReverseCrc.RoundInvariant | python/depthcharge/revcrc32.py:43-55 | each of the 32 rounds keeps both loop invariants: the operand register has been shifted `i` times, and 32 register shifts of `data` give the `i` operand bits consumed so far |
| ReverseCrc.RevKeep | python/depthcharge/revcrc32.py:46-49 | a round whose operand bit is clear keeps the invariant with the next top bit clear |
| ReverseCrc.RevAdd | python/depthcharge/revcrc32.py:52-53 | a round whose operand bit is set XORs the inverse polynomial, which sets the next top bit |
| ReverseCrc.RevFinish | python/depthcharge/revcrc32.py:57-58 | after 32 rounds, `data ^ initxor` has CRC-32 `crc` |
| Crc.PowLinear | python/depthcharge/revcrc32.py:44-49 | shifting the CRC register commutes with XOR: the update is linear over GF(2) |
| Crc.PowInjective | python/depthcharge/revcrc32.py:44-49 | two registers that agree after `n` shifts were equal: the update is invertible |
| Crc.Crc32Chain | python/depthcharge/hunter/revcrc32.py:247-248 | `crc32(b, crc32(a, v)) == crc32(a + b, v)`: continuing from a CRC is the CRC of the concatenation |
| Crc.UpdateLEBytes | python/depthcharge/revcrc32.py:27-29 | absorbing the `n` little-endian bytes of a word is one XOR followed by `8n` shifts, with the unconsumed bits left over |
| Crc.Crc4Closed | python/depthcharge/revcrc32.py:27-29 | the CRC-32 of a four-byte word is 32 shifts of the word XOR `0xffffffff`, XOR `0xffffffff` |
| Crc.Crc4Injective | python/tests/unit/revcrc32.py:23-28 | distinct four-byte inputs have distinct CRC-32 values |
| Crc.LE4FromLE4 | python/tests/unit/revcrc32.py:24-27 | `to_bytes(4, 'little')` of `from_bytes(b, 'little')` gives back the four bytes `b` |
| Crc.FromLE4LE4 | python/tests/unit/revcrc32.py:24-27 | `from_bytes` of a word's four little-endian bytes gives back the word |
| ReverseCrcHunter.AddWindows | python/depthcharge/hunter/revcrc32.py:237-257 | the inner loop at offset `i`: the table stays sound (every entry is a CRC of an eligible window), every eligible window of 1..`maxlen` bytes at `i` is covered by an entry no longer than it, and nothing covered before is lost (corrected — see Findings row for python/depthcharge/hunter/hunter.py:320) |
| ReverseCrcHunter.InsertKeeps | python/depthcharge/hunter/revcrc32.py:254-255 | the insertion test keeps the table sound, covers the new window and loses no earlier coverage |
| ReverseCrcHunter.Extend | python/depthcharge/hunter/revcrc32.py:247-248 | continuing the running CRC with the next bytes gives the CRC of the longer window |
| ReverseCrcHunter.SkipStep | python/depthcharge/hunter/revcrc32.py:244-245 | a window that touches a gap is skipped and needs no entry (corrected — see Findings row for python/depthcharge/hunter/hunter.py:320) |
| ReverseCrcHunter.BuildRevlut | python/depthcharge/hunter/revcrc32.py:226-260 | `_build_revlut` yields a table mapping each CRC to an eligible window (outside every gap, 1..`maxlen` bytes, inside the search range) with that CRC, and every eligible window's CRC is present with a window that is shorter, or as long and no later (corrected — see Findings row for python/depthcharge/hunter/hunter.py:320) |
| ReverseCrcHunter.TableUnique | python/depthcharge/hunter/revcrc32.py:250-255 | the table property determines the table: two tables for the same hunter and `maxlen` are equal |
| ReverseCrcHunter.IterateInjective | python/depthcharge/hunter/revcrc32.py:185-188 | repeated CRC operations over a 4-byte word never merge two different states, so walking backwards is well defined |
| ReverseCrcHunter.NewRevHunter | python/depthcharge/hunter/revcrc32.py:179-221 | the base hunter's errors come first; a non-int `revlut_maxlen` is a TypeError, one below 1 a ValueError; otherwise the hunter keeps its `endianness` and holds a complete table (corrected — see Findings row for python/depthcharge/hunter/hunter.py:320) |
| ReverseCrcHunter.GoalOf | python/depthcharge/hunter/revcrc32.py:294-304 | 4 target bytes are read in the hunter's `endianness`, `'little'` or `'big'`; other lengths, or any other byte order, are a ValueError; a non-int, non-bytes target is a TypeError; an int is exact only within 32 bits |
| ReverseCrcHunter.GoalOfBytes | python/depthcharge/hunter/revcrc32.py:294-300 | 4 target bytes become the exact key whose little-endian bytes they are with `'little'`, and whose big-endian bytes they are with `'big'` |
| ReverseCrcHunter.Lookup | python/depthcharge/hunter/revcrc32.py:317-326 | a table lookup on an eligible window's CRC finds a window no worse than it (corrected — see Findings row for python/depthcharge/hunter/hunter.py:320) |
| ReverseCrcHunter.MissStep | python/depthcharge/hunter/revcrc32.py:327-328 | a lookup that misses rules out every chain of that many operations |
| ReverseCrcHunter.HitStep | python/depthcharge/hunter/revcrc32.py:318-326 | a lookup that hits gives a chain of that many operations that wins over every other chain of that length |
| ReverseCrcHunter.BackStep | python/depthcharge/hunter/revcrc32.py:330-333 | replacing the goal by its CRC preimage makes the chain one operation longer |
| ReverseCrcHunter.Walk | python/depthcharge/hunter/revcrc32.py:306-333 | with `max_iterations` below 1 the loop variable is unbound (NameError); otherwise the result is a chain of the fewest operations (at most `max_iterations`) from the best window, with `src_addr = address + src_off`, or HunterResultNotFound exactly when no such chain exists (corrected — see Findings row for python/depthcharge/hunter/hunter.py:320) |
| ReverseCrcHunter.Find | python/depthcharge/hunter/revcrc32.py:262-315 | `find`: a target conversion error is returned as is; otherwise the walk's result and its guarantees (corrected — see Findings row for python/depthcharge/hunter/hunter.py:320) |
| ReverseCrcHunter.IndexOfWord | python/depthcharge/hunter/revcrc32.py:392-395 | the dict lookup `workload[word]`: the position of the word's group, or -1 when no group holds it |
| ReverseCrcHunter.KeepIndex | python/depthcharge/hunter/revcrc32.py:392-395 | adding an occurrence keeps every word's position, and a new word is appended last |
| ReverseCrcHunter.WorkloadPartition | python/depthcharge/hunter/revcrc32.py:388-395 | the workload has distinct words, each listing the ascending offsets where it occurs, in first-appearance order, and every word offset is in its word's group |
| ReverseCrcHunter.GroupWords | python/depthcharge/hunter/revcrc32.py:390-395 | the grouping loop computes the workload of the payload's words |
| ReverseCrcHunter.AppendSplit | python/depthcharge/hunter/revcrc32.py:443-506 | one word's entries: a single occurrence takes the chain; with one iteration each occurrence takes it; otherwise the first occurrence gets `iterations - 1`, every other occurrence one operation over the first (`src_addr = -1`, `tsrc_off`, size 4), and a final entry finishes the first |
| ReverseCrcHunter.PlanExtend | python/depthcharge/hunter/revcrc32.py:409-508 | a later word's entries do not change the entries of earlier words |
| ReverseCrcHunter.DoStratagemWork | python/depthcharge/hunter/revcrc32.py:530-539 | `find` for one payload word: a result is a shortest chain for the word; an exception is ValueError for an unknown byte order, NameError when no iteration runs, otherwise HunterResultNotFound, and then the word has no chain |
| ReverseCrcHunter.BuildStratagem | python/depthcharge/hunter/revcrc32.py:335-528 | an empty payload or one whose length is not a multiple of 4 is StratagemCreationFailed; a result is the plan of every workload word with a shortest chain for each; a failing `find` is re-raised (ValueError for an unknown byte order, NameError for no iterations); HunterResultNotFound means some payload word has no chain (corrected — see Findings row for python/depthcharge/hunter/hunter.py:320) |
| ReverseCrcHunter.NoPlan | python/depthcharge/hunter/revcrc32.py:435-437 | a word without a chain makes the whole payload unplannable |
| Crc32Sim.Put | python/examples/reverse_crc32_algo_poc.py:188 | writing a 4-byte word at `dst_off` keeps the buffer's length, puts the word there and changes no other byte |
| Crc32Sim.RunEntry | python/examples/reverse_crc32_algo_poc.py:180-194 | one entry keeps the buffer's length: its input is the source data at `src_addr`, or the buffer word at `tsrc_off` when `src_addr` is negative, and the destination gets that input's CRC followed by `iterations - 1` more CRCs |
| Crc32Sim.WriteWord | python/examples/reverse_crc32_algo_poc.py:188 | the array update matches `Put` with the state's little-endian bytes |
| Crc32Sim.ReadBack | python/examples/reverse_crc32_algo_poc.py:193 | re-reading the word just written and taking its CRC is one more CRC operation on the state |
| Crc32Sim.RepeatCrc | python/examples/reverse_crc32_algo_poc.py:192-194 | the inner loop performs `iterations - 1` in-place CRC operations on the destination word |
| Crc32Sim.ExecuteEntry | python/examples/reverse_crc32_algo_poc.py:167-194 | one pass of the loop leaves the buffer `RunEntry` describes, or leaves it untouched and reports the exception |
| Crc32Sim.ExecuteStratagem | python/examples/reverse_crc32_algo_poc.py:160-194 | `execute_stratagem` over an array leaves exactly the buffer and exception of the sequential replay |
| Crc32Sim.PutWord | python/examples/reverse_crc32_algo_poc.py:187-194 | writing one word leaves every other word of the buffer alone |
| Crc32Sim.ReplayConcat | python/examples/reverse_crc32_algo_poc.py:167 | replaying `a + b` is replaying `a`, then `b` unless `a` stopped on an exception |
| Crc32Sim.CopiesReplay | python/depthcharge/hunter/revcrc32.py:449-456 | the one-iteration copies write the chain's word at every offset of the group |
| Crc32Sim.FinalsReplay | python/depthcharge/hunter/revcrc32.py:490-497 | every later occurrence takes one CRC over the word at the first occurrence |
| Crc32Sim.SplitOne | python/depthcharge/hunter/revcrc32.py:443-447 | a word that occurs once is written by its chain |
| Crc32Sim.ChainHead | python/depthcharge/hunter/revcrc32.py:488-489 | the first entry of a longer chain stops one operation short |
| Crc32Sim.ChainLast | python/depthcharge/hunter/revcrc32.py:499-506 | the final entry performs the last operation over the first occurrence |
| Crc32Sim.SplitChain | python/depthcharge/hunter/revcrc32.py:485-506 | for several occurrences and several iterations, every occurrence ends up holding the word |
| Crc32Sim.SplitReplay | python/depthcharge/hunter/revcrc32.py:443-506 | the entries of one group write the group's word at every one of its offsets |
| Crc32Sim.PlanReplay | python/depthcharge/hunter/revcrc32.py:409-508 | replaying the entries of the first `n` groups writes those groups' words and nothing raises |
| Crc32Sim.WordsEqual | python/tests/unit/hunter/revcrc32.py:177-179 | two buffers of whole words that agree on every word are equal |
| Crc32Sim.PlanRebuilds | python/depthcharge/hunter/revcrc32.py:383-508 | for any entry semantics under which each group's chain writes the group's word, replaying the plan over a buffer of the payload's size yields the payload |
| Crc32Sim.DirectRun | python/examples/reverse_crc32_algo_poc.py:180-194 | an entry reading the source data writes the window's CRC state after `k - 1` more operations, whatever the buffer holds |
| Crc32Sim.FromFirstRun | python/examples/reverse_crc32_algo_poc.py:182-188 | an entry with `src_addr = -1` writes one more operation over the word at `tsrc_off` |
| Crc32Sim.ChainEffect | python/examples/reverse_crc32_algo_poc.py:180-194 | a chain from the source data whose last state has bytes `w` writes `w` |
| Crc32Sim.MatchState | python/examples/reverse_crc32_algo_poc.py:198-199 | with the hunter's data at address 0, a `find` result's window lies in the data, so the chain is run on the data's own bytes |
| Crc32Sim.ReplayRebuildsPayload | python/examples/reverse_crc32_algo_poc.py:197-216 | replaying any Stratagem `build_stratagem` returns for a hunter built with `endianness='little'` (the byte order the replay writes in), over a buffer of the payload's size, keeps every destination inside the buffer, raises nothing and leaves exactly the payload |
| Hunter.FreeOffsetsMembers | python/depthcharge/hunter/hunter.py:51-69 | an offset is produced exactly when it lies in [start, stop) and in no gap |
| Hunter.FreeOffsetsAscending | python/depthcharge/hunter/hunter.py:51-69 | the offsets produced strictly ascend |
| Hunter.GappedRangeIter.constructor | python/depthcharge/hunter/hunter.py:32-43 | the iterator starts at `start`, and its length is the range's length less every gap's length |
| Hunter.GappedRangeIter.Next | python/depthcharge/hunter/hunter.py:51-69 | `__next__` returns the next offset at or after `i` that lies before `stop` and in no gap, skipping only gap offsets, then moves past it; None (StopIteration) when no such offset is left |
| Hunter.ValidateOffsets | python/depthcharge/hunter/hunter.py:124-146 | succeeds exactly when start <= end, both lie in [0, len(data)), and a target fits in [start, end]; every failure is an IndexError |
| Hunter.GapOffsets | python/depthcharge/hunter/hunter.py:169-181 | each `(address, length)` tuple or range is moved from addresses to offsets, in the order given; any other gap type is a TypeError |
| Hunter.InsertSorted | python/depthcharge/hunter/hunter.py:182 | inserting by start keeps a list sorted by start |
| Hunter.SortByStartPerm | python/depthcharge/hunter/hunter.py:182 | sorting the gaps keeps the same gaps |
| Hunter.SortByStartSorted | python/depthcharge/hunter/hunter.py:182 | sorting orders the gaps by start |
| Hunter.New | python/depthcharge/hunter/hunter.py:148-182 | a negative start offset becomes 0 and a negative end offset `len(data) - 1`; the bounds are validated (IndexError); gaps are converted to offsets (TypeError) and sorted by start |
| Hunter.GapOffsetsPrefixErr | python/depthcharge/hunter/hunter.py:170-179 | a bad gap early in the list fails the whole conversion |
| Hunter.SearchRange | python/depthcharge/hunter/hunter.py:188-213 | a negative start or end means the hunter's own; the result is validated against the target's length (IndexError) and is the range [start, end + 1) inside the data |
| Hunter.IsInGapMeaning | python/depthcharge/hunter/hunter.py:307-324 | the corrected gap test holds exactly when the window [offset, offset + length) shares an offset with some gap |
| Hunter.IsInGapAsWrittenFalsePositive | python/depthcharge/hunter/hunter.py:320 | the test as written, with `gap.stop - 11`, rejects the window [90, 95) against the gap [100, 105) although they share no offset |
| Hunter.FirstHitSpec | python/depthcharge/hunter/hunter.py:266-305 | a result comes from the probe at one of the range's offsets, every earlier offset's probe found nothing or touched a gap, and the result touches no gap (corrected — see Findings row for python/depthcharge/hunter/hunter.py:320) |
| Hunter.FindForward | python/depthcharge/hunter/hunter.py:326-361 | with a forward probe, a `find` result lies at or after the starting offset, is not empty and touches no gap (corrected — see Findings row for python/depthcharge/hunter/hunter.py:320) |
| Hunter.FindFromProbe | python/depthcharge/hunter/hunter.py:284-303 | every `find` result is the probe's answer at some offset, with `src_addr = address + src_off` |
| Hunter.FindImpl | python/depthcharge/hunter/hunter.py:266-305 | the loop over the gapped range returns the first probe answer that does not touch a gap, or HunterResultNotFound (corrected — see Findings row for python/depthcharge/hunter/hunter.py:320) |
| Hunter.FindIterOrdered | python/depthcharge/hunter/hunter.py:385-405 | with a forward probe, `finditer` yields results that touch no gap, are not empty, ascend and never overlap |
| Hunter.FindIterStep | python/depthcharge/hunter/hunter.py:394-399 | resuming at `src_off + src_size` keeps the ordering invariant |
| Hunter.FindIterLoop | python/depthcharge/hunter/hunter.py:363-405 | the generator loop yields the results of `FindIter`; IndexError and HunterResultNotFound end it quietly |
| Hunter.SplitStep | python/depthcharge/hunter/hunter.py:231-236 | handling one gap keeps the ranges separated and covering exactly the free offsets before the gap |
| Hunter.SplitDataOffsets | python/depthcharge/hunter/hunter.py:215-241 | no gaps give the single range [0, len(data)); with gaps inside the data, the ranges are ascending, disjoint, and cover exactly the offsets outside every gap |
| Hunter.Find | python/depthcharge/hunter/hunter.py:326-361 | `find` raises IndexError for a range it refuses; a result has `src_addr = address + src_off` and touches no gap (corrected — see Findings row for python/depthcharge/hunter/hunter.py:320) |
| Hunter.FindAll | python/depthcharge/hunter/hunter.py:385-405 | the generator yields at most the requested number of results, and IndexError and HunterResultNotFound never escape it |
| Hunter.FindIter | python/depthcharge/hunter/hunter.py:363-405 | `finditer` raises IndexError for a range it refuses; otherwise it yields at most `limit` results and only exceptions other than IndexError and HunterResultNotFound escape |
| ConstantHunter.SearchAt | python/depthcharge/hunter/constant.py:22-30 | the result is `(start, len(t))` exactly when the data at `start` equals the target, and nothing when `0 < end < start + len(t)` or the bytes differ |
| ConstantHunter.FindFirstOccurrence | python/depthcharge/hunter/constant.py:22-30 | `find` reports the first occurrence of the target in the search range whose window touches no gap, at `src_addr = address + src_off`, and HunterResultNotFound when there is none |
| ConstantHunter.FirstHitConstant | python/depthcharge/hunter/constant.py:22-30 | scanning ascending offsets with `_search_at` succeeds exactly when some offset holds the target clear of the gaps, and then reports the least such offset with size `len(t)` |
| ConstantHunter.CandidateMeaning | python/tests/unit/hunter/constant.py:20-138 | a reported occurrence lies in the search range, outside the gaps, and ends inside the range |
| ConstantHunter.FindIterOrderedConstant | python/tests/unit/hunter/constant.py:141-221 | `finditer` on a non-empty target yields occurrences that ascend, never overlap and never touch a gap |
| StringHunter.RunLenMaximal | python/depthcharge/hunter/string.py:20-22 | the run of bytes in {09, 0a, 0d, 20..7e} at the start is printable and maximal |
| StringHunter.MatchAt | python/depthcharge/hunter/string.py:14-37 | the match at the start of the data is a printable run within the length bounds followed by a NUL |
| StringHunter.MatchAtMeaning | python/depthcharge/hunter/string.py:14-37 | the match at the start is the one prefix of the data that the pattern accepts |
| StringHunter.SearchFromLeftmost | python/depthcharge/hunter/string.py:78 | `re.search` reports the leftmost match at or after the position, or none |
| StringHunter.StrRegex | python/depthcharge/hunter/string.py:14-37 | for a NUL-terminated search both length bounds drop by one for the NUL, the lower bound is at least 1, and an upper bound below the lower one is dropped |
| StringHunter.StrRegexTerminated | python/depthcharge/hunter/string.py:34-35 | every compiled pattern accepts only strings ending in a single NUL, and the default class needs at least one printable byte |
| StringHunter.StrRegexDoubleNul | python/depthcharge/hunter/string.py:34 | a target that already ends in NUL is compared as a bytes object with an int, so a second NUL is appended and the data holding exactly the target does not match |
| StringHunter.Anchored | python/depthcharge/hunter/string.py:72-76 | with `match` set, a failed match at `start` is None and a match is reported at `start` with its length |
| StringHunter.Searched | python/depthcharge/hunter/string.py:77-84 | without `match`, a failed search of the rest of the range is HunterResultNotFound and a match is reported at its own offset |
| StringHunter.SearchAt | python/depthcharge/hunter/string.py:54-84 | `_search_at` picks the default pattern for no or an empty target, the target's own pattern for str or bytes, TypeError otherwise, then matches or searches as `match` says (corrected — see Findings row for python/depthcharge/hunter/string.py:34) |
| StringHunter.FindIterOrderedString | python/tests/unit/hunter/string.py:136-174 | `finditer` yields strings that ascend, never overlap and never touch a gap |
| StringHunter.SearchAtAnchored | python/depthcharge/hunter/string.py:106 | `string_at`'s call is the anchored match of the default pattern |
| StringHunter.StoredMeaning | python/depthcharge/hunter/string.py:106-116 | a stored string is exactly a match of the default pattern, less its NUL |
| StringHunter.StringMatchFound | python/depthcharge/hunter/string.py:106-116 | the anchored match returns exactly the string stored at the offset |
| StringHunter.StringMatchNotFound | python/depthcharge/hunter/string.py:107-108 | HunterResultNotFound is raised exactly when no string is stored at the offset, and nothing else is raised |
| StringHunter.StringAtRange | python/depthcharge/hunter/string.py:97-104 | `string_at` raises IndexError exactly for an offset below 0 or past `end_offset`, and returns '' for a NUL there when `allow_empty` is set |
| StringHunter.StringAtFound | python/depthcharge/hunter/string.py:106-116 | otherwise `string_at` returns exactly the string stored at the address |
| StringHunter.StringAtNotFound | python/depthcharge/hunter/string.py:106-108 | and raises HunterResultNotFound exactly when no string is stored there |
| StringHunter.FindLeftmost | python/tests/unit/hunter/string.py:55-121 | without gaps, `find` for a string reports the leftmost match at or after the start of its range, or HunterResultNotFound |
| CmdTableHunter.ChooseArch | python/depthcharge/hunter/cmdtbl.py:81-88 | the constructor keeps a given Architecture, looks a name up with `Architecture.get` (its error passes through), and raises ValueError for anything else |
| CmdTableHunter.DigitsEnd | python/depthcharge/hunter/cmdtbl.py:101 | the greedy scan stops at the first non-digit: every byte before it is a digit |
| CmdTableHunter.FormatAtMeaning | python/depthcharge/hunter/cmdtbl.py:101 | a `%` followed by digits and a lower-case letter starts a format directive of `\%[0-9]*[a-z]` |
| CmdTableHunter.IsValidPtrMeaning | python/depthcharge/hunter/cmdtbl.py:111-122 | `_is_valid_ptr` holds exactly when checking is off, or the pointer is null and null is allowed, or the pointer's offset from the base address lies in [start_offset, end_offset] |
| CmdTableHunter.Word | python/depthcharge/arch/arch.py:222-228 | a pointer word read from data shorter than a word fails exactly when reads are strict; otherwise it is `ptr_value_adv`'s value and the data after it |
| CmdTableHunter.SignedWord | python/depthcharge/arch/arch.py:255-260 | the same for the signed `to_int_adv` |
| CmdTableHunter.ReadHead | python/depthcharge/hunter/cmdtbl.py:152-196 | an accepted entry has a name matching the command pattern that is not a known false positive, a valid non-null `cmd` pointer, a usage text that is '' for a null pointer and otherwise free of format directives, and consumed five words |
| CmdTableHunter.ReadHelp | python/depthcharge/hunter/cmdtbl.py:198-215 | the help field is present exactly with CONFIG_SYS_LONGHELP, free of format directives, and recomputes the sub-command flag; without it the flag is "non-null and empty usage" |
| CmdTableHunter.ReadComplete | python/depthcharge/hunter/cmdtbl.py:217-225 | the complete field is present exactly with CONFIG_AUTO_COMPLETE and is a valid pointer (null allowed); the entry's size is five words plus one per option |
| CmdTableHunter.ReadEntry | python/depthcharge/hunter/cmdtbl.py:148-230 | a decoded entry carries every check above, at its address, with the size of its layout |
| CmdTableHunter.ReadAt | python/depthcharge/hunter/cmdtbl.py:143-152 | the entry at `offset` sits at `address + offset` and, with strict reads, ends within both `end` and the data |
| CmdTableHunter.CmdTbl | python/depthcharge/hunter/cmdtbl.py:124-230 | `_cmd_tbl_s` returns None for an address that is not word aligned, and otherwise an entry with every check above |
| CmdTableHunter.SliceFits | python/depthcharge/hunter/cmdtbl.py:152 | a slice `data[offset:end]` of at least `n` bytes ends within both `end` and the data |
| CmdTableHunter.CmdTblS | python/depthcharge/hunter/cmdtbl.py:227-230 | read as the handler intends (a word past the end is IndexError), an entry ends within both `end` and the data |
| CmdTableHunter.CmdTblSAsWritten | python/depthcharge/arch/arch.py:222-228 | read as the code does (a short word reads as a short or zero value), an entry still sits at its address with its layout's size |
| CmdTableHunter.CollectLayout | python/depthcharge/hunter/cmdtbl.py:237-246 | the gathered entries are consecutive: the i-th sits i sizes after the first, all have one size, the total is their count times the size, and together they end by the bound |
| CmdTableHunter.CountSubcmd | python/depthcharge/hunter/cmdtbl.py:267 | the count of sub-command entries is at most the table's length |
| CmdTableHunter.CountSubcmdAll | python/depthcharge/hunter/cmdtbl.py:267 | `is_subcmd_table` holds exactly when every entry looks like a sub-command |
| CmdTableHunter.LowerBytes | python/depthcharge/hunter/cmdtbl.py:258 | `lower()` maps each byte on its own and keeps the length |
| CmdTableHunter.ContainsName | python/depthcharge/hunter/cmdtbl.py:255-263 | the loop finds the target exactly when some entry's name equals it ignoring case |
| CmdTableHunter.AttemptSearchAt | python/depthcharge/hunter/cmdtbl.py:232-276 | `_attempt_search_at` gathers entries while they decode, then reports the table's start, total size and description when there are at least `threshold` entries and the target, when given, is among them; otherwise None |
| CmdTableHunter.AttemptByLoop | python/depthcharge/hunter/cmdtbl.py:232-276 | with the reader of one layout, the loop's result is that layout's attempt |
| CmdTableHunter.AttemptResult | python/depthcharge/hunter/cmdtbl.py:254-272 | a reported table has at least `threshold` entries, its size is their total, it ends within the searched range, and it names the target when one is given |
| CmdTableHunter.ConfigsOrder | python/depthcharge/hunter/cmdtbl.py:289-299 | without either option all four layouts are tried, (True, True) first and (False, False) last; a given option fixes its half of every configuration |
| CmdTableHunter.FirstConfig | python/depthcharge/hunter/cmdtbl.py:296-301 | the index found is the first configuration whose attempt succeeds, and none is found exactly when every attempt fails |
| CmdTableHunter.Pick | python/depthcharge/hunter/cmdtbl.py:296-305 | the result, if any, is reported at `start` and never fails |
| CmdTableHunter.PickFirst | python/depthcharge/hunter/cmdtbl.py:296-305 | nothing is reported exactly when every configuration fails, and otherwise the first successful configuration's table |
| CmdTableHunter.AttemptNonEmpty | python/depthcharge/hunter/cmdtbl.py:272 | with a positive threshold a reported table has a positive size |
| CmdTableHunter.AttemptsSizesPositive | python/depthcharge/hunter/cmdtbl.py:281-301 | with a positive threshold every configuration's success has a positive size |
| CmdTableHunter.PickPositive | python/depthcharge/hunter/cmdtbl.py:296-301 | picking among positive-size attempts reports a positive size |
| CmdTableHunter.SearchAtNonEmpty | python/depthcharge/hunter/cmdtbl.py:278-305 | with a positive threshold a table `_search_at` reports is never empty |
| CmdTableHunter.ProbeForward | python/depthcharge/hunter/hunter.py:394-397 | with a positive threshold every result starts at or after the probed offset and is non-empty, so `finditer` advances |
| CmdTableHunter.FindIterOrderedCmdTable | python/depthcharge/hunter/hunter.py:385-405 | `finditer` for command tables yields tables that ascend, never overlap and never touch a gap |
| CmdTableHunter.CollectFuelStops | python/depthcharge/hunter/cmdtbl.py:237-253 | with reads that fail past a bound, the loop stops within `bound - offset + 1` reads and gathers exactly the consecutive entries |
| CmdTableHunter.CollectFuelNeverStops | python/depthcharge/hunter/cmdtbl.py:237-253 | a reader that finds an entry at every step keeps the loop running for any number of reads |
| CmdTableHunter.ZeroWord | python/depthcharge/arch/arch.py:222-228 | at most one word of zeros reads as zero, signed and unsigned, and leaves nothing |
| CmdTableHunter.ZeroEntry | python/depthcharge/hunter/cmdtbl.py:155-225 | data of at most one zero word decodes as an entry whose pointers are all null, once the name at address 0 passes the checks |
| CmdTableHunter.AsWrittenZeroEntry | python/depthcharge/hunter/cmdtbl.py:152-225 | the same for an entry read as written at a word-aligned offset |
| CmdTableHunter.ZeroImageEntry | python/depthcharge/hunter/cmdtbl.py:152-225 | read as written, every word-aligned offset from 4 on of the counterexample image holds a 28-byte entry |
| CmdTableHunter.ZeroImageNeverStops | python/depthcharge/hunter/cmdtbl.py:237-253 | on such an image the loop that starts at offset 4 never stops |
| CmdTableHunter.AttemptAsWrittenNeverReturns | python/depthcharge/hunter/cmdtbl.py:237-253 | as written, `_attempt_search_at(None, 4, 8, 5, True, True, True)` on the counterexample image never returns |
| CmdTableHunter.AttemptStops | python/depthcharge/hunter/cmdtbl.py:227-253 | with reads that fail past the end of the data, the loop stops on every input within `end - start + 1` reads, with exactly the consecutive entries that decode (corrected — see Findings row for python/depthcharge/hunter/cmdtbl.py:227-253) |
| CmdTableHunter.AttemptStopsOnZeroImage | python/depthcharge/hunter/cmdtbl.py:227-230 | read with IndexError past the end, the counterexample image yields no entry at offset 4, so the loop stops at once |
| EnvHunter.Run | python/depthcharge/uboot/env.py:37 | the run of name-and-value bytes at the start is maximal: every byte in it is of the class and the byte after it is not |
| EnvHunter.EntryAtMeaning | python/depthcharge/uboot/env.py:37 | the entry read at the start is the one prefix of the data that matches `_ENV_VAR_PAT` |
| EnvHunter.EntriesPrepend | python/depthcharge/uboot/env.py:55 | an entry followed by `c` entries is `c + 1` entries |
| EnvHunter.RepeatEntries | python/depthcharge/uboot/env.py:55-59 | the repetition covers exactly the entries it counts |
| EnvHunter.RepeatMaximal | python/depthcharge/uboot/env.py:55-59 | the repetition stops only at the upper bound or where no further entry starts |
| EnvHunter.RawRegex | python/depthcharge/uboot/env.py:40-61 | `raw_regex` fails to compile exactly when a non-zero maximum is below the minimum; 0 and None mean no upper bound, otherwise the bounds are the arguments |
| EnvHunter.MatchEnvMeaning | python/depthcharge/uboot/env.py:55-61 | a match covers a number of entries within the bounds |
| EnvHunter.At | python/depthcharge/hunter/env.py:105 | `data[i]` succeeds exactly for `-len <= i < len`, and raises IndexError otherwise |
| EnvHunter.ExpectedCrcWord | python/depthcharge/hunter/env.py:45-51 | `_expected_crc` reads the four bytes before the data, or before the flags byte when the environment is redundant |
| EnvHunter.EnvFlags | python/depthcharge/hunter/env.py:100-109 | `_get_env_flags` gives the byte before the data exactly for a redundant environment whose index is in range, IndexError when it is not, and None otherwise |
| EnvHunter.HeaderReadBack | python/depthcharge/uboot/env.py:322-340 | the CRC word and the flags byte `create_raw` writes before the variables are what `_expected_crc` and `_get_env_flags` read back |
| EnvHunter.FirstEq | python/depthcharge/hunter/env.py:68 | `bytes.index(b'=')` finds the first '=' |
| EnvHunter.FirstEqMeaning | python/depthcharge/hunter/env.py:68 | the index found is the first '=', and it fails only when there is none |
| EnvHunter.Extend | python/depthcharge/hunter/env.py:86-94 | the extension reports a span starting at the candidate, no longer than `max_size`, carrying the expected CRC |
| EnvHunter.TryAt | python/depthcharge/hunter/env.py:75-94 | one candidate reports the used portion when its CRC matches, or else a longer span within `max_size` with the expected CRC |
| EnvHunter.TryAtSpan | python/depthcharge/hunter/env.py:80-89 | an accepted candidate carries the checksum of the span it reports |
| EnvHunter.FirstFoundSpec | python/depthcharge/hunter/env.py:72-98 | the loop over candidate offsets reports the first accepted one and refuses every offset before it; no answer means every offset was refused |
| EnvHunter.ActualOffsetSizeCrc | python/depthcharge/hunter/env.py:53-98 | `_actual_offset_size_crc` raises ValueError exactly when the matched bytes hold no '=' (corrected — see Findings row for python/depthcharge/hunter/env.py:82) |
| EnvHunter.ExtendComplete | python/depthcharge/hunter/env.py:86-89 | when some span up to `max_size` has the expected CRC, the extension finds one no longer than it |
| EnvHunter.TryAtComplete | python/depthcharge/hunter/env.py:75-94 | a stored environment whose header CRC covers a span within `max_size` is accepted at its offset |
| EnvHunter.CrcNextChain | python/depthcharge/hunter/env.py:87 | feeding one more byte to `crc32` continues the checksum of the longer span |
| EnvHunter.ExtendStep | python/depthcharge/hunter/env.py:86-89 | a refused byte moves the extension on to the next byte |
| EnvHunter.CrcStep | python/depthcharge/hunter/env.py:87 | the running register after one more byte is the checksum of the longer span |
| EnvHunter.ExtendLoop | python/depthcharge/hunter/env.py:86-94 | the byte-at-a-time `for` loop computes the extension, and running past the data ends the candidate as the IndexError handler does |
| EnvHunter.TryAtCases | python/depthcharge/hunter/env.py:78-94 | a candidate is decided by the used portion, or else by the extension |
| EnvHunter.WindowCrc | python/depthcharge/hunter/env.py:80 | the register and the integer computed are the CRC-32 of the used portion |
| EnvHunter.TryAtImpl | python/depthcharge/hunter/env.py:75-96 | the outer loop's body decides one candidate offset as the candidate specification says |
| EnvHunter.CandidatesLoop | python/depthcharge/hunter/env.py:72-98 | the outer loop reports the first accepted candidate offset in [offset, offset of the first '='] |
| EnvHunter.ActualOffsetSizeCrcLoop | python/depthcharge/hunter/env.py:53-98 | the method computes the corrected `_actual_offset_size_crc` |
| EnvHunter.FirstFoundNone | python/depthcharge/hunter/env.py:72-98 | with no answer, every offset in the range was refused |
| EnvHunter.FirstFoundAt | python/depthcharge/hunter/env.py:72-98 | an answer comes from an offset in the range |
| EnvHunter.FirstFoundBefore | python/depthcharge/hunter/env.py:72-98 | every offset before the one answered was refused |
| EnvHunter.ActualOffsetSizeCrcFound | python/depthcharge/hunter/env.py:53-98 | a result starts between the match and its first '=', carries the header's CRC, and that CRC is the checksum of the span it reports |
| EnvHunter.ActualOffsetSizeCrcFirst | python/depthcharge/hunter/env.py:72-96 | every candidate offset before the one reported was refused |
| EnvHunter.ActualOffsetSizeCrcNone | python/depthcharge/hunter/env.py:98 | no result means every candidate offset up to the first '=' was refused |
| EnvHunter.AsWrittenRelation | python/depthcharge/hunter/env.py:81-82 | the search as written answers what the corrected search answers, except that a fully used environment comes back as a bare size |
| EnvHunter.BareSizeRaisesTypeError | python/depthcharge/hunter/env.py:82 | whenever the corrected search finds an environment whose CRC covers exactly the matched bytes, the caller's unpacking of the bare size raises TypeError |
| EnvHunter.OtherAnswersAgree | python/depthcharge/hunter/env.py:82-98 | every other answer of the code as written is the corrected one |
| EnvHunter.UnpackAsWritten | python/depthcharge/hunter/env.py:147-152 | unpacking a triple gives its three parts; unpacking a bare size raises TypeError |
| EnvHunter.FullyUsedEnvironment | python/depthcharge/hunter/env.py:80-82 | when the CRC of exactly the matched bytes is the header word before them, the corrected search reports the match itself and the code as written raises TypeError |
| EnvHunter.Locate | python/depthcharge/hunter/env.py:144-161 | a given `redundant_env` is trusted; otherwise True is tried before False and the first layout that finds the CRC is kept; errors come from the layout tried |
| EnvHunter.TargetBytes | python/depthcharge/hunter/env.py:184-186 | a bytes target is used as is; a text target is encoded as ASCII, raising UnicodeEncodeError exactly when some character is not ASCII |
| EnvHunter.Body | python/depthcharge/hunter/env.py:178-194 | the result's raw bytes are the data of the span, their parse is its variables, and a non-empty target occurs in them; otherwise HunterResultNotFound or the error of the target or the parse |
| EnvHunter.Describe | python/depthcharge/hunter/env.py:157-176 | without a CRC the match is reported as built in; with one, the span found is reported with its CRC, as redundant exactly when a flags byte was read before it |
| EnvHunter.EnvMatchFound | python/depthcharge/hunter/env.py:113-128 | the match covers a number of variables within the bounds |
| EnvHunter.EnvMatchLeftmost | python/depthcharge/hunter/env.py:113 | the match is the leftmost: no position before it starts a match, and without a match none does |
| EnvHunter.SearchAt | python/depthcharge/hunter/env.py:111-194 | `_search_at` raises HunterResultNotFound when nothing matches; otherwise the header is located and the result described (corrected — see Findings row for python/depthcharge/hunter/env.py:82) |
| EnvHunter.CorrectedSane | python/depthcharge/hunter/env.py:53-98 | what the corrected locator finds starts at or after the match and carries the checksum of its span |
| EnvHunter.SearchAtForward | python/depthcharge/hunter/env.py:111-194 | a result lies at or after the offset searched from and is not empty |
| EnvHunter.SearchAtStored | python/depthcharge/hunter/env.py:144-173 | a stored environment came from the locator answering for the match, in the layout its flags show |
| EnvHunter.SearchAtRaw | python/depthcharge/hunter/env.py:178-189 | a result's raw bytes are the span it reports, they parse to its variables, and a non-empty target occurs in them |
| EnvHunter.CorrectedFound | python/depthcharge/hunter/env.py:76-89 | what the corrected search finds carries the checksum of its span and the header word in front of it |
| EnvHunter.CorrectedChecked | python/depthcharge/hunter/env.py:76-89 | the corrected locator's answers are all checksums of their spans equal to the header word |
| EnvHunter.StoredCrc | python/depthcharge/hunter/env.py:163-178 | a stored environment's CRC is the checksum of the raw bytes reported and the header word in front of them, read in the layout its flags show |
| EnvHunter.AsWrittenBare | python/depthcharge/hunter/env.py:82 | the locator as written is the corrected one with fully used answers replaced by a bare size |
| EnvHunter.LocateAsWritten | python/depthcharge/hunter/env.py:144-155 | choosing the layout as written raises TypeError for a fully used environment in whichever layout it was found; every other choice is the corrected one |
| EnvHunter.SearchAtAsWritten | python/depthcharge/hunter/env.py:82 | where the corrected search reports a stored environment covering exactly the matched variables, `_search_at` as written raises TypeError; elsewhere it agrees |
| EnvHunter.DescribeLocator | python/depthcharge/hunter/env.py:157-194 | the description depends only on what the header search found |
| EnvHunter.SearchAtKind | python/depthcharge/hunter/env.py:157-176 | a result is built in exactly when it has no CRC (then it is the match itself), redundant exactly when it has flags (read from the byte before it), and a given `redundant_env` is respected |
| EnvHunter.MakeEnvironmentHunter | python/depthcharge/hunter/env.py:35-43 | the constructor fails with the `Hunter` checks' error first, then exactly when `raw_regex` fails; otherwise it keeps the hunter, the pattern and the architecture |
| EnvHunter.EnvProbeForward | python/depthcharge/hunter/hunter.py:394-397 | every environment result starts at or after the probed offset and is non-empty, so `finditer` advances |
| EnvHunter.FindIterEnvOrdered | python/depthcharge/hunter/hunter.py:385-405 | `finditer` yields environments that ascend, never overlap and touch no gap |
| EnvHunter.EnvProbeChecked | python/depthcharge/hunter/env.py:163-189 | every environment the probe reports has raw bytes equal to its span, the parse of them, and a CRC equal to the checksum and to the header word |
| EnvHunter.FindEnvChecked | python/tests/unit/hunter/env.py:108-194 | a found environment's raw bytes are the data at its offset, they parse to its variables, and a stored one's CRC is their checksum and the header word before them (corrected — see Findings row for python/depthcharge/hunter/env.py:82) |
| EnvHunter.FindEnvForward | python/depthcharge/hunter/hunter.py:266-305 | a `find` result from an offset lies at or after it, is not empty and touches no gap (corrected — see Findings row for python/depthcharge/hunter/env.py:82) |
| EnvHunter.FindEnv | python/depthcharge/hunter/hunter.py:326-361 | `EnvironmentHunter.find` raises IndexError for a range it refuses; an environment found has `src_addr = address + src_off` and touches no gap (corrected — see Findings row for python/depthcharge/hunter/hunter.py:320) |
| EnvHunter.FindIterEnv | python/depthcharge/hunter/hunter.py:363-405 | `EnvironmentHunter.finditer` yields at most `limit` environments, and over an accepted range IndexError and HunterResultNotFound never escape |
| FdtHunter.Search | python/depthcharge/hunter/fdt.py:38-49 | a match of the header pattern is the magic `d00dfeed` followed by nine words, all before `end`, at or after the position searched from |
| FdtHunter.SearchLeftmost | python/depthcharge/hunter/fdt.py:135 | `regex.search` reports the leftmost header, and reports none only when no header lies in the range |
| FdtHunter.DeviceTree | python/depthcharge/hunter/fdt.py:51-111 | `_device_tree` rejects a header whose totalsize, struct, strings or reserve-map offsets exceed what is left before `end`, or whose strings or struct block runs past `end`; an accepted blob is `data[offset:offset + totalsize]` |
| FdtHunter.DeviceTreeAccepts | python/depthcharge/hunter/fdt.py:51-111 | a header that passes all six checks gives its blob |
| FdtHunter.Examine | python/depthcharge/hunter/fdt.py:140-158 | a match is reported as `(offset, len(dtb))` only with a non-empty valid blob that answers the target (`None`, text in the DTS, bytes in the blob); a failing `dtc` is ValueError |
| FdtHunter.ScanWith | python/depthcharge/hunter/fdt.py:133-164 | the loop either reports a result or raises, and never gives up silently |
| FdtHunter.ExamineHonest | python/depthcharge/hunter/fdt.py:140-158 | the examination reports a match only at its own offset |
| FdtHunter.SearchAt | python/depthcharge/hunter/fdt.py:132-164 | the `while` loop computes the scan that restarts just past a rejected magic (corrected — see Findings row for python/depthcharge/hunter/fdt.py:162) |
| FdtHunter.MagicApart | python/depthcharge/hunter/fdt.py:39 | two headers never start 1 to 3 bytes apart, since the magic cannot overlap itself |
| FdtHunter.ScanFirst | python/depthcharge/hunter/fdt.py:133-164 | the scan reports no header later than an acceptable one, and HunterResultNotFound means every header in the range was rejected (corrected — see Findings row for python/depthcharge/hunter/fdt.py:162) |
| FdtHunter.ScanHit | python/depthcharge/hunter/fdt.py:136-152 | a result of the loop is a header at or after `start` that the examination accepted |
| FdtHunter.AsWrittenSkips | python/depthcharge/hunter/fdt.py:162 | as written, once `start > 0` the restart after a rejected match jumps to `start + offset + 4`, so no header between `offset + 4` and that point is ever reported |
| FdtHunter.AsWrittenMissesImage | python/depthcharge/hunter/fdt.py:162 | on data with a rejected header at 4 and a valid image at 8, the loop as written finds nothing from start 4 while the corrected restart reports the image at 8 |
| FdtHunter.ProbeForward | python/depthcharge/hunter/hunter.py:394-397 | every device-tree result starts at or after the probed offset and is non-empty |
| FdtHunter.FindImage | python/depthcharge/hunter/fdt.py:113-164 | `find` reports a valid blob at or after the start of the range, at `address + offset`, touching no gap (corrected — see Findings row for python/depthcharge/hunter/fdt.py:162) |
| CpHunter.Suf | python/depthcharge/hunter/cp.py:33-35 | the value `_lcss` stores for a cell never exceeds either prefix |
| CpHunter.SufCommon | python/depthcharge/hunter/cp.py:33-35 | the bytes a cell counts match in data and target |
| CpHunter.SufLongest | python/depthcharge/hunter/cp.py:33-35 | no common suffix of the two prefixes is longer than the cell's count |
| CpHunter.CommonSuffix | python/depthcharge/hunter/cp.py:33-35 | a suffix of a common substring is a common substring |
| CpHunter.TableLookup | python/depthcharge/hunter/cp.py:34 | `table.get((i-1, j-1), 0)` gives the common suffix length of the cell before |
| CpHunter.ScanTable | python/depthcharge/hunter/cp.py:26-39 | the two nested loops fill the table and keep the first longest cell |
| CpHunter.LcssTable | python/depthcharge/hunter/cp.py:17-45 | the method computes the corrected `_lcss` (corrected — see Findings row for python/depthcharge/hunter/cp.py:45) |
| CpHunter.LcssNone | python/depthcharge/hunter/cp.py:41-42 | both versions raise ValueError exactly when no byte of the target occurs in the data |
| CpHunter.LcssLongest | python/depthcharge/hunter/cp.py:17-45 | the corrected `_lcss` returns a common substring of at least one byte that no other common substring is longer than |
| CpHunter.LcssAsWrittenCommon | python/depthcharge/hunter/cp.py:44-45 | `_lcss` as written still returns a common substring of at least one byte, never longer than the longest |
| CpHunter.LcssAsWrittenShort | python/depthcharge/hunter/cp.py:45 | for data [1, 2, 1] and target [1, 2] the code as written returns one byte at (1, 1) while the longest common substring is [1, 2] at (0, 0) |
| CpHunter.IndexOf | python/depthcharge/hunter/cp.py:103 | `dslice.index(b)` is the first position of the byte, and fails exactly when it is absent |
| CpHunter.TryRange | python/depthcharge/hunter/cp.py:99-129 | one range fails with ValueError exactly when it shares no byte with the piece; a single byte is copied from its first occurrence, a longer piece from a longest common substring |
| CpHunter.PlaceCopies | python/depthcharge/hunter/cp.py:118-125 | the entry built from a successful attempt copies bytes that equal the payload's from inside its range |
| CpHunter.CarveCount | python/depthcharge/hunter/cp.py:132-140 | the carved pieces hold exactly the offsets of the piece outside the copied part |
| CpHunter.PlaceCount | python/depthcharge/hunter/cp.py:127-140 | placing an entry moves its offsets from the pending work to the entries |
| CpHunter.PlaceSound | python/depthcharge/hunter/cp.py:127 | appending an entry that copies from a data range keeps every entry sound |
| CpHunter.PlaceBounds | python/depthcharge/hunter/cp.py:132-140 | the carved pieces stay in the payload and are non-empty |
| CpHunter.CarveStep | python/depthcharge/hunter/cp.py:88-143 | replacing the first piece by what is left around the copy keeps the pieces in the payload and shrinks the work |
| CpHunter.PlaceStep | python/depthcharge/hunter/cp.py:116-143 | placing an entry keeps the worklist loop's invariant |
| CpHunter.Advance | python/depthcharge/hunter/cp.py:88-143 | one round that places an entry keeps the invariant and shrinks the work |
| CpHunter.NoneFit | python/depthcharge/hunter/cp.py:145-149 | a piece no range shares a byte with leaves its first byte unavailable |
| CpHunter.DoneAvailable | python/depthcharge/hunter/cp.py:88-152 | once no work is pending, every payload offset is written exactly once and every payload byte occurs in some range |
| CpHunter.FirstFit | python/depthcharge/hunter/cp.py:95-149 | the `for r in data_ranges` loop uses the first range, in order, that shares a byte with the piece, and raises StratagemCreationFailed exactly when there are ranges and none does |
| CpHunter.Build | python/depthcharge/hunter/cp.py:76-152 | with data ranges, the stratagem is built exactly when the payload is non-empty and each of its bytes occurs in some range; every entry copies matching bytes from a range, and every payload offset is written exactly once (corrected — see Findings row for python/depthcharge/hunter/cp.py:113) |
| CpHunter.OneByteAsWrittenHits | python/depthcharge/hunter/cp.py:102-113 | as written, a one-byte piece gets one entry per range holding its byte, all writing the same offset |
| CpHunter.OneByteAsWrittenTwice | python/depthcharge/hunter/cp.py:113 | with data [7, 0, 7] split into ranges [0, 1) and [2, 3), the one-byte payload [7] as written gets two entries that both write offset 0 |
| CpHunter.InsertByLenPerm | python/depthcharge/hunter/cp.py:77 | inserting a range adds exactly that range to the list |
| CpHunter.InsertByLenSorted | python/depthcharge/hunter/cp.py:77 | inserting into a longest-first list keeps it longest first and bounded by the same length |
| CpHunter.SortByLenSpec | python/depthcharge/hunter/cp.py:77 | `sorted(..., key=len, reverse=True)` keeps the same ranges and puts the longest first |
| CpHunter.SortedCover | python/depthcharge/hunter/cp.py:77 | reordering the ranges covers the same offsets |
| CpHunter.CoverAny | python/depthcharge/hunter/hunter.py:215-241 | some offset lies outside the gaps exactly when there is a data range |
| CpHunter.AvailableOffered | python/depthcharge/hunter/cp.py:77 | a byte in some range is a byte of the data outside the gaps, and back |
| CpHunter.SoundFree | python/depthcharge/hunter/cp.py:99-125 | an entry that copies from a range copies from data outside the gaps |
| CpHunter.BuildStratagem | python/depthcharge/hunter/cp.py:69-152 | `build_stratagem` succeeds exactly when the payload is non-empty and each byte occurs outside the gaps (an empty stratagem when all data is in gaps); entries copy matching bytes from outside the gaps and write every payload offset exactly once (corrected — see Findings rows for python/depthcharge/hunter/cp.py:45 and python/depthcharge/hunter/cp.py:113) |
| CpHunter.Find | python/depthcharge/hunter/cp.py:55-60 | `find` raises OperationNotSupported |
| CpHunter.FindIter | python/depthcharge/hunter/cp.py:62-67 | `finditer` raises OperationNotSupported before yielding anything |
| Strat.GetNone | python/depthcharge/stratagem.py:111 | a key lookup fails exactly when no field of the entry holds the key |
| Strat.Put | python/depthcharge/stratagem.py:159-160 | `entry[key] = value` on a new key adds it last, and on an existing key keeps the length |
| Strat.PutGet | python/depthcharge/stratagem.py:159-160 | after `entry[key] = value` the key holds the value and no other key changes |
| Strat.PutDistinct | python/depthcharge/stratagem.py:159-160 | assignment never makes a key appear twice |
| Strat.Merge | python/depthcharge/stratagem.py:153-160 | copying the keyword arguments over the entry keeps its keys distinct |
| Strat.MergeGet | python/depthcharge/stratagem.py:153-160 | the keyword arguments take precedence: a key they give holds their value, every other key keeps the entry's |
| Strat.ReversedGet | python/depthcharge/stratagem.py:159-160 | of repeated keyword assignments to one key, the last one wins |
| Strat.MergeDistinct | python/depthcharge/stratagem.py:153-160 | the merged entry has distinct keys |
| Strat.ConvertKind | python/depthcharge/stratagem.py:113-118 | a conversion that succeeds yields the specification's type, a value of that type is kept as it is, and only `int` of None or of text that is not a Python integer literal fails |
| Strat.ConvertIntText | python/depthcharge/stratagem.py:114-116 | `int(text, 0)` accepts `0x`-prefixed hexadecimal and plain decimal text of a number |
| Strat.ProcessedShape | python/depthcharge/stratagem.py:102-120 | a processed entry keeps every key, in order, each with its converted value |
| Strat.ProcessedOk | python/depthcharge/stratagem.py:102-120 | processing succeeds exactly when every key is in the specification and every value converts; the result then has the specification's types |
| Strat.ProcessedFirstFailure | python/depthcharge/stratagem.py:110-118 | the first field that fails decides the KeyError or ValueError raised |
| Strat.ProcessedTyped | python/depthcharge/stratagem.py:102-120 | an entry that already has the specification's types is left unchanged |
| Strat.ProcessedStep | python/depthcharge/stratagem.py:110-118 | one iteration of the conversion loop either raises that field's error or continues with the rest |
| Strat.AppendAllShape | python/depthcharge/stratagem.py:145-148 | appending a list appends the processed elements before the first that raises, and raises that element's error; without one, all of them |
| Strat.AppendAllStep | python/depthcharge/stratagem.py:145-148 | one iteration of the list loop either raises or appends the processed element |
| Strat.TotalOpsErr | python/depthcharge/stratagem.py:181-185 | the first entry whose `iterations` is not a number decides the error |
| Strat.TotalOpsPlain | python/depthcharge/stratagem.py:179-187 | without `iterations` keys, the total is the number of entries |
| Strat.TotalOpsConcat | python/depthcharge/stratagem.py:179-187 | the total of two lists joined is the sum of their totals |
| Strat.Stratagem.constructor | python/depthcharge/stratagem.py:74-87 | a positive capacity preallocates that many empty slots, otherwise the list is empty; the comment and timestamp are stored |
| Strat.Stratagem.GetItem | python/depthcharge/stratagem.py:99-100 | indexing succeeds exactly for indices in `-len .. len-1` and otherwise raises IndexError |
| Strat.Stratagem.Entries | python/depthcharge/stratagem.py:89-97 | `entries()` yields each entry in order, the same as indexing from the front or from the back |
| Strat.Stratagem.ProcessEntry | python/depthcharge/stratagem.py:102-120 | the conversion loop computes the processed entry or its first error |
| Strat.Stratagem.AppendEntry | python/depthcharge/stratagem.py:149-163 | one entry, built from the dictionary with the keyword arguments over it, is processed and appended; a failure raises and leaves the list as it was |
| Strat.Stratagem.Append | python/depthcharge/stratagem.py:134-163 | a list argument appends each element in order and ignores the keyword arguments; otherwise one entry is appended |
| Strat.Stratagem.AppendMany | python/depthcharge/stratagem.py:145-148 | what was appended before an element that raises stays appended |
| Strat.Stratagem.SetItem | python/depthcharge/stratagem.py:122-124 | the entry is processed first, then stored at the index; None, an entry the specification refuses or an index out of range raise and change nothing |
| Strat.Stratagem.TotalOperations | python/depthcharge/stratagem.py:171-187 | the loop computes the total operation count |
| Strat.Stratagem.ToJson | python/depthcharge/stratagem.py:228-247 | a document is produced exactly when the Operation has a Stratagem specification |
| Strat.ObjectEntryDistinct | python/depthcharge/stratagem.py:193-217 | an entry read from a JSON object has distinct keys |
| Strat.ItemEntry | python/depthcharge/stratagem.py:109-120 | an element of `entries` that is not an array reads as an entry exactly when it is null or an object whose values can be read; its keys are distinct; a non-empty string raises KeyError unless its first character is a key of the specification (then TypeError) |
| Strat.ParseItemsAppend | python/depthcharge/stratagem.py:145-148 | appending two lists one after the other gives what appending their concatenation gives, failures included |
| Strat.NestedFlattened | python/depthcharge/stratagem.py:145-148 | a nested array is flattened: its elements are appended in its place, in order |
| Strat.Stratagem.AppendItems | python/depthcharge/stratagem.py:134-165 | `append` of each decoded element in order: without a failure the list grows by exactly the processed entries (nested arrays flattened); otherwise the first failure is raised |
| Strat.ObjectKeys | python/depthcharge/stratagem.py:214 | iterating a decoded object gives each member's name once, only names of its members |
| Strat.ObjectEntryKeys | python/depthcharge/stratagem.py:214 | the dictionary `json.loads` builds holds its keys in the order iterating the object gives them |
| Strat.Iterated | python/depthcharge/stratagem.py:214 | `for entry in tmp['entries']` goes over an array's elements, a string's characters (each a one-character string) or an object's keys; null, numbers and booleans are not iterable |
| Strat.ReadHeader | python/depthcharge/stratagem.py:197-214 | `from_json` proceeds only with an Operation that has a Stratagem specification and an iterable `entries`, whose iteration gives the elements appended |
| Strat.EntriesIterated | python/depthcharge/stratagem.py:214-215 | a non-iterable `entries` is TypeError; an empty string or object gives an empty Stratagem; a non-empty string or object appends its first character or key, a string, which raises KeyError (`_spec[key]`) unless it is a key of the specification (then TypeError) |
| Strat.FromJson | python/depthcharge/stratagem.py:193-217 | `from_json` raises what reading the document raises; otherwise it returns a new Stratagem with the named operation, its specification, the comment, the timestamp and the processed elements `entries` iterates over, nested arrays flattened; an element that raises makes `from_json` raise the same |
| Strat.Filled | python/depthcharge/stratagem.py:244 | an empty slot is written as null and read back as an empty entry |
| Strat.DocumentMembers | python/depthcharge/stratagem.py:233-244 | the members `from_json` reads are the ones `to_json` wrote |
| Strat.EntryRoundTrip | python/depthcharge/stratagem.py:193-247 | reading back the object written for an entry gives the entry |
| Strat.ItemsRoundTrip | python/depthcharge/stratagem.py:193-247 | reading back the entries written for a processed list gives the list, with empty slots filled |
| Strat.JsonRoundTrip | python/depthcharge/stratagem.py:193-247 | `from_json(to_json(s))` restores the operation, comment, timestamp and entries |
| Strat.Stratagem.AppendElement | python/depthcharge/stratagem.py:134-165 | `append(e)` appends a list's elements one by one and otherwise one processed entry; without a failure the list grows by exactly those entries, else the first failure is raised |
| Patch.NewPatch | python/depthcharge/memory/patch.py:27-36 | a patch is created exactly when no expected bytes are given or they are as long as the value; otherwise ValueError |
| Patch.Description | python/depthcharge/memory/patch.py:58-66 | the description is the text given, or `Patch` without one, then ` @ 0x`, then the address in at least eight hexadecimal digits |
| Patch.DescriptionAddress | python/depthcharge/memory/patch.py:63 | the digits after ` @ 0x` read back as the address (a minus sign and its magnitude for a negative one) |
| Patch.FromTuple | python/depthcharge/memory/patch.py:69-101 | a 4-tuple gives expected bytes and description, a 3-tuple's third element is the expected bytes if bytes and the description if text, a 2-tuple neither; any other length is ValueError |
| Patch.FromDict | python/depthcharge/memory/patch.py:103-116 | `address` and `value` are required (KeyError), `expected` and `description` optional |
| Patch.Convert | python/depthcharge/memory/patch.py:138-152 | `append` keeps a patch, converts a tuple or dictionary, and raises TypeError for anything else |
| Patch.ConvertWellFormed | python/depthcharge/memory/patch.py:33-35 | every patch `append` stores has expected bytes as long as its value |
| Patch.MemoryPatchList.Append | python/depthcharge/memory/patch.py:138-154 | a converted argument goes at the end of the list; a failed conversion raises and leaves the list as it was |
| Patch.MemoryPatchList.Get | python/depthcharge/memory/patch.py:156-157 | indexing succeeds exactly for `-len .. len-1`, negative indices counting from the end, and otherwise raises IndexError |
| Patch.ConvertAllMeaning | python/depthcharge/memory/patch.py:128-136 | the list is built exactly when every argument converts, and then holds each argument's conversion in order; otherwise the error is one argument's conversion error |
| Patch.ConvertErrPropagates | python/depthcharge/memory/patch.py:135-136 | a failure among the first arguments is the failure of the whole |
| Patch.NewList | python/depthcharge/memory/patch.py:128-136 | the constructor's loop builds the list of conversions, or raises the first conversion's error |
| Crc32Memory.Crc32Reader.constructor | python/depthcharge/memory/crc32.py:41-48 | a new reader starts with an empty reverse table, filled on first use |
| Crc32Memory.Crc32Reader.Setup | python/depthcharge/memory/crc32.py:50-75 | an already filled table is left alone; otherwise, on success, every 1 and 2-byte input is found under the key `_setup` computes for it and every entry holds the input of its key; a RuntimeError means two different inputs share a key |
| Crc32Memory.AddStep | python/depthcharge/memory/crc32.py:63-64 | entering an input whose key is free keeps the table complete and sound up to that input's place in the enumeration order |
| Crc32Memory.CollisionStep | python/depthcharge/memory/crc32.py:65-66 | a key already present when an input arrives belongs to a different earlier input: a collision |
| Crc32Memory.RankInjective | python/depthcharge/memory/crc32.py:59-73 | the enumeration order of `_setup` visits each 1 or 2-byte input once |
| Crc32Memory.KeyIsCrc | python/depthcharge/memory/crc32.py:61-70 | with zlib's CRC-32, the key computed from the previous state, `crc32(b1, crc32(b0))`, is the CRC-32 of the two bytes |
| Crc32Memory.Crc32Reader.RevCrc32 | python/depthcharge/memory/crc32.py:77-103 | an unmatched response is a RuntimeError; a 4-byte window is the little-endian preimage of the checksum, a 1 or 2-byte one is looked up (KeyError when absent), any other size and a wrong-length result are RuntimeErrors; a result has the requested size |
| Crc32Memory.Crc32Reader.ReadWord | python/depthcharge/memory/crc32.py:105-114 | an 8-byte word is read as two 4-byte halves; when the target answers truthfully and the table is complete, the bytes read are the bytes in memory |
| Crc32Memory.RevCrc4Correct | python/depthcharge/memory/crc32.py:90-91 | the unique 4-byte preimage of a window's checksum is the window itself |
| Crc32Memory.LookupCorrect | python/depthcharge/memory/crc32.py:92-93 | a complete, sound table gives back every 1 or 2-byte window from its CRC-32 |
| Crc32Memory.Repeat | python/depthcharge/memory/crc32.py:171-175 | the follow-up commands are `iterations - 1` checksums of the destination word into itself, none when `iterations` is below 2 |
| Crc32Memory.WriteStratagem | python/depthcharge/memory/crc32.py:148-175 | OperationAlignmentError exactly when the write address is not aligned; otherwise the commands of every entry, in order |
| Crc32Memory.Write | python/depthcharge/memory/crc32.py:128-175 | the write succeeds exactly with a Stratagem built for this writer at an aligned address, and sends the commands of its entries |
| Crc32Memory.CommandCount | python/depthcharge/memory/crc32.py:166-175 | one command per operation: `iterations` per entry, at least one |
| Crc32Memory.AsEntryIterations | python/depthcharge/hunter/revcrc32.py:321-326 | the dictionary the hunter stores for an entry reads back its `iterations` under that key |
| Crc32Memory.TotalOperationsCounted | python/depthcharge/stratagem.py:171-187 | with every `iterations` at least 1, `total_operations` on the Stratagem equals the sum of the entries' operations and the number of commands `_write_stratagem` sends |
| Crc32Memory.AgainLast | python/depthcharge/memory/crc32.py:172-174 | the last of the repeated checksums is taken over the word the previous ones left |
| Crc32Memory.AgainIsIterate | python/depthcharge/memory/crc32.py:172-174 | with zlib's CRC-32, repeating the checksum over the destination word is the ReverseCRC32Hunter's iteration |
| Crc32Memory.EntryRun | python/depthcharge/memory/crc32.py:166-175 | after the first command and `n` follow-ups, the destination word holds `n` more checksums over the first, and nothing outside it changed |
| Crc32Memory.EntryEffectSum | python/depthcharge/memory/crc32.py:153-175 | an entry with at least one iteration leaves at its destination `iterations - 1` more checksums over the checksum of its source bytes |
| Crc32Memory.EntryEffect | python/depthcharge/memory/crc32.py:153-175 | with zlib's CRC-32 that is the word the ReverseCRC32Hunter planned for the destination |
| Itest.ReadWord | python/depthcharge/memory/itest.py:46-67 | equality probes for 0x00 and 0xff, then at most eight `<` probes of a binary search; the result is a byte, 0 right after a true first probe, and with a target that answers truthfully the byte in memory |
| StratagemWriter.CheckStratagem | python/depthcharge/memory/stratagem.py:57-69 | StratagemRequired without a `stratagem` argument, ValueError when it was built for another writer, and success exactly when it names this one |
| StratagemWriter.DescribeOpCount | python/depthcharge/memory/stratagem.py:23-31 | the byte count in the description reads back as four bytes per entry |
| StratagemWriter.DescribeOpPieces | python/depthcharge/memory/stratagem.py:29-31 | the description is the writer's name, the count in decimal, then ` bytes @ 0x` and the address |
| TargetMemory.StoreRead | python/depthcharge/memory/crc32.py:164-168 | a stored word is read back and nothing outside it changes |
| TargetMemory.BytesSplit | python/depthcharge/memory/crc32.py:105-110 | reading two adjacent runs is reading the run they make up |
| MemoryWriter.NewWriter | python/depthcharge/memory/writer.py:42-52 | a writer's block size is the `block_size` argument, 128 by default, and may be overridden per call |
| MemoryWriter.NewWordWriter | python/depthcharge/memory/writer.py:132-137 | a word writer writes one word per block and refuses a per-call override |
| MemoryWriter.EffectiveBlockSize | python/depthcharge/memory/writer.py:77-80 | the per-call `block_size` is used only when the writer allows an override and one is given |
| MemoryWriter.SplitBlocks | python/depthcharge/memory/writer.py:93-99 | the blocks reassemble the data, each starts where the previous one ends, none is empty or longer than the block size, and all but the last are exactly the block size |
| MemoryWriter.WriteData | python/depthcharge/memory/writer.py:69-104 | `_setup` unless suppressed, one `_write` per block, and `_teardown` unless suppressed even when a block size of 0 makes the loop raise ValueError |
| MemoryWriter.GapMeaning | python/depthcharge/memory/writer.py:153 | of the addresses from `addr` up to the gap, only the last is word aligned |
| MemoryWriter.StoreStep | python/depthcharge/memory/writer.py:157-169 | the largest store that fits what remains, from an address aligned for it, is one `_write_word` accepts and leaves the next address aligned for what then remains |
| MemoryWriter.StoreAligned | python/depthcharge/memory/writer.py:157-169 | the second loop's stores cover the rest of the block contiguously, each 1, 2, 4 or (with 64-bit data) 8 bytes at a multiple of its size, and each of the size picked for the bytes that remain from its address to the end of the block: 8 (64-bit data only) when at least 8 remain, else 4, 2 or 1 |
| MemoryWriter.LeadingAsWritten | python/depthcharge/memory/writer.py:152-155 | the first loop as written makes one store per address up to the next word-aligned one, with the slice `data[i:i + 1]`, which is empty past the end of the block |
| MemoryWriter.LeadingJoined | python/depthcharge/memory/writer.py:152-155 | one-byte stores at consecutive addresses reassemble the bytes they pass and, inside the block, are contiguous |
| MemoryWriter.Leading | python/depthcharge/memory/writer.py:152-157 | the first loop bounded by the block stops at its end or at the first word-aligned address, each store one byte of the block at its own address |
| MemoryWriter.Combine | python/depthcharge/memory/writer.py:150-169 | the one-byte stores followed by the stores of the second loop make the stores of the whole block |
| MemoryWriter.WriteWordsAsWritten | python/depthcharge/memory/writer.py:146-169 | as written, `_write` reassembles the block and is correct once the block reaches an aligned address; a block ending before it gets an empty `_write_word` for each address up to that address |
| MemoryWriter.WriteWords | python/depthcharge/memory/writer.py:146-169 | with the first loop bounded by the block, the stores reassemble the block contiguously and each is a store `_write_word` accepts; the sizes are pinned: one byte at each address up to the first word-aligned one or the end of the block, then the size picked for what remains (corrected — see Findings row for python/depthcharge/memory/writer.py:153-155) |
| MemoryWriter.WordWrite | python/depthcharge/memory/writer.py:69-169 | `MemoryWordWriter.write`: the data is cut into word-sized blocks from `addr`; each block's stores have the sizes `_write` picks for it, and all the stores together write the data contiguously from `addr`, each one a store `_write_word` accepts (corrected — see Findings row for python/depthcharge/memory/writer.py:153-155) |
| MemoryReader.TraceReads | python/depthcharge/memory/reader.py:181-210 | the `_read_word` calls in the trace of events are exactly the accesses |
| MemoryReader.ReadWholeWords | python/depthcharge/memory/reader.py:184-188 | the first loop reads whole words in the starting mode, contiguously, until less than a word remains; each access is a whole word read while at least a word remained |
| MemoryReader.ReadWords | python/depthcharge/memory/reader.py:181-210 | `_read` covers exactly `size` bytes (none when not positive) with contiguous accesses of an accepted size; each access is a whole word while at least a word remains from its address, else 8 (64-bit data only), 4, 2 or 1, the largest that fits; a teardown and setup precede exactly the accesses whose size drops below the current one |
| MemoryReader.FetchTruthful | python/depthcharge/memory/reader.py:92-97 | with word reads that answer truthfully, contiguous accesses fetch the bytes they cover |
| MemoryReader.Read | python/depthcharge/memory/reader.py:72-107 | `read`: setup and teardown unless suppressed, the accesses of `_read` with the sizes it picks, and with truthful word reads the result is the `size` bytes at `addr` |
| CpWriter.CpSpec | python/depthcharge/memory/cp.py:55 | a `cp` Stratagem entry has integer `src_addr`, `src_size` and `dst_off` fields |
| CpWriter.WidthWidest | python/depthcharge/memory/cp.py:63-81 | the access width is one `cp` accepts (8 only with 64-bit data), size and both addresses are multiples of it, and no wider accepted width would be |
| CpWriter.CmdForMeaning | python/depthcharge/memory/cp.py:66-83 | each command copies exactly the entry's bytes from its source address to the write address plus its offset, with the widest aligned access |
| CpWriter.WriteStratagem | python/depthcharge/memory/cp.py:62-85 | one command per entry, in the Stratagem's order |
| CpWriter.Write | python/depthcharge/memory/cp.py:44-85 | the write succeeds exactly with a Stratagem built for this writer, and then sends the entries' commands |
| CpWriter.AllSourcedFrom | python/depthcharge/memory/cp.py:66-69 | entries that each copy payload bytes from where the searched data holds them all lie inside the payload |
| CpWriter.RunOutside | python/depthcharge/memory/cp.py:66-84 | commands for entries inside the payload change nothing outside its destination |
| CpWriter.DataKept | python/depthcharge/memory/cp.py:66-84 | the searched data keeps its bytes while commands that write away from it run |
| CpWriter.LastWrites | python/depthcharge/memory/cp.py:83-84 | a payload byte the last command writes takes the byte of the searched data it is copied from |
| CpWriter.RunInside | python/depthcharge/memory/cp.py:66-84 | every payload byte some sourced entry covers ends up in place |
| CpWriter.PayloadWritten | python/depthcharge/memory/cp.py:62-85 | when memory holds the searched data away from the destination and the entries cover each payload byte once, the commands write the payload and keep the data |
| MemoryWriter.AllChosenMeaning | python/depthcharge/memory/writer.py:157-169 | the recursive statement that every store has the size picked for what remains is the same as the statement for each store |
| MemoryWriter.EachChosenMeaning | python/depthcharge/memory/writer.py:93-99 | the recursive statement that each block's stores have the picked sizes is the same as the statement for each block |
| MemoryReader.AllChosenMeaning | python/depthcharge/memory/reader.py:181-210 | the recursive statement that every access has the size `_read` picks for what remains is the same as the statement for each access |
| UBootEnv.ParseLine | python/depthcharge/uboot/env.py:87-108 | one line of `parse`: a continuation is appended to the previous value, an empty or `Environment size: ` line or one without '=' is skipped, and a definition sets its name; a pending continuation always has a defined name |
| UBootEnv.Parse | python/depthcharge/uboot/env.py:75-113 | `parse` fails only with ValueError; a parsed environment is not empty, and every name in it is defined by some line |
| UBootEnv.ParseText | python/depthcharge/uboot/env.py:75-113 | `parse`'s loop over `text.splitlines()` gives the environment the lines define, or ValueError when they define nothing |
| UBootEnv.ParseKeysDefined | python/depthcharge/uboot/env.py:102-105 | every name `parse` reports is the text before the first '=' of some line |
| UBootEnv.ParseNoDefinitions | python/depthcharge/uboot/env.py:96-111 | text without a single '=' holds no variables: ValueError |
| UBootEnv.StepPlain | python/depthcharge/uboot/env.py:93-108 | a line that is not a continuation and does not end in '\\' leaves no continuation pending and sets only the name it defines |
| UBootEnv.ParseLastWins | python/depthcharge/uboot/env.py:87-108 | without continuation lines, a name is defined exactly when some line defines it, with the value of its last definition |
| UBootEnv.ParseContinuation | python/depthcharge/uboot/env.py:89-91 | a value ending in '\\' takes the next line, joined with the line separator |
| UBootEnv.MatchAt | python/depthcharge/uboot/env.py:30-33 | a match of `_VAR_NAME_RE` at a position is `${` and text up to the first `}` on that line, or `$` and the longest run of name characters not starting with `{` |
| UBootEnv.UnbracedShape | python/depthcharge/uboot/env.py:32 | the unbraced alternative spans `$` and a maximal run of name characters |
| UBootEnv.Refs | python/depthcharge/uboot/env.py:149 | `finditer` yields matches in order, each inside the value |
| UBootEnv.ExpandVariable | python/depthcharge/uboot/env.py:116-178 | KeyError exactly for an undefined name, ValueError with no passes allowed; a result is left unchanged by one more pass, and without `warn_only` holds no reference |
| UBootEnv.FixIsFixpoint | python/depthcharge/uboot/env.py:146-161 | what the outer loop stops on is a value one pass leaves unchanged |
| UBootEnv.PassOnce | python/depthcharge/uboot/env.py:149-157 | the inner loop is one replacement pass over the references in the value |
| UBootEnv.ExpandVariableLoop | python/depthcharge/uboot/env.py:139-178 | the loops of `expand_variable` compute the fixpoint described above |
| UBootEnv.NoDollarExpandsToItself | python/depthcharge/uboot/env.py:146-161 | a value without '$' expands to itself |
| UBootEnv.OneRefPass | python/depthcharge/uboot/env.py:149-157 | a value that is one reference to a defined variable becomes that variable's value in one pass |
| UBootEnv.PlainPass | python/depthcharge/uboot/env.py:156-157 | `$name` for a defined name becomes the name's value in one pass |
| UBootEnv.MutualReferenceCycle | python/depthcharge/uboot/env.py:146-164 | two variables that refer to each other never reach a fixpoint |
| UBootEnv.MutualReferenceRaises | python/depthcharge/uboot/env.py:163-164 | so `expand_variable` raises ValueError for them whatever the limit |
| UBootEnv.BracedReference | python/depthcharge/uboot/env.py:154-155 | `${n}` expands to the value of `n` when that value holds no reference |
| UBootEnv.Expand | python/depthcharge/uboot/env.py:181-193 | `expand` succeeds exactly when every variable expands, then maps each name to its expansion; an error is the error of some variable |
| UBootEnv.Encode | python/depthcharge/uboot/env.py:328-330 | `encode('ascii')` succeeds exactly when every character is below 0x80, and keeps each code |
| UBootEnv.Collect | python/depthcharge/uboot/env.py:210-213 | every matched name is a key, and every key's value is the value of one of its matches; that it is the last match is `CollectLastWins` |
| UBootEnv.CollectLastWins | python/depthcharge/uboot/env.py:210-213 | for a name matched more than once, the value of its last match is the one kept, as `results[name] = value` in match order does |
| UBootEnv.ParseRaw | python/depthcharge/uboot/env.py:196-218 | `parse_raw` raises ValueError exactly when `raw_var_regex` matches nowhere; otherwise every matched name is in the result, with the value of one of its matches (the last, by `ParseRawLastWins`) |
| UBootEnv.ParseRawLastWins | python/depthcharge/uboot/env.py:207-213 | when `parse_raw` succeeds, a name matched more than once has the value of its last match in the returned dictionary |
| UBootEnv.ParseRawLoop | python/depthcharge/uboot/env.py:196-218 | `parse_raw` collects every match of `raw_var_regex`, the later one winning for a repeated name |
| UBootEnv.ParseRawFailsIffNoMatch | python/depthcharge/uboot/env.py:215-216 | `parse_raw` raises ValueError exactly when the pattern matches nowhere |
| UBootEnv.Sorted | python/depthcharge/uboot/env.py:327 | `sorted(env.keys())` holds each name once, in ascending code-point order |
| UBootEnv.EnvBinLoop | python/depthcharge/uboot/env.py:326-331 | the entries are `name=value` and a NUL, in the order of the names |
| UBootEnv.CreateRawLoop | python/depthcharge/uboot/env.py:294-355 | `create_raw`: the entries of the sorted names, padding, and the optional CRC word and flags byte |
| UBootEnv.ScanEntries | python/depthcharge/uboot/env.py:210-213 | stored entries scan back as their (name, value) pairs, in order |
| UBootEnv.CollectIsEnv | python/depthcharge/uboot/env.py:210-213 | collecting the sorted pairs of an environment gives the environment |
| UBootEnv.BodyParses | python/depthcharge/uboot/env.py:196-218 | `parse_raw` reads the environment back from the zero-padded body `create_raw` builds |
| UBootEnv.CreateRaw | python/depthcharge/uboot/env.py:294-355 | `create_raw` fills exactly `size` bytes; it fails only with UnicodeEncodeError (a non-ASCII character) or ValueError (too large) or OverflowError (a flags value that is not a byte) |
| UBootEnv.CreateRawErrors | python/depthcharge/uboot/env.py:333-352 | for an ASCII environment, ValueError exactly when the entries and the header do not fit, OverflowError exactly when `flags` is not a byte |
| UBootEnv.CreateLoadRoundTrip | python/depthcharge/uboot/env.py:235-355 | `load_raw` reads back what `create_raw` wrote: the same environment, a stored CRC equal to the CRC of the padded body, the body's size, and the flags |
| UBootEnv.LoadRaw | python/depthcharge/uboot/env.py:235-269 | `load_raw` reads `crc` and `actual_crc` exactly when `has_crc`, and `flags` (the byte after the CRC word) exactly with `has_flags` too, which raises IndexError on four bytes or fewer; `size` is what is left after the header; any other error is `parse_raw`'s ValueError |
| UBootEnv.LoadCrc | python/depthcharge/uboot/env.py:252-268 | `load_raw` of a CRC word followed by a body reads the word, the body's CRC and its environment |
| UBootEnv.LoadCrcFlags | python/depthcharge/uboot/env.py:252-268 | likewise with a flags byte between the CRC word and the body |
| UBootVersion.DigitRun | python/depthcharge/uboot/version.py:25-29 | `[0-9]+` is greedy: the run covers digits only and stops at the end or at a non-digit |
| UBootVersion.GroupAt | python/depthcharge/uboot/version.py:25-27 | a group is a numeral and the match goes on right after it |
| UBootVersion.SubAt | python/depthcharge/uboot/version.py:28 | the optional `(\.[0-9]+)?` group is a numeral when present |
| UBootVersion.ExtraAt | python/depthcharge/uboot/version.py:29 | the optional `(-rc[0-9]+)?` group is a numeral when present |
| UBootVersion.MatchAt | python/depthcharge/uboot/version.py:25-29 | a match of `_VERSION_RE` has well-formed groups |
| UBootVersion.FromGroups | python/depthcharge/uboot/version.py:54-62 | a missing sublevel is 0 and a missing release-candidate number is that of a release (1e6) |
| UBootVersion.Parse | python/depthcharge/uboot/version.py:43-62 | the constructor succeeds exactly when the pattern matches at the start, with the groups converted; ValueError otherwise |
| UBootVersion.FirstAt | python/depthcharge/uboot/version.py:37 | the leftmost position where the pattern matches, or none when it matches nowhere |
| UBootVersion.Find | python/depthcharge/uboot/version.py:31-41 | `find` gives None exactly when the pattern matches at no position, else the version at the leftmost match |
| UBootVersion.LessIsLexicographic | python/depthcharge/uboot/version.py:64-104 | `<` is the lexicographic order of version, patch, sublevel and extra, and `>` is its converse |
| UBootVersion.Trichotomy | python/depthcharge/uboot/version.py:64-116 | exactly one of `<`, `==` and `>` holds |
| UBootVersion.LessTransitive | python/depthcharge/uboot/version.py:64-110 | `<` and `<=` are transitive |
| UBootVersion.Compare | python/depthcharge/uboot/version.py:131-138 | `compare` gives -1 exactly for `<`, 1 exactly for `>`, and 0 exactly for equal versions, so its `assert` holds |
| UBootVersion.CompareAntisymmetric | python/depthcharge/uboot/version.py:118-138 | swapping the versions negates the comparison |
| UBootVersion.Coerce | python/depthcharge/uboot/version.py:124-129 | a version is taken as is, a string is parsed, anything else is a TypeError |
| UBootVersion.CompareArg | python/depthcharge/uboot/version.py:118-138 | `compare` fails exactly when its argument cannot be converted, and otherwise gives -1, 0 or 1 |
| UBootVersion.InRange | python/depthcharge/uboot/version.py:140-161 | `in_range` converts the minimum first, then the maximum, and fails with the first conversion error |
| UBootVersion.InRangeMeaning | python/depthcharge/uboot/version.py:161 | a version is in range exactly when it is neither below the minimum nor above the maximum; both ends of a non-empty range are in it |
| UBootVersion.VersionInRange | python/depthcharge/uboot/version.py:11-16 | the wrapper parses the version (ValueError when it does not match) and asks `in_range` |
| UBootVersion.ReleaseAfterCandidates | python/depthcharge/uboot/version.py:61-62 | a release comes after each of its release candidates below the millionth |
| UBootVersion.MatchText | python/depthcharge/uboot/version.py:25-29 | the pattern matches the text of well-formed groups with exactly those groups |
| UBootVersion.ParseRender | python/depthcharge/uboot/version.py:43-62 | the constructor reads every version back from its text |
| UBootVersion.ImplicitSublevel | python/tests/unit/uboot/version.py:22-23 | a sublevel written as 0 is the same as none (`1.1.0` equals `1.1`) |
| UBootVersion.LeadingZeroPatch | python/tests/unit/uboot/version.py:27 | leading zeros of the patch level do not count (`2020.01` equals `2020.1`) |
| UBootVersion.Malformed | python/tests/unit/uboot/version.py:115-120 | `202001`, `2020.a1`, `2020-rc1` and a sentence are refused with ValueError |
| UBootVersion.MillionthCandidateIsRelease | python/depthcharge/uboot/version.py:61-62 | a release's `_extra` is the number of the millionth release candidate, so the two compare equal |
| CmdTable.Word | python/depthcharge/uboot/cmd_table.py:44-54 | a missing key is a KeyError; a present value is packed as one target word by `int_to_bytes` |
| CmdTable.PackOk | python/depthcharge/uboot/cmd_table.py:42-56 | packing succeeds exactly when every field is present and fits in a word |
| CmdTable.PackLength | python/depthcharge/uboot/cmd_table.py:42-56 | a packed entry is one word per field |
| CmdTable.PackDecode | python/depthcharge/uboot/cmd_table.py:42-56 | reading the words of a packed entry back gives the fields' values, in order |
| CmdTable.PackError | python/depthcharge/uboot/cmd_table.py:44-54 | a failed packing reports the first bad field: KeyError when it is missing, OverflowError when it does not fit |
| CmdTable.EntryToBytes | python/depthcharge/uboot/cmd_table.py:9-56 | `entry_to_bytes` appends the words of the fields one at a time and gives the packing of the entry's fields |
| CmdTable.FieldsLayout | python/depthcharge/uboot/cmd_table.py:44-54 | the fields are name, maxargs, cmd_rep, cmd and usage, then longhelp and complete only when present |
| CmdTable.EntryLength | python/depthcharge/uboot/cmd_table.py:42-56 | a packed entry has five words, plus one each for longhelp and complete when present |
| CmdTable.EntryDecode | python/depthcharge/uboot/cmd_table.py:42-56 | a packed entry has all five required keys, and its words read back as the structure's fields in order |
| CmdTable.Pack | python/depthcharge/uboot/cmd_table.py:42-56 | a failed packing raises KeyError or OverflowError, the error of one of the fields |
| JumpTable.ExportsFree | python/depthcharge/uboot/jump_table.py:12-85 | `free` is in the list exactly when `sys_malloc_simple` is false; the list then has 32 entries, otherwise 31 |
| JumpTable.ExportsWithoutFree | python/depthcharge/uboot/jump_table.py:12-85 | without `free` every other function keeps its order, and `free` sits right after the functions before it |
| JumpTable.NewGdStep | python/depthcharge/uboot/jump_table.py:101-106 | a word that does not hold the address of `gd` moves the search on by one word, with no match left behind |
| JumpTable.FindNewGd | python/depthcharge/uboot/jump_table.py:88-108 | `_find_new_gd` gives the first word offset after the first word whose pointer equals `gd_address`, or ValueError when no word does |
| JumpTable.BlockedGrows | python/depthcharge/uboot/jump_table.py:125-140 | a start that no 32-byte run can follow stays ruled out as the scan moves on |
| JumpTable.FindGdEnvBuf | python/depthcharge/uboot/jump_table.py:111-142 | `_find_gd_env_buf` gives the offset of the first word-aligned index after new_gd followed by 32 NUL or printable bytes, or ValueError when there is none |
| JumpTable.ExtraNamesDistinct | python/depthcharge/uboot/jump_table.py:156-163 | the seven field names differ, so each is its own key of the result |
| JumpTable.FieldValueInside | python/depthcharge/uboot/jump_table.py:180-183 | inside `gd_mem`, the `phys_size` reading and the `to_uint` reading both give the value of the field's bytes |
| JumpTable.ExtraFieldsAdjacent | python/depthcharge/uboot/jump_table.py:175-178 | the fields sit in consecutive slots directly below new_gd, each ending where the one before starts |
| JumpTable.Names | python/depthcharge/uboot/jump_table.py:177-181 | the keys set by the first `n` fields include each of their names |
| JumpTable.PutField | python/depthcharge/uboot/jump_table.py:180-183 | setting one field's key keeps the values already read for the fields before it |
| JumpTable.ReadFields | python/depthcharge/uboot/jump_table.py:175-187 | the loop sets exactly the fields' names, each to the value of its bytes at its offset below new_gd |
| JumpTable.FindExtras | python/depthcharge/uboot/jump_table.py:144-187 | `_find_extras` gives the seven fields below new_gd by name, with `ram_size` read as `phys_size` bytes |
| JumpTable.EntriesOf | python/depthcharge/uboot/jump_table.py:272-289 | the table has one entry per export |
| JumpTable.ReadEntries | python/depthcharge/uboot/jump_table.py:271-289 | the loop advancing a word per export builds exactly the entries of the table |
| JumpTable.EntriesOfMeaning | python/depthcharge/uboot/jump_table.py:272-289 | entry `k` carries export `k`'s name and types and the `k`-th pointer of the table data |
| JumpTable.PtrValuesAt | python/depthcharge/uboot/jump_table.py:273 | the `k`-th pointer is the one read after advancing `k` words |
| JumpTable.ExportsAsWritten | python/depthcharge/uboot/jump_table.py:209-214 | `exports(**kwargs)` as written is a TypeError whenever `gd_read_size` or `jt_addr_mask` is passed, and otherwise the exports chosen by `sys_malloc_simple` |
| JumpTable.GdReadSizeRejectedAsWritten | python/depthcharge/uboot/jump_table.py:266 | passing `gd_read_size` or `jt_addr_mask=0` (the work-around the comment at line 212 suggests) makes `find` fail as written, while the evidently intended call keeps the full table |
| JumpTable.Locate | python/depthcharge/uboot/jump_table.py:224-235 | the searches find the first new_gd, the extras below it and the first env_buf above it, or ValueError when no new_gd or no env_buf after the first new_gd exists |
| JumpTable.Find | python/depthcharge/uboot/jump_table.py:190-291 | `find` refuses an unaligned `gd` and a read size that is not a multiple of the word, otherwise gives the table at the pointer before env_buf with one entry per export, or ValueError exactly when a search fails (corrected — see Findings row for python/depthcharge/uboot/jump_table.py:266) |
| JumpTable.Exports | python/depthcharge/uboot/jump_table.py:12-85 | the functions before `free` and after it keep their places, and `free` sits between them exactly when `sys_malloc_simple` is false |
| Arch.BitAnd | python/depthcharge/arch/arch.py:201 | Python's `&` with a non-negative mask gives a value no larger than the mask, also for a negative address |
| Arch.BitAndLowMask | python/depthcharge/arch/arch.py:201 | masking with `n - 1` for a power of two `n` is the remainder modulo `n` |
| Arch.IsWordAlignedMeaning | python/depthcharge/arch/arch.py:197-201 | for a power-of-two word size, `is_word_aligned` holds exactly when the address is a multiple of the word size |
| Arch.IsAllowedAccessMeaning | python/depthcharge/arch/arch.py:204-211 | `is_allowed_access` holds exactly when the address is a multiple of the alignment, whatever the size |
| Arch.ToUint | python/depthcharge/arch/arch.py:214-219 | `to_uint`/`ptr_value` read the first `word_size` bytes (all of shorter data) in the target's byte order, giving a value below `256^word_size` |
| Arch.Advance | python/depthcharge/arch/arch.py:222-228 | `ptr_value_adv` drops exactly the first word, and leaves nothing of data shorter than a word |
| Arch.PtrValues | python/depthcharge/arch/arch.py:222-228 | reading `n` words one after the other gives `n` values |
| Arch.SignedRange | python/depthcharge/arch/arch.py:245-252 | the two's complement of a `w`-bit value lies in the signed range, differs from the value by a multiple of `2^w`, and is the value itself below the sign bit |
| Arch.ToIntTwosComplement | python/depthcharge/arch/arch.py:239-252 | `to_int` lies in the word's signed range, is congruent to `to_uint` modulo `2^(8*word_size)`, and equals it when the sign bit is clear |
| Arch.IntToWord | python/depthcharge/arch/arch.py:231-236 | `int_to_bytes` succeeds exactly for `0 <= v < 256^word_size`, giving one word; OverflowError otherwise |
| Arch.PtrValueIntToWord | python/depthcharge/arch/arch.py:214-236 | reading back a word written by `int_to_bytes` gives the value, and `ptr_value_adv` consumes exactly that word |
| Arch.HexintToBytes | python/depthcharge/arch/arch.py:280-288 | `hexint_to_bytes` raises only ValueError (text `int(_, 16)` refuses) or OverflowError (a value that does not fit) |
| Arch.HexintPrefixOptional | python/depthcharge/arch/arch.py:285-286 | `hexint_to_bytes` gives the same with or without the `0x` prefix |
| Arch.HexintSignRefused | python/depthcharge/arch/arch.py:285-288 | a signed string raises ValueError, since the sign would follow the added prefix |
| Arch.HexintDigits | python/depthcharge/arch/arch.py:285-288 | bare hex digits are encoded as their value in `num_bytes` bytes of the byte order, or raise OverflowError when it does not fit |
| Arch.WordSizes | python/depthcharge/arch/arch.py:291-303 | the sizes are 1, 2 and 4, and 8 exactly when 64-bit data is supported |
| Arch.MultipleOfWordSizeAligned | python/depthcharge/arch/arch.py:306-311 | `multiple_of_word_size` agrees with `is_word_aligned` for a power-of-two word size |
| Arch.RegisterFromFirst | python/depthcharge/arch/arch.py:338-349 | the loop stops at the first register whose name or alias, as given, upper- or lower-cased, is the name, and fails with ValueError exactly when none is |
| Arch.Register | python/depthcharge/arch/arch.py:329-349 | `register` gives the first matching register with its information, and ValueError exactly when no register matches |
| Arch.FirstNamedIsFirst | python/depthcharge/arch/arch.py:165-176 | the reference search finds the first definition whose lower-cased name is the target, and none exactly when no name matches |
| Arch.GetFindsFirst | python/depthcharge/arch/arch.py:149-176 | `get` returns the first definition, each class before its subclasses, whose name matches ignoring case, and fails exactly when there is none |
| Arch.Get | python/depthcharge/arch/arch.py:176 | the only error of `get` is KeyError |
| StringUtil.ToPositiveInt | python/depthcharge/string.py:25-47 | the value of `int(s, 0)` when it reads and is not negative; otherwise exit (SystemExit) when `exit_on_fail`, else None |
| StringUtil.ToPositiveIntDecimal | python/depthcharge/string.py:34-38 | the decimal text of a natural number gives that number |
| StringUtil.ToPositiveIntNegative | python/depthcharge/string.py:36-47 | the text of a negative number exits, or gives None without `exit_on_fail` |
| StringUtil.FirstSuffix | python/depthcharge/string.py:81-82 | the first entry of the table, in order, whose key the text ends with, or none when no key matches |
| StringUtil.Folded | python/depthcharge/string.py:79 | removing spaces never lengthens the text |
| StringUtil.LengthToInt | python/depthcharge/string.py:50-88 | `length_to_int` tries a plain integer first, then the first matching suffix, with the value before it scaled by the factor; ValueError when no suffix matches |
| StringUtil.ScaleBySuffix | python/depthcharge/string.py:81-88 | the loop over the suffixes gives what the first matching key decides |
| StringUtil.SuffixesWellFormed | python/depthcharge/string.py:11-22 | the corrected table has upper-case letter keys, none shadowed by an earlier key it ends with |
| StringUtil.FirstSuffixIs | python/depthcharge/string.py:81-82 | the first match is entry `j` when it matches and no earlier key does |
| StringUtil.LengthSuffixed | python/depthcharge/string.py:79-86 | a text that is not an integer and folds to a number followed by an unshadowed key gives the number times the key's factor |
| StringUtil.LengthNotPlain | python/depthcharge/string.py:72-79 | a text that `int(s, 0)` refuses goes to the suffix search on its folded form |
| StringUtil.SuffixedIsNotPlain | python/depthcharge/string.py:74 | a number directly followed by a key of letters is not an integer literal |
| StringUtil.LengthNumberKey | python/depthcharge/string.py:50-88 | with a well-formed table, a number followed by a key in any case is the number times the key's factor |
| StringUtil.LengthToIntKey | python/depthcharge/string.py:52-69 | with the corrected table, each documented suffix in any case multiplies the number by its factor |
| StringUtil.AsWrittenGiBDead | python/depthcharge/string.py:21 | the table's last key is `GiB`, which no upper-cased text ends with |
| StringUtil.AsWrittenApartFromGIB | python/depthcharge/string.py:12-22 | the keys as written are letters and none of them ends `GIB` |
| StringUtil.LengthGiBAsWritten | python/depthcharge/string.py:21 | as written, a number followed by `GiB` in any case is ValueError, not `n * 2^30` |
| StringUtil.LengthNoSuffix | python/depthcharge/string.py:88 | a number followed by letters that no key matches is ValueError |
| StringUtil.LengthNumberLetters | python/depthcharge/string.py:72-88 | a number followed by letters goes to the suffix search with the number and the upper-cased letters |
| StringUtil.NoSuffixAsWritten | python/depthcharge/string.py:12-22 | no key as written ends a number followed by `GIB` |
| StringUtil.LengthGiB | python/depthcharge/string.py:68 | with the corrected table, `1GiB` is 2^30, as the documentation says |
| StringUtil.LengthTablesAgree | python/depthcharge/string.py:12-22 | the table as written and the corrected one give the same result on every text whose folded form does not end `GIB` |
| StringUtil.TablesShareAllButLast | python/depthcharge/string.py:12-22 | the two tables have nine entries and differ only in the last key |
| StringUtil.FirstSuffixAgree | python/depthcharge/string.py:81-82 | tables differing only in a last entry that does not match find the same, and never that last entry |
| StringUtil.Lookup | python/depthcharge/string.py:102-125 | a key has a value exactly when it is one of the dictionary's keys |
| StringUtil.Put | python/depthcharge/string.py:112-119 | storing adds the key to the keys |
| StringUtil.PutLookup | python/depthcharge/string.py:112-119 | after `d[k] = v`, `k` maps to `v`, every other key to what it did, and keys stay distinct |
| StringUtil.ValueOf | python/depthcharge/string.py:115-119 | a value is the integer `int(v, 0)` reads when it reads, and the text otherwise |
| StringUtil.ParseKeyvalOk | python/depthcharge/string.py:106-107 | an item is accepted exactly when it holds at most one `=` |
| StringUtil.ParseKeyvalMeaning | python/depthcharge/string.py:106-123 | an item without `=` is a flag (True) under its stripped text; with one `=`, the stripped text around it is key and value; more is ValueError |
| StringUtil.KeyvalListToDict | python/depthcharge/string.py:91-125 | `keyval_list_to_dict` splits every argument at commas and stores every item in order |
| StringUtil.PutItems | python/depthcharge/string.py:105-123 | the inner loop stores the items of one argument in order, stopping at the first that does not parse |
| StringUtil.PutAllConcat | python/depthcharge/string.py:103-105 | storing two runs of items is storing the first, then the second |
| StringUtil.PutAllLookup | python/depthcharge/string.py:102-125 | after storing, keys are distinct and each key holds the value of the last item naming it, or its earlier value |
| StringUtil.KeyvalsMeaning | python/depthcharge/string.py:91-125 | ValueError exactly when some item has more than one `=`; otherwise each key maps to the value of its last item |
| StringUtil.PutAllCount | python/depthcharge/string.py:106-123 | storing items succeeds exactly when no item holds more than one `=` |
| StringUtil.PutAllError | python/depthcharge/string.py:123 | the only error raised is ValueError |
| StringUtil.PropertyKeyvalPlain | python/depthcharge/string.py:145-148 | an argument without `:` is the property with no settings |
| StringUtil.PropertyKeyvalMeaning | python/depthcharge/string.py:150-153 | the property is the stripped text before the first `:`, the settings those of the text after it |
| StringUtil.KeyvalsResplitDict | python/depthcharge/string.py:152-153 | splitting at commas before `keyval_list_to_dict` changes nothing |
| StringXxd.Ascii | python/depthcharge/string.py:175-179 | the character column has one character per byte |
| StringXxd.Lines | python/depthcharge/string.py:166-197 | a dump has lines exactly when there are bytes: one per sixteen, the last possibly shorter |
| StringXxd.HeadFormat | python/depthcharge/string.py:168 | each line's address is written as Python's `'{:08x}: '` writes it |
| StringXxd.Hex2Format | python/depthcharge/string.py:170 | each byte is written as Python's `'{:02x}'` writes it |
| StringXxd.Xxd | python/depthcharge/string.py:156-197 | `xxd` returns the lines of sixteen bytes (address, hex bytes, padding, character column) joined by the line separator |
| StringXxd.XxdByte | python/depthcharge/string.py:167-184 | one turn of the loop opens a line at its first byte, appends the byte, closes the line at its sixteenth byte and counts modulo 16 |
| StringXxd.AsciiColumn | python/depthcharge/string.py:175-179 | printable ASCII bytes show as themselves, every other byte as `.` |
| StringXxd.RunCounter | python/depthcharge/string.py:171-184 | the counter `c` stays below sixteen and equals the number of bytes in `linebuf` |
| StringXxd.RunShape | python/depthcharge/string.py:166-184 | after `i` bytes the text holds the `i / 16` complete lines and the open line so far |
| StringXxd.StepShape | python/depthcharge/string.py:166-184 | one turn of the loop keeps that shape, whether the byte opens, extends or closes a line |
| StringXxd.StepClose | python/depthcharge/string.py:173-182 | the sixteenth byte closes the line with its column, followed by the separator unless it is the last byte |
| StringXxd.RunDump | python/depthcharge/string.py:166-197 | the loop and its tail together produce the lines joined by the separator |
| StringXxd.DumpShort | python/depthcharge/string.py:186-195 | a short last line is padded to the width of sixteen bytes before its column |
| StringXxd.LinesSnoc | python/depthcharge/string.py:166-197 | the lines of the bytes are those of the complete lines followed by the last one |
| StringXxd.HexRun | python/depthcharge/string.py:201 | the greedy `[0-9a-fA-F]` run stops at the end or at a character that is not hex |
| StringXxd.SpaceRun | python/depthcharge/string.py:201 | the greedy `\s*` stops at the end or at a non-space |
| StringXxd.DataRun | python/depthcharge/string.py:202 | the data group is a prefix of the text |
| StringXxd.MatchLine | python/depthcharge/string.py:200-203 | a match has at least eight address digits and between one and sixteen hex pairs, each followed by at most one space |
| StringXxd.DataRunBound | python/depthcharge/string.py:202 | the data group is empty or at least a pair, and at most three characters per pair |
| StringXxd.FromHex | python/depthcharge/string.py:230 | `bytes.fromhex` fails only with ValueError |
| StringXxd.XxdReverse | python/depthcharge/string.py:206-232 | `xxd_reverse` reads the stripped non-empty lines in order, takes the address from the first, appends each line's bytes, and raises ValueError at a malformed line |
| StringXxd.ReadLinesError | python/depthcharge/string.py:224-225 | a malformed dump raises ValueError and nothing else |
| StringXxd.XxdRoundTrip | python/depthcharge/string.py:156-232 | for a non-negative address and a `\n` or `\r\n` line separator, `xxd_reverse(xxd(address, data))` gives back the address and the bytes; a dump of no bytes reads back as no address and no bytes |
| StringXxd.ReadDump | python/depthcharge/string.py:214-232 | reading the lines of a dump keeps the first address read (or takes the dump's own) and appends all of the dump's bytes |
| StringXxd.ReadPyLine | python/depthcharge/string.py:219-230 | one line written by `xxd`, stripped and matched, reads back as its address and exactly its bytes |
| StringXxd.ReadMatched | python/depthcharge/string.py:219-230 | a line whose stripped text matches, with an address and data that parse, adds its bytes and sets the address only when none was read before |
| StringXxd.PyLineStrip | python/depthcharge/string.py:219 | stripping a line of `xxd` keeps its address, colon, space and the hex of its bytes, followed by nothing or by a space and, on a short line, a second space |
| StringXxd.PyLineParts | python/depthcharge/string.py:168-195 | a line of `xxd` is its address, colon and space and the hex of its bytes (text starting and ending with a non-space), then a space, the padding, a space and the column |
| StringXxd.StripAfter | python/depthcharge/string.py:219 | `strip` of text that starts and ends with a non-space keeps all of it, followed by a prefix of what comes after |
| StringXxd.MatchParts | python/depthcharge/string.py:200-203 | on a stripped line of `xxd` the pattern takes all the address digits and every byte's hex pair, with at most one space after the last |
| StringXxd.MatchLineAt | python/depthcharge/string.py:200-203 | the pattern over an address run ending at a colon, one space and data: the address digits and the data group |
| StringXxd.LineLayout | python/depthcharge/string.py:201 | in address digits followed by `: `, the address run is exactly the digits and the colon comes right after them |
| StringXxd.HexRunBefore | python/depthcharge/string.py:201 | the greedy address run over hex digits followed by a non-hex character is exactly those digits |
| StringXxd.DataRunHex | python/depthcharge/string.py:202 | the data group over the hex of up to sixteen bytes takes all of their pairs and at most one space after the last |
| StringXxd.FromHexBytes | python/depthcharge/string.py:230 | `bytes.fromhex` of the hex of the bytes, with or without one space after the last, gives back the bytes |
| StringXxd.HexBytesShape | python/depthcharge/string.py:170 | the hex of `k` bytes is `3k` characters, starting with a hex digit and ending with a hex digit and a space |
| StringXxd.LinesPrintable | python/depthcharge/string.py:166-197 | every line of a dump at a non-negative address is non-empty printable ASCII, so `splitlines` finds no break inside one |
| StringXxd.Dump | python/depthcharge/string.py:156-196 | `xxd` gives the empty string exactly for no bytes, and otherwise starts with the line of the first sixteen bytes |
| StringXxd.ReadLinesNoAddress | python/depthcharge/string.py:219-229 | an address is read from the first line that matches; with none, no bytes are added |
| StringXxd.Undump | python/depthcharge/string.py:206-232 | `xxd_reverse` returns no bytes when no line gives an address |
| Operation.CreateStratagemSpec | python/depthcharge/operation.py:209-222 | the specification has the base keys `src_addr`, `src_size`, `dst_off` and the keyword keys; a keyword's type wins, and base keys not overridden are int |
| Operation.FirstNamed | python/depthcharge/operation.py:138-141 | the first registered name equal to the key ignoring case, or none exactly when no name matches |
| Operation.Register | python/depthcharge/operation.py:91-113 | `register` stores the class under its name; a new name goes last, a name registered again keeps its place and takes the new class |
| Operation.GetImplementationMeaning | python/depthcharge/operation.py:131-144 | `get_implementation` finds a class exactly when a registered name equals the name ignoring case, prefers the exact name, and otherwise raises KeyError |
| Operation.RegisterThenGet | python/depthcharge/operation.py:91-144 | a registered class is found again under its own name |
| Operation.Acceptable | python/depthcharge/operation.py:267 | the acceptable members of a tuple are exactly those the target has |
| Operation.CommandsFoundErrKind | python/depthcharge/operation.py:264-279 | the commands check raises nothing but OperationNotSupported |
| Operation.CommandsFoundFails | python/depthcharge/operation.py:268-277 | a missing command, or a tuple none of whose members the target has, raises OperationNotSupported |
| Operation.CommandsFoundPasses | python/depthcharge/operation.py:264-279 | when every requirement is met (a tuple by any one member) the check passes |
| Operation.CommandsFoundHave | python/depthcharge/operation.py:272-279 | every command the check reports is one the target has |
| Operation.CheckCommands | python/depthcharge/operation.py:263-279 | the loop over the required commands gives the commands found, or OperationNotSupported at the first requirement not met |
| Operation.CommandsFoundPrefix | python/depthcharge/operation.py:264-277 | once a prefix of the requirements fails, the whole check fails the same way |
| Operation.CheckVariables | python/depthcharge/operation.py:287-292 | the variables check passes exactly when every required variable is defined, reporting them in order; otherwise OperationNotSupported |
| Operation.OperationSet.constructor | python/depthcharge/operation.py:362-365 | a new set is empty and keeps its suffix |
| Operation.OperationSet.Items | python/depthcharge/operation.py:370-371 | iteration gives the instances in the order they were added, each under its own name |
| Operation.OperationSet.GetByName | python/depthcharge/operation.py:374-375 | `set[name]` gives the instance of that name, and KeyError exactly when there is none |
| Operation.OperationSet.GetByIndex | python/depthcharge/operation.py:377-378 | `set[i]` gives the `i`-th instance added, counting from the end when negative, and IndexError outside the list |
| Operation.OperationSet.Add | python/depthcharge/operation.py:382-388 | `add` ignores an instance whose name is present, and otherwise appends it to the order |
| Operation.OperationSet.FindByName | python/depthcharge/operation.py:390-408 | `_find_by_name` gives the first instance whose name matches ignoring case, then retries with the suffix appended when allowed, and raises ValueError otherwise |
| Operation.OperationSet.FindAny | python/depthcharge/operation.py:456-470 | `find` with a list gives the first entry found, and ValueError when none is |
| Operation.OperationSet.Default | python/depthcharge/operation.py:491-548 | `default`, with the requirement check working as documented, gives the first instance of highest rank among those not excluded, and OperationNotSupported when none is left |
| Operation.RequiresAny | python/depthcharge/operation.py:527-534 | the exclusion loop over `exclude_reqts`, as intended, tells whether the instance has any listed item as a truthy requirement |
| Operation.RequiresSome | python/depthcharge/operation.py:529-530 | an instance requires some listed item exactly when one of them is a truthy requirement |
| Operation.ByNameIgnoresCase | python/depthcharge/operation.py:390-408 | two spellings that differ only in case find the same instance; a failure is ValueError |
| Operation.FirstFoundOk | python/depthcharge/operation.py:463-470 | searching a list finds something exactly when some entry is found |
| Operation.FirstFoundFirst | python/depthcharge/operation.py:463-468 | the result is what the first entry that is found finds |
| Operation.Candidates | python/depthcharge/operation.py:520-536 | the candidates are exactly the instances not excluded by identity and requiring none of the items |
| Operation.Best | python/depthcharge/operation.py:538-548 | OperationNotSupported exactly when there are no candidates; otherwise a candidate of the highest rank, the first such, as a stable sort by rank gives |
| Operation.DefaultAsWrittenKeepsStratagem | python/depthcharge/operation.py:527-534 | as written, the `continue` skips nothing, so a higher-ranked instance that requires a Stratagem is still chosen |
| Operation.DefaultExcludesStratagem | python/depthcharge/operation.py:501-512 | with the check as intended and `('stratagem',)`, the instance requiring a Stratagem is left out and the other is chosen |
| Operation.DefaultReqtsAreLetters | python/depthcharge/operation.py:512 | `('stratagem')` is a string, so the loop sees nine one-letter items and never "stratagem" |
| Operation.GetImplementation | python/depthcharge/operation.py:131-144 | the class registered under exactly `name` wins; any class found is registered and its name equals `name` ignoring case; failure is KeyError |
| PayloadMap.NextOffset | python/depthcharge/payload_map.py:89-93 | the next offset is past the payload; with `align > 1` it is the least multiple of `align` at or above the payload's end, otherwise exactly its end |
| PayloadMap.RoundUp | python/depthcharge/payload_map.py:90-91 | `((x + align - 1) // align) * align` is the least multiple of `align` at or above `x` |
| PayloadMap.Marked | python/depthcharge/payload_map.py:134-153 | `mark_required_by` raises nothing exactly when no TypeError is met and the payload is known (or there is no name to add); KeyError changes nothing; no other payload changes |
| PayloadMap.Placed | python/depthcharge/payload_map.py:85-104 | a new name gets a fresh record (address, not deployed, `skip_deploy`, data, size, empty `required_by`); existing records stay as they were |
| PayloadMap.PayloadMap.constructor | python/depthcharge/payload_map.py:46-69 | the map keeps base, alignment and `skip_deploy`, holds every given payload, and none is deployed or required yet |
| PayloadMap.PayloadMap.Place | python/depthcharge/payload_map.py:85-104 | a new name gets the address `base + off` and the offset moves past it, rounded up to the alignment; a known name leaves names and offset as they were |
| PayloadMap.PayloadMap.Insert | python/depthcharge/payload_map.py:71-107 | `insert` places the payload and, when `required_by` is truthy, marks it; the layout stays consistent |
| PayloadMap.PayloadMap.Get | python/depthcharge/payload_map.py:112-117 | `map[name]` gives the payload's record, and KeyError exactly when the name is unknown |
| PayloadMap.PayloadMap.MarkDeployed | python/depthcharge/payload_map.py:127-132 | `mark_deployed` sets only that payload's `deployed` flag; an unknown name is KeyError and changes nothing |
| PayloadMap.PayloadMap.MarkRequiredBy | python/depthcharge/payload_map.py:134-153 | `mark_required_by` does what `Marked` describes, recursing into lists |
| PayloadMap.PayloadMap.MarkEach | python/depthcharge/payload_map.py:142-145 | the loop over a list marks each element in turn and stops at the first error |
| PayloadMap.PayloadMap.AddName | python/depthcharge/payload_map.py:153 | one name is added to the payload's `required_by`, or KeyError |
| PayloadMap.ConsistentAppend | python/depthcharge/payload_map.py:85-102 | a new payload placed at the current offset, with the offset moved past it, keeps the regions in insertion order inside `[base, base + off)` |
| PayloadMap.LaidBounds | python/depthcharge/payload_map.py:86-94 | every payload's region lies between the base and `base + off` |
| PayloadMap.ConsistentRelabel | python/depthcharge/payload_map.py:131-132 | changing a record's flags, not its address, size or data, keeps the layout |
| PayloadMap.PlacedUntouched | python/depthcharge/payload_map.py:95-104 | placing keeps every name and every record not deployed and required by nothing |
| PayloadMap.MarkedName | python/depthcharge/payload_map.py:147-153 | marking one name adds it to the payload's `required_by`, or raises KeyError for an unknown payload |
| PayloadMap.RegionsDisjoint | python/depthcharge/payload_map.py:86-94 | two payloads never share a byte, and the one inserted first lies at the lower address |
| PayloadMap.MarkedStep | python/depthcharge/payload_map.py:143-144 | marking one more list element continues from the map the earlier elements left |
| PayloadMap.MarkedTwice | python/depthcharge/payload_map.py:143-153 | adding two runs of names one after the other adds their union |
| PayloadMap.MarkedStop | python/depthcharge/payload_map.py:143-144 | the element that raises ends the list's marking with that map and error |
| PayloadMap.MarksOfNames | python/depthcharge/payload_map.py:142-153 | a list of operation names marks exactly those names, in order, and raises nothing |
| SecurityRisk.Value | python/depthcharge/checker/security_risk.py:27-82 | the flags' integer value is 0 exactly for NONE, at least `1 << 24` with WR_MEM, and below `1 << 25`, so it orders impacts roughly by severity |
| SecurityRisk.AllSectionsRanked | python/depthcharge/checker/security_risk.py:96-146 | the paragraphs are considered in one fixed order |
| SecurityRisk.Describe | python/depthcharge/checker/security_risk.py:91-152 | `describe()` gives the paragraphs of the impact's shown sections, in order |
| SecurityRisk.DescribeFirst | python/depthcharge/checker/security_risk.py:96-146 | the chain of `if`s over the first `n` sections emits exactly the paragraphs of the shown ones |
| SecurityRisk.ShownUpToMeaning | python/depthcharge/checker/security_risk.py:96-146 | a paragraph is among the first `k` emitted exactly when its condition holds and it comes before `k`; they come in order, each once |
| SecurityRisk.SectionsShown | python/depthcharge/checker/security_risk.py:96-146 | a paragraph is emitted exactly when its condition holds: NONE alone, UNKNOWN alone, or its flag set |
| SecurityRisk.SectionsOrdered | python/depthcharge/checker/security_risk.py:96-146 | the paragraphs come in the fixed order, each at most once |
| SecurityRisk.UnknownOnlyAlone | python/depthcharge/checker/security_risk.py:101 | UNKNOWN with other flags gets no unknown-impact paragraph (an equality test), and every impact gets at least one paragraph |
| SecurityRisk.NewRisk | python/depthcharge/checker/security_risk.py:163-191 | the constructor raises TypeError exactly when the impact is not a SecurityImpact, and otherwise keeps every field, with the range's ends as the version bounds |
| SecurityRisk.EqByIdentifier | python/depthcharge/checker/security_risk.py:203-210 | risks are equal exactly when their identifiers are (reflexive, symmetric, transitive), a risk equals its identifier string, and nothing else |
| SecurityRisk.Hash | python/depthcharge/checker/security_risk.py:212-213 | equal risks hash alike |
| SecurityRisk.ApplicableToVersion | python/depthcharge/checker/security_risk.py:323-340 | a risk without both bounds applies to every version; with both, a version that is neither a string nor a version raises TypeError |
| SecurityRisk.ApplicableMeaning | python/depthcharge/checker/security_risk.py:330-340 | with both bounds parsed, a risk applies exactly to the versions between them, both included |
| SecurityRisk.FromDict | python/depthcharge/checker/security_risk.py:307-321 | a missing required key is KeyError; otherwise the risk carries the dictionary's values |
| SecurityRisk.ToDictAsWritten | python/depthcharge/checker/security_risk.py:298-304 | `to_dict` as written gives the identifier but no summary |
| SecurityRisk.RoundTripAsWrittenFails | python/depthcharge/checker/security_risk.py:285-321 | as written, reading back any dictionary `to_dict` gives raises KeyError, because `summary` is missing |
| SecurityRisk.ToDictDocumented | python/depthcharge/checker/security_risk.py:285-304 | `to_dict` with exactly the six documented keys: the summary is added, no version range is emitted |
| SecurityRisk.RoundTripDocumented | python/depthcharge/checker/security_risk.py:285-321 | with the six documented keys, `from_dict(to_dict(r))` gives back the risk without its version range |
| SecurityRisk.ToDict | python/depthcharge/checker/security_risk.py:285-321 | `to_dict` with the documented summary and, as the second change of the Findings row for security_risk.py:298-321, the version range `from_dict` reads as `affected_versions`, present exactly when the risk has both bounds |
| SecurityRisk.RoundTrip | python/depthcharge/checker/security_risk.py:285-321 | with the summary and the version range both emitted, every risk the constructor builds survives `from_dict(to_dict(r))` unchanged (corrected — see Findings row for python/depthcharge/checker/security_risk.py:298-321) |
| SecurityRisk.NewRiskBounds | python/depthcharge/checker/security_risk.py:189-191 | a risk the constructor builds has both version bounds or neither |
| Report.Construct | python/depthcharge/checker/report.py:57-58 | `SecurityRisk(**d)` is a TypeError when a keyword is missing or the impact is not an impact; otherwise the risk carries the dictionary's values |
| Report.Given | python/depthcharge/checker/report.py:55-60 | `add` takes a risk as it is, builds one from a dictionary, and raises TypeError for anything else |
| Report.AddTo | python/depthcharge/checker/report.py:62-63 | adding to the set keeps every recorded risk; a new identifier is added, a known one leaves the earlier item in place; the size grows by one exactly for a new identifier |
| Report.Union | python/depthcharge/checker/report.py:125-129 | `update` is a set union by identifier in which the receiver's items win |
| Report.UnionAllKeeps | python/depthcharge/checker/report.py:110-126 | merging never drops or replaces an item already in the report |
| Report.UnionAllKeys | python/depthcharge/checker/report.py:110-126 | after merging, an identifier is in the report exactly when it was in it or in one of the others |
| Report.UnionAbsorbs | python/depthcharge/checker/report.py:115-116 | merging a report whose identifiers are all present changes nothing |
| Report.UnionAssoc | python/depthcharge/checker/report.py:110-129 | merging one report at a time or their union first gives the same report |
| Report.ListsAll | python/depthcharge/checker/report.py:87-89 | a listing of the report holds every recorded risk |
| Report.IdentsCount | python/depthcharge/checker/report.py:39-40 | a listing with distinct identifiers has as many identifiers as entries, so its length is the report's `len` |
| Report.Slot | python/depthcharge/checker/report.py:87 | where a stable sort by impact places the next risk: after every entry it does not outrank, before the first it does |
| Report.Insert | python/depthcharge/checker/report.py:87 | inserting at the slot adds exactly one entry |
| Report.InsertRanked | python/depthcharge/checker/report.py:87 | insertion keeps the listing ordered by impact and adds exactly the new risk |
| Report.PartialStep | python/depthcharge/checker/report.py:87-89 | each insertion keeps the partial listing exact for the identifiers taken so far, and ordered |
| Report.InsertDistinct | python/depthcharge/checker/report.py:87 | inserting a risk with a new identifier keeps identifiers distinct |
| Report.CommaSeparated | python/depthcharge/checker/report.py:185-186 | the HTML impact cell has no '+', and a string without one is unchanged |
| Report.RowOf | python/depthcharge/checker/report.py:178-197 | a row has one cell per column, each the cell that column names |
| Report.RowsOf | python/depthcharge/checker/report.py:177-199 | one row per risk, in the listing's order |
| Report.RowMeaning | python/depthcharge/checker/report.py:179-195 | the column name, in any case, picks identifier, source or summary; the impact cell is the impact string, with '+' replaced in HTML |
| Report.RowStep | python/depthcharge/checker/report.py:179-197 | appending one known column appends its cell to the row |
| Report.BuildRow | python/depthcharge/checker/report.py:178-197 | the row loop succeeds exactly when every column is known, and then builds `RowOf` |
| Report.WriteRows | python/depthcharge/checker/report.py:177-199 | the writing loop emits `RowsOf` the listing |
| Report.Report.constructor | python/depthcharge/checker/report.py:29-37 | a new report is empty with no iteration in progress |
| Report.Report.Len | python/depthcharge/checker/report.py:39-40 | `len` is the number of distinct identifiers recorded |
| Report.Report.Add | python/depthcharge/checker/report.py:43-66 | `add` raises TypeError and changes nothing for a bad argument; otherwise the set becomes `AddTo`, and the result is True exactly when the identifier was new, that is when the size grew |
| Report.Report.SecurityRisks | python/depthcharge/checker/report.py:68-89 | the generator yields every recorded risk once, ordered by impact, highest first unless asked otherwise |
| Report.Report.Iter | python/depthcharge/checker/report.py:105-108 | `iter` resets the position and the cached order and returns the report itself |
| Report.Report.Next | python/depthcharge/checker/report.py:91-103 | the first `next` caches the highest-first listing; each call yields the entry at the position and advances, and past the end it signals StopIteration without advancing |
| Report.Report.Merge | python/depthcharge/checker/report.py:110-126 | the report becomes the union of itself with each other report in turn |
| Report.Report.IOr | python/depthcharge/checker/report.py:128-130 | `|=` is the union with the other report and returns the report itself |
| Report.Report.WriteRisks | python/depthcharge/checker/report.py:163-204 | columns that are not a list or tuple raise TypeError; otherwise the heading (when asked), then one row per risk ordered by impact, or ValueError at the first unknown column name |
| Report.Report.WriteColumns | python/depthcharge/checker/report.py:174-199 | with a given column list, writes exactly what `Written` says: heading, then all rows, or ValueError on an unknown column when there is a risk to write |
| ConfigChecker.Register | python/depthcharge/checker/config_checker.py:96-150 | a risk that is not a `SecurityRisk` or a match of no supported type raises TypeError; otherwise the handler is appended to its key's list, and every other key is untouched |
| ConfigChecker.RegisterKeeps | python/depthcharge/checker/config_checker.py:146-150 | registering keeps every earlier handler at its position |
| ConfigChecker.SplVariantShape | python/depthcharge/checker/config_checker.py:74-75 | the SPL variant of a key starts with `CONFIG_SPL_`, differs from the key, and has no SPL variant of its own |
| ConfigChecker.WithBuiltin | python/depthcharge/checker/config_checker.py:66-76 | one builtin definition registers exactly when its risk dictionary converts and its match is supported |
| ConfigChecker.BuiltinsRegistered | python/depthcharge/checker/config_checker.py:65-76 | after a successful construction, every builtin definition's handler is under its key, and under the key's SPL variant where there is one, with the configuration as user data |
| ConfigChecker.BuiltinKeeps | python/depthcharge/checker/config_checker.py:66-76 | a builtin definition never removes a handler already registered |
| ConfigChecker.BuiltinsStop | python/depthcharge/checker/config_checker.py:66-68 | once a builtin definition fails, the constructor raises |
| ConfigChecker.Entered | python/depthcharge/checker/config_checker.py:78-89 | a new key is appended with its value and source; a known key keeps its first definition and its place unless `force`, which replaces the value only; other keys are untouched |
| ConfigChecker.FirstDefinitionWins | python/depthcharge/checker/config_checker.py:82-89 | once defined, a key's later definitions without `force` change nothing |
| ConfigChecker.Judge | python/depthcharge/checker/config_checker.py:189-199 | a boolean match compares with the value's truth, a string match with the value; a callable gives its own result or raises its own exception (KeyError included); a regular expression on a boolean value and an unsupported match raise TypeError, and nothing else raises |
| ConfigChecker.Outcome | python/depthcharge/checker/config_checker.py:185-199 | a handler whose risk does not apply to the version is skipped; one whose version check raises passes the error on; otherwise its match decides |
| ConfigChecker.KeyFindingsSound | python/depthcharge/checker/config_checker.py:180-205 | every finding for a key comes from a handler that applies and fired, with the risk's source replaced by the value's source |
| ConfigChecker.KeyFindingsPrefix | python/depthcharge/checker/config_checker.py:181-205 | one more handler keeps the findings so far and adds at most its own, only when it fired |
| ConfigChecker.KeyFindingsComplete | python/depthcharge/checker/config_checker.py:181-205 | without an exception, every handler that applies and fires gives its finding |
| ConfigChecker.KeyFindingsLast | python/depthcharge/checker/config_checker.py:181-205 | without an exception, the last handler adds its finding exactly when it fired |
| ConfigChecker.KeyFindingsError | python/depthcharge/checker/config_checker.py:185-199 | an exception for a key comes from a handler whose version check or match raised it |
| ConfigChecker.KeyFindingsStop | python/depthcharge/checker/config_checker.py:181-207 | after a handler raises, the key's later handlers do not run |
| ConfigChecker.AddAllKeeps | python/depthcharge/checker/config_checker.py:205 | adding findings never removes or replaces a risk already reported |
| ConfigChecker.AddAllHas | python/depthcharge/checker/config_checker.py:205 | every finding's identifier ends up in the report |
| ConfigChecker.AddAllFrom | python/depthcharge/checker/config_checker.py:205 | a newly reported risk is one of the findings |
| ConfigChecker.AuditSound | python/depthcharge/checker/config_checker.py:169-210 | every risk the audit reports is justified: some loaded key has a handler for it that applies to the version and fired on the key's value, and the risk carries the key's source |
| ConfigChecker.AuditComplete | python/depthcharge/checker/config_checker.py:169-210 | without an exception, every handler that applies and fires on a loaded key's value has its risk reported |
| ConfigChecker.AuditLast | python/depthcharge/checker/config_checker.py:176-207 | a key without handlers adds nothing (its KeyError is caught); otherwise it adds its handlers' findings |
| ConfigChecker.AuditStep | python/depthcharge/checker/config_checker.py:176-207 | one more key: nothing without handlers, otherwise its findings, with a KeyError from a handler caught and any other exception escaping |
| ConfigChecker.AuditStops | python/depthcharge/checker/config_checker.py:176-207 | once an exception escapes, the later keys change nothing |
| ConfigChecker.ConfigChecker.constructor | python/depthcharge/checker/config_checker.py:60-63 | a checker starts with no handlers, an empty configuration and the parsed version |
| ConfigChecker.ConfigChecker.RegisterHandler | python/depthcharge/checker/config_checker.py:96-150 | the handlers become `Register`'s result, or stay as they were with TypeError |
| ConfigChecker.ConfigChecker.RegisterBuiltins | python/depthcharge/checker/config_checker.py:65-76 | the builtin loop succeeds exactly when `WithBuiltins` does, leaving its handlers |
| ConfigChecker.ConfigChecker.AddConfigEntry | python/depthcharge/checker/config_checker.py:78-94 | the configuration and its key order become `Entered`'s result |
| ConfigChecker.ConfigChecker.Audit | python/depthcharge/checker/config_checker.py:169-210 | a new report holding exactly the risks `Audited` gives for the keys in insertion order, or the exception that escaped |
| ConfigChecker.CheckKey | python/depthcharge/checker/config_checker.py:180-205 | the handler loop for one key adds exactly that key's findings to the report and returns its exception |
| ConfigChecker.CheckHandler | python/depthcharge/checker/config_checker.py:183-205 | one handler adds its finding exactly when it applies and fires, and otherwise leaves the report as it was |
| ConfigChecker.NewChecker | python/depthcharge/checker/config_checker.py:60-76 | a version string that does not parse raises its error; with builtins disabled no handler is registered; with them enabled the checker exists exactly when every builtin definition registers |
| UBootConfig.KeyRun | python/depthcharge/checker/uboot_config.py:16-17 | the greedy run of `[A-Za-z0-9_]` a line continues with: all key characters, stopped by a non-key character or the end |
| UBootConfig.KeyRunOf | python/depthcharge/checker/uboot_config.py:16-17 | a key followed by a non-key character is exactly where the run stops |
| UBootConfig.MatchValue | python/depthcharge/checker/uboot_config.py:16 | a value line splits into a valid `CONFIG_` key, `=` and the rest of the line |
| UBootConfig.MatchValueComplete | python/depthcharge/checker/uboot_config.py:16 | every line made of a valid key, `=` and any text matches, giving back that key and text |
| UBootConfig.MatchUnset | python/depthcharge/checker/uboot_config.py:17 | an unset line is `#`, at most one whitespace character, a valid key and ` is not set` |
| UBootConfig.UnsetShape | python/depthcharge/checker/uboot_config.py:17 | a `#` line is the `#`, the optional skipped character, the key part and the tail |
| UBootConfig.MatchUnsetComplete | python/depthcharge/checker/uboot_config.py:17 | every such line matches, giving back its key |
| UBootConfig.ParseLine | python/depthcharge/checker/uboot_config.py:43-58 | a line sets a valid key, and never to the string `y` (that becomes True); unset lines give False |
| UBootConfig.ParseRender | python/depthcharge/checker/uboot_config.py:43-58 | every setting a load can produce reads back unchanged from its own `.config` line |
| UBootConfig.Parsed | python/depthcharge/checker/uboot_config.py:39-58 | one classification per line, in order |
| UBootConfig.LoadKeeps | python/depthcharge/checker/uboot_config.py:28-30 | loading never changes a setting already present, so loads aggregate and the earlier definition stays |
| UBootConfig.LoadKeys | python/depthcharge/checker/uboot_config.py:36-60 | after a load a key is present exactly when it was before or some line defines it |
| UBootConfig.LoadFirstWins | python/depthcharge/checker/uboot_config.py:36-60 | a new key takes the value of the first line defining it, with that line's `file:lineno` as source |
| UBootConfig.LoadStep | python/depthcharge/checker/uboot_config.py:40-60 | each defining line is entered, without force, with its 1-based line number in the source |
| UBootConfig.Load | python/depthcharge/checker/uboot_config.py:19-62 | the checker's configuration and key order become `Loaded` for the file's lines; handlers and version are untouched; the configuration is returned |
| UBootConfig.EnabledLine | python/depthcharge/checker/uboot_config.py:48-49 | `CONFIG_FIT_SIGNATURE=y` enables the boolean setting |
| UBootConfig.StringLine | python/depthcharge/checker/uboot_config.py:47 | any other value, quotation marks included, is kept verbatim |
| UBootConfig.BarePrefixIgnored | python/depthcharge/checker/uboot_config.py:16 | `CONFIG_` alone is not a key, so `CONFIG_=y` is ignored |
| Communicator.ReadBytes | firmware/Arduino/Depthcharge/Communicator.cpp:35-36 | `readBytes` delivers at most the bytes asked for, and all of them exactly when enough arrive before the timeout |
| Communicator.Store | firmware/Arduino/Depthcharge/Communicator.cpp:62-64 | the bytes read land at `m_data_rcvd` and the rest of the buffer is unchanged |
| Communicator.Returned | firmware/Arduino/Depthcharge/Communicator.cpp:80-84 | the request handed out carries the command, the length and the data received, and zeros after them |
| Communicator.Step | firmware/Arduino/Depthcharge/Communicator.cpp:24-98 | one call of `hasRequest` keeps the machine well-formed: the buffer stays 64 bytes and the received count stays within the length |
| Communicator.StepReturns | firmware/Arduino/Depthcharge/Communicator.cpp:79-86 | a request is returned exactly from RETURN_REQUEST; it is `Returned` and the machine goes back to IDLE; otherwise the caller's message is untouched |
| Communicator.IdleStep | firmware/Arduino/Depthcharge/Communicator.cpp:27-32 | IDLE resets the count and moves to reading the header exactly when both header bytes are available |
| Communicator.HeaderStep | firmware/Arduino/Depthcharge/Communicator.cpp:34-55 | a short header read panics; length 0 is returned at once, 1 to 64 reads data from count 0, and more than 64 panics |
| Communicator.DataStep | firmware/Arduino/Depthcharge/Communicator.cpp:57-77 | reading data never passes the length, keeps what was already received, completes once the length is reached, and panics exactly on a short read |
| Communicator.PanicAbsorbing | firmware/Arduino/Depthcharge/Communicator.cpp:88-89 | PANIC never changes, never returns a request and never reports |
| Communicator.PanicForever | firmware/Arduino/Depthcharge/Communicator.cpp:88-89 | over any sequence of calls the machine stays in PANIC |
| Communicator.WholeRequest | firmware/Arduino/Depthcharge/Communicator.cpp:24-98 | a request of 1 to 64 data bytes that arrives whole while idle is returned, with its command, length and data and a zero tail, after four calls, and the machine is idle again |
| Communicator.Wire | firmware/Arduino/Depthcharge/Communicator.h:48-57 | the reply is the command, the length clamped to 64, and that many data bytes |
| Communicator.Communicator.constructor | firmware/Arduino/Depthcharge/Communicator.cpp:12-13 | a communicator starts UNINITIALIZED |
| Communicator.Communicator.Attach | firmware/Arduino/Depthcharge/Communicator.cpp:15-22 | only an uninitialized communicator attaches: it zeroes the request and becomes IDLE; otherwise nothing changes |
| Communicator.Communicator.HasRequest | firmware/Arduino/Depthcharge/Communicator.cpp:24-98 | the new state and result are those of `Step`, and a panic line is latched in the panic state |
| Communicator.Communicator.SendResponse | firmware/Arduino/Depthcharge/Communicator.h:48-57 | the length is clamped to 64 in place and the header and that many data bytes are written |
| Panic.Encode | firmware/Arduino/Depthcharge/Panic.cpp:12 | the reason word holds the source's low byte above the 16-bit line number |
| Panic.AfterSticky | firmware/Arduino/Depthcharge/Panic.cpp:8-15 | once a reason is latched, later reports leave it unchanged |
| Panic.ReportLatches | firmware/Arduino/Depthcharge/Panic.cpp:8-20 | a report from either source always leaves a panic active, and from the clear state it records that source and line |
| Panic.Panic.constructor | firmware/Arduino/Depthcharge/Panic.cpp:6 | the reason starts at 0, so no panic is active |
| Panic.Panic.SetReason | firmware/Arduino/Depthcharge/Panic.cpp:8-15 | the reason becomes `After`: the first report latches and later ones change nothing; a panic is then active |
| I2CPeriph.Zeros | firmware/Arduino/Depthcharge/I2CPeriph.cpp:29-33 | a cleared buffer holds only zero bytes |
| I2CPeriph.Initial | firmware/Arduino/Depthcharge/I2CPeriph.cpp:168-179 | the static state starts detached, with address and speed 0, empty buffers and one subaddress byte |
| I2CPeriph.AttachStep | firmware/Arduino/Depthcharge/I2CPeriph.cpp:14-41 | `attach` keeps the state well-formed; a second attach reports its line and changes nothing |
| I2CPeriph.WriteBuffer | firmware/Arduino/Depthcharge/I2CPeriph.cpp:96-111 | `getWriteBuffer` copies the smaller of the write count and the caller's limit |
| I2CPeriph.ReadBufferStep | firmware/Arduino/Depthcharge/I2CPeriph.cpp:114-126 | `setReadBuffer` keeps the state well-formed |
| I2CPeriph.Incoming | firmware/Arduino/Depthcharge/I2CPeriph.cpp:150-159 | the stored bytes are those the bus gives after the skipped subaddress bytes, one per position |
| I2CPeriph.WriteStepAsWritten | firmware/Arduino/Depthcharge/I2CPeriph.cpp:129-160 | `_handle_write` as written keeps the state well-formed |
| I2CPeriph.WriteStep | firmware/Arduino/Depthcharge/I2CPeriph.cpp:129-160 | `_handle_write` storing only the bytes after the subaddress keeps the state well-formed (corrected — see Findings row for firmware/Arduino/Depthcharge/I2CPeriph.cpp:156-158) |
| I2CPeriph.Exhausted | firmware/Arduino/Depthcharge/I2CPeriph.cpp:157-158 | reads past the end of a transfer give 0xff, one per read |
| I2CPeriph.WriteTailAsWritten | firmware/Arduino/Depthcharge/I2CPeriph.cpp:150-158 | as written, a transfer of `count` bytes, subaddress included, stores the bytes after the subaddress followed by one 0xff per subaddress byte and reports `count` bytes |
| I2CPeriph.ExtraByteAsWritten | firmware/Arduino/Depthcharge/I2CPeriph.cpp:150-158 | as written, the transfer `00 41` with one subaddress byte leaves `41 ff`; the corrected step leaves `41` |
| I2CPeriph.AttachTwice | firmware/Arduino/Depthcharge/I2CPeriph.cpp:17-24 | a second `attach` reports the panic at line 22 and leaves everything as the first left it |
| I2CPeriph.AttachFresh | firmware/Arduino/Depthcharge/I2CPeriph.cpp:26-40 | the first `attach` clears both buffers, makes its address visible and sets the speed unless it is 0 |
| I2CPeriph.ReadBufferRoundTrip | firmware/Arduino/Depthcharge/I2CPeriph.cpp:114-166 | what the host puts in the read buffer is what the controller then reads, cut to 32 bytes |
| I2CPeriph.WriteBufferRoundTrip | firmware/Arduino/Depthcharge/I2CPeriph.cpp:96-160 | for any transfer of at least `count` bytes, subaddress included, the host reads back exactly the bytes after the subaddress, cut to 32 bytes and to its limit; a panic is reported exactly for more than 32 bytes (corrected — see Findings row for firmware/Arduino/Depthcharge/I2CPeriph.cpp:156-158) |
| I2CPeriph.NegativeCount | firmware/Arduino/Depthcharge/I2CPeriph.cpp:131-133 | a negative count reports its line and changes nothing |
| I2CPeriph.I2CPeriph.constructor | firmware/Arduino/Depthcharge/I2CPeriph.cpp:168-179 | the peripheral starts in the initial state with two fresh 32-byte buffers |
| I2CPeriph.I2CPeriph.Attach | firmware/Arduino/Depthcharge/I2CPeriph.cpp:14-41 | the state becomes `AttachStep`'s, and its panic line, if any, is latched |
| I2CPeriph.I2CPeriph.Fill | firmware/Arduino/Depthcharge/I2CPeriph.cpp:29-33 | `memset` leaves the buffer all zeros |
| I2CPeriph.I2CPeriph.SetSpeed | firmware/Arduino/Depthcharge/I2CPeriph.cpp:66-72 | a nonzero speed is stored; 0 leaves it |
| I2CPeriph.I2CPeriph.SetAddress | firmware/Arduino/Depthcharge/I2CPeriph.cpp:48-55 | re-registering the callbacks changes no modelled state |
| I2CPeriph.I2CPeriph.SetSubAddressLength | firmware/Arduino/Depthcharge/I2CPeriph.cpp:78-83 | only the subaddress length changes |
| I2CPeriph.I2CPeriph.GetWriteBuffer | firmware/Arduino/Depthcharge/I2CPeriph.cpp:96-111 | returns `WriteBuffer` and its length, the smaller of the count and the limit |
| I2CPeriph.I2CPeriph.SetReadBuffer | firmware/Arduino/Depthcharge/I2CPeriph.cpp:114-126 | the state becomes `ReadBufferStep`'s |
| I2CPeriph.I2CPeriph.HandleWrite | firmware/Arduino/Depthcharge/I2CPeriph.cpp:129-160 | the state becomes `WriteStep`'s, and its panic line, if any, is latched (corrected — see Findings row for firmware/Arduino/Depthcharge/I2CPeriph.cpp:156-158) |
| I2CPeriph.I2CPeriph.HandleRead | firmware/Arduino/Depthcharge/I2CPeriph.cpp:162-166 | the controller is sent `ReadReply`, the read buffer's first `m_rcount` bytes |
| Companion.Status | firmware/Arduino/Depthcharge/Companion.cpp:79-186 | a status reply keeps the command and carries one byte |
| Companion.Fill | firmware/Arduino/Depthcharge/Companion.cpp:59-73 | a data reply keeps the command, carries exactly the given bytes and leaves the rest of the buffer alone |
| Companion.Dispatch | firmware/Arduino/Depthcharge/Companion.cpp:56-190 | `handleHostMessage` keeps the command and leaves the message and the peripheral well-formed |
| Companion.ReplyFits | firmware/Arduino/Depthcharge/Companion.cpp:56-189 | every reply fits 32 bytes, so `sendResponse` never clamps it and writes the reply as built |
| Companion.GetVersion | firmware/Arduino/Depthcharge/Companion.cpp:59-65 | GET_VERSION replies with the four version bytes and changes nothing |
| Companion.Unattached | firmware/Arduino/Depthcharge/Companion.cpp:79-182 | an I2C command without an attached peripheral changes nothing and replies one byte: INVALID_PARAM exactly when SET_ADDR, SET_SPEED or SET_READ_BUFFER fails its parameter check, NOT_SUPPORTED otherwise |
| Companion.SetAddrInvalid | firmware/Arduino/Depthcharge/Companion.cpp:88-98 | SET_ADDR with a length other than 1 or an address above 0x7f is INVALID_PARAM, whatever the peripheral |
| Companion.UnknownCommand | firmware/Arduino/Depthcharge/Companion.cpp:153-187 | an unknown command replies INVALID_CMD and the mode-flag commands UNIMPLEMENTED, changing nothing |
| Companion.SpeedRoundTrip | firmware/Arduino/Depthcharge/Companion.cpp:100-129 | SET_SPEED stores the little-endian 32-bit speed and succeeds; GET_SPEED then gives back the same four bytes |
| Companion.ReadBufferFromHost | firmware/Arduino/Depthcharge/Companion.cpp:163-173 | SET_READ_BUFFER succeeds and the bus controller then reads its data, up to 32 bytes |
| Companion.WriteBufferToHost | firmware/Arduino/Depthcharge/Companion.cpp:175-182 | GET_WRITE_BUFFER replies with exactly what the bus controller last wrote |
| Companion.WithI2C | firmware/Arduino/Depthcharge/Companion.cpp:33 | `m_caps \|= CAP_I2C_PERIPH` sets the low bit and keeps the other bits |
| Companion.Companion.constructor | firmware/Arduino/Depthcharge/Companion.cpp:17 | a companion starts with no capabilities, an unattached host interface, an initial peripheral and no panic |
| Companion.Companion.AttachHostInterface | firmware/Arduino/Depthcharge/Companion.cpp:19-22 | attaching the host interface makes an unattached communicator idle and otherwise changes nothing |
| Companion.Companion.AttachI2C | firmware/Arduino/Depthcharge/Companion.cpp:30-34 | the peripheral takes `AttachStep`'s state and the I2C capability is set |
| Companion.Companion.HandleHostMessage | firmware/Arduino/Depthcharge/Companion.cpp:56-190 | the reply and the peripheral are `Dispatch`'s, and the reply goes out as `Wire` |
| Companion.Companion.HandleI2CQuery | firmware/Arduino/Depthcharge/Companion.cpp:79-182 | the reading I2C commands reply as `Dispatch` does and change nothing |
| Companion.Companion.HandleI2CUpdate | firmware/Arduino/Depthcharge/Companion.cpp:88-173 | the changing I2C commands reply and update the peripheral as `Dispatch` does |
| Companion.Companion.ProcessEvents | firmware/Arduino/Depthcharge/Companion.cpp:36-54 | a latched panic halts the device with nothing sent; otherwise the communicator takes one step, and a returned request is answered on the wire with `Dispatch`'s reply |
| Str2Uint.Strlen | payloads/include/str2uint.h:58 | `strlen` counts the characters before the first NUL |
| Str2Uint.Digit | payloads/include/str2uint.h:14-44 | a character is a digit exactly in the ranges the loop accepts, 0-9 for decimal and 0-9, a-f, A-F for hexadecimal, and its value is below the base |
| Str2Uint.Shift | payloads/include/str2uint.h:12-37 | `value <<= 4` and `value *= 10` stay within 32 bits |
| Str2Uint.Fold | payloads/include/str2uint.h:11-48 | the loop's value stays within 32 bits and exists exactly while every character so far is a digit |
| Str2Uint.ParseDigits | payloads/include/str2uint.h:7-51 | the loop returns `Parse`, below 2^32 |
| Str2Uint.StrToUint | payloads/include/str2uint.h:56-64 | a `0x` prefix on a string longer than two selects hexadecimal on the rest; anything else is decimal; the result fits 32 bits |
| Str2Uint.FoldWraps | payloads/include/str2uint.h:53-55 | wrapping at every step gives the true value of the digits modulo 2^32: overflow is silent |
| Str2Uint.StepMod | payloads/include/str2uint.h:12-46 | one wrapped step of a reduced value is the unbounded step reduced |
| Str2Uint.BadCharIsZero | payloads/include/str2uint.h:21-43 | any non-digit before the terminator makes the conversion return 0 |
| Str2Uint.BarePrefixIsZero | payloads/include/str2uint.h:59 | `0x` alone is read as decimal and gives 0 |
| Str2Uint.DecRoundTrip | payloads/include/str2uint.h:32-51 | printing n in decimal and converting it back gives n modulo 2^32 |
| Str2Uint.HexRoundTrip | payloads/include/str2uint.h:7-62 | printing n in hexadecimal after `0x` and converting the rest back gives n modulo 2^32, and the prefix is taken |
| Str2Uint.Parse | payloads/include/str2uint.h:7-51 | the conversion fits 32 bits and is 0 when any character before the terminator is not a digit |
| PyInt.Strip | python/depthcharge/string.py:108 | `strip()` leaves no whitespace, as `str.isspace` defines it, at either end |
| PyInt.Unsigned | python/depthcharge/string.py:35 | the digits of a base parse exactly when they are grouped by single underscores between digits, and give their positional value; anything else is ValueError |
| PyInt.MarkKeepsValue | python/depthcharge/string.py:35 | an underscore between digits does not change the value (`int("1_000")` is `int("1000")`) |
| PyInt.DigitsValue | python/depthcharge/string.py:168 | the digits a number is printed with denote that number |
| PyInt.DigitsLead | python/depthcharge/string.py:168 | printed digits start with 0 exactly when the number is 0 |
| PyInt.Hex | python/depthcharge/string.py:168-170 | `'{:0Nx}'` gives at least N hex digits, and no padding when the number already has that many |
| PyInt.DecimalRoundTrip | python/depthcharge/string.py:117 | `int(s, 0)` reads back every integer `'{:d}'` prints, negative ones included |
| PyInt.HexRoundTrip | python/depthcharge/string.py:35 | `int("0x" + h, 0)` reads back the number whose hex digits `h` are |
| PyInt.Hex16RoundTrip | python/depthcharge/string.py:228 | `int(h, 16)` reads back the number whose hex digits `h` are |
| PyInt.Base16Digits | python/depthcharge/string.py:228 | `int(h, 16)` of a bare run of hex digits is their value |
| PyInt.BlankIsError | python/depthcharge/string.py:35 | an empty or all-whitespace string raises ValueError in both bases |
| PyInt.LeadingZeroIsError | python/depthcharge/string.py:35 | `int(s, 0)` of a decimal with a leading zero and a nonzero digit after it raises ValueError |
| PyStr.Upper | python/depthcharge/string.py:79 | `upper()` keeps the length and upper-cases each ASCII letter in place |
| PyStr.UpperConcat | python/depthcharge/string.py:79 | upper-casing a concatenation is concatenating the upper-cased parts |
| PyStr.Without | python/depthcharge/string.py:79 | `replace(' ', '')` leaves no such character and never lengthens the string |
| PyStr.WithoutConcat | python/depthcharge/string.py:79 | removing a character from a concatenation removes it from each part |
| PyStr.IndexOf | python/depthcharge/string.py:145-147 | the position of the first occurrence of a character, or -1 when there is none |
| PyStr.SplitJoin | python/depthcharge/string.py:104 | joining the pieces of `split(c)` with `c` gives back the string |
| PyStr.JoinSplit | python/depthcharge/string.py:104 | splitting a join of pieces free of `c` gives back the pieces |
| PyStr.SplitCount | python/depthcharge/string.py:104 | `split(c)` gives one piece more than `c` occurs |
| PyStr.SplitPieces | python/depthcharge/string.py:104 | no piece of `split(c)` holds `c` |
| PyStr.SplitLines | python/depthcharge/string.py:217 | no line of `splitlines()` holds a line boundary |
| PyStr.SplitLinesJoin | python/depthcharge/string.py:217 | lines joined by `\n` or `\r\n` split back into the same lines when none holds a boundary and the last is not empty |
| PyBytes.Slice | python/depthcharge/hunter/cmdtbl.py:152 | a slice has Python's length and elements: negative bounds count from the end and bounds are clamped to the sequence |
| PyBytes.SliceInRange | python/depthcharge/hunter/cmdtbl.py:152 | a slice with bounds inside the sequence is the plain subsequence |
| PyBytes.IntToBytes | python/depthcharge/arch/arch.py:236 | `to_bytes(n, e)` raises OverflowError exactly for a negative value or one that does not fit in n bytes; otherwise its n bytes read back as the value |
| PyBytes.RoundTrip | python/depthcharge/arch/arch.py:219 | `to_bytes` of `from_bytes(s)` gives back `s`, and `from_bytes` fits in `len(s)` bytes |
| PyBytes.FromToBytes | python/depthcharge/arch/arch.py:236 | `from_bytes` of `to_bytes(x, n)` gives back x when it fits |
| PyInt.PrefixedDigits | python/depthcharge/arch/arch.py:288 | `int("0x" + h, 16)` reads `h` as unsigned digits when it neither starts with an underscore nor ends with whitespace |
| PyInt.SignAfterPrefix | python/depthcharge/arch/arch.py:288 | `int(_, 16)` refuses a sign written after the `0x` prefix |

## Left out

- ReverseCrcHunter.NewRevHunter: the `endianness` keyword is a parameter, `'little'`, `'big'` or another value; its default, the host's `sys.byteorder`, is not looked up, so a caller passes it explicitly.
- ReverseCrcHunter.Find: does not repeat `_validate_offsets` at its start: the hunter's constructor (`Hunter.Make`) has already checked the same offsets, and they never change.
- Crc32Sim.ExecuteStratagem: requires every entry to fit in the simulated buffer; a write past the end, which grows the Python `bytearray`, is not modelled.
- Crc32Sim.ReplayWith: requires every entry to fit in the buffer, for the same reason.
- ReverseCrc.ReverseCrc32: only the CRC-32 parameters depthcharge uses (reflected polynomial 0xEDB88320, initial value and final XOR 0xFFFFFFFF) are modelled, on a 32-bit word.
- CpHunter.BuildStratagem: requires the hunter's gaps to be sorted, disjoint and inside the data. The source accepts any address range and, by its own note, does not handle overlapping gaps.
- Console output, serial I/O, logging, progress bars and `KeyboardInterrupt` handling are left out: they do not affect results.
- The `multiprocessing.Pool` in the reverse-CRC hunter's `build_stratagem` is modelled as the sequential search it parallelises; results are kept in first-appearance order.
- `zlib.crc32` is replaced by the CRC-32 definition in `Crc`.
- The Report CSV, HTML and Markdown writers, the file handling in `_column_write_wrapper`, and `impact_str`/`__str__` of risks are left out. The rendered impact text is a parameter.
- `describe(html=True)` is left out: it only changes formatting.
- Log warnings, including the one in `_add_config_entry` and the jump table's mask warnings, are left out: they change no state.
- Compiled regular expressions are modelled as predicates over the data. User-supplied regex targets of the string hunter are modelled as literal byte strings.
- The checker's `user_data` is modelled as one of three shapes: none, a live configuration, or an opaque value.
- The built-in payload definitions (`_load_builtins` and the `builtin_payloads` module) are a parameter of the payload map's constructor.
- File reads and writes are left out, with the file's text given as a parameter. This covers `load`, `save` and `save_raw` of environments, `load` of U-Boot configurations, `from_json_file`/`to_json_file`, `xxd_reverse_file`, and `read_to_file`/`write_from_file`.
- JSON text formatting and timestamps are left out. Documents are a `Json` value.
- The depthcharge version string is a parameter; depthcharge/version.py is not part of this model.
- Running `dtc` (`_create_dts`) is left out: it is an external process.
- `StratagemMemoryWriter._write` is left out: it only raises `OperationNotSupported`.
- `Operation.register`'s `TypeError` for non-Operation arguments is left out, as is lookup by class or instance (`_find_by_type`). Operations are known by name.
- Arch: `gd_register`, `data_abort_address`, `data_abort_data_reg`, `registers`, `supported` and `_parse_instructions` are left out. They are per-architecture constants or text parsing with no behaviour to state.
- The architecture subclasses and board helpers (board.py, arm.py, aarch64.py, generic.py) and uboot.py are not part of this model.
- The payload C sources other than str2uint.h (including strcmp.h, strlen.h and str2ulong.h) are not part of this model.
- Companion firmware: the LED, the blinking `panicLoop` and `millis` are left out, and a halt is a flag. `TwoWire` bus calls (`begin`, `onReceive`, `setClock`) and interrupts are left out too. The serial port is a `Port` value given to each call, and the Version.h bytes are a parameter.
- Crc32Memory.Crc32Reader.RevCrc32: the four-byte preimage is laid out little-endian; memory/crc32.py:91 uses the host's `sys.byteorder`, so only a little-endian host is modelled. The same holds for `Crc32Sim.ExecuteStratagem`, whose buffer writes use `sys.byteorder` at reverse_crc32_algo_poc.py:188-194.
- Crc32Sim.ReplayRebuildsPayload: proved for a hunter built with `endianness='little'`, the byte order in which the simulator writes words; a `'big'` hunter replayed on a little-endian host writes each word byte-reversed, and that mismatch is not modelled.
- Crc32Memory.Crc32Reader.Setup: promises its table only when it succeeds. That zlib's CRC-32 never collides among the 65,792 one- and two-byte inputs, so that `_setup` always succeeds, is not proved: it would need an exhaustive computation over those inputs.
- PyInt.IntBase0: digits of other scripts (such as Arabic-Indic or fullwidth digits), which Python's `int()` also accepts, are read as errors. Underscore grouping and Unicode whitespace are modelled.
- PyInt.IntBase16: digits of other scripts are read as errors, as for `IntBase0`.
- PyStr.Upper: only ASCII letters are mapped. Python's full Unicode mapping (`'ı'` to `'I'`, `'ß'` to `"SS"`) is not modelled.
- StringUtil.ToPositiveInt: inherits the `IntBase0` gap; a number written with digits of other scripts is refused.
- StringUtil.LengthToInt: inherits the `IntBase0` and `Upper` gaps. For example, "1kıb" is a ValueError in the model, but Python maps `'ı'` to `'I'` and returns 1024.
- StringUtil.ValueOf: inherits the `IntBase0` gap; a value written with digits of other scripts stays text.
- ConfigChecker.Judge: a callable match's result is taken as a boolean. Python uses the truth value of whatever the callable returns.
- Strat.ItemEntry: an empty string element (also an empty key of an object given as `entries`) is appended to the list as the string itself, since `_process_entry` has no key to check. The model raises TypeError for it, because its entries are dictionaries and cannot hold a string.
- Strat.Stratagem.Append: a list argument is taken as a list of entries. Nested lists and strings inside `entries` are modelled only for `from_json`, by `AppendItems`.
- UBootEnv.Parse: takes the text already split into lines. `ParseText` splits it as `splitlines()` does. A continued value is joined with `\n`, which is `os.linesep` on POSIX hosts; the Windows `\r\n` is not modelled.
- Report.Construct: reads the fields a risk needs. Extra keys in the dictionary are not represented.
- I2CPeriph.I2CPeriph.SetSpeed: requires an attached bus for a non-zero speed. The firmware dereferences a NULL bus pointer in that case (I2CPeriph.cpp:66-72), which is undefined behaviour and has no model.
- StringXxd.XxdRoundTrip: proved only for a non-negative address and a `\n` or `\r\n` separator. A negative address is written with a minus sign, which the pattern does not accept. `os.linesep` is one of these two on the platforms Python runs on.

## Findings

| source | as written | input that shows it | evidently intended | confidence | as-written member | corrected member |
|---|---|---|---|---|---|---|
| python/depthcharge/hunter/hunter.py:320 | the pass-through test uses `gap.stop - 11`; every hunter's search calls it, and so does the ReverseCRC32Hunter when it builds its reverse lookup table (revcrc32.py:244), so a window that starts at or before a gap's start and ends at or after `gap.stop - 11` is left out of the table even when it ends before the gap | window [90, 95) against gap [100, 105) is reported as overlapping though they share no offset | overlap means a shared offset | not executed | Hunter.IsInGapAsWrittenFalsePositive | Hunter.IsInGapMeaning |
| python/depthcharge/hunter/cp.py:45 | `_lcss` returns `curr_len` instead of `longest_substr` | data [1, 2, 1], target [1, 2] gives (1, 1, 1) | (0, 0, 2) | not executed | CpHunter.LcssAsWrittenShort | CpHunter.LcssLongest |
| python/depthcharge/hunter/cp.py:113 | `continue` keeps scanning the other ranges after a one-byte match | data [7, 0, 7], ranges [0, 1) and [2, 3), payload [7] gives two entries writing offset 0 | stop after the first match | not executed | CpHunter.OneByteAsWrittenTwice | CpHunter.Build |
| python/depthcharge/hunter/fdt.py:162 | `start += offset + 4` adds an absolute offset | rejected header at 4, valid image at 8, start 4: the image is not found | `start = offset + 4` | not executed | FdtHunter.AsWrittenMissesImage | FdtHunter.SearchAt |
| python/depthcharge/hunter/env.py:82 | returns a bare `size` where callers unpack a triple | an environment whose matched variables fill it: the caller's unpacking raises TypeError | return the (offset, size, crc) triple | not executed | EnvHunter.SearchAtAsWritten | EnvHunter.ActualOffsetSizeCrc |
| python/depthcharge/operation.py:512-534 | `('stratagem')` is a string, not a tuple, and the inner `continue` skips nothing | a higher-ranked operation that requires a Stratagem is still returned | that operation is excluded | not executed | Operation.DefaultAsWrittenKeepsStratagem | Operation.DefaultExcludesStratagem |
| python/depthcharge/hunter/string.py:34 | `pat[-1] != b'\x00'` compares an int with bytes, so it is always true | target b"A\x00" on data b"A\x00" does not match | a two-byte match | not executed | StringHunter.StrRegexDoubleNul | StringHunter.StrRegex |
| python/depthcharge/memory/writer.py:153-155 | the leading byte loop can run past the end of the block | a 1-byte block at 0x1001 with word size 4 produces empty `_write_word` calls | the loop stops at the end of the block | not executed | MemoryWriter.WriteWordsAsWritten | MemoryWriter.WriteWords |
| python/depthcharge/hunter/cmdtbl.py:227-253 | reads past the end of the image yield zero values instead of IndexError, so the loop never ends | image "ab\0" followed by zeros, `_attempt_search_at(None, 4, 8, 5, True, True, True)` never returns | stop at the end of the data | not executed | CmdTableHunter.AttemptAsWrittenNeverReturns | CmdTableHunter.AttemptStops |
| python/depthcharge/string.py:21 | the key 'GiB' is compared after `upper()` | "1GiB" raises ValueError | 2^30 | not executed | StringUtil.LengthGiBAsWritten | StringUtil.LengthGiB |
| python/depthcharge/uboot/jump_table.py:266 | `exports(**kwargs)` also passes `gd_read_size` and `jt_addr_mask` | `find` with `gd_read_size=384` raises TypeError | pass only `sys_malloc_simple` | not executed | JumpTable.GdReadSizeRejectedAsWritten | JumpTable.Find |
| python/depthcharge/checker/security_risk.py:298-321 | `to_dict` omits `summary`, which `from_dict` requires, and never emits `affected_versions`, which `from_dict` reads | any risk | `to_dict` includes the summary, as its docstring lists; so that the round trip also keeps a version range, the corrected member also emits `affected_versions`, since `from_dict` refers to `to_dict` for its keys and reads that one (the docstring's six keys alone lose the range: SecurityRisk.RoundTripDocumented) | not executed | SecurityRisk.RoundTripAsWrittenFails | SecurityRisk.RoundTrip |
| firmware/Arduino/Depthcharge/I2CPeriph.cpp:156-158 | after dropping the subaddress bytes, `count` more bytes are stored, though `onReceive` counts the subaddress bytes too | one subaddress byte, transfer `00 41` (count 2): the write buffer is `41 ff` and its count 2 | store `count - m_subaddr_len` bytes; the host works around the extra byte | not executed | I2CPeriph.ExtraByteAsWritten | I2CPeriph.WriteBufferRoundTrip |
