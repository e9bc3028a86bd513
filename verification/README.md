# Benchmarks and simulator models

Dafny models of the parts of this repository whose behaviour is hardest to see from the code, with proofs:

- the CoreMark list engine (`ListTypes`, `ListSort`, `ListBench`): heap cells relinked in place, an iterative merge sort
  with comparators that write to what they compare, and the benchmark that is meant to leave the list as it found it;
- the sense-reversing barrier (`Barrier`) as a state machine over its atomic accesses, for any number of threads;
- address translation in the simulator (`PageWalk`, `PageRights`, `Tlb`, `Mmu`) for Sv32, Sv39 and Sv48 (RISC-V
  Privileged Architecture 1.9, sections 4.5 to 4.7), what the TLB does not promise (`TlbLimits`), and the second page
  walker of the debug server (`GdbTranslate`);
- the cache simulator in both variants, chained through miss handlers (`CacheSim`);
- the CoreMark number scanner, state benchmark and block initialisation (`StateMachine`, `StateBench`, `StateInit`) and
  the CRC (`Crc`);
- the ring buffer, packets and hexadecimal numbers of the debug server (`RingBuffer`, `Framing`, `Hex`);
- 128-bit high products (`Mulhi`; RISC-V User-Level ISA 2.1, section 6.1), integer printing (`Printf`) and its readers
  (`Readers`).

`Finite`, `Numbers`, `Sequences` and `Wrappers` hold facts about finite sets, arithmetic and sequence updates, and the
type of optional values. Code that changes state step by step is a method proved against a specification function; the
promises are lemmas about that function.
`dafny verify dfyconfig.toml` checks the whole project.

## What the proofs say about the code

- The comment of `core_bench_list` promises that every list is restored. Its links are, whatever the key, the number of
  turns and the values evaluated, exactly when the indices are strictly increasing
  (`ListBench.AlwaysRestoredExactlyWhen`): one turn that looks for the index 0 exchanges all items of equal index
  (`ListBench.OneTurnLosesTies`). In one run they are restored exactly when the items were in order of index and equal
  ones have not been exchanged before the last sort. A data word is restored exactly when its two bytes are equal
  (`ListBench.CoreBenchListRestores`). Whether `core_list_init` ever gives equal indices is not proved: it is not part of
  the model.
- `core_list_mergesort` needs a non-empty list: line 484 writes through `tail` before the test that its comment says
  allows for the empty list.
- Fetches and loads share one TLB data entry. They agree for every memory exactly when both or neither go through the
  page tables, or the root table cannot be in memory (`TlbLimits.OneAddressExactlyWhen`); MPRV may part them, and
  `TlbLimits.MprvMayPart` gives the processor and the memory. A write of `sptbr` does not flush the TLB
  (`riscv/processor.cc`, lines 386-390). Both make the ghost field `Mmu.Mmu.stale` true, and what the fast paths promise
  about addresses holds while it is false.
- A store that clears A or D in a page-table entry changes no translation, but the next access that hits does not set the
  bit again, where `translate` would (`TlbLimits.DirtyMayBeCleared`; `TlbLimits.StoreWithoutDirty` makes the two stores).
  The ghost field `Mmu.Mmu.cleared` becomes true when a store, or a change of the processor state, leaves a valid tag with
  a bit to set, and false with the next flush; while it is false memory is what `translate` leaves, after every access. A
  hit was always preceded by a walk of its own kind (`Mmu.Mmu.HitIsEarned`).
- `append` starts again at the beginning of its source for the part that wraps around, and its assertion refuses the last
  free cell; `RingBuffer.CircularBuffer.Append` states the exact effect and `RingBuffer.GarbledAppend` reaches it. A packet
  is in the send buffer as it is exactly when it fits in one piece, or only its data wraps around and repeats itself
  (`Framing.PacketIsSentExactlyWhen`).
- `process_requests` does not ask for a `$` at the beginning of a packet: any bytes without `$` and `#`, at least one and
  the first neither an interrupt nor an awaited `+`, are taken for a packet together with a `#` and two bytes behind them,
  exactly when neither of these two is a `$` (`Framing.AnyTextIsAPacketExactlyWhen`). Two characters that are no digits
  count as the checksum 0xef.
- The third pattern of `scipat`, `-87e+832`, is INVALID for the scanner: it has no dot.
- In `core_state_transition` the SCIENTIFIC counter is never raised, and failures in an exponent are counted as INVALID.
- `parseval` reads nothing from a text that begins with `+`, which `number` writes under the flag PLUS.

## Model

| member | source | states |
|---|---|---|
| ListTypes.CalcFunc | benchmarks/coremark32/core_list_join.c:63-95 | the result is the cached low 7 bits; a cached word is not touched and nothing else either; otherwise the word becomes cached and keeps its high byte, and the CRC takes in the full value: the word itself for the operations 2 to 7, and else what the benchmark returns that is called, with bits 3 to 6 taken twice as its argument and at least 0x22 for the state benchmark; its value is saved as the CRC of that benchmark exactly when none is saved yet |
| ListTypes.CompareComplex | benchmarks/coremark32/core_list_join.c:101-105 | both items are evaluated and cached, the first one first as the CRC shows, and the result is the difference of what the cache then holds |
| ListTypes.CompareIdx | benchmarks/coremark32/core_list_join.c:112-118 | the difference of the indices; without a results structure both words are rebuilt from their high bytes, with one they are not touched |
| ListTypes.Compare | benchmarks/coremark32/core_list_join.c:60-118 | a call through the comparator pointer: the sign test is the order on what the items hold afterwards, an item compared before does not change any more, and both count as compared |
| ListTypes.RegenFromHigh | benchmarks/coremark32/core_list_join.c:112-116 | rebuilding forgets whatever happened to the low byte: equal high bytes give equal words |
| ListTypes.CacheFacts | benchmarks/coremark32/core_list_join.c:90-93 | writing the cache sets bit 7, keeps the high byte and stores the low 7 bits of the result |
| ListSort.ByNumberIsPreorder | benchmarks/coremark32/core_list_join.c:60-61 | comparing by the difference of numbers is a lawful comparison |
| ListSort.CompareData | benchmarks/coremark32/core_list_join.c:463 | comparing two items takes the view of all data to one that extends it, in which both have been seen |
| ListSort.TakeP | benchmarks/coremark32/core_list_join.c:463-465 | taking the smaller element of the first run keeps the merged part in order and before everything still to come, equal elements included |
| ListSort.TakeQ | benchmarks/coremark32/core_list_join.c:466-468 | the same for an element of the second run, which must be strictly smaller |
| ListSort.MergeDone | benchmarks/coremark32/core_list_join.c:454-478 | when both runs are used up the merged part is a merge of exactly their cells, sorted and stable |
| ListSort.AppendCell | benchmarks/coremark32/core_list_join.c:471-477 | linking the next cell behind the merged list extends it by exactly that cell and leaves the rest of the input linked as it was |
| ListSort.FromP | benchmarks/coremark32/core_list_join.c:456-469 | the branch that is taken says which run gives the next element, and that it belongs there |
| ListSort.TakeNext | benchmarks/coremark32/core_list_join.c:456-469 | one element leaves the run it comes from, sizes and pointers follow, and it is the right one |
| ListSort.MergeStep | benchmarks/coremark32/core_list_join.c:454-478 | one turn of the merging loop keeps the merged list, both remaining runs and the order facts, in the presence of comparators that write |
| ListSort.MergeRuns | benchmarks/coremark32/core_list_join.c:450-482 | two adjacent runs are relinked into one that holds exactly their cells, sorted and stable, behind the list built so far |
| ListSort.StepAlong | benchmarks/coremark32/core_list_join.c:441-448 | `psize` is the smaller of `insize` and what is left, and `q` the cell behind it |
| ListSort.RunsAppend | benchmarks/coremark32/core_list_join.c:439-482 | runs of full length, and one more, are again runs of that length |
| ListSort.RunsWithin | benchmarks/coremark32/core_list_join.c:439-448 | runs cover exactly the places they start at, so that stability across runs is a matter of places |
| ListSort.RunsExtend | benchmarks/coremark32/core_list_join.c:101-118 | further comparisons, with all their side effects, leave finished runs sorted |
| ListSort.Pass | benchmarks/coremark32/core_list_join.c:433-484 | one pass turns sorted runs of `insize` into sorted runs of `2 * insize`, counts the merges, and ends the list |
| ListSort.OneMerge | benchmarks/coremark32/core_list_join.c:486-491 | one merge means that the list is a single run; more than one means that `insize` is still below the length |
| ListSort.RunCountIs | benchmarks/coremark32/core_list_join.c:433-484 | a pass makes one merge for every two runs, rounded up: n cells make (n + w - 1) / w runs of w |
| ListSort.MergeSort | benchmarks/coremark32/core_list_join.c:426-496 | for every non-empty list, every lawful comparison and both mutating comparators: the same cells are relinked into an acyclic list, sorted and stable on what the data holds at the end; with at least two cells every item has been compared; `insize` and the counters stay within 32 bits for fewer than 2^31 cells |
| ListSort.PermutationIsOnto | benchmarks/coremark32/core_list_join.c:426-496 | no cell is lost: a duplicate-free order of n places names every place |
| ListBench.Find | benchmarks/coremark32/core_list_join.c:370-380 | the first cell that matches by index, or by low byte for a negative index, and null exactly when none does |
| ListBench.Reverse | benchmarks/coremark32/core_list_join.c:395-404 | the list of the same cells in reverse order |
| ListBench.MoveNext | benchmarks/coremark32/core_list_join.c:156-162 | relinking moves the cell behind the one found to the second place and leaves the order of the others |
| ListBench.Remove | benchmarks/coremark32/core_list_join.c:316-327 | the item leaves the list by swapping its data into the next cell, which is unlinked and returned |
| ListBench.UndoRemove | benchmarks/coremark32/core_list_join.c:345-355 | data and links are swapped back |
| ListBench.RemoveAndUndo | benchmarks/coremark32/core_list_join.c:316-355 | undo undoes remove: every link and every binding of data of every cell is back |
| ListBench.SortList | benchmarks/coremark32/core_list_join.c:426-496 | the sort on a list in any order: order, data and stability in terms of the items |
| ListBench.FindOnce | benchmarks/coremark32/core_list_join.c:145-163 | one turn of the search is the function `Turn` of the values: new order, score, and the counts of hits and misses |
| ListBench.FindLoop | benchmarks/coremark32/core_list_join.c:142-170 | the search loop is `n` turns; order, key and score modulo 2^16 afterwards |
| ListBench.EveryTurnCounts | benchmarks/coremark32/core_list_join.c:151-170 | no turn gives the score 0, and `n` turns have found or missed `n` items |
| ListBench.OneMoreTurn | benchmarks/coremark32/core_list_join.c:151-170 | one more turn adds 4, and bit 9 of the word found if that is odd, on a hit, and bit 8 of the word that is then second, less 1, on a miss |
| ListBench.FirstMatchIs | benchmarks/coremark32/core_list_join.c:370-380 | the first match is the only place with its property |
| ListBench.CrcWalk | benchmarks/coremark32/core_list_join.c:179-182 | the data word of the head goes into the CRC once for each cell from `finder` to the end |
| ListBench.RemoveWalkUndo | benchmarks/coremark32/core_list_join.c:174-186 | the walk over the list without its second item gives the CRC of `WalkLength` steps, and afterwards all links and bindings are back |
| ListBench.SortWalkSort | benchmarks/coremark32/core_list_join.c:171-188 | from the sort by content to the sort by index: order (sorted and stable) and values between the two, result, and rebuilt data at the end |
| ListBench.CoreBenchList | benchmarks/coremark32/core_list_join.c:132-199 | for every acyclic list of at least 3 cells, all data and any results of the state and matrix benchmarks: every cell keeps its data item, every index is unchanged, every data word is rebuilt from its high byte, the result is the specified CRC, and all links are restored exactly when the items were in order of index and equal indices have kept their order |
| ListBench.CoreBenchListRestores | benchmarks/coremark32/core_list_join.c:130-199 | bindings and indices are kept; a data word is back exactly when its two bytes were equal; strictly increasing indices bring the links back, and for `finder_idx` 0 and one turn nothing else does |
| ListBench.DataRebuilt | benchmarks/coremark32/core_list_join.c:63-118 | caching by the first sort and rebuilding by the last give the word that its original high byte says |
| ListBench.AfterIndexSort | benchmarks/coremark32/core_list_join.c:187-188 | after the last sort the data is rebuilt, and the order is the stable order by index |
| ListBench.IdentityExactlyWhen | benchmarks/coremark32/core_list_join.c:187-188 | sorting by index gives back the original order exactly when that was sorted by index and no items of equal index were exchanged |
| ListBench.InLineExactlyWhen | benchmarks/coremark32/core_list_join.c:187-188 | the links are the original ones exactly when the order is |
| ListBench.DistinctIndicesKeepTies | benchmarks/coremark32/core_list_join.c:130 | with strictly increasing indices both conditions hold, so that the links are always restored |
| ListBench.OneTurnLosesTies | benchmarks/coremark32/core_list_join.c:142-163 | in every list in order of index, one turn that looks for the index 0 exchanges every two items of equal index |
| ListBench.AlwaysRestoredExactlyWhen | benchmarks/coremark32/core_list_join.c:130 | the links are restored whatever the key, the number of turns and the values evaluated, exactly when the indices are strictly increasing |
| Barrier.InitialInv | benchmarks/dhrystone32/util.h:98-100 | the invariant holds before the first call |
| Barrier.FetchAddKeepsInv | benchmarks/dhrystone32/util.h:104-105 | the fetch-and-add keeps the invariant, whether or not it is the last of the round |
| Barrier.SetSenseKeepsInv | benchmarks/dhrystone32/util.h:108 | releasing the round takes the invariant from round r to round r + 1 |
| Barrier.ActionKeepsInv | benchmarks/dhrystone32/util.h:96-114 | every atomic action of every thread keeps the invariant |
| Barrier.RunInv | benchmarks/dhrystone32/util.h:96-114 | every state of every run, for any number of threads and rounds and any interleaving, satisfies the invariant |
| Barrier.BarrierSafety | benchmarks/dhrystone32/util.h:96-114 | no thread returns from its k-th call before all threads have started theirs, and no thread is more than one round ahead |
| Barrier.ReleaseFlipsSense | benchmarks/dhrystone32/util.h:107-108 | when a round is released `count` is 0, `sense` has flipped, and every thread is in its call of that round |
| Barrier.NoDeadlock | benchmarks/dhrystone32/util.h:105-111 | in no reachable state does everyone wait forever: someone can move, or a thread that has not called yet is missing |
| Barrier.MovingIsProgress | benchmarks/dhrystone32/util.h:96-114 | every action that changes the state, other than a new call, decreases the work left |
| Barrier.MovesAreBounded | benchmarks/dhrystone32/util.h:96-114 | however the threads are scheduled, they can make only as many moves as there is work before a new call |
| Barrier.WorkIsBounded | benchmarks/dhrystone32/util.h:96-114 | the work of a round is at most four moves a thread |
| Barrier.RoundEnds | benchmarks/dhrystone32/util.h:96-114 | once all threads have called equally often and nobody can move, all of them have returned and no work is left |
| PageWalk.SimilarWalk | tools/verification/riscv-isa-sim-modified/riscv/mmu.cc:208-217 | no test of the walk looks at the accessed and dirty bits |
| PageWalk.TouchIsSimilar | tools/verification/riscv-isa-sim-modified/riscv/mmu.cc:219-220 | setting the bits in one entry leaves all entries of the mode the same but for these bits, entries that other paths share included |
| PageWalk.AccessedAndDirtyAreTransparent | tools/verification/riscv-isa-sim-modified/riscv/mmu.cc:172-229 | the write of a walk changes the result of no later walk, for any address, access, privilege, root and permission bits |
| PageWalk.WalkIsIdempotent | tools/verification/riscv-isa-sim-modified/riscv/mmu.cc:219-220 | repeating a walk leaves memory as it is |
| PageWalk.WalkIsQuietExactlyWhen | tools/verification/riscv-isa-sim-modified/riscv/mmu.cc:219-220 | a walk writes nothing exactly when A, and for a store D, is set already in the entry where it ends |
| PageWalk.QuietStays | tools/verification/riscv-isa-sim-modified/riscv/mmu.cc:219-220 | a walk that has nothing to write has nothing to write after any other walk |
| PageWalk.LeafOfAnyAccess | tools/verification/riscv-isa-sim-modified/riscv/mmu.cc:196-226 | access and privilege decide whether a walk succeeds, not where it ends |
| PageWalk.SamePageWalk | tools/verification/riscv-isa-sim-modified/riscv/mmu.cc:187-226 | addresses of one page take the same way through the tables |
| PageWalk.OffsetIsAdded | tools/verification/riscv-isa-sim-modified/riscv/mmu.cc:55 | or-ing the offset in is adding it |
| PageWalk.AlignedSuperpage | tools/verification/riscv-isa-sim-modified/riscv/mmu.cc:221-224 | an aligned superpage maps its whole span, page by page |
| PageWalk.SpanIsPower | tools/verification/riscv-isa-sim-modified/riscv/mmu.cc:174-195 | the span of every level of every mode is a power of two |
| PageRights.WalkExactlyWhen | tools/verification/riscv-isa-sim-modified/riscv/mmu.cc:187-226 | a walk succeeds exactly when there is an entry on the way that is no table, the address is canonical, and the sixteen combinations of V, R, W and X with U, PUM and MXR let the access through |
| PageRights.RightsOfWalk | tools/verification/riscv-isa-sim-modified/riscv/mmu.cc:208-217 | a store that gets through ends at an entry with R and W, a fetch at one with X, and a load at one with R, or with X under MXR; the user only at one with U, and the supervisor at one with U only without PUM |
| PageRights.IndicesAreDigits | tools/verification/riscv-isa-sim-modified/riscv/mmu.cc:197 | the indices of all levels and the page offset are the digits of the address, the highest first |
| PageRights.CanonicalExactlyWhen | tools/verification/riscv-isa-sim-modified/riscv/mmu.cc:187-192 | the lower and the upper half of the range of a mode |
| PageRights.EntryIsWord | tools/verification/riscv-isa-sim-modified/riscv/mmu.cc:200-206 | an entry is a little-endian word in memory, and its page number is what is above its ten lowest bits |
| PageRights.WalkWrites | tools/verification/riscv-isa-sim-modified/riscv/mmu.cc:219-220 | exactly the entry at the end gets A, and D for a store, and no other bit of memory changes |
| GdbTranslate.ProbeFollowsWalk | tools/verification/riscv-isa-sim-modified/riscv/gdbserver.cc:1053-1088 | where the walk over memory ends, the walk over the cache ends too or lacks an entry on the way there |
| GdbTranslate.ProbeAdvances | tools/verification/riscv-isa-sim-modified/riscv/gdbserver.cc:1030-1077 | every entry that is fetched takes the walk over the cache at least one level further |
| GdbTranslate.Gdbserver.Translate | tools/verification/riscv-isa-sim-modified/riscv/gdbserver.cc:1349-1417 | the loop is the walk over the cache: an address, death for a missing entry, or -1 |
| GdbTranslate.CollectTranslationInfo.Step | tools/verification/riscv-isa-sim-modified/riscv/gdbserver.cc:986-1093 | one step stores what was asked for and asks for the next missing thing, and ends exactly when nothing is missing |
| GdbTranslate.ProbeIsOnTheWay | tools/verification/riscv-isa-sim-modified/riscv/gdbserver.cc:1053-1088 | every entry that is asked for is a table entry in memory, and a complete walk gives the address of the MMU |
| GdbTranslate.CollectAndTranslate | tools/verification/riscv-isa-sim-modified/riscv/gdbserver.cc:986-1093 | the two walkers agree: when the MMU walk succeeds, the operation ends within levels + 2 steps and `translate` returns the same physical address, for all three modes and superpages |
| Tlb.TranslateIsTransparent | tools/verification/riscv-isa-sim-modified/riscv/mmu.cc:38-56 | a translation changes no other translation |
| Tlb.TranslateWithinPage | tools/verification/riscv-isa-sim-modified/riscv/mmu.cc:38-56 | translation keeps the page offset |
| Tlb.TranslateAnyAccess | tools/verification/riscv-isa-sim-modified/riscv/mmu.cc:43-55 | if all accesses go through the tables, or none does, those that succeed give the same address |
| Tlb.SettledExactlyWhen | tools/verification/riscv-isa-sim-modified/riscv/mmu.cc:219-220 | translating writes nothing exactly when there is nothing to walk, the walk fails, or the bits are set |
| Tlb.TranslateSettles | tools/verification/riscv-isa-sim-modified/riscv/mmu.cc:219-220 | after a translation the same translation writes nothing |
| Tlb.SettledStays | tools/verification/riscv-isa-sim-modified/riscv/mmu.cc:219-220 | that stays so under every other translation |
| Tlb.AgreeAfterRefill | tools/verification/riscv-isa-sim-modified/riscv/mmu.cc:150-167 | all valid tags at an index name the same page |
| Tlb.HostAfterRefill | tools/verification/riscv-isa-sim-modified/riscv/mmu.cc:148-170 | every valid tag points to a page of host memory, even when translations have changed since |
| Tlb.RefillIsCoherent | tools/verification/riscv-isa-sim-modified/riscv/mmu.cc:148-170 | a refill with what `translate` gives keeps the TLB coherent when fetches and data accesses use one map |
| Tlb.MarkedAfterRefill | tools/verification/riscv-isa-sim-modified/riscv/mmu.cc:148-170 | after a refill every valid tag, of each kind of access, belongs to a translation that has nothing left to write |
| Tlb.EarnedAfterRefill | tools/verification/riscv-isa-sim-modified/riscv/mmu.cc:148-170 | a refill makes valid only the tag of the access that was walked, so every valid tag stands for a walk since the last flush |
| Tlb.HitIsTranslation | tools/verification/riscv-isa-sim-modified/riscv/mmu.h:60-61 | a hit leads to the host address that `translate` would give, and that translation succeeds and is in memory |
| Tlb.HitWasEarned | tools/verification/riscv-isa-sim-modified/riscv/mmu.h:60-61 | a hit is on a page that was walked for this kind of access since the last flush |
| TlbLimits.SharedEntry | tools/verification/riscv-isa-sim-modified/riscv/mmu.cc:169 | after a fetch and a load have missed on a page, the fetch hits the address of the load: its own exactly when the two translate alike |
| TlbLimits.OneAddressExactlyWhen | tools/verification/riscv-isa-sim-modified/riscv/mmu.cc:43-55 | fetches and loads that succeed in memory agree, for every memory, exactly when both or neither go through the tables, or the root table cannot be in memory |
| TlbLimits.OneEntryExactlyWhen | tools/verification/riscv-isa-sim-modified/riscv/mmu.cc:208-217 | with a root table of a single entry, whatever its flags, a walk succeeds exactly when they allow the access |
| TlbLimits.MprvMayPart | tools/verification/riscv-isa-sim-modified/riscv/mmu.cc:43-47 | in each of the three modes MPRV parts them: a processor and a memory for which the fetch gives 0x8000_0000 and the load 0x8000_1000 |
| TlbLimits.DirtyMayBeCleared | tools/verification/riscv-isa-sim-modified/riscv/mmu.cc:219-220 | a store that clears A and D in the entry of its own page changes no translation, and `translate` would set them again for a store anywhere on the page |
| TlbLimits.StoreWithoutDirty | tools/verification/riscv-isa-sim-modified/riscv/mmu.h:89-106 | two stores of the class: the first clears A and D behind its own tag, the second hits, the TLB is not stale, and D stays clear where `translate` would set it |
| Mmu.Mmu.FlushTlb | tools/verification/riscv-isa-sim-modified/riscv/mmu.cc:29-36 | no tag is valid, no walk counts any more, no cleared bit matters, and the TLB is coherent again if fetches and data accesses use one map |
| Mmu.Mmu.SetProc | tools/verification/riscv-isa-sim-modified/riscv/mmu.cc:43-49 | a change of the processor state makes the TLB stale exactly when translations change or there are two maps |
| Mmu.Mmu.WalkTable | tools/verification/riscv-isa-sim-modified/riscv/mmu.cc:172-229 | the walk loop, on the bits of the address and of the entries, returns the page of the leaf the specification finds, and changes memory as it says |
| Mmu.Mmu.TranslateAddr | tools/verification/riscv-isa-sim-modified/riscv/mmu.cc:38-56 | `translate` is its specification, before and after its own write |
| Mmu.Mmu.RefillTlb | tools/verification/riscv-isa-sim-modified/riscv/mmu.cc:148-170 | the three tag arrays and the data array become those of the specification, and the invariant holds |
| Mmu.Mmu.LoadSlowPath | tools/verification/riscv-isa-sim-modified/riscv/mmu.cc:104-124 | the bytes at the translated address or of the device, or an access fault; memory changes by the bits of the walk only; the trigger is thrown exactly when it fires and there is memory or a device, and `matched_trigger` is set exactly for one that comes after the access |
| Mmu.Mmu.Load | tools/verification/riscv-isa-sim-modified/riscv/mmu.h:55-74 | as long as the TLB is not stale every load, fast or slow, with or without triggers, returns what `translate` leads to; a hit gives the bytes behind the pointer stored, leaves memory as it is and is on a page walked for loads since the flush, a miss does what `translate` does to memory and refills exactly its entry, and as long as no bit behind a tag was cleared the memory is the one `translate` leaves in both cases; a trigger is thrown exactly when it fires and the tag is flagged, or the tag is that of no access and memory or a device is reached: never on a plain tag |
| Mmu.Mmu.StoreSlowPath | tools/verification/riscv-isa-sim-modified/riscv/mmu.cc:126-146 | the bytes go to the translated address, unless the trigger fires, which is then thrown, memory or not; a store that changes translations makes the TLB stale |
| Mmu.Mmu.Store | tools/verification/riscv-isa-sim-modified/riscv/mmu.h:89-106 | the same for stores: the bytes go where `translate` leads, into the memory that `translate` leaves, so that D is set before or by every store, as long as no store has cleared it; triggers as for loads, but a store that misses throws whether or not there is memory or a device |
| Mmu.Mmu.HitIsEarned | tools/verification/riscv-isa-sim-modified/riscv/mmu.h:60-61 | in every reachable state a hit is on a page that was walked for this kind of access since the last flush, and while nothing was cleared that walk has nothing left to write |
| Mmu.Mmu.FetchSlowPath | tools/verification/riscv-isa-sim-modified/riscv/mmu.cc:58-76 | host memory, the device buffer, or a fault, with the special case of the address -1 |
| Mmu.Mmu.TranslateInsnAddr | tools/verification/riscv-isa-sim-modified/riscv/mmu.h:225-237 | the same for fetches, fast and slow; a trigger is thrown exactly when it matches behind a flagged tag, and a hit gives the pointer that is stored |
| Mmu.RefillKeepsValid | tools/verification/riscv-isa-sim-modified/riscv/mmu.cc:148-170 | refilling keeps everything the class promises |
| Mmu.FlushedIsCoherent | tools/verification/riscv-isa-sim-modified/riscv/mmu.cc:29-36 | a TLB without valid tags is coherent |
| CacheSim.EncodeFacts | tools/verification/riscv-isa-sim-modified/riscv/cachesim.h:36-37 | VALID and DIRTY collide with no line number, and setting and clearing them is undone by reading the line |
| CacheSim.GoodExactlyWhen | tools/verification/riscv-isa-sim-modified/riscv/cachesim.cc:40-45 | accepted are powers of two for the sets, and for the lines powers from 2^3 |
| CacheSim.LineIsLine | tools/verification/riscv-isa-sim-modified/riscv/cachesim.cc:105-106 | the line of every 64-bit address is below both flags |
| CacheSim.LineIsBlock | tools/verification/riscv-isa-sim-modified/riscv/cachesim.cc:105-106 | a line is an aligned block of `linesz` bytes |
| CacheSim.SameLineExactlyWhen | tools/verification/riscv-isa-sim-modified/riscv/cachesim.cc:105-106 | two addresses are on one line exactly when they lie in one aligned block |
| CacheSim.LfsrBits | tools/verification/riscv-isa-sim-modified/riscv/cachesim.h:17 | the generator shifts down and feeds the lowest bit back into the bits 31, 30, 28 and 0 |
| CacheSim.LfsrIsPermutation | tools/verification/riscv-isa-sim-modified/riscv/cachesim.h:17 | no number has two predecessors, so that the generator runs in cycles |
| CacheSim.ArrayReplace | tools/verification/riscv-isa-sim-modified/riscv/cachesim.cc:115-122 | putting a line into a slot of its set evicts exactly the line that was there, and every line still sits once, in its own set |
| CacheSim.ArrayMark | tools/verification/riscv-isa-sim-modified/riscv/cachesim.cc:132-133 | setting DIRTY marks exactly that line |
| CacheSim.RecordedStep | tools/verification/riscv-isa-sim-modified/riscv/cachesim.cc:124-154 | a line is resident exactly when it was filled and not evicted since, and dirty exactly when it was stored to since its fill |
| CacheSim.ConservedStep | tools/verification/riscv-isa-sim-modified/riscv/cachesim.cc:141-147 | write-backs plus resident dirty lines equal the stores that missed or hit a clean line |
| CacheSim.WritebacksAreBounded | tools/verification/riscv-isa-sim-modified/riscv/cachesim.cc:141-147 | there are at most as many write-backs as writes |
| CacheSim.LevelsBalance | tools/verification/riscv-isa-sim-modified/riscv/cachesim.cc:143-150 | a private next level reads as often as this one misses and is written as often as this one writes back |
| CacheSim.TrafficCounts | tools/verification/riscv-isa-sim-modified/riscv/cachesim.cc:141-150 | the traffic to the next level has one read a miss and one write a write-back |
| CacheSim.CacheSim.constructor | tools/verification/riscv-isa-sim-modified/riscv/cachesim.cc:40-61 | a new cache is empty, with no next level |
| CacheSim.CacheSim.SetMissHandler | tools/verification/riscv-isa-sim-modified/riscv/cachesim.h:31 | chaining keeps both caches in order |
| CacheSim.CacheSim.CheckTag | tools/verification/riscv-isa-sim-modified/riscv/cachesim.cc:103-113 | the slot of the line, or null exactly when it is not resident |
| CacheSim.CacheSim.VictimizeInArray | tools/verification/riscv-isa-sim-modified/riscv/cachesim.cc:115-122 | the new line is resident and clean, in the way of its set that the generator picks, and exactly the line that was there is displaced and returned with its flag |
| CacheSim.CacheSim.VictimizeInMap | tools/verification/riscv-isa-sim-modified/riscv/cachesim.cc:167-179 | the same for the map: a line is displaced exactly when there are `ways` of them, the one as many places behind the smallest as the generator says |
| CacheSim.NthKey | tools/verification/riscv-isa-sim-modified/riscv/cachesim.cc:172-173 | advancing from the beginning of an ordered map gives the key with that many smaller ones |
| CacheSim.CacheSim.Miss | tools/verification/riscv-isa-sim-modified/riscv/cachesim.cc:137-153 | write-back, fill and mark; after the fill the accessed line is resident, so the second look-up finds it |
| CacheSim.CacheSim.Access | tools/verification/riscv-isa-sim-modified/riscv/cachesim.cc:124-154 | for both variants and any chain of levels: the history gets one true event, contents and statistics follow it, the line that a miss evicts is the one the generator picks, a hit moves neither lines nor generator, and the next level gets exactly the write-back, with the base address of the evicted line, and then the fill |
| CacheSim.CacheSim.StatisticsBalance | tools/verification/riscv-isa-sim-modified/riscv/cachesim.cc:124-154 | after any accesses the statistics balance, within this level and with a private next level |
| CacheSim.CacheSim.Replay | tools/verification/riscv-isa-sim-modified/riscv/cachesim.cc:124-154 | a whole trace is entered in order, and a next level attached from the start has had this level's traffic and nothing else |
| Crc.TurnResult | benchmarks/coremark32/core_util.c:148-162 | one turn of the bit loop, with its carry, is one step of the reflected register |
| Crc.Crcu8 | benchmarks/coremark32/core_util.c:142-165 | eight steps, low bit first |
| Crc.Crcu16 | benchmarks/coremark32/core_util.c:166-170 | sixteen steps, low byte first |
| Crc.Crcu32 | benchmarks/coremark32/core_util.c:171-175 | thirty-two steps, low half first |
| Crc.CrcIsRemainder | benchmarks/coremark32/core_util.c:142-178 | the CRC of any message is the remainder of its polynomial by x^16 + x^15 + x^2 + 1 |
| Crc.CrcLinear | benchmarks/coremark32/core_util.c:142-178 | the CRC of a difference is the difference of the CRCs |
| Crc.BurstDetected | benchmarks/coremark32/core_util.c:142-178 | two messages of any equal length that differ, within 16 consecutive bits, have different CRCs, from any register |
| Crc.CrcConcat | benchmarks/coremark32/core_util.c:166-175 | the CRC of a concatenation is the fold of the CRCs |
| Crc.BitsOf16 | benchmarks/coremark32/core_util.c:166-170 | the bits of a 16-bit number enter in order, the lowest first |
| Crc.BitsOf32 | benchmarks/coremark32/core_util.c:171-175 | the same for 32 bits |
| Crc.CheckValue | benchmarks/coremark32/core_util.c:142-165 | the digits 1 to 9 in ASCII have the check value 0xbb3d of the CRC-16 of this polynomial |
| Mulhi.Unwrapped | tools/verification/riscv-isa-sim-modified/riscv/mulhi.h:8-27 | no intermediate sum of the limbs wraps around |
| Mulhi.MulhuExact | tools/verification/riscv-isa-sim-modified/riscv/mulhi.h:8-27 | the exact high half for all unsigned operands |
| Mulhi.MulhExact | tools/verification/riscv-isa-sim-modified/riscv/mulhi.h:29-34 | the exact high half, rounded down, for all signed operands, the most negative one included |
| Mulhi.MulhsuExact | tools/verification/riscv-isa-sim-modified/riscv/mulhi.h:36-41 | the same for signed times unsigned |
| Mulhi.NegateIsComplement | tools/verification/riscv-isa-sim-modified/riscv/mulhi.h:33 | the complement with the carry out of an all-zero low half negates the 128-bit product |
| StateMachine.CharactersAre | benchmarks/coremark32/core_state.c:168-232 | the digits, signs, exponent marks, dot and comma are these characters and no others |
| StateMachine.RunIsGrammar | benchmarks/coremark32/core_state.c:184-276 | the states INT, FLOAT and SCIENTIFIC are reached exactly on the texts of the three forms of number |
| StateMachine.ViableIsNotInvalid | benchmarks/coremark32/core_state.c:184-276 | the machine is INVALID exactly on the texts that no number begins with |
| StateMachine.ScanIsRun | benchmarks/coremark32/core_state.c:184-276 | a call runs the machine over the field, and consumes it with its comma, or stops right behind the shortest part that makes it INVALID |
| StateMachine.ScanClassifies | benchmarks/coremark32/core_state.c:184-276 | what a call returns and consumes, in terms of the grammar only |
| StateMachine.ClassifiesOnce | benchmarks/coremark32/core_state.c:184-276 | the grammar leaves no choice: a result with that meaning is the result |
| StateMachine.CounterIsDeparture | benchmarks/coremark32/core_state.c:195-270 | the counter of a state goes up, by one, exactly when the call went through that state and did not end in it |
| StateMachine.CounterOfFailures | benchmarks/coremark32/core_state.c:205-208 | the SCIENTIFIC counter never moves, and the INVALID counter counts the texts given up at their first byte or inside an exponent |
| StateBench.Transition | benchmarks/coremark32/core_state.c:195-272 | the switch: next state, and the counters it raises |
| StateBench.CoreStateTransition | benchmarks/coremark32/core_state.c:184-277 | the loop is the specified scan, and the counters go up by what the scan says, modulo 2^32 |
| StateBench.CallsAreBounded | benchmarks/coremark32/core_state.c:59-67 | every call consumes a byte, so the driver loop ends after fewer calls than there are bytes |
| StateBench.TallyAddsUp | benchmarks/coremark32/core_state.c:61 | the final counts add up to the number of calls |
| StateBench.FinalCountsAddUp | benchmarks/coremark32/core_state.c:61 | the same for the 32-bit counters, for fewer than 2^32 calls |
| StateBench.StartBalance | benchmarks/coremark32/core_state.c:210 | each call is counted at START or returns it |
| StateBench.ScanPass | benchmarks/coremark32/core_state.c:59-67 | one pass of the driver loop: final and track counters |
| StateBench.Corrupt | benchmarks/coremark32/core_state.c:69-74 | every `step`-th byte is changed unless it is a comma, and nothing else |
| StateBench.UndoneExactlyWhen | benchmarks/coremark32/core_state.c:69-92 | the second pass restores the buffer exactly when the seeds agree and no changed byte became a comma |
| StateBench.CrcOfCounters | benchmarks/coremark32/core_state.c:93-97 | the counters go into the CRC in order |
| StateBench.CountersInOrder | benchmarks/coremark32/core_state.c:93-97 | the sixteen counters enter as one message, the final and then the track counter of each state |
| StateBench.CoreBenchState | benchmarks/coremark32/core_state.c:43-99 | buffer and CRC after the whole benchmark |
| StateInit.CoreInitState | benchmarks/coremark32/core_state.c:116-166 | the buffer gets the specified block and is not touched behind it |
| StateInit.BlockBytes | benchmarks/coremark32/core_state.c:116-162 | a block ends in at least two zeros, has none before, and never holds the digit 9 |
| StateInit.ScansStop | benchmarks/coremark32/core_state.c:59-85 | both scans of an initialised block stop inside it, for every seed and every stride from 2 |
| StateInit.StrideOneStopsExactlyWhen | benchmarks/coremark32/core_state.c:69-85 | with stride 1 the second scan stops exactly when the seed byte occurs in the block and is no comma |
| StateInit.SeedFifteenIsUndone | benchmarks/coremark32/core_state.c:69-92 | under the seed byte 0x15 the corruption of a block is always undone |
| StateInit.PatternKinds | benchmarks/coremark32/core_state.c:102-105 | every pattern is for the scanner what its table says, but for the third scientific one, which it rejects |
| StateInit.SeedKind | benchmarks/coremark32/core_state.c:132-151 | what the scanner makes of the pattern that a seed selects: three seeds of eight give INT, two FLOAT, two SCIENTIFIC but for the third row, and the rest INVALID |
| StateInit.SamePatternExactlyWhen | benchmarks/coremark32/core_state.c:132-151 | two seeds for one table select the same pattern exactly when their bits 3 and 4 agree |
| StateInit.PatternText | benchmarks/coremark32/core_state.c:102-105 | the text of every seed |
| StateInit.FieldCalls | benchmarks/coremark32/core_state.c:132-151 | the calls for the field of a seed: its kind, or at first INVALID |
| StateInit.NumberIsOneToken | benchmarks/coremark32/core_state.c:184-277 | a field that is a number is one call, which returns its kind |
| StateInit.TokensSplit | benchmarks/coremark32/core_state.c:59-67 | fields are scanned one after the other, whatever follows |
| StateInit.BlockIsScanned | benchmarks/coremark32/core_state.c:59-67 | the first pass over a block of any size and seed returns, field by field, what the chosen patterns say |
| StateInit.BlockOfFields | benchmarks/coremark32/core_state.c:116-162 | a block is as many fields as fit, the k-th one of the seed `seed + 1 + k`, and zeros; the first pass returns the calls of these fields in order |
| StateInit.WholeBlock | benchmarks/coremark32/core_state.c:116-162 | one block in full: 242 bytes and seed -1 give the 32 texts of all rows and two zeros |
| RingBuffer.CircularBuffer.Size | tools/verification/riscv-isa-sim-modified/riscv/gdbserver.cc:269-276 | the number of elements, which is below the capacity |
| RingBuffer.CircularBuffer.Empty | tools/verification/riscv-isa-sim-modified/riscv/gdbserver.h:26 | empty exactly without elements |
| RingBuffer.CircularBuffer.Full | tools/verification/riscv-isa-sim-modified/riscv/gdbserver.h:27 | full exactly with capacity - 1 elements |
| RingBuffer.CircularBuffer.At | tools/verification/riscv-isa-sim-modified/riscv/gdbserver.h:44 | indexing is indexing of the contents |
| RingBuffer.CircularBuffer.ContiguousEmptySize | tools/verification/riscv-isa-sim-modified/riscv/gdbserver.cc:284-294 | room behind the contents without wrapping, none exactly when full |
| RingBuffer.CircularBuffer.ContiguousDataSize | tools/verification/riscv-isa-sim-modified/riscv/gdbserver.cc:296-303 | a beginning of the contents that lies in one piece, none exactly when empty |
| RingBuffer.CircularBuffer.DataAdded | tools/verification/riscv-isa-sim-modified/riscv/gdbserver.cc:305-312 | the cells behind the contents become contents, and the room left in one piece is exactly known |
| RingBuffer.CircularBuffer.Consume | tools/verification/riscv-isa-sim-modified/riscv/gdbserver.cc:278-282 | the oldest elements are dropped |
| RingBuffer.CircularBuffer.Reset | tools/verification/riscv-isa-sim-modified/riscv/gdbserver.cc:314-319 | the buffer is empty |
| RingBuffer.CircularBuffer.Append | tools/verification/riscv-isa-sim-modified/riscv/gdbserver.cc:321-333 | the exact contents, the room left in one piece, and exactly when the assertion fails; what does not fit in one piece is copied from the beginning of the source again |
| RingBuffer.StoredIsExactlyWhen | tools/verification/riscv-isa-sim-modified/riscv/gdbserver.cc:330 | what is appended is the source exactly when it fits in one piece or repeats itself after the first piece |
| RingBuffer.GarbledAppend | tools/verification/riscv-isa-sim-modified/riscv/gdbserver.cc:321-333 | seven calls of a buffer of six cells that append 1, 2 and send 1, 1 |
| RingBuffer.CircularBuffer.Drain | tools/verification/riscv-isa-sim-modified/riscv/gdbserver.cc:1586-1610 | what is sent and what is left is what there was, in order, however much the client accepts at a time |
| Framing.ComputeChecksum | tools/verification/riscv-isa-sim-modified/riscv/gdbserver.cc:1623-1630 | the byte sum of the data between `$` and `#` |
| Framing.SentExactlyWhen | tools/verification/riscv-isa-sim-modified/riscv/gdbserver.cc:321-333 | pieces that are appended one after the other are in the buffer as they are exactly when each is taken and fits, or repeats itself where it wraps around |
| Framing.PacketIsSentExactlyWhen | tools/verification/riscv-isa-sim-modified/riscv/gdbserver.cc:2207-2231 | for a packet that is exactly: it fits in one piece, or only its data wraps around and repeats itself; its last three characters can never wrap around |
| Framing.NumberIsSentExactlyWhen | tools/verification/riscv-isa-sim-modified/riscv/gdbserver.cc:2180-2206 | for a number: it fits in one piece, or wraps around between two bytes or within a byte of two equal digits |
| Framing.Sender.Send | tools/verification/riscv-isa-sim-modified/riscv/gdbserver.cc:2172-2178 | the bytes are added to the running checksum and appended; contents, room and failed assertion exactly |
| Framing.Sender.SendNumber | tools/verification/riscv-isa-sim-modified/riscv/gdbserver.cc:2180-2206 | the bytes of the number, lowest first, in two hex digits each: contents, room, checksum and failed assertion exactly, and exactly when the digits are in the buffer as they are |
| Framing.Sender.StartPacket | tools/verification/riscv-isa-sim-modified/riscv/gdbserver.cc:2215-2219 | `$`, and a running checksum of 0, exactly when the buffer is not full |
| Framing.Sender.EndPacket | tools/verification/riscv-isa-sim-modified/riscv/gdbserver.cc:2221-2231 | the data, `#` and the checksum of everything since the start of the packet: contents, room and failed assertion exactly |
| Framing.Sender.SendPacket | tools/verification/riscv-isa-sim-modified/riscv/gdbserver.cc:2207-2213 | contents, room and failed assertion exactly; the packet is in the buffer as it is exactly when it fits as `PacketIsSentExactlyWhen` says, and an acknowledgement is expected |
| Framing.Sender.Acknowledge | tools/verification/riscv-isa-sim-modified/riscv/gdbserver.cc:2082-2094 | `+` exactly for a packet whose checksum is right, else `-`; the assertion fails exactly when the buffer is full |
| Framing.ProcessRequests | tools/verification/riscv-isa-sim-modified/riscv/gdbserver.cc:1649-1717 | the scan of the receive buffer is the specified one: events handled, bytes left, and exactly when its assertion fails |
| Framing.FrameIsRecognised | tools/verification/riscv-isa-sim-modified/riscv/gdbserver.cc:1653-1696 | a sent packet is recognised as exactly one packet, and nothing behind it is touched |
| Framing.FrameIsAccepted | tools/verification/riscv-isa-sim-modified/riscv/gdbserver.cc:1623-1647 | its checksum is right |
| Framing.AcceptedIsFrame | tools/verification/riscv-isa-sim-modified/riscv/gdbserver.cc:1623-1647 | an accepted packet that begins with `$` and ends in lower-case digits is the packet of its data |
| Framing.StopShape | tools/verification/riscv-isa-sim-modified/riscv/gdbserver.cc:1671-1690 | everything handled as a packet has one `#` with two bytes behind it and no `$` inside |
| Framing.CompleteExactlyWhen | tools/verification/riscv-isa-sim-modified/riscv/gdbserver.cc:1653-1696 | the bytes handled as a packet are exactly these: at least one byte, up to the first later `#`, no `$` but perhaps the first byte, and two bytes that are no `$` |
| Framing.AnyTextIsAPacketExactlyWhen | tools/verification/riscv-isa-sim-modified/riscv/gdbserver.cc:1653-1696 | bytes that do not begin with `$` are one packet, with a `#` and two bytes behind them, exactly when neither of these is a `$` |
| Framing.NonDigitsAreAChecksum | tools/verification/riscv-isa-sim-modified/riscv/gdbserver.cc:1632-1647 | two characters that are no digits pass for the checksum 0xef |
| Framing.Resynchronises | tools/verification/riscv-isa-sim-modified/riscv/gdbserver.cc:1671-1680 | bytes that are no packet are dropped up to the next `$`, and the packet there is handled |
| Framing.StreamIsHandled | tools/verification/riscv-isa-sim-modified/riscv/gdbserver.cc:1649-1697 | a stream of packets is handled one a call, in order, with nothing lost |
| Framing.NumberTravels | tools/verification/riscv-isa-sim-modified/riscv/gdbserver.cc:2180-2206 | a number sent in a packet is received, accepted and read back |
| Hex.HexRoundTrip | tools/verification/riscv-isa-sim-modified/riscv/gdbserver.cc:1632-1641 | every digit that is printed is read back |
| Hex.HexValueExactlyWhen | tools/verification/riscv-isa-sim-modified/riscv/gdbserver.cc:1632-1641 | the value of a character is its place among the sixteen digits, in either case |
| Hex.OrAppends | tools/verification/riscv-isa-sim-modified/riscv/gdbserver.cc:1767 | each digit goes into free bits, so that `or` appends it |
| Hex.ConsumeHexNumberLe | tools/verification/riscv-isa-sim-modified/riscv/gdbserver.cc:1754-1780 | the number that the digits stand for, lowest byte first, and the place of the first character that is no digit |
| Hex.LeRoundTrip | tools/verification/riscv-isa-sim-modified/riscv/gdbserver.cc:2180-2206 | the digits of a number of n bytes stand for that number |
| Hex.SentNumberIsReadBack | tools/verification/riscv-isa-sim-modified/riscv/gdbserver.cc:1754-1780 | every number that is sent is read back, in front of anything that is no digit |
| Printf.DigitsHaveValue | benchmarks/coremark32/ee_printf.c:105-116 | the digits have the value of the number |
| Printf.NoLeadingZero | benchmarks/coremark32/ee_printf.c:107-116 | only 0 begins with the digit 0 |
| Printf.TextLength | benchmarks/coremark32/ee_printf.c:77-137 | the text has max(width, sign + prefix + max(digits, precision)) characters, for every number, base, width, precision and flags |
| Printf.DigitTable | benchmarks/coremark32/ee_printf.c:47-48 | the digits are those of the two tables |
| Printf.PutDigits | benchmarks/coremark32/ee_printf.c:105-116 | `tmp` receives the digits in reverse and never overflows |
| Printf.MagnitudeIsUnsigned | benchmarks/coremark32/ee_printf.c:79-83 | negating in a `long` and reading it as unsigned is the absolute value, the lowest number included |
| Printf.Pieces | benchmarks/coremark32/ee_printf.c:118-137 | the text is padding, sign, prefix, padding, zeros, digits and padding in this order |
| Printf.PutFront | benchmarks/coremark32/ee_printf.c:120-134 | padding, sign and prefix are written, and what is left of the width |
| Printf.PutBack | benchmarks/coremark32/ee_printf.c:135-137 | zeros, digits and padding on the right are written |
| Printf.Number | benchmarks/coremark32/ee_printf.c:65-140 | the buffer gets exactly the text and nothing else; a base outside 2 to 36 gives a null pointer and writes nothing |
| Readers.S32Step | benchmarks/coremark32/core_util.c:78-92 | wrapping around after each digit is wrapping around once |
| Readers.ReadDigits | benchmarks/coremark32/core_util.c:76-93 | the digit loops give the value of the run of digits, as a 32-bit number |
| Readers.DigitExactlyWhen | benchmarks/coremark32/core_util.c:76-93 | what is read as a digit of the base, and as which, are the characters printed for it |
| Readers.SuffixScales | benchmarks/coremark32/core_util.c:94-100 | `K` and `M` behind decimal digits multiply by 2^10 and 2^20 |
| Readers.Parseval | benchmarks/coremark32/core_util.c:64-102 | sign, base, digits and factor |
| Readers.SkipAtoi | benchmarks/coremark32/ee_printf.c:58-63 | the value of the run of decimal digits, and where it ends |
| Readers.ZerosInFront | benchmarks/coremark32/ee_printf.c:134-135 | padding and precision zeros are digits that add nothing |
| Readers.ReadsBack | benchmarks/coremark32/core_util.c:64-102 | sign, prefix, digits and trailing spaces are read as the number |
| Readers.StartsAtOnceExactlyWhen | benchmarks/coremark32/ee_printf.c:118-137 | no padding with spaces on the left and no plus or space for a sign, in every base, exactly when the text begins with neither a space nor a plus |
| Readers.PrintedIsReadBackExactlyWhen | benchmarks/coremark32/ee_printf.c:65-140 | every 32-bit number, printed in decimal or as 0x with lower-case digits, is read back exactly when it is not padded with spaces on the left and has no plus or space for a sign, or it is 0 |
| Readers.SkipAtoiReadsBackExactlyWhen | benchmarks/coremark32/ee_printf.c:58-63 | the digits of a decimal number are read back exactly when nothing stands before them or the number is 0; reading stops right behind them, or where it began |

## Left out

- ListTypes.CalcFunc: the state and matrix benchmarks that it may call; what the one called returns is a parameter, which may be any value.
- ListBench.CoreBenchList: when no search is made the data word of the key has no value in the original; here it is 0.
- ListSort.MergeSort: for the empty list the original writes through a null pointer; the contract asks for a cell. A comparison without side effects must be a total preorder. What the comparisons add to `res->crc` is stated for one comparison (`ListTypes.CompareComplex`), not for the whole sort.
- `core_list_init`, `core_list_insert_new`: building the list; the benchmark is proved for every list instead.
- Barrier: the fences and the memory model of the hardware; the proof is under sequential consistency, with the fetch-and-add, the two writes and each look at `sense` as atomic steps. Fairness of the scheduler is not modelled; progress is a bound on the number of moves.
- Mmu.Mmu.Load: tracers, devices and triggers are parameters that say what they answer. The write of A and D is a write to the lowest byte of the entry, which holds both bits.
- Mmu.Mmu.Store: the same; atomic memory operations, which are a load and a store, are left out.
- Mmu.Mmu.TranslateInsnAddr: the instruction cache in front of it and the decoding of instruction lengths are left out.
- Mmu.Mmu.FlushTlb: the instruction cache is flushed too.
- GdbTranslate.CollectTranslationInfo.Step: the programs that run in the debug RAM; a read of the target returns the word at the address asked for. Translation of a range is left out, and the mode without translation, which does nothing.
- CacheSim.CacheSim.Access: the statistics are not limited to 64 bits. Copying a cache, printing and parsing configurations are left out.
- CacheSim.CacheSim.constructor: the original does not test `ways`, and divides by it; the contract asks for at least one.
- StateBench.CoreBenchState: the stride must be positive, and its only caller passes at least 0x22 (`ListTypes.CalcFunc`); both scans must find a terminator; `StateInit.ScansStop` proves that they do in an initialised block.
- StateInit.CoreInitState: sizes of 0 and of the last bytes below 2^32, for which the size computation wraps around.
- RingBuffer.CircularBuffer.Append: capacities above 2^31, for which the index computation in 32 bits would wrap around; the default constructor without memory.
- Framing.ProcessRequests: what the handlers of packets and interrupts do, and the socket.
- Hex.ConsumeHexNumberLe: more than 16 digits, for which the shift exceeds the width of the value; the warning for more digits than registers are wide.
- Readers.SkipAtoi: numbers that do not fit into an `int`, for which the original overflows.
- Readers.Parseval: signed overflow wraps around here; the original leaves it undefined.
- Printf.Number: floating point, strings, addresses and the format parser of `ee_printf.c`.
- `core_matrix.c`, Dhrystone procedures, device models, the instruction-set models and all generators: they would add easy members only.
