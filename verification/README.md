# Verified models of the WyrmRoot boot path

This project models, in Dafny, the parts of WyrmRoot that decide what the kernel is handed at boot and what
early user space may rely on, and proves what those parts promise.

* **Transition planner and page tables** (`Words`, `Regions`, `RegionCount`, `Sorting`, `TransitionTypes`,
  `MappingSet`, `HandoffImage`, `Transition`, `PageEntry`, `PageTree`, `PageWalk`, `UefiPageTable`, `PlanImage`, `TableCount`,
  `Population`, `GraphWalk`, `Attestation`, `Handover`, `WideTwin`, `MaskForms`). The planner turns kernel segments and handoff
  ranges into a sorted set of mappings, counts the four-level tables they need by arithmetic, and solves for the number
  of tables when these must also map themselves. The encoder writes entries into a fixed pool of 512-word pages; the attester walks
  arbitrary page contents against the plan. The layout is 4-level paging, section 4.5 of the Intel SDM, volume 3A.
* **Whole-program stack bound** (`StackCode`, `StackLocal`, `StackProve`, `StackMachine`, `StackEnds`, `StackBounds`,
  `StackEscapes`, `StackFaults`). The worklist analysis of one function, the memoised walk over the call graph, a machine with a stack
  pointer, a frame pointer, calls and probe loops against which the bound is proved, and the exact condition under which
  a proved program stays within its bound and is never left: no control past the end of a function, and no use of a
  frame pointer after a write to it that the analyser overlooks.
* **Boot archive** (`ByteStrings`, `ArchivePaths`, `ArchiveRecords`, `ArchiveLayout`, `BootArchive`, `ArchiveBuilder`).
  Writer and reader of the cpio "New ASCII Format" subset that boot archives use.
* **Launch policy** (`LittleEndian`, `LaunchPolicy`, `PolicyLayout`). The codec of the variable-length launch policy.
* **Kernel image, memory map and boot record** (`KernelElf`, `MemoryMap`, `BootInfoTypes`, `BootInfo`,
  `BootInfoMeaning`).
* **Device coordinator** (`DeviceCoordinator`, `CoordinatorRuns`). The publication state machine and all its runs.
* **Primordial bootstrap** (`Bootstrap`). The effects of one bootstrap transaction against a platform that answers
  every call as it likes.

The main results are:

1. Populating a fresh table from any finalised 4 KiB plan succeeds exactly when every physical page can be encoded,
   and then uses exactly the number of tables the planner computed (`Population.PopulatePageTable`,
   `TableCount.CountAgrees`).
2. For arbitrary page contents, attestation accepts exactly the tables that form a tree holding the plan's leaves, and
   then `translate` agrees with the plan at an address exactly when the plan's page fits the physical address width
   there; the frames it reports are those that a walk to the temporary page visits (`Attestation.Attest`). A populated
   table is always attested (`Attestation.PopulateAndAttest`).
3. The self-mapping loop returns the least table count that covers itself, or proves that none exists within the
   capacity; its "regressed" and "did not converge" errors cannot occur (`Transition.FinalizeTransition`).
4. The preflight accepts exactly the inputs whose mappings have a disjoint arrangement with room for its tables. The plan
   then maps an address exactly where, and with the permissions with which, the input asks for it
   (`Transition.PreflightTransition`). From planning to attestation together: the finished table translates every
   address exactly as the input asks, and its own frames as writable data (`Handover.PrepareTransition`).
5. A run of the machine is within the bound the stack analyser reports until it has fallen off the end of a function or
   has used a frame pointer that an overlooked write destroyed (`StackBounds.RunsAreBounded`). All runs of a proved
   program stay in it and within the bound exactly when its control flow, read off the code, does neither of the two
   (`StackEscapes.StaysExactly`). A program is accepted exactly when nothing is wrong with its code, as the code and the
   machine define it, and the reported maximum is the greatest sum along its calls (`StackFaults.ProveExactly`).
6. An archive is accepted exactly when the files it is read as lie in it, field by field at the offsets of the format;
   building and reading undo each other, byte for byte except for the letter case of the 104 digits in each record header
   (`BootArchive.AcceptedHolds`, `ArchiveBuilder.BuildRoundTrip`, `ArchiveBuilder.RebuildIsCanonical`).
7. The launch policy parser accepts exactly the encodings of admissible policies (`LaunchPolicy.ParseIsInverse`), which
   are the sensible policies laid out at fixed offsets (`PolicyLayout.PolicyExact`).
8. Memory-map normalisation says of every page exactly what the firmware does, in the one list of maximal runs with that
   meaning (`MemoryMap.RecordTells`, `MemoryMap.CanonicalUnique`).
9. Boot record construction is all-or-nothing, the validators that run on the finished record never refuse it, and its
   reader gets back what the loader put in (`BootInfoBuilder.Build`, `BootInfoBuilder.RevalidationPasses`,
   `BootInfoMeaning.RecordReadsBack`).
10. Over all runs of the coordinator and of the bootstrap transaction: publication safety, freshness, the launch budget,
    the delay before a retry, one close per handle, and READY exactly when everything before it succeeded.

A `u64` is a `Word`, an unbounded integer below 2^64, and every overflow check is written out. Masks and shifts are
written as quotients and remainders; `PageEntry` proves those on page-table words equal to the mask or shift form, and
`MaskForms` those of alignment, canonical halves, archive padding and file types, and flag fields. The flags of boot
modules and the signals of a wait are booleans in the model.
Constants of the boot ABI that are defined outside the repository (table-frame bounds, the temporary address and its
indices, record sizes, alignments) are parameters, constrained by `GoodAbi` and `GoodHandoffAbi`.

## Model

| member | source | states |
|---|---|---|
| `RegionCount.DistinctRegions` | loader/src/transition.rs:1223-1246 | the running count over sorted disjoint ranges is the cardinality of the set of regions they touch, at every coverage size, and never overflows |
| `RegionCount.DistinctRegionsWithAdditions` | loader/src/transition.rs:1160-1221 | the count with the optional identity range and the temporary address is the cardinality of the union of all touched regions, wherever the additions lie |
| `RegionCount.AllRegionsMonotone` | loader/src/transition.rs:1160-1221 | lengthening the identity range never loses a region, so the count is monotone |
| `MappingSet.ValidateMappingSet` | loader/src/transition.rs:1049-1128 | a sorted list is accepted exactly when every mapping is well placed, all are pairwise disjoint in virtual and in physical space, and none backs the framebuffer; each error names an offending mapping |
| `MappingSet.NeighboursSuffice` | loader/src/transition.rs:1049-1128 | comparing only neighbours of a sorted list establishes pairwise disjointness |
| `MappingSet.RejectTemporaryCollision` | loader/src/transition.rs:924-941 | accepted exactly when no mapping touches the 512 GiB slot of the temporary address |
| `Transition.ValidateRetained` | loader/src/transition.rs:1028-1047 | accepts exactly the nonempty ranges that stay retained and do not wrap |
| `Transition.IdentityMapping` | loader/src/transition.rs:994-1021 | the mapping of a retained range is at its own address and covers it with less than a granule of slack on either side |
| `Transition.IdentityExact` | loader/src/transition.rs:994-1021 | a mapping is the result exactly when the range is retained and the mapping is the smallest aligned range around it |
| `Transition.RsdpMapping` | loader/src/transition.rs:759-806 | the mapped pages are the retained allocation itself and contain the whole record |
| `Transition.RsdpExact` | loader/src/transition.rs:759-806 | accepted exactly when the retained pages are the aligned hull of the record and no more pages than the policy allows |
| `Transition.RequestExact` | loader/src/transition.rs:451-529 | a handed range is mapped exactly when it is retained, nonempty and below 2^64, as its whole granules at their own address, read-only data, executable stub or writable stack, with the policy's stack size and alignment and the limit on the ACPI pages |
| `Transition.ArrangementMaps` | loader/src/transition.rs:417-538 | the candidates map an address to a place with a permission exactly when the input asks for it: a granule of a segment's memory to its pages with the segment's permissions, or a granule of a handed range to itself |
| `Transition.ValidateKernelSegment` | loader/src/transition.rs:808-868 | an accepted segment has aligned pages of exactly its mapping length and is never writable and executable |
| `Transition.KernelSegmentExact` | loader/src/transition.rs:808-868 | a segment is accepted exactly when its mapping is the smallest aligned range around its memory, its file bytes lie in the image and its pages are retained, aligned and of that length |
| `Transition.MaterializeFits` | loader/src/transition.rs:434-448 | the copy of an accepted segment lies inside its pages, so the copy's overflow errors cannot occur |
| `Transition.RequiredPageTablePages` | loader/src/transition.rs:1130-1158 | the table count is one root plus the regions touched at the three coverage sizes, and the only error is a granule whose coverage leaves 64 bits |
| `Transition.KernelCandidates` | loader/src/transition.rs:417-449 | succeeds exactly when every segment is backed, and yields their mappings and copies in order |
| `Transition.IdentityCandidates` | loader/src/transition.rs:451-529 | yields the mapping of every requested range, or the error of the first that has none |
| `Transition.SortedIsArranged` | loader/src/transition.rs:531-538 | however ties are broken, the sorted candidates are the only arrangement that can pass validation |
| `Transition.PolicyExact` | loader/src/transition.rs:715-738 | a policy is sound exactly when its granule and alignments are powers of two, the stack is a positive number of granules, and the ABI's frame count and indices fit |
| `Transition.CheckHandoff` | loader/src/transition.rs:550-580 | accepted exactly when the entry is in executable kernel memory, boot record and stack pointer are aligned, and the stub entry lies in the stub |
| `Transition.PreflightTransition` | loader/src/transition.rs:397-603 | succeeds exactly when the policy is sound, the buffers suffice, all segments are backed, the mappings have a disjoint arrangement clear of framebuffer and temporary slot, and its tables fit; the plan then maps exactly what the input asks for, hands over the input's entry, boot record, stack and stub, each mapped for its use, copies each segment's file bytes to where its memory is mapped, and maps no granule that holds a pixel |
| `Transition.RequiredMonotone` | loader/src/transition.rs:1130-1158 | the table count is monotone in the identity length |
| `Transition.IterateTooSmall` | loader/src/transition.rs:627-658 | an iterate of the self-mapping loop never exceeds the answer: everything below it is too small to cover itself |
| `Transition.SolveUsedPages` | loader/src/transition.rs:627-658 | returns the least self-covering count, or reports exceeded capacity exactly when no count within it covers itself |
| `Transition.ValidateStorage` | loader/src/transition.rs:870-888 | accepts exactly nonempty, retained, aligned storage that does not wrap |
| `Transition.ValidateStorageDisjoint` | loader/src/transition.rs:890-922 | accepted exactly when the storage avoids page zero, every mapping and the framebuffer; each error names the conflict |
| `Transition.ValidateTableIdentity` | loader/src/transition.rs:943-972 | accepted exactly when the identity range lies in the lower half and meets no mapping |
| `Transition.FinalizeTransition` | loader/src/transition.rs:605-696 | succeeds exactly when the storage is ready and some least self-covering count keeps its identity range clear of the mappings; the regressed and not-converged errors are unreachable; `Population.TablesAreWritable` says what the identity range permits |
| `PageEntry.AddressMaskForm` | loader/src/uefi_page_table.rs:755-760 | the address mask of a width is its limit minus one with the page offset cleared |
| `PageEntry.AddressFieldMask` | loader/src/uefi_page_table.rs:436-459 | masking an entry extracts its address field as a remainder |
| `PageEntry.FlagMasks` | loader/src/uefi_page_table.rs:436-459 | the present, writable and execute-disable tests are the corresponding binary digits |
| `PageEntry.ValidPageMask` | loader/src/uefi_page_table.rs:735-737 | a page is valid exactly when it is nonzero and the mask removes nothing from it |
| `PageEntry.TableBitsMask` | loader/src/uefi_page_table.rs:617-623 | the allowed-bits test of a table entry, as arithmetic |
| `PageEntry.LeafBitsMask` | loader/src/uefi_page_table.rs:617-623 | the allowed-bits test of a leaf entry, as arithmetic |
| `PageEntry.LeafEntryMask` | loader/src/uefi_page_table.rs:687-696 | building a leaf by adding flags equals building it by disjunction |
| `PageEntry.IndexMask` | loader/src/uefi_page_table.rs:762-769 | nine masked bits are a remainder by 512 |
| `PageEntry.SlotMask` | loader/src/transition.rs:924-941 | clearing the low 39 bits rounds down to a slot |
| `PageEntry.PrefixForm` | loader/src/uefi_page_table.rs:347-348 | shifting an index below a prefix and joining them appends a base-512 digit |
| `PageEntry.CanonicalizeForm` | loader/src/uefi_page_table.rs:727-733 | sign extension of bit 47 is the canonical address of a page number |
| `PageEntry.CanonicalRoundTrip` | loader/src/uefi_page_table.rs:727-733 | page number and canonical address undo each other on canonical addresses |
| `PageEntry.PageRoundTrip` | loader/src/uefi_page_table.rs:727-733 | every 36-bit page number has one canonical, aligned address |
| `PageEntry.IndexDigits` | loader/src/uefi_page_table.rs:762-769 | the four table indices are the base-512 digits of the page number |
| `MaskForms.AlignDownMask` | loader/src/transition.rs:1290-1300 | for every power-of-two alignment, masking rounds down and its complement is the remainder |
| `MaskForms.CanonicalHalfForm` | loader/src/transition.rs:1248-1256 | the canonical half by the upper sixteen bits and bit 47 is the half by address ranges |
| `MaskForms.OffsetJoin` | loader/src/uefi_page_table.rs:453-455 | joining a page address and a masked offset adds the remainder |
| `MaskForms.BothFlags` | loader/src/uefi_page_table.rs:416-417 | the test of both table flags at once, and a table entry built by disjunction |
| `MaskForms.AlignFourMask` | crates/wyrmroot-bootfs/src/archive.rs:280-282 | rounding up to four by mask adds the padding |
| `MaskForms.PadFourMask` | crates/wyrmroot-bootfs/src/builder.rs:284-287 | the padding by masks is the padding by remainder |
| `MaskForms.FileTypeMask` | crates/wyrmroot-bootfs/src/archive.rs:248-250 | the file type test by mask is a test of one octal field |
| `MaskForms.HexDigitMask` | crates/wyrmroot-bootfs/src/builder.rs:289-295 | the digit selected by mask is a remainder by sixteen |
| `MaskForms.SegmentFlagMasks` | loader/src/kernel_elf.rs:379-442 | the tests of program header flags are tests of binary digits |
| `MaskForms.StreamModeMasks` | crates/wyrmroot-bootfs/src/launch_policy.rs:223-243 | the stream modes are told apart and joined by masks as by arithmetic |
| `PageTree.AddChild` | loader/src/uefi_page_table.rs:562-588 | linking a fresh page below an empty entry keeps the used pages a tree with one parent per table |
| `PageTree.SetLeaf` | loader/src/uefi_page_table.rs:538-560 | writing a leaf keeps the tree |
| `PageTree.SetLeafLeaf` | loader/src/uefi_page_table.rs:538-560 | writing a leaf changes the leaf of that page number and of no other |
| `PageWalk.DescendTree` | loader/src/uefi_page_table.rs:436-459 | in a tree, the walk towards a page finds the table of its region at each level, or there is none |
| `PageWalk.TranslateTree` | loader/src/uefi_page_table.rs:436-459 | in a tree, translation is a lookup of the page's leaf, and nothing off the canonical range |
| `PageWalk.LeafRoundTrip` | loader/src/uefi_page_table.rs:687-696 | a leaf translates back to its page and permissions exactly when the page is below the width's limit |
| `PageWalk.WidePageIsLost` | loader/src/uefi_page_table.rs:687-696 | a page at 2^63 is not recovered from its leaf |
| `UefiPageTables.UefiPageTable.Create` | loader/src/uefi_page_table.rs:217-254 | succeeds exactly for zeroed storage of the ABI's capacity whose first and last page are encodable |
| `UefiPageTables.UefiPageTable.TranslateAddress` | loader/src/uefi_page_table.rs:436-459 | the four-step loop computes the translation function on arbitrary page contents |
| `UefiPageTables.UefiPageTable.ChildTable` | loader/src/uefi_page_table.rs:562-588 | finds or links the table below an entry, adding exactly one region to the tree, or reports exhaustion without a change |
| `UefiPageTables.UefiPageTable.MapPage` | loader/src/uefi_page_table.rs:538-560 | on success one leaf appears and no other changes; on failure no leaf changes, and duplicate, conflict and exhaustion are told apart exactly |
| `UefiPageTables.UefiPageTable.PutLeaf` | loader/src/uefi_page_table.rs:549-560 | writes only an empty leaf; otherwise says whether the same or another leaf is there |
| `UefiPageTables.UefiPageTable.MapRange` | loader/src/uefi_page_table.rs:524-536 | maps consecutive pages one by one; success adds exactly that range's leaves |
| `UefiPageTables.UefiPageTable.MapPages` | loader/src/uefi_page_table.rs:485-536 | a failed check changes nothing; otherwise the outcome is that of mapping the range page by page |
| `UefiPageTables.UefiPageTable.Map` | loader/src/uefi_page_table.rs:674-684 | refuses every mapping until page zero is guarded |
| `UefiPageTables.UefiPageTable.LeavePageZeroUnmapped` | loader/src/uefi_page_table.rs:629-638 | guards page zero exactly when one page is asked for and the first root entry is empty |
| `UefiPageTables.UefiPageTable.ReserveTemporaryMapping` | loader/src/uefi_page_table.rs:640-672 | links the tables towards the temporary page and leaves its leaf empty, once; every refusal is justified |
| `PlanImage.LeavesTranslate` | loader/src/uefi_page_table.rs:698-713 | the leaves of a plan translate each canonical address as the mapping list does |
| `TableCount.CountAgrees` | loader/src/transition.rs:1130-1158 | the planner's arithmetic count is the number of distinct tables on the index paths of all planned pages and of the temporary page |
| `Population.PlanCount` | loader/src/transition.rs:605-696 | a finalised plan's table count is that of its own tables, identity range included |
| `Population.PopulatePageTable` | loader/src/transition.rs:1334-1361 | succeeds exactly when the granule is 4096 and every physical page is encodable, and then consumes exactly the planned number of tables and holds exactly the plan's leaves |
| `Population.PopulatedTranslates` | loader/src/transition.rs:1334-1361 | after population, translation at every address equals the mapping list with the table identity range |
| `Population.PlanIsHardened` | loader/src/transition.rs:605-696 | a plan translates nothing to writable and executable memory, and neither page zero nor the temporary page |
| `Population.TablesAreWritable` | loader/src/transition.rs:659-673 | a finalised plan translates every address of its table frames to itself, writable and not executable |
| `GraphWalk.WalkIsTree` | loader/src/uefi_page_table.rs:323-384 | a completed walk of arbitrary contents has found a tree |
| `GraphWalk.SeenIsPlan` | loader/src/uefi_page_table.rs:369-388 | expected leaves in equal number are all the leaves: the pages seen are exactly the planned ones |
| `GraphWalk.CountIsPages` | loader/src/uefi_page_table.rs:715-725 | the expected total is the number of distinct planned pages, without overflow |
| `GraphWalk.ExpectedIsLeaf` | loader/src/uefi_page_table.rs:698-713 | the leaf computed for an address is the plan's leaf of its page, or nothing when no mapping covers it |
| `Attestation.ValidateTemporaryPath` | loader/src/uefi_page_table.rs:400-434 | accepted exactly when the recorded path is linked from the root along the reserved indices and its leaf is empty |
| `Attestation.WalkGraph` | loader/src/uefi_page_table.rs:323-381 | the depth-first walk terminates, never overruns its stack, and refuses no table that holds the plan |
| `Attestation.CertifyGraph` | loader/src/uefi_page_table.rs:323-388 | accepted exactly when the used pages form a tree whose leaves are the plan's |
| `Attestation.ValidateGraph` | loader/src/uefi_page_table.rs:284-398 | for arbitrary contents, accepted exactly when the table holds the plan, has its table count, zero unused pages and the temporary path; reports the path's frames |
| `Attestation.CertifiedTranslates` | loader/src/uefi_page_table.rs:436-459 | in a certified table, translation at an address equals the plan exactly when the planned page fits the width |
| `Attestation.FrameExact` | loader/src/uefi_page_table.rs:400-434 | a frame is the one that a walk towards a page visits at a depth exactly when its table holds the page's region at that level |
| `Attestation.Attest` | loader/src/uefi_page_table.rs:266-282 | acceptance also requires the plan's own storage; the evidence holds the root, the plan's table count, the width and, in order, the frames that a walk to the temporary page visits, and the translation of every address is fixed |
| `Attestation.PopulatedIsAttestable` | loader/src/uefi_page_table.rs:266-398 | a populated table is one that attestation must accept |
| `Attestation.PopulateAndAttest` | loader/src/transition.rs:1334-1361 | population succeeds exactly for encodable 4 KiB plans, attestation always succeeds after it with that evidence, and the table then translates every address by the plan |
| `Handover.PlanMeans` | loader/src/transition.rs:605-696 | a finalised plan translates an address exactly as the input asks, or as a writable table frame at its own address |
| `Handover.PrepareTransition` | loader/src/uefi_app.rs:1985-2052 | planning, finalising, encoding and attesting in a row: on success the words of the table translate every address exactly as the input asks, the handed values and copies are the input's, and attestation never stops it |
| `WideTwin.TwinIsAttestable` | loader/src/uefi_page_table.rs:284-398 | a table that attestation must accept for a plan is also one it must accept for the plan's wide twin, which moves one read-only mapping up by 2^63 and makes it executable |
| `WideTwin.AttestTwin` | loader/src/uefi_page_table.rs:687-713 | a table populated from a plan is attested against the twin, and translates the moved mapping's address by the plan and not by the twin |
| `WideTwin.SmallPlanReady` | loader/src/uefi_page_table.rs:687-713 | such a plan exists: one finalised mapping of one page, encodable at every width from 21 bits |
| `StackCode.MemoryPeak` | tools/wyrmsh-native-stack.py:378-387 | the peak is the greatest of the depth and the reaches of the resolved operands |
| `StackCode.ProbeTotal` | tools/wyrmsh-native-stack.py:390-422 | a branch is recognised exactly when it closes the six-instruction probe loop |
| `StackLocal.PathIsRecorded` | tools/wyrmsh-native-stack.py:498-587 | along every control-flow path of any length, the state is the one recorded for the instruction |
| `StackLocal.ConsistentIsExact` | tools/wyrmsh-native-stack.py:498-587 | a closed table of states means that no reachable instruction is rejected and all paths agree |
| `StackLocal.PathReturnsBalanced` | tools/wyrmsh-native-stack.py:498-587 | every return on every path is at depth zero |
| `StackLocal.LocalAnalysis` | tools/wyrmsh-native-stack.py:498-587 | the worklist ends with exactly the reachable states and their peak and edges, or with an error that some path justifies; `StackFaults.RejectionExact` and `StackFaults.ReportExact` tell states, errors and report from the code |
| `StackLocal.AnalysedIsNotRejected` | tools/wyrmsh-native-stack.py:498-587 | a function that is analysed has no justified error, so success and failure exclude each other |
| `StackLocal.AnalysisIsDetermined` | tools/wyrmsh-native-stack.py:498-587 | the worklist's order does not matter: states, peak, depth and edges are determined by the function |
| `StackProve.Prover.Visit` | tools/wyrmsh-native-stack.py:595-635 | memoised totals stay right, the chain of visited functions is restored, and an error refutes the program |
| `StackProve.Prover.VisitEdges` | tools/wyrmsh-native-stack.py:605-631 | the total is the maximum over the edges with a chain that attains it |
| `StackProve.ChainBounded` | tools/wyrmsh-native-stack.py:595-635 | no call chain of any length sums to more than the total of its first function |
| `StackProve.ChainDescends` | tools/wyrmsh-native-stack.py:595-635 | call chains strictly descend in rank, so the accepted call graph has no cycle |
| `StackProve.RootIsNoTarget` | tools/wyrmsh-native-stack.py:590-662 | no reachable function calls the root |
| `StackProve.Prove` | tools/wyrmsh-native-stack.py:590-662 | the witness chain sums to exactly the reported maximum, no chain exceeds it, the listed functions are exactly the reachable ones, and every failure is refuted by a cycle, a chain over the limit or a rejected function; `StackFaults.ProveExactly` tells both outcomes from the code |
| `StackProve.EstablishedIsNotRefuted` | tools/wyrmsh-native-stack.py:590-662 | an accepted program within the limit has no refutation |
| `StackMachine.EffectSound` | tools/wyrmsh-native-stack.py:425-495 | an accepted effect is what the instruction does to the stack pointer, for every instruction; only `leave` and `mov %rbp, %rsp` need the recorded frame pointer to be right |
| `StackMachine.RbpSound` | tools/wyrmsh-native-stack.py:425-495 | the recorded frame pointer stays right over every instruction but an overlooked write |
| `StackMachine.ProbeCloses` | tools/wyrmsh-native-stack.py:390-422 | a probe loop leaves having allocated exactly its declared total, and each turn keeps within it |
| `StackMachine.HereBounded` | tools/wyrmsh-native-stack.py:498-587 | wherever control is in a function, also inside a probe loop, the depth is at most its peak |
| `StackMachine.StepSafe` | tools/wyrmsh-native-stack.py:425-587 | every machine step, including calls and returns, keeps the depth that the records say, whatever overlooked writes did to the frame pointer, provided it is right where the step loads the stack pointer from it; a step leads out of the program exactly past the last instruction of a function |
| `StackBounds.StepTrusted` | tools/wyrmsh-native-stack.py:425-587 | every step keeps the frame pointer of the running function and of every suspended caller right, unless an overlooked write reaches that place by the code |
| `StackBounds.RunSafe` | tools/wyrmsh-native-stack.py:590-662 | every state of every run is safe, or the run has fallen off the end of a function or used a frame pointer that an overlooked write reaches |
| `StackBounds.RunsAreBounded` | tools/wyrmsh-native-stack.py:590-662 | until one of these two happens, no run from the root is deeper than the reported maximum, at instructions, calls and every operand whose base the analysis resolves, frame-pointer operands included |
| `StackEnds.StepAlive` | tools/wyrmsh-native-stack.py:527-571 | every step that stays in the program follows the control flow read off the code, where a call is passed only if its callee can come back |
| `StackEnds.RunAlive` | tools/wyrmsh-native-stack.py:527-571 | every state of every run is at an instruction that this control flow reaches |
| `StackEscapes.ProbeSteps` | tools/wyrmsh-native-stack.py:390-422 | a running probe loop comes to its end |
| `StackEscapes.FlowIsRun` | tools/wyrmsh-native-stack.py:527-571 | where only probe loops compare the stack pointer, control that gets to an instruction by the code gets there in a run, in the same activation |
| `StackEscapes.ComeBackIsRun` | tools/wyrmsh-native-stack.py:527-571 | likewise, a function that can come back does come back to its caller in a run, tail jumps included |
| `StackEscapes.StainIsRun` | tools/wyrmsh-native-stack.py:487-492 | control that gets by the code from an overlooked write to an instruction gets there in a run with any chosen value below the bound in the frame pointer, or some run breaks the bound before |
| `StackEscapes.LooseIsSeen` | tools/wyrmsh-native-stack.py:487-492 | if the instruction there uses the frame pointer, some run breaks the bound |
| `StackEscapes.BoundIsSound` | tools/wyrmsh-native-stack.py:590-662 | no run of a proved program that is sealed and unspoiled leaves the program or exceeds the reported maximum |
| `StackEscapes.OpenEndIsLeft` | tools/wyrmsh-native-stack.py:527-562 | a proved program that is not sealed has a run that leaves it |
| `StackEscapes.SpoiledIsSeen` | tools/wyrmsh-native-stack.py:487-492 | a proved program that is not unspoiled has a run that breaks its bound or leaves it |
| `StackEscapes.StaysExactly` | tools/wyrmsh-native-stack.py:498-662 | a proved program stays in itself and within its bound on every run exactly when it is sealed and unspoiled |
| `StackEscapes.NoSpoilKeeps` | tools/wyrmsh-native-stack.py:487-492 | a program without overlooked writes is unspoiled |
| `StackEscapes.PlainEndsSeal` | tools/wyrmsh-native-stack.py:527-571 | functions that all end in a jump, a return or a halt seal the program |
| `StackEscapes.OpenEndedIsProved` | tools/wyrmsh-native-stack.py:527-533 | a program whose entry function ends in its call is accepted with a bound of eight bytes, and nothing refutes it |
| `StackEscapes.OpenEndedIsLeft` | tools/wyrmsh-native-stack.py:527-533 | one of that program's runs leaves it |
| `StackEscapes.SpoiledIsProved` | tools/wyrmsh-native-stack.py:425-495 | a function that sets up a frame, clears `%ebp` and ends in `leave` and `ret` is accepted with a bound of 24 bytes, and nothing refutes it |
| `StackEscapes.SpoiledIsLeft` | tools/wyrmsh-native-stack.py:487-492 | that program is sealed and not unspoiled, and one of its runs leaves it |
| `StackEscapes.ProveSound` | tools/wyrmsh-native-stack.py:590-662 | when the tool returns, the bound holds of every run until it leaves the program or uses a spoiled frame pointer, of whole runs if the program is sealed and unspoiled, and otherwise some run breaks it; when it fails, the failure is justified |
| `StackFaults.EffectExact` | tools/wyrmsh-native-stack.py:425-495 | an effect is refused exactly when the instruction is not decoded, realigns the stack outside `_start` at depth zero, loads `rsp` from an unrecorded `rbp`, or puts `rsp` above the entry in the machine; the error says which |
| `StackFaults.BecomesExact` | tools/wyrmsh-native-stack.py:425-495 | an accepted effect is the one state that agrees with the machine on every execution, with `rbp` on record from a copy of `rsp` until an instruction names it |
| `StackFaults.ExamineStops` | tools/wyrmsh-native-stack.py:516-571 | the analysis stops at an instruction exactly for such an effect, for a target that is not there, a tail jump or return at the wrong depth, or control past the end |
| `StackFaults.ExamineLeads` | tools/wyrmsh-native-stack.py:527-571 | where it does not stop, it goes on exactly to the places where control goes, in the state the machine is in |
| `StackFaults.ExamineEnters` | tools/wyrmsh-native-stack.py:527-562 | it finds exactly the functions that the instruction calls or jumps to |
| `StackFaults.RejectionExact` | tools/wyrmsh-native-stack.py:498-587 | a function is rejected exactly for what is wrong with its code: a fault on some way of control, ways that disagree on the stack, a frame size that no way takes, or no code |
| `StackFaults.ReportExact` | tools/wyrmsh-native-stack.py:509-587 | an analysed function's peak is the greatest depth that an instruction or operand touches on any way, and its edges are exactly those entered |
| `StackFaults.CostIsDistance` | tools/wyrmsh-native-stack.py:605-631 | what an edge costs is how far the machine's entry moves when it is taken |
| `StackFaults.RefusalExplained` | tools/wyrmsh-native-stack.py:590-662 | whatever is refused is wrong with the code: a cycle of entries, a chain of calls over the limit, or a wrong function that the root leads to |
| `StackFaults.AcceptedIsRight` | tools/wyrmsh-native-stack.py:590-662 | nothing of this kind is wrong with an accepted program |
| `StackFaults.ProveExactly` | tools/wyrmsh-native-stack.py:590-662 | a program is accepted exactly when nothing is wrong with its code; the maximum is attained by the witness and by no chain of calls exceeded, and the listed functions are exactly those entered |
| `ByteStrings.HexField` | crates/wyrmroot-bootfs/src/archive.rs:284-299 | the accumulating loop computes the number a field spells, within 32 bits |
| `ByteStrings.WriteHex` | crates/wyrmroot-bootfs/src/builder.rs:289-295 | fills exactly eight bytes with the lower-case spelling |
| `ByteStrings.HexExact` | crates/wyrmroot-bootfs/src/archive.rs:284-299 | a field spells a number exactly when it is that number's spelling up to letter case |
| `ByteStrings.LessTotal` | crates/wyrmroot-bootfs/src/archive.rs:14-52 | byte order is a strict total order |
| `ArchivePaths.ValidateComponent` | crates/wyrmroot-bootfs/src/path.rs:92-99 | accepts exactly the components that are not empty, `.` or `..`, and says which it was |
| `ArchivePaths.ValidateArchivePath` | crates/wyrmroot-bootfs/src/path.rs:62-90 | the scan accepts exactly the admitted names; each error is explained by the name |
| `ArchivePaths.ExplainedIsInvalid` | crates/wyrmroot-bootfs/src/path.rs:62-90 | an explained error refutes admission |
| `ArchiveRecords.ParseExact` | crates/wyrmroot-bootfs/src/archive.rs:137-268 | a record is read at a boundary exactly where its own text is spelled there: magic, thirteen fields, name, terminator, data and zero padding |
| `ArchiveRecords.ParsedIsSpelled` | crates/wyrmroot-bootfs/src/archive.rs:137-268 | whatever the parser reads is a well-formed record spelled in the bytes |
| `ArchiveRecords.SpelledIsParsed` | crates/wyrmroot-bootfs/src/archive.rs:137-268 | every well-formed record that is spelled is read |
| `ArchiveLayout.ModeExact` | crates/wyrmroot-bootfs/src/archive.rs:248-258 | the two modes are the words of a regular file that everyone may read, nobody may write, and everyone or nobody may run, bit by bit |
| `ArchiveLayout.RecordExact` | crates/wyrmroot-bootfs/src/archive.rs:137-268 | a record's text is magic, thirteen numbers, name and data at the fixed offsets of the format, digit by digit |
| `ArchiveLayout.FileExact` | crates/wyrmroot-bootfs/src/archive.rs:137-268 | a file's record is spelled exactly where a record with its mode bits, sizes, name and data lies |
| `BootArchive.OpenArchive` | crates/wyrmroot-bootfs/src/archive.rs:14-52 | accepts exactly the archives in which some admitted list of files lies; the loop returns the verdict's first error |
| `BootArchive.AcceptedExactly` | crates/wyrmroot-bootfs/src/archive.rs:14-52 | an archive is accepted with given entries exactly when it is within the size limit and spells those entries, admitted and in ascending order, followed by the trailer |
| `BootArchive.AcceptedHolds` | crates/wyrmroot-bootfs/src/archive.rs:14-52 | an archive is read as a list of files exactly when it is within the size limit, the list is admitted, and each file and the trailer lie in it one after the other, executable exactly by the execute bits of the mode |
| `BootArchive.AcceptedRemains` | crates/wyrmroot-bootfs/src/archive.rs:54-60 | iteration over an accepted archive starts with all its entries still to come |
| `BootArchive.Entries.Next` | crates/wyrmroot-bootfs/src/archive.rs:107-124 | iteration yields the entries in order, all of them, and then nothing |
| `BootArchive.Lookup` | crates/wyrmroot-bootfs/src/archive.rs:62-71 | finds the one entry with the name, reports absence exactly when there is none, and refuses exactly the inadmissible names |
| `BootArchive.TextIsAccepted` | crates/wyrmroot-bootfs/src/archive.rs:14-52 | the canonical text of an admitted list is read back as that list |
| `BootArchive.AcceptedIsCanonical` | crates/wyrmroot-bootfs/src/archive.rs:137-299 | an accepted archive equals its canonical text byte for byte, except for the letter case of the digits of record headers |
| `BootArchive.EqualEntriesEqualBytes` | crates/wyrmroot-bootfs/src/archive.rs:137-299 | accepted archives with equal entries differ only in the letter case of the digits of record headers |
| `ArchiveBuilder.CheckedSize` | crates/wyrmroot-bootfs/src/builder.rs:196-212 | the computed size is the length of the record's text; without one the text could not fit an archive |
| `ArchiveBuilder.WriteRecord` | crates/wyrmroot-bootfs/src/builder.rs:214-252 | appends exactly the record's text and ends on a boundary again |
| `ArchiveBuilder.WriteHeader` | crates/wyrmroot-bootfs/src/builder.rs:229-243 | the header array is the magic and the thirteen spelled fields |
| `ArchiveBuilder.CheckTotal` | crates/wyrmroot-bootfs/src/builder.rs:73-84 | accepted exactly when no two names are equal and the whole archive fits the limit |
| `ArchiveBuilder.Emit` | crates/wyrmroot-bootfs/src/builder.rs:86-101 | the output is the canonical text of the sorted entries |
| `ArchiveBuilder.Builder.Add` | crates/wyrmroot-bootfs/src/builder.rs:47-64 | accepts exactly the admitted names below the record limit, appends the entry, and otherwise changes nothing |
| `ArchiveBuilder.Builder.Build` | crates/wyrmroot-bootfs/src/builder.rs:67-101 | succeeds exactly when the added files have an ascending arrangement that fits, and emits its canonical text, in which each file lies with its mode bits |
| `ArchiveBuilder.OrderIsIrrelevant` | crates/wyrmroot-bootfs/src/builder.rs:67-101 | files added in any order give the same bytes |
| `ArchiveBuilder.BuildRoundTrip` | crates/wyrmroot-bootfs/src/builder.rs:67-101 | a built archive is accepted and read back as exactly the added files in byte order |
| `ArchiveBuilder.RebuildIsCanonical` | crates/wyrmroot-bootfs/src/builder.rs:67-101 | rebuilding from the entries of any accepted archive succeeds and reproduces it except for the letter case of the digits of record headers |
| `LittleEndian.NumberExact` | crates/wyrmroot-bootfs/src/launch_policy.rs:409-448 | reading and writing a fixed-width number undo each other |
| `LaunchPolicy.EntryExact` | crates/wyrmroot-bootfs/src/launch_policy.rs:182-245 | an entry is read exactly where its record and its path are spelled and it is admissible |
| `LaunchPolicy.ReadExact` | crates/wyrmroot-bootfs/src/launch_policy.rs:129-147 | the records are read as given entries exactly when records and packed paths are their texts, ascending and without gaps |
| `LaunchPolicy.Parse` | crates/wyrmroot-bootfs/src/launch_policy.rs:70-149 | the loop over `previous` and the expected offset computes the verdict that `ParseIsInverse` characterises |
| `LaunchPolicy.ParseIsInverse` | crates/wyrmroot-bootfs/src/launch_policy.rs:70-149 | bytes parse to a policy exactly when the policy is admissible and the bytes are its encoding |
| `LaunchPolicy.EncodingIsUnique` | crates/wyrmroot-bootfs/src/launch_policy.rs:70-149 | accepted byte strings are equal exactly when their policies are |
| `LaunchPolicy.Encode` | crates/wyrmroot-bootfs/src/launch_policy.rs:308-392 | succeeds exactly when the policy is admissible and fits, writes its encoding and nothing behind it, and the result parses back |
| `LaunchPolicy.Find` | crates/wyrmroot-bootfs/src/launch_policy.rs:174-180 | returns the unique entry of a path, or nothing exactly when there is none |
| `PolicyLayout.LaunchableExact` | crates/wyrmroot-bootfs/src/launch_policy.rs:203-243 | an entry is admitted exactly when its path is plain, its profile may start it under the minor version, its stream modes are allowed and its digest is not zero |
| `PolicyLayout.PolicyExact` | crates/wyrmroot-bootfs/src/launch_policy.rs:70-149 | bytes are read as a policy exactly when the policy is sensible and each of its fields lies at its offset, byte by byte |
| `PolicyLayout.EncodingExact` | crates/wyrmroot-bootfs/src/launch_policy.rs:308-392 | the policies that can be encoded are the sensible ones, and the encoding lays them out |
| `MemoryMap.NormalizeAndCoalesce` | loader/src/memory_map.rs:50-119 | on success the buffer holds the maximal runs of a valid input and lists every page exactly as the firmware describes it; on failure the error is that of the first descriptor at which it must stop |
| `MemoryMap.MeaningKept` | loader/src/memory_map.rs:50-131 | every page keeps its normalised kind and attributes, and no page is added |
| `MemoryMap.RecordTells` | loader/src/memory_map.rs:50-131 | a page is listed with a kind and attributes exactly when a descriptor of one of that kind's firmware sources covers it with these attributes |
| `MemoryMap.RunsCanonical` | loader/src/memory_map.rs:50-119 | the output is ascending, disjoint and has no two mergeable neighbours |
| `MemoryMap.CanonicalUnique` | loader/src/memory_map.rs:50-119 | two canonical lists with the same meaning are equal |
| `MemoryMap.EquivalentMapsCoincide` | loader/src/memory_map.rs:50-119 | inputs that describe the same pages give identical output |
| `MemoryMap.StopsExactly` | loader/src/memory_map.rs:50-119 | a refused input is invalid or needs more runs than the buffer holds; on a valid input the only error is an exhausted output |
| `MemoryMap.ValidateMemoryMap` | loader/src/boot_info.rs:636-658 | accepts exactly the maps the boot record may carry |
| `MemoryMap.RunsPassValidation` | loader/src/boot_info.rs:636-658 | every normalised map passes the boot record's validation |
| `KernelElf.HeaderExact` | loader/src/kernel_elf.rs:282-352 | a file header is read exactly as its bytes lay it out: class, order, type, machine, version, flags, sizes, entry and table |
| `KernelElf.SegmentExact` | loader/src/kernel_elf.rs:365-445 | a program header is read as a segment exactly when its fields spell the segment: it loads memory, its flags are allowed and not writable and executable, its bytes lie in the image, its alignment is a power of two that fits address and offset, and its page-rounded range is the smallest one and lies in the window |
| `KernelElf.PlannableExactly` | loader/src/kernel_elf.rs:169-227 | an image is plannable exactly when it is laid out with a header and loadable segments: the table fits, each program header spells one segment, these are pairwise apart, one starts at the link base, and the entry lies in executable file data |
| `KernelElf.NeighboursDecide` | loader/src/kernel_elf.rs:447-481 | for sorted segments, neighbouring page ranges are in order exactly when all are pairwise apart |
| `KernelElf.ValidateNonOverlapping` | loader/src/kernel_elf.rs:447-481 | accepts exactly the sorted segments whose page ranges are pairwise apart |
| `KernelElf.Span` | loader/src/kernel_elf.rs:216-226 | the span is the exact hull of the segments |
| `KernelElf.PlanKernelElf` | loader/src/kernel_elf.rs:169-227 | succeeds exactly for plannable images; the plan is a sorted permutation of all program headers, pairwise apart, with exact span and an entry in executable file data |
| `KernelElf.PlannerAccepts` | loader/src/transition.rs:808-868 | every planned segment, on retained aligned pages of its mapping length, passes the transition planner's separate check |
| `BootInfoTypes.CheckRetained` | loader/src/boot_info.rs:841-872 | accepts exactly retained, nonzero, page-aligned allocations of the minimum length that do not wrap |
| `BootInfoTypes.CheckTableStorage` | loader/src/boot_info.rs:874-889 | accepts exactly storage that can hold the table, aligned for its records |
| `BootInfoTypes.CheckTableReference` | loader/src/boot_info.rs:891-912 | accepts exactly nonempty, aligned references that do not wrap |
| `BootInfoTypes.FramebufferRoundTrip` | loader/src/boot_info.rs:568-634 | a framebuffer is recovered from its record, format codes and masks included |
| `BootInfoBuilder.CheckBacked` | loader/src/boot_info.rs:972-1028 | the scan over the sorted map decides whether one range of the wanted kind contains the area |
| `BootInfoBuilder.ValidateModules` | loader/src/boot_info.rs:660-763 | accepts exactly complete, well-formed modules in the required order whose page-rounded ranges are pairwise disjoint |
| `BootInfoBuilder.ValidateDistinct` | loader/src/boot_info.rs:478-552 | accepts exactly when all allocations are pairwise disjoint and disjoint from every module |
| `BootInfoBuilder.CheckInput` | loader/src/boot_info.rs:225-290 | the checks together accept exactly the acceptable inputs |
| `BootInfoBuilder.AcceptableIsSafe` | loader/src/boot_info.rs:225-308 | in an accepted input all handoff areas and page-rounded modules are pairwise disjoint and lie in reserved memory |
| `BootInfoBuilder.RevalidationPasses` | loader/src/boot_info.rs:311-393 | the validators run on the finished record, headers, flag words, framebuffer and entropy records included, cannot fail after the earlier checks |
| `BootInfoBuilder.Build` | loader/src/boot_info.rs:225-308 | succeeds exactly for acceptable inputs and publishes record and modules; on any error neither output is modified |
| `BootInfoMeaning.SharedExact` | loader/src/boot_info.rs:478-552 | comparing areas decides whether any two parts of a handoff share a byte, modules taken with their whole pages |
| `BootInfoMeaning.ModuleExact` | loader/src/boot_info.rs:660-763 | a module is accepted exactly when it is well formed, read-only unless it is the bootstrap, and, for the paging handoff, a whole number of frames within the limits |
| `BootInfoMeaning.AcceptedMeans` | loader/src/boot_info.rs:225-308 | in an accepted handoff no byte belongs to two parts, every byte of every part is listed as reserved, the pixels lie in one reserved or device range, and the modules are complete and in order |
| `BootInfoMeaning.RecordReadsBack` | loader/src/boot_info.rs:225-308 | reading the record gives back the tables, root pointer, command line, framebuffer and entropy that the loader put in, absent ones as absent |
| `BootInfoMeaning.PixelInside` | loader/src/boot_info.rs:568-634 | every pixel of an accepted framebuffer lies inside its memory |
| `DeviceCoordinator.Create` | crates/wyrmroot-device-proto/src/coordinator.rs:119-141 | refuses exactly the zero supervisor generation; a new coordinator is in the initial state |
| `DeviceCoordinator.Coordinator.DoIntakeManifest` | crates/wyrmroot-device-proto/src/coordinator.rs:171-182 | performs the manifest step and keeps the invariant |
| `DeviceCoordinator.Coordinator.DoRegistryReady` | crates/wyrmroot-device-proto/src/coordinator.rs:184-192 | performs the registry step and keeps the invariant |
| `DeviceCoordinator.Coordinator.DoReplaceRegistry` | crates/wyrmroot-device-proto/src/coordinator.rs:196-216 | performs the replacement step and keeps the invariant |
| `DeviceCoordinator.Coordinator.DoAcceptBundle` | crates/wyrmroot-device-proto/src/coordinator.rs:218-233 | performs the bundle step and keeps the invariant |
| `DeviceCoordinator.Coordinator.DoBeginLaunch` | crates/wyrmroot-device-proto/src/coordinator.rs:235-271 | performs the launch step and keeps the invariant |
| `DeviceCoordinator.Coordinator.DoLaunchAccepted` | crates/wyrmroot-device-proto/src/coordinator.rs:273-285 | performs the acceptance step and keeps the invariant |
| `DeviceCoordinator.Coordinator.DoDriverReady` | crates/wyrmroot-device-proto/src/coordinator.rs:287-299 | performs the readiness step and keeps the invariant |
| `DeviceCoordinator.Coordinator.DoPublish` | crates/wyrmroot-device-proto/src/coordinator.rs:301-324 | performs the publication step and keeps the invariant |
| `DeviceCoordinator.Coordinator.DoRetire` | crates/wyrmroot-device-proto/src/coordinator.rs:326-336 | performs the retirement step and keeps the invariant |
| `DeviceCoordinator.Coordinator.DoCompleteRetireCleanup` | crates/wyrmroot-device-proto/src/coordinator.rs:340-348 | performs the end of retirement and keeps the invariant |
| `DeviceCoordinator.Coordinator.DoDriverFailed` | crates/wyrmroot-device-proto/src/coordinator.rs:350-364 | performs the failure step and keeps the invariant |
| `DeviceCoordinator.Coordinator.DoCleanupFailed` | crates/wyrmroot-device-proto/src/coordinator.rs:368-374 | performs the cleanup failure and keeps the invariant |
| `DeviceCoordinator.Coordinator.DoCompleteFailureCleanup` | crates/wyrmroot-device-proto/src/coordinator.rs:376-394 | performs the end of failure cleanup, time overflow included, and keeps the invariant |
| `DeviceCoordinator.Coordinator.DoBackoffElapsed` | crates/wyrmroot-device-proto/src/coordinator.rs:396-409 | performs the end of backoff and keeps the invariant |
| `DeviceCoordinator.Coordinator.Do` | crates/wyrmroot-device-proto/src/coordinator.rs:171-409 | any call performs its step; a refused one leaves the object unchanged, except that a time overflow has dropped the attempt |
| `DeviceCoordinator.Coordinator.Perform` | crates/wyrmroot-device-proto/src/coordinator.rs:171-409 | after any sequence of calls on a new coordinator the object is in the state the run theorems speak of, and each call was answered accordingly |
| `DeviceCoordinator.StepKeeps` | crates/wyrmroot-device-proto/src/coordinator.rs:171-409 | every event, accepted or refused, keeps the invariant |
| `DeviceCoordinator.RunKeeps` | crates/wyrmroot-device-proto/src/coordinator.rs:171-409 | the invariant holds after every run |
| `DeviceCoordinator.UnreachableRefusals` | crates/wyrmroot-device-proto/src/coordinator.rs:235-271 | the exhausted-budget refusal cannot occur, and backoff always has a bundle |
| `DeviceCoordinator.RefusedChangesNothing` | crates/wyrmroot-device-proto/src/coordinator.rs:376-394 | a refused event leaves the state unchanged, except that a time overflow drops the attempt |
| `DeviceCoordinator.RunForward` | crates/wyrmroot-device-proto/src/coordinator.rs:171-409 | counters never go back over any run, and once past registry readiness the registry only advances |
| `DeviceCoordinator.AttemptsAreFresh` | crates/wyrmroot-device-proto/src/coordinator.rs:235-271 | a later launch has strictly larger attempt, session and endpoint identities |
| `DeviceCoordinator.PublishedIncrease` | crates/wyrmroot-device-proto/src/coordinator.rs:301-324 | published generations strictly increase over a run |
| `DeviceCoordinator.BundlesIncrease` | crates/wyrmroot-device-proto/src/coordinator.rs:218-233 | accepted bundle generations strictly increase over a run |
| `DeviceCoordinator.LaunchesBounded` | crates/wyrmroot-device-proto/src/coordinator.rs:235-271 | each accepted bundle gets at most four launches, counted over the run |
| `DeviceCoordinator.PublishIsSafe` | crates/wyrmroot-device-proto/src/coordinator.rs:301-324 | every successful publication names an attempt that was begun, accepted and ready in that order with no failure or retirement in between, at the current registry |
| `DeviceCoordinator.PublishedMeans` | crates/wyrmroot-device-proto/src/coordinator.rs:196-324 | after every run, the state is published exactly when generation and endpoint are set, and the endpoint is the current registry's |
| `DeviceCoordinator.FailureIsPermanent` | crates/wyrmroot-device-proto/src/coordinator.rs:350-409 | permanent failure is never left |
| `CoordinatorRuns.RetriesWait` | crates/wyrmroot-device-proto/src/coordinator.rs:376-409 | between the end of a failed driver's cleanup and any later launch, the clock was seen at least 25 ms later |
| `CoordinatorRuns.FailureLeadsOn` | crates/wyrmroot-device-proto/src/coordinator.rs:376-394 | a cleanup ends in permanent failure exactly after the bundle's fourth launch, and otherwise in a backoff that names the next one and its time |
| `CoordinatorRuns.CleanupRefused` | crates/wyrmroot-device-proto/src/coordinator.rs:376-394 | a cleanup is refused for the clock exactly when a retry is due and its time leaves 64 bits |
| `CoordinatorRuns.RetryFollows` | crates/wyrmroot-device-proto/src/coordinator.rs:396-409 | a backoff can be left exactly from its time on, and the same bundle is then launched again |
| `CoordinatorRuns.PlainRunPublishes` | crates/wyrmroot-device-proto/src/coordinator.rs:171-324 | with usable identities, intake, registry, bundle, launch, acceptance, readiness and publication are all accepted and end published at the registry |
| `CoordinatorRuns.RetireLeadsOn` | crates/wyrmroot-device-proto/src/coordinator.rs:326-348 | from any published state, retiring and its cleanup are accepted and lead to waiting for a bundle |
| `CoordinatorRuns.FailureIsRetried` | crates/wyrmroot-device-proto/src/coordinator.rs:350-394 | from any published state within the budget, failing and its cleanup are accepted and lead to a backoff with the same bundle |
| `CoordinatorRuns.ReplacementRepublishes` | crates/wyrmroot-device-proto/src/coordinator.rs:196-324 | from any published state, a newer registry is accepted and the same attempt is published there again |
| `Bootstrap.CleanupLoaded` | bootstrap/src/lib.rs:1572-1599 | a termination exactly when asked, then one close of each child handle whatever fails; it succeeds exactly when all of them did |
| `Bootstrap.CleanupSupervised` | bootstrap/src/lib.rs:1601-1643 | the same, with a failed termination followed by one exit query and forgiven exactly when that sees the exit |
| `Bootstrap.CloseReceived` | bootstrap/src/lib.rs:1652-1665 | attempts every close in order, and succeeds exactly when all did |
| `Bootstrap.ObserveTerminal` | bootstrap/src/wyr0_compat.rs:324-348 | reports no exit exactly when no query observed one |
| `Bootstrap.Operate` | bootstrap/src/wyr0_compat.rs:246-317 | either no child is published, or one cleanup follows whose termination is tried exactly when no exit was observed; each step is tried exactly when the one before it succeeded, success means a successful supervision and both closes, and a failure names the step that failed |
| `Bootstrap.SendReadyAndClose` | bootstrap/src/lib.rs:1378-1393 | the channel is closed only after a sent READY |
| `Bootstrap.RunBootstrap` | bootstrap/src/wyr0_compat.rs:211-322 | for every platform, with its own answers, the trace is a transaction; it gets past receiving exactly when an in-bounds INIT was received, then tries each step exactly when the one before it succeeded, and a failure names the step that failed |
| `Bootstrap.TransactionCounts` | bootstrap/src/wyr0_compat.rs:211-322 | each received handle and both handles of a published child get exactly one close attempt; termination and READY are tried at most once; the channel is closed exactly when READY was sent |
| `Bootstrap.TransactionTerminates` | bootstrap/src/wyr0_compat.rs:290-310 | termination is tried only when nothing before it observed the exit |
| `Bootstrap.ChildIsTerminated` | bootstrap/src/wyr0_compat.rs:258-310 | a published child whose exit is never observed is terminated once |
| `Bootstrap.TransactionReady` | bootstrap/src/wyr0_compat.rs:311-322 | READY comes only after a successful supervision and after each held handle was closed once, successfully |
| `Bootstrap.ReadyIsAttempted` | bootstrap/src/wyr0_compat.rs:311-322 | conversely, READY is attempted whenever supervision succeeded and no such close failed |
| `Bootstrap.CompletedClosesAll` | bootstrap/src/wyr0_compat.rs:211-322 | a completed transaction has sent READY once, terminated nothing and closed everything |

## Findings

| what the code does | shown by | exact condition |
|---|---|---|
| The stack analyser drops the continuation of a call or a conditional branch that ends a function (tools/wyrmsh-native-stack.py:532-533 and 561-562), although it rejects any other instruction that would run off that end. Control goes on past the function and the bound does not cover it. | `StackEscapes.OpenEndedIsProved`, `StackEscapes.OpenEndedIsLeft` | `StackEscapes.StaysExactly`: the program is sealed; `StackEscapes.PlainEndsSeal` is a simple sufficient check |
| The stack analyser forgets the frame pointer only when the last operand is spelled `%rbp` (tools/wyrmsh-native-stack.py:487-492). It overlooks a write to a part of it (`xorl %ebp, %ebp`, `movb %al, %bpl`) or by an exchange, and a later `leave` or frame-pointer operand is then outside the bound. | `StackEscapes.SpoiledIsProved`, `StackEscapes.SpoiledIsLeft` | `StackEscapes.StaysExactly`: the program is also unspoiled, that is, no path from such a write reaches a use of the recorded frame pointer before it is recorded or cleared again; `StackEscapes.NoSpoilKeeps` is a simple sufficient check |
| The planner admits physical pages that the table's address width cannot hold; a table that holds their leaves is attested (loader/src/uefi_page_table.rs:687-713), and `translate` then gives something else than the plan. | `PageWalk.WidePageIsLost`; `WideTwin.AttestTwin` for a whole table, with the plan of `WideTwin.SmallPlanReady` | `Attestation.CertifiedTranslates`: the planned page is below the width's limit |
| The documentation tells callers to treat the outputs as unusable after an error, because the module table may have been copied by then (loader/src/boot_info.rs:7-9); no error can follow that copy, so on any error both outputs are unmodified. | `BootInfoBuilder.Build` | none needed |

## Left out

- Constants of the boot ABI are parameters: at least four table frames, a page-aligned upper-half temporary address outside the last root slot, record sizes and alignments. Nothing is proved about other values.
- Attestation.Attest: is stated for plans with a 4096-byte granule, the only size the encoder can write; a plan page at or above the physical address width is the exact case in which translation differs from the plan.
- UefiPageTables: the physical position of storage never wraps, because the constructor has checked the last page; the size conversions between `usize` and `u64` are not modelled. The canonical-hole test can wrap for a range that ends at 2^64, which the width check refuses as well.
- Attestation: the handoff carrier written from an attestation and its accessors are not part of this model.
- Sorting.Sort: stands for the standard library's unstable sort; only "a sorted permutation" is used, and where ties could matter the arrangement is proved unique.
- StackBounds.RunsAreBounded: assumes what the tool assumes: callees restore `rbp`, recognised probe loops are entered at their first instruction, the root is the only `_start` and starts 16-byte aligned, and return addresses on the stack are intact. Stack addresses are unbounded integers.
- StackCode: instructions are decoded by the tool's reading of their text, which is taken to be right except for writes to `rbp`. Every push and pop moves eight bytes (a two-byte `pushw` does not); a write to `rsp` is the last operand of an instruction that is no comparison (`xadd` with `rsp` first and `cmpxchg` into `rsp` are not so read); `loop`, `xbegin` and a control transfer behind a prefix that is printed as the mnemonic are read as straight-line code.
- StackMachine: indexed memory operands and operands whose base the analysis does not resolve are not bounded, as in the tool. What runs after control has left the decoded program is not modelled.
- StackEscapes.StaysExactly: the direction from "never left" to "sealed" is for programs that compare the stack pointer only inside probe loops. A comparison elsewhere fixes the flag, so the branch after it may go one way only, and which way depends on register values that the code does not show.
- BootInfoMeaning.RecordReadsBack: is stated for record codes that can be told apart, with nonzero flags.
- StackProve: running LLVM, disassembly text, JSON, hashing and the listing of the report are not part of this model; instructions and functions are given decoded.
- ArchiveBuilder.Builder.Build: allocation failures are not modelled, and `usize` overflow cannot occur on inputs that pass the 32-bit and total-size checks.
- ArchivePaths: names are byte strings; the UTF-8 view of a name is not part of this model.
- LaunchPolicy.Encode: writes each record as one block instead of field by field; paths are bytes with the ASCII restriction the codec imposes.
- KernelElf: identification errors carry the offending byte's index rather than one variant per field.
- MemoryMap: the size, version and reserved fields of an input record are one mark saying whether they are well formed; likewise for modules in BootInfoTypes.
- BootInfoBuilder.Build: the module documentation allows the outputs to be modified on error; the code does not modify them, and that is what is proved.
- DeviceCoordinator: registry generations before registry readiness may go back, because that step overwrites an earlier binding without comparing; no monotonicity is claimed there.
- Bootstrap: loading, mapping, relaying and supervision are single answers of the platform; what the loader and the supervisor do inside is not part of this model, nor are exit codes. Encoding READY cannot fail, because the accepted transaction has the fixed identifier 1 and the buffer has the message's size, so it is not a step of its own. A wait that signals an exit without a confirming query is not counted as an observed exit.
- Firmware calls, the assembly handoff, configuration, entry and diagnostics of the loader: input and output, or one-step checks.
- Fixed-size wire codecs, product content lists and the build and measuring tools: would only add easy members.
