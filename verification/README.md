# rv-emu, modelled and verified

rv-emu interprets RV64IMAC machine code for one or more harts. This project models the parts of it where a
fast mechanism stands in for a simpler one, or where several harts or privilege levels share state, and proves
how far the two agree.

- **Address translation.** The 3/4/5-level walk that writes A and D bits back into memory, and in front of it
  the 64-slot hash TLB with mixed page sizes. The walk is compared with the manual's algorithm. The TLB is shown
  to be invisible to whole runs, of one hart and of many over one memory; the exact cases in which a single hit
  differs from a walk are given, each with a run that shows it.
- **PMP.** The raw registers, the expanded table with its short circuit, the test on the two end bytes of an
  access, and lock bits.
- **LR/SC over many harts.** One shared `reservations` array; which SCs succeed, whether an LR reserves what it
  has loaded, and why increment loops lose no update, with page tables and without.
- **The cycle and its front end.** The one-halfword prefetch buffer and the cycle around it, the immediates of the
  32-bit formats, and compressed instructions that run through the 32-bit execution code.
- **Traps and interrupts.** Delegation, the two privilege stacks in `mstatus`, nesting, interrupt choice.
- **RV64I.** What every instruction word computes, against the ISA.

Where the code updates state in place the model has classes with the same routines (`PmpUnit.Unit`,
`TlbUnit.Unit`, `Hart.HartState`, `Prefetch.FrontEnd`, `Core.Core`, `Interrupts.HartState`, and the methods of
`Atomics`). Every routine is tied to a function on values, and the theorems are about those functions. What the
functions themselves compute is stated once more on its own, in `Isa`, `RvcTable`, `SvReference` and the `Meaning`
modules: on instruction words, register values, CSR bits and memory bytes, without the functions' own helpers.

## Files

| file | content |
|---|---|
| Base, BitOps, PhysMem | machine integers; single bits; memory bytes, little-endian reads and writes |
| Pmp, PmpUnit, PmpTheorems, PmpLocks | PMP as functions, in place, the fast checks against the simple ones, locks and syncs over runs |
| PmpMeaning | PMP on the register values: bytes matched, the deciding entry, CSR writes |
| Tlb, TlbUnit, TlbTheorems | the TLB as functions, in place, bookkeeping and search |
| PageWalk, WalkTheorems, SvReference | the walk, what it depends on, the manual's algorithm |
| Mmu, Hart | accesses with and without TLB; `mem.cpp` and `mem.ipp` in place |
| Transparency, TlbExact, TlbWitness | the TLB over whole runs; exactly where a hit differs; runs and states that show it |
| Reservations, Atomics | the LR/SC protocol over many harts; LR and SC in place |
| Harts, LrScTheorems, Counter | many harts with TLBs against many without; where LR and SC go; the shared counter |
| Prefetch, Refetch | `fetch` and its buffer; what a fetch leaves for the next one under translation |
| Cycles, CycleTheorems | the whole cycle; what it does to the buffer |
| Decode, Compressed, Execution, Core, PcParity | formats, RVC, RV64I execution, `decode_exc` in place, parity of pc |
| Isa, IsaTheorems, RvcTable | RV64I as relations on register values; every instruction word meets them; compressed instructions as a table |
| StatusBits, Traps, Interrupts, TrapTheorems | mstatus words, traps as functions, in place, nesting and choice |
| TrapMeaning, CycleMeaning | traps, interrupts and returns by CSR bits; fetch faults, x0, SYSTEM words and traps of a cycle |

## Model

| member | source | states |
|---|---|---|
| PmpUnit.Unit.constructor | cpu.cpp:1360-1380 | after reset entry 0 of the raw registers is a NAPOT region, while the expanded table is still empty: reset does not sync it |
| PmpUnit.Unit.Bounds | mem.cpp:96-118 | the bounds of TOR, NA4 and NAPOT entries, with 64-bit wrap-around: those of `PmpMeaning.BytesExact` |
| PmpUnit.Unit.ChkPmpRange | mem.cpp:83-128 | the loop returns the permissions of the first active entry that holds both end bytes, CROSSES if it holds one, NO_MATCH if no entry does |
| PmpUnit.Unit.ChkPmpRangeExp | mem.cpp:192-211 | the same on the expanded table, behind the short circuit |
| PmpUnit.Unit.ChkPmpExp | mem.cpp:178-191 | the byte-sized check is the range check of a one-byte range, with no possibility of a crossing |
| PmpUnit.Unit.SyncExpPmp | mem.cpp:130-176 | the loop leaves every entry expanded, the window bounds at the least and greatest bound of the restricted entries, and the flag set exactly if a whole-space RWX entry exists |
| PmpUnit.Unit.PmpcfgRw | cpu.cpp:1478-1516 | an even CSR writes its eight unlocked entries, locks addresses and syncs; an odd one changes nothing and is illegal |
| PmpUnit.Unit.PmpaddrRw | cpu.cpp:1115-1146 | a locked address register is not written; the expanded table is left as it was |
| Pmp.SyncIsSynced | mem.cpp:130-176 | after a sync the expanded table is in step with the raw registers: same enabled entries, same regions, exact window |
| PmpTheorems.EndpointIsPerByte | mem.cpp:119-124 | for granular regions, testing two end bytes gives the verdict of the rule "the lowest entry matching any byte must match all bytes" (section 3.7.1 of the RISC-V Privileged Architecture) |
| PmpTheorems.EndpointExact | mem.cpp:83-128 | for 1-, 2-, 4- and 8-byte accesses the end-byte test is the per-byte rule under every configuration if and only if the access has at most 4 bytes or is 4-aligned |
| PmpTheorems.EndpointMissesGranule | mem.cpp:119-124 | every misaligned 8-byte access has a configuration that shows the failure: a 4-byte region strictly inside it goes unnoticed |
| PmpTheorems.WideGrantCoversBytes | mem.ipp:60-109 | a granted wide access implies that each of its bytes is granted by the byte-sized check, short circuit included |
| PmpTheorems.ExpandedRefinesRaw | mem.cpp:192-211 | after a sync, in every mode and for every range, the expanded range check with its short circuit decides as `chk_pmp_range` does if and only if it is not the case that in S or U mode the short circuit fires on a range that straddles its first touched entry |
| PmpTheorems.ByteRefinesRaw | mem.cpp:414-456 | the byte-sized checks decide as the raw registers do, without exception |
| PmpTheorems.GrantedRefinesRaw | mem.ipp:60-109 | every access width: granted by the expanded table exactly when granted by the raw registers, but for the straddling accesses wider than a byte |
| PmpTheorems.StraddlingDiffers | mem.cpp:192-195 | two all-permitting entries with which a U-mode read across 0x8000'0000 is granted by the one and refused by the other |
| PmpTheorems.NapotIsLowerHalf | mem.cpp:106-112 | a NAPOT region of this code starts where the standard's does and is exactly its lower half |
| PmpMeaning.BytesExact | mem.cpp:96-118 | for every register file, an enabled entry holds byte b exactly if, with sums modulo 2^64: TOR and 4 * pmpaddr[i-1] <= b < 4 * pmpaddr[i] (from 0 for entry 0); NA4 and 4 * pmpaddr[i] <= b < 4 * pmpaddr[i] + 4; NAPOT and b lies in the 4 * 2^k bytes from 8 * 2^k * q, pmpaddr[i] being q, a zero and k ones; an address of all ones holds every byte but the last |
| PmpMeaning.WrapExact | mem.cpp:96-118 | these are the bytes that the same bounds without the 64-bit wrap hold if and only if no sum of the entry leaves 64 bits, where it would show: conditions on pmpaddr[i-1], pmpaddr[i] and the mode |
| PmpMeaning.VerdictMeans | mem.cpp:83-128 | by pmpcfg and pmpaddr alone: the verdict is the permission byte of the lowest entry that binds the mode and matches an end byte, if it matches both, 0xF7 if it matches one; 0xFF if there is none |
| PmpMeaning.GrantedByEntry | mem.ipp:60-109 | an access is granted by a deciding entry exactly if that matches both end bytes and has bit 0 for a read, 1 for a write, 2 for a fetch |
| PmpMeaning.GrantedByNone | mem.ipp:60-109 | with no deciding entry exactly in M mode, and for single bytes at the reserved privilege 2, which the byte-sized checks let through |
| PmpMeaning.WindowMeans | mem.cpp:130-176 | after a sync the window is the least one around all entries that are locked or lack a permission, and the short circuit is armed exactly by an unlocked RWX entry over the whole address space |
| PmpMeaning.SkippedExact | mem.cpp:192-195 | after a sync the short circuit answers exactly the ranges above the upper bounds, or below the lower bounds, of all those entries, given such an RWX entry |
| PmpMeaning.CfgWriteMeans | cpu.cpp:1478-1516 | byte i of a pmpcfg write, by funct3 written, set or cleared bit by bit, reaches exactly the unlocked entry of its number |
| PmpMeaning.AddrWriteMeans | cpu.cpp:1115-1146 | a pmpaddr write stores the value (CSRRW), sets its bits (CSRRS) or clears them (CSRRC), bit by bit, exactly if the register is not locked, and touches no other |
| PmpLocks.StepKeeps | cpu.cpp:1491-1511 | a CSR write keeps the lock invariant and every locked entry |
| PmpLocks.LocksLast | cpu.cpp:1478-1516 | in every run from reset, an address register is write-protected exactly when its entry or the TOR entry above it is locked, and once locked an entry keeps its configuration, addresses, expanded bounds and permissions for ever |
| PmpLocks.SyncedExact | mem.cpp:130-176 | over every run of pmpcfg and pmpaddr writes from reset: table and registers are in step if and only if there has been a pmpcfg write and no region of a now enabled entry differs from what it was at the latest one |
| PmpLocks.ResetOutOfStep | cpu.cpp:1360-1380 | at reset they are not in step |
| PmpLocks.AddrOutOfStep | cpu.cpp:1115-1146 | nor after a pmpaddr write that moves an unlocked TOR entry |
| TlbUnit.Unit.Clear | mem.cpp:352-354 | every slot and counter is cleared |
| TlbUnit.Unit.Insert | mem.cpp:398-412 | counters, maximum and the hashed slot after an insertion with eviction |
| TlbTheorems.AddInv | mem.cpp:398-412 | insertion keeps exact counters, the maximum and the placement of every entry, and the 8-bit counters do not wrap |
| TlbTheorems.Bookkeeping | mem.cpp:352-412 | after any adds and clears, `size_count[s]` is the number of live entries of size s, `max_entry_size` is the largest live size (0 if none), and each live entry sits at the hash of its aligned page |
| TlbTheorems.SearchComplete | mem.cpp:365-393 | the descending search returns a usable entry whenever one covers the address anywhere in the table, and then one of the largest size |
| TlbTheorems.SearchAlwaysComplete | mem.cpp:218-412 | the TLB a hart has after any run of accesses, walks of LR and SC, CSR changes and fences from reset satisfies that bookkeeping, so its search is complete |
| TlbTheorems.HashIs | mem.cpp:357-360 | the slot of an address is bits 16 to 21 of 106039 times it, unbounded: the 64-bit overflow of the product does not show |
| TlbTheorems.UsableExact | mem.cpp:365-376 | an entry serves an access exactly if the address agrees with it from bit 12 + 9 * size up, it has the permission, and it is a user entry in U mode, a supervisor entry elsewhere unless SUM is set |
| Hart.HartState.constructor | cpu.cpp:1360-1376 | memory side of the reset state |
| Hart.HartState.MemFetchByte | mem.cpp:414-436 | range test, PMP tests, value: succeeds exactly when the byte rule grants |
| Hart.HartState.MemFetchWide | mem.ipp:60-86 | the same for the template, with the privilege test of its own |
| Hart.HartState.MemStore | mem.ipp:87-109 | memory changes exactly when the store is granted |
| PhysMem.ReadsBytes | mem.ipp:13-34 | a 1-, 2-, 4- or 8-byte read is the sum of its bytes, lowest first, all from main_mem if it starts there |
| PhysMem.StoresBytes | mem.ipp:36-58 | a store puts the bytes of the value in place, lowest first, and leaves every other byte of main_mem alone |
| Hart.HartState.LeafFaults | mem.cpp:259-286 | the permission, U bit and alignment tests fault exactly when the leaf does not admit the access |
| Hart.HartState.WriteBack | mem.cpp:288-293 | the A/D write happens unless all other bits are ones, and keeps the leaf's meaning |
| Hart.HartState.DescendTables | mem.cpp:244-258 | the loop over levels computes the recursive walk |
| Hart.HartState.PageTableWalk | mem.cpp:218-316 | result, fault flags, memory and TLB after a walk, for Bare, Sv39, Sv48 and Sv57 |
| Hart.HartState.TlbFind | mem.cpp:363-395 | result, memory and `mem_status` after a lookup |
| Hart.HartState.VirtMemFetch | mem.ipp:118-142 | value, faults, memory, TLB and restored privilege of a load or fetch, MPRV included |
| Hart.HartState.VirtMemStore | mem.ipp:143-167 | the same for a store |
| WalkTheorems.ADFrame | mem.cpp:288-293 | setting A or A and D in any aligned PTE word leaves the outcome of every walk of every address as it was |
| WalkTheorems.SamePageSameLeaf | mem.cpp:244-258 | all addresses of one leaf page walk to the same leaf |
| WalkTheorems.StoreFrame | mem.cpp:244-258 | a store that overlaps no word a walk visits changes neither the walk nor its leaf PTE |
| WalkTheorems.LoadUniform | mem.cpp:243-250 | under a PMP that grants R wherever it grants X, the PTE reads of loads, stores and fetches fault alike |
| SvReference.NextTableExact | mem.cpp:255-257 | a pointer PTE leads to the next table of section 4.3.2 of the RISC-V Privileged Architecture if and only if its reserved bits 54 to 60 are zero |
| SvReference.WalkIsSv | mem.cpp:240-258 | for page tables whose followed pointers have zero reserved bits, the walk is that section's algorithm with its own LEVELS for satp modes 8, 9 and 10, VPN fields and PTE bits |
| SvReference.TargetIsSvPhys | mem.cpp:285-309 | superpage alignment makes the final addition carry-free: page number fields come from the frame above the level and from the address below it |
| SvReference.SameDisplacement | mem.cpp:296-309 | all addresses of one leaf page move by the same displacement |
| SvReference.AdmitsExact | mem.cpp:259-286 | the permission, U bit and superpage tests are the manual's check if and only if MXR does not decide the access: the code applies it to fetches, the manual to loads |
| SvReference.UpdateExact | mem.cpp:288-293 | the A/D update does what the manual's does if and only if it is neither a refused write of bits that are already set nor a skipped write of a PTE of all ones |
| SvReference.TranslateIsSv | mem.cpp:218-316 | for clean page tables a translation is the manual's, with its own levels, page sizes, PTE, SUM and MXR bits, its faults, physical address and memory, if and only if neither of those two departures occurs on the leaf |
| SvReference.AccessIsSv | mem.ipp:110-167 | wherever the translations agree, a load, store or fetch of the machine without TLB is the manual's: MPRV and MPP, the range of physical memory, the PMP right asked for, value, memory and the kind of fault |
| Transparency.EveryAddress | mem.cpp:298-307 | an entry that is right at its own page base is right at every address of its page and for every access type |
| Transparency.FilledEntryOk | mem.cpp:288-307 | the entry a walk below M mode inserts is coherent with memory as its A/D write leaves it, under any PMP |
| Transparency.FilledExact | mem.cpp:288-307 | the entry any walk inserts, those of LR and SC in M mode included, is coherent if and only if a load or another access in U mode finds the same leaf |
| Transparency.CoherentAD | mem.cpp:377-382 | A/D writes of hits and walks keep every entry coherent |
| Transparency.CoherentStore | mem.ipp:143-167 | a store off the page tables keeps every entry coherent |
| Transparency.CoherentAdd | mem.cpp:398-412 | insertion keeps coherence, whatever it evicts |
| Transparency.AccessTransparent | mem.ipp:118-167 | one access: same value or fault and same memory as without TLB, and coherence survives |
| Transparency.RunTransparent | mem.ipp:118-167 | for every run of accesses, walks of LR and SC, CSR changes and fences in which software fences after changing satp, PMP or page tables, and after an M-mode walk that PMP keeps from lower modes, before the next translated access: every value, every fault and the final memory, A/D bits included, equal those of the machine that has no TLB |
| TlbExact.HitExact | mem.cpp:373-390 | with a coherent TLB and any PMP, a hit at a nonzero physical address behaves as the walk if and only if it is none of: a fetch above U mode from a user page; a load from memory where PMP grants R and X differently; an access whose own walk PMP refuses while the other kind of walk may read the PTEs, unless the hit is refused in the end and leaves memory alone |
| TlbExact.BlindHitLosesPte | mem.cpp:377-382 | in the third family a writable PTE that cannot be read is overwritten with 0x40 or 0xC0 and becomes invalid |
| TlbExact.HitAtZeroExact | mem.ipp:128-163 | a hit that translates to physical address 0 is walked again, a load as a fetch: exactly when outcome and final memory are still those of one walk |
| TlbWitness.SupervisorFetchDiffers | mem.cpp:375 | a three-step run on which S mode executes from a user page thanks to the TLB while a walk raises a page fault |
| TlbWitness.LoadThenStore | mem.cpp:377-382 | a load, then a store to the same page: the walk ends in an access fault, the hit stores and leaves 0xC0 in place of the PTE |
| TlbWitness.LoadTwice | mem.ipp:128-137 | the same load twice: granted by the walk, refused as a fetch by the hit |
| TlbWitness.ZeroTwice | mem.ipp:128-137 | the same load at physical address 0 twice: an access fault by the walk, a page fault by the hit |
| TlbWitness.MachineWalkDiffers | cpu.cpp:1213-1215 | an LR in M mode, then a store in S mode without a fence: the walk ends in an access fault, the hit on the entry that M mode left stores |
| TlbWitness.UserPagesExist | mem.cpp:273-279 | states for the first of these runs exist: a concrete memory, page table and PMP |
| TlbWitness.LoadOnlyTablesExist | mem.cpp:243-250 | so do states for the second and third |
| TlbWitness.ZeroPagesExist | mem.cpp:296-309 | and for the fourth |
| TlbWitness.MachineTablesExist | cpu.cpp:1213-1215 | and for the M-mode run |
| TlbExact.ReachableCoherence | mem.cpp:288-412 | in every state a lawful run from reset reaches with the TLB current, walks of LR and SC included, each live entry gives what a walk of the current memory gives, at every address of its page; under a PMP that tells the two kinds of walk apart, what at least one of them gives |
| Reservations.ScExactHistory | cpu.cpp:1178-1196 | in every run from reset, under any translation, an SC by h that completes at physical address a succeeds if and only if h's latest completed LR or SC was an LR that reserved a and no other hart has completed an LR that reserved a since; at address 0, if and only if h holds no reservation |
| Reservations.RunFaithful | cpu.cpp:1213-1224 | the reservations array is exactly what the history of LR and SC says |
| Reservations.ReservationsUnique | cpu.cpp:1217-1222 | at most one hart holds any nonzero reservation |
| Reservations.NoScBetween | cpu.cpp:1178-1224 | between a hart's reservation of a nonzero a and its successful SC no SC of any hart to a succeeds |
| Reservations.WrongScSucceeds | cpu.cpp:1206-1215 | a concrete memory in which LR with rd = rs1 lets an SC to an address that no LR has named succeed |
| Harts.HartsTransparent | mem.ipp:118-167 | any number of harts over one memory, any interleaving of their accesses, LRs, SCs, fences and CSR changes: every report, the reservations and memory, A/D bits included, are those of the harts without TLBs, as long as each hart fences after what it or another hart did to its page tables |
| LrScTheorems.LrTied | cpu.cpp:1200-1224 | below M mode, or without translation: an LR that keeps its address register traps without a reservation, or loads from one physical address and reserves it |
| LrScTheorems.LrValue | cpu.cpp:1203-1224 | what an LR without TLB leaves in rd, on memory bytes: read as a signed number, the two's complement value of the word (LR.W) or doubleword (LR.D) at the physical address |
| LrScTheorems.LrOnValue | cpu.cpp:1203-1224 | the same with the TLB, under any page tables, as long as software keeps the TLB current |
| LrScTheorems.ScTied | cpu.cpp:1178-1196 | there an SC compares the physical address it stores to, stores exactly if that is reserved, and drops the reservation unless it traps |
| LrScTheorems.LrReservesExact | cpu.cpp:1206-1215 | there, with the TLB and under any page tables, an LR that completes reserves the physical address it has loaded from if and only if it keeps its address register or the value it loads is an address that goes to the same place |
| LrScTheorems.LostReservation | cpu.cpp:1206-1215 | otherwise an SC to the address that was loaded traps or fails |
| LrScTheorems.MachineReservesExact | cpu.cpp:1213-1215 | in M mode the load is not translated and the walk is: an LR reserves the address it loads from if and only if satp is Bare or its page maps that address to itself |
| LrScTheorems.MachineModeLosesUpdate | cpu.cpp:1178-1224 | a concrete run in M mode, one hart with Sv39 on and one without: both increment the same cell by LR and SC, both SCs succeed, and the cell is incremented once |
| Counter.NoLostUpdate | cpu.cpp:1166-1224 | for any number of harts, each with its own page tables, PMP, privilege and TLB, and any interleaving, a cell incremented only by LR/SC loops, under whatever virtual addresses, holds its initial value plus the number of successful SCs, modulo its width |
| Counter.PlayKeeps | cpu.cpp:1178-1224 | the invariant behind it, over every instruction: a hart that has reserved the cell has loaded its current value, the count is right, and the TLBs are as current as software keeps them |
| Counter.NoLostUpdateBare | cpu.cpp:1166-1224 | without translation addresses alone decide what misses the cell, and the TLBs may hold anything |
| Counter.PlainStoreLost | cpu.cpp:1185-1192 | a plain store to a reserved cell does not end the reservation, and the SC that follows overwrites it |
| Atomics.TakeReservation | cpu.cpp:1217-1222 | the loop clears exactly the other harts' reservations on the address, then reserves |
| Atomics.LoadReserved | cpu.cpp:1203-1224 | LR in place: registers, reservations, memory, report; rd is zeroed even by a faulting LR |
| Atomics.StoreConditional | cpu.cpp:1178-1196 | SC in place: the store happens and rd is 0 exactly if the reservation matches; the reservation is dropped unless the SC faults |
| Prefetch.FrontEnd.Classify | cpu.cpp:115-144 | the tests on a fetched word: outcome and new buffer |
| Prefetch.FrontEnd.FetchNext | cpu.cpp:106-147 | `fetch` on the hart state, from memory or from the buffer, with its faults |
| Prefetch.FetchExact | cpu.cpp:106-147 | taking the buffered halfword does what reading memory again would do if and only if that read succeeds, changes nothing and still finds the halfword |
| Prefetch.FetchExactUntranslated | cpu.cpp:108-113 | for untranslated code: if and only if the fetch is permitted and memory at pc still holds the halfword |
| Prefetch.RunBuffered | cpu.cpp:106-147 | whatever follows fetch: a run with the buffer is the run without it as long as what is buffered would be read again |
| Refetch.FetchNextWord | mem.ipp:118-142 | under translation, a fetch that has succeeded leaves memory and TLB such that the fetch two bytes on in the same 4 KiB page hits the entry, changes nothing and reads from the physical address two bytes on |
| Prefetch.PrefetchTransparent | cpu.cpp:106-147 | for any rest of a cycle that keeps the buffer only when pc goes on to the next instruction: untranslated code whose next fetch is permitted and whose 16-bit instructions do not store into the next halfword runs alike with and without the buffer |
| Prefetch.BufferIsAtPc | cpu.cpp:130-136 | at every cycle boundary of such a run a nonzero buffer is the halfword at pc and does not start a longer instruction |
| Cycles.StepIsSequential | cpu.cpp:1282-1287 | the hart's own cycle is such a rest of a cycle: jumps, exceptions, MRET, SRET, FENCE.I, SFENCE.VMA and interrupts empty the buffer, and whatever keeps it leaves pc behind the instruction; CSR instructions, atomics and the M extension are asked to do the same |
| Cycles.HartCycleIsCycle | cpu.cpp:30-95 | the cycle that hands one instbuf through `fetch`, `decode_exc`, `create_exception` and `setup_pending_int` is the cycle of those theorems |
| Cycles.TrapOnWord | hartexc.cpp:37-65 | an exception leaves in mstatus what the masks and shifts make of the 64-bit word |
| Cycles.MretOnWord | cpu.cpp:992-1000 | the same for MRET |
| CycleMeaning.FetchMeans | cpu.cpp:96-147 | an access fault at pc is exception 1, a page fault 12, both with tval pc; all zeros and all ones are exception 2; bits 1:0 and 4:2 tell 16, 32 and longer, which is exception 0; what stays buffered is the upper halfword unless it starts a longer instruction |
| CycleMeaning.ZeroIgnored | cpu.cpp:45 | what an instruction wrote to x0 makes no difference to the next cycle |
| CycleMeaning.ZeroStays | cpu.cpp:45 | and instructions find 0 there |
| CycleMeaning.CheckMeans | cpu.cpp:87-91 | interrupts are looked at exactly if chk_int is set, which that clears |
| CycleMeaning.SfenceMeans | cpu.cpp:1034-1043 | a SYSTEM word with funct7 9 empties the whole TLB and instbuf, and touches nothing else but pc; with TVM set it is an illegal instruction |
| CycleMeaning.ReturnWordsMean | cpu.cpp:991-1032 | the words of MRET, SRET and WFI, and TW |
| CycleMeaning.RaiseMeans | hartexc.cpp:28-77 | an exception of a cycle on the hart's own registers: xepc is pc, xcause and xtval its arguments, the new pc is by xtvec, x is S exactly if the hart is below M mode and medeleg has the cause |
| CycleMeaning.InterruptsMean | cpu.cpp:87-91 | the interrupts of a cycle on the hart's own registers, mstatus by its bits: which of 11, 3, 7, 9, 1, 5 is taken, to which level, with what epc, cause and pc; otherwise nothing changes but chk_int and perhaps instbuf |
| CycleMeaning.WordExecuted | cpu.cpp:150-1291 | a cycle executes a 32-bit word on the hart's registers, pc, memory and TLB |
| CycleMeaning.HalfExecuted | cpu.cpp:165-452 | and a compressed one as its expansion, two bytes long |
| CycleMeaning.PerformMeans | cpu.cpp:30-95 | fetch faults and the exceptions of instructions become such traps; what an instruction leaves is what the hart goes on with |
| CycleTheorems.UndisturbedIsQuiet | cpu.cpp:130-136 | what an untranslated cycle needs if its buffer survives it, in terms of the state before it: its compressed instruction does not store into the next halfword, whatever it executes and whichever interrupt comes |
| CycleTheorems.PagedIsGood | cpu.cpp:106-147 | what a translated one needs: a compressed instruction other than a load or store, on an executable page that holds the next halfword too, its next fetch permitted; then what is buffered would be read again, and reading it again would change nothing |
| CycleTheorems.BufferInvisible | cpu.cpp:30-95 | over any number of such cycles, translated or not, registers, memory, TLB, CSRs, traps and interrupts are those of a hart that empties instbuf before every fetch, and a nonzero instbuf is what reading memory at pc again would give |
| Decode.Gather | cpu.cpp:469-512 | shifting, masking and moving bits gathers the I, S, B, U and J immediates of section 2.3 of the RISC-V Unprivileged ISA |
| Decode.DecodeWord | cpu.cpp:455-515 | all fields of a 32-bit instruction, by format |
| Decode.DecodeEncoded | cpu.cpp:455-515 | decoding the encoding of any legal operands gives them back, in all six formats |
| Decode.EncodeDecoded | cpu.cpp:455-515 | encoding what was decoded gives the word back, and the decoded operands are legal |
| Compressed.GatherJump | cpu.cpp:333-345 | the scattered offset of C.J as the standard numbers its bits |
| Compressed.GatherBranch | cpu.cpp:346-359 | the same for C.BEQZ and C.BNEZ |
| Compressed.DecodeAluReg | cpu.cpp:303-331 | the register operations of MISC_ALU, which reuse bit 30 of inst |
| Compressed.DecodeHalf | cpu.cpp:165-452 | for every defined non-floating compressed instruction the 16-bit decoder finds the fields that the 32-bit decoder finds in its expansion (chapter 16 of the RISC-V Unprivileged ISA 20191213), in everything the execution code reads |
| Compressed.ExpansionIsLong | cpu.cpp:118-128 | the expansion is an instruction that `fetch` takes for a 32-bit one |
| RvcTable.TableExact | cpu.cpp:165-452 | the expansion of each compressed instruction encodes the row of chapter 16's tables that its masked bits match, with the immediate put together in place; that of C.EBREAK is EBREAK |
| RvcTable.ListedExact | cpu.cpp:165-452 | and the encodings with an expansion are those the table lists |
| Execution.AgreeExecutes | cpu.cpp:546-964 | the execution code cannot tell apart what agrees in those fields |
| Execution.LengthExact | cpu.cpp:818-851 | inst_len changes nothing but the next pc and the link register |
| Execution.CompressedMeansExpansion | cpu.cpp:546-964 | for every hart state, a compressed instruction gives the registers, memory, faults and traps of its expansion, with pc + 2 for pc + 4 in pc and in the link register |
| IsaTheorems.OpMeans | cpu.cpp:629-730 | rd after ADD and SUB is congruent to the sum and difference; after SLL to the product with 2^k; SRL and SRA are the floored quotients of the unsigned and the signed value; SLT and SLTU compare signed and unsigned values; XOR, OR and AND work bit by bit |
| IsaTheorems.Op32Means | cpu.cpp:731-817 | ADDW to SRAW: the same on the low words, and rd is the sign extension of its low word |
| IsaTheorems.OpImmMeans | cpu.cpp:552-585 | the same with the sign-extended immediate or the six-bit shift amount of the word |
| IsaTheorems.OpImm32Means | cpu.cpp:586-621 | the same for the immediate W forms |
| IsaTheorems.ComputesOne | cpu.cpp:629-730 | these relations leave one value for rd |
| IsaTheorems.ComputesWordOne | cpu.cpp:731-817 | and so do those of the W forms |
| IsaTheorems.LuiMeans | cpu.cpp:622-624 | the upper immediate, signed |
| IsaTheorems.AuipcMeans | cpu.cpp:625-628 | the same added to pc |
| IsaTheorems.JalMeans | cpu.cpp:818-826 | target pc + imm, link pc + length; an odd target is exception 0 |
| IsaTheorems.JalrMeans | cpu.cpp:827-851 | target rs1 + imm with bit 0 cleared, from rs1 as it was |
| IsaTheorems.BranchMeans | cpu.cpp:852-883 | taken exactly when the comparison of the signed or unsigned values holds |
| IsaTheorems.LoadMeans | cpu.cpp:884-935 | rd is congruent to the bytes read and in the signed or unsigned range of their number; access faults are exception 5, page faults 13, with the address as tval and rd as it was |
| IsaTheorems.StoreMeans | cpu.cpp:937-964 | rs2 goes to rs1 + imm in the width of funct3; access faults are exception 7, page faults 15 |
| IsaTheorems.NoStoreMeans | cpu.cpp:948-963 | a store whose funct3 names no width does nothing but go on |
| IsaTheorems.ExtendedMeans | cpu.cpp:884-935 | what the loaded value of the row above means: congruence and range |
| IsaTheorems.CallMeans | cpu.cpp:977-990 | ECALL is exception 8 plus the privilege, EBREAK 3, both with pc as tval |
| IsaTheorems.FenceMeans | cpu.cpp:965-971 | FENCE goes on, FENCE.I also empties instbuf |
| Core.Core.constructor | main.cpp:249-255 | registers and pc a hart starts with |
| Core.Core.DoLoad | cpu.cpp:884-935 | loads in place: address, memory side, rd only on success, cause and tval of faults |
| Core.Core.DoStore | cpu.cpp:937-965 | stores in place, with their faults |
| Core.Core.DoJalr | cpu.cpp:827-851 | the target is read before rd is written |
| Core.Core.DecodeExc | cpu.cpp:150-970 | `decode_exc` on a 16-bit or 32-bit instruction of RV64I does in place what executing the 32-bit meaning does |
| PcParity.ExecuteEven | cpu.cpp:818-882 | from an even pc no instruction word raises the misaligned-jump exception or leaves pc odd |
| PcParity.PcStaysEven | cpu.cpp:1282-1287 | pc stays even over any run of instructions, traps, interrupts, MRET and SRET |
| StatusBits.SEntryBits | hartexc.cpp:37-41 | the masks and shifts of a trap to S mode on the 64-bit word are the field updates SPP, SPIE, SIE and touch no other bit |
| StatusBits.MEntryBits | hartexc.cpp:61-65 | the same for a trap to M mode and MPP, MPIE, MIE |
| StatusBits.MExitBits | cpu.cpp:992-1000 | the same for MRET |
| StatusBits.SExitBits | cpu.cpp:1010-1018 | the same for SRET |
| StatusBits.BitsTellAll | cpu.h:45 | the fields determine the whole word: what is said of them is said of all 64 bits |
| StatusBits.MretWord | cpu.cpp:992-1000 | MRET on the word: MIE, MPIE, MPP and, unless it returns to M mode, MPRV; the new privilege is the old MPP |
| StatusBits.SretWord | cpu.cpp:1010-1018 | the same for SRET |
| Interrupts.HartState.CreateException | hartexc.cpp:6-81 | whether the trap is taken, where to, and every field after it |
| Interrupts.HartState.SetupPendingInt | hartexc.cpp:85-120 | both passes with their early returns |
| Interrupts.HartState.MachineReturn | cpu.cpp:991-1004 | MRET in place |
| Interrupts.HartState.SupervisorReturn | cpu.cpp:1006-1022 | SRET in place, with the exception it raises when TSR is set |
| TrapMeaning.ExceptionMeans | hartexc.cpp:28-77 | by CSR bits: an exception goes to S mode exactly if the privilege is at most 1 and medeleg has the cause, else to M mode; xepc, xcause, xtval, the xtvec it uses, xPP, xPIE, xIE, and that nothing else changes |
| TrapMeaning.InterruptMeans | hartexc.cpp:6-81 | by CSR bits: cause c is taken to S mode if and only if privilege <= 1, c is in mideleg and sie, and the hart is in U mode or SIE is set or c is 3, 7 or 11; to M mode if and only if it is not delegated from privilege <= 1, c is in mie, and the mode does not mask it; otherwise only instbuf goes |
| TrapMeaning.SetUpMeans | hartexc.cpp:85-120 | setup_pending_int takes the first of 11, 3, 7, 9, 1, 5 that is pending and meets that condition; if none does, instbuf goes exactly if one was tried |
| TrapMeaning.MretMeans | cpu.cpp:991-1004 | MRET field by field |
| TrapMeaning.SretMeans | cpu.cpp:1006-1022 | SRET field by field, and the illegal instruction that TSR makes of it |
| TrapMeaning.FieldsAre | cpu.h:45 | which bits of mstatus these fields are |
| TrapTheorems.TrapResumes | hartexc.cpp:28-77 | one trap with all it contains, seen from the interrupted context, TSR being clear |
| TrapTheorems.NestedTrapsUnwind | hartexc.cpp:28-77 | with TSR clear, in any well-nested tree of M and S traps whose handlers put back their own xepc, xPIE and xPP, every interrupted context resumes at its pc, privilege and interrupt enables |
| TrapTheorems.SretExact | cpu.cpp:1006-1022 | in S mode an SRET returns if and only if TSR is clear |
| TrapTheorems.UserResumesExact | cpu.cpp:1006-1022 | a U-mode trap handled by S comes back to U mode if and only if TSR is clear; else the SRET is an illegal instruction, taken in S or M mode as medeleg says |
| TrapTheorems.StrandedInMachineMode | cpu.cpp:1006-1009 | a concrete state in which an environment call of U mode ends in M mode at mtvec |
| TrapTheorems.LevelsAreSeparate | cpu.cpp:991-1022 | M-level traps and returns never touch the S level; S-level traps, and SRET with TSR clear, never touch the M level |

## Where the code departs from the standard or from its comments

The model follows the code in each case.

- A NAPOT region is half as long as the standard's (`PmpTheorems.NapotIsLowerHalf`).
- The bounds of PMP entries are computed in 64 bits, although pmpaddr holds bits 55:2 of an address: an entry that
  crosses 2^64 holds other bytes than its registers say (`PmpMeaning.WrapExact`).
- The byte-sized accesses ask for privilege at most 1 where the others ask for less than 3, which shows at privilege 2
  (`PmpMeaning.GrantedByNone`).
- `reset_state` and pmpaddr writes do not sync the expanded table; the PMP theorems about it speak of states
  just after a sync.
- A TLB hit leaves `mem_status` false, so the data access of a load that hits is checked by PMP as a fetch, and
  the lookup does not repeat the walk's refusal of S-mode fetches from user pages (`TlbExact.HitExact`).
- A hit does not look at `mem_status` after it has read the PTE (mem.cpp:377-381): a PTE that PMP refuses reads
  as 0, and what is written back is 0 with A and D set, over the PTE (`TlbExact.BlindHitLosesPte`,
  `TlbWitness.LoadThenStore`).
- `mem_status` also tells loads from everything else when PTEs are read (mem.cpp:247, 377), so for stores PMP
  checks those reads as fetches, and a page whose PTEs are readable but not executable can be loaded from but
  not stored to.
- MXR is applied to fetches from readable pages, not to loads from executable ones (mem.cpp:267-268,
  `SvReference.AdmitsExact`).
- A/D bits that are already set are written again, which needs write permission on the PTE; the write is skipped
  if every other bit of the PTE is one (`SvReference.UpdateExact`).
- The walk keeps the reserved bits of pointer PTEs (`SvReference.NextTableExact`).
- A hit at physical address 0 counts as a miss (`TlbExact.HitAtZeroExact`).
- LR re-reads rs1 after rd has been written (`LrScTheorems.LrReservesExact`, `Reservations.WrongScSucceeds`), and a
  faulting LR has already zeroed rd.
- LR and SC walk the page tables in M mode too (cpu.cpp:1180, 1215), where loads and stores are not translated
  (mem.ipp:120-122). They then reserve and compare another address than they access
  (`LrScTheorems.MachineModeLosesUpdate`), and the walk, which unlocked PMP entries do not bind, leaves an entry in
  the TLB for lower modes (`TlbWitness.MachineWalkDiffers`).
- Only LR and SC end reservations; stores and AMOs do not (`Counter.PlainStoreLost`).
- MRET and SRET do not look at the current privilege.
- In vectored mode the handlers of exceptions are at base + 4 * cause too, not at base (hartexc.cpp:47, 72).
- SEI, SSI and STI that are not delegated are masked by SIE in S mode; only MEI, MSI and MTI go past it
  (hartexc.cpp:17-23).

## Conditions of the whole-run theorems

- `Transparency.RunTransparent`: before the next access that is translated the TLB is fenced after a change of
  satp, PMP or page tables, and after an LR or SC in M mode whose walk finds a leaf that U mode's walks, by PMP, do
  not find; and each translated access, judged on the machine that has no TLB, is not one of
  `TlbExact`'s exceptions: no fetch above U mode from a user page while SUM is set, no load at physical address 0
  or from memory where PMP grants R and X differently, and no access whose own walk PMP refuses while the other
  kind of walk finds the page. PMP itself may be anything and change at any time.
- `Harts.HartsTransparent`: the same of each hart, where a store by another hart into its page tables counts as a
  change of them. A/D updates by other harts need no fence.
- `PmpTheorems`: what is said of the expanded table holds in step with the registers; `PmpLocks.SyncedExact` says
  when a run of CSR writes is.
- `Reservations`: none but a reset state without reservations.
- `Counter.NoLostUpdate`: the conditions of `HartsTransparent`; a hart that increments is not in M mode with
  translation on; the addresses its loops use go to the cell; the loops load into a register other than the address
  register; no hart's page tables lie in the cell, and nothing else writes to it or reserves it.
- `TrapTheorems`: TSR is clear. No modelled step changes it.
- `CycleTheorems.BufferInvisible`: of each cycle whose buffer survives it, that it executes one of the compressed
  instructions of `Compressed.Recognised` and may fetch the four bytes behind it. Untranslated, that fetch does not
  lie across the start of RAM and the instruction does not store into the next halfword. Translated, the instruction
  is no load or store, the next halfword lies in the same 4 KiB page, a walk finds that page executable and may write
  its PTE, and the TLB is as a lawful run leaves it. The instructions that `Execution` and `Cycles.SystemCall` leave
  out keep the buffer only if they go on to the next instruction.

## Left out

- PmpUnit.Unit.PmpcfgRw: says nothing about the value read back into rd, nor about the state after the illegal-instruction exception of an odd CSR number.
- Core.Core.DecodeExc: the M extension, CSR instructions, AMOs, MRET, SRET, WFI and SFENCE.VMA within the cited lines end in Outside; all but the first three are part of `Cycles` and `Interrupts`.
- Cycles.StepIsSequential: CSR instructions, AMOs, LR, SC and the M extension are a parameter that is asked to be sequential.
- Cycles.HartCycleIsCycle: the same instructions stay a parameter, and the cycle and instruction counters of the cited lines are left out.
- CycleTheorems.BufferInvisible: the same parameter; translated loads and stores whose next halfword stays buffered are not covered.
- Prefetch.RunBuffered: that the buffered halfword would be read again is a hypothesis here; `CycleTheorems` discharges it.
- PmpTheorems.GrantedRefinesRaw: does not speak of the last byte of the address space, which the whole-space region of the code does not hold; no memory is there.
- AMO arithmetic (cpu.cpp:1226-1262): swap, add, logic, min and max; an AMO's memory effect is that of the load and store it makes.
- The M extension, FENCE.TSO variants, the reserved OP-32 encodings and the CSR file: `Execution` answers Elsewhere for them.
- The floating-point slots of RVC, marked TODO in the code, and the encodings chapter 16 reserves.
- Devices: bytes below 0x8000'0000 and past the end of RAM read as a fixed arbitrary function and ignore writes. UART, PLIC, virtio, the ACLINT timers and the boot ROM are not part of this model.
- `chk_pmp` (mem.cpp:30-76), which nothing in the access path uses, and pmpcfg numbers above 0x3A3, whose entries do not exist.
- NAPOT addresses with 62 or 63 trailing ones, other than all ones: the shift in the code is then undefined; the model shifts by the mathematical amount.
- The cycle and instruction counters, signature mode's halt and the sleep of WFI in `Cycles`, and the legal-value filtering of mstatus, which the code does not do.
- The cycle as a whole is a function; in place, its parts are the routines of `Prefetch.FrontEnd`, `Core.Core` and `Interrupts.HartState`, each with its own copy of pc and instbuf.
- The interrupt and delegation registers are sets of their one bits.
- The mutex around AMOs is taken as making each LR, SC and store one atomic step; weak memory between hosts' threads is not modelled.
- The three misaligned-jump branches stay in the model although `PcParity` shows them unreachable.
- Console, ELF loading, argument parsing, dumps and thread start-up.
