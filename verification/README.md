# RVVM verification model

A Dafny model of the hard core of RVVM, a RISC-V machine emulator, with proofs about it. The model covers
address translation with the software TLB, the privilege state machine with traps and interrupts, the
notification protocol between the hart loop and other threads, the AIA register file, the round-ties-away
floating-point fixups, LR/SC emulation, placement of and access to memory-mapped devices, and the devicetree
serialiser.

`dafny verify dfyconfig.toml` checks the whole project.

## Layout

| file | content |
|---|---|
| `Powers`, `Words`, `BitSets`, `Options` | arithmetic, 64-bit words, bit fields as sets, optional results |
| `Floats`, `Rounding`, `TiesAway`, `SpecialOperands` | floats as integers on a scaled grid, the two rounding modes, the RMM fixups, infinities and NaNs |
| `FloatMeaning` | what the rounded operations are on values, and where the formats put 1.0 and infinity |
| `PageTable`, `Tlb`, `TlbRun`, `Mmu` | translation as a recursive lookup, TLB entries, concurrent runs, the imperative walk and fast paths |
| `PageWalk` | what a translation is on the address's indices, the entries' bits and the architecture's permissions |
| `Privilege`, `TrapNesting`, `HartCpu` | the privilege state machine, nested traps, the imperative trap and CSR paths |
| `RegisterLaws` | traps, interrupts, returns and CSR instructions on the numbers and bits of the registers |
| `Notify`, `NotifyProgress` | interleavings of notifier threads with the hart loop, what is never lost and what is served in time |
| `Aia`, `AiaRun`, `AiaAlone` | the incoming MSI register file, MSIs that arrive during a scan, that the two agree |
| `LrSc` | LR/SC by compare-and-swap, for any number of harts |
| `MmioPlacement`, `MmioAccess`, `PageStraddle` | zones for devices, realigned device accesses, accesses across pages |
| `FdtFormat`, `FdtWriter` | the devicetree format with a parser, the two-pass writer |
| `FdtLayout` | where every byte of a blob belongs |

How the hard parts are modelled:

- Floats of every precision and exponent range are codes `u` with an integer value `Val(u)` in units of the least
  subnormal, so one theorem serves single and double precision, subnormals, binade boundaries and overflow.
  Host operations are correctly rounded, and the error-free transforms return the exact error.
- A page walk is a sequence of atomic actions of one hart (read an entry, compare-and-swap its A and D bits, fill
  the TLB), interleaved arbitrarily with the other harts and with stores to words that no walk reaches. A hart's root,
  mode, SUM and MXR change together with a flush of its TLB, table words together with a flush of every TLB.
- The notification protocol is a state machine under sequential consistency. The hart's program points are the
  places between its reads and writes of the shared variables.
- Specification functions shared by an operation and the statements about it are pinned down apart from both, in
  `PageWalk`, `RegisterLaws`, `FdtLayout` and `FloatMeaning`, on literal bits, numbers and bytes.
- Imperative code is imperative here: TLB, RAM, register files, buffers and device lists are fields and arrays
  that methods update, each method proved against functions whose properties are the lemmas.

Where code and documentation disagree, the model follows the code:

- src/cpu/riscv_fpu.c:188-190 calls the residual of a subnormal quotient exact. For small divisors the fused
  multiply-add rounds it. The test is right all the same (`TiesAway.ResidualMeaning`).
- src/util/bit_ops.h:256-278 promises the next power of two. On hosts with a bit-scan instruction it goes down to one
  (`MmioPlacement.NextPow2`).
- src/core/rvvm.c:874 says that regions of size 0 are ignored. A device of size 0 strictly inside a requested zone
  does block it (`MmioPlacement.EmptyRegionBlocks`).

Properties that fail, each with its exact condition:

- A TLB read hit after a write fill agrees with a fresh walk if and only if the page-table entry has R, or X while MXR
  is set (`TlbRun.WriteFillReads`, and over whole runs `TlbRun.HitIsFreshWalk`); a reserved entry shows the failure
  (`TlbRun.ReservedEntryReads`).
- A write to mideleg keeps the no-lost-interrupt guarantee if and only if it does not, with MIE set, take back the
  delegation of a pending interrupt (`Notify.MidelegExact`, reached from reset in `Notify.MidelegOverlooks`).
- An MSI that arrives while the guest enables its identity can be left pending with the line down. Whatever else the
  senders are doing, an enabling write can be followed by such a loss if and only if some sender has just read as off
  an enable bit that the write sets (`AiaRun.LossIffUnsafe`). Otherwise none is lost (`AiaRun.NoMsiLost`).
- The zone search can run for ever (`MmioPlacement.SearchCanCycle`). It stops whenever some page boundary has room
  (`MmioPlacement.RoomSettles`) or no region ends within a page of the top (`MmioPlacement.RoomySettles`). Unless moving
  past a region can land within the zone's size of the top, it stops if and only if the request is free or some page
  boundary has room (`MmioPlacement.StopsIffRoom`). In general it stops if and only if one of two ascents does
  (`MmioPlacement.StopsIffSettles`).
- SC compares values. It succeeds if and only if the hart's latest LR or SC is an LR of that address and the cell holds
  what it held then (`LrSc.WinsIff`), so also after the cell was changed and changed back (`LrSc.AbaSucceeds`). Where
  values do not repeat, it succeeds if and only if the cell has had no update since (`LrSc.WinsIffFirst`).

## Model

| member | source | states |
|---|---|---|
| Rounding.RoundEvenMeaning | src/cpu/riscv_fpu.c:57-64 | The reference nearest-even rounding picks a grid point at least as near as any other, and the even one of two equally near |
| Rounding.RoundAwayMeaning | src/cpu/riscv_fpu.c:57-64 | The reference ties-away rounding picks a grid point at least as near as any other, and the larger of two equally near |
| Rounding.AwayFromEven | src/cpu/riscv_fpu.c:61-68 | The two modes differ exactly on a tie whose lower neighbour is even, and then by one step outward |
| FloatMeaning.EvenIsNearest | src/cpu/riscv_fpu.c:57-64 | In every format, nearest-even rounding of a fraction gives a float at least as near as any other, and an even one of two equally near |
| FloatMeaning.AwayIsNearest | src/cpu/riscv_fpu.c:57-64 | The same for ties-away rounding, with the larger of two equally near |
| FloatMeaning.QuotientIsNearest | src/cpu/riscv_fpu.c:183-230 | The quotients of the fdiv theorems are nearest to the exact quotient of the two values, each with its tie rule |
| FloatMeaning.ProductIsNearest | src/cpu/riscv_fpu.c:114-166 | The products of the fmul theorems are nearest to the exact product of the two values, each with its tie rule |
| FloatMeaning.PatternValue | src/cpu/riscv_fpu.c:195-199 | In every format, what a pattern with a given exponent field and fraction is worth, subnormal or normal |
| FloatMeaning.FormatPatterns | src/util/fpu_lib.h:287-296 | Single and double precision have 1.0 and infinity at the patterns of IEEE 754 |
| FloatMeaning.ExponentTest | src/cpu/riscv_fpu.c:195-199 | The test on the result is whether its exponent field is zero |
| TiesAway.RmmApplyCorrect | src/cpu/riscv_fpu.h:93-125 | For every finite nearest-even result and its exact error, the fixup returns the ties-away rounding of the true value: both signs, zeros, subnormals, binade boundaries, the largest finite float |
| TiesAway.RmmAddCorrect | src/cpu/riscv_fpu.c:86-106 | Addition and subtraction return the ties-away result, also when the nearest-even result is infinite |
| TiesAway.NormalQuotientNoTie | src/cpu/riscv_fpu.c:74-77 | In every format, the quotient of two floats is never halfway above a float with a nonzero exponent field |
| Floats.Fields | src/cpu/riscv_fpu.c:195-199 | In every format, the codes from the hidden bit on split into a nonzero exponent field (scale plus one) and a fraction |
| TiesAway.NormalQuotientRoundsSame | src/cpu/riscv_fpu.c:183-199 | A quotient whose nearest-even result has a nonzero exponent field rounds the same in both modes |
| TiesAway.ResidualMeaning | src/cpu/riscv_fpu.c:188-201 | For a zero or subnormal quotient, the residual as the fused multiply-add rounds it satisfies 2*rho = gap*b exactly when the true quotient is the away-side midpoint |
| TiesAway.RmmDivWideCorrect | src/cpu/riscv_fpu.c:195-211 | fdiv.s returns the ties-away quotient of all finite operands with a nonzero divisor (the other operands are SpecialOperands.DivideWideTotal) |
| TiesAway.RmmDivScaledCorrect | src/cpu/riscv_fpu.c:213-230 | fdiv.d returns it with its two-step scaled comparison, which may overflow but never to a false match (the other operands are SpecialOperands.DivideScaledTotal) |
| TiesAway.ProductExact | src/cpu/riscv_fpu.c:114-131 | The product of two single-precision floats is exact in the wide format |
| TiesAway.MidWideExact | src/cpu/riscv_fpu.c:114-131 | The widened midpoint between a float and its outward neighbour is exact |
| TiesAway.ZeroTest | src/cpu/riscv_fpu.c:132 | A rounded difference of floats is zero exactly when the floats are equal |
| TiesAway.RmmMulWideCorrect | src/cpu/riscv_fpu.c:125-166 | fmul.s returns the ties-away product of all finite operands (the other operands are SpecialOperands.MultiplyTotal) |
| TiesAway.SqrtNeedsNoFixup | src/cpu/riscv_fpu.c:71-74 | The square root of every float in every format rounds the same in both modes |
| TiesAway.SingleInDouble | src/cpu/riscv_fpu.c:114-116 | Double precision is wide enough for the single-precision tests: the widening hypotheses hold for binary32 in binary64 |
| SpecialOperands.DivideWideTotal | src/cpu/riscv_fpu.c:195-211 | fdiv.s returns the ties-away quotient on all data, zeros, infinities and NaNs included |
| SpecialOperands.DivideScaledTotal | src/cpu/riscv_fpu.c:213-230 | The same for fdiv.d |
| SpecialOperands.MultiplyTotal | src/cpu/riscv_fpu.c:157-166 | The same for fmul.s |
| FloatMeaning.QuotientRules | src/cpu/riscv_fpu.c:195-230 | Which quotients are NaN, infinite or zero, the sign of all, and the rounded quotient elsewhere, in both modes |
| FloatMeaning.ProductRules | src/cpu/riscv_fpu.c:157-166 | The same for products |
| PageTable.LookupSame | src/cpu/riscv_mmu.c:240-301 | The page-table lookup depends on no A or D bit and on no word off its path |
| PageTable.PageToFrame | src/cpu/riscv_mmu.c:240-301 | All addresses of one 4 KiB page translate alike, to one frame and at the same page offset, for every level count |
| PageTable.FrameIndependentOfAccess | src/cpu/riscv_mmu.c:156-172 | Permissions decide whether a translation exists, never where it points |
| PageTable.WithAD | src/cpu/riscv_mmu.c:274-285 | A is set, D is set if it was or for a write, and nothing else in the entry changes |
| PageTable.Machine.HostPtrPoints | src/cpu/riscv_mmu.c:148-154 | The host pointer of a RAM address is the byte of the buffer at the same distance from its start |
| PageWalk.EncodedFields | src/cpu/riscv_mmu.c:258-296 | V, R, W, X, U, A, D and the frame number are read from the bits where the entry format has them |
| PageWalk.EveryWordEncodes | src/cpu/riscv_mmu.c:258-296 | Every word is such an entry |
| PageWalk.Covered | src/cpu/riscv_mmu.c:319-338 | Bare mode, Sv39, Sv48 and Sv57, and RAM of whole pages anywhere in the address space, are in the scope of the translation theorems |
| PageWalk.IndexIsDigit | src/cpu/riscv_mmu.c:251-253 | The entry read at a level is the one at that level's nine-bit index, and what lies below is the offset in a large page |
| PageWalk.LookupIffReaches | src/cpu/riscv_mmu.c:240-301 | The lookup finds a leaf if and only if the chain of tables, followed at the address's indices, leads to it |
| PageWalk.TranslateIffMaps | src/cpu/riscv_mmu.c:240-301 | An address translates if and only if it is a sign extension, and that chain leads to an aligned leaf that the R, W, X and U bits, SUM and MXR allow; the result is the leaf's frame plus the indices not used plus the offset |
| PageWalk.BareIsIdentity | src/cpu/riscv_mmu.c:318-343 | M mode and bare mode translate every address to itself |
| PageWalk.DebugIgnoresPermissions | src/cpu/riscv_mmu.c:156-161 | A debugger access translates at every aligned leaf, whatever its permissions |
| Tlb.OffByOneMisses | src/cpu/riscv_mmu.c:91-109 | The off-by-one invalid tag equals no page number that maps to the same index |
| Tlb.FlushedMisses | src/cpu/riscv_mmu.c:77-89 | After a full flush no address hits for any access |
| Tlb.PageFlushedHits | src/cpu/riscv_mmu.c:91-109 | After a page flush that page misses for every access, and all other pages hit as before with the same pointer |
| Tlb.PutHits | src/cpu/riscv_mmu.c:111-146 | Exactly which pages and accesses hit after a fill, at which pointer, and that the page evicted from the shared index hits no more |
| TlbRun.CasOk | src/cpu/riscv_mmu.c:279-288 | A successful compare-and-swap completes a walk whose result a fresh walk would give, with A set, and D for a write |
| TlbRun.FillOk | src/cpu/riscv_mmu.c:111-146 | A fill keeps every hit of every page right, including the other accesses that share the pointer |
| TlbRun.SettingBitsIsCalm | src/cpu/riscv_mmu.c:274-285 | An A/D update anywhere changes no path of any context and clears no bit |
| TlbRun.QuietIsCalm | src/cpu/riscv_mmu.c:240-301 | Every step of any hart, short of a remap, keeps everything that any hart's walks read, up to A and D bits being set |
| TlbRun.StepKeepsInv | src/cpu/riscv_mmu.c:77-146 | Every atomic action of every hart, and a hart changing its own translation context with a flush, keeps every TLB and every walk in progress right |
| TlbRun.RunKeepsInv | src/cpu/riscv_mmu.c:77-146 | The same over every run from flushed TLBs |
| TlbRun.HitIsFreshWalk | src/cpu/riscv_mmu.h:168-202 | In every state of every run, a TLB hit yields the pointer to the byte of the RAM buffer that a fresh walk translates to, and its permission, with A set, and D behind a write hit, except exactly for read hits on an entry that lets no reads through, where it is the write walk that it agrees with |
| PageWalk.HitIsMapped | src/cpu/riscv_mmu.h:168-202 | The same with the translation spelled out: the chain of tables, the allowed and aligned leaf, the byte of the buffer, and the leaf's A and D bits |
| TlbRun.FillCaches | src/cpu/riscv_mmu.c:111-146 | A completed walk to RAM leaves its page cached for the access it was made for, at the right byte of the buffer |
| TlbRun.WriteFillReads | src/cpu/riscv_mmu.c:129-132 | After a write fill, the read hit is one a fresh read walk would give if and only if the entry has R, or X while MXR is set |
| TlbRun.ReadAfterWrite | src/cpu/riscv_mmu.c:264-270 | Where the write walk succeeds, the read walk succeeds if and only if those bits are set, and then at the same address |
| TlbRun.ReservedEntryReads | src/cpu/riscv_mmu.c:129-132 | A table with a W and X but not R entry on which the read hit is one that a walk refuses |
| TlbRun.TranslationStable | src/cpu/riscv_mmu.c:258-298 | Over every interleaving without a remap, no translation of any address at any privilege changes, and no A or D bit of a mapped page is lost |
| Mmu.SignExtendCanonical | src/cpu/riscv_mmu.c:246-249 | The sign-extension test accepts exactly the canonical addresses |
| Mmu.LeafAddress | src/cpu/riscv_mmu.c:270-288 | The walk's shifts and masks give the superpage alignment test and the frame address |
| Mmu.Hart.TlbFlush | src/cpu/riscv_mmu.c:77-89 | The in-place flush yields the flushed table and stops dispatch |
| Mmu.Hart.TlbFlushPage | src/cpu/riscv_mmu.c:91-109 | The in-place page flush, and dispatch stops if and only if the page was executable |
| Mmu.Hart.TlbPut | src/cpu/riscv_mmu.c:111-146 | The in-place fill yields the table of the specification |
| Mmu.Hart.TranslateRv64 | src/cpu/riscv_mmu.c:240-301 | The walk loop equals the recursive translation for every level count, whatever A and D bits other harts set meanwhile; it leaves A and D of its leaf set, and alone it changes nothing else |
| Mmu.Hart.UseEntry | src/cpu/riscv_mmu.c:258-297 | The retry loop around the compare-and-swap ends, with the outcome the entry had at first |
| Mmu.Hart.TranslateAny | src/cpu/riscv_mmu.c:306-344 | Loads and stores under MPRV translate as in the mode in MPP, everything else as in the current mode; MXR, mode and level dispatch around the walk |
| Mmu.Hart.SlowPtr | src/cpu/riscv_mmu.c:521-545 | A TLB miss answers with the pointer to the byte of the RAM buffer that the walk translates to, or a device address outside RAM, or a page fault; it leaves the page cached and the TLB in agreement with memory |
| Mmu.Hart.FastPtr | src/cpu/riscv_mmu.h:168-202 | Hit or miss, the answer is the byte, the device or the fault of a walk without any TLB, and so is the memory effect, except exactly for read hits on an entry that lets no reads through; a page found in RAM is cached afterwards |
| Mmu.Hart.SwitchPriv | src/cpu/riscv_hart.c:100-107 | A change of privilege flushes the TLB and stops dispatch; no change leaves both |
| Privilege.InitInv | src/cpu/riscv_csr.c:857-873 | The initial state satisfies the invariant |
| Privilege.NextKeepsInv | src/cpu/riscv_hart.c:163-199 | Every CSR operation, trap, interrupt, sret and mret keeps privilege and MPP in U, S, M, tvec.MODE in 0, 1, and the fixed delegation registers |
| Privilege.RunKeepsInv | src/cpu/riscv_csr.c:106-117 | The same in every reachable state |
| Privilege.TrapsGoUp | src/cpu/riscv_hart.c:163-199 | Traps and interrupts land in S or M, never below the current mode |
| Privilege.BelowMachine | src/cpu/riscv_csr.c:835-855 | Any action below M that stays below M leaves MIE, MPIE, MPP, MPRV, the M-only ie bits, medeleg, mideleg and the M trap CSRs unchanged |
| Privilege.CsrKeepsMachine | src/cpu/riscv_csr.c:267-318 | In particular every CSR operation from S or U does |
| Privilege.MachineStateProtected | src/cpu/riscv_csr.c:835-855 | The same over whole runs that stay below M |
| Privilege.MaskedWordBits | src/cpu/riscv_csr.c:61-104 | Swap, set and clear work bit by bit on the register width, and leave the bits above it alone |
| RegisterLaws.ExceptionTaken | src/cpu/riscv_hart.c:135-199 | An exception is taken in S if and only if it is raised below M and its bit is set in medeleg, and otherwise in M; every register and status bit afterwards |
| RegisterLaws.DeliverableIffWaiting | src/cpu/riscv_hart.h:65-68 | Something is deliverable if and only if a line is raised or set in ip, enabled in mie, and goes by mideleg to a mode above the current one, or to the current one with its enable bit on |
| RegisterLaws.InterruptTaken | src/cpu/riscv_hart.c:366-414 | Then, and only then, an interrupt is taken: the highest such line not delegated, in M, or if none is up the highest delegated one, in S; its cause with the interrupt bit of either width, direct and vectored entry, and every other register |
| Privilege.InterruptTakenIff | src/cpu/riscv_hart.c:366-414 | The same on pending sets: taken if and only if deliverable, M targets win over S, the highest-numbered one for the mode entered, and nothing deliverable is left |
| RegisterLaws.SretOutcome | src/cpu/riscv_priv.c:35-67 | sret is an illegal instruction in U, and in S under TSR; otherwise where it goes and every status bit it leaves |
| RegisterLaws.MretOutcome | src/cpu/riscv_priv.c:68-88 | mret is an illegal instruction below M; otherwise where it goes and every status bit it leaves, MPRV included |
| RegisterLaws.PlainOutcome | src/cpu/riscv_hart.c:416-453 | Any other instruction moves on and changes no trap CSR, except that the FPU leaves FS dirty |
| RegisterLaws.ResetState | src/cpu/riscv_csr.c:857-873 | The trap CSRs of a fresh hart |
| RegisterLaws.MaskedBitLaw | src/cpu/riscv_csr.c:61-83 | Swap, set and clear of a masked register, bit by bit |
| RegisterLaws.CsrLegal | src/cpu/riscv_csr.c:835-855 | An access to a trap CSR is an illegal instruction exactly below the mode in its number |
| RegisterLaws.CsrWritten | src/cpu/riscv_csr.c:591-715 | Which register each of the eighteen trap CSR numbers changes, which of its bits are writable, what becomes of each bit, that nothing else changes, and when an interrupt check follows |
| RegisterLaws.StatusWritten | src/cpu/riscv_csr.c:267-318 | mstatus and sstatus after a write, bit by bit and field by field: XS from FS and VS, MPP never 2, VS off, legal UXL and SXL |
| TrapNesting.EntrySaves | src/cpu/riscv_hart.c:135-199 | Trap entry saves mode, interrupt enable and PC for the mode entered, and leaves the other mode's frame alone |
| TrapNesting.EntryReports | src/cpu/riscv_hart.c:163-199 | Trap entry reports cause and value, disables the interrupts of the mode entered, goes to its vector, and changes no other CSR and no other status bit |
| TrapNesting.ReturnRestores | src/cpu/riscv_priv.c:50-88 | The matching return restores them, and leaves the other mode's frame alone |
| TrapNesting.ReturnEmpties | src/cpu/riscv_priv.c:50-88 | The return leaves an empty frame (enabled, in U), clears MPRV exactly when it leaves M, and changes no other CSR and no other status bit |
| TrapNesting.TameIsQuiet | src/cpu/riscv_csr.c:267-318 | Ordinary instructions, and legal CSR instructions (csrw, csrs and csrc alike) that do not touch epc of a live mode and leave the status bits of live frames as they were, stay in their mode and keep every live frame |
| TrapNesting.BodyKeepsFrames | src/cpu/riscv_hart.c:135-199 | Any well-bracketed activity of a handler ends in its mode with its frames intact |
| TrapNesting.NestRestores | src/cpu/riscv_priv.c:50-88 | Trap entry, any well-bracketed nesting and the matching return restore privilege, PC and the mode's interrupt enable |
| TrapNesting.NestedIsFlat | src/cpu/riscv_priv.c:50-88 | Running a nesting is running its actions in order: the entry, the body, and mret or sret |
| TrapNesting.HandlerReturns | src/cpu/riscv_priv.c:50-88 | In particular a trap, any number of ordinary instructions and the return bring the hart back to its mode and PC |
| TrapNesting.OtherCsrsAreTame | src/cpu/riscv_csr.c:591-715 | A handler may use every trap CSR it has access to other than status and the epc of a live mode |
| HartCpu.Hart.PushStatus | src/cpu/riscv_hart.c:135-154 | The field-by-field status rewrite is the push of the specification |
| HartCpu.Hart.RaiseTrap | src/cpu/riscv_hart.c:163-199 | The delegation loop stops at S or M and enters the trap of RegisterLaws.ExceptionTaken there |
| HartCpu.Hart.HandleInterrupts | src/cpu/riscv_hart.c:366-414 | The delegation loop never stops at H or U and takes the interrupt of RegisterLaws.InterruptTaken |
| HartCpu.Hart.CheckInterrupts | src/cpu/riscv_hart.c:326-331 | Dispatch stops if and only if a line is raised or set in ip and enabled in mie |
| HartCpu.Hart.ReturnS | src/cpu/riscv_priv.c:50-67 | sret in place (RegisterLaws.SretOutcome), with the interrupt check that follows it |
| HartCpu.Hart.ReturnM | src/cpu/riscv_priv.c:68-88 | mret in place (RegisterLaws.MretOutcome), with the interrupt check that follows it |
| HartCpu.Hart.WriteStatus | src/cpu/riscv_csr.c:267-318 | The stepwise legalisation of status (RegisterLaws.StatusWritten), with an interrupt check exactly when SIE or MIE is switched on |
| HartCpu.Hart.CsrAccess | src/cpu/riscv_csr.c:835-855 | The update of RegisterLaws.CsrWritten after read-only and privilege checks; refused accesses change nothing; ie and ip accesses always check for interrupts |
| HartCpu.Hart.constructor | src/cpu/riscv_csr.c:857-873 | A new hart is in the initial state of the specification |
| Notify.InsnServes | src/cpu/riscv_csr.c:310-333 | No instruction that skips the interrupt check, other than a mideleg write, makes an interrupt newly deliverable |
| Notify.StepKeepsInv | src/cpu/riscv_hart.c:219-238 | Every atomic action of the hart, a notifier or a device keeps the protocol invariant |
| Notify.RunKeepsInv | src/cpu/riscv_hart.c:416-453 | The same over every interleaving |
| Notify.NothingIsLost | src/cpu/riscv_hart.c:416-453 | In every interleaving: if a line is raised or set in ip, enabled in mie and open at its privilege, or a pause is queued, then running is false, or the hart has yet to check, or a notifier has yet to clear running |
| Notify.WfiIsWoken | src/cpu/riscv_priv.c:89-117 | A hart stalled in wfi with a line up and enabled in mie has been or is about to be woken |
| NotifyProgress.InterruptIsServed | src/cpu/riscv_hart.c:416-453 | In every interleaving: once every notifier has finished, within seven of the hart's own steps no such line is waiting any more, taken or withdrawn, or the hart has stopped |
| NotifyProgress.CheckTakes | src/cpu/riscv_hart.c:366-414 | At the check a waiting line is taken as RegisterLaws.InterruptTaken says, and none is left waiting |
| NotifyProgress.PauseIsObeyed | src/cpu/riscv_hart.c:416-477 | In every interleaving: once every notifier has finished, a queued pause stops the hart within seven of its own steps |
| NotifyProgress.RaiseIsServed | src/cpu/riscv_hart.c:225-238 | From the call that raises a line on, in every interleaving in which nothing takes it down: once every notifier has finished, within seven own steps the line is up and the hart is paused, or has it disabled in mie, or runs in or above the mode it goes to with that mode closed to it |
| NotifyProgress.PauseCallIsObeyed | src/cpu/riscv_hart.c:473-477 | From the call that queues a pause on, in every interleaving: once every notifier has finished, the hart has stopped within seven own steps |
| NotifyProgress.CheckOutcome | src/cpu/riscv_priv.c:89-117 | A check stops dispatch, and wfi does not stall, if and only if a line is up and enabled; a stalled wfi ends if and only if running is false |
| NotifyProgress.NotifiersNeverWait | src/cpu/riscv_hart.c:211-238 | Whatever the others do, a notifier can take its next step |
| NotifyProgress.SpawnStartsRun | src/cpu/riscv_hart.c:465-471 | A hart spawned after reset, with any lines up, starts a run that the theorems are about |
| Notify.MidelegExact | src/cpu/riscv_hart.c:366-414 | When a mideleg write breaks the guarantee, for all states and values |
| Notify.MidelegOverlooks | src/cpu/riscv_hart.c:366-414 | From reset, four CSR instructions lead to a state in which it does |
| Aia.TopIsActive | src/cpu/riscv_csr.c:348-358 | topei reports a pending, enabled identity, the highest of the first word that has any, and 0 exactly when delivery is off or there is none but identity 0 |
| Aia.LineMeaning | src/cpu/riscv_hart.c:265-314 | What a right line is: up exactly when delivery is on and some identity below 256 is pending and enabled |
| Aia.ClaimShrinks | src/cpu/riscv_hart.c:265-324 | A claim removes the reported identity from the pending ones, and besides it at most an identity 0 that had come out on top |
| Aia.ClaimsDrain | src/cpu/riscv_hart.c:265-324 | Repeated claims return each pending, enabled identity other than 0 exactly once, and then 0 |
| Aia.RegFile.Send | src/cpu/riscv_hart.c:246-263 | An MSI sets its pending bit if delivery is on, and the line stays raised if and only if delivery is on and an enabled identity is pending |
| Aia.RegFile.Update | src/cpu/riscv_hart.c:265-314 | The scan loop returns the top identity, claims it if asked, and sets the line by what is left |
| Aia.CsrWrite | src/cpu/riscv_csr.c:506-589 | A write to eidelivery, eip or eie (Aia.WordOpBits) keeps the line right |
| Aia.CsrWritePair | src/cpu/riscv_csr.c:538-555 | A 64-bit hart reaches two words through an even register (Aia.PairWrittenBits), none through an odd one, and the line stays right |
| Aia.WordOpBits | src/cpu/riscv_csr.c:506-528 | Swap, set and clear of a register word, bit by bit, and when nothing is written |
| Aia.PairWrittenBits | src/cpu/riscv_csr.c:538-555 | Which bits of which words such an access changes |
| Aia.Topei | src/cpu/riscv_csr.c:348-358 | Reading topei reports and writing it claims, and the line stays right |
| AiaRun.StepKeepsInv | src/cpu/riscv_hart.c:246-314 | Every atomic step of senders and of the scan keeps every enabled pending identity covered by the line, a sender about to raise it, or the scan |
| AiaRun.ResetInv | src/cpu/riscv_hart.c:69-74 | A fresh register file with no sender under way satisfies the invariant that the runs keep |
| AiaRun.SendRange | src/cpu/riscv_hart.c:246-249 | MSIs carry identities 1 to 255 |
| AiaRun.NoMsiLost | src/cpu/riscv_hart.c:246-314 | In every interleaving with safe enabling writes, once every sender and scan is done, no enabled identity is pending with the line down |
| AiaRun.StaleIsLost | src/cpu/riscv_hart.c:252-258 | In every state in which a sender holds an outdated reading of an enable bit, whatever the scan and the other senders are doing, some run from there loses its MSI |
| AiaRun.LossIffUnsafe | src/cpu/riscv_hart.c:246-314 | In every state that satisfies the invariant, an enabling write can be followed by a loss if and only if it sets an enable bit that some sender has just read as off |
| AiaAlone.AloneIsUpdate | src/cpu/riscv_hart.c:265-314 | A scan of the interleaved model that no sender disturbs ends, with the pending identities and the line that the register file's update gives at once |
| AiaAlone.AloneIsSend | src/cpu/riscv_hart.c:246-263 | An MSI of the interleaved model that nothing disturbs does what the register file's send does at once |
| LrSc.OneWinPerLoad | src/cpu/riscv_atomics.h:205-227 | In every run, each LR of a hart permits at most one successful SC |
| LrSc.CountsAre | src/cpu/riscv_atomics.h:205-227 | The counts in it are the numbers of LR steps and of SC steps that succeed |
| LrSc.ApartIff | src/cpu/riscv_atomics.h:205-227 | Cells are apart if and only if they share no word, for both widths |
| LrSc.WinHoldsReserved | src/cpu/riscv_atomics.h:218-227 | An SC succeeds only if the hart's latest LR or SC was an LR of that address, and, if of the same cell, the cell holds the value that LR returned |
| LrSc.WinsIff | src/cpu/riscv_atomics.h:205-227 | Exactly when an SC succeeds, on any run |
| LrSc.UntouchedWins | src/cpu/riscv_atomics.h:205-227 | An SC succeeds if nothing has written to the cell since the hart's LR |
| LrSc.TouchesIff | src/cpu/riscv_atomics.h:205-227 | A step writes to a cell if and only if it is a store, or an SC that succeeds, to a word of the cell |
| LrSc.WinsIffFirst | src/cpu/riscv_atomics.h:205-227 | Where values do not repeat, an SC succeeds if and only if no SC has updated the cell since the hart's LR |
| LrSc.CounterNoRepeat | src/cpu/riscv_atomics.h:305-327 | A counter that has not wrapped does not repeat values |
| LrSc.NoLostUpdate | src/cpu/riscv_atomics.h:205-227 | For any number of harts, any interleaving and any update function f, the cell is its initial value taken through f once per successful SC |
| LrSc.CounterCounts | src/cpu/riscv_atomics.h:305-327 | Harts looping over LR, add one, SC make the cell its initial value plus the number of successful SCs, modulo the width |
| LrSc.AbaSucceeds | src/cpu/riscv_atomics.h:218-227 | A run in which an SC succeeds although the cell was changed in between |
| LrSc.Core.LoadReserved | src/cpu/riscv_atomics.h:205-214 | LR in place is the LR step of the runs |
| LrSc.Core.StoreConditional | src/cpu/riscv_atomics.h:215-227 | SC in place is the SC step of the runs, and rd tells whether it succeeded |
| MmioPlacement.OverlapMeaning | src/core/rvvm.c:867-870 | The overlap test says that two nonempty regions share an address, where no end wraps |
| MmioPlacement.EmptyRegionBlocks | src/core/rvvm.c:872-874 | An empty region is overlapped exactly when it lies strictly inside |
| MmioPlacement.AscendLeast | src/core/rvvm.c:872-897 | The search returns the least free candidate (the request or a page boundary above it, whose zone does not wrap), and fails to find one only if there is none |
| MmioPlacement.RestartsBounded | src/core/rvvm.c:878-893 | Every restart retires a region for good, so there are at most as many restarts as regions |
| MmioPlacement.RestartedIs | src/core/rvvm.c:878-893 | A restart goes past RAM if the zone overlaps it, and otherwise past the first device it overlaps |
| MmioPlacement.SettledIsFirst | src/core/rvvm.c:878-893 | What the search settles on is the first free zone that its restarts come to |
| MmioPlacement.RoomySettles | src/core/rvvm.c:878-893 | The search stops whenever no region ends within a page of the top of the address space |
| MmioPlacement.RoomSettles | src/core/rvvm.c:878-893 | The search stops whenever some page boundary has room |
| MmioPlacement.StopsIffRoom | src/core/rvvm.c:878-893 | Where moving past a region never lands within the zone's size of the top, the search stops if and only if the request is free or some page boundary has room |
| MmioPlacement.StopsIffSettles | src/core/rvvm.c:878-893 | Some number of restarts reaches a free zone if and only if going up from the request or from 0 does |
| MmioPlacement.SearchCanCycle | src/core/rvvm.c:878-893 | A layout on which the search never stops |
| MmioPlacement.SettledIsRequest | src/core/rvvm.c:916-921 | The search answers with the request itself exactly when the requested zone is free |
| MmioPlacement.AcceptedSizes | src/core/rvvm.c:906-915 | A device that is let in has power-of-two operation sizes, the smaller at most 8, except a size above 128 on hosts that round up |
| MmioPlacement.NormalisedIs | src/core/rvvm.c:906-908 | Operation sizes default to 1 and 8; others become the nearest power of two below, or above on hosts without a bit scan |
| MmioPlacement.RunKeepsDisjoint | src/core/rvvm.c:899-973 | Any sequence of attaches and removals keeps nonempty devices and RAM disjoint, and no address has two devices |
| MmioPlacement.UniqueMatch | src/cpu/riscv_mmu.c:411-415 | At most one device holds a physical address, wrapping regions included |
| MmioPlacement.RamIsApart | src/cpu/riscv_mmu.c:148-154 | No device holds an address of RAM |
| MmioPlacement.Machine.ZoneAuto | src/core/rvvm.c:872-897 | The restart loop terminates with the address of the specification |
| MmioPlacement.Machine.Attach | src/core/rvvm.c:899-941 | Attaching succeeds if and only if the normalised sizes are in order and at most 8 and the zone is free or empty, and then appends that device |
| MmioPlacement.Machine.Remove | src/core/rvvm.c:943-973 | The removal loop leaves the list of MmioPlacement.WithoutKeeps |
| MmioPlacement.WithoutKeeps | src/core/rvvm.c:943-973 | What is left is exactly the devices with other handles, in their order |
| MmioPlacement.Machine.Scan | src/cpu/riscv_mmu.c:411-455 | The scan finds the one device that holds the address, or none holds it |
| MmioAccess.UnalignedOp | src/cpu/riscv_mmu.c:368-408 | At any size and offset the realignment loop moves exactly the bytes asked for, or a first part of them when a handler it needs is missing; at power-of-two sizes every handler call is aligned and within the device's operation sizes |
| MmioAccess.DeviceOp | src/cpu/riscv_mmu.c:411-433 | The same for the direct and the realigned access together, and the zeroed buffer without a handler |
| MmioAccess.Merged | src/cpu/riscv_mmu.c:386-396 | Writing back a block that was read and merged stores just the merged bytes |
| PageStraddle.InPage | src/cpu/riscv_mmu.c:521-545 | Within a page, moving bytes one at a time is moving them at once, faults included |
| PageStraddle.Concat | src/cpu/riscv_mmu.c:502-515 | Two consecutive runs of bytes make one, and a fault in the first stops both |
| PageStraddle.Bus.Op | src/cpu/riscv_mmu.c:495-545 | A load or store, straddling or not, equals the access made byte by byte up to the first faulting byte |
| PageStraddle.BytesMeaning | src/cpu/riscv_mmu.c:495-545 | What byte by byte means: each byte moves at the address its own virtual address has, up to the first that has none; loads write no memory, stores nowhere else |
| PageStraddle.BackedIff | src/cpu/riscv_mmu.c:148-154 | Frames lie in memory if and only if every byte with an address does |
| PageStraddle.PagesOfTranslates | src/cpu/riscv_mmu.c:306-344 | The page map used there is what the page-table walk computes |
| FdtFormat.RoundTrip | src/core/rvvm_fdt.c:188-254 | Parsing the bytes of any tree with NUL-free names gives the same tree |
| FdtLayout.BlobConforms | src/core/rvvm_fdt.c:18-33 | The blob of every tree below 4 GiB has the header, tokens, big-endian numbers, names, padding and blocks of the format, byte by byte |
| FdtLayout.NodeIsAt | src/core/rvvm_fdt.c:188-212 | The same for every subtree: token 1, name, properties (token 3, length, name offset, value, padding), children, token 2 |
| FdtLayout.NopsSkipped | src/core/rvvm_fdt.c:24-28 | The parser passes over token 4 |
| FdtFormat.ParseNodeOk | src/core/rvvm_fdt.c:188-212 | The same for every subtree, at any place in the blocks |
| FdtFormat.HeaderFields | src/core/rvvm_fdt.c:237-247 | The header holds the format's constants and the true offsets and sizes |
| FdtFormat.SizeFieldExact | src/core/rvvm_fdt.c:225-240 | The 32-bit size field is right exactly for blobs below 4 GiB |
| FdtWriter.SizeDesc.AddTree | src/core/rvvm_fdt.c:136-154 | The size pass adds exactly the bytes the tree takes in both blocks |
| FdtWriter.Writer.PutTree | src/core/rvvm_fdt.c:188-212 | The emit pass appends the tree's bytes at both cursors, and touches neither the header nor what lies past the blob |
| FdtWriter.Writer.PutAll | src/core/rvvm_fdt.c:249-250 | The structure cursor ends at the start of the strings block and the strings cursor at the computed size |
| FdtWriter.PutHeader | src/core/rvvm_fdt.c:237-247 | The header words in place |
| FdtWriter.Serialize | src/core/rvvm_fdt.c:214-254 | The size without a buffer, 0 for a buffer too small, and otherwise the blob, which conforms to the format, with nothing written past it |
| FdtWriter.WriteThenParse | src/core/rvvm_fdt.c:214-254 | Parsing what the serialiser wrote into the buffer gives the tree back |

## Left out

- The Sv32 walk: its entries are shifted in 32-bit arithmetic, so 34-bit physical addresses are not represented.
- satp writes, SUM, MXR or MPRV changes without a fence, single-page fences on superpages, debugger accesses, and direct-mapped device regions in the TLB: TLB agreement is not maintained across these.
- The interpreter's local instruction pointer after a single-page flush, and instruction decoding.
- RVJIT and its TLB.
- TiesAway.RmmDivWideCorrect: finite operands and a nonzero divisor only; SpecialOperands.DivideWideTotal has all data.
- TiesAway.RmmDivScaledCorrect: finite operands and a nonzero divisor only; SpecialOperands.DivideScaledTotal has all data.
- TiesAway.RmmMulWideCorrect: finite operands only; SpecialOperands.MultiplyTotal has all data.
- TiesAway.RmmAddCorrect: takes the result as correctly rounded and the error as exact, which is what the floating-point library promises.
- fmul.d below the exponent limit, the FMA family, exception flags, NaN payloads and the selection of the rounding mode. fmul.d above the limit is TiesAway.RmmApplyCorrect with the exact product error.
- PageWalk.TranslateIffMaps: the root table starts a page, as the root in satp always does.
- Mmu.Hart.TranslateAny: does not dispatch to the Sv32 walk.
- Mmu.Hart.SlowPtr: moves no data, which PageStraddle does, and needs MPRV off, as TLB agreement does.
- Mmu.Hart.FastPtr: needs MPRV off, as TLB agreement does.
- Mmu.Hart.SwitchPriv: does not model the update of the register width.
- HartCpu.Hart.CsrAccess: does not model the value returned to the destination register, nor CSRs other than the trap CSRs; legal instructions on those are Plain actions.
- Privilege.MachineStateProtected: ip bits of machine level are not part of the protected view, which lists what the properties are about.
- misa and the tracking of the register width: every action carries the width it runs at.
- Notify.NothingIsLost: mideleg writes are not part of the runs, because the guarantee fails across them; Notify.MidelegExact says when.
- NotifyProgress.InterruptIsServed: counts the hart's own steps, not time, over the same runs without mideleg writes.
- Notify.WfiIsWoken: a stalled wfi waits for running to become false; its condition variable and the timers are not modelled.
- Weak memory orderings and thread creation: the protocols are under sequential consistency.
- Nonzero eithreshold, and standard priority order among interrupts and AIA identities: the code picks the highest bit number, and so does the model.
- AMO instructions other than LR and SC, and LR/SC on device memory.
- LrSc.NoLostUpdate: accesses that overlap the cell have its width and place, and each hart's mapping of addresses does not change.
- MmioPlacement.Machine.ZoneAuto: requires a search that stops, since the source's loop does not return otherwise.
- MmioPlacement.Machine.Attach: requires a search that stops, for the same reason.
- MmioPlacement.Machine.Remove: does not model the TLB flush for mapped regions.
- MmioPlacement.Machine.Scan: finds the device; the access to it is MmioAccess.DeviceOp.
- Relocation of regions and PCI BAR moves, which bypass the overlap check.
- MmioAccess.UnalignedOp: device offsets do not wrap at 64 bits, and handlers that are present succeed.
- MmioAccess.DeviceOp: does not model direct mappings.
- PageStraddle.Bus.Op: every mapped page is plain memory throughout; pages that only partly belong to a device are not modelled.
- FdtFormat.RoundTrip: blobs below 4 GiB, the largest the format can describe (FdtFormat.SizeFieldExact).
- FdtFormat.HeaderFields: blobs below 4 GiB, for the same reason.
- FdtWriter.Serialize: blobs below 4 GiB, since all sizes in the source are 32-bit and unchecked.
- FdtWriter.WriteThenParse: blobs below 4 GiB, for the same reason.
- Editing of devicetree nodes, snapshots, user-mode emulation, isolation, the debugger stub, graphics, sound, terminal and network devices.
