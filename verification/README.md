# AutomationOS: verified models of the core

A Dafny model of seven parts of the AutomationOS kernel, boot loader and build tools, with proofs of what
each part promises.

| files | what they model |
|---|---|
| `ProcessPool.dfy`, `ReapProtocol.dfy`, `ReapTheorems.dfy` | reference counting, the PID table and the reap claim, under every interleaving of any number of contexts |
| `ReapFinality.dfy` | termination is final in every run |
| `ReapLimits.dfy`, `ReapWitness.dfy` | the conditions those theorems put on claims are needed: continuations that break the guarantee, and two runs event by event |
| `PageWalk.dfy`, `PageBuilder.dfy`, `LoaderTables.dfy` | the four-level page-table builders, against the hardware walk of section 4.5 of Intel SDM volume 3A |
| `SandboxMachine.dfy`, `SandboxCompiler.dfy`, `SandboxDecisions.dfy` | the sandbox profile compiler, against a classic BPF machine, down to the values the kernel sees |
| `Sha256Spec.dfy`, `Sha256Code.dfy` | the streaming and the one-shot SHA-256, against sections 5 and 6.2 of FIPS 180-4 |
| `Sha256Laws.dfy` | what its functions and tables are: bit laws, and the roots of the first primes (sections 4.1.2, 4.2.2, 5.3.3) |
| `AuditLog.dfy`, `AuditBuffer.dfy`, `AuditRules.dfy`, `AuditGlob.dfy` | the audit ring with its hash chain, the rule list and the glob matcher |
| `AuditBurst.dfy`, `AuditConfusion.dfy` | which changes of a record its hash is sure to show, and where that ends |
| `FramebufferRaster.dfy`, `WriteCombining.dfy` | integer square root, spans and discs, and write-combining range programming (section 11.11 of Intel SDM volume 3A) |
| `UstarFormat.dfy`, `InitrdWriter.dfy` | the initial ramdisk writer, against a reader of the ustar interchange format of POSIX pax |
| `Common.dfy`, `Bits.dfy`, `BitMasks.dfy` | shared types; powers of two, OR, AND, XOR and single bits on natural numbers |

Code that changes state in place is a class or a method over arrays, proved equal to a function on values; the
theorems are about those functions. `dafny verify dfyconfig.toml` checks everything.

## Properties that turned out not to hold

Each has a concrete witness or an exact condition, and the code is modelled as it stands.

- *No schedule trips an assert or touches a freed block* fails when a process is claimed while its creation
  reference is still with its creator, or was already given back by a failed fork. `sys_kill` marks any published
  process terminated (`kernel/core/signal/kill.c:142`), and a process is published before the steps of fork that
  can fail (`kernel/core/sched/process.c:376`, `kernel/core/syscall/handlers.c:386-431`), so a reaper can get there
  first: `ReapWitness.KilledForkTrips` is such a run. `Safety` holds for every schedule whose claims are
  considerate, that is made on processes that were committed or already claimed (`AllConsiderate`), and
  `InconsiderateTrips` shows the condition is needed: after any considerate run, any other claim has a
  continuation that trips an assert. The claims of the shutdown path are considerate because it runs without
  concurrent creation (`kernel/core/sched/process.c:124-126`); the model lets it race.
- *A process never frees the block it runs on* (invariant 1 of the reap simulation) fails when a reaper claims a
  process that another CPU is still switching away from: `ReapWitness.ImpatientSelfFrees` is such a run.
  `SelfFreeExactly` says exactly when a drop of one's own running reference frees the block;
  `PatientNeverSelfFrees` proves the invariant for every run whose claims wait until the process has left every
  CPU, and `ImpatientFrees` shows that waiting is needed: after any considerate run, a reaper's claim won while a
  context runs the process has a continuation in which that context frees its own block. The scheduler's comment
  assumes one CPU and says the point must be revisited for several (`kernel/core/sched/scheduler.c:2818-2827`).
- *The compiled filter follows the profile.* The emitted false-branch distance is 2 where a rule body has one
  instruction. With distance 1 every profile is compiled correctly (`DistanceOneIsPolicy`); with the emitted
  distance the exact meaning is `EmittedExactly`, the validator accepts exactly the profiles that emit no rule
  (`EmittedAccepted`), and the runs agree with the policy exactly for the profiles of `Harmless`.
- *The framebuffer is mapped.* The loop counts 2 MB pages by size alone, so a base inside its first page can leave
  the last page unmapped (`FramebufferTailLost`); every byte is mapped to itself exactly when bits 20:13 of the
  base are clear and the base's offset in its page fits into what the last page has to spare
  (`FramebufferCovered`).
- *A 2 MB page maps the frame it is given* exactly when bits 20:13 of the frame are clear (`LargePageExactly`).
- *The glob matcher decides the textbook relation* exactly for patterns with at most 15 stars that are followed by
  more pattern and no two stars at the end (`GlobCompleteExactly`); it is sound for all.
- *Verification accepts an untampered audit log* exactly when the log is empty or the newest event that has left
  it hashes to the seed, in particular while none has left (`VerifyUntampered`); `RejectedUntampered` gives
  untampered runs that are rejected.
- *Verification notices every changed sequence number* holds for changes within four adjacent bytes, as for every
  other field (`TamperedRecordFound`), so for all numbers below 2^32; beyond, exactly when the eight bytes hash
  differently after the fields before them (`RenumberedFoundExactly`), and `RenumberedUnseen` names two numbers
  that do not.
- *A denied call is not allowed* holds for errno values below 2^16 (`AllowedOnlyByAllow`); a deciding DENY rule
  returns the value of ALLOW exactly for four errno values, 0x7ffa0000 the least of them (`RuleDecides`). The profile
  parser only produces small ones (`tools/sandbox-compiler.py:229-232`).
- *An assigned rule id is new* exactly when no surviving rule was added with that id of its own, until the counter
  wraps (`AssignedIdUnused`, `AssignedIdTaken`).
- *The write-combining range grows until the base is aligned* never happens: doubling cannot help, so the range is
  programmed exactly when the base is a multiple of the size rounded up to a power of two (`CoveringRange`). The
  comment about growing (`kernel/drivers/framebuffer.c:139-143`) describes a branch that is never taken. Rounding
  up does not end for sizes above 2^63 (`DoublingEnds`). The comment that the MTRR enable bit is restored "as
  before" is not what the code does either: it always sets it.
- *A horizontal run is clipped to the screen* exactly when its 32-bit sum does not wrap; otherwise it overruns the
  buffer (`ClipExactly`, `DrawHline`).
- *The archive reads back as written* exactly when every name has at most 99 bytes after its leading slashes and
  every size and time is below 8^11 (`ReadBackExactly`).
- *`fb_isqrt32` terminates* for every input but 2^32 - 1, where the first sum wraps to zero and the next step
  divides by it (`Isqrt32`).

## Model

| member | source | states |
|---|---|---|
| ProcessPool.FirstFree | build_test/refsim_reap.c:176-178 | the lowest free block: everything below it is live, it is not |
| ProcessPool.ReparentExactly | build_test/refsim_reap.c:250-256 | exactly the live children of the parent (not init) get init as parent, no other field or block changes, and a second call changes nothing |
| ProcessPool.ProcessTable.constructor | build_test/refsim_reap.c:268-270 | the boot state: no block live, no PID published |
| ProcessPool.ProcessTable.ProcRef | build_test/refsim_reap.c:98-102 | the new pool is Ref of the old one |
| ProcessPool.ProcessTable.ProcUnref | build_test/refsim_reap.c:106-134 | the new pool is Unref of the old one: at zero the block is freed and the PID unpublished if it is still its own; a negative index is ignored |
| ProcessPool.ProcessTable.Enqueue | build_test/refsim_reap.c:139-145 | the new pool is SchedAdd of the old one; the answer says whether anything changed |
| ProcessPool.ProcessTable.Pick | build_test/refsim_reap.c:150-163 | the scan loop computes PickFrom: it drains terminated entries and transfers the first runnable one, block by block as PickExactly and PickUnpublishes say |
| ProcessPool.ProcessTable.Dequeue | build_test/refsim_reap.c:165-170 | the new pool is SchedRemove of the old one |
| ProcessPool.ProcessTable.Create | build_test/refsim_reap.c:175-194 | the lowest free block is filled and published with the next sequence number |
| ProcessPool.ProcessTable.ProcDestroy | build_test/refsim_reap.c:199-203 | remove from the queue, then one unref |
| ProcessPool.ProcessTable.ReapClaimRelease | build_test/refsim_reap.c:207-214 | the flag is up afterwards, and the creation reference is dropped only if it was down |
| ProcessPool.ProcessTable.GetByPid | build_test/refsim_reap.c:218-225 | the published index with one more reference, or -1 and no change |
| ProcessPool.ProcessTable.GetByPidSeq | build_test/refsim_reap.c:227-235 | the same, only for the expected incarnation |
| ProcessPool.ProcessTable.ScheduleDead | build_test/refsim_reap.c:242-246 | pick and mark the successor, then drop the dead process's running reference |
| ProcessPool.ProcessTable.ReparentChildren | build_test/refsim_reap.c:250-256 | the loop computes Reparent in place |
| ProcessPool.PickExactly | build_test/refsim_reap.c:147-163 | up to the block returned nothing stays live and queued: each dead queued block loses exactly its queue reference, and its life if that was the last; the returned block leaves the queue with its count unchanged; every other block is as it was |
| ProcessPool.PickUnpublishes | build_test/refsim_reap.c:122-127 | a scan unpublishes a PID exactly when the block published under it carries that PID and is freed |
| ProcessPool.PickTrips | build_test/refsim_reap.c:111-121 | a scan trips the double-free assert exactly when it reaches a dead queued block without references |
| ReapFinality.StepFinal | build_test/refsim_reap.c:139-145 | no event makes a live terminated process that is off the run queue runnable or queued again |
| ReapFinality.TerminationIsFinal | build_test/refsim_reap.c:139-163 | in every continuation of every run such a process stays terminated and off the queue for as long as it lives |
| ReapTheorems.PickPicks | build_test/refsim_reap.c:147-163 | pick_next returns the lowest queued runnable process, or -1 exactly when there is none; elsewhere it only drains |
| ReapProtocol.UnrefRestores | build_test/refsim_reap.c:106-134 | dropping a reference the count is one ahead by trips no assert and restores every part of the invariant, the last drop included |
| ReapProtocol.PickKept | build_test/refsim_reap.c:150-163 | draining keeps the invariant; the entry returned keeps its queue reference, which the caller now owes |
| ReapProtocol.ClaimEvent | build_test/refsim_reap.c:207-214 | the exchange keeps the invariant whether it is won or lost; a winner becomes the only owner of the creation reference |
| ReapProtocol.StepKept | build_test/refsim_reap.c:98-246 | every considerate event of every context, enabled or not, trips no assert, touches no freed block and keeps the invariant |
| ReapTheorems.Safety | build_test/refsim_reap.c:98-246 | for any number of contexts, blocks and PIDs, no schedule whose claims are considerate ever trips an assert, and the invariant holds after it |
| ReapLimits.InconsiderateTrips | build_test/refsim_reap.c:205-214 | after any such schedule, a claim that is not considerate has a continuation that trips an assert |
| ReapWitness.KilledForkTrips | kernel/core/syscall/handlers.c:386-431 | a run in which a process is killed and reaped before its fork ends, and the fork touches a freed block however it ends |
| ReapTheorems.ExactCounts | build_test/refsim_reap.c:10-38 | in every state such a schedule reaches each count is creation + queue + running + lookup references outstanding, a block is live exactly while one is, and at most one context owns the creation reference |
| ReapTheorems.OncePerIncarnation | build_test/refsim_reap.c:371-409 | in every such run each incarnation's creation reference is dropped at most once, it is torn down at most once, and a torn-down one has seen exactly one of each |
| ReapTheorems.NoLeak | build_test/refsim_reap.c:458-478 | once all references are released, created equals freed, no block is live and no PID is published |
| ReapTheorems.LookupIsExact | build_test/refsim_reap.c:227-235 | in every reachable state a lookup by PID and sequence number finds that very incarnation if and only if it lives under that PID |
| ReapTheorems.DeadStaysDead | build_test/refsim_reap.c:122-133 | a freed incarnation never lives again in any continuation |
| ReapTheorems.StalePairFails | build_test/refsim_reap.c:412-436 | its PID and sequence number never resolve again, even after block and PID are reused |
| ReapTheorems.SelfFreeExactly | build_test/refsim_reap.c:45-48 | dropping one's own running reference frees the block exactly when the creation reference is gone and nobody else holds one |
| ReapTheorems.PatientNeverSelfFrees | build_test/refsim_reap.c:45-48 | it never does in a run whose claims wait until the process has left every CPU |
| ReapLimits.ImpatientFrees | build_test/refsim_reap.c:45-48 | after any considerate run, a reaper's claim won while a context runs the process has a continuation in which that context's own drop frees the block |
| ReapWitness.ImpatientSelfFrees | build_test/refsim_reap.c:45-48 | a considerate run of two contexts in which it does |
| ReapTheorems.ReaperCalls | build_test/refsim_reap.c:207-214 | the claim event and the drop that follows it are together reap_claim_release, its asserts included |
| ReapTheorems.DestroyCall | build_test/refsim_reap.c:199-203 | the two events after it are together process_destroy |
| ReapTheorems.ScheduleCall | build_test/refsim_reap.c:242-246 | the two events of a dying process are together schedule_terminated |
| ReapTheorems.ReapFrees | build_test/refsim_reap.c:303-324 | from any reachable state one undisturbed reap by any idle context frees a zombie and its PID, and changes no context |
| ReapTheorems.BaselineLeaks | build_test/refsim.c:86-115 | without the claim, a process that was ever enqueued is never freed and stays published, whatever any context does |
| PageWalk.PathUnique | boot/paging.c:69-104 | two addresses whose walks meet in a table agree on every index above it |
| PageWalk.LinkInvisible | boot/paging.c:82-100 | hanging a zeroed table under an absent entry changes no translation |
| PageWalk.LinkTree | boot/paging.c:82-100 | ... and keeps the tables a tree |
| PageWalk.LeafExact | boot/paging.c:102-103 | storing a leaf on an address's path remaps exactly that page and no other address |
| PageWalk.Digits | boot/paging.c:77-80 | the indices are the base-512 digits of the page number |
| PageBuilder.LargePageExactly | boot/paging.c:102-103 | the entry written for a page-aligned frame maps its 2 MB frame, or faults on every access, according to bits 20:13 |
| PageBuilder.Pager.AllocTable | boot/paging.c:39-59 | a fresh zeroed page that no table uses, or 0 exactly when the firmware refuses or hands out address 0; one answer is used up and nothing visible changes |
| PageWalk.LinkPath | boot/paging.c:82-100 | linking a zeroed table lengthens exactly the paths through that entry, by one table |
| PageBuilder.Pager.GetOrCreate | boot/paging.c:82-100 | the next table on the path, created from one more answer if absent; it fails exactly when that answer is not good; no translation changes, and exactly the paths that share the entry get longer |
| PageBuilder.Pager.MapPage2MB | boot/paging.c:69-104 | succeeds exactly when the firmware grants the tables the path lacks, and takes no more; then exactly that 2 MB page is remapped, to the entry written; otherwise no translation changes |
| PageBuilder.Pager.MapPage4KB | boot/paging.c:114-160 | the same for a 4 KB page, with up to three tables |
| PageBuilder.Pager.MapRun | boot/paging.c:177-190 | a loop of 2 MB pages remaps all of them exactly when every table they lack is granted; otherwise some page is as it was; no other address changes |
| PageBuilder.FreshRunCost | boot/paging.c:177-190 | a run of new pages in one 512 GB region takes one table for the region and one for each gigabyte |
| PageBuilder.PagesRoundUp | boot/paging.c:183 | page k counts exactly when the size reaches into it; within 2 MB of 2^64 the sum wraps to no page |
| PageBuilder.Pager.SetupPageTables | boot/paging.c:170-193 | low 4 GB onto itself, at KERNEL_VMA every 2 MB page that the kernel's size reaches into onto the kernel, everything else unmapped, exactly when the firmware grants the six to nine tables this takes; otherwise some address is left unmapped and none is wrong; NULL exactly when the first one is refused |
| PageBuilder.Pager.MapFramebuffer | boot/paging.c:232-244 | every 2 MB page from the base's on that the size reaches into is identity-mapped (or faults, by the bits above) exactly when every table they lack is granted; everything else keeps its translation |
| PageBuilder.FramebufferCovered | boot/paging.c:237-243 | over unmapped addresses every byte of the framebuffer translates to itself exactly when bits 20:13 of the base are clear and its offset is at most the bytes by which the size falls short of whole pages |
| PageBuilder.FramebufferTailLost | boot/paging.c:237-243 | a page-aligned base and a size for which the last page is not mapped |
| LoaderTables.StaticWalk | boot/loader.c:469-503 | any memory holding the four static tables translates like setup_page_tables for a 1 GB kernel at address 0 |
| LoaderTables.BuildStaticTables | boot/loader.c:474-503 | the loops and assignments build such tables, so both loaders agree on every address |
| SandboxMachine.Validate | tools/sandbox-compiler.py:353-373 | the loop decides Accepted: non-empty, ends in a return, all jumps inside |
| SandboxMachine.AcceptedReturns | tools/sandbox-compiler.py:353-373 | an accepted program of loads, forward jumps and returns reaches a return within its length in steps, on every input |
| SandboxMachine.Encode | tools/sandbox-compiler.py:76-78 | eight bytes, or an error exactly when a field does not fit |
| SandboxMachine.DecodeAllEncodeAll | tools/sandbox-compiler.py:379-384 | a written program decodes to itself, and writing succeeds exactly when every field fits |
| SandboxCompiler.BPFCompiler.Compile | tools/sandbox-compiler.py:296-343 | the rule loop leaves exactly Program(profile, distance), whose run RuleDecides and DefaultDecides state |
| SandboxCompiler.DistanceOneIsPolicy | tools/sandbox-compiler.py:296-343 | with distance 1, for every profile and input: kill on a foreign architecture, else the first matching rule, else the default |
| SandboxDecisions.RuleDecides | tools/sandbox-compiler.py:308-331 | with distance 1 the first unconditional rule for the loaded number decides: ALLOW returns 0x7fff0000, TRAP 0x30000, KILL 0, DENY the errno (1 when absent or zero) under 5 in the upper half |
| SandboxDecisions.DefaultDecides | tools/sandbox-compiler.py:333-341 | with no such rule the default decides, by its four values; any other name kills |
| SandboxDecisions.AllowedOnlyByAllow | tools/sandbox-compiler.py:296-343 | a foreign architecture is killed, and a run returns 0x7fff0000 exactly when that rule, or the default when there is none, is ALLOW, or a denial with one of four errno values above sixteen bits |
| SandboxDecisions.DenyValue | tools/sandbox-compiler.py:325-327 | OR-ing any errno in keeps its low half and joins its high half with the action |
| SandboxCompiler.EmittedExactly | tools/sandbox-compiler.py:319-320 | the exact result with the emitted distance 2, running off the end included |
| SandboxCompiler.EmittedAccepted | tools/sandbox-compiler.py:353-373 | the validator accepts it exactly when no rule was emitted |
| SandboxCompiler.EmittedFollowsPolicyExactly | tools/sandbox-compiler.py:319-320 | its run agrees with the policy on every input exactly for Harmless profiles |
| SandboxCompiler.ProgramEncodes | tools/sandbox-compiler.py:379-384 | with errno values below 2^16 every emitted instruction can be written |
| Chaining.ChainAppend | kernel/crypto/sha256.c:112-151 | chaining over a concatenation of whole blocks is chaining twice |
| Chaining.LongAppend | kernel/crypto/sha256.c:112-151 | how data that closes the open block splits into blocks and remainder |
| Sha256Laws.RotrBit | kernel/crypto/sha256.c:30 | bit k of a rotation is bit (k + n) mod 32 |
| Sha256Laws.ChBit | kernel/crypto/sha256.c:33 | bit k of Ch is y's where x has a one, else z's |
| Sha256Laws.MajBit | kernel/crypto/sha256.c:34 | bit k of Maj is the majority of the three |
| Sha256Laws.SigmaBits | kernel/crypto/sha256.c:35-38 | bit k of each sigma is the exclusive OR of three named bits of x, those beyond the word being zero |
| Sha256Laws.SameWord | kernel/crypto/sha256.c:30-38 | a word is determined by its 32 bits, so these laws determine the functions |
| Sha256Tables.PrimesInOrder | kernel/crypto/sha256.c:9-27 | the list of primes starts at 2 and each entry is the next prime |
| Sha256Tables.KIsCubeRoots | kernel/crypto/sha256.c:9-27 | K[t] is the first 32 bits of the fractional part of the cube root of the t-th prime |
| Sha256Tables.IVIsSquareRoots | kernel/crypto/sha256.c:41-55 | ... and the initial words of the square roots of the first eight |
| Sha256Code.LoadWordIsBlockWord | kernel/crypto/sha256.c:64-70 | the shifted and OR-ed bytes are the big-endian word |
| Sha256Code.Context.Schedule | kernel/crypto/sha256.c:64-75 | W holds the message schedule of FIPS 180-4 |
| Sha256Code.Context.Transform | kernel/crypto/sha256.c:58-109 | one block is one application of the compression function |
| Sha256Code.Context.Init | kernel/crypto/sha256.c:41-55 | nothing absorbed |
| Sha256Code.Context.Update | kernel/crypto/sha256.c:112-151 | the data is absorbed after everything before it, whatever the fill of the buffer |
| Sha256Code.Context.Final | kernel/crypto/sha256.c:154-197 | the FIPS 180-4 digest of everything absorbed |
| Sha256Code.PadOne | kernel/crypto/sha256.c:160-177 | padding is one closing block when the marker leaves room for the length |
| Sha256Code.PadTwo | kernel/crypto/sha256.c:160-177 | ... and two when it does not |
| Sha256Code.Hash | kernel/crypto/sha256.c:200-205 | the one-shot kernel hash is the FIPS 180-4 digest |
| Sha256Code.BootHash | boot/boot_crypto.c:69-127 | so is the boot loader's |
| Sha256Code.HashChunks | kernel/crypto/sha256.c:112-197 | however a message is cut into updates, empty ones included, the digest is that of the whole |
| AuditLog.HashEvent | kernel/audit/log.c:188-204 | the loop computes FNV-1a of the hashed bytes |
| AuditLog.StepStateInjective | kernel/audit/log.c:198-201 | one hash step is injective in the state |
| AuditLog.StepByteInjective | kernel/audit/log.c:198-201 | ... and in the byte |
| AuditLog.FnvDetectsByte | kernel/audit/log.c:188-204 | changing any one byte changes the hash |
| AuditLog.RunConsistent | kernel/audit/buffer.c:63-203 | after any run adjacent events are linked, sequence numbers are consecutive up to the last write, last_hash is the newest hash, and writes = read + dropped + cleared + resident |
| AuditLog.VerifiedExactly | kernel/audit/buffer.c:221-254 | a linked log verifies exactly when it is empty or starts at the expected hash |
| AuditLog.RunRemembers | kernel/audit/buffer.c:63-203 | after any run the log holds the newest events written, and all events ever written form one chain from the seed |
| AuditLog.VerifyUntampered | kernel/audit/buffer.c:221-254 | an untampered run verifies exactly when nothing is resident or the newest event that has left the log hashes to the seed; so it does while none has left |
| AuditLog.RejectedUntampered | kernel/audit/buffer.c:221-254 | of any two events that differ in a byte, at least one starts an untampered run that is rejected after one read |
| AuditLog.TamperedByteFound | kernel/audit/buffer.c:221-254 | changing any one hashed byte of any resident event of any run makes verification fail; TamperedRecordFound says it of the record's fields |
| AuditBurst.FourBytes | kernel/audit/log.c:198-201 | four bytes hashed from one state are determined by the state they lead to |
| AuditBurst.FnvDetectsBurst | kernel/audit/log.c:188-204 | any change confined to four adjacent bytes changes the hash |
| AuditBurst.LittleEndianExactly | kernel/audit/log.c:194-201 | n little-endian bytes determine a number modulo 256^n, and no more |
| AuditBurst.TamperedRecordFound | kernel/audit/buffer.c:221-254 | changing the fields before the sequence number, the number, or the fields after it within four adjacent bytes, in any resident event of any run, makes verification fail |
| AuditBurst.RenumberedFoundExactly | kernel/audit/buffer.c:221-254 | a new sequence number of any size is found exactly when its eight bytes hash differently after the fields before them |
| AuditConfusion.RenumberedUnseen | kernel/audit/log.c:188-204 | two sequence numbers that hash alike after eight zero bytes |
| AuditLog.TamperedLinkFound | kernel/audit/buffer.c:221-254 | while a log verifies, changing a stored hash or link of any event makes it fail |
| AuditBuffer.Ring.constructor | kernel/audit/buffer.c:22-50 | an empty log of that capacity |
| AuditBuffer.Ring.Seal | kernel/audit/buffer.c:80-86 | number, link and hash |
| AuditBuffer.Ring.MakeRoom | kernel/audit/buffer.c:70-78 | a full ring forgets its oldest event and counts it as dropped |
| AuditBuffer.Ring.WriteEvent | kernel/audit/buffer.c:63-97 | append, discarding the oldest event when full |
| AuditBuffer.Ring.ReadEvent | kernel/audit/buffer.c:99-122 | take the oldest event, or fail on an empty log |
| AuditBuffer.Ring.ReadMany | kernel/audit/buffer.c:145-166 | take the oldest events in order, up to the limit |
| AuditBuffer.Ring.PeekEvent | kernel/audit/buffer.c:169-187 | the event at an offset from the oldest, or failure exactly beyond the end |
| AuditBuffer.Ring.ClearAll | kernel/audit/buffer.c:190-203 | nothing resident; the cleared events are accounted for |
| AuditBuffer.Ring.VerifyIntegrity | kernel/audit/buffer.c:221-254 | the loop over the ring decides Verified of the log |
| AuditGlob.Glob | kernel/audit/rules.c:43-72 | the recursive scan computes GlobDepth, and terminates |
| AuditGlob.DepthExactly | kernel/audit/filter.c:227-256 | the depth limit counts inner stars and nothing else |
| AuditGlob.GlobSound | kernel/audit/rules.c:43-72 | no text is accepted that the pattern does not stand for |
| AuditGlob.GlobCompleteExactly | kernel/audit/rules.c:43-72 | the matcher decides the textbook relation exactly for patterns with at most 15 inner stars and no double star at the end |
| AuditRules.RunOrdered | kernel/audit/rules.c:147-209 | after any run the surviving rules are in order of addition |
| AuditRules.VerdictOf | kernel/audit/rules.c:261-287 | the verdict is the action of the first matching rule in that order, LOG if there is none |
| AuditRules.EarliestRuleDecides | kernel/audit/rules.c:261-287 | after any run the earliest-added surviving enabled matching rule decides |
| AuditRules.RuleList.AddRule | kernel/audit/rules.c:147-179 | a new youngest rule, with the id given or the next one assigned, or -1 and no change without memory |
| AuditRules.AssignedIdUnused | kernel/audit/rules.c:163-166 | until the counter wraps, the id assigned next is unused exactly when no surviving rule was added with that id of its own |
| AuditRules.AssignedIdTaken | kernel/audit/rules.c:163-166 | a rule added as number 1 and then one without a number both carry id 1 |
| AuditRules.RuleList.IndexOf | kernel/audit/rules.c:211-226 | the list search finds the youngest rule with the id |
| AuditRules.RuleList.DeleteRule | kernel/audit/rules.c:181-209 | removes that rule and no other; the status says whether there was one |
| AuditRules.RuleList.SetRuleEnabled | kernel/audit/rules.c:290-309 | switches that rule and no other |
| AuditRules.RuleList.ClearRules | kernel/audit/rules.c:334-351 | removes all rules |
| AuditRules.RuleList.Evaluate | kernel/audit/rules.c:261-287 | the last match in the list, that is the earliest-added, wins |
| AuditRules.FieldsSeparate | kernel/audit/rules.c:228-259 | changing one field of an event matters exactly to rules with that filter, which then match exactly their own value; a disabled rule matches nothing |
| AuditRules.SwitchedOff | kernel/audit/rules.c:290-309 | switching a rule off decides every event as deleting it does, and switching it back on restores the rules |
| AuditRules.PathRuleMeans | kernel/audit/rules.c:228-259 | an enabled path rule never matches an event whose path its pattern does not stand for, and matches exactly those it does for patterns with at most 15 inner stars and no double star at the end |
| FramebufferRaster.Isqrt32 | kernel/drivers/framebuffer.c:762-767 | the floor square root of every n below 2^32 - 1, and a fault exactly there |
| FramebufferRaster.NewtonAbove | kernel/drivers/framebuffer.c:762-767 | a Newton step never falls below the root |
| FramebufferRaster.InSpanExactly | kernel/drivers/framebuffer.c:796-798 | an offset lies in the row exactly when its square does not exceed the remainder |
| FramebufferRaster.ColorBytes | kernel/drivers/framebuffer.c:522-536 | the bytes stored, lowest first, make up the colour |
| FramebufferRaster.Framebuffer.FillRow | kernel/drivers/framebuffer.c:522-536 | exactly count pixels get the colour, by packed 64-bit stores and an odd last pixel |
| FramebufferRaster.ClipExactly | kernel/drivers/framebuffer.c:677-678 | the clipped run stays on the scanline exactly when the 32-bit sum does not wrap |
| FramebufferRaster.Framebuffer.DrawHline | kernel/drivers/framebuffer.c:671-684 | exactly the on-screen pixels of the run are painted and no other byte, padding included, changes, unless the 32-bit sum wraps: then everything from its first pixel to the end of the buffer is painted and the run goes on past it |
| FramebufferRaster.RowExactly | kernel/drivers/framebuffer.c:796-801 | the clipped run of a row is exactly the row's part of the disc |
| FramebufferRaster.Framebuffer.FillCircle | kernel/drivers/framebuffer.c:789-803 | exactly the on-screen pixels within distance r of the centre are painted and no other byte changes, for all arguments for which no 32-bit expression overflows |
| WriteCombining.CeilLog | kernel/drivers/framebuffer.c:60-67 | the least power of two that is not smaller |
| WriteCombining.Po2Up | kernel/drivers/framebuffer.c:60-67 | the doubling loop finds it up to 2^63, and wraps to zero beyond |
| WriteCombining.DoublingEnds | kernel/drivers/framebuffer.c:60-67 | some iterate reaches the value exactly when it is at most 2^63 |
| WriteCombining.MaskBitsAre | kernel/drivers/framebuffer.c:92-94 | the mask of a w-bit processor is the address bits 12 to w - 1 |
| WriteCombining.NeverAligned | kernel/drivers/framebuffer.c:144-149 | a base misaligned to a power of two is misaligned to every larger one |
| WriteCombining.CoveringRange | kernel/drivers/framebuffer.c:131-159 | a range is found exactly when the base is a multiple of the rounded size, and it is that size: the growing loop never succeeds |
| WriteCombining.RangeExactly | kernel/drivers/framebuffer.c:176-179 | the two register words select exactly the addresses of one aligned block, the one that holds the base |
| WriteCombining.BlockCovers | kernel/drivers/framebuffer.c:131-159 | that block contains the framebuffer; from a page up it is [base, base + 2^k), less than twice its size |
| WriteCombining.Processor.WritePair | kernel/drivers/framebuffer.c:198-200 | both registers of one pair, only with interrupts off, caches in no-fill mode and MTRRs disabled |
| WriteCombining.Processor.FindFree | kernel/drivers/framebuffer.c:161-174 | the lowest pair that is not in use |
| WriteCombining.Processor.EnableWriteCombining | kernel/drivers/framebuffer.c:115-209 | programs exactly when the range exists and a pair is free, is caught in the rounding loop exactly for sizes above 2^63; only that pair changes and it then selects exactly the block of the base; CR0 is restored |
| UstarFormat.KeptExactly | tools/mkinitrd.c:107-109 | an n-digit field holds its number exactly when the number is below 8^n |
| UstarFormat.TextIs | tools/mkinitrd.c:107-109 | an overlong number keeps its most significant digits |
| UstarFormat.FieldReads | tools/mkinitrd.c:107-109 | what a reader finds in a written field |
| UstarFormat.Checksum | tools/mkinitrd.c:114-128 | always fits six octal digits |
| UstarFormat.ChecksumTracks | tools/mkinitrd.c:114-128 | the checksum follows every byte outside its own field by that byte's change, ignores its own, and is 256 for zeros |
| UstarFormat.CalculateChecksum | tools/mkinitrd.c:114-128 | the loop sums the bytes with the checksum field read as spaces, without wrapping |
| UstarFormat.FlippedByteFound | tools/mkinitrd.c:168-173 | no change of a single byte outside the checksum leaves a header trusted |
| InitrdWriter.StripExactly | tools/mkinitrd.c:137-139 | exactly the leading slashes go |
| InitrdWriter.Writer.WriteTarHeader | tools/mkinitrd.c:133-181 | appends the header of the stripped and clipped name, size, mode and time |
| InitrdWriter.Writer.WriteFileData | tools/mkinitrd.c:186-234 | appends the contents in 4096-byte pieces and zeros to the next block |
| InitrdWriter.Writer.CreateInitrd | tools/mkinitrd.c:239-298 | skips missing and non-regular paths, stops at an unreadable file, ends with two zero blocks |
| InitrdWriter.SealedTrusted | tools/mkinitrd.c:168-173 | the checksum written is the one a reader computes over the finished header |
| InitrdWriter.HeaderReads | tools/mkinitrd.c:133-181 | what a reader makes of any header written |
| InitrdWriter.ReadBackExactly | tools/mkinitrd.c:239-298 | a checking reader recovers exactly the listed regular files, in order, with name, mode, time and contents, if and only if each is representable |
| InitrdWriter.TruncatedRejected | tools/mkinitrd.c:186-191 | an archive cut short at the first unreadable file is rejected by the reader when the regular files before it are smaller than 8^11 bytes |
| InitrdWriter.ArchiveShape | tools/mkinitrd.c:239-298 | a whole number of blocks, complete exactly when every file could be read |

## Left out

- PageBuilder.Pager.MapPage4KB: asks that no 2 MB page covers the address; the source would follow the large entry as if it pointed to a table.
- PageBuilder.Pager.SetupPageTables: the map is stated for a 2 MB-aligned kernel of at most 2 GB below 2^52; outside that only validity and the NULL return are.
- FramebufferRaster.Framebuffer.FillCircle: asks that no 32-bit expression overflows, which C leaves undefined.
- The physical address checks of framebuffer_init (non-zero, below 16 GB), and which CPUID answer gives the address width.
- WriteCombining.Processor.EnableWriteCombining: cache flushes, CR3 reloads and the effect of overlapping MTRRs are not modelled.
- ProcessPool.ProcessTable.Create: asks for a free block and an unpublished PID, where the source asserts them.
- ReapTheorems.BaselineLeaks: the baseline reuses the pool of the fixed protocol without the claim; its own pool has no sequence numbers and no asserts.
- InitrdWriter.TruncatedRejected: says nothing when an earlier file has 8^11 bytes or more, whose contents the reader then takes for headers.
- ReapTheorems.Safety: asks for considerate claims, the exact condition of InconsiderateTrips.
- The rest of `sys_kill`: the kill event only marks the process; its queue entry goes by pick_next or a reaper.
- InitrdWriter.Writer.CreateInitrd: write failures and a file that changes size between stat and read are not modelled; the file list is a sequence, and the clock is part of the entry.
- AuditBurst.TamperedRecordFound: a change spread over more than four adjacent bytes is covered only for the sequence number, by RenumberedFoundExactly.
- SandboxCompiler.BPFCompiler.Compile: the four actions only; an unknown action string would emit no return.
- Rules with a condition in the sandbox compiler: nothing is emitted for them; profile parsing and the other output formats are not modelled.
- Null-pointer checks and print statements throughout.
- Reference counts and sequence numbers of the process pool are unbounded integers.
- Locking: each locked audit operation is one atomic step.
- Path-filter storage, rate limiting, default rules and statistics of the audit subsystem.
- `paging_map_acpi`: a loop of 4 KB mappings, below 4 GB under the 2 MB pages of the identity map (see MapPage4KB).
- RSA verification, the spinner and its sine table, vertical lines and rectangles.
- UEFI, port and MMIO access, ACPI, HDA, boot menu, health monitor: foreign effects or simpler walks.
- Directory recursion and argument parsing of the ramdisk tool.
