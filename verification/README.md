# Verified model of the HAZE record-and-replay library

HAZE presents a homomorphic-encryption accelerator as a device with memory: allocate polynomials, upload,
add, multiply, rotate, convert bases, download. No call computes. Calls append instructions to a recorded
program, bind device addresses to symbolic polynomials, and keep a table of multi-residue output groups;
`hazeFlush` replays the recording and fills in the stored bytes of what was tagged. This project models
that machinery and the number theory its operations are specified by, and proves both.

**The engine.** The classes `DeviceAllocator`, `EpochState`, `Config` and `CompilerBackend` and the methods of
`Polymap` and `Api` update maps, sets and counters as the program does. Each is proved to compute a function of
`RecorderModel` (or `HeapModel`) on its abstract view. `RecorderLaws`, `RecorderTableLaws` and `Refinement` prove
that these functions refine `DeviceModel`, a machine that computes at once and has no instructions, names,
counters or reverse index. `EagerMemory` goes one step further down: within an epoch the device's values are a
plain map from addresses to values. The arithmetic of the accelerator is an uninterpreted function on whole
polynomials, so the results hold for any arithmetic; what the replay engine computes for an instruction is that
function, and replay is the fold that evaluates the recorded list.

**Invariants and histories.** `DeviceInvariant` is what every reachable device satisfies. `GroupHistory` and
`Lifetimes` characterize groups, tags and promotions by the history of calls and replies. `ComputeCalls` brings
every compute call into one form; on it rest `Freshness`, what comes back to the host and exactly when it can be
stale, and `Aliasing`, what overlapping arrays do. `ProgramExport` says
what the written program computes, `Replies` what every call answers and what comes back of what was sent, `Moduli`
which modulus is recorded where, and `ErrorReplies` when a client can see an internal error.

**Arithmetic.** `NumberTheory` proves Euclid's lemma and Fermat's theorem; on it rest `Montgomery`,
`SwitchModulus`, `FastBaseConversion` (Chinese remaindering with bounds) and `Rescaling` (nearest integer).
`BitReversal`, `Automorphism`, `Negacyclic` and `KeyswitchDigits` cover index permutations, the ring product and
the digit layout. The 64-bit sums and products that could wrap are written modulo 2^64; they are shown not to wrap or
not to matter, with one exception: the digit lengths of `hazeModUp`, for which `BasisConversion.AcceptedSlices` gives
the exact condition.

**Threads.** `Locks` and `InitProtocol` are step systems over any number of threads.

A call is *lawful* (`DeviceModel.Lawful`) if its arrays have the lengths its base promises, the digit lengths of a
ModUp add up to less than 2^64, and the polynomial size changes only while nothing is allocated; a flush must also go
in a way that is possible. Nothing else is assumed of callers: null, unknown and unallocated addresses, wrong sizes,
missing values, invalid bases and back-end failures are modelled with the errors the library reports.

Where code and documentation differ, the model follows the code:

- The allocator's comment on fresh addresses (`src/core/allocator.cpp:98-101`) says a device-to-device copy creates
  stored bytes. It does not: it records a copy and only binds the destination (`src/core/epoch.cpp:180-201`).
- The comment in `copy_h2d` (`src/core/allocator.cpp:272-274`) says that a partial write leaves the tail at zero. It
  does so only for an address with nothing stored; otherwise the old tail stays (`Allocator.WriteFrontExact`).
- A computation over an uploaded address keeps the uploaded bytes (`src/core/epoch.cpp:134-145`), so a read-back is
  not always fresh or an error; `Freshness.ComputeFreshness`, `CopyFreshness` and `CopiesFreshness` give the exact
  conditions.
- A failing flush is said to leave no stale bytes behind (`src/core/epoch.cpp:437-438`). It ends the epoch, but keeps
  the bytes stored before for a tagged address it did not get to (`Freshness.MissedReadBack`);
  `Freshness.StaleAfterFailedFlush` is a program.
- The check that the digit lengths of `hazeModUp` add up is there to prevent slicing out of bounds
  (`src/core/basis_convert.cpp:94-96`). Its sum can wrap; `BasisConversion.WrappedLengthsAccepted` is an input.
- An upload keeps the recorded modulus and the group promotion of the address, and drops only its tag
  (`src/core/epoch.cpp:222-226`).
- The two centred lifts use different halfway points (`test/e2e/ops.cpp:55`, `test/test_basis_convert.cpp:621-624`);
  they agree for odd moduli, and `SwitchModulus.LiftsAgreeExactly` says when they do not.

## Model

| member | source | states |
|---|---|---|
| `Api.RunProgram` | src/core/epoch.hpp:228-251 | a new library object, run on any lawful list of API calls, gives the replies of the machine that computes at once and ends in a state standing for that machine's; what it has written is that of `ProgramExport.WrittenExactly` |
| `Api.ExecuteAll` | src/core/epoch.hpp:36-69 | the same from any well-formed state: the imperative objects refine the eager device over unbounded runs |
| `Api.Execute` | src/api/memory.cpp:29-181 | one call on the recording objects is one step of the eager device, same reply, and keeps the invariant |
| `Refinement.RunRefines` | src/core/epoch.cpp:101-228 | record and replay refines computing at once: over every lawful run the replies (bytes and errors included) and the final device are equal |
| `Refinement.ActRefines` | src/core/epoch.cpp:365-383 | each single call of the recorder moves the abstract device exactly as the eager call does, keeps all invariants, and reuses no name |
| `EagerMemory.StepEffect` | src/core/compute.hpp:34-49 | inside an epoch every lawful call with full-size writes does to the values exactly what a plain address-to-value map does |
| `EagerMemory.RunEffects` | src/core/epoch.cpp:101-145 | over any run inside an epoch the device's values are the plain memory's |
| `EagerMemory.FailedComputeChangesNothing` | src/core/compute.hpp:104-123 | a failing compute call changes no address's value, even after some sources were read |
| `Freshness.EndToEnd` | src/core/epoch.cpp:395-466 | for every lawful program: after a replayed flush, reading back a tagged address returns its value, and any other address reads as before the flush |
| `Freshness.FlushExact` | src/core/epoch.cpp:440-463 | a replayed flush stores the value of every tagged address, changes no other stored byte, and re-bases the memory on the stored bytes |
| `Freshness.InterruptedExact` | src/core/epoch.cpp:440-463 | a flush whose read-back stops at a missing or undecodable result or at an address not allocated has stored exactly the values it got to, changed no other byte, and ended the epoch |
| `Freshness.MissedReadBack` | src/core/epoch.cpp:437-463 | after a failing flush a tagged address that was not stored answers as before it: an error, as the comment promises, exactly if nothing was stored for it |
| `Freshness.StaleAfterFailedFlush` | src/core/epoch.cpp:437-463 | a concrete lawful program that reads back stale bytes of a tagged address after its flush failed, in whichever way it fails |
| `Freshness.UnreplayedKeepsStored` | src/core/epoch.cpp:400-438 | when the epoch ends without replay, or in failure, no stored byte changes; a refused flush leaves the device as it is |
| `Freshness.ComputeFreshness` | src/core/epoch.cpp:134-145 | for every compute call, single or multi-residue: "read-back is fresh or an error" survives it, whatever polynomials it computes, exactly when no destination has stored bytes once the sources are read; for one arithmetic, exactly when those that have are given the stored bytes |
| `Freshness.CopyFreshness` | src/core/epoch.cpp:180-201 | for a copy: exactly when its destination has no stored bytes once the source is read, or has the copied ones |
| `Freshness.CopiesFreshness` | src/core/mrp_polymap.cpp:103-125 | for a multi-residue copy: exactly when every destination that keeps stored bytes through the sequence of copies holds what they leave in it |
| `Freshness.StaleReadBack` | src/api/memory.cpp:125-150 | a concrete program that reads back stale bytes under every arithmetic in which adding 1 to zeros does not give zeros |
| `Freshness.CleanRunCoherent` | src/core/allocator.cpp:300-320 | programs that compute only into addresses without stored bytes never read back a stale value, at any point, across epochs |
| `Freshness.CoherentReads` | src/core/allocator.cpp:300-320 | on a coherent device a successful read-back is the current value cut to the requested count |
| `ProgramExport.WrittenExactly` | src/core/epoch.cpp:379-419 | over every lawful program, for hazeWriteProgram and for the program a flush replays: the written list, evaluated, gives under exactly one output name per tagged address its value, under exactly one per promoted group the value and modulus of every member in order, and there are no other outputs; every recorded input has exactly one name; no other call changes what is written |
| `ProgramExport.WritesAll` | src/core/epoch.cpp:313-363 | the same of every well-formed recorder |
| `ProgramExport.ReplayedGroups` | src/core/epoch.cpp:336-360 | after a replayed flush the promoted groups and no others can be had by name, with value and modulus of every member in order |
| `ProgramExport.InputGroupDescribed` | src/core/mrp_polymap.cpp:33-58 | an array whose first residue is a recorded input is described once, by the instructions that compute its residues in order and their moduli; nothing else is described |
| `Replies.ComputeReplies` | src/core/compute.hpp:34-157 | every compute call is refused, changing nothing, exactly for bad arguments (spelled out per call), succeeds exactly if all its sources have a value, and else answers the error of the first that has none |
| `Replies.ModDownReplies` | src/core/basis_convert.cpp:59-85 | Done exactly for non-empty bases, a rescale base that is a shorter part of the source base, and sources with values; InvalidArgument exactly for bad bases |
| `Replies.ArrayReadReplies` | src/core/mrp_polymap.cpp:92-101 | a multi-residue download is its single downloads in order, or the error of the first that fails |
| `Replies.ArrayEndToEnd` | src/core/mrp_polymap.cpp:92-101 | after a replayed flush a download of tagged residues returns their values in order |
| `Replies.ReadReplies` | src/core/allocator.cpp:300-320 | a download answers the stored bytes cut to the count, or the exact error |
| `Replies.FillReadsBack` | src/api/memory.cpp:173-181 | after a fill the first bytes read back the low eight bits of the value, the others what was stored or zeros, and no other address changes; the exact refusals |
| `Replies.UploadReadsBack` | src/api/memory.cpp:125-137 | after an upload the address reads back the data, then what was stored or zeros, and has that value; no other address changes; the exact refusals |
| `Replies.ArrayUploadReplies` | src/core/mrp_polymap.cpp:78-90 | an array upload succeeds exactly if every entry would; else it answers the error of the first that would not, with those before it written |
| `Replies.CopyReplies` | src/core/epoch.cpp:544-550 | a copy succeeds exactly if its source has a value; the exact error otherwise |
| `Replies.ArrayCopyReplies` | src/core/mrp_polymap.cpp:103-125 | an array copy succeeds exactly if each source has a value at its turn; else the error of the first that has none |
| `Replies.AllocateReplies` | src/api/memory.cpp:29-37 | the exact answer of an allocation: most recently freed first, else the next fresh address |
| `Replies.ArrayAllocateReplies` | src/api/memory.cpp:45-61 | the exact answer of a batch allocation, with the bound of 64 |
| `Replies.FreeReplies` | src/api/memory.cpp:39-43 | the exact answer of a free |
| `Replies.ArrayFreeReplies` | src/api/memory.cpp:63-84 | a batch free errs exactly if an entry is neither null nor live, or repeats |
| `Replies.FirstAddress` | src/common/handle.hpp:24 | the first address handed out |
| `Replies.SettingsReplies` | src/core/config.cpp:30-54 | the exact answers of setting the ring dimension, configuring and resetting |
| `Replies.TagReplies` | src/api/lifecycle.cpp:65-69 | tagging succeeds exactly on an address with an epoch value |
| `Replies.EndReplies` | src/core/epoch.cpp:395-466 | the exact answer of an epoch end for every back-end outcome |
| `Moduli.ArrayModuli` | src/core/mrp_polymap.cpp:60-76 | an array computation records for each of its distinct destinations the modulus of its own residue and leaves every other address alone |
| `Moduli.OneModulus` | src/core/compute.hpp:34-79 | a computation on one residue records the modulus of the table |
| `Moduli.AutomorphModulus` | src/core/compute.hpp:85-100 | a slot permutation hands the modulus of its source on |
| `Moduli.CopyModulus` | src/core/epoch.cpp:180-201 | so does a copy |
| `Moduli.ArrayCopyModuli` | src/core/mrp_polymap.cpp:103-125 | of an array copy the last step that touches an address, as destination or source, decides its modulus |
| `Moduli.ForgottenModulus` | src/core/epoch.cpp:76-99 | a free or a fill forgets the modulus of its address only |
| `Refinement.ReachableCanExport` | src/core/epoch.cpp:152-178 | at every point of every lawful program everything tagged is bound, promoted groups are known, the two group maps are inverse with at most one group per address, and each group bears its leader's name |
| `Refinement.AlwaysExportReady` | src/core/epoch.cpp:313-363 | a well-formed recorder can always be exported |
| `Refinement.ProbesAreGroupValues` | src/core/epoch.cpp:336-360 | each promoted group is exported under its leader's name with the value and modulus of every member |
| `Refinement.OutputNamesNeverReused` | src/core/epoch.cpp:230-235 | within an epoch an output name in use twice names one address, which held it all along |
| `Refinement.GroupNamesNeverReused` | src/core/epoch.cpp:489-497 | the same for the names of output groups and their leaders |
| `Refinement.InputNamesKept` | src/core/epoch.hpp:128-135 | within an epoch an input name stands for one recorded input and an input group keeps its first description |
| `Refinement.InputGroupNamesNeverReused` | src/core/epoch.cpp:489-497 | the names of input groups are not reused either |
| `Refinement.RunNames` | src/core/epoch.cpp:489-497 | over any run inside an epoch every name is kept by its address or is new |
| `Lifetimes.KnownGroupsAreHistory` | src/core/epoch.cpp:237-311 | the known groups are exactly the registrations of this epoch no address of which a later registration or invalidate touched; the history is told by calls and replies |
| `Lifetimes.StepHistory` | src/core/epoch.cpp:60-99 | every call keeps the groups equal to what the history leaves and extends the history by the events its arguments and reply tell |
| `GroupHistory.RegisterHistory` | src/core/epoch.cpp:255-303 | registering (new, identical, replacing or conflicting) keeps groups and history in agreement |
| `GroupHistory.InvalidateHistory` | src/core/epoch.cpp:76-99 | so does invalidating an address |
| `GroupHistory.StepFollows` | src/core/mrp_polymap.cpp:60-76 | outside uploads, tagging and epoch end, a call changes tags, groups and promotions only through its events |
| `Lifetimes.TagLifetime` | src/core/epoch.cpp:222-226 | over any run a tag lasts until the address is uploaded, filled or freed or the epoch ends; nothing else takes it |
| `Lifetimes.TagsGained` | src/core/epoch.cpp:278-303 | outside tagging an address gets a tag only as a member of a group that replaces a promoted one |
| `Lifetimes.TagOutExact` | src/core/epoch.cpp:152-178 | tagging succeeds exactly on bound addresses; it tags the address alone, or the whole group holding it, which it promotes |
| `Lifetimes.PromotionLifetime` | src/core/epoch.cpp:278-303 | promotions follow their groups: a call keeps exactly those whose leader leads a group after each of its events; members of a same-leader replacement are all tagged |
| `Lifetimes.UploadUntagsForGood` | src/core/epoch.cpp:254-261 | uploading to a member of a promoted group untags it but keeps the promotion, and recording the identical result again does not tag it |
| `Lifetimes.UploadGroupsKept` | src/core/epoch.cpp:203-228 | an upload takes the uploaded addresses' tags and leaves groups and promotions alone |
| `GroupIndex.EvictOthersClears` | src/core/epoch.cpp:263-277 | walking the new addresses and evicting each conflicting owner removes exactly the other groups that share an address, and keeps the index consistent |
| `GroupIndex.InstalledOk` | src/core/epoch.cpp:278-311 | installing a group in a cleared table keeps forward and reverse maps inverse and groups apart |
| `GroupIndex.RegisteredView` | src/core/epoch.cpp:237-311 | clearing conflicts and installing is last-write-wins on the groups by leader |
| `GroupIndex.DroppedView` | src/core/epoch.cpp:76-99 | evicting the owner of an address and forgetting its name drops exactly the groups that claim it |
| `GroupIndex.OneOwner` | src/core/epoch.hpp:207-213 | the reverse map holds at most one name per address |
| `GroupIndex.ReleasedOk` | src/core/epoch.cpp:60-74 | evicting the owner leaves exactly the groups that do not claim the address, promoted names among them |
| `Epoch.EpochState.LookupOrCreate` | src/core/epoch.cpp:101-128 | the bound handle, or the stored bytes moved into a new named input; the exact error and whether the bytes are lost; what it does to the eager device: `RecorderLaws.LookupRefines` |
| `Epoch.EpochState.StoreComputeResult` | src/core/epoch.cpp:134-145 | rebinds the address, drops it from the inputs, records or forgets its modulus, leaves stored bytes alone; what it does to the eager device: `RecorderLaws.StoreRefines` |
| `Epoch.EpochState.CopyResult` | src/core/epoch.cpp:180-201 | records a copy, takes over the caller's or the source's modulus on both addresses; what it does to the eager device: `RecorderLaws.CopyResultRefines` |
| `Epoch.EpochState.TagH2DInput` | src/core/epoch.cpp:203-228 | binds the stored bytes as a new input and drops the address's tag only; what it does to the eager device: `RecorderLaws.TagH2DInputRefines` |
| `Epoch.EpochState.EvictMrpGroup` | src/core/epoch.cpp:60-74 | removes one group from both maps and the pending set; what it does to the eager device: `GroupIndex.ReleasedOk` |
| `Epoch.EpochState.Invalidate` | src/core/epoch.cpp:76-99 | drops every binding of the address and every group that names it; what it does to the eager device: `RecorderTableLaws.InvalidateRefines` |
| `Epoch.EpochState.MrpGroupName` | src/core/epoch.cpp:489-497 | the leader's name, or the next counter value; what it does to the eager device: `RecorderTableLaws.NameOutputGroupRefines` |
| `Epoch.EpochState.RegisterMrpOutputGroup` | src/core/epoch.cpp:237-311 | the whole registration: mismatch error, identical no-op, eviction, replacement with tag propagation; what it does to the eager device: `RecorderTableLaws.RegisterRefines` |
| `Epoch.EpochState.TagOutputLocked` | src/core/epoch.cpp:152-178 | the whole tagging call, including promotion of the owning group; what it does to the eager device: `RecorderTableLaws.TagOutputRefines` |
| `Epoch.EpochState.TagPendingOutputs` | src/core/epoch.cpp:313-363 | names every pending output and promoted group, and nothing else, to the back end and cannot fail |
| `Epoch.EpochState.PopulateShadows` | src/core/epoch.cpp:440-463 | stores the results in the order the table is walked, up to the first that is missing, does not decode or belongs to an address not allocated; the exact error and the bytes stored by then; what it does to the eager device: `Refinement.ReplayedIsExported` |
| `Epoch.EpochState.DoMaterialize` | src/core/epoch.cpp:395-466 | writes the program with all that is named, whether or not it is replayed, then ends the epoch for every back-end outcome; what it does to the eager device: `ProgramExport.WrittenExactly` |
| `Epoch.EpochState.ClearState` | src/core/epoch.cpp:468-487 | empties all tables and counters and the captured program; what it does to the eager device: `Refinement.ClearRefines` |
| `Epoch.EpochState.Finalize` | src/core/epoch.cpp:365-383 | idle epochs end silently; otherwise everything tagged is named, then materialized; what it does to the eager device: `Refinement.FinalizeReadyRefines` |
| `Epoch.EpochState.OpenSession` | src/core/epoch.cpp:47-58 | brings up the back end and enters recording; both are part of the state every later contract speaks of; what it does to the eager device: `Refinement.OpenRefines` |
| `Epoch.EpochState.TagMrpInputIfNew` | src/core/epoch.hpp:128-135 | the first description of an input group wins; what it does to the eager device: `Refinement.InputNamesKept` |
| `Polymap.BuildMrp` | src/core/mrp_polymap.cpp:33-58 | resolves every residue in order, stopping at the first failure; a live-in group of two or more is named once; what it does to the eager device: `Refinement.BuildMrpRefines` |
| `Polymap.StoreMrp` | src/core/mrp_polymap.cpp:60-76 | one operation and one binding per residue, then group registration; what it does to the eager device: `Refinement.StoreMrpRefines` |
| `Polymap.GroupUp` | src/core/mrp_polymap.cpp:70-75 | two or more residues are named after the leader and registered; what it does to the eager device: `RecorderTableLaws.GroupUpRefines` |
| `Polymap.CopyH2DMrp` | src/core/mrp_polymap.cpp:78-90 | all uploads, then all input tags, each stopping at the first failure; what it does to the eager device: `RecorderLaws.CopyInAllRefines` |
| `Polymap.CopyToHostMrp` | src/core/mrp_polymap.cpp:92-101 | reads in order, stopping at the first failure |
| `Polymap.CopyDeviceToDeviceMrp` | src/core/mrp_polymap.cpp:103-125 | copies residue by residue, then registers the destination group; what it does to the eager device: `RecorderLaws.CopyResultsRefines` |
| `Polymap.Binary` | src/core/compute.hpp:34-49 | modulus check, both sources by value, then the store; the exact error on each path; what it does to the eager device: `Refinement.StoreOneRefines` |
| `Polymap.Unary` | src/core/compute.hpp:52-79 | modulus check, source by value, store; scalars travel as immediates; what it does to the eager device: `Refinement.StoreOneRefines` |
| `Polymap.Automorph` | src/core/compute.hpp:85-100 | the result keeps the modulus recorded for the source; what it does to the eager device: `Refinement.StoreOneRefines` |
| `Polymap.BinaryMrp` | src/core/compute.hpp:106-123 | reads both source arrays completely before storing anything; what it does to the eager device: `Refinement.BinaryMrpRefines` |
| `Polymap.UnaryMrp` | src/core/compute.hpp:145-157 | reads the source array completely before storing anything; what it does to the eager device: `Refinement.UnaryMrpRefines` |
| `Polymap.ModUp` | src/core/basis_convert.cpp:159-202 | resolves the source once, then lifts every digit into its own stretch of destinations; what it does to the eager device: `Refinement.ModUpRefines` |
| `Polymap.LiftDigits` | src/core/basis_convert.cpp:172-202 | the 64-bit cursor over the flat digit list slices each digit in order; what it does to the eager device: `Refinement.LiftRefines` |
| `BasisConversion.ValidateModDown` | src/core/basis_convert.cpp:59-85 | accepts exactly proper non-empty sub-bases |
| `BasisConversion.ValidateModUp` | src/core/basis_convert.cpp:87-107 | refuses a null digit list; accepts exactly non-empty bases whose digit lengths add up, in 64 bits, to the length of the flat list, which may be empty |
| `BasisConversion.AcceptedSlices` | src/core/basis_convert.cpp:97-107 | of what validation accepts, the 64-bit cursor cuts every digit within the flat list exactly when the true sum of the lengths fits in 64 bits |
| `BasisConversion.WrappedLengthsAccepted` | src/core/basis_convert.cpp:97-107 | lengths that validation accepts and whose first digit reaches beyond the list |
| `Api.HazeMalloc` | src/api/memory.cpp:29-37 | refuses a null place for the address, else allocates one polynomial (one step of the recorder function, reply included, which is one step of the eager device by `Refinement.ActRefines`) |
| `Api.HazeMallocMrp` | src/api/memory.cpp:45-61 | refuses a null array before anything else, then a count beyond the modulus envelope, else allocates the batch (one step of the recorder function, reply included, which is one step of the eager device by `Refinement.ActRefines`) |
| `Api.HazeFree` | src/api/memory.cpp:39-43 | invalidates in the epoch, then frees (one step of the recorder function, reply included, which is one step of the eager device by `Refinement.ActRefines`) |
| `Api.HazeFreeMrp` | src/api/memory.cpp:63-84 | refuses a null array before anything else, else invalidates every non-null address and frees the batch (one step of the recorder function, reply included, which is one step of the eager device by `Refinement.ActRefines`) |
| `Api.HazeMemcpyH2D` | src/api/memory.cpp:132-137 | refuses null on either side, else writes the stored bytes and tags them as an input (one step of the recorder function, reply included, which is one step of the eager device by `Refinement.ActRefines`) |
| `Api.HazeMemcpyD2D` | src/core/epoch.cpp:544-550 | records a pass-through copy; the count is ignored (one step of the recorder function, reply included, which is one step of the eager device by `Refinement.ActRefines`) |
| `Api.HazeMemset` | src/api/memory.cpp:173-181 | fills the stored bytes, then ends the address's epoch lifetime (one step of the recorder function, reply included, which is one step of the eager device by `Refinement.ActRefines`) |
| `Api.HazeBinary` | src/api/compute.cpp:31-53 | null checks, then the template (one step of the recorder function, reply included, which is one step of the eager device by `Refinement.ActRefines`) |
| `Api.HazeUnary` | src/api/compute.cpp:55-93 | null checks, then the template; the scalar forms and both transforms (one step of the recorder function, reply included, which is one step of the eager device by `Refinement.ActRefines`) |
| `Api.HazeAutomorph` | src/api/compute.cpp:95-106 | null checks, then the template (one step of the recorder function, reply included, which is one step of the eager device by `Refinement.ActRefines`) |
| `Api.HazeModDown` | src/core/basis_convert.cpp:136-157 | validation, then the result on the primes that stay (one step of the recorder function, reply included, which is one step of the eager device by `Refinement.ActRefines`) |
| `Api.HazeModUp` | src/core/basis_convert.cpp:159-202 | validation, then digit decomposition (one step of the recorder function, reply included, which is one step of the eager device by `Refinement.ActRefines`) |
| `Api.HazeTagOutput` | src/api/lifecycle.cpp:65-69 | refuses null, tags otherwise (one step of the recorder function, reply included, which is one step of the eager device by `Refinement.ActRefines`) |
| `Api.HazeFlush` | src/core/epoch.cpp:528-542 | refuses unsupported formats before touching the epoch (one step of the recorder function, reply included, which is one step of the eager device by `Refinement.ActRefines`) |
| `Api.HazeWriteProgram` | src/core/epoch.cpp:390-393 | exports without replay (one step of the recorder function, reply included, which is one step of the eager device by `Refinement.ActRefines`) |
| `Api.HazeDeviceReset` | src/api/lifecycle.cpp:31-59 | resets epoch, back end (down until the next session), allocator and configuration (one step of the recorder function, reply included, which is one step of the eager device by `Refinement.ActRefines`) |
| `DeviceInvariant.RunOk` | src/core/allocator.cpp:35-121 | every reachable device: allocator invariant, stored addresses live, stored bytes one polynomial long, tags and group members bound, groups disjoint, promotions known |
| `DeviceInvariant.StepOk` | src/core/allocator.cpp:35-121 | every lawful call keeps that invariant |
| `DeviceInvariant.ReadExact` | src/core/epoch.cpp:101-128 | a source resolves exactly when it has a value, to that value, and resolving moves no value |
| `DeviceInvariant.AllocationSafe` | src/core/allocator.cpp:80-105 | allocation never reports a pool desync and returns new, distinct, non-null addresses with nothing stored; they have a value only if a computation bound them before they were allocated |
| `ErrorReplies.LibraryNeverBroken` | src/common/errors.cpp:41-53 | in no lawful program does the library report a broken invariant (size mismatch of stored bytes, pool desync, missing binding, group shape); an internal error is reported exactly where the back end fails at the end of an epoch with something to export |
| `ErrorReplies.InternalExactly` | src/common/errors.cpp:41-53 | the same of each lawful call on a well-formed device |
| `DeviceInvariant.RunFrozen` | src/core/config.cpp:41-81 | once configured, no lawful run without a reset changes ring dimension or moduli |
| `HeapModel.ExtentsDisjoint` | src/core/allocator.cpp:92-105 | two different live or pooled addresses never overlap in memory |
| `HeapModel.AllocateOneSafe` | src/core/allocator.cpp:80-105 | from a healthy allocator the recycled-address check never fires and the new address is new |
| `HeapModel.FreeOneSafe` | src/core/allocator.cpp:107-121 | freeing keeps the allocator healthy, whatever the address |
| `HeapModel.SetPolynomialSizeSafe` | src/core/allocator.cpp:43-49 | a new size keeps the allocator healthy exactly while nothing is live |
| `HeapModel.AllocateManySafe` | src/core/allocator.cpp:131-158 | a batch fails only on its arguments and returns distinct new addresses |
| `HeapModel.AllocateManyAllOrNothing` | src/core/allocator.cpp:131-158 | all or nothing on the live set, even from a pool that holds live entries |
| `HeapModel.FreeManyExact` | src/core/allocator.cpp:169-185 | ends with live minus the named set, and errs exactly when a non-null entry is not live or repeats |
| `HeapModel.FreeManySafe` | src/core/allocator.cpp:169-185 | a batch free keeps the allocator healthy |
| `HeapModel.FreeThenAllocateReverses` | src/core/allocator.cpp:107-121 | freeing a distinct group and reallocating it returns it reversed and restores the allocator |
| `Allocator.DeviceAllocator.AllocateOne` | src/core/allocator.cpp:80-105 | pool first, else a fresh bump |
| `Allocator.DeviceAllocator.FreeOne` | src/core/allocator.cpp:107-121 | drops liveness and bytes and pools the address |
| `Allocator.DeviceAllocator.AllocateMany` | src/core/allocator.cpp:131-158 | the loop with roll-back; a failing batch leaves liveness and bytes alone |
| `Allocator.DeviceAllocator.FreeMany` | src/core/allocator.cpp:169-185 | frees every non-null entry and reports the first failure |
| `Allocator.DeviceAllocator.ExtractPolynomialComponents` | src/core/allocator.cpp:187-228 | moves the bytes out; the exact error order |
| `Allocator.DeviceAllocator.ReadPolynomialComponents` | src/core/allocator.cpp:230-261 | the same without moving |
| `Allocator.DeviceAllocator.CopyH2D` | src/core/allocator.cpp:263-282 | refuses a null source first; overwrites the front and keeps the old tail |
| `Allocator.DeviceAllocator.Memset` | src/core/allocator.cpp:284-298 | the same with one byte |
| `Allocator.DeviceAllocator.CopyToHost` | src/core/allocator.cpp:300-320 | refuses a null destination first; reads stored bytes only |
| `Allocator.DeviceAllocator.UpdateShadow` | src/core/allocator.cpp:322-335 | cuts or pads to one polynomial |
| `Allocator.DeviceAllocator.SetPolynomialSize` | src/core/allocator.cpp:43-49 | drops the pool on a change; the stored bytes still fit exactly if none are left or the size stays |
| `Allocator.DeviceAllocator.Reset` | src/core/allocator.cpp:392-400 | back to the start |
| `Configuration.PolynomialSizeExactOrZero` | src/core/config.cpp:41-54 | the 64-bit size product is exact up to 2^60 and wraps to zero beyond, which refuses every allocation |
| `Configuration.PowerOfTwoTest` | src/core/config.cpp:30-32 | the bit test n & (n - 1) finds exactly the powers of two |
| `Configuration.SetModulusKeeps` | src/core/config.cpp:56-81 | setting keeps zeros out of the table, and after the freeze changes nothing |
| `Configuration.Config.SetRingDimension` | src/core/config.cpp:41-54 | sets dimension and polynomial size together or not at all |
| `Configuration.Config.SetModulus` | src/core/config.cpp:56-81 | the freeze and the append-or-replace rule |
| `Allocator.WriteFrontExact` | src/core/allocator.cpp:275-281 | a write changes one address only: the data in front, the old tail (or zeros) behind |
| `Aliasing.ComputeIsSimultaneous` | src/core/compute.hpp:106-157 | every compute call that succeeds, basis conversions included, is simultaneous assignment under any overlap of distinct destinations with the sources |
| `ComputeCalls.ComputeExact` | src/core/mrp_polymap.cpp:60-76 | every compute call that succeeds has read all its sources and then gives the destinations, in order, one operation each on the values read; stored bytes change by the reads alone |
| `Aliasing.CopyIsSimultaneousExactly` | src/core/mrp_polymap.cpp:103-125 | between polynomials of any one size the sequential copy is simultaneous assignment, whatever they hold, exactly when no destination is a later, different source |
| `Aliasing.DeviceCopyExactly` | src/core/mrp_polymap.cpp:103-125 | on the device, from any well-formed state: the copy is that assignment for all contents uploaded to the sources exactly under the condition |
| `Aliasing.DeviceCopy` | src/core/mrp_polymap.cpp:103-125 | the device's copy is that assignment under the condition |
| `NumberTheory.Fermat` | test/mod_arith_ref.hpp:63-66 | Fermat's little theorem, on which the prime inverses rest |
| `NumberTheory.ModInverse` | test/test_basis_convert.cpp:614-616 | an inverse for every coprime pair |
| `Montgomery.PowMod` | test/mod_arith_ref.hpp:50-61 | square-and-multiply computes a^e mod m |
| `Montgomery.InversePrime` | test/mod_arith_ref.hpp:63-66 | a^(q-2) inverts a modulo a prime q |
| `Montgomery.DecodeUndoesEncode` | test/mod_arith_ref.hpp:45-71 | decode and encode undo each other wherever the radix is a unit |
| `Montgomery.RoundTripExactly` | test/mod_arith_ref.hpp:68-71 | for a prime modulus decode undoes encode for all x exactly when the modulus is odd |
| `Montgomery.EncodeInPlace` | test/mod_arith_ref.hpp:73-78 | the in-place loop encodes every entry |
| `Montgomery.DecodeInPlace` | test/mod_arith_ref.hpp:80-85 | the in-place loop decodes every entry |
| `Montgomery.BulkRoundTrip` | test/mod_arith_ref.hpp:73-85 | bulk decoding undoes bulk encoding and the other way round |
| `Montgomery.ShiftEncodingAgrees` | test/test_hardware_format.cpp:65-69 | the second reference encoding is the same function |
| `SwitchModulus.SwitchMontgomery` | test/test_hardware_format.cpp:264-276 | the four-instruction sequence on the encoding of v yields the encoding of the signed representative of v modulo the new prime |
| `SwitchModulus.SwitchOrdinary` | test/mod_arith_ref.hpp:129-146 | the ordinary immediates compute the signed representative modulo the new prime, without 64-bit overflow |
| `SwitchModulus.ExpectedIsSigned` | test/test_hardware_format.cpp:266-268 | the formula the test expects is that representative |
| `SwitchModulus.SignedLiftMeans` | test/e2e/ops.cpp:54-62 | the signed lift is the centred representative modulo the target |
| `SwitchModulus.OracleLiftMeans` | test/test_basis_convert.cpp:646-655 | so is the oracle's branch, with its own halfway point |
| `SwitchModulus.LiftsAgreeExactly` | test/test_basis_convert.cpp:646-655 | the two lifts agree except on the exact middle of an even modulus the target does not divide |
| `BitReversal.RevBits` | test/mod_arith_ref.hpp:88-94 | bit i of the reversal is bit n-1-i of the index |
| `BitReversal.RevInvolution` | test/mod_arith_ref.hpp:88-94 | reversing twice is the identity |
| `BitReversal.BitReverseIndex` | test/mod_arith_ref.hpp:88-94 | the shift loop reverses the low bits |
| `BitReversal.BitRev` | test/test_mul_rotation.cpp:100-106 | the independent loop computes the same reversal |
| `BitReversal.ApplyBitReversal` | test/mod_arith_ref.hpp:99-110 | the swap loop moves entry rev(i) to i, in place |
| `BitReversal.PermutedTwice` | test/mod_arith_ref.hpp:96-98 | applying the permutation twice is the identity |
| `Automorphism.SlotMultiplies` | include/haze/haze.h:283-288 | slot i reads the slot whose odd number is k times its own modulo 2N |
| `Automorphism.WrapHarmless` | test/test_mul_rotation.cpp:116 | 64-bit wrap-around of the product changes no slot |
| `Automorphism.SlotsPermute` | include/haze/haze.h:290-293 | an odd index permutes the slots |
| `Automorphism.RotationsCompose` | test/test_mul_rotation.cpp:111-121 | on bit-reversed storage rotations compose by multiplying indices modulo 2N |
| `Automorphism.RotateBack` | include/haze/haze.h:290-293 | inverse indices give the vector back |
| `Automorphism.Sigma` | test/test_mul_rotation.cpp:111-121 | the loop computes that rotation |
| `Negacyclic.Convolve` | test/integration_helpers.hpp:135-165 | the double loop computes every coefficient of the product modulo q and X^N + 1; cells stay reduced and 64-bit words do not overflow for q < 2^63 |
| `Negacyclic.Commutative` | test/integration_helpers.hpp:132-165 | the product is commutative |
| `Negacyclic.MonomialsMultiply` | test/integration_helpers.hpp:152-155 | monomials multiply by adding exponents, with the sign flip of X^N = -1 |
| `Negacyclic.ProductEvaluates` | test/integration_helpers.hpp:132-134 | at every root of X^N = -1 the product has the value of the factors' product, so slot-wise multiplication is polynomial multiplication |
| `FastBaseConversion.ConversionMeans` | test/test_basis_convert.cpp:600-662 | one integer S, congruent to X modulo Q, has all output residues (pass-through included); 0 <= S < kQ, or 2|S| < kQ centred |
| `FastBaseConversion.FastBaseConvert` | test/test_basis_convert.cpp:600-662 | the nested loops compute those residues for every coefficient and target |
| `FastBaseConversion.LiftCongruent` | test/test_basis_convert.cpp:631-658 | the lifted integer is congruent to X modulo the product of the base |
| `FastBaseConversion.LiftBounds` | test/test_basis_convert.cpp:646-655 | the bounds of the lifted integer in both variants |
| `FastBaseConversion.ChineseRemainder` | test/test_basis_convert.cpp:606-609 | numbers equal modulo pairwise coprime primes are equal modulo their product |
| `Rescaling.KeptPrimes` | test/test_basis_convert.cpp:671-680 | exactly the primes outside the rescale base stay, in order |
| `Rescaling.Rescale` | test/test_basis_convert.cpp:668-710 | the reference loops compute the rescaled residues on the primes that stay |
| `Rescaling.RescaledIsQuotient` | test/test_basis_convert.cpp:692-708 | every output residue is that of one integer Y |
| `Rescaling.RescaleError` | test/test_basis_convert.cpp:668-710 | 0 <= X - PY < rP, or 2|X - PY| < rP centred |
| `Rescaling.RescaleRounds` | test/test_basis_convert.cpp:664-710 | dropping one odd prime in centred form gives the nearest integer to X / q |
| `Rescaling.RescaleScalars` | test/e2e/ops.cpp:85-99 | the scalar loop gives the rescale's residues by signed lift and Fermat inverse |
| `Rescaling.ScalarsRound` | test/e2e/ops.cpp:84-99 | hence the residues of the nearest integer to X / q_L |
| `KeyswitchDigits.PartitionDigits` | test/e2e/ops.cpp:184-206 | the digit bases concatenate to the first towers primes in order; all but the last hold the same number of primes, the least with which the parts cover the chain; the last holds the rest, and there is none too many |
| `KeyswitchDigits.PartitionIsValid` | src/core/basis_convert.cpp:87-107 | the partition always satisfies the validation |
| `KeyswitchDigits.LayoutBijection` | test/e2e/ops.cpp:222-228 | (digit, tower) -> digit * width + tower is one-to-one and in bounds |
| `KeyswitchDigits.LayoutOnto` | test/e2e/ops.cpp:222-228 | and covers the flat output |
| `KeyswitchDigits.LiftedAt` | src/core/basis_convert.cpp:191-200 | tower t of digit d is stored at that position |
| `Locks.LibraryNeverStuck` | src/core/epoch.cpp:509-514 | with the program's nestings no reachable state of any number of threads is deadlocked |
| `Locks.NeverStuck` | src/core/config.cpp:41-54 | nor for any nesting that respects the ranks |
| `Locks.EveryChainEnds` | src/core/config.cpp:41-54 | from each blocked thread the chain of holders ends at one that can move |
| `Locks.EveryRequestServable` | src/core/config.cpp:41-54 | from every reachable state each blocked thread can still be led to its lock by takes and releases alone |
| `Locks.CallbackCanStick` | src/core/epoch.hpp:170-172 | with a nesting back from allocator to epoch a deadlock is reachable |
| `InitProtocol.TrueOnlyAfterInit` | src/core/backend.cpp:37-114 | no caller gets true before an initialization has completed with no reset in between |
| `InitProtocol.FastPathAnswers` | src/core/backend.cpp:37-42 | once initialization has completed, with no reset since, every caller gets true at once and without the lock |
| `InitProtocol.InitOncePerReset` | src/core/backend.cpp:37-114 | between two successful initializations there is a reset |
| `InitProtocol.MutualExclusion` | src/core/backend.cpp:44-46 | at most one thread is inside the slow path |

## Left out

- Api.RunProgram: requires lawful calls. A new polynomial size while something is allocated is accepted by the library, but the bytes stored until then have the old size (`Allocator.DeviceAllocator.SetPolynomialSize`) and extents may overlap (`HeapModel.SetPolynomialSizeSafe`).
- Api.ExecuteAll: requires lawful calls, as above.
- Api.Execute: requires a lawful call, as above.
- Api.HazeSetRingDimension: requires that a change of size comes while nothing is allocated.
- Api.HazeModUp: requires that the digit lengths add up to less than 2^64, without which the library leaves the digit list (`BasisConversion.AcceptedSlices`).
- DeviceModel.Shaped: requires the same.
- Polymap.ModUp: requires the same.
- Polymap.LiftDigits: requires the same.
- Configuration.Config.SetRingDimension: requires a dimension below 2^64, the range of its argument.
- Epoch.EpochState.OpenSession: takes back-end initialization to succeed; when it fails the library keeps binding without recording. The initialization protocol itself is modelled in `InitProtocol`.
- EagerMemory.StepEffect: full-size uploads and fills only, and array uploads to live addresses; a partial upload keeps the old tail of the stored bytes (modelled in `DeviceModel.Upload`), and a batch upload that fails midway leaves a mixture.
- HeapModel.ExtentsDisjoint: addresses are unbounded; wrap-around of the address counter after 2^64 bytes of fresh allocations is not modelled.
- Null arrays and null host buffers in the remaining calls: a sequence argument stands for a valid array, and a null base or array is the empty sequence.
- The choice of conversion variant recorded with a basis conversion, and the moduli bound to recorded polynomials for serialization.
- Freshness of the recorded description of an input group: the first description wins, as documented.
- The decimal rendering of generated names: a name is its kind and counter.
- Interleavings of the API calls that take two locks one after the other (free, upload, fill): calls are sequential in the engine.
- Relaxed memory order in the initialization protocol: steps are atomic and sequentially consistent.
- Capacity of host containers, out-of-memory, logging and the thread-local last error.
- Streams, events, graphs, device properties, host pointer registration, program metadata, twiddle generators: no state that the modelled calls read.
- Serialization, probe files, the replay bridge, OpenFHE, CKKS noise and decryption checks: foreign code and disk I/O.
