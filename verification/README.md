# nv-resource-controller: verified model

nv-resource-controller limits the GPU memory and the GPU time of a container. A preloaded library
wraps `ioctl`, `dlsym` and the CUDA launch calls of a process; a separate monitor process steers the
launch rate. This project models the four parts of it that keep state, in Dafny 4.11, and proves
what they keep over every run. `dafny verify dfyconfig.toml` checks everything.

| file | models |
|---|---|
| `Wrappers.dfy` | `Option`, which the other modules share |
| `ListHead.dfy` | the intrusive circular doubly linked list, on the heap, pointer by pointer |
| `HandleList.dfy` | what a list of entries keyed by handle means: sequences, stacks per handle, finite maps |
| `EntryList.dfy` | the two malloc'ed entry lists, built on `ListHead`, proved against `HandleList` |
| `Align.dfy` | the mask form of rounding a size up, on 64-bit words with wrap-around |
| `LedgerModel.dfy` | the memory ledger as values, and its runs with any number of ioctls in flight |
| `DeviceProp.dfy` | the process-wide device record and the `ioctl` wrapper, proved against `LedgerModel` |
| `FbInfo.dfy` | the frame-buffer figures a container is shown |
| `Controller.dfy` | the arithmetic of the rate controller, over reals with truncation toward zero |
| `TokenAttr.dfy` | the monitor's view of the shared token parameters |
| `LaunchWindow.dfy` | the ten-slot ring of launch counts |
| `TokenSystem.dfy` | monitor, poster and launch threads, interleaved operation by operation |
| `HookTable.dfy` | the table of hooked CUDA entry points |

## Reading the model

* A list is a head node and a sequence of entry nodes. The sequence is a ghost argument of every list
  method; `ListIsUnique` shows that the heap determines it. A poisoned link is null.
* `container_of` is a map from embedded nodes to the structs around them; malloc adds to it and
  free removes from it, so reading a freed entry would not verify.
* Machine words are natural numbers below 2^64 and every wrap-around is written out. Handles are
  natural numbers.
* The driver is a function from request to reply about which nothing is assumed. Theorems that need
  an honest driver say so (`Honest`): it keeps the command, charges for a request only if the
  request was checked, and enlarges a size at most to the next multiple of a power-of-two
  alignment.
* The ledger has two views. `Ioctl` is one call; `Step` splits a call into `Enter` (the check) and
  `Leave` (the accounting), which are separate critical sections, so that calls of several threads
  overlap in every possible way. `SerialIoctl` connects the two.
* A token run starts inside a fresh `init_attr`: it has posted the `ready` semaphore, so the poster
  may run, and still has to raise the flag.
* Dividing by zero has a result (`Quotient`), as in floating point. Where the source converts a
  result that is not finite to `int`, an arbitrary number comes out (`junk`).
* malloc is taken to succeed: on failure at src/ioctl_hook.c:260-263 and 322-325 the source leaves
  its mutex locked.

## Where the code and its intention part

* A free of a handle that is not in the list removes the oldest entry, because the search cursor
  keeps the last node it visited. `DropIsLocalIff` and `UnknownFreeIsHarmlessIff` say exactly when
  that matters. Conservation holds regardless.
* Check and accounting are not one critical section, so allocations admitted one by one can overdraw
  the limit together (`TwoThreadsOverdraw`). They are guaranteed to complete within it, whatever an
  honest driver makes of them and in whatever order they return, exactly when the live entries and
  the most they can be charged for fit the total (`OverlapIsSafeIff`; in terms of the checked sizes
  `RegularOverlapIsSafeIff`).
* The round-up of a huge size wraps, and the request then passes the check. `AlignUpCoversIff` and
  `AdmittedFitsIff` give the exact condition, for any non-zero alignment, both checks and all
  reachable states; `AlignUpIsLeastIff` shows that the mask form rounds up to a multiple for powers
  of two only.
* Object memory is charged under its owner (src/ioctl_hook.c:265) and freed under its own handle
  (src/ioctl_hook.c:618), and the free of a child of the root goes to the device list instead
  (src/ioctl_hook.c:615-616). `ObjectRoundTripIff` says exactly when an allocation and its free cancel
  out; `ObjectFreeRefundsStranger` is a case in which a free refunds another allocation.
* Whether the owner of a segment is alive is tested by comparing the result of `readlink` with 0
  (src/ioctl_hook.c:398). That result is a length, or -1: the test fails for a living owner too, and
  the free size a container sees is then its limit (`ReportedFigures`, `ContainerSeesItsLimit`).
* The reported figures are cut to 32 bits of KiB; `ReportIsSoundIff` gives the totals for which the
  report stays consistent.
* `init_attr` overwrites the old limit before it rescales by it, so the rescaling factor is 1,
  or 0 / 0 if the new limit is 0 (`TokenAttr.TokenAttr.InitAttr`).
* The poster writes an average and then increments the index, so the slot the monitor calls current
  holds the older of the two averages (`SlotsHoldNewestAverages`). Index and slots are read one by one
  while the poster writes them: `TickSeesAverages` bounds what a tick can get, and in
  `TornReadHappens` its current average is the newer of the two after all.
* Every unblocked tick divides by the average it read (src/server_monitor.c:158), needed or not. The
  averages start at 0: the first and the second tick can divide by 0, no later one can
  (`DividesByZeroIff`). Those two ticks do not use the quotient.
* The poster's copy of the rate is uninitialised, and `init_attr` raises the flag only after it has
  posted the `ready` semaphore. `CycleRates` shows that some cycles post that garbage if and only if
  the poster tests the flag before it is up; `EarlyPosterPostsNothing` is such a cycle without a
  token.
* A successful `cuGetProcAddress` with a null pointer would leave a hook without a function to call;
  `StepIsGoodIff` shows that nothing else does, and `NullSuccessTrips` is such a run.

## Model

| member | source | states |
|---|---|---|
| `ListHead.RotateRing` | include/list.h:7-9 | a ring has no distinguished start: well-formedness is kept under every rotation of the sequence that describes it |
| `ListHead.ListIsUnique` | include/list.h:376-377 | following `next` from a head yields one sequence only: two descriptions of the same list are equal |
| `ListHead.Init` | include/list.h:25-28 | any node becomes an empty list |
| `ListHead.AddBetween` | include/list.h:37-43 | inserting between two neighbours extends the ring at that place, also when both neighbours are the same node |
| `ListHead.Add` | include/list.h:57-59 | the new entry is prepended |
| `ListHead.AddTail` | include/list.h:69-72 | the new entry is appended |
| `ListHead.DelEntry` | include/list.h:93-95 | the entry leaves the list at its position; its own stale links stay |
| `ListHead.Del` | include/list.h:97-101 | the entry leaves the list at its position and is poisoned |
| `ListHead.Replace` | include/list.h:114-119 | the new node, which may be the old one, takes the old one's place in the ring; a lone, self-linked old node gives a lone new one |
| `ListHead.ReplaceInit` | include/list.h:121-125 | as Replace, and the old node is an empty list |
| `ListHead.DelInit` | include/list.h:131-134 | the entry leaves the list and is an empty list itself |
| `ListHead.Move` | include/list.h:141-144 | the entry leaves its list and becomes the first of the target, which may be the same list |
| `ListHead.MoveTail` | include/list.h:151-155 | the entry leaves its list and becomes the last of the target, which may be the same list |
| `ListHead.IsLast` | include/list.h:162-165 | true exactly for the last entry |
| `ListHead.IsEmpty` | include/list.h:171-173 | true exactly for a list without entries |
| `ListHead.IsSingular` | include/list.h:210-212 | true exactly for a list with one entry |
| `ListHead.RotateLeft` | include/list.h:197-204 | the first entry becomes the last; an empty or singleton list is unchanged |
| `ListHead.RotatedTimesIsSplit` | include/list.h:193-204 | n rotations exchange the first n entries with the rest |
| `ListHead.FullTurnIsIdentity` | include/list.h:193-204 | as many rotations as entries are the identity |
| `ListHead.FullTurn` | include/list.h:193-204 | the same on the heap: every `next` and `prev` is back at its old value |
| `ListHead.CutPosition` | include/list.h:226-249 | cutting at an entry splits into exactly prefix and suffix; at the head the cut piece is empty; an empty list, and a singleton cut at a stranger, leave everything alone |
| `ListHead.SpliceBetween` | include/list.h:251-262 | the entries of a non-empty list go between two neighbours of a disjoint ring; the spliced head is not written |
| `ListHead.Splice` | include/list.h:269-272 | the result is the spliced entries followed by the old ones |
| `ListHead.SpliceTail` | include/list.h:279-282 | the result is the old entries followed by the spliced ones |
| `ListHead.SpliceInit` | include/list.h:291-297 | as Splice, and the spliced list is empty afterwards |
| `ListHead.SpliceTailInit` | include/list.h:307-313 | as SpliceTail, and the spliced list is empty afterwards |
| `ListHead.CutAndRejoin` | include/list.h:214-297 | cutting at any entry and splicing the piece back restores every link of the list |
| `ListHead.ForEach` | include/list.h:376-377 | plain iteration visits every entry once, in order, and ends |
| `ListHead.DeleteChosen` | include/list.h:393-394 | safe iteration that deletes any chosen entries visits every original entry once, in order, leaves exactly the others in order, and poisons the deleted ones |
| `ListHead.UnchosenMembers` | include/list.h:485-488 | what DeleteChosen leaves contains exactly the entries that were not chosen |
| `ListHead.UnchosenConcat` | include/list.h:485-488 | what DeleteChosen leaves keeps the original order |
| `HandleList.LookupIsNewestBinding` | src/ioctl_hook.c:211-217 | first-match search finds the newest binding of a handle, and finds one exactly when there is one |
| `HandleList.DropLive` | src/ioctl_hook.c:568-584 | dropping a live handle takes its newest binding and leaves every other handle alone |
| `HandleList.DropAbsent` | src/ioctl_hook.c:545-557 | dropping an absent handle takes the oldest binding of the handle at the tail |
| `HandleList.DropIsLocalIff` | src/ioctl_hook.c:541-562 | a drop leaves all other handles alone if and only if its handle is live or the list is empty |
| `HandleList.BindThenDropIff` | src/ioctl_hook.c:564-589 | binding an entry and dropping a handle gives the list back if and only if the entry is bound to that handle, or the handle is absent and every older entry equals the new one |
| `HandleList.LengthIsOutstanding` | src/ioctl_hook.c:564-589 | the length of a replayed list depends on the number and order of bindings and drops only, not on handles |
| `HandleList.NewestBindingWins` | src/ioctl_hook.c:426-432 | over every history that drops live handles only, search of the list agrees with a stack per handle computed from the history |
| `HandleList.ListRefinesMap` | src/ioctl_hook.c:327-329 | with fresh bindings and live drops the list refines a finite map, and is empty exactly when the map is |
| `EntryList.EntryList.Insert` | src/ioctl_hook.c:184-192 | malloc, fill in and list_add prepend an entry to the represented sequence |
| `EntryList.EntryList.Find` | src/ioctl_hook.c:211-217 | the loop with a break returns what first-match lookup returns |
| `EntryList.EntryList.Seek` | src/ioctl_hook.c:568-573 | the cursor ends at the first match, else at the last node, else at null |
| `EntryList.EntryList.Delete` | src/ioctl_hook.c:584-587 | list_del and free remove exactly that entry |
| `Align.MaskForm` | src/ioctl_hook.c:87-89 | the mask form subtracts from the (wrapped) sum its bits inside the mask |
| `Align.AlignUpCoversIff` | src/ioctl_hook.c:86-97 | for every non-zero alignment: the aligned size is at least the size if and only if the sum does not wrap |
| `Align.AlignUpIsLeast` | src/ioctl_hook.c:134-135 | for a power of two without wrap it is the least multiple at or above the size |
| `Align.AlignUpIsLeastIff` | src/ioctl_hook.c:134-135 | it rounds every size up to the least multiple if and only if the alignment is a power of two |
| `Align.WrappedRoundUp` | src/ioctl_hook.c:87-92 | a request that rounds to 0 by wrap-around |
| `LedgerModel.RefusedIff` | src/ioctl_hook.c:78-150 | in every reachable state: a request is refused exactly when its aligned size exceeds free_mem; status and figures it is given then; otherwise it is untouched. Within the limit, a power-of-two request that does not wrap is refused exactly when its rounded-up size and the live entries exceed the total |
| `LedgerModel.AdmittedFitsIff` | src/ioctl_hook.c:86-142 | for both checks: in all reachable states an admitted size fits free_mem, if and only if its round-up does not wrap |
| `LedgerModel.IoctlAnswers` | src/dlfcn.c:131-166 | what the caller gets: without a limit, without a device or on a foreign major exactly the driver's reply; on too large a request 0 and a refusal with status and figures, whatever the driver would say; on a failed call the failure; else the accounted reply. The ledger moves in the last case only |
| `LedgerModel.CallerIsToldIff` | src/dlfcn.c:152-161 | in every reachable state within the limit, the caller of a regular request is told "out of memory", the total and what the live entries leave of it, exactly when the rounded-up request would exceed the total |
| `LedgerModel.PostAnswers` | src/ioctl_hook.c:308-372 | what the accounting hands back: -22 and nothing else exactly off the control minor for three commands; total and the free figure after the charge in a charged heap request, every other block as it was; no charge and no refund under a failed status |
| `LedgerModel.DevicesAfterAlloc` | src/ioctl_hook.c:172-241 | after an allocation a device handle has its own id, a child its parent's if there is one, and every other handle what it had |
| `LedgerModel.SerialIoctl` | src/dlfcn.c:152-161 | an ioctl that nobody overlaps is its check followed by its accounting, with nothing left in flight |
| `LedgerModel.ServeIsSerialRun` | src/dlfcn.c:131-166 | every sequence of whole ioctls is the run in which each call enters and leaves before the next |
| `LedgerModel.Conservation` | src/ioctl_hook.c:258-271 | over every run, any overlap, any driver, absent handles included: alloc_mem is the sum of the live entries and free_mem plus alloc_mem is total_mem, modulo 2^64 |
| `LedgerModel.ExactIffWithinTotal` | src/ioctl_hook.c:320-332 | in every reachable state nothing has wrapped if and only if the live entries fit the total |
| `LedgerModel.PostExact` | src/ioctl_hook.c:243-347 | if the most a request can be charged for fits beside the live entries, accounting for any honest reply to it keeps the books exact and adds no more than that |
| `LedgerModel.RespectfulRunsKeepRoom` | src/ioctl_hook.c:91-98 | in every run whose allocations enter only while the most they can be charged for fits beside what is live and in flight, nothing ever wraps |
| `LedgerModel.NeverOverTheLimit` | src/dlfcn.c:152-161 | with at most one accountable allocation between check and accounting (frees may overlap it), alloc_mem never exceeds total_mem and free_mem never underflows |
| `LedgerModel.ServeKeepsExact` | src/dlfcn.c:131-166 | the same for every sequence of whole, serial ioctls |
| `LedgerModel.ServeConserves` | src/dlfcn.c:131-166 | every sequence of whole ioctls conserves the ledger, whatever the driver does |
| `LedgerModel.OverlapIsSafeIff` | src/ioctl_hook.c:91-142 | in every reachable state: all completions of the calls in flight, partial or whole, in any order, with any honest replies, stay within the limit if and only if the live entries and the most those calls can be charged for fit the total |
| `LedgerModel.RegularOverlapIsSafeIff` | src/ioctl_hook.c:137-142 | for power-of-two requests that do not wrap, the same with the sizes the checks compared |
| `LedgerModel.TwoThreadsOverdraw` | src/ioctl_hook.c:91-98 | two admitted requests that wrap free_mem |
| `LedgerModel.ListsAreReplays` | src/ioctl_hook.c:172-347 | in every reachable state both lists are the replay of the run's bindings and drops |
| `LedgerModel.FreeReturnsOwnSize` | src/ioctl_hook.c:564-589 | with distinct live keys and live frees, a free returns exactly the size its key was charged for |
| `LedgerModel.EverythingFreed` | src/ioctl_hook.c:613-621 | a run ends with no live entry if and only if its frees balance its allocations, repeated keys and unknown handles included; then alloc_mem is 0 and free_mem is total_mem |
| `LedgerModel.UnknownFreeIsHarmlessIff` | src/ioctl_hook.c:564-589 | a free of an unknown handle changes nothing if and only if the ledger is empty; else it refunds the oldest entry |
| `LedgerModel.ObjectRoundTripIff` | src/ioctl_hook.c:243-271 | allocating an object with memory and freeing it restores the ledger: if it was charged, if and only if the object is neither the root nor a child of it and its handle is the owner, or is not live while every older entry equals the new one; if alignment 0 kept it from being charged, if and only if the free reaches no entry |
| `LedgerModel.ObjectFreeRefundsStranger` | src/ioctl_hook.c:613-618 | an object that took 5 bytes whose free returns the 100 of another |
| `LedgerModel.DeviceIsNewestBinding` | src/ioctl_hook.c:190-192 | over runs with live device frees, the device of a handle is its newest binding |
| `LedgerModel.DeviceIdsAreSupplied` | src/ioctl_hook.c:172-241 | in every reachable state each recorded device id was supplied by an earlier device allocation whose driver call succeeded, through any depth of inheritance |
| `DeviceProp.DeviceProp.constructor` | src/ioctl_hook.c:703-713 | a fresh segment has everything free and two empty lists |
| `DeviceProp.DeviceProp.PreVidHeapAlloc` | src/ioctl_hook.c:78-115 | decides and answers as the value model's check of a heap request |
| `DeviceProp.DeviceProp.PreRmAlloc` | src/ioctl_hook.c:117-150 | decides and answers as the value model's check of an object allocation |
| `DeviceProp.DeviceProp.PreIoctl` | src/ioctl_hook.c:152-170 | dispatches the checks by command |
| `DeviceProp.DeviceProp.Account` | src/ioctl_hook.c:258-271 | one entry is prepended, its size leaves free_mem and joins alloc_mem, all else unchanged |
| `DeviceProp.DeviceProp.PostDeviceRmAlloc` | src/ioctl_hook.c:172-198 | the handle is bound to the given device, whatever the status |
| `DeviceProp.DeviceProp.PostCtrlRmAlloc` | src/ioctl_hook.c:200-241 | the handle is bound to its parent's device, or to nothing if the parent has none |
| `DeviceProp.DeviceProp.PostRmAlloc` | src/ioctl_hook.c:243-306 | dispatches by class; memory is accounted under its owner, if the status is good and it is aligned |
| `DeviceProp.DeviceProp.PostVidHeapAlloc` | src/ioctl_hook.c:308-347 | memory is accounted under its handle and the request reports the new figures |
| `DeviceProp.DeviceProp.FreeDevicePage` | src/ioctl_hook.c:541-562 | the entry under the cursor leaves the handle list |
| `DeviceProp.DeviceProp.FreeHeapPage` | src/ioctl_hook.c:564-589 | the entry under the cursor leaves the list and its size returns to free_mem |
| `DeviceProp.DeviceProp.PostRmFree` | src/ioctl_hook.c:591-624 | failed frees and frees of the root do nothing; children of the root are device handles, all else is memory |
| `DeviceProp.DeviceProp.PostIoctl` | src/ioctl_hook.c:626-660 | dispatches the accounting by command, with -EINVAL off the control minor |
| `DeviceProp.DeviceProp.Ioctl` | src/dlfcn.c:131-166 | check, driver and accounting in sequence; other devices and unlimited processes pass through; block, return value and state are those that IoctlAnswers describes |
| `DeviceProp.DeviceProp.ServeAll` | src/dlfcn.c:131-166 | over every sequence of ioctls the linked lists stay well formed and the ledger conserved, and within the limit if requests and replies are well behaved |
| `DeviceProp.DeviceProp.Advance` | src/dlfcn.c:152-161 | one critical section, the check of a call that enters or the accounting of one that leaves, is one step of the value model |
| `DeviceProp.DeviceProp.ServeOverlapping` | src/dlfcn.c:152-161 | whatever the order in which checks and accountings of overlapping calls come, the linked lists stay well formed and the record follows the run of the value model |
| `DeviceProp.DeviceProp.ServeFresh` | src/ioctl_hook.c:703-713 | from a fresh segment that is a run as in Conservation or OverlapIsSafeIff, so what is proved of those states holds of lists and counters |
| `DeviceProp.DeviceProp.PostFbGetInfo` | src/ioctl_hook.c:414-507 | the list is rewritten pointwise from the segment of the handle's device, and untouched if it has none; the ledger is not changed; the figures are those of ReportedFigures |
| `FbInfo.Rewrite` | src/ioctl_hook.c:441-455 | every element of the array becomes its rewriting, whose figures ReportedFigures gives |
| `FbInfo.ReportedFigures` | src/ioctl_hook.c:374-455 | both sizes become the total in KiB, the free size the free memory or the total depending on the owner test, cut to 32 bits; other entries, and all entries without an owned segment, stay |
| `FbInfo.ContainerSeesItsLimit` | src/ioctl_hook.c:374-455 | after every run within a limit from 1 KiB to below 4 TiB a container sees its limit as size, and as free what its live entries leave of it, or the limit if the owner test failed |
| `FbInfo.RewritingIsIdempotent` | src/ioctl_hook.c:488-503 | rewriting twice is rewriting once |
| `FbInfo.RewritingIsConsistent` | src/ioctl_hook.c:381-400 | reported free never exceeds reported size, whichever way the owner-alive test goes |
| `FbInfo.ReportIsSoundIff` | src/ioctl_hook.c:394-400 | the totals for which truncation to 32 bits of KiB keeps every free value within the reported size, exactly |
| `Controller.CorrectMovesTheRightWay` | src/server_monitor.c:172-190 | at every utilisation, 0 with its arbitrary step included, a correction never lowers the rate while utilisation is below the limit and never raises it otherwise |
| `Controller.DampIsWhole` | src/server_monitor.c:177-188 | the correction over quotients, overload branch, rounding and clamp included, equals one over whole numbers by cross-multiplication and integer division |
| `Controller.DecideIsWhole` | src/server_monitor.c:162-191 | past the ramp a tick publishes nothing between multiples of 50, and at a multiple exactly the whole-number correction |
| `Controller.PublishedMovesTheRightWay` | src/server_monitor.c:171-191 | from tick 100, at multiples of 50: what is published is never on the wrong side of the old rate, and with equal averages differs from it by the error times the average over four times the utilisation, rounded down, before the clamp |
| `Controller.PerKernelDivides` | src/server_monitor.c:158 | the quotient of utilisation and average, and how it fails to be finite |
| `Controller.OverloadWithinAverages` | src/server_monitor.c:182-188 | in the overload branch a correction is at most the difference of the two averages |
| `Controller.OverloadWithinUndamped` | src/server_monitor.c:182-188 | ... and at most the undamped step if the last average does not exceed the old rate |
| `Controller.PullIsScaledQuarter` | src/server_monitor.c:158-175 | with utilisation proportional to the rate, the step is a quarter of the distance scaled by average over rate, truncated |
| `Controller.NextMovesToward` | src/server_monitor.c:171-190 | such a correction moves toward the target by exactly that step, at most a quarter of the distance, without crossing and without the clamp |
| `Controller.RunSettles` | src/server_monitor.c:171-190 | every run of such corrections, whatever the averages in (0, rate], reaches a rate it never leaves, on its own side of the target |
| `Controller.ChangesBounded` | src/server_monitor.c:171-190 | however long such a run goes on, no more corrections change the rate than it was away from the target at the start |
| `Controller.SaturatedFixedPointIff` | src/server_monitor.c:174-177 | when every token is used, a rate is a fixed point if and only if it is less than four away from the target |
| `Controller.SaturatedRunEndsNear` | src/server_monitor.c:171-190 | a run in which every token is used ends less than four tokens away from the target |
| `TokenAttr.TokenAttr.InitAttr` | src/server_monitor.c:108-138 | a fresh segment starts at rate 1 with zero averages; another limit resets the tick count and leaves the rate as it was, unless that limit is 0, when any positive rate may come out; the flag goes up |
| `TokenAttr.TokenAttr.DeltaChange` | src/server_monitor.c:140-207 | a pending change blocks the tick; otherwise the tick is counted, divides utilisation by the current average, finite or not, and publishes the decided rate, or nothing; which rate that is, DecideIsWhole says |
| `TokenAttr.TokenAttr.Dampen` | src/server_monitor.c:177-188 | the signed-step, ratio and clamp arithmetic is the damped correction |
| `LaunchWindow.RingIsRotatedWindow` | src/ioctl_hook.c:62-63 | the ring is a rotation of the last ten samples of the whole history |
| `LaunchWindow.RingAverage` | src/ioctl_hook.c:64-73 | the average over the ring is the average over the last ten samples |
| `LaunchWindow.AverageIsQuotient` | src/ioctl_hook.c:65-73 | the average is the whole quotient of the sum of the positive samples by one more than their number, or 1 if that is 0 |
| `LaunchWindow.AverageBelowLargest` | src/ioctl_hook.c:65-73 | the average is at least 1 and at most max(1, largest sample - 1) |
| `LaunchWindow.Ring.Record` | src/ioctl_hook.c:62-73 | storing a sample and summing the positive slots yields the average of the last ten samples |
| `TokenSystem.HandshakeAlways` | src/ioctl_hook.c:48-52 | the invariant of the `changed` flag, over all interleavings |
| `TokenSystem.ExactlyOnceDelivery` | src/server_monitor.c:150-204 | adopted rates are the published ones in order, at most one behind; none is published while another waits; with the flag down and no publication under way the poster's copy is the shared rate |
| `TokenSystem.MutualExclusion` | src/server_monitor.c:150-152 | while the poster copies the rate the monitor is at its flag test |
| `TokenSystem.PendingRateIsAdopted` | src/ioctl_hook.c:46-76 | from every reachable state with a pending rate, in every interleaved continuation, the rate has been adopted if and only if the poster has taken a number of steps that the state determines |
| `TokenSystem.TokenConservation` | src/cuda_hook.c:104-122 | for any number of launch threads: tokens plus passes equal initial plus posted tokens; passes are the waits that found a token, and passes and failures together the launches counted or about to be; passes are bounded by the rates of the cycles so far; if init_attr was first, all of those were published and n cycles have posted at least n tokens |
| `TokenSystem.LaunchCounts` | src/cuda_hook.c:109-118 | a launch is blocked exactly without a token; with one it takes it and raises the count by one; a failed wait raises the count only |
| `TokenSystem.LaunchesAccounted` | src/cuda_hook.c:104-122 | over every interleaving, launches let through or failed are in exactly one sample, or counted since the newest sample, or thrown away by a reset, or not counted yet |
| `TokenSystem.SamplesNeverOvercount` | src/ioctl_hook.c:54-63 | the samples together never exceed the launches counted, and equal them exactly when nothing was counted after the newest sample or between a sample and its reset |
| `TokenSystem.SlotsHoldNewestAverages` | src/ioctl_hook.c:72-74 | between cycles the two slots hold the two newest ten-sample averages, the older one in slot idx, both positive |
| `TokenSystem.TickSeesAverages` | src/server_monitor.c:154-156 | in every interleaving a tick that read index i >= 2 sees two published averages, of i's parity and from i - 2 on, and of the other parity and from i - 1 on, the first at most one cycle newer than the second; exactly numbers i - 2 and i - 1 if none was written meanwhile |
| `TokenSystem.TornRead` | src/server_monitor.c:154-156 | from every state in which the poster is about to write and the monitor to read, an interleaving makes the current average the one just written and the last one its predecessor |
| `TokenSystem.TornReadHappens` | src/ioctl_hook.c:62-74 | such a run from the start, in which the two values differ |
| `TokenSystem.RampUp` | src/server_monitor.c:162-169 | the rate is at least 1, and min(1 + k, 4) after k unblocked ticks up to 50 |
| `TokenSystem.CorrectionsOnly` | src/server_monitor.c:171-191 | later the rate changes only at tick counts that are multiples of 50 from 100 on; blocked ticks are not counted |
| `TokenSystem.CorrectionInRun` | src/server_monitor.c:154-191 | in every run, what a tick past the ramp decides is nothing between multiples of 50 and at them the whole-number correction of the shared rate by the averages it read, which are positive |
| `TokenSystem.LaterTicksReadPositive` | src/server_monitor.c:154-191 | in no interleaving does a correction, or any tick from the third on, see an average or a rate below 1, although the averages start at 0 and are read without a lock |
| `TokenSystem.DividesByZeroIff` | src/server_monitor.c:154-158 | some interleaving lets tick k divide by an average of 0 if and only if k is 1 or 2 |
| `TokenSystem.UninterruptedTick` | src/server_monitor.c:140-207 | the monitor's steps without interference, four reads and then one step or three, do what the whole call does, whether its quotient is finite included |
| `TokenSystem.CycleRates` | src/ioctl_hook.c:39-58 | in every interleaving the cycles post the uninitialised copy up to some cycle and published rates from then on; with a cycle done, there is none of the first kind if and only if init_attr raised the flag before the poster first tested it |
| `TokenSystem.EarlyPosterPostsNothing` | src/ioctl_hook.c:46-60 | an early poster with a copy that is not positive completes a cycle without posting a token |
| `HookTable.FindEntry` | src/util.c:11-21 | the first entry of that name, or none |
| `HookTable.HookTable.DlSym` | src/dlfcn.c:100-129 | a resolved symbol of the table gets its real pointer and yields its hook; everything else passes through; DlsymAnswers says it entry by entry |
| `HookTable.HookTable.GetProcAddress` | src/cuda_hook.c:45-102 | the missing-entry check, the failing driver, and the successful lookup that keeps a known real pointer |
| `HookTable.DlsymAnswers` | src/dlfcn.c:115-125 | for each of the six names: a resolved lookup yields that entry's hook, records the pointer there and nowhere else; other symbols and failed lookups pass through |
| `HookTable.GetProcAnswers` | src/cuda_hook.c:59-69 | for each of the six names: the hook, and the entry changes only from null; other symbols pass through |
| `HookTable.HooksCannotBeAvoided` | src/dlfcn.c:100-129 | over every run, outside RTLD_NEXT no lookup hands out the real address of a hooked symbol: the application holds its own hook, or null |
| `HookTable.HandedAreHeld` | src/dlfcn.c:100-129 | the hooks handed out are exactly those held for their own symbols |
| `HookTable.RealPointersAreOwn` | src/cuda_hook.c:59-69 | over every run, the function a hook calls on to was supplied by a lookup of that hook's own symbol |
| `HookTable.StepIsGoodIff` | src/cuda_hook.c:59-69 | a step leaves a handed-out hook without a function if and only if it is a null success for an entry without one |
| `HookTable.GoodThroughoutIff` | src/cuda_hook.c:89-99 | over a whole run every handed-out hook stays backed if and only if no null success occurs in it |
| `HookTable.NullSuccessTrips` | src/cuda_hook.c:59-69 | a run of three events whose launch goes through an entry without a function |
| `HookTable.HooksAreBacked` | include/cuda_entry.h:11-16 | over every sequence of lookups and calls without null successes, every hook handed out is backed and no call trips the check |

## Left out

- ELF symbol scanning, link-map walking and the search of RTLD_NEXT (src/entry.c, src/dlfcn.c:27-98): depend on loader memory; their result is a parameter.
- Shared-memory creation, `/proc` and cgroup parsing, sleeping (src/util.c:52-192): the segment is state, owner liveness a Boolean parameter.
- Environment parsing and unit suffixes (src/env.c, src/util.c:23-50): limits enter as numbers; nothing modelled here depends on how they were spelled.
- NVML loading, sampling and the watch-dog loop (src/server_monitor.c:52-106, 209-359): utilisation enters as an arbitrary natural number at every tick.
- Single-precision rounding, and overflow of `launch_idx`, `loop`, `mod_times` and 32-bit launch sums: reals and unbounded integers instead.
- Corrections from an average below 1: the rate is an arbitrary positive one. `LaterTicksReadPositive` shows that no run makes such a correction.
- Re-initialisation of the shared segment by a second process (src/ioctl_hook.c:693-710) and restarts of the monitor while a poster runs: runs start from one fresh initialisation.
- The NVOS32 INFO branch (src/ioctl_hook.c:101-109): its comparison with 0 is never true, so it is modelled as doing nothing.
- Mutex operations and the malloc failure paths; each critical section is one step.
- Dispatch of RM control commands to the frame-buffer rewriters: `PostIoctl` models its effect on ledger and return value, and `PostFbGetInfo` the rewriting itself.
- Reverse and continuing iteration, `list_empty_careful` and the entry macros of include/list.h: mirror images and address arithmetic.
- Logging, build files and the launch argument lists.
