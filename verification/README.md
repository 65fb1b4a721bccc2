# SUCHAI flight software: a verified model

A Dafny model of the parts of the SUCHAI balloon flight software whose correctness depends on state
over whole runs, with machine-checked proofs. `dafny verify dfyconfig.toml` checks everything.

| files | what they model |
|---|---|
| `Bytes`, `NorFlash`, `PlanRecord`, `FlashLayout`, `PlanSpec`, `Storage` | the Nanomind storage driver: the flight plan and eight payload logs in one erase-before-write flash, byte by byte, refining plain lists |
| `RamPlan`, `TwoPlans` | the flight plan kept in RAM, and its equivalence with the flash one |
| `Periodic` | what a caller of either plan sees over whole runs: when an entry is answered, and with what |
| `StatusRepo`, `BeforeFlight` | status variables stored three times and read by majority, and the command that resets variables and storage before a flight |
| `RingQueue`, `QueueProtocol` | the pthread queue: its byte ring buffer, and its mutex and condition-variable protocol for any number of threads |
| `Pipeline` | producers, dispatcher and executer joined by three queues, as interleaved steps |
| `Names`, `QuickSort`, `CommandRepo` | the command table: in-place stable quicksort, sorted flag, lookup by name |
| `Telecommand` | telecommand frames: strtok, parsing, sending |
| `Telemetry`, `Downlink` | packing samples into frames, unpacking them on another node, and acknowledged download |
| `Delay`, `Housekeeping` | the periodic delay on a wrapping 32-bit clock, and the mission phase machine |

Code that changes things in place is modelled by classes and arrays whose methods are proved against
functions on values; properties over runs are lemmas about those functions. Concurrency is modelled
as steps of a state machine in which every mutex section is one step, sleeping on a condition
variable is a state, and so is the gap between unlocking and broadcasting.

## Conventions

- Integers are unbounded in Dafny; `Bytes` writes the C widths out (`u32`, `int32`, `WrapInt32`), and
  wherever a sum can leave its width the model wraps as the machine does.
- The flash chip is `NorFlash.Flash`. `Program` demands that its target bytes are erased, so every
  proof of a method that calls it is also a proof that it keeps the NOR discipline. `Write` accepts any target, says
  whether it was erased, and leaves open what a byte that was not erased becomes; setting a flight plan entry is
  the one operation that needs it.
- A status variable that was never written reads as -1, the source's own mark for an unset one.
- `SCH_SIZE_PER_SECTION` is the unparenthesised `256*1024`; on line 34 of the storage driver the
  division therefore happens before the multiplication and the address table of the flight plan gets
  14337 entries. Only entry 0 is used while the counter is at most 25, because a section holds 1771
  records (`PlanFitsFirstSection`).
- Some proof bodies start with `hide`, which keeps definitions that a proof does not need away from the solver.
- I/O appears as parameters: clock readings in `Delay`, sensor height in `Housekeeping`, received
  bytes in `Telecommand`, lost frames in `Downlink`, and in `Telemetry` the junk that an uninitialised buffer holds. Frames sent are a returned sequence, commands sent likewise.

## What the proofs found

Each failure has a lemma or contract with the failing input and one with the exact condition.

- Erasing one flight plan entry also drops every entry stored at time zero
  (`src/drivers/nanomind/data_storage.c:186`): `EraseRemovesOne` states exactly when erasing removes one
  entry, `ZeroTimeIsLost` gives a run that loses one, and `BenignRunsAreIdeal` shows that positive times rule it out.
- The RAM plan re-arms a periodic entry before deleting it, so a full table loses the entry
  (`FullPlanLosesEntry`); the flash plan keeps it. A free slot is exactly what is needed (`FullTableLosesPeriodic`).
- `cmd_is_sorted` never compares entries 0 and 1 (`src/system/repoCommand.c:49`): the first two commands
  that are registered already set the flag on an unsorted table (`Repo.RegisterFirstTwo`), and
  `FlagMeansSortedFromOne` and `FlagMissesFirstPair` say what a set flag is worth.
- The filling loop of `cmd_repo_init` is left if and only if the table has a free entry; on a full one every number
  of turns leaves table and guard as they were (`Repo.FillWithNull`).
- `storage_set_payload_data` and `storage_get_payload_data` look the section up in their 16-entry table before they
  test it (`src/drivers/nanomind/data_storage.c:480`, `:511`). An add looks outside exactly when the last payload's
  log is full (`AddReadsInTable`, `FullLastLogReadsOutside`), a read for the negative delays of
  `DelayLooksInTable`. The value found there is not used.
- `tm_set_ack` stores a negative count when the sum reaches the sign bit (`AckInRange`, `AckTurnsNegative`), and
  deleting the memory sections leaves the acknowledged counts above the emptied logs unless they were
  zero, as they are in its only caller (`Downlink.Node.DeleteMemorySections`).
- A request that ends just behind the sign bit overflows the int arithmetic of `send_tel_from_to`
  (`OverflowsExactly`).
- The length assertion of `com_receive_tm` multiplies in 32 bits, so some counts that are far too large pass it and
  the loop reads behind the frame (`ReceiveTm`, `WrappedCountPasses`).
- Frames can be lost, since `send_tel_from_to` ignores the result of sending. An archive of whatever arrives is the
  acknowledged part of the log if and only if no frame is missing before one that arrives (`ArchiveNeedsNoGap`), and the
  frame numbers show exactly that (`GroundSeesGaps`).
- `drp_execute_before_flight` in a build without flight plans zeroes the plan's counter and keeps its section, so that
  the next entry would be written over old bytes unless that section was blank (`ResetNode`). In a build with
  flight plans it empties the plan.
- Booting with persistent storage sets the payload counters but not the plan's (`Store.constructor`). With the
  counter unset, -1, `storage_flight_plan_set` computes an address below the plan section: it writes its record over samples
  32758 to 32767 of the last payload, reports success and loses the entry (`UnsetCounterDamages`, `SetAfterBoot`). Set appends, and stays
  in the plan section, if and only if the counter is not negative (`Store.PlanSet`). Resetting the plan first makes
  every run right (`Store.Run`), and so does the command before flight in a build with flight plans, from any state of the
  node (`ResetNode`, `ResetAndRun`).
- `storage_flight_plan_reset` erases nothing when its counter is -1771 or less, and leaves its address table or the chip
  when the counter is large (`PlanReset`), as it does for the value with which variables start in RAM
  (`LargestCounterLeaves`).
- The products of `storage_init` are computed as int; from table entry 8176 on they overflow (`AddressTables`).
- `cmd_get_str` matches and fetches in separate critical sections, and `help` may sort the table in between. Then a name
  can run another command or be unknown (`RaceYieldsOther`); `RaceExactly` says when it cannot.
- `tm_set_ack` counts on from where it stands, so a lost one makes ground archive a batch twice and a repeated one skips
  samples (`LostConfirmDuplicates`, `RepeatedConfirmSkips`). The archive stays right if and only if every confirmation
  arrives once, or arrives more often at the end of the log (`ArchivedExactly`).
- Asking the RAM plan for time zero takes a free slot for an entry and copies from its null or freed pointers
  (`RamPlan.Table.Get`).
- The minute counter starts at the largest integer in RAM (`src/system/repoData.c:84`) and the first minute wraps it: the
  mission falls from the landing phase back to the first and deploys after five minutes (`BootValueWraps`).
  Phases move on, and nothing deploys twice, if and only if the counter does not wrap (`MissionMovesOn`).
- Phases can be skipped if more than six minute commands run between two ticks (`SkipsNoPhase`).
- A period of 4294968 ms or more wraps on the microsecond clock and becomes a short one (`PeriodExactly`).
- A command that itself sends on a full dispatcher queue waits for ever (`SendingCommandDeadlocks`); no
  command in the repository does so.
- `src/system/include/cmdTM.h` documents the parameters of the telemetry commands as node, then payload; the code
  reads payload, then node. The model takes the values after scanning, in the code's roles.

## Model

| member | source | states |
|---|---|---|
| NorFlash.Flash.Program | src/drivers/nanomind/data_storage.c:234-275 | a driver write replaces exactly the given range, and may only be called on erased bytes |
| NorFlash.Flash.Write | src/drivers/nanomind/data_storage.c:234-275 | any driver write changes nothing outside its range, sets the erased bytes in it, and reports whether all of them were erased |
| NorFlash.Flash.EraseBlock | src/drivers/nanomind/data_storage.c:169-174 | erasing sets one whole section to 0xFF and nothing else |
| PlanRecord.RecordRoundTrip | src/drivers/nanomind/data_storage.c:98-104 | decoding a 148-byte record gives back time, name, args, executions and period byte for byte, negative numbers included |
| PlanRecord.FourWritesMakeRecord | src/drivers/nanomind/data_storage.c:232-281 | the four writes each land on erased bytes and together build one record whose unused field bytes stay erased |
| PlanRecord.FourDriverWrites | src/drivers/nanomind/data_storage.c:232-281 | whatever bytes they meet, the four writes reach nothing outside the record; on an erased one they keep the NOR discipline and make the encoded entry |
| FlashLayout.PlanFitsFirstSection | src/drivers/nanomind/data_storage.c:112-123 | section arithmetic packs all 25 records inside the first plan section |
| FlashLayout.SampleFitsSection | src/drivers/nanomind/data_storage.c:473-486 | a sample below the capacity lies in one of its payload's own two sections, before the plan |
| FlashLayout.SizeOfFields | src/system/include/repoData.h:303-378 | a sample takes four bytes for each field of its struct |
| FlashLayout.FirstSample | src/drivers/nanomind/data_storage.c:473-480 | a payload's first sample starts its first section |
| FlashLayout.SampleFollows | src/drivers/nanomind/data_storage.c:473-486 | each sample stands right behind the one before, and one that would cross the end of the first section opens the second |
| FlashLayout.SamplesDisjoint | src/drivers/nanomind/data_storage.c:473-480 | the map from (payload, index) to byte ranges is injective |
| FlashLayout.HeldPlanDecodes | src/drivers/nanomind/data_storage.c:109-136 | decoding the first dat_fpl_queue records gives exactly the list that the flash represents |
| FlashLayout.PlanUnique | src/drivers/nanomind/data_storage.c:109-136 | a flash image represents at most one plan |
| FlashLayout.AppendRecord | src/drivers/nanomind/data_storage.c:222-283 | programming a record behind the packed ones appends its entry and keeps the rest of the section erased |
| FlashLayout.LogsKept | src/drivers/nanomind/data_storage.c:162-199 | writing or erasing in the plan section changes no payload log |
| FlashLayout.PlanKept | src/drivers/nanomind/data_storage.c:480-489 | writing or erasing payload sections does not change the plan |
| FlashLayout.AppendSample | src/drivers/nanomind/data_storage.c:473-493 | programming the next slot appends to that log and changes no other |
| FlashLayout.ErasedLogs | src/drivers/nanomind/data_storage.c:528-542 | erased payload sections are eight empty logs |
| FlashLayout.StrayLands | src/drivers/nanomind/data_storage.c:222-227 | C division and remainder put the record of a counter from -1 to -1770 into the last payload's second section |
| FlashLayout.StraySpoilsLogs | src/drivers/nanomind/data_storage.c:222-281 | such a record, written on erased bytes, is part of no log: the logs are no longer represented |
| FlashLayout.UnsetCounterDamages | src/drivers/nanomind/data_storage.c:213-283 | at -1 it covers slots 32758 to 32767 of payload 7; afterwards slot 32759 is not erased and nothing was appended |
| PlanSpec.FindTime | src/drivers/nanomind/data_storage.c:109-136 | the first entry with the time, or -1 if there is none |
| PlanSpec.EraseRemovesOne | src/drivers/nanomind/data_storage.c:176-205 | erasing removes exactly one entry and keeps the order of the rest if and only if no other entry has time zero |
| Storage.AddressTables | src/drivers/nanomind/data_storage.c:31-40 | the 16 payload addresses, and the 14337 plan addresses that the unparenthesised section size yields; the int product overflows exactly from index 8176 on, where wrapping and conversion still give the address |
| Storage.Store.constructor | src/system/repoData.c:97-145 | first boot on a blank chip: payload counters at zero, empty logs, and the plan's counter unset |
| Storage.Store.InitializePayloadVars | src/system/repoData.c:53-61 | unset payload counters become zero, the others stay |
| Storage.Store.FindIndex | src/drivers/nanomind/data_storage.c:109-136 | scanning flash finds the list index of the first entry with that time |
| Storage.Store.Rewrite | src/drivers/nanomind/data_storage.c:176-205 | the loop leaves exactly the kept records, packed, behind them erased bytes, and the logs untouched |
| Storage.Store.EraseIndex | src/drivers/nanomind/data_storage.c:144-208 | out of range fails unchanged; otherwise the plan loses that entry and zero-time ones, every rewrite landing on erased bytes |
| Storage.Store.WriteFields | src/drivers/nanomind/data_storage.c:229-281 | set's four writes change one record only; on erased bytes they keep the NOR discipline and write the encoded entry |
| Storage.Store.PlanSet | src/drivers/nanomind/data_storage.c:210-286 | for every counter: appends, through erased bytes and keeping invariant and logs, if and only if the counter is not negative; fails unchanged at 25; below zero the record lands in the last payload's section and, on erased bytes, spoils its log; from -1771 down the address is read outside the table |
| Storage.SetAfterBoot | src/drivers/nanomind/data_storage.c:210-286 | the first set after a first boot reports success, leaves the plan empty and spoils the last payload's log |
| Storage.Store.ReadEntry | src/drivers/nanomind/data_storage.c:296-325 | reading the fields yields the stored entry |
| Storage.Store.PlanGet | src/drivers/nanomind/data_storage.c:288-344 | returns the first entry with that time, takes it out, and re-appends a periodic one, otherwise unchanged, at time plus period; FiresEveryPeriod and FiresOnce fix answers and entries over runs |
| Storage.Store.PlanErase | src/drivers/nanomind/data_storage.c:346-366 | takes out the first entry with that time or fails unchanged |
| Storage.Store.PlanReset | src/drivers/nanomind/data_storage.c:368-399 | from any content of the plan section and any counter: the plan is empty afterwards and the logs are untouched, if and only if the counter was above -1771 or the section blank; exactly for which counters the erasing leaves table or chip |
| Storage.LargestCounterLeaves | src/system/repoData.c:84 | the value with which variables start in RAM makes the erasing leave the table on any chip |
| FlashLayout.AddReadsInTable | src/drivers/nanomind/data_storage.c:480 | an add looks inside the address table unless the last payload's log is full |
| FlashLayout.FullLastLogReadsOutside | src/drivers/nanomind/data_storage.c:480 | that add looks one entry past the end |
| Storage.DelayLooksInTable | src/drivers/nanomind/data_storage.c:511 | exactly which delays make a read look outside the address table |
| Storage.Store.AddSample | src/system/repoData.c:709-735 | appends to one log through erased bytes only, changing no other log and no plan entry; a full log rejects with flash unchanged; the table lookup stays inside unless it is the last payload's |
| Storage.Store.RecentSample | src/system/repoData.c:737-760 | returns the sample that many places before the newest, or fails, for every 32-bit delay, and says when the table lookup leaves the table |
| Storage.Store.DeleteMemorySections | src/system/repoData.c:762-783 | from any content of flash all logs are empty afterwards; a build with flight plans empties the plan, another keeps its section byte for byte |
| BeforeFlight.ResetNode | src/system/cmdDRP.c:49-62 | from any state of the node, zeroed counters and deleted sections leave logs, counts and plan empty; with flight plans the storage invariant holds; without, if and only if the plan section was blank, which for a plan kept properly means empty |
| BeforeFlight.ExecuteBeforeFlight | src/system/cmdDRP.c:40-77 | from any state, the right magic number zeroes every variable but the clock and resets storage with them, anything else changes nothing |
| BeforeFlight.ResetAndRun | src/system/cmdDRP.c:49-62 | from any state, resetting and then any run of storage requests answers and ends as the list model started from nothing |
| Storage.Store.Run | src/drivers/nanomind/data_storage.c:109-399 | from first boot or any later state, every run of storage requests answers and ends as the list model does, and decoding flash gives the model's plan, provided an unset plan counter is reset before the first entry is set |
| Storage.BenignStep | src/drivers/nanomind/data_storage.c:288-366 | with positive times and no overflow of a re-armed time, each request acts as on an ideal list and keeps times positive |
| Storage.BenignRunsAreIdeal | src/drivers/nanomind/data_storage.c:210-399 | on every run a caller keeps benign, no get or erase loses another entry |
| Storage.ZeroTimeIsLost | src/drivers/nanomind/data_storage.c:186 | erasing another entry loses one stored at time zero |
| Periodic.FiresEveryPeriod | src/drivers/nanomind/data_storage.c:288-344 | over every run: a periodic entry that was set answers the fetch at its n-th time, and at each one before, with its own name, args, executions and period, whatever else is requested in between, as long as no other request touches or takes its next time and the times fit 32 bits |
| Periodic.FiresOnce | src/drivers/nanomind/data_storage.c:288-344 | an entry without period answers one fetch with itself and is then missing |
| Periodic.ErasedIsGone | src/drivers/nanomind/data_storage.c:346-366 | an entry that was set and erased is missing |
| Periodic.NewestFirst | src/system/repoData.c:737-760 | a delay of zero reads the sample added last, each longer one what the delay before it read before that, and one as long as the log nothing |
| RamPlan.Table.SetAsync | src/system/repoData.c:437-459 | fills the first free slot or fails when none is free |
| RamPlan.Table.DeleteAsync | src/system/repoData.c:461-481 | frees the first slot with that time or fails |
| RamPlan.Table.Get | src/system/repoData.c:484-518 | returns the first entry with that time, re-arms it, otherwise unchanged, if periodic, then frees its slot (RamFiresEveryPeriod); exactly at time zero with a free slot it reads null or freed pointers |
| RamPlan.Table.Reset | src/system/repoData.c:557-581 | frees every slot |
| RamPlan.SameRoom | src/system/repoData.c:440-458 | holding the same entries, both plans are full at the same moment |
| RamPlan.RearmThenErase | src/system/repoData.c:501-505 | re-arming and then deleting gives the same list as deleting and then re-arming |
| RamPlan.SameStep | src/system/repoData.c:484-555 | a compatible request gets the same answer from both plans and keeps them the same |
| RamPlan.PlansAgree | src/system/repoData.c:484-555 | over any run of compatible requests both plans give the same answers |
| RamPlan.FullTableLosesPeriodic | src/system/repoData.c:501-505 | fetching keeps both plans the same if and only if a periodic entry finds a free slot |
| RamPlan.FullPlanLosesEntry | src/system/repoData.c:501-505 | fetching the periodic entry of a full plan leaves it at its next time in flash and nowhere in RAM |
| Periodic.RamFiresEveryPeriod | src/system/repoData.c:484-518 | in RAM a periodic entry set in a table with two free slots answers each of its first n fetches with itself at that time |
| TwoPlans.RunBoth | src/system/repoData.c:484-581 | the RAM code and the byte-level flash code, run side by side, give the answers of the table model, which RamFiresEveryPeriod fixes, and stay the same |
| RingQueue.RingPush | src/os/Linux/pthread_queue.c:88-91 | writing the slot at `in` appends the item and changes no other live slot, for every size and item size |
| RingQueue.RingPop | src/os/Linux/pthread_queue.c:131-134 | the slot at `out` holds the oldest item and advancing `out` removes exactly it |
| RingQueue.BehindIsModulo | src/os/Linux/pthread_queue.c:91 | `in` is (out + items) mod size |
| RingQueue.Queue.constructor | src/os/Linux/pthread_queue.c:30-55 | a new queue is empty |
| RingQueue.Queue.Send | src/os/Linux/pthread_queue.c:79-92 | appends the item at the byte level, or leaves a full queue unchanged |
| RingQueue.Queue.Receive | src/os/Linux/pthread_queue.c:122-135 | removes and returns the oldest item, or leaves an empty queue unchanged |
| QueueProtocol.StepKeepsOrder | src/os/Linux/pthread_queue.c:79-91 | the queue stays within its size and sent is always received followed by queued |
| QueueProtocol.StepForgetsNoReceiver | src/os/Linux/pthread_queue.c:92-95 | a receiver sleeps on a non-empty queue only while a sender is still to broadcast |
| QueueProtocol.StepForgetsNoSender | src/os/Linux/pthread_queue.c:135-138 | a sender sleeps on a queue with room only while a receiver is still to broadcast |
| QueueProtocol.RunsLoseNoWakeUp | src/os/Linux/pthread_queue.c:58-142 | in every state of every run, with any threads, spurious wake-ups and time-outs: bounded FIFO and no lost wake-up |
| QueueProtocol.EveryCallAccounted | src/os/Linux/pthread_queue.c:58-98 | in every state of every run each call to send an item has stored it exactly once, is still under way, or has timed out: a full queue drops nothing |
| QueueProtocol.StuckOnlyWhenBlocked | src/os/Linux/pthread_queue.c:80-86 | when nothing can move, senders sleep only on a full queue, receivers only on an empty one, never both |
| QueueProtocol.StepsDecrease | src/os/Linux/pthread_queue.c:79-138 | mutex sections and broadcasts decrease a lexicographic measure, so calls cannot wake each other for ever |
| Pipeline.StepKeepsInv | src/system/taskDispatcher.c:34-54 | every step of every thread, spurious wake-ups included, keeps conservation, the single token of the one-place queues, and that nobody sleeps through a broadcast |
| Pipeline.ExactlyOnceInOrder | src/system/taskExecuter.c:33-61 | in every interleaving executed, running, executer queue, held and dispatcher queue together are the accepted commands in order; each is freed once after running, at most one is in flight |
| Pipeline.InnerSendsNeverBlock | src/system/taskDispatcher.c:45-50 | in every interleaving the two one-place queues hold at most one token together, and both inner sends find their queue empty and never sleep |
| Pipeline.RestsOnlyWhenDone | src/system/taskDispatcher.c:37-50 | the pipeline comes to rest only when every accepted command ran and was freed and no producer waits |
| Pipeline.DrainsInBoundedTime | src/system/taskExecuter.c:33-61 | without new calls at most a computed number of steps can be made, and two more for each spurious wake-up, whatever the scheduling |
| Pipeline.Drains | src/system/taskDispatcher.c:34-54 | from start-up, once calls stop, every schedule ends within that bound, in a state where every accepted command ran and was freed and nobody waits |
| Pipeline.EveryCallAccounted | src/system/taskDispatcher.c:34-54 | in every state of every run each call of cmd_send was accepted exactly once or is still under way |
| Pipeline.EveryCallRuns | src/system/taskExecuter.c:33-61 | when the pipeline rests, each command has run and was freed exactly as often as cmd_send was called with it |
| Pipeline.SendingCommandDeadlocks | src/system/taskExecuter.c:50-59 | an executing command that sends on a full dispatcher queue waits for ever, whatever the scheduling |
| Pipeline.ExecutingCommandHoldsQueue | src/system/taskExecuter.c:50-59 | while a command executes, no other thread ever takes a command out of the dispatcher queue |
| Names.LessTotal | src/system/repoCommand.c:296 | the order is total and asymmetric |
| Names.LessIsStrcmp | src/system/repoCommand.c:296 | for all strings: one name is below another if and only if it is a proper prefix of it or has the smaller character at the first difference |
| Names.PrefixFirst | src/system/repoCommand.c:296 | a name comes before every longer one that starts with it, as obc_reset before obc_reset_wdt |
| Names.StableSortUnique | src/system/repoCommand.c:287-308 | sorted with the same commands per name in the same order determines the result |
| Names.StableSortPermutes | src/system/repoCommand.c:287-308 | a stable sort is a permutation |
| Names.SortedCopyIsStable | src/system/repoCommand.c:287-308 | the reference insertion sort is sorted and stable |
| QuickSort.MoveDown | src/system/repoCommand.c:298-301 | the inner loop moves one command down over the shifted others |
| QuickSort.PartedSameByName | src/system/repoCommand.c:292-304 | partitioning keeps the order of equal names |
| QuickSort.SortedHalves | src/system/repoCommand.c:306-307 | sorting both sides of the pivot sorts the whole, stably |
| QuickSort.PartLoop | src/system/repoCommand.c:292-304 | the partition loop leaves the smaller names, the pivot and the others, all in order, touches nothing else, and returns the pivot's index |
| QuickSort.Part | src/system/repoCommand.c:292-306 | the two sides of the pivot; if the pivot ends last, the last name was below the first and is so no longer |
| QuickSort.Sort | src/system/repoCommand.c:287-308 | terminates on every array, equals the stable reference sort by strcmp order (LessIsStrcmp) on its range and changes nothing outside |
| CommandRepo.FirstHeadsNamed | src/system/repoCommand.c:66-91 | the first match is the head of the commands of that name |
| CommandRepo.Repo.Add | src/system/repoCommand.c:30-64 | stores the command and keeps the flag equal to what it compares, or fails unchanged on a full table |
| CommandRepo.Repo.GetStr | src/system/repoCommand.c:66-120 | on a table at rest: nothing if and only if no entry has the name; otherwise the index of the first that has it, and the format, function and parameter count of that entry |
| CommandRepo.Repo.SortList | src/system/repoCommand.c:310-321 | an unset flag makes the registered part the stable sort of itself and leaves the rest |
| CommandRepo.Repo.FillWithNull | src/system/repoCommand.c:380-391 | for every number of turns: the loop is left if and only if there is a free entry and there are enough turns; then all entries behind the registered ones are null; a full table stays as it is for ever |
| CommandRepo.SortKeepsMeaning | src/system/repoCommand.c:66-120 | sorting never changes the format, function and parameter count a name finds, even with duplicate names |
| CommandRepo.Repo.RegisterAll | src/system/repoCommand.c:30-64 | a list of commands registered one by one stands in the table in that order |
| CommandRepo.Repo.RegisterAndFind | src/system/repoCommand.c:30-120 | after registering any list of commands, and whether the table is then sorted or not, a name yields format, function and parameter count of the first command registered under it |
| CommandRepo.Repo.GetStrWhileSorting | src/system/repoCommand.c:66-120 | the same scan with the table sorted before any one of its critical sections: comparisons and fetch see the old table before that section and the sorted one from it on |
| CommandRepo.RaceExactly | src/system/repoCommand.c:74-102 | such a lookup fetches the command of that name if, and for a name registered once only if, the scan has not passed the place it moves to, or it stays in place between match and fetch, or it was already fetched |
| CommandRepo.RaceYieldsOther | src/system/repoCommand.c:322-329 | two commands for which one name yields the other command and the other name nothing |
| CommandRepo.FlagMeansSortedFromOne | src/system/repoCommand.c:49-53 | the flag is set if and only if the table is sorted from index 1 on |
| CommandRepo.FlagMissesFirstPair | src/system/repoCommand.c:49-53 | with the flag set, the table is sorted if and only if entries 0 and 1 are in order |
| CommandRepo.Repo.RegisterFirstTwo | src/system/cmdOBC.c:28-29 | the first two registered commands leave the flag set on an unsorted table |
| Telecommand.ParseMeans | src/system/repoCommand.c:220-273 | for every spacing, the first word finds the command and everything from the next word on is its parameters; blank text and unknown names yield nothing |
| Telecommand.EveryTextReads | src/system/repoCommand.c:233-257 | every text has such a reading, with a word unless it is blank |
| Telecommand.SixSpaces | src/system/repoCommand.c:233-257 | white space is exactly the six characters of the C locale |
| Telecommand.ParamsHold | src/system/repoCommand.c:184-200 | parameters are NULL exactly for empty text, the whole text up to 64 characters, and otherwise its first 65 without a terminator |
| Telecommand.Strtok | src/system/taskCommunications.c:162-173 | one call yields the next token, whose meaning TokensSplit fixes, cuts the packet in place and leaves the rest of it intact |
| Telecommand.TokensSplit | src/system/taskCommunications.c:162-173 | for all strings: cutting at any delimiter gives the tokens before it and then those after it; empty text and a leading delimiter give nothing |
| Telecommand.OneToken | src/system/taskCommunications.c:162-173 | text without a delimiter is one token |
| Telecommand.ReceiveTc | src/system/taskCommunications.c:155-175 | for every packet, the commands sent are those of its tokens (TokensSplit) that parse, in order, with the fields of the first table entry of their name (ParseMeans, GetStr) |
| Telecommand.ParseRendered | src/system/repoCommand.c:233-257 | a rendered telecommand parses to its own name's command with its own parameters, or NULL if it has none |
| Telecommand.FrameRoundTrip | src/system/taskCommunications.c:145-175 | a frame of well-formed telecommands is received as exactly the registered ones, in order, with parameters unchanged |
| Telecommand.PaddedRoundTrip | src/system/taskCommunications.c:145-175 | the same with any number of delimiters before, between and behind the commands: no command behind an empty piece is lost |
| Telemetry.PackFrame | src/system/cmdTM.c:113-124 | a frame carries the right chunk of the range, its samples fit 192 bytes, and the bytes behind them are zero |
| Telemetry.PerFrame | src/system/cmdTM.c:91 | as many samples as fit 192 bytes, and not one more would fit |
| Telemetry.FrameBytes | src/system/cmdTM.c:113-124 | the data field starts with the samples one behind the other, byte for byte |
| Telemetry.CountBounds | src/system/cmdTM.c:94-98 | the frame count is the ceiling of samples over samples per frame |
| Telemetry.LogBounded | src/system/cmdTM.c:109 | a log has at most 65536 samples, so 16-bit frame numbers never wrap |
| Telemetry.SendFromTo | src/system/cmdTM.c:89-131 | the frames carry, frame by frame, exactly samples from..des in order, numbered from zero; junk stands only for indices below zero; a reversed range carries nothing, in at most one frame |
| Telemetry.WindowIsRange | src/system/cmdTM.c:119-123 | from an index that exists on, no junk is sent |
| Telemetry.ReceiveTm | src/system/taskCommunications.c:217-243 | for every frame: one within its length appends its samples in order as far as there is room; a longer one aborts if and only if its 32-bit product exceeds 192, and otherwise is stored together with whatever is read behind it; status or unknown frames change no log |
| Telemetry.OwnSamplesFirst | src/system/taskCommunications.c:232-236 | after an over-read the log still starts with the frame's own samples |
| Telemetry.WrappedCountPasses | src/system/taskCommunications.c:231 | every payload has an over-long count that passes the length assertion |
| Telemetry.ReceiveAll | src/system/taskCommunications.c:198-244 | a sequence of frames appends their samples in order |
| Telemetry.Transfer | src/system/cmdTM.c:89-131 | between two nodes, the receiver's log grows by exactly the requested samples when it has room |
| Downlink.AckInRange | src/system/cmdTM.c:266-269 | the acknowledged count stays between zero and the log length if and only if the sum avoids the sign bit |
| Downlink.AckTurnsNegative | src/system/cmdTM.c:266-269 | acknowledging 0x80000000 samples makes a count of zero negative |
| Downlink.OverflowsExactly | src/system/cmdTM.c:220-225 | which requests overflow int arithmetic, and the smallest of them |
| Downlink.Node.TmSendLast | src/system/cmdTM.c:133-167 | one frame with the newest samples: the whole log, or as many as 192 bytes hold; failure on an empty log or unknown payload |
| Downlink.Node.TmSendAll | src/system/cmdTM.c:169-194 | exactly the samples not acknowledged; for a count out of range, what is sent instead |
| Downlink.Node.TmSendFrom | src/system/cmdTM.c:196-233 | a numbered transfer of the samples right after the acknowledged ones, cut at the log's end, for every count and request; below the sign bit exactly the next samples asked for or all that are left |
| Downlink.Node.TmSetAck | src/system/cmdTM.c:236-278 | advances one payload's count by the samples asked for or all that are left, cut at the log's end, or fails unchanged; an unset count is rejected |
| Downlink.Node.DeleteMemorySections | src/system/repoData.c:762-783 | the counts stay in range if and only if they were all zero |
| Downlink.GroundSeesGaps | src/system/cmdTM.c:109-127 | received frame numbers count up from zero if and only if no frame is missing before one that arrives |
| Downlink.PrefixExactly | src/system/cmdTM.c:127 | what arrives is the start of what was sent if and, for distinct samples, only if no frame is missing before one that arrives |
| Downlink.ArchiveNeedsNoGap | src/system/cmdTM.c:127 | archiving whatever arrives keeps the archive the acknowledged prefix if and only if there is no such gap |
| Downlink.StepInStep | src/system/cmdTM.c:196-278 | measuring, requesting with lost frames, and harmless confirmations keep the archive equal to the acknowledged prefix and the open batch right behind it |
| Downlink.ConfirmExactly | src/system/cmdTM.c:266-271 | a confirmation that arrives any number of times keeps the archive the acknowledged prefix if and only if it arrives once, or more often at the end of the log |
| Downlink.ArchivedExactly | src/system/cmdTM.c:196-278 | over any run with lost frames, repeated requests and lost or repeated confirmations, the archive always is the acknowledged prefix if and only if every confirmation is harmless |
| Downlink.NoGapNoDuplicate | src/system/cmdTM.c:196-278 | so from the start of a session with harmless confirmations ground archives the log from its start without gap or duplicate |
| Downlink.LostConfirmDuplicates | src/system/cmdTM.c:266-271 | after a lost confirmation the same request makes ground archive the batch twice |
| Downlink.RepeatedConfirmSkips | src/system/cmdTM.c:266-271 | after a repeated one the next request starts behind samples that were never archived |
| Downlink.RunSession | src/system/cmdTM.c:196-278 | any such run made of the node's own commands, frames and acknowledgements ends as that session does |
| StatusRepo.Repo.Set | src/system/repoData.c:224-249 | the variable reads as the value, every other variable reads as before |
| StatusRepo.Repo.Get | src/system/repoData.c:251-298 | returns the value that at least two of the three copies hold, and the first copy if no two agree |
| StatusRepo.Repo.ZeroAll | src/system/cmdDRP.c:49-57 | every variable reads as zero afterwards, except the clock |
| StatusRepo.OneUpsetIsMasked | src/system/repoData.c:224-298 | over any run of writes and upsets, a variable with at most one copy upset since its last write reads as written |
| StatusRepo.TwoUpsetsOutvote | src/system/repoData.c:282-293 | two copies upset to the same value outvote the third |
| Delay.PeriodExactly | src/os/Linux/osDelay.c:23-27 | a period is 1000 us for each millisecond if and only if there are at most 4294967; 4294968 ms become 704 us |
| Delay.TaskDelayUntil | src/os/Linux/osDelay.c:44-66 | whatever tag the 32-bit value stands for within one wrap of the clock, the new value stands for the ideal next tag, which is not in the future |
| Delay.DelayStep | src/os/Linux/osDelay.c:44-66 | the wrapped tag follows the ideal one and is not in the future; under overload it moves by a period and the time between the two clock readings, otherwise to the second reading, and always by 1000 us per millisecond less at most 999; the sleep asked for ends within the last 999 us of the period |
| Delay.PeriodicDelay | src/os/Linux/osDelay.c:23-66 | after n calls the tag is at least start + n * (1000 * ms - 999) us, as seen through the wrapping counter |
| Housekeeping.ChangeSystemPhase | src/system/taskHousekeeping.c:282-361 | stores the phase of the minute counter unless it is unset, and changes no other variable |
| Housekeeping.Tick | src/system/taskHousekeeping.c:70-279 | exactly the commands that fall due in the second are queued, each once and in the order of the loop body; open_dpl_1 only in phases A0 and B1 whatever the height |
| Housekeeping.UpdateHoursAlive | src/system/cmdDRP.c:120-148 | both minute counters advance, no other variable changes |
| Housekeeping.RunMission | src/system/taskHousekeeping.c:70-279 | ticks and minute commands on the status repository end as the mission model does, and every tick queues exactly the commands of its second and phase, in order |
| Housekeeping.FlyPromptly | src/system/taskHousekeeping.c:39-45 | a flight from a zeroed counter whose minute commands run before the next tick queues open_dpl_1 exactly every 300 s up to second 1260 and every 20 s in seconds 5761 to 6120, and stores the phase that begins after 1260, 1620, 3660, 5760, 6120, 6480 or 8340 s |
| Housekeeping.SamplingRates | src/system/taskHousekeeping.c:97-125 | how often each sampling command has fallen due after n seconds, in closed form |
| Housekeeping.OrderDetermines | src/system/taskHousekeeping.c:97-279 | the commands that fall due determine the sequence that is queued |
| Housekeeping.AllAtOnce | src/system/taskHousekeeping.c:97-279 | in phase A0, at every tenth minute: deployment sample, picture, radio data, sun data, open_dpl_1, minute command, in that order |
| Housekeeping.MissionMovesOn | src/system/taskHousekeeping.c:70-137 | from any stored phase that fits the counter, or both unset, the phase never goes back and past minute 101 no tick deploys again, if and only if the 32-bit counter does not wrap |
| Housekeeping.UnwrappedMovesOn | src/system/taskHousekeeping.c:70-137 | the same for any number of minutes between two ticks, as long as the counter does not wrap |
| Housekeeping.BootValueWraps | src/system/repoData.c:81-85 | from the boot value, one minute puts the mission back into the first phase and the tick at five minutes deploys |
| Housekeeping.SkipsNoPhase | src/system/taskHousekeeping.c:39-45 | no phase can be skipped in one tick if and only if at most six minutes are added |
| Housekeeping.PhasesInOrder | src/system/taskHousekeeping.c:282-361 | while the counter does not wrap, a tick with at most six added minutes moves the phase by at most one |

## Left out

- The SQLite and PostgreSQL storage back ends (`src/drivers/Linux/data_storage.c`): SQL text over libraries that are not part of this model.
- The flash and FRAM drivers themselves: their writes and erases are taken to succeed, and a failure part way through a record is not modelled.
- Names and arguments longer than their 64-byte flash fields, or than the 50-byte buffers of the RAM plan, which the source would write past.
- Parameters longer than 64 characters are kept as an unterminated buffer; what reading that buffer yields is not modelled.
- The mutexes around the RAM flight plan, which one path leaves taken and another gives back twice (`src/system/repoData.c:478`, `src/system/repoData.c:507`): the table contents are modelled, not the lock.
- The contents of the status command that a status frame queues.
- Two tasks adding to or sending from the same payload at once: the index is read and written in separate critical sections, and the model treats each operation as one step.
- Allocation and pointers in the command table and the RAM plan; `Pipeline` only counts that each command is freed once.
- Housekeeping.ChangeSystemPhase: phases are numbered as in the source; the log lines are left out.
- Housekeeping.MissionMovesOn: at most 2^30 minute commands between two ticks, because more could carry the counter round a whole turn between two looks at it; UnwrappedMovesOn has no such bound.
- Storage.Store.FindIndex: the status variable dat_fpl_queue is a field here; `BeforeFlight.Mirrors` ties such fields to the variables, and that reading one returns what was last written is `StatusRepo.OneUpsetIsMasked`.
- Storage.Store.PlanSet: what an address read from before the table makes the driver write, for counters of -1771 or less, is not modelled.
- Storage.Store.PlanReset: what the driver does with an address that is not on the chip or not from the table is not modelled; the model stops there.
- Telemetry.SendFromTo: ranges for which the int arithmetic of the source overflows are excluded; the commands on top of it report them.
- The deadline arithmetic of the queue time-outs (`src/os/Linux/pthread_queue.c:63-76`): a time-out is a step that may happen at any moment.
- `fix_fmt`, which skips a byte before writing the terminator, so that its output is not determined by its input.
- `drp_set_var`, which may write any variable; `taskRWTest` and `taskWatchdog`, which are not started.
- `drp_test_system_vars`, printing, logging, time setting, ADCS, EPS, FOD, reaction wheel and radio commands, libcsp, and the FreeRTOS wrappers: they move data to and from devices and decide little themselves.
