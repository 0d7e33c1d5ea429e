# Sample clocks and slot pipelines of the softmodems

A Dafny model of the state machines that keep the OpenAirInterface softmodems in time, and proofs of
what they promise over every run:

- the NR UE slot loop: sample accounting, absolute slot counter, timing-advance catch-up, radio writes
  (`UeTiming`, `UeInputs`, `UeSlotCounter`, `UeThread`) and the chaining of transmit slots through barriers (`UeTxChain`
  holds the transition system, `UeTxOrder` the results, `UeTxExcess` what excess joins lead to, `UeTxDuration`
  changes of the RX-to-TX duration, `UeTxThread` the code as it runs);
- the gNB pipeline of RU, L1 TX and L1 RX threads with its `rx_tti_busy` flow control (`GnbPipeline`);
- clock keeping of the NR radio unit (`RuClock`, `RuThread`) and of the LTE radio unit (`LteRuClock`);
- ownership of radio units by NR UEs and their shared time base (`UeRu`);
- the LTE handshakes: rendezvous of radio units (`LteRendezvous`), transmit mailbox (`LteMailbox`) and
  fronthaul symbol reassembly (`LteFronthaul`).

`NrParms` holds the sample counts of NR slots (two slot lengths, because of the long cyclic prefix of
section 5.3.1 of 3GPP TS 38.211); `Arith` and `BitMask` are arithmetic and bit-mask helpers, `Options` two
result types.

Conventions. Threads that interact are interleaved transition systems over values: code under one mutex is
one atomic step, FIFOs are sequences, and a `Run` is any sequence of enabled steps. Code that one thread runs
on its own state is a class or a method with loops, proved equal to the functions the lemmas are about.
Uninterpreted parties (device, MAC, downlink traffic) are parameters with arbitrary values. Slot and frame counts
of the configuration, the barrier count and `RU_RX_SLOT_DEPTH` are parameters; frame numbers wrap at 1024.

Results where the code does less than one might expect, each with its exact condition:

- A resynchronization of the UE does not always increase the absolute slot counter: if the counter is at the
  last slot of a frame and the next frame is decoded, it keeps its value (`UeSlotCounter.ResyncIncreasesIff`,
  `ResyncKeepsCounter`). The slots that are processed still never repeat (`ProcessedIncreases`).
- The UE counts one join per received DLSCH (executables/nr-ue.c:555-563), but every codeword of it joins
  (openair1/SCHED_NR_UE/phy_procedures_nr_ue.c:1205, 781-784), and it counts modulo one frame, but joins the
  absolute feedback slot. For offsets of at least the RX-to-TX duration, which the MAC asserts
  (openair2/LAYER2/NR_MAC_UE/nr_ue_procedures.c:1351), every interleaving starts its transmit slots in order and
  loses none exactly when the traffic is balanced: each slot gets as many codeword joins as DLSCHs were counted for it
  (`UeTxOrder.OrderlyIffBalanced`). For offsets within one frame from the RX-to-TX duration on that means one
  codeword per DLSCH (`UeTxOrder.OneJoinIff`); with one codeword each it means offsets within that frame
  (`UeTxOrder.WithinFrameIff`). With two codewords a slot starts before its predecessor has joined
  (`UeTxOrder.TwoCodewordsStartEarly`); with an offset of 13 and ten slots per frame a slot never starts
  (`UeTxOrder.LateFeedbackStuck`). A slot armed after more joins than it waits for never starts until its barrier is
  armed again one ring later (`UeTxExcess.ExcessBeforeArmingLoses`, `TwoCodewordsLoseSlot`); its callback can then
  still fire (`UeTxExcess.StaleCallbackFires`).
- Barrier indices chain across the frame wrap exactly when the barrier count divides the slots of 1024 frames
  (`UeTxChain.IndexChainsIff`).
- While the RX-to-TX duration grows, with every offset within one frame from the duration in force on, the wait
  counters stay exact over a run exactly when no change skips a slot with feedback on it
  (`UeTxDuration.ExactIffNoneSkipped`).
- First reception of the NR radio unit inside the last slot of frame 1023 sets its frame counter to 1024
  (executables/nr-ru.c:440-441 does not wrap), and one a frame or more before time 0 leaves it before time 0; in
  both cases, and in no others, the next pass exits (`RuClock.FirstReceptionRunsOnIff`, `RuClock.LastSlotExits`).
- The transmit frame label of the NR radio unit is right exactly when the lead holds a multiple of 1024 whole
  frames: below 1024 frames, exactly for leads below one frame (`RuClock.TxFrameRightIff`).
- An LTE frame resynchronization leaves the clock in step exactly when the resulting position is not before time
  0, the commanded frame is below 1024 and the whole subframes of drift are none, or one frame back if subframe 0
  is expected, modulo 1024 frames (`LteRuClock.ResynchIff`); otherwise this read or the next one exits
  (`LteRuClock.ResynchSurvivesIff`). Before time 0 the read itself can pass if subframe 0 is expected
  (`LteRuClock.BeforeZeroIff`, `BeforeZeroPasses`). On a drift-free read the command fails at every frame start
  (`LteRuClock.ResynchInStepIff`, `ResynchAtFrameStartExits`).
- The gNB RU thread stays less than two frames of jobs ahead, except that an aligning first reception skips a slot:
  while its job is open the lead can be exactly two frames (`GnbPipeline.BoundedLead`, `AlignedLeadReached`).
- Without an uplink or mixed slot nothing bounds how far the gNB RU thread runs ahead
  (`GnbPipeline.UnboundedLeadWithoutRx`).
- One LTE fronthaul symbol number that is too high completes a subframe alone
  (`LteFronthaul.IllegalSymbolCompletes`).

## Model
| member | source | states |
|---|---|---|
| NrParms.InitFrameParmsValid | openair1/PHY/INIT/nr_parms.c:306-320 | initialized parameters always satisfy what the rest relies on: a subframe is two half subframes, each one long and otherwise short slots |
| NrParms.SlotsMultiply | openair1/PHY/INIT/nr_parms.c:14 | the slots of a subframe are the power of two of the numerology |
| NrParms.SlotIsItsSymbols | openair1/PHY/INIT/nr_parms.c:306-320 | the initialized slot lengths are the sums of their symbols, the first one of each half subframe with the long prefix |
| NrParms.SlotTimestampStep | openair1/PHY/INIT/nr_parms.c:248-270 | the closed form of slot starts advances by exactly the length of each slot |
| NrParms.SlotDurationIsSum | openair1/PHY/INIT/nr_parms.c:272-278 | the duration of any window of slots is the sum of its slot lengths |
| NrParms.SlotTimestampSubframes | openair1/PHY/INIT/nr_parms.c:248-270 | k subframes later is k subframe lengths later, from any slot |
| NrParms.SlotTimestampFrames | openair1/PHY/INIT/nr_parms.c:248-270 | k frames later is k frame lengths later, from any slot |
| NrParms.SamplesPerSlotPeriodic | openair1/PHY/INIT/nr_parms.c:158-168 | slot lengths repeat every frame |
| NrParms.SlotTimestampMonotone | openair1/PHY/INIT/nr_parms.c:248-270 | slots do not overlap: a later slot starts at or after the end of an earlier one |
| NrParms.SlotFromOffset | openair1/PHY/INIT/nr_parms.c:219-245 | decoding an offset in a frame gives the slot whose sample interval contains it |
| NrParms.DecodeTimestamp | openair1/PHY/INIT/nr_parms.c:219-245 | round trip: any sample of slot s of frame f decodes to s and f modulo 1024 |
| UeTiming.SlotStartStep | executables/nr-ue.c:705-712 | the samples read in a slot move the received position by exactly that slot's length less the drift shift, also at the frame end |
| UeTiming.DurationSlides | executables/nr-ue.c:987-989 | sliding the RX-to-TX window by one slot exchanges its first and last slot length, across the frame end too |
| UeTiming.NtnConfigEffect | openair1/PHY/NR_UE_TRANSPORT/nr_ntn_l1.c:150-156 | a new offset makes the duration 3 slots plus its subframes and moves the timing advance by exactly the samples of the difference |
| UeTiming.NtnConfigNeutral | openair1/PHY/NR_UE_TRANSPORT/nr_ntn_l1.c:125-156 | a change of the cell-specific offset changes duration and timing advance so that the next transmit timestamp stays the same |
| UeTiming.BlockMeetsNext | executables/nr-ue.c:939-1010 | one slot: the clamped block starts at the announced timestamp and ends where the next slot's block starts, for any drift, timing advance, N_TA_offset and NTN change |
| UeTiming.BlocksAbut | executables/nr-ue.c:939-1010 | all blocks of a run lie end to end between the first and the final announced timestamp |
| UeTiming.BlocksContiguous | executables/nr-ue.c:939-1010 | over every run, block k ends exactly where block k+1 starts, and no block has negative size |
| UeTiming.RuChunksTile | executables/nr-ue.c:339-367 | the radio writes of one block tile its interval without gap or overlap |
| UeTiming.RuChunksBounded | executables/nr-ue.c:341-367 | no radio write is longer than the slot, and the last one carries the slot and ends with the block |
| UeTiming.StreamTiles | executables/nr-ue.c:342-367 | all radio writes of a whole run tile one interval |
| UeInputs.FirstSymbolOfSlot | openair1/PHY/INIT/nr_parms.c:170-208 | the first symbol left out of a read is symbol 0 of its slot |
| UeInputs.InputsTakenUp | executables/nr-ue.c:986-1010 | requested timing advance and N_TA_offset are in force for the next block, which is later than asked for by exactly the samples that could not be left out |
| UeInputs.DurationOfLastOffset | executables/nr-ue.c:1029-1037 | over a run the duration is that of the last NTN offset received |
| UeInputs.FrameReads | executables/nr-ue.c:939-979 | over a frame the UE reads a frame of samples less the last shift measured before its last slot, and leaves the shift or drift correction of that slot for the next frame |
| UeInputs.CatchUpStep | executables/nr-ue.c:993-1010 | with steady requests one slot reaches the requested timing advance and N_TA_offset together or closes the gap by exactly the samples of the transmitted slot |
| UeInputs.CatchUp | executables/nr-ue.c:993-1010 | how early transmission is after any number of steady slots: as requested, or the start value plus all slot lengths passed |
| UeInputs.CatchUpTerminates | executables/nr-ue.c:993-1010 | both requests are met in at most as many slots as the gap has samples, and kept |
| UeSlotCounter.LabelsRecompose | executables/nr-ue.c:917-924 | hyper frame, frame and slot numbers are the only in-range ones that recompose to the absolute slot |
| UeSlotCounter.NextFrameIndex | executables/nr-ue.c:866-870 | the chosen hyper frame makes the frame index the least later one with the decoded number |
| UeSlotCounter.ResyncLandsOnNextFrame | executables/nr-ue.c:865-872 | the next slot processed is the first slot of the least later frame congruent to the decoded one |
| UeSlotCounter.ResyncIncreasesIff | executables/nr-ue.c:865-872 | the counter never goes back, and strictly increases exactly unless the last slot of a frame is followed by decoding the next frame |
| UeSlotCounter.ResyncKeepsCounter | executables/nr-ue.c:865-872 | a concrete synchronization that leaves the counter unchanged |
| UeSlotCounter.ProcessedIncreases | executables/nr-ue.c:865-909 | over any mix of slots and synchronizations the processed absolute slots strictly increase |
| UeThread.UeThread.constructor | executables/nr-ue.c:745-759 | initial state, duration consistent with the NTN offset |
| UeThread.UeThread.DeviceRead | executables/nr-ue-ru.c:435-444 | a read returns the position of its first sample and moves the position by its length |
| UeThread.UeThread.Resynchronize | executables/nr-ue.c:849-889 | skips exactly the sync offset and the first symbol, sets the counter so that slot 0 comes next, changes nothing else but the NTN timing; the RF simulator writes tile an interval as long as the skipped one |
| UeThread.UeThread.ApplyNtn | openair1/PHY/NR_UE_TRANSPORT/nr_ntn_l1.c:150-156 | in-place update: duration of 3 slots plus the subframes of the offset, offset stored, timing advance as `NtnConfigEffect` states |
| UeThread.UeThread.ProcessSlot | executables/nr-ue.c:908-1037 | one pass of the loop equals the specified slot step; its block starts where announced and ends where the next one will start |
| UeThread.RuWrite | executables/nr-ue.c:275-367 | the loop writes exactly the specified chunks, none for an empty block |
| UeTxChain.IndexUnwrapped | executables/nr-ue.c:1050-1060 | the index from wrapped frame numbers equals the one from absolute slots, for arming and for decoding |
| UeTxChain.IndexChainsIff | openair1/PHY/defs_nr_UE.h:51-58 | the wrapped index of every slot is the unwrapped one of `next_barrier` exactly when the barrier count divides the slots of 1024 frames |
| UeTxChain.CountedFinal | executables/nr-ue.c:561-563 | counting for a slot ends when it is armed |
| UeTxChain.RxCountKeepsRing | executables/nr-ue.c:561-563 | counting on the ring modulo the frame counts for the first slot to be armed in that residue, for any offset |
| UeTxChain.RxArmKeepsRing | executables/nr-ue.c:1062 | clearing the used counter makes the ring refine the next frame of absolute slots |
| UeTxChain.RunBase | executables/nr-ue.c:1046-1062 | in every run, for any traffic, ring and decoder counts are exact |
| UeTxChain.RingRefinesCounted | executables/nr-ue.c:1057-1062 | in every run, for any traffic, the counter used when a slot is armed is the number of DLSCHs whose first slot to be armed in their residue it is |
| UeTxChain.JoinKeepsInv | common/utils/barrier/barrier.c:27-42 | any join keeps the invariant; it starts a slot only if that slot is next and complete |
| UeTxChain.DecodedKeepsInv | openair1/SCHED_NR_UE/phy_procedures_nr_ue.c:780-784 | a decoded codeword joins the barrier of its absolute feedback slot; the invariant is kept unless the slot had all counted joins |
| UeTxChain.TxJoinsNextKeepsInv | executables/nr-ue.c:371-447 | a transmit job joins the barrier of the following absolute slot and keeps the invariant |
| UeTxChain.RxArmKeepsInv | executables/nr-ue.c:1050-1062 | arming keeps the invariant, also when all joins came early |
| UeTxChain.RunInv | executables/nr-ue.c:1046-1062 | in every interleaving, for any traffic, the invariant holds as long as no slot had more decoder joins than DLSCHs counted for it |
| UeTxOrder.StartsInOrder | executables/nr-ue.c:371-447 | with balanced traffic, in every interleaving slots start once, in order, without holes, and only when armed, after the previous slot joined and all codewords with feedback on them are decoded |
| UeTxOrder.NoLostStart | common/utils/barrier/barrier.c:27-58 | with balanced traffic an armed slot that has not started still misses a codeword or the previous slot |
| UeTxOrder.NeverStuck | common/utils/barrier/barrier.c:27-58 | with balanced traffic, in every reachable state a decoder of the next slot, the previous slot or the slot loop can step |
| UeTxOrder.NextStartWithinRank | executables/nr-ue.c:1046-1062 | with balanced traffic, from any reachable state at most a rank of steps happens before the next slot starts |
| UeTxOrder.ExcessStartsEarly | openair1/SCHED_NR_UE/phy_procedures_nr_ue.c:1205-1273 | one join more than counted starts a slot before its predecessor has joined |
| UeTxOrder.PassSlot | executables/nr-ue.c:1046-1062 | if every run is orderly, the joins of each slot in turn equal its count |
| UeTxOrder.OrderlyIffBalanced | executables/nr-ue.c:371-447 | every interleaving is in order and loses no slot if and only if each slot gets as many codeword joins as DLSCHs were counted for it |
| UeTxOrder.CountedAtFeedbackIff | executables/nr-ue.c:561-563 | a DLSCH is counted for its feedback slot exactly when its offset lies in the frame from the duration on |
| UeTxOrder.FeedbackWindowIff | openair2/LAYER2/NR_MAC_UE/nr_ue_procedures.c:1350-1356 | the counter used for every slot is the number of DLSCHs with feedback on it exactly when all offsets lie within one frame from the duration on |
| UeTxOrder.OneJoinIff | openair2/LAYER2/NR_MAC_UE/nr_ue_procedures.c:1402-1434 | for offsets in that frame every run is in order exactly when every counted DLSCH makes one join |
| UeTxOrder.WithinFrameIff | openair2/LAYER2/NR_MAC_UE/nr_ue_procedures.c:1350-1356 | for one join each every run is in order exactly when all offsets lie in that frame |
| UeTxOrder.TwoCodewordsStartEarly | openair1/SCHED_NR_UE/phy_procedures_nr_ue.c:1205-1273 | a run in which a slot starts on the two codewords of a DLSCH before the previous slot has joined |
| UeTxOrder.LateFeedbackStuck | executables/nr-ue.c:561-563 | a run in which an offset of 13 leaves a slot armed for a join that never comes |
| UeTxExcess.OverrunNeverFires | common/utils/barrier/barrier.c:27-58 | a barrier armed after too many joins does not fire, then or at any later join |
| UeTxExcess.ExcessBeforeArmingLoses | executables/nr-ue.c:1050-1062 | in every run a slot armed after more joins than it waits for does not start until its barrier is armed one ring later |
| UeTxExcess.StaleCallbackFires | common/utils/barrier/barrier.c:44-58 | an update that fires at once leaves an old callback in place, which fires after as many joins as it once waited for |
| UeTxExcess.TwoCodewordsLoseSlot | openair1/SCHED_NR_UE/phy_procedures_nr_ue.c:1205-1273 | a run in which two codewords decoded early lose a slot |
| UeTxDuration.LoopFollowsChain | executables/nr-ue.c:1046-1062 | with a fixed duration the loop of this model is that of the transmit chain |
| UeTxDuration.GrowExactIff | executables/nr-ue.c:1029-1062 | a longer duration keeps the counters exact exactly when no DLSCH has its feedback on a skipped slot |
| UeTxDuration.ExactIffNoneSkipped | executables/nr-ue.c:1029-1062 | over every run with growing durations and offsets that fit the one in force, the counters are exact throughout exactly when no change skips a slot with feedback |
| UeTxThread.DynamicBarrier.constructor | common/utils/barrier/barrier.c:8-25 | a new or reset barrier has no joins and no callback |
| UeTxThread.DynamicBarrier.Join | common/utils/barrier/barrier.c:27-42 | in-place join equals the one of the transition system, including when the callback fires |
| UeTxThread.DynamicBarrier.Update | common/utils/barrier/barrier.c:44-58 | in-place update equals the one of the transition system, including joins that came before it |
| UeTxThread.TxChain.constructor | executables/nr-ue.c:894-899 | cleared counters and reset, distinct barriers are the initial state |
| UeTxThread.TxChain.CountDlsch | executables/nr-ue.c:555-563 | counting on the array is the counting step |
| UeTxThread.TxChain.Arm | executables/nr-ue.c:1050-1062 | updating the barrier object and clearing the counter is the arming step |
| UeTxThread.TxChain.CodewordDone | openair1/SCHED_NR_UE/phy_procedures_nr_ue.c:780-784 | joining the barrier object of the feedback slot is the decoding step |
| UeTxThread.TxChain.JobJoins | executables/nr-ue.c:371-447 | joining the next barrier object is the step of a started job |
| GnbPipeline.NextKeepsInv | executables/nr-ru.c:906-1002 | every step of every thread keeps queue order and busy flags consistent |
| GnbPipeline.RunInv | executables/nr-gnb.c:113-144 | the invariant holds in every state of every interleaving of the three threads |
| GnbPipeline.OutstandingIsHeld | executables/nr-gnb.c:113-144 | the outstanding jobs are exactly those in one of the three queues or held by a thread |
| GnbPipeline.BusyIffOneOutstanding | executables/nr-ru.c:778-801 | a busy flag is set exactly when the queues and threads hold a job of its residue, never two |
| GnbPipeline.FrontEndWritesFreePartition | executables/nr-ru.c:961-966 | the partition the front end writes is not one that an unfinished RX job will read |
| GnbPipeline.AtMostDepthInFlight | executables/nr-ru.c:778-801 | queues and threads together hold at most depth RX jobs |
| GnbPipeline.WaitMakesProgress | executables/nr-ru.c:781-797 | while the RU thread waits a matching job exists, some other thread can step if no completion is queued, and every possible step lowers a rank |
| GnbPipeline.WaitIsFinite | executables/nr-ru.c:786-796 | a wait ends within a number of steps bounded by its initial rank |
| GnbPipeline.WaitPulls | executables/nr-ru.c:786-796 | a wait pulls at most depth completions |
| GnbPipeline.BoundedLead | executables/nr-ru.c:906-1002 | with an uplink or mixed slot in the frame, the RU thread is less than two frames of jobs ahead of the oldest job not handled by the RX thread, or at most two while the job of an aligning first reception is open |
| GnbPipeline.AlignedLeadReached | executables/nr-ru.c:421-443 | for every frame length a run that reaches exactly two frames after an aligning first reception |
| GnbPipeline.UnboundedLeadWithoutRx | executables/nr-ru.c:961-1002 | without such a slot every lead is reachable |
| GnbPipeline.WaitFreeRxTti | executables/nr-ru.c:778-801 | the loop clears the flags of all pulled completions, stops at the first of its own residue, sets its flag, and fails only if the queue ends before |
| GnbPipeline.PullStepsFollowLoop | executables/nr-ru.c:786-799 | the pull steps of the transition system have exactly the effect of that loop |
| RuClock.SlotDecodes | executables/nr-ru.c:385-386 | the decoded slot is a slot of the frame and contains the timestamp |
| RuClock.DriftRemoved | executables/nr-ru.c:366-377 | for any device timestamp the corrected one is exactly one slot after the previous one |
| RuClock.TimeBase | executables/nr-ru.c:361-377 | after every read past the first one, timestamp and time base add up to the device timestamp |
| RuClock.TimeBaseCollectsDrifts | executables/nr-ru.c:366-377 | over any run the time base is the initial one plus all drifts the device reported, and keeps translating to device time |
| RuClock.FirstPassCounters | executables/nr-ru.c:811-812 | the first pass reads for slot 0 of frame 0 |
| RuClock.PassKeepsStep | executables/nr-ru.c:341-443 | one pass keeps timestamp and counters in step and does not exit, for any device timestamp |
| RuClock.AlignedRunsOn | executables/nr-ru.c:400-421 | the exits are unreachable from an aligned state, for any sequence of device timestamps |
| RuClock.FirstBoundary | executables/nr-ru.c:421-443 | where first reception puts timestamp, slot and frame counter |
| RuClock.FirstReceptionInStepIff | executables/nr-ru.c:421-443 | first reception leaves the clock in step exactly unless it aligns out of the last slot of frame 1023 |
| RuClock.LastSlotExits | executables/nr-ru.c:426-443 | a first timestamp in that slot from which the next pass exits |
| RuClock.EarlyReception | executables/nr-ru.c:421-443 | a first timestamp before time 0 is brought in step exactly when it is less than a frame early |
| RuClock.FirstReceptionRunsOnIff | executables/nr-ru.c:400-443 | for any first timestamp, a run never exits exactly when it is less than a frame before time 0 and not inside that slot |
| RuClock.OutOfStepExits | executables/nr-ru.c:410-420 | with frame counter 1024 the next pass exits |
| RuClock.TimestampTx | executables/nr-ru.c:940-942 | the loop adds exactly the samples of the slots between reception and transmission |
| RuClock.TxLabelsDecode | executables/nr-ru.c:940-944 | with a lead below one frame the transmit timestamp decodes to the transmit labels, and both wrap tests agree |
| RuClock.TxTimestampDecodes | executables/nr-ru.c:940-944 | for a lead of any size: which slot and frame the transmit timestamp decodes to, and which frame the label names |
| RuClock.TxFrameRightIff | executables/nr-ru.c:943-944 | at every position the frame label is right exactly when the whole frames of the lead are a multiple of 1024 |
| RuThread.RuThread.constructor | executables/nr-ru.c:811-812 | initial counters, before the first reception |
| RuThread.RuThread.AdvanceCounters | executables/nr-ru.c:907-913 | in-place counters follow the specified advance |
| RuThread.RuThread.ReadSlot | executables/nr-ru.c:341-443 | in-place read equals the specified one, including first alignment and the exits |
| RuThread.RuThread.Pass | executables/nr-ru.c:906-944 | a pass after first reception never exits and stays in step, for any lead; with the time base the transmit timestamp is the device time of the received slot plus the slots of the lead; the slot label is what the timestamp decodes to, the frame label exactly under the condition on the lead |
| UeRu.AssignRus | executables/nr-uesoftmodem.c:309-326 | succeeds exactly when configured RUs exist and are distinct, with the inverse mapping; else names the first offending cell and why |
| UeRu.Setup | executables/nr-uesoftmodem.c:309-410 | succeeds exactly when moreover every UE gets a cell; the result is consistent ownership |
| UeRu.SetupOwned | executables/nr-uesoftmodem.c:328-372 | one cell per UE in order is consistent ownership |
| UeRu.DistanceIff | executables/nr-ue-ru.c:377-380 | the distance of two frequencies is what one must move to become the other, in either direction |
| UeRu.CarrierDistanceIs | executables/nr-ue-ru.c:377-381 | downlink and uplink distance add up, and only the requested carriers are at none |
| UeRu.PickNearest | executables/nr-ue-ru.c:383-400 | no candidate is nearer than the pick, and a candidate with the requested carriers is matched |
| UeRu.PickUnique | executables/nr-ue-ru.c:383-400 | the nearest candidate with the given tie rule is unique |
| UeRu.MoveKeepsOwned | executables/nr-ue-ru.c:402-404 | moving to the current or a free RU keeps ownership consistent |
| UeRu.UeRadio.SetFreq | executables/nr-ue-ru.c:373-404 | the UE moves to the RU of least carrier distance among its own and all free ones, with the requested carriers if some candidate has them; all else unchanged |
| UeRu.UeRadio.Read | executables/nr-ue-ru.c:435-473 | exactly the own RU, and for UE 0 all free ones, move by the samples read; the timestamp is relative to the first one of the RU |
| UeRu.UeRadio.Write | executables/nr-ue-ru.c:475-503 | the writes go to the same RUs, at the timestamp shifted by each RU's first one |
| UeRu.RoundCount | executables/nr-ue-ru.c:449-470 | how often the first UEs of a round drive a given RU |
| UeRu.DrivesIff | executables/nr-ue-ru.c:446-470 | the RUs a read moves are those of the round, each once |
| UeRu.EveryRuDrivenOnce | executables/nr-ue-ru.c:483-501 | in one round each RU with a cell is driven exactly once and no other RU at all |
| UeRu.RetuneRunOwned | executables/nr-ue-ru.c:373-404 | after any sequence of retunings ownership is consistent, no two UEs share a cell and each RU with a cell is driven once per round |
| UeRu.EventKeepsClock | executables/nr-ue-ru.c:435-473 | a read or retuning keeps all RUs at the same time since their first sample |
| UeRu.RusShareClock | executables/nr-ue-ru.c:449-470 | in every reachable state with one UE all RUs with a cell share one relative clock, the number of samples read |
| UeRu.ReadTimestampsContiguous | executables/nr-ue-ru.c:435-444 | a read returns the number of samples read before it, across RU switches |
| UeRu.WritesShareClock | executables/nr-ue-ru.c:475-503 | a write reaches every RU with a cell once, at the same relative time |
| LteRendezvous.Rendezvous.WakeupL1s | executables/lte-ru.c:1072-1151 | a call ends waits of one, adds exactly the bits of the caller and of RUs nobody waits for, clears a complete word, and wakes L1 if the caller is not waiting |
| LteRendezvous.CompleteWithoutWaiting | executables/lte-ru.c:1079-1109 | the word is complete exactly when all RUs have arrived that are not synchronizing and not waiting slaves, the caller unless it waits |
| LteRendezvous.RunningCallIsArrival | executables/lte-ru.c:1079-1114 | with no RU waiting or synchronizing, the call is an arrival of the transition system |
| LteRendezvous.ArriveKeepsInv | executables/lte-ru.c:1079-1114 | an arrival keeps words equal to arrivals per absolute subframe, and wakes L1 exactly if it is the last one of its subframe |
| LteRendezvous.RunInv | executables/lte-ru.c:1072-1151 | in every interleaving the ten words refine arrivals per absolute subframe and wake-ups are for subframes 0, 1, 2, ... once each |
| LteRendezvous.WokenByLastArriver | executables/lte-ru.c:1109-1139 | each wake-up is made by the last RU to arrive at that subframe |
| LteRuClock.FirstReadInStep | executables/lte-ru.c:553-555 | the first read starts at frame 0, subframe 0, whatever the device reports |
| LteRuClock.TimeBase | executables/lte-ru.c:536-560 | after every read, resynchronizing or not, timestamp and time base add up to the device timestamp |
| LteRuClock.FirstPassCounters | executables/lte-ru.c:1510-1511 | the first pass reads for subframe 0 of frame 0 |
| LteRuClock.PassKeepsStep | executables/lte-ru.c:556-563 | for any device drift decoded labels are the counters of the main loop |
| LteRuClock.ResynchTimed | executables/lte-ru.c:533-544 | absolute subframe of a resynchronizing read, from drift and commanded frame |
| LteRuClock.ResynchIff | executables/lte-ru.c:533-563 | for any drift, the read passes with the clock in step, in the commanded frame and unchanged subframe, exactly when the position is not before time 0, the frame is below 1024 and the drift fits |
| LteRuClock.ResynchSurvivesIff | executables/lte-ru.c:533-616 | this read and the next one both pass exactly then, whatever the device reports next |
| LteRuClock.BeforeZeroIff | executables/lte-ru.c:562-611 | a resynchronization to before time 0 passes exactly when subframe 0 is expected and truncating division happens to name the position so; then the next read exits |
| LteRuClock.BeforeZeroPasses | executables/lte-ru.c:562-611 | a command that passes one sample before time 0, after which the next read exits |
| LteRuClock.ResynchInStepIff | executables/lte-ru.c:533-563 | without drift the timestamp is never negative and the condition is a subframe other than 0 and a frame below 1024 |
| LteRuClock.ResynchAtFrameStartExits | executables/lte-ru.c:533-611 | a read at a frame start on which the command exits |
| LteRuClock.RunInStep | executables/lte-ru.c:602-616 | over any run of drifting reads and fitting resynchronizations no read exits and the clock stays in step |
| LteRuClock.TxLabelsDecode | executables/lte-enb.c:552-556 | transmit labels less than ten subframes ahead are those of the transmit timestamp |
| LteRuClock.LteRu.constructor | executables/lte-ru.c:1510-1511 | initial counters, before the first read |
| LteRuClock.LteRu.AdvanceCounters | executables/lte-ru.c:1620-1626 | in-place counters follow the specified advance |
| LteRuClock.LteRu.ReadSubframe | executables/lte-ru.c:510-616 | in-place read equals the specified one, with drift correction, resynchronization and exits |
| LteMailbox.ApplyKeepsInv | executables/lte-enb.c:495-517 | every step of producer and consumer keeps the mailbox invariant |
| LteMailbox.RunInv | executables/lte-enb.c:267-300 | the invariant holds in every state of every interleaving |
| LteMailbox.ProcessedInOrder | executables/lte-enb.c:485-518 | the downlink jobs among the calls of the run are the processed ones, then the one in the mailbox, then the one of a waiting producer: each once and in order, uplink ones never; each finish processes one |
| LteMailbox.FieldsStableWhileProcessing | executables/lte-enb.c:285-290 | the fields never change while the consumer uses them, and its end processes exactly them |
| LteMailbox.NeverBothBlocked | executables/lte-enb.c:499-501 | producer and consumer are never both blocked |
| LteMailbox.BlockedProducerReleased | executables/lte-enb.c:286-297 | the end of processing releases a blocked producer, which then publishes |
| LteFronthaul.ReceivedWord | executables/lte-ru.c:196-206 | receiving a packet keeps the word equal to the bits received for its subframe |
| LteFronthaul.CompleteIff | executables/lte-ru.c:209 | the numeric test holds exactly when all low bits or any higher bit is set |
| LteFronthaul.CompleteMeansAllOrTick | executables/lte-ru.c:189-209 | with legal symbol numbers a word is complete exactly when a tick or all symbols arrived |
| LteFronthaul.IllegalSymbolCompletes | executables/lte-ru.c:196-209 | one symbol number too high completes a word although symbols are missing |
| LteFronthaul.Receiver.ReceivePacket | executables/lte-ru.c:196-206 | a packet, early or not, is recorded in the word of its subframe and no other |
| LteFronthaul.Receiver.SouthIn | executables/lte-ru.c:181-259 | a return happens at the first packet that completes the expected subframe, with that subframe; its word alone is cleared and early packets of others are kept |

## Left out
- Signal processing (front ends, PHY procedures, decoding, initial synchronization) and MAC indications: uninterpreted calls that terminate.
- Shutdown, abort and error-log paths, real-time deadlines, condition-variable timeouts (`wakeup_txfh`), statistics and timers (`check_sync`, arrival times).
- Fixed-width integers: counters, timestamps and carrier distances are unbounded.
- NTN internals beyond the cell-specific offset (timing advance from SIB19, Doppler, target-cell handling), AGC and floating-point frequency handling; the resulting timing advance is an arbitrary input.
- Sidelink mode, more than one carrier per UE, and the IQ recorder and player.
- The reordering queue behind `nrue_ru_write_reorder` and the burst flags: writes are the calls made by `RU_write`.
- Transmit jobs still in flight across a resynchronization: the transmit chain starts from cleared counters and barriers.
- Steps of `UeTxChain` that touch a slot a full ring of barriers ahead of the next one to start are excluded, as the ring cannot tell such slots apart. The RX-to-TX duration is fixed in its runs; `UeTxDuration` treats a longer one for the counters only, and a shorter one, which arms slots a second time, is not treated.
- A barrier callback that runs its transmit job inline: the start is recorded, the join of the job is a later step.
- The thread protocols (`GnbPipeline`, `LteMailbox`, arrivals in `LteRendezvous`) are transition systems over values, not heap objects; aliasing of queue elements and memory ordering are not captured.
- The L1 thread of the LTE eNB reads its transmit fields after it has released them (executables/lte-enb.c:372-375), so only the mailbox between `wakeup_tx` and `L1_thread_tx` is specified.
- The transmit labels of the single NR pass that aligns to a slot boundary, because `tti_rx` is not refreshed there, and the size of the buffer into which a first read before time 0 discards samples.
- The frame offset of radio units other than the first (executables/nr-ru.c:957-958), the initial wait for the RX stream to settle, and NR IF4p5 reassembly, whose full mask stays 0.
- `fix_ntn_epoch_hfn` and retuning of the devices themselves (`trx_set_freq_func`).
- executables/lte-ue.c: its sample accounting is a uniform-subframe case of the NR UE loop.
- Option parsing, device loading, thread creation, configuration tables and all of ci-scripts.
