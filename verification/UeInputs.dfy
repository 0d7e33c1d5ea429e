/**
  That the NR UE slot loop does what other components ask of it (executables/nr-ue.c): it takes up
  timing advance, N_TA_offset and NTN offset, applies each drift shift once, and catches up with a
  timing it cannot reach at once.
*/
module UeInputs {
  import opened Arith
  import opened Options
  import opened NrParms
  import opened UeTiming

  /** The first symbol that a slot skips is its symbol 0. */
  lemma FirstSymbolOfSlot(numerology: nat, symbols: nat, ofdm: nat, prefix: nat, prefix0: nat, slot: nat)
    requires symbols >= 2 && symbols % 2 == 0 && ofdm > 0
    ensures var fp := InitFrameParms(numerology, symbols, ofdm, prefix, prefix0);
            Valid(fp) && FirstSymSamp(fp, slot) == SymbolSamples(fp, slot, 0)
  {
    hide LongPrefix, Valid;
    var fp := InitFrameParms(numerology, symbols, ofdm, prefix, prefix0);
    InitFrameParmsValid(numerology, symbols, ofdm, prefix, prefix0);
    LongPrefixIff(fp, slot, 0);
  }

  // ---- One slot ----

  /** Timing advance and N_TA_offset together: how early transmission is. */
  function Early(st: UeState): int { st.timingAdvance + st.nTaOffset }

  /** Drift shift that the next slot applies. */
  function ShiftNow(fp: FrameParms, st: UeState): int
    requires Valid(fp)
  {
    if NextSlot(fp, st) == SlotsPerFrame(fp) - 1 then st.shiftForNextFrame else 0
  }

  /** Samples of the transmitted slot that a slot step can leave out at most. */
  function Available(fp: FrameParms, st: UeState): int
    requires Valid(fp)
  {
    SamplesPerSlot(fp, (NextSlot(fp, st) + st.durationRxToTx) % SlotsPerFrame(fp)) - ShiftNow(fp, st)
  }

  /** Samples that a request leaves to be taken back in later slots. */
  function Late(fp: FrameParms, st: UeState, input: SlotInput): nat
    requires Valid(fp)
  {
    var reduction := input.timingAdvance + input.nTaOffset - Early(st);
    if reduction > Available(fp, st) then reduction - Available(fp, st) else 0
  }

  /**
    The requested timing advance and N_TA_offset are in force for the next block, which is later than asked
    for by exactly the samples that could not be left out.
  */
  lemma InputsTakenUp(fp: FrameParms, st: UeState, input: SlotInput)
    requires Valid(fp) && input.kOffset == None
    ensures var (st', b) := SlotStep(fp, st, input);
            var late := Late(fp, st, input);
            && st'.nTaOffset == input.nTaOffset && st'.timingAdvance == input.timingAdvance - late
            && b.size == Available(fp, st) - (input.timingAdvance + input.nTaOffset - Early(st)) + late
            && NextTimestamp(fp, st')
               == SlotStart(fp, st') + SlotDuration(fp, NextSlot(fp, st'), st.durationRxToTx)
                  - input.nTaOffset - input.timingAdvance + late
  {
    hide SlotDuration, SamplesPerSlot, FirstSymSamp, SamplesRead, Valid;
  }

  // ---- Runs ----

  lemma {:induction false} OneMoreSlot(fp: FrameParms, st: UeState, inputs: seq<SlotInput>, x: SlotInput)
    requires Valid(fp)
    ensures FinalState(fp, st, inputs + [x]) == SlotStep(fp, FinalState(fp, st, inputs), x).0
    decreases |inputs|
  {
    hide SlotStep, Valid;
    if inputs == [] {
      assert inputs + [x] == [x] && [x][1..] == [];
    } else {
      assert (inputs + [x])[1..] == inputs[1..] + [x];
      OneMoreSlot(fp, SlotStep(fp, st, inputs[0]).0, inputs[1..], x);
    }
  }

  /** The last NTN offset that came with one of the inputs. */
  function LastOffset(inputs: seq<SlotInput>): Option<nat> {
    if inputs == [] then None
    else
      var last := inputs[|inputs| - 1];
      if last.kOffset.Some? then last.kOffset else LastOffset(inputs[..|inputs| - 1])
  }

  lemma StepOffset(fp: FrameParms, st: UeState, x: SlotInput)
    requires Valid(fp)
    ensures var st' := SlotStep(fp, st, x).0;
            && st'.ntnKoffset == (if x.kOffset.Some? then x.kOffset.value else st.ntnKoffset)
            && st'.durationRxToTx
               == (if x.kOffset.Some? then 3 + x.kOffset.value * fp.slotsPerSubframe else st.durationRxToTx)
  {
    hide SlotDuration, SamplesPerSlot, FirstSymSamp, SamplesRead, Valid;
  }

  /** Over a run the RX-to-TX duration is 3 slots and the subframes of the last NTN offset received. */
  lemma {:induction false} DurationOfLastOffset(fp: FrameParms, st: UeState, inputs: seq<SlotInput>)
    requires Valid(fp)
    ensures var st' := FinalState(fp, st, inputs);
            if LastOffset(inputs).Some? then
              && st'.ntnKoffset == LastOffset(inputs).value
              && st'.durationRxToTx == 3 + LastOffset(inputs).value * fp.slotsPerSubframe
            else st'.ntnKoffset == st.ntnKoffset && st'.durationRxToTx == st.durationRxToTx
    decreases |inputs|
  {
    hide SlotStep, Valid, FinalState;
    if inputs == [] {
      NoSlots(fp, st);
    } else {
      var rest, x := inputs[..|inputs| - 1], inputs[|inputs| - 1];
      assert inputs == rest + [x];
      OneMoreSlot(fp, st, rest, x);
      DurationOfLastOffset(fp, st, rest);
      StepOffset(fp, FinalState(fp, st, rest), x);
    }
  }

  lemma NoSlots(fp: FrameParms, st: UeState)
    requires Valid(fp)
    ensures FinalState(fp, st, []) == st
  {
  }

  // ---- Drift over a frame ----

  /** The last measured sample shift among the inputs, or `initial`. */
  function LastMeasured(inputs: seq<SlotInput>, initial: int): int {
    if inputs == [] then initial
    else
      var last := inputs[|inputs| - 1];
      if last.measuredShift.Some? then last.measuredShift.value else LastMeasured(inputs[..|inputs| - 1], initial)
  }

  lemma ShiftStep(fp: FrameParms, st: UeState, x: SlotInput)
    requires Valid(fp)
    ensures var st' := SlotStep(fp, st, x).0;
            && st'.absoluteSlot == st.absoluteSlot + 1
            && (x.measuredShift.Some? ==> st'.shiftForNextFrame == x.measuredShift.value)
            && (x.measuredShift.None? && NextSlot(fp, st) != SlotsPerFrame(fp) - 1 ==>
                  st'.shiftForNextFrame == st.shiftForNextFrame)
            && (x.measuredShift.None? && NextSlot(fp, st) == SlotsPerFrame(fp) - 1 ==>
                  st'.shiftForNextFrame == x.driftCorrection)
            && SlotStart(fp, st') == SlotStart(fp, st) + SamplesPerSlot(fp, NextSlot(fp, st)) - ShiftNow(fp, st)
  {
    SlotStartStep(fp, st, x);
    hide SlotDuration, SamplesPerSlot, FirstSymSamp, SamplesRead, SlotStart, Valid;
  }

  /** Before the last slot of a frame, reception advances by full slots and the last measurement is pending. */
  lemma {:induction false} WithinFrame(fp: FrameParms, st: UeState, inputs: seq<SlotInput>)
    requires Valid(fp) && NextSlot(fp, st) == 0 && |inputs| < SlotsPerFrame(fp)
    ensures var st' := FinalState(fp, st, inputs);
            && NextSlot(fp, st') == |inputs|
            && SlotStart(fp, st') == SlotStart(fp, st) + SlotTimestamp(fp, |inputs|)
            && st'.shiftForNextFrame == LastMeasured(inputs, st.shiftForNextFrame)
    decreases |inputs|
  {
    hide SlotStep, Valid, FinalState, SlotTimestamp, SamplesPerSlot, SlotStart, SlotsPerFrame;
    if inputs == [] {
      NoSlots(fp, st);
      NoTimestamp(fp);
    } else {
      var rest, x := inputs[..|inputs| - 1], inputs[|inputs| - 1];
      assert inputs == rest + [x];
      OneMoreSlot(fp, st, rest, x);
      WithinFrame(fp, st, rest);
      var st1 := FinalState(fp, st, rest);
      ShiftStep(fp, st1, x);
      NextSlotStep(fp, st1);
      SlotTimestampStep(fp, |rest|);
    }
  }

  lemma NoTimestamp(fp: FrameParms)
    requires Valid(fp)
    ensures SlotTimestamp(fp, 0) == 0
  {
  }

  /**
    Over a whole frame the UE reads a frame of samples less the last shift measured before its last slot; the last
    slot leaves the shift measured in it, or else the drift correction, for the next frame.
  */
  lemma FrameReads(fp: FrameParms, st: UeState, inputs: seq<SlotInput>, x: SlotInput)
    requires Valid(fp) && NextSlot(fp, st) == 0 && |inputs| + 1 == SlotsPerFrame(fp)
    ensures var st' := FinalState(fp, st, inputs + [x]);
            && NextSlot(fp, st') == 0
            && SlotStart(fp, st')
               == SlotStart(fp, st) + SamplesPerFrame(fp) - LastMeasured(inputs, st.shiftForNextFrame)
            && st'.shiftForNextFrame == LastMeasured([x], x.driftCorrection)
  {
    hide SlotStep, Valid, FinalState, SlotTimestamp, SamplesPerSlot, SlotStart, SlotsPerFrame, SamplesPerFrame;
    var st1 := FinalState(fp, st, inputs);
    WithinFrame(fp, st, inputs);
    OneMoreSlot(fp, st, inputs, x);
    ShiftStep(fp, st1, x);
    NextSlotStep(fp, st1);
    SlotTimestampStep(fp, |inputs|);
    FrameTimestamp(fp, 0);
    assert LastMeasured([x], x.driftCorrection)
        == if x.measuredShift.Some? then x.measuredShift.value else x.driftCorrection by {
      assert [x][..0] == [];
    }
  }

  // ---- Catch-up ----

  /** Timing advance and N_TA_offset are asked for with fixed values, and there is no drift. */
  ghost predicate Steady(st: UeState, inputs: seq<SlotInput>, target: int, nTaOffset: int) {
    && st.shiftForNextFrame == 0
    && forall i :: i in inputs ==>
         && i.timingAdvance == target && i.nTaOffset == nTaOffset && i.kOffset == None
         && i.driftCorrection == 0 && (i.measuredShift == None || i.measuredShift == Some(0))
  }

  /** One slot closes the gap, or reduces it by exactly the samples of the transmitted slot. */
  lemma CatchUpStep(fp: FrameParms, st: UeState, input: SlotInput, target: int, nTaOffset: int)
    requires Valid(fp) && Steady(st, [input], target, nTaOffset)
    ensures var (st', b) := SlotStep(fp, st, input);
            var goal := target + nTaOffset;
            && b.size >= 0
            && Early(st') == (if goal - Early(st) > b.slotSamples then Early(st) + b.slotSamples else goal)
            && b.slotSamples == SamplesPerSlot(fp, st.absoluteSlot + 1 + st.durationRxToTx)
            && st'.shiftForNextFrame == 0 && st'.nTaOffset == nTaOffset
            && st'.durationRxToTx == st.durationRxToTx && st'.absoluteSlot == st.absoluteSlot + 1
  {
    var n := SlotsPerFrame(fp);
    assert input in [input];
    SamplesPerSlotPeriodic(fp, st.absoluteSlot + 1 + st.durationRxToTx, 0);
    ModAdd(st.absoluteSlot + 1, st.durationRxToTx, n);
  }

  lemma SumFromFront(fp: FrameParms, start: nat, count: nat)
    requires Valid(fp) && count > 0
    ensures SumSamples(fp, start, count) == SamplesPerSlot(fp, start) + SumSamples(fp, start + 1, count - 1)
    ensures SumSamples(fp, start, count) >= count
    decreases count
  {
    hide SlotTimestamp, Valid;
    SlotDurationIsSum(fp, start, count);
    SlotDurationIsSum(fp, start + 1, count - 1);
    SlotTimestampStep(fp, start);
    if count > 1 {
      SumFromFront(fp, start + 1, count - 1);
    }
  }

  /** Closed form of the catch-up after any number of slots: the goal, or all samples of the slots passed. */
  lemma {:induction false} CatchUp(fp: FrameParms, st: UeState, inputs: seq<SlotInput>, target: int, nTaOffset: int)
    requires Valid(fp) && Steady(st, inputs, target, nTaOffset) && st.absoluteSlot + 1 >= 0
    ensures var goal := target + nTaOffset;
            Early(FinalState(fp, st, inputs))
            == if inputs == [] then Early(st)
               else if Early(st) > goal then goal
               else Min(goal, Early(st) + SumSamples(fp, st.absoluteSlot + 1 + st.durationRxToTx, |inputs|))
    ensures inputs != [] ==> FinalState(fp, st, inputs).nTaOffset == nTaOffset
    decreases |inputs|
  {
    hide SlotStep, SamplesPerSlot, Valid;
    if inputs != [] {
      CatchUpStep(fp, st, inputs[0], target, nTaOffset);
      CatchUp(fp, SlotStep(fp, st, inputs[0]).0, inputs[1..], target, nTaOffset);
      SumFromFront(fp, st.absoluteSlot + 1 + st.durationRxToTx, |inputs|);
    }
  }

  /** Hence both targets are reached, and kept, after finitely many slots. */
  lemma CatchUpTerminates(fp: FrameParms, st: UeState, inputs: seq<SlotInput>, target: int, nTaOffset: int)
    requires Valid(fp) && Steady(st, inputs, target, nTaOffset) && st.absoluteSlot + 1 >= 0
    requires |inputs| >= 1 && |inputs| >= target + nTaOffset - Early(st)
    ensures FinalState(fp, st, inputs).timingAdvance == target && FinalState(fp, st, inputs).nTaOffset == nTaOffset
  {
    hide SlotStep, SamplesPerSlot, Valid;
    CatchUp(fp, st, inputs, target, nTaOffset);
    SumFromFront(fp, st.absoluteSlot + 1 + st.durationRxToTx, |inputs|);
  }
}
