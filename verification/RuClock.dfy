/**
  How the NR radio unit keeps its frame and slot counters in step with the device clock
  (`rx_rf` and the main loop of `ru_thread`, executables/nr-ru.c), and which transmit slot it
  derives from a received one.
*/
module RuClock {
  import opened Arith
  import opened NrParms

  datatype RuState = RuState(
    firstRx: bool,
    timestampRx: int,
    tsOffset: int,
    frame: int,
    slot: nat,
    frameRx: nat,
    ttiRx: int)

  function Init(fp: FrameParms): RuState
    requires Valid(fp)
  {
    RuState(true, 0, 0, MAX_FRAME_NUMBER - 1, SlotsPerFrame(fp) - 1, 0, 0)
  }

  /** The first pass of the main loop reads for slot 0 of frame 0. */
  lemma FirstPassCounters(fp: FrameParms)
    requires Valid(fp)
    ensures var st := Advance(fp, Init(fp)); st.frame == 0 && st.slot == 0 && st.firstRx && st.tsOffset == 0
  {
  }

  /** The counters advance once per pass of the main loop. */
  function Advance(fp: FrameParms, st: RuState): RuState
    requires Valid(fp)
  {
    if st.slot == SlotsPerFrame(fp) - 1 then st.(slot := 0, frame := (st.frame + 1) % MAX_FRAME_NUMBER)
    else st.(slot := st.slot + 1)
  }

  /** C's remainder of `slot - 1`, which is -1 for slot 0. */
  function PrevSlot(slot: nat): int {
    slot - 1
  }

  /** Device timestamp after removing the drift since the previous read. */
  function Corrected(fp: FrameParms, st: RuState, ts: int): RuState
    requires Valid(fp)
  {
    var raw := ts - st.tsOffset;
    var expected := SamplesPerSlot(fp, PrevSlot(st.slot));
    if !st.firstRx && raw - st.timestampRx != expected then
      var offset := st.tsOffset + (raw - st.timestampRx - expected);
      st.(tsOffset := offset, timestampRx := ts - offset)
    else st.(timestampRx := raw)
  }

  function Decoded(fp: FrameParms, st: RuState): RuState
    requires Valid(fp)
  {
    st.(frameRx := FrameFromTimestamp(fp, st.timestampRx), ttiRx := SlotFromTimestamp(fp, st.timestampRx))
  }

  /**
    First reception: adopt the decoded position, then discard samples up to the next slot boundary. The
    offset is unsigned in the source, so every nonzero one is positive; modulo 2^64 it cancels out.
  */
  function Aligned(fp: FrameParms, st: RuState): RuState
    requires Valid(fp) && st.ttiRx >= 0
  {
    var n := SlotsPerFrame(fp);
    var slot := st.ttiRx;
    var offset := CRem(st.timestampRx, SamplesPerFrame(fp)) - SlotTimestamp(fp, slot);
    var st1 := st.(firstRx := false, frame := st.frameRx, slot := slot);
    if offset != 0 then
      st1.(timestampRx := st.timestampRx + SamplesPerSlot(fp, slot) - offset,
           frame := if slot + 1 >= n then st.frameRx + 1 else st.frameRx,
           slot := (slot + 1) % n)
    else st1
  }

  /** One read; the second result is false when the thread exits because counters and timestamp disagree. */
  function RxRf(fp: FrameParms, st: RuState, ts: int): (RuState, bool)
    requires Valid(fp)
  {
    var st1 := Decoded(fp, Corrected(fp, st, ts));
    if !st.firstRx then (st1, st1.ttiRx == st.slot && st1.frameRx == st.frame)
    else
      DecodedSlot(fp, st1.timestampRx);
      (Aligned(fp, st1), true)
  }

  /** Negative timestamps decode to slot 0. */
  lemma DecodedSlot(fp: FrameParms, timestamp: int)
    requires Valid(fp)
    ensures 0 <= SlotFromTimestamp(fp, timestamp) < SlotsPerFrame(fp)
    ensures timestamp < 0 ==> SlotFromTimestamp(fp, timestamp) == 0
  {
    if timestamp >= 0 {
      SlotDecodes(fp, timestamp);
    }
  }

  lemma SlotDecodes(fp: FrameParms, timestamp: nat)
    requires Valid(fp)
    ensures var s := SlotFromTimestamp(fp, timestamp);
            && 0 <= s < SlotsPerFrame(fp)
            && InSlot(fp, timestamp % SamplesPerFrame(fp), s)
            && timestamp == timestamp / SamplesPerFrame(fp) * SamplesPerFrame(fp) + timestamp % SamplesPerFrame(fp)
  {
    var n := SamplesPerFrame(fp);
    FrameTimestamp(fp, 0);
    SlotTimestampMonotone(fp, 0, SlotsPerFrame(fp));
    DivMod(timestamp, n);
    SlotFromOffset(fp, timestamp % n);
    ModOfMod(timestamp, n, n);
  }

  // ---- Counters and timestamps agree forever ----

  /** The timestamp is the start of the slot that the counters name. */
  ghost predicate InStep(fp: FrameParms, st: RuState)
    requires Valid(fp)
  {
    && !st.firstRx
    && st.timestampRx >= 0
    && st.slot < SlotsPerFrame(fp)
    && st.timestampRx % SamplesPerFrame(fp) == SlotTimestamp(fp, st.slot)
    && st.frame == FrameFromTimestamp(fp, st.timestampRx)
  }

  /** Unwrapped number of the frame a timestamp lies in. */
  function FrameIndex(fp: FrameParms, timestamp: nat): nat
    requires Valid(fp)
  {
    DivMod(timestamp, SamplesPerFrame(fp));
    timestamp / SamplesPerFrame(fp)
  }

  /** Start of slot `slot` of unwrapped frame `frame`. */
  function Position(fp: FrameParms, frame: nat, slot: nat): nat
    requires Valid(fp)
  {
    frame * SamplesPerFrame(fp) + SlotTimestamp(fp, slot)
  }

  lemma PositionDecodes(fp: FrameParms, frame: nat, slot: nat)
    requires Valid(fp) && slot < SlotsPerFrame(fp)
    ensures var t := Position(fp, frame, slot);
            && SlotFromTimestamp(fp, t) == slot
            && FrameFromTimestamp(fp, t) == frame % MAX_FRAME_NUMBER
            && t % SamplesPerFrame(fp) == SlotTimestamp(fp, slot)
  {
    DecodeTimestamp(fp, frame, slot, 0, Position(fp, frame, slot));
  }

  lemma PositionStep(fp: FrameParms, frame: nat, slot: nat)
    requires Valid(fp) && slot < SlotsPerFrame(fp)
    ensures Position(fp, frame, slot) + SamplesPerSlot(fp, slot)
         == if slot == SlotsPerFrame(fp) - 1 then Position(fp, frame + 1, 0) else Position(fp, frame, slot + 1)
  {
    SlotTimestampStep(fp, slot);
    FrameTimestamp(fp, 0);
    Distribute(frame, 1, SamplesPerFrame(fp));
  }

  /** Whatever the device reports, the corrected timestamp is one slot after the previous one. */
  lemma DriftRemoved(fp: FrameParms, st: RuState, ts: int)
    requires Valid(fp) && !st.firstRx && st.slot < SlotsPerFrame(fp)
    ensures var before := if st.slot == 0 then SlotsPerFrame(fp) - 1 else st.slot - 1;
            Corrected(fp, st, ts).timestampRx == st.timestampRx + SamplesPerSlot(fp, before)
  {
    SamplesPerSlotPeriodic(fp, -1, 1);
  }

  /** After first reception, timestamp and time base add up to the device's own timestamp; it keeps the time base. */
  lemma TimeBase(fp: FrameParms, st: RuState, ts: int)
    requires Valid(fp)
    ensures var st' := RxRf(fp, st, ts).0;
            if st.firstRx then st'.tsOffset == st.tsOffset else st'.timestampRx + st'.tsOffset == ts
  {
    hide SlotTimestamp, SlotFromTimestamp, FrameFromTimestamp, SamplesPerSlot, Valid;
  }

  lemma InStepPosition(fp: FrameParms, st: RuState)
    requires Valid(fp) && InStep(fp, st)
    ensures st.timestampRx == Position(fp, FrameIndex(fp, st.timestampRx), st.slot)
    ensures st.frame == FrameIndex(fp, st.timestampRx) % MAX_FRAME_NUMBER
  {
    hide SlotTimestamp;
    DivMod(st.timestampRx, SamplesPerFrame(fp));
  }

  lemma PassKeepsStep(fp: FrameParms, st: RuState, ts: int)
    requires Valid(fp) && InStep(fp, st)
    ensures var (st', ok) := RxRf(fp, Advance(fp, st), ts);
            && ok && InStep(fp, st')
            && st'.frameRx == st'.frame && st'.ttiRx == st'.slot
            && st'.timestampRx == st.timestampRx + SamplesPerSlot(fp, st.slot)
  {
    InStepPosition(fp, st);
    var f, s := FrameIndex(fp, st.timestampRx), st.slot;
    DriftRemoved(fp, Advance(fp, st), ts);
    PositionStep(fp, f, s);
    if s == SlotsPerFrame(fp) - 1 {
      PositionDecodes(fp, f + 1, 0);
      ModAdd(f, 1, MAX_FRAME_NUMBER);
    } else {
      PositionDecodes(fp, f, s + 1);
    }
    hide SlotTimestamp, SlotFromTimestamp, FrameFromTimestamp, SamplesPerSlot, Position, Corrected, Valid;
  }

  /** No exit in a run of passes over the device timestamps `tss`. */
  ghost predicate RunsOn(fp: FrameParms, st: RuState, tss: seq<int>)
    requires Valid(fp)
    decreases |tss|
  {
    hide Corrected, Decoded;
    if tss == [] then true
    else
      var (st', ok) := RxRf(fp, Advance(fp, st), tss[0]);
      ok && RunsOn(fp, st', tss[1..])
  }

  /** Device timestamp of the last read. */
  function DeviceTime(st: RuState): int { st.timestampRx + st.tsOffset }

  /** How much later than one slot after the previous one each device timestamp is, all added up. */
  ghost function Drifts(fp: FrameParms, slot: nat, before: int, tss: seq<int>): int
    requires Valid(fp)
    decreases |tss|
  {
    if tss == [] then 0
    else tss[0] - before - SamplesPerSlot(fp, slot) + Drifts(fp, slot + 1, tss[0], tss[1..])
  }

  /** State after passes over the device timestamps `tss`. */
  function AfterPasses(fp: FrameParms, st: RuState, tss: seq<int>): RuState
    requires Valid(fp)
    decreases |tss|
  {
    hide Corrected, Decoded;
    if tss == [] then st else AfterPasses(fp, RxRf(fp, Advance(fp, st), tss[0]).0, tss[1..])
  }

  lemma DriftsFrom(fp: FrameParms, slot: nat, next: nat, before: int, tss: seq<int>)
    requires Valid(fp) && slot < SlotsPerFrame(fp) && next == (if slot == SlotsPerFrame(fp) - 1 then 0 else slot + 1)
    ensures Drifts(fp, next, before, tss) == Drifts(fp, slot + 1, before, tss)
  {
    if next == 0 {
      DriftsPeriodic(fp, 0, before, tss);
    }
  }

  lemma {:induction false} DriftsPeriodic(fp: FrameParms, slot: nat, before: int, tss: seq<int>)
    requires Valid(fp)
    ensures Drifts(fp, slot + SlotsPerFrame(fp), before, tss) == Drifts(fp, slot, before, tss)
    decreases |tss|
  {
    hide SlotsPerFrame, SamplesPerSlot, Valid;
    if tss != [] {
      SamplesPerSlotPeriodic(fp, slot, 1);
      DriftsPeriodic(fp, slot + 1, tss[0], tss[1..]);
    }
  }

  /**
    Over any run the time base is the initial one plus all drifts the device reported, so that it keeps
    translating to device time; the local clock has advanced by exactly the slots passed.
  */
  lemma {:induction false} TimeBaseCollectsDrifts(fp: FrameParms, st: RuState, tss: seq<int>)
    requires Valid(fp) && InStep(fp, st)
    ensures var st' := AfterPasses(fp, st, tss);
            && InStep(fp, st')
            && st'.tsOffset == st.tsOffset + Drifts(fp, st.slot, DeviceTime(st), tss)
            && DeviceTime(st') == (if tss == [] then DeviceTime(st) else tss[|tss| - 1])
    decreases |tss|
  {
    hide SlotTimestamp, SlotFromTimestamp, SamplesPerSlot, RxRf, Valid, Position, FrameFromTimestamp, SlotsPerFrame, InStep;
    if tss != [] {
      InStepSlot(fp, st);
      var st1 := RxRf(fp, Advance(fp, st), tss[0]).0;
      PassKeepsStep(fp, st, tss[0]);
      PassSlot(fp, st, tss[0]);
      TimeBase(fp, Advance(fp, st), tss[0]);
      TimeBaseCollectsDrifts(fp, st1, tss[1..]);
      DriftsFrom(fp, st.slot, st1.slot, tss[0], tss[1..]);
    }
  }

  lemma InStepSlot(fp: FrameParms, st: RuState)
    requires Valid(fp) && InStep(fp, st)
    ensures st.slot < SlotsPerFrame(fp) && !st.firstRx
  {
  }

  lemma PassSlot(fp: FrameParms, st: RuState, ts: int)
    requires Valid(fp) && !st.firstRx
    ensures RxRf(fp, Advance(fp, st), ts).0.slot == if st.slot == SlotsPerFrame(fp) - 1 then 0 else st.slot + 1
  {
  }

  /** For any device timestamps, the "doesn't correspond" exits are unreachable from an aligned state. */
  lemma {:induction false} AlignedRunsOn(fp: FrameParms, st: RuState, tss: seq<int>)
    requires Valid(fp) && InStep(fp, st)
    ensures RunsOn(fp, st, tss)
    decreases |tss|
  {
    hide SlotTimestamp, SlotFromTimestamp, SamplesPerSlot, RxRf;
    if tss != [] {
      PassKeepsStep(fp, st, tss[0]);
      AlignedRunsOn(fp, RxRf(fp, Advance(fp, st), tss[0]).0, tss[1..]);
    }
  }

  // ---- First reception ----

  /** The first timestamp lies inside, not at the start of, the last slot of a frame numbered 1023. */
  predicate InsideLastSlot(fp: FrameParms, ts: int)
    requires Valid(fp)
  {
    && ts >= 0
    && FrameFromTimestamp(fp, ts) == MAX_FRAME_NUMBER - 1
    && SlotFromTimestamp(fp, ts) == SlotsPerFrame(fp) - 1
    && ts % SamplesPerFrame(fp) != SlotTimestamp(fp, SlotsPerFrame(fp) - 1)
  }

  function FirstReception(fp: FrameParms, ts: int): RuState
    requires Valid(fp)
  {
    RxRf(fp, Advance(fp, Init(fp)), ts).0
  }

  /** The slot boundary that first reception moves to. */
  lemma FirstBoundary(fp: FrameParms, ts: nat)
    requires Valid(fp)
    ensures var f, s := FrameIndex(fp, ts), SlotFromTimestamp(fp, ts);
            && 0 <= s < SlotsPerFrame(fp)
            && FrameFromTimestamp(fp, ts) == f % MAX_FRAME_NUMBER
            && var st := FirstReception(fp, ts);
               var aligned := ts % SamplesPerFrame(fp) == SlotTimestamp(fp, s);
               && !st.firstRx
               && st.timestampRx == Position(fp, f, s) + (if aligned then 0 else SamplesPerSlot(fp, s))
               && st.slot == (if aligned then s else (s + 1) % SlotsPerFrame(fp))
               && st.frame == f % MAX_FRAME_NUMBER + if !aligned && s + 1 == SlotsPerFrame(fp) then 1 else 0
  {
    hide SlotTimestamp, SlotFromTimestamp, SamplesPerSlot, Valid;
    SlotDecodes(fp, ts);
    DivMod(ts, SamplesPerFrame(fp));
  }

  lemma PositionInStep(fp: FrameParms, st: RuState, frame: nat)
    requires Valid(fp) && !st.firstRx && st.slot < SlotsPerFrame(fp) && st.timestampRx == Position(fp, frame, st.slot)
    ensures InStep(fp, st) <==> st.frame == frame % MAX_FRAME_NUMBER
  {
    PositionDecodes(fp, frame, st.slot);
    hide Position, FrameFromTimestamp, SlotFromTimestamp;
  }

  /** Adding one to a frame number without wrapping is right except for the last number. */
  lemma WrappedFrame(f: nat)
    ensures f % MAX_FRAME_NUMBER + 1 == (f + 1) % MAX_FRAME_NUMBER <==> f % MAX_FRAME_NUMBER != MAX_FRAME_NUMBER - 1
    ensures f % MAX_FRAME_NUMBER == MAX_FRAME_NUMBER - 1 ==> (f + 1) % MAX_FRAME_NUMBER == 0
  {
    ModAdd(f, 1, MAX_FRAME_NUMBER);
  }

  /** First reception leaves the counters in step exactly when it did not have to align out of frame 1023. */
  lemma FirstReceptionInStepIff(fp: FrameParms, ts: nat)
    requires Valid(fp)
    ensures var st := FirstReception(fp, ts);
            && !st.firstRx && st.timestampRx >= 0
            && (InStep(fp, st) <==> !InsideLastSlot(fp, ts))
            && (InsideLastSlot(fp, ts) ==>
                  && st.frame == MAX_FRAME_NUMBER && st.slot == 0
                  && exists f: nat :: st.timestampRx == Position(fp, f, 0) && f % MAX_FRAME_NUMBER == 0)
  {
    var st := FirstReception(fp, ts);
    var f, s, n := FrameIndex(fp, ts), SlotFromTimestamp(fp, ts), SlotsPerFrame(fp);
    hide SlotTimestamp, SlotFromTimestamp, FrameFromTimestamp, SamplesPerSlot, Position, FirstReception, FrameIndex,
      InStep, SlotsPerFrame, SamplesPerFrame, Valid;
    FirstBoundary(fp, ts);
    PositionStep(fp, f, s);
    WrappedFrame(f);
    if ts % SamplesPerFrame(fp) == SlotTimestamp(fp, s) {
      PositionInStep(fp, st, f);
    } else if s + 1 < n {
      DivModUnique(s + 1, n, 0, s + 1);
      PositionInStep(fp, st, f);
    } else {
      DivModUnique(s + 1, n, 1, 0);
      PositionInStep(fp, st, f + 1);
    }
  }

  /** Such a timestamp exists, unless slots are a single sample long. */
  lemma InsideLastSlotExists(fp: FrameParms)
    requires Valid(fp) && SamplesPerSlot(fp, SlotsPerFrame(fp) - 1) > 1
    ensures InsideLastSlot(fp, Position(fp, MAX_FRAME_NUMBER - 1, SlotsPerFrame(fp) - 1) + 1)
  {
    hide SlotTimestamp, SlotFromTimestamp, FrameFromTimestamp, SamplesPerSlot, Valid;
    var f, s := MAX_FRAME_NUMBER - 1, SlotsPerFrame(fp) - 1;
    DecodeTimestamp(fp, f, s, 1, Position(fp, f, s) + 1);
  }

  /** A first timestamp from which the next pass exits, whatever the device then reports. */
  lemma LastSlotExits(fp: FrameParms, tss: seq<int>)
    requires Valid(fp) && SamplesPerSlot(fp, SlotsPerFrame(fp) - 1) > 1 && tss != []
    ensures !RunsOn(fp, FirstReception(fp, Position(fp, MAX_FRAME_NUMBER - 1, SlotsPerFrame(fp) - 1) + 1), tss)
  {
    hide RunsOn, FirstReception, InsideLastSlot, Position, Valid, SamplesPerSlot;
    InsideLastSlotExists(fp);
    FirstReceptionRunsOnIff(fp, Position(fp, MAX_FRAME_NUMBER - 1, SlotsPerFrame(fp) - 1) + 1, tss);
  }

  /** The slot boundary that first reception moves to from before time 0. */
  lemma EarlyBoundary(fp: FrameParms, ts: int)
    requires Valid(fp) && ts < 0
    ensures var (st, r) := (FirstReception(fp, ts), CRem(ts, SamplesPerFrame(fp)));
            && !st.firstRx
            && st.slot == (if r == 0 then 0 else 1)
            && st.timestampRx == ts - r + SlotTimestamp(fp, st.slot)
            && st.frame == FrameFromTimestamp(fp, ts)
  {
    hide SlotTimestamp, SlotFromTimestamp, FrameFromTimestamp, SamplesPerSlot, Valid, SamplesPerFrame, CRem, SlotsPerFrame;
    DecodedSlot(fp, ts);
    SlotTimestampStep(fp, 0);
    StartOfFrame(fp);
    DivModUnique(1, SlotsPerFrame(fp), 0, 1);
  }

  /** First reception less than a frame before time 0 lands on slot 1 of frame 0; earlier, it stays before time 0. */
  lemma EarlyReception(fp: FrameParms, ts: int)
    requires Valid(fp) && ts < 0
    ensures var st := FirstReception(fp, ts);
            && !st.firstRx
            && (ts + SamplesPerFrame(fp) > 0 ==> InStep(fp, st) && st.frame == 0 && st.slot == 1)
            && (ts + SamplesPerFrame(fp) <= 0 ==>
                  st.slot <= 1 && st.timestampRx <= SlotTimestamp(fp, st.slot) - SamplesPerFrame(fp))
  {
    hide FirstReception, SlotTimestamp, SlotFromTimestamp, SamplesPerSlot, Valid, Position, SamplesPerFrame, SlotsPerFrame;
    EarlyBoundary(fp, ts);
    var d := SamplesPerFrame(fp);
    var m := CDiv(ts, d);
    if ts + d > 0 {
      DivModUnique(-ts, d, 0, -ts);
      PositionOfFirstFrame(fp, 1);
      PositionInStep(fp, FirstReception(fp, ts), 0);
    } else {
      DivMod(-ts, d);
      MulMonotone(m, -1, d);
    }
  }

  lemma StartOfFrame(fp: FrameParms)
    requires Valid(fp)
    ensures SlotTimestamp(fp, 0) == 0
  {
  }

  lemma PositionOfFirstFrame(fp: FrameParms, slot: nat)
    requires Valid(fp)
    ensures Position(fp, 0, slot) == SlotTimestamp(fp, slot)
  {
  }

  /** A clock that is behind time 0 exits at the next pass. */
  lemma BehindExits(fp: FrameParms, st: RuState, ts: int)
    requires Valid(fp) && !st.firstRx && st.slot <= 1
    requires st.timestampRx <= SlotTimestamp(fp, st.slot) - SamplesPerFrame(fp)
    ensures !RxRf(fp, Advance(fp, st), ts).1
  {
    hide SlotTimestamp, SlotFromTimestamp, FrameFromTimestamp, SamplesPerSlot, Corrected, Valid;
    var next := Advance(fp, st);
    DriftRemoved(fp, next, ts);
    SlotTimestampStep(fp, st.slot);
    SlotTimestampMonotone(fp, st.slot + 1, SlotsPerFrame(fp));
    FrameTimestamp(fp, 0);
    DecodedSlot(fp, Corrected(fp, next, ts).timestampRx);
  }

  /**
    A run that starts with first reception at `ts` never exits, for any later device timestamps, exactly
    when `ts` is less than a frame before time 0 and not inside the last slot of a frame numbered 1023;
    otherwise the next pass exits.
  */
  lemma FirstReceptionRunsOnIff(fp: FrameParms, ts: int, tss: seq<int>)
    requires Valid(fp) && tss != []
    ensures !FirstReception(fp, ts).firstRx
    ensures RunsOn(fp, FirstReception(fp, ts), tss) <==> ts + SamplesPerFrame(fp) > 0 && !InsideLastSlot(fp, ts)
  {
    hide FirstReception, InsideLastSlot, Position, RxRf, InStep, SlotTimestamp, Valid;
    var st := FirstReception(fp, ts);
    if ts >= 0 {
      FirstReceptionInStepIff(fp, ts);
      if InsideLastSlot(fp, ts) {
        var f: nat :| st.timestampRx == Position(fp, f, 0) && f % MAX_FRAME_NUMBER == 0;
        OutOfStepExits(fp, st, f, tss[0]);
      } else {
        AlignedRunsOn(fp, st, tss);
      }
    } else {
      EarlyReception(fp, ts);
      assert !InsideLastSlot(fp, ts) by {
        NotInsideBefore(fp, ts);
      }
      if ts + SamplesPerFrame(fp) > 0 {
        AlignedRunsOn(fp, st, tss);
      } else {
        BehindExits(fp, st, tss[0]);
      }
    }
  }

  lemma NotInsideBefore(fp: FrameParms, ts: int)
    requires Valid(fp) && ts < 0
    ensures !InsideLastSlot(fp, ts)
  {
  }

  lemma OutOfStepExits(fp: FrameParms, st: RuState, f: nat, ts: int)
    requires Valid(fp) && !st.firstRx && st.slot == 0 && st.frame == MAX_FRAME_NUMBER
    requires st.timestampRx == Position(fp, f, 0)
    ensures !RxRf(fp, Advance(fp, st), ts).1
  {
    DriftRemoved(fp, Advance(fp, st), ts);
    PositionStep(fp, f, 0);
    PositionDecodes(fp, f, 1);
    hide SlotTimestamp, SlotFromTimestamp, FrameFromTimestamp, SamplesPerSlot, Position, Corrected, Valid;
  }

  // ---- Transmit slot ----

  function TxSlot(slotsPerFrame: nat, ttiRx: nat, ahead: nat): nat
    requires slotsPerFrame > 0
  {
    (ttiRx + ahead) % slotsPerFrame
  }

  function TxFrame(slotsPerFrame: nat, frameRx: nat, ttiRx: nat, ahead: nat): nat
    requires slotsPerFrame > 0
  {
    if ttiRx > TxSlot(slotsPerFrame, ttiRx, ahead) then (frameRx + 1) % MAX_FRAME_NUMBER else frameRx
  }

  /** The wrap test of the fronthaul receivers and of the LTE code. */
  function TxFrameByThreshold(slotsPerFrame: nat, frameRx: nat, ttiRx: nat, ahead: nat): nat {
    if ttiRx > slotsPerFrame - 1 - ahead then (frameRx + 1) % MAX_FRAME_NUMBER else frameRx
  }

  /** Where transmission starts: `ahead` slots after the received one, added up slot by slot. */
  method TimestampTx(fp: FrameParms, timestampRx: int, ttiRx: nat, ahead: nat) returns (timestampTx: int)
    requires Valid(fp)
    ensures timestampTx == timestampRx + SlotDuration(fp, ttiRx, ahead)
  {
    timestampTx := timestampRx;
    var i := ttiRx;
    SlotDurationIsSum(fp, ttiRx, 0);
    while i < ttiRx + ahead
      invariant ttiRx <= i <= ttiRx + ahead
      invariant timestampTx == timestampRx + SlotDuration(fp, ttiRx, i - ttiRx)
    {
      SlotTimestampStep(fp, i);
      SamplesPerSlotPeriodic(fp, i, 0);
      timestampTx := timestampTx + SamplesPerSlot(fp, i % SlotsPerFrame(fp));
      i := i + 1;
    }
  }

  /** Position `ahead` slots later, for a lead of any size. */
  lemma PositionPlus(fp: FrameParms, frame: nat, slot: nat, ahead: nat, k: nat, r: nat)
    requires Valid(fp) && slot + ahead == r + k * SlotsPerFrame(fp)
    ensures Position(fp, frame, slot) + SlotDuration(fp, slot, ahead) == Position(fp, frame + k, r)
  {
    hide SlotTimestamp, SlotsPerFrame, SamplesPerFrame, Valid;
    SlotTimestampFrames(fp, r, k);
    Distribute(frame, k, SamplesPerFrame(fp));
  }

  /** What the transmit timestamp decodes to and what the frame label is, for a lead of any size. */
  lemma TxTimestampDecodes(fp: FrameParms, frame: nat, ttiRx: nat, ahead: nat)
    requires Valid(fp) && ttiRx < SlotsPerFrame(fp)
    ensures var n, t := SlotsPerFrame(fp), Position(fp, frame, ttiRx) + SlotDuration(fp, ttiRx, ahead);
            var carry := if ttiRx + ahead % n < n then 0 else 1;
            && t >= 0
            && SlotFromTimestamp(fp, t) == TxSlot(n, ttiRx, ahead)
            && FrameFromTimestamp(fp, t) == (frame + carry + ahead / n) % MAX_FRAME_NUMBER
            && TxFrame(n, frame % MAX_FRAME_NUMBER, ttiRx, ahead) == (frame + carry) % MAX_FRAME_NUMBER
  {
    hide SlotTimestamp, SlotFromTimestamp, FrameFromTimestamp, Position, SlotDuration, SlotsPerFrame, SamplesPerFrame;
    var n, k, r := SlotsPerFrame(fp), ahead / SlotsPerFrame(fp), ahead % SlotsPerFrame(fp);
    DivMod(ahead, n);
    ModAdd(frame, 1, MAX_FRAME_NUMBER);
    if ttiRx + r < n {
      DivModUnique(ttiRx + ahead, n, k, ttiRx + r);
      PositionPlus(fp, frame, ttiRx, ahead, k, ttiRx + r);
      PositionDecodes(fp, frame + k, ttiRx + r);
    } else {
      Distribute(k, 1, n);
      DivModUnique(ttiRx + ahead, n, k + 1, ttiRx + r - n);
      PositionPlus(fp, frame, ttiRx, ahead, k + 1, ttiRx + r - n);
      PositionDecodes(fp, frame + k + 1, ttiRx + r - n);
    }
  }

  /** With less than a frame of lead, the transmit timestamp decodes to the transmit labels. */
  lemma TxLabelsDecode(fp: FrameParms, frame: nat, ttiRx: nat, ahead: nat)
    requires Valid(fp) && ttiRx < SlotsPerFrame(fp) && ahead < SlotsPerFrame(fp)
    ensures var n, t := SlotsPerFrame(fp), Position(fp, frame, ttiRx) + SlotDuration(fp, ttiRx, ahead);
            && t >= 0
            && SlotFromTimestamp(fp, t) == TxSlot(n, ttiRx, ahead)
            && FrameFromTimestamp(fp, t) == TxFrame(n, frame % MAX_FRAME_NUMBER, ttiRx, ahead)
            && TxFrame(n, frame % MAX_FRAME_NUMBER, ttiRx, ahead)
               == TxFrameByThreshold(n, frame % MAX_FRAME_NUMBER, ttiRx, ahead)
  {
    hide SlotTimestamp, SlotFromTimestamp, FrameFromTimestamp, Position, SlotDuration, SlotsPerFrame, SamplesPerFrame,
      TxFrame;
    TxTimestampDecodes(fp, frame, ttiRx, ahead);
    DivModUnique(ahead, SlotsPerFrame(fp), 0, ahead);
    ModAdd(frame, 1, MAX_FRAME_NUMBER);
  }

  ghost predicate FrameLabelRight(fp: FrameParms, frame: nat, ttiRx: nat, ahead: nat)
    requires Valid(fp)
  {
    var t := Position(fp, frame, ttiRx) + SlotDuration(fp, ttiRx, ahead);
    t >= 0 && FrameFromTimestamp(fp, t) == TxFrame(SlotsPerFrame(fp), frame % MAX_FRAME_NUMBER, ttiRx, ahead)
  }

  /**
    The frame label is right exactly when the whole frames of the lead are a multiple of 1024; for
    leads below 1024 frames that is a lead below one frame.
  */
  lemma TxFrameRightIff(fp: FrameParms, frame: nat, ttiRx: nat, ahead: nat)
    requires Valid(fp) && ttiRx < SlotsPerFrame(fp)
    ensures FrameLabelRight(fp, frame, ttiRx, ahead) <==> ahead / SlotsPerFrame(fp) % MAX_FRAME_NUMBER == 0
  {
    hide SlotTimestamp, SlotFromTimestamp, FrameFromTimestamp, Position, SlotDuration, SlotsPerFrame, SamplesPerFrame,
      TxFrame;
    TxTimestampDecodes(fp, frame, ttiRx, ahead);
    var n := SlotsPerFrame(fp);
    DivMod(ahead, n);
    SameNumberIff(frame + if ttiRx + ahead % n < n then 0 else 1, ahead / n);
  }

  lemma SameNumberIff(f: nat, k: nat)
    ensures (f + k) % MAX_FRAME_NUMBER == f % MAX_FRAME_NUMBER <==> k % MAX_FRAME_NUMBER == 0
  {
    DivMod(f, MAX_FRAME_NUMBER);
    DivMod(k, MAX_FRAME_NUMBER);
  }
}
