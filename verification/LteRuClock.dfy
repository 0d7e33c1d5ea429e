/**
  Clock keeping of the LTE radio unit (`rx_rf` and the counters of `ru_thread`,
  executables/lte-ru.c) with its frame resynchronization command. All subframes have
  `samples` samples. The transmit labels are those of `wakeup_rxtx` (executables/lte-enb.c).
*/
module LteRuClock {
  import opened Arith
  import opened Options
  import opened NrParms
  import RuClock

  const SUBFRAMES := 10

  datatype RuState = RuState(
    firstRx: bool,
    timestampRx: int,
    tsOffset: int,
    frame: int,
    subframe: int,
    frameRx: nat,
    ttiRx: int)

  const INIT := RuState(true, 0, 0, MAX_FRAME_NUMBER - 1, SUBFRAMES - 1, 0, 0)

  function Advance(st: RuState): RuState {
    if st.subframe == SUBFRAMES - 1 then st.(subframe := 0, frame := (st.frame + 1) % MAX_FRAME_NUMBER)
    else st.(subframe := st.subframe + 1)
  }

  /** RU_FRAME_RESYNCH: shift the time base by the frames between the last decoded one and `value`. */
  function ResynchOffset(samples: nat, st: RuState, value: nat): int {
    if st.frameRx > value then st.tsOffset + (st.frameRx - value) * samples * SUBFRAMES
    else st.tsOffset - (value - st.frameRx) * samples * SUBFRAMES
  }

  /** Frame number and subframe of a sample position, with C's division. */
  function FrameAt(samples: nat, t: int): nat
    requires samples > 0
  {
    CDiv(t, samples * SUBFRAMES) % MAX_FRAME_NUMBER
  }

  function SubframeAt(samples: nat, t: int): (tti: int)
    requires samples > 0
    ensures t >= 0 ==> 0 <= tti < SUBFRAMES
  {
    CRem(CDiv(t, samples), SUBFRAMES)
  }

  /** State after the read, before decoding. */
  function Timed(samples: nat, st: RuState, ts: int, resynch: Option<nat>): RuState {
    var st1 := if resynch.Some? then
                 st.(tsOffset := ResynchOffset(samples, st, resynch.value), frame := resynch.value)
               else st;
    var raw := ts - st1.tsOffset;
    if st.firstRx then st1.(tsOffset := raw, timestampRx := 0)
    else if resynch == None && raw - st.timestampRx != samples then
      var offset := st1.tsOffset + (raw - st.timestampRx - samples);
      st1.(tsOffset := offset, timestampRx := ts - offset)
    else st1.(timestampRx := raw)
  }

  /** One read; the second result is false where the source exits. */
  function RxRf(samples: nat, st: RuState, ts: int, resynch: Option<nat>): (RuState, bool)
    requires samples > 0
  {
    var st1 := Timed(samples, st, ts, resynch);
    var (frameRx, ttiRx) := (FrameAt(samples, st1.timestampRx), SubframeAt(samples, st1.timestampRx));
    var st2 := st1.(frameRx := frameRx, ttiRx := ttiRx);
    if st.firstRx then (st2.(firstRx := false, frame := frameRx, subframe := ttiRx), true)
    else (st2, ttiRx == st2.subframe && frameRx == st2.frame)
  }

  ghost predicate InStep(samples: nat, st: RuState)
    requires samples > 0
  {
    && !st.firstRx
    && st.timestampRx >= 0
    && st.subframe == SubframeAt(samples, st.timestampRx)
    && st.frame == st.frameRx == FrameAt(samples, st.timestampRx)
  }

  /** Whatever the device's first timestamp, the clock starts at frame 0, subframe 0. */
  lemma FirstReadInStep(samples: nat, ts: int)
    requires samples > 0
    ensures var (st, ok) := RxRf(samples, Advance(INIT), ts, None);
            ok && InStep(samples, st) && st.frame == 0 && st.subframe == 0
  {
    DivModUnique(0, samples, 0, 0);
    DivModUnique(0, samples * SUBFRAMES, 0, 0);
  }

  /** Timestamp and time base add up to the device's own timestamp after every read, resynchronizing or not. */
  lemma TimeBase(samples: nat, st: RuState, ts: int, resynch: Option<nat>)
    requires samples > 0 && (st.firstRx ==> st.tsOffset == 0 && resynch == None)
    ensures var st' := RxRf(samples, st, ts, resynch).0; st'.timestampRx + st'.tsOffset == ts
  {
    hide FrameAt, SubframeAt, ResynchOffset;
  }

  /** The first pass of the main loop reads for subframe 0 of frame 0. */
  lemma FirstPassCounters()
    ensures var st := Advance(INIT); st.frame == 0 && st.subframe == 0 && st.firstRx && st.tsOffset == 0
  {
  }

  /** Dividing by a frame is dividing by a subframe and then by ten. */
  lemma FrameOfSubframe(t: nat, samples: nat)
    requires samples > 0
    ensures t / (samples * SUBFRAMES) == t / samples / SUBFRAMES
  {
    var a := t / samples;
    DivMod(t, samples);
    DivMod(a, SUBFRAMES);
    var r := a % SUBFRAMES * samples + t % samples;
    assert t == a / SUBFRAMES * (samples * SUBFRAMES) + r by {
      Distribute(a / SUBFRAMES * SUBFRAMES, a % SUBFRAMES, samples);
      Associate(a / SUBFRAMES, SUBFRAMES, samples);
    }
    MulMonotone(a % SUBFRAMES, SUBFRAMES - 1, samples);
    MulMonotone(0, a % SUBFRAMES, samples);
    DivModUnique(t, samples * SUBFRAMES, a / SUBFRAMES, r);
  }

  /** Labels one subframe later, from the absolute subframe index. */
  lemma NextSubframe(t: nat, samples: nat)
    requires samples > 0
    ensures (t + samples) / samples == t / samples + 1
    ensures var a := t / samples;
            && t / (samples * SUBFRAMES) == a / SUBFRAMES
            && (t + samples) / (samples * SUBFRAMES) == (a + 1) / SUBFRAMES
  {
    AddMultiple(t, samples, 1);
    FrameOfSubframe(t, samples);
    FrameOfSubframe(t + samples, samples);
  }

  /** For any device timestamp, decoded frame and subframe are the counters of the main loop. */
  lemma PassKeepsStep(samples: nat, st: RuState, ts: int)
    requires samples > 0 && InStep(samples, st)
    ensures Timed(samples, Advance(st), ts, None).timestampRx == st.timestampRx + samples
    ensures var (st', ok) := RxRf(samples, Advance(st), ts, None);
            ok && InStep(samples, st')
  {
    var a := st.timestampRx / samples;
    NextSubframe(st.timestampRx, samples);
    Succ(a, SUBFRAMES);
    ModAdd(a / SUBFRAMES, 1, MAX_FRAME_NUMBER);
  }

  lemma ResynchOffsetValue(samples: nat, st: RuState, value: nat)
    ensures ResynchOffset(samples, st, value) == st.tsOffset - (value - st.frameRx) * (samples * SUBFRAMES)
  {
    Associate(st.frameRx - value, samples, SUBFRAMES);
    Associate(value - st.frameRx, samples, SUBFRAMES);
    assert (st.frameRx - value) * (samples * SUBFRAMES) == -((value - st.frameRx) * (samples * SUBFRAMES));
  }

  const ALL_SUBFRAMES := MAX_FRAME_NUMBER * SUBFRAMES

  /** Frame number and subframe together are the absolute subframe modulo 1024 frames. */
  lemma LabelsIff(samples: nat, t: nat, frame: nat, tti: nat)
    requires samples > 0 && tti < SUBFRAMES
    ensures SubframeAt(samples, t) == tti && FrameAt(samples, t) == frame
       <==> frame < MAX_FRAME_NUMBER && t / samples % ALL_SUBFRAMES == frame * SUBFRAMES + tti
  {
    var a := t / samples;
    DivMod(t, samples);
    FrameOfSubframe(t, samples);
    WholeIndex(a);
    assert SubframeAt(samples, t) == a % SUBFRAMES;
    assert FrameAt(samples, t) == a / SUBFRAMES % MAX_FRAME_NUMBER;
    hide FrameAt, SubframeAt;
  }

  lemma WholeIndex(a: nat)
    ensures a / SUBFRAMES % MAX_FRAME_NUMBER * SUBFRAMES + a % SUBFRAMES == a % ALL_SUBFRAMES
  {
    var f := a / SUBFRAMES;
    DivModUnique(a, ALL_SUBFRAMES, f / MAX_FRAME_NUMBER, f % MAX_FRAME_NUMBER * SUBFRAMES + a % SUBFRAMES);
  }

  /** Whole subframes by which the device is ahead of the expected position, from the position inside the subframe. */
  function DriftSubframes(samples: nat, before: nat, drift: int): int
    requires samples > 0
  {
    (before % samples + drift) / samples
  }

  /** Absolute subframe after a drift and a shift by whole frames. */
  lemma ShiftedSubframe(samples: nat, before: nat, drift: int, frames: int)
    requires samples > 0
    ensures (before + samples + drift + frames * (samples * SUBFRAMES)) / samples
         == before / samples + 1 + DriftSubframes(samples, before, drift) + frames * SUBFRAMES
  {
    var a, r := before / samples, before % samples;
    DivMod(before, samples);
    Associate(frames, SUBFRAMES, samples);
    Distribute(a, 1, samples);
    Distribute(a + 1, frames * SUBFRAMES, samples);
    AddMultiple(r + drift, samples, a + 1 + frames * SUBFRAMES);
  }

  /** A resynchronizing read, before decoding. */
  lemma ResynchTimed(samples: nat, st: RuState, ts: int, value: nat)
    requires samples > 0 && InStep(samples, st)
    ensures var (st1, drift) := (Timed(samples, Advance(st), ts, Some(value)), ts - st.tsOffset - st.timestampRx - samples);
            && !st1.firstRx && st1.frame == value && st1.subframe == Advance(st).subframe
            && st1.timestampRx / samples
               == st.timestampRx / samples + 1 + DriftSubframes(samples, st.timestampRx, drift)
                  + (value - st.frameRx) * SUBFRAMES
  {
    hide ResynchOffset, FrameAt, SubframeAt, DriftSubframes;
    ResynchOffsetValue(samples, Advance(st), value);
    ShiftedSubframe(samples, st.timestampRx, ts - st.tsOffset - st.timestampRx - samples, value - st.frameRx);
  }

  /** Decoding a read that is past its first reception. */
  lemma RxRfDecodes(samples: nat, st: RuState, ts: int, resynch: Option<nat>)
    requires samples > 0 && !st.firstRx
    ensures var (st1, (st', ok)) := (Timed(samples, st, ts, resynch), RxRf(samples, st, ts, resynch));
            && st'.timestampRx == st1.timestampRx && st'.frame == st1.frame && st'.subframe == st1.subframe
            && st'.firstRx == st1.firstRx
            && st'.frameRx == FrameAt(samples, st1.timestampRx)
            && (ok <==> SubframeAt(samples, st1.timestampRx) == st1.subframe && st'.frameRx == st1.frame)
  {
    hide Timed, FrameAt, SubframeAt;
  }

  /** The drift with which a resynchronization succeeds: none in whole subframes, and one frame back at a frame start. */
  ghost predicate DriftFits(samples: nat, st: RuState, drift: int)
    requires samples > 0 && st.timestampRx >= 0
  {
    DriftSubframes(samples, st.timestampRx, drift) % ALL_SUBFRAMES
    == if Advance(st).subframe != 0 then 0 else ALL_SUBFRAMES - SUBFRAMES
  }

  /** When the shifted position has the labels expected after the command. */
  lemma ResynchLabelsIff(a: nat, k: int, value: nat, position: int)
    requires position == a + 1 + k + (value - a / SUBFRAMES % MAX_FRAME_NUMBER) * SUBFRAMES && value < MAX_FRAME_NUMBER
    ensures position % ALL_SUBFRAMES == value * SUBFRAMES + (a + 1) % SUBFRAMES
       <==> k % ALL_SUBFRAMES == if (a + 1) % SUBFRAMES != 0 then 0 else ALL_SUBFRAMES - SUBFRAMES
  {
    var tti, h := (a + 1) % SUBFRAMES, a / SUBFRAMES / MAX_FRAME_NUMBER;
    var x := k + if tti == 0 then SUBFRAMES else 0;
    assert position == value * SUBFRAMES + tti + x + h * ALL_SUBFRAMES;
    AddMultiple(value * SUBFRAMES + tti + x, ALL_SUBFRAMES, h);
    SameResidueIff(value * SUBFRAMES + tti, x, ALL_SUBFRAMES);
    if tti == 0 {
      SameResidueIff(ALL_SUBFRAMES - SUBFRAMES, x, ALL_SUBFRAMES);
      AddMultiple(k, ALL_SUBFRAMES, 1);
    }
  }

  lemma SameResidueIff(b: int, x: int, d: int)
    requires 0 <= b < d
    ensures (b + x) % d == b <==> x % d == 0
  {
    DivMod(x, d);
    ModAdd(x, b, d);
    var r := x % d;
    if b + r < d {
      DivModUnique(b + r, d, 0, b + r);
    } else {
      DivModUnique(b + r, d, 1, b + r - d);
    }
  }

  /** A resynchronization that ends up at or after time 0. */
  lemma ResynchLabelled(samples: nat, st: RuState, ts: int, value: nat)
    requires samples > 0 && InStep(samples, st)
    requires Timed(samples, Advance(st), ts, Some(value)).timestampRx >= 0
    ensures var (st', ok) := RxRf(samples, Advance(st), ts, Some(value));
            && (ok <==> value < MAX_FRAME_NUMBER && DriftFits(samples, st, ts - st.tsOffset - st.timestampRx - samples))
            && (ok ==> InStep(samples, st') && st'.frame == value && st'.subframe == Advance(st).subframe)
  {
    ghost var drift := ts - st.tsOffset - st.timestampRx - samples;
    hide Timed, RxRf, FrameAt, SubframeAt, DriftSubframes;
    InStepLabels(samples, st);
    ResynchTimed(samples, st, ts, value);
    RxRfDecodes(samples, Advance(st), ts, Some(value));
    var t := Timed(samples, Advance(st), ts, Some(value)).timestampRx;
    LabelsIff(samples, t, value, Advance(st).subframe);
    if value < MAX_FRAME_NUMBER {
      ResynchLabelsIff(st.timestampRx / samples, DriftSubframes(samples, st.timestampRx, drift), value, t / samples);
    }
  }

  /** What makes a resynchronization good: a position at or after time 0, a frame number and a drift that fits. */
  ghost predicate ResynchFits(samples: nat, st: RuState, ts: int, value: nat)
    requires samples > 0 && st.timestampRx >= 0
  {
    && ts - ResynchOffset(samples, Advance(st), value) >= 0
    && value < MAX_FRAME_NUMBER
    && DriftFits(samples, st, ts - st.tsOffset - st.timestampRx - samples)
  }

  /** For any drift, the read passes with the clock in step, in frame `value` and the expected subframe, exactly then. */
  lemma ResynchIff(samples: nat, st: RuState, ts: int, value: nat)
    requires samples > 0 && InStep(samples, st)
    ensures var (st', ok) := RxRf(samples, Advance(st), ts, Some(value));
            && (ok && InStep(samples, st') <==> ResynchFits(samples, st, ts, value))
            && (ResynchFits(samples, st, ts, value) ==> st'.frame == value && st'.subframe == Advance(st).subframe)
  {
    hide RxRf, ResynchOffset, FrameAt, SubframeAt, DriftFits;
    InStepLabels(samples, st);
    RxRfDecodes(samples, Advance(st), ts, Some(value));
    if ts - ResynchOffset(samples, Advance(st), value) >= 0 {
      ResynchLabelled(samples, st, ts, value);
    }
  }

  lemma InStepLabels(samples: nat, st: RuState)
    requires samples > 0 && InStep(samples, st)
    ensures var a := st.timestampRx / samples;
            && st.timestampRx >= 0 && a >= 0 && st.frameRx == a / SUBFRAMES % MAX_FRAME_NUMBER
            && Advance(st).subframe == (a + 1) % SUBFRAMES && !Advance(st).firstRx
  {
    DivMod(st.timestampRx, samples);
    FrameOfSubframe(st.timestampRx, samples);
  }

  /** A position before time 0 that has the labels of subframe 0 of frame `value`. */
  predicate NamedBeforeZero(samples: nat, t: int, value: nat)
    requires samples > 0 && t < 0
  {
    -t / samples % SUBFRAMES == 0 && -(-t / (samples * SUBFRAMES)) % MAX_FRAME_NUMBER == value
  }

  lemma LabelsBeforeZero(samples: nat, t: int, value: nat)
    requires samples > 0 && t < 0
    ensures SubframeAt(samples, t) <= 0
    ensures SubframeAt(samples, t) == 0 && FrameAt(samples, t) == value <==> NamedBeforeZero(samples, t, value)
  {
    DivMod(-t, samples);
  }

  /**
    A resynchronization that ends up before time 0 passes exactly when subframe 0 is expected and the position
    happens to be named so; then the next read exits, whatever the device reports.
  */
  lemma BeforeZeroIff(samples: nat, st: RuState, ts: int, value: nat, next: int)
    requires samples > 0 && InStep(samples, st)
    requires ts - ResynchOffset(samples, Advance(st), value) < 0
    ensures var (st', ok) := RxRf(samples, Advance(st), ts, Some(value));
            && (ok <==> Advance(st).subframe == 0
                        && NamedBeforeZero(samples, ts - ResynchOffset(samples, Advance(st), value), value))
            && (ok ==> !RxRf(samples, Advance(st'), next, None).1)
  {
    hide RxRf, ResynchOffset, FrameAt, SubframeAt, InStep, NamedBeforeZero;
    var t := ts - ResynchOffset(samples, Advance(st), value);
    InStepLabels(samples, st);
    assert Timed(samples, Advance(st), ts, Some(value)).timestampRx == t;
    RxRfDecodes(samples, Advance(st), ts, Some(value));
    LabelsBeforeZero(samples, t, value);
    var (st', ok) := RxRf(samples, Advance(st), ts, Some(value));
    if ok {
      RxRfDecodes(samples, Advance(st'), next, None);
      NotSubframeOne(samples, t + samples);
    }
  }

  lemma NotSubframeOne(samples: nat, t: int)
    requires samples > 0 && t < samples
    ensures SubframeAt(samples, t) != 1
  {
    if t < 0 {
      LabelsBeforeZero(samples, t, 0);
    } else {
      DivModUnique(t, samples, 0, t);
    }
  }

  /** A resynchronization and the read after it both pass exactly when it was good, whatever the device then reports. */
  lemma ResynchSurvivesIff(samples: nat, st: RuState, ts: int, value: nat, next: int)
    requires samples > 0 && InStep(samples, st)
    ensures var (st', ok) := RxRf(samples, Advance(st), ts, Some(value));
            ok && RxRf(samples, Advance(st'), next, None).1 <==> ResynchFits(samples, st, ts, value)
  {
    hide RxRf, ResynchOffset, FrameAt, SubframeAt, DriftFits, InStep, Timed;
    var (st', ok) := RxRf(samples, Advance(st), ts, Some(value));
    InStepLabels(samples, st);
    ResynchIff(samples, st, ts, value);
    if ResynchFits(samples, st, ts, value) {
      PassKeepsStep(samples, st', next);
    } else if ts - ResynchOffset(samples, Advance(st), value) < 0 {
      BeforeZeroIff(samples, st, ts, value, next);
    } else {
      TimedFromOffset(samples, st, ts, value);
      ResynchLabelled(samples, st, ts, value);
    }
  }

  lemma TimedFromOffset(samples: nat, st: RuState, ts: int, value: nat)
    requires !Advance(st).firstRx
    ensures Timed(samples, Advance(st), ts, Some(value)).timestampRx == ts - ResynchOffset(samples, Advance(st), value)
  {
    hide ResynchOffset;
  }

  /** A command to go to frame 0 that passes one sample before time 0; the next read exits. */
  lemma BeforeZeroPasses(next: int)
    ensures var st := RuState(false, 9 * 7680, 0, 0, 9, 0, 9);
            var (st', ok) := RxRf(7680, Advance(st), -1, Some(0));
            InStep(7680, st) && ok && st'.timestampRx == -1 && !RxRf(7680, Advance(st'), next, None).1
  {
    var st := RuState(false, 9 * 7680, 0, 0, 9, 0, 9);
    assert InStep(7680, st);
    BeforeZeroIff(7680, st, -1, 0, next);
  }

  /**
    On a drift-free read the timestamp never becomes negative, and the condition is that the subframe is
    not 0 and `value` is a frame number.
  */
  lemma ResynchInStepIff(samples: nat, st: RuState, ts: int, value: nat)
    requires samples > 0 && InStep(samples, st) && ts - st.tsOffset == st.timestampRx + samples
    ensures Timed(samples, Advance(st), ts, Some(value)).timestampRx >= 0
    ensures var (st', ok) := RxRf(samples, Advance(st), ts, Some(value));
            && (ok <==> Advance(st).subframe != 0 && value < MAX_FRAME_NUMBER)
            && (ok ==> InStep(samples, st') && st'.frame == value && st'.subframe == Advance(st).subframe)
  {
    hide Timed, RxRf, InStep, Advance, DriftSubframes, DriftFits;
    InStepLabels(samples, st);
    NoDrift(samples, st);
    ResynchTimed(samples, st, ts, value);
    PositionNotNegative(samples, Timed(samples, Advance(st), ts, Some(value)).timestampRx,
                        st.timestampRx / samples, value);
    ResynchLabelled(samples, st, ts, value);
  }

  lemma PositionNotNegative(samples: nat, t: int, a: nat, value: nat)
    requires samples > 0 && t / samples == a + 1 + (value - a / SUBFRAMES % MAX_FRAME_NUMBER) * SUBFRAMES
    ensures t >= 0
  {
    assert a / SUBFRAMES % MAX_FRAME_NUMBER * SUBFRAMES <= a;
    DivMod(t, samples);
    MulMonotone(0, t / samples, samples);
  }

  lemma NoDrift(samples: nat, st: RuState)
    requires samples > 0 && InStep(samples, st)
    ensures DriftSubframes(samples, st.timestampRx, 0) == 0
    ensures DriftFits(samples, st, 0) <==> Advance(st).subframe != 0
  {
    DivMod(st.timestampRx, samples);
    DivModUnique(st.timestampRx % samples, samples, 0, st.timestampRx % samples);
  }

  /** A read at the start of frame 1 on which the command to go to frame 5 exits. */
  lemma ResynchAtFrameStartExits()
    ensures var st := RuState(false, 9 * 7680, 0, 0, 9, 0, 9);
            InStep(7680, st) && !RxRf(7680, Advance(st), 10 * 7680, Some(5)).1
  {
    var st := RuState(false, 9 * 7680, 0, 0, 9, 0, 9);
    assert InStep(7680, st);
    ResynchInStepIff(7680, st, 10 * 7680, 5);
  }

  // ---- Runs ----

  datatype Pass = Pass(ts: int, resynch: Option<nat>)

  /** Device timestamps are arbitrary; a resynchronization is a good one. */
  ghost predicate Allowed(samples: nat, st: RuState, p: Pass)
    requires samples > 0
  {
    p.resynch.Some? && st.timestampRx >= 0 ==> ResynchFits(samples, st, p.ts, p.resynch.value)
  }

  ghost predicate Run(samples: nat, states: seq<RuState>, passes: seq<Pass>) {
    && samples > 0 && |states| == |passes| + 1 && InStep(samples, states[0])
    && forall i :: 0 <= i < |passes| ==>
         && Allowed(samples, states[i], passes[i])
         && states[i + 1] == RxRf(samples, Advance(states[i]), passes[i].ts, passes[i].resynch).0
  }

  /** Over every such run the clock stays in step and no read exits. */
  lemma {:induction false} RunInStep(samples: nat, states: seq<RuState>, passes: seq<Pass>, i: nat)
    requires Run(samples, states, passes) && i < |states|
    ensures InStep(samples, states[i])
    ensures i > 0 ==> RxRf(samples, Advance(states[i - 1]), passes[i - 1].ts, passes[i - 1].resynch).1
  {
    if i > 0 {
      RunInStep(samples, states, passes, i - 1);
      var p := passes[i - 1];
      if p.resynch.Some? {
        ResynchIff(samples, states[i - 1], p.ts, p.resynch.value);
      } else {
        PassKeepsStep(samples, states[i - 1], p.ts);
      }
      hide InStep, RxRf, Timed, Advance;
    }
  }

  /** Labels of an absolute subframe, decoded from its timestamp. */
  lemma SubframeDecodes(samples: nat, index: nat)
    requires samples > 0
    ensures index * samples / samples == index
    ensures index * samples / (samples * SUBFRAMES) == index / SUBFRAMES
  {
    DivModUnique(index * samples, samples, index, 0);
    FrameOfSubframe(index * samples, samples);
  }

  /** Transmit labels `ahead` < 10 subframes after a received position name the transmit timestamp. */
  lemma TxLabelsDecode(samples: nat, frame: nat, subframe: nat, ahead: nat)
    requires samples > 0 && subframe < SUBFRAMES && ahead < SUBFRAMES
    ensures var t := (frame * SUBFRAMES + subframe) * samples + ahead * samples;
            && t / samples % SUBFRAMES == (subframe + ahead) % SUBFRAMES
            && t / (samples * SUBFRAMES) % MAX_FRAME_NUMBER
               == RuClock.TxFrameByThreshold(SUBFRAMES, frame % MAX_FRAME_NUMBER, subframe, ahead)
  {
    Distribute(frame * SUBFRAMES + subframe, ahead, samples);
    SubframeDecodes(samples, frame * SUBFRAMES + subframe + ahead);
    TxSubframe(frame, subframe, ahead);
  }

  lemma TxSubframe(frame: nat, subframe: nat, ahead: nat)
    requires subframe < SUBFRAMES && ahead < SUBFRAMES
    ensures var b := frame * SUBFRAMES + subframe + ahead;
            && b % SUBFRAMES == (subframe + ahead) % SUBFRAMES
            && b / SUBFRAMES % MAX_FRAME_NUMBER
               == RuClock.TxFrameByThreshold(SUBFRAMES, frame % MAX_FRAME_NUMBER, subframe, ahead)
  {
    var x := subframe + ahead;
    if x < SUBFRAMES {
      DivModUnique(frame * SUBFRAMES + x, SUBFRAMES, frame, x);
    } else {
      DivModUnique(frame * SUBFRAMES + x, SUBFRAMES, frame + 1, x - SUBFRAMES);
      DivModUnique(x, SUBFRAMES, 1, x - SUBFRAMES);
    }
    ModAdd(frame, 1, MAX_FRAME_NUMBER);
  }

  // ---- The radio unit thread as it runs ----

  class LteRu {
    const samples: nat
    var firstRx: bool
    var timestampRx: int
    var tsOffset: int
    var frame: int
    var subframe: int
    var frameRx: nat
    var ttiRx: int

    ghost function View(): RuState
      reads this
    {
      RuState(firstRx, timestampRx, tsOffset, frame, subframe, frameRx, ttiRx)
    }

    constructor (samples: nat)
      ensures this.samples == samples && View() == INIT
      ensures frame == 1023 && subframe == 9 && firstRx && tsOffset == 0
    {
      this.samples := samples;
      firstRx, timestampRx, tsOffset := true, 0, 0;
      frame, subframe, frameRx, ttiRx := MAX_FRAME_NUMBER - 1, SUBFRAMES - 1, 0, 0;
    }

    method AdvanceCounters()
      modifies this`frame, this`subframe
      ensures View() == Advance(old(View()))
    {
      if subframe == SUBFRAMES - 1 {
        subframe := 0;
        frame := frame + 1;
        frame := frame % MAX_FRAME_NUMBER;
      } else {
        subframe := subframe + 1;
      }
    }

    method ReadSubframe(ts: int, command: Option<nat>) returns (ok: bool)
      requires samples > 0
      modifies this
      ensures (View(), ok) == RxRf(samples, old(View()), ts, command)
      ensures !old(firstRx) ==> timestampRx + tsOffset == ts
    {
      hide FrameAt, SubframeAt;
      var oldTs := timestampRx;
      var resynch := false;
      if command.Some? {
        if frameRx > command.value {
          tsOffset := tsOffset + (frameRx - command.value) * samples * SUBFRAMES;
        } else {
          tsOffset := tsOffset - (command.value - frameRx) * samples * SUBFRAMES;
        }
        frame := command.value;
        resynch := true;
      }
      timestampRx := ts - tsOffset;
      if firstRx {
        tsOffset := timestampRx;
        timestampRx := 0;
      } else if !resynch && timestampRx - oldTs != samples {
        tsOffset := tsOffset + (timestampRx - oldTs - samples);
        timestampRx := ts - tsOffset;
      }
      frameRx := FrameAt(samples, timestampRx);
      ttiRx := SubframeAt(samples, timestampRx);
      ok := true;
      if !firstRx {
        ok := ttiRx == subframe && frameRx == frame;
      } else {
        firstRx := false;
        frame := frameRx;
        subframe := ttiRx;
      }
    }
  }
}
