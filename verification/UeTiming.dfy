/**
  The sample clock of the NR UE slot loop (`UE_thread` and `RU_write`, executables/nr-ue.c).

  Every slot reads a variable number of samples, derives where its transmission starts and sizes
  the transmitted block for timing advance, N_TA_offset (section 4.3.1 of 3GPP TS 38.211) and
  drift. The main result is that the transmitted stream has no gap and no overlap, whatever these
  inputs do.
*/
module UeTiming {
  import opened Arith
  import opened Options
  import opened NrParms

  const SLOT_RX_TO_TX := 3

  /** What `UE_thread` keeps between slots; `position` is the device timestamp of the next sample read. */
  datatype UeState = UeState(
    absoluteSlot: int,
    position: int,
    timingAdvance: int,
    nTaOffset: int,
    durationRxToTx: nat,
    ntnKoffset: nat,
    shiftForNextFrame: int)

  /** What other components supply during one slot. */
  datatype SlotInput = SlotInput(
    timingAdvance: int,          // UE->timing_advance + UE->timing_advance_ntn
    nTaOffset: int,              // determine_N_TA_offset
    driftCorrection: int,        // -round(max_pos_acc * time_sync_I)
    measuredShift: Option<int>,  // sample shift returned by UE_dl_preprocessing
    kOffset: Option<nat>)        // pending NTN cell-specific offset, in subframes

  datatype TxBlock = TxBlock(timestamp: int, size: int, slotSamples: nat)
  datatype Chunk = Chunk(timestamp: int, size: int)

  function FirstSymSamp(fp: FrameParms, slot: int): nat
    requires Valid(fp)
  {
    fp.ofdmSymbolSize
    + if fp.numerology > 0 && slot % (fp.slotsPerSubframe / 2) != 0 then fp.nbPrefixSamples else fp.nbPrefixSamples0
  }

  /** From the second symbol of `slot` to the end of the first symbol of the next slot of the frame. */
  function ReadBlockSize(fp: FrameParms, slot: nat): int
    requires Valid(fp)
  {
    SamplesPerSlot(fp, slot) - FirstSymSamp(fp, slot)
    + if slot < SlotsPerFrame(fp) - 1 then FirstSymSamp(fp, slot + 1) else 0
  }

  /** Samples read in a slot: the last slot of a frame also reads the first symbol of the next one. */
  function SamplesRead(fp: FrameParms, slot: nat, shift: int): int
    requires Valid(fp)
  {
    ReadBlockSize(fp, slot) - shift
    + if slot == SlotsPerFrame(fp) - 1 then fp.ofdmSymbolSize + fp.nbPrefixSamples0 else 0
  }

  function NextSlot(fp: FrameParms, st: UeState): nat
    requires Valid(fp)
  {
    (st.absoluteSlot + 1) % SlotsPerFrame(fp)
  }

  function DurationFor(fp: FrameParms, kOffset: nat): nat {
    SLOT_RX_TO_TX + kOffset * fp.slotsPerSubframe
  }

  /** `apply_ntn_config`: a new offset moves duration and timing advance together. */
  function ApplyNtnConfig(fp: FrameParms, st: UeState, slotRx: nat, kOffset: nat): UeState
    requires Valid(fp)
  {
    var prev := st.ntnKoffset;
    st.(durationRxToTx := DurationFor(fp, kOffset),
        ntnKoffset := kOffset,
        timingAdvance :=
          if kOffset > prev then
            st.timingAdvance + SlotDuration(fp, slotRx, (kOffset - prev) * fp.slotsPerSubframe)
          else if kOffset < prev then
            st.timingAdvance - SlotDuration(fp, slotRx, (prev - kOffset) * fp.slotsPerSubframe)
          else st.timingAdvance)
  }

  /** Block size before the clamp, then the clamp that carries an impossible reduction over. */
  function WriteBlockSize(samples: int, shift: int, st: UeState, input: SlotInput): int {
    samples - shift - (input.timingAdvance - st.timingAdvance) - (input.nTaOffset - st.nTaOffset)
  }

  function SlotStep(fp: FrameParms, st: UeState, input: SlotInput): (UeState, TxBlock)
    requires Valid(fp)
  {
    var slotNr := NextSlot(fp, st);
    var last := slotNr == SlotsPerFrame(fp) - 1;
    var shift := if last then st.shiftForNextFrame else 0;
    var samples := SamplesPerSlot(fp, (slotNr + st.durationRxToTx) % SlotsPerFrame(fp));
    var size := WriteBlockSize(samples, shift, st, input);
    var timestamp := st.position + SlotDuration(fp, slotNr, st.durationRxToTx) - FirstSymSamp(fp, slotNr)
                     - st.nTaOffset - st.timingAdvance;
    var st' := st.(
      absoluteSlot := st.absoluteSlot + 1,
      position := st.position + SamplesRead(fp, slotNr, shift),
      timingAdvance := if size < 0 then input.timingAdvance + size else input.timingAdvance,
      nTaOffset := input.nTaOffset,
      shiftForNextFrame := if input.measuredShift.Some? then input.measuredShift.value
                           else if last then input.driftCorrection else st.shiftForNextFrame);
    (if input.kOffset.Some? then ApplyNtnConfig(fp, st', slotNr, input.kOffset.value) else st',
     TxBlock(timestamp, if size < 0 then 0 else size, samples))
  }

  /** Invariant of the NTN part: the duration is the one of the offset in force. */
  ghost predicate Consistent(fp: FrameParms, st: UeState) {
    st.durationRxToTx == DurationFor(fp, st.ntnKoffset)
  }

  // ---- Runs ----

  function FinalState(fp: FrameParms, st: UeState, inputs: seq<SlotInput>): UeState
    requires Valid(fp)
    decreases |inputs|
  {
    hide SlotStep;
    if inputs == [] then st else FinalState(fp, SlotStep(fp, st, inputs[0]).0, inputs[1..])
  }

  function Blocks(fp: FrameParms, st: UeState, inputs: seq<SlotInput>): (bs: seq<TxBlock>)
    requires Valid(fp)
    ensures |bs| == |inputs|
    decreases |inputs|
  {
    hide SlotStep;
    if inputs == [] then []
    else
      var (st', b) := SlotStep(fp, st, inputs[0]);
      [b] + Blocks(fp, st', inputs[1..])
  }

  /** Chunks that `RU_write` hands to the radio for one block. */
  function RuChunks(timestamp: int, size: int, maxSize: nat): seq<Chunk>
    requires size >= 0 && maxSize > 0
    decreases size
  {
    if size == 0 then []
    else if size > maxSize then
      var dummy := Min(size - maxSize, maxSize);
      [Chunk(timestamp, dummy)] + RuChunks(timestamp + dummy, size - dummy, maxSize)
    else [Chunk(timestamp, size)]
  }

  lemma RuChunksUnfold(timestamp: int, size: int, maxSize: nat)
    requires size > 0 && maxSize > 0
    ensures var dummy := Min(size - maxSize, maxSize);
            RuChunks(timestamp, size, maxSize)
            == if size > maxSize then [Chunk(timestamp, dummy)] + RuChunks(timestamp + dummy, size - dummy, maxSize)
               else [Chunk(timestamp, size)]
  {
  }

  function Stream(bs: seq<TxBlock>): seq<Chunk>
    requires forall k :: 0 <= k < |bs| ==> bs[k].size >= 0 && bs[k].slotSamples > 0
  {
    if bs == [] then [] else RuChunks(bs[0].timestamp, bs[0].size, bs[0].slotSamples) + Stream(bs[1..])
  }

  /** Nonempty chunks laid end to end cover [from, to) once. */
  ghost predicate Tiles(chunks: seq<Chunk>, from: int, to: int) {
    if chunks == [] then from == to
    else chunks[0].timestamp == from && chunks[0].size > 0 && Tiles(chunks[1..], from + chunks[0].size, to)
  }

  // ---- The transmitted stream is contiguous ----

  /** Where the next block starts, in terms of the start of the next received slot. */
  ghost function SlotStart(fp: FrameParms, st: UeState): int
    requires Valid(fp)
  {
    st.position - FirstSymSamp(fp, NextSlot(fp, st))
  }

  ghost function NextTimestamp(fp: FrameParms, st: UeState): int
    requires Valid(fp)
  {
    SlotStart(fp, st) + SlotDuration(fp, NextSlot(fp, st), st.durationRxToTx) - st.nTaOffset - st.timingAdvance
  }

  lemma NextSlotStep(fp: FrameParms, st: UeState)
    requires Valid(fp)
    ensures var n := SlotsPerFrame(fp);
            (st.absoluteSlot + 2) % n == if NextSlot(fp, st) == n - 1 then 0 else NextSlot(fp, st) + 1
  {
    Succ(st.absoluteSlot + 1, SlotsPerFrame(fp));
  }

  /** The received stream advances by exactly one slot, less the drift shift. */
  lemma SlotStartStep(fp: FrameParms, st: UeState, input: SlotInput)
    requires Valid(fp)
    ensures var slotNr := NextSlot(fp, st);
            var shift := if slotNr == SlotsPerFrame(fp) - 1 then st.shiftForNextFrame else 0;
            SlotStart(fp, SlotStep(fp, st, input).0) == SlotStart(fp, st) + SamplesPerSlot(fp, slotNr) - shift
  {
    NextSlotStep(fp, st);
  }

  /** Sliding a window of slots by one drops the first slot and adds the one after it. */
  lemma DurationSlides(fp: FrameParms, st: UeState, d: nat)
    requires Valid(fp)
    ensures var s := NextSlot(fp, st);
            SlotDuration(fp, s, d) + SamplesPerSlot(fp, (s + d) % SlotsPerFrame(fp))
            == SamplesPerSlot(fp, s) + SlotDuration(fp, (st.absoluteSlot + 2) % SlotsPerFrame(fp), d)
  {
    var s := NextSlot(fp, st);
    NextSlotStep(fp, st);
    SlotTimestampStep(fp, s);
    SlotTimestampStep(fp, s + d);
    SamplesPerSlotPeriodic(fp, s + d, 0);
    FrameTimestamp(fp, d);
  }

  lemma DurationOfOffset(fp: FrameParms, slot: nat, kOffset: nat)
    requires Valid(fp)
    ensures SlotDuration(fp, slot, DurationFor(fp, kOffset))
         == SlotDuration(fp, slot, SLOT_RX_TO_TX) + kOffset * fp.samplesPerSubframe
  {
    SlotTimestampSubframes(fp, slot + SLOT_RX_TO_TX, kOffset);
    assert slot + SLOT_RX_TO_TX + kOffset * fp.slotsPerSubframe == slot + DurationFor(fp, kOffset);
  }

  /** What a new NTN offset changes: the duration by whole subframes, and the timing advance by their samples. */
  lemma NtnConfigEffect(fp: FrameParms, st: UeState, slotRx: nat, kOffset: nat)
    requires Valid(fp)
    ensures ApplyNtnConfig(fp, st, slotRx, kOffset)
         == st.(durationRxToTx := 3 + kOffset * fp.slotsPerSubframe,
                ntnKoffset := kOffset,
                timingAdvance := st.timingAdvance + (kOffset - st.ntnKoffset) * fp.samplesPerSubframe)
  {
    hide SlotTimestamp, Valid;
    var prev := st.ntnKoffset;
    Distribute(kOffset, prev, fp.samplesPerSubframe);
    Distribute(prev, kOffset, fp.samplesPerSubframe);
    if kOffset > prev {
      SlotTimestampSubframes(fp, slotRx, kOffset - prev);
    } else if kOffset < prev {
      SlotTimestampSubframes(fp, slotRx, prev - kOffset);
    }
  }

  /** Changing the NTN offset keeps duration minus timing advance, so it moves no sample. */
  lemma NtnConfigNeutral(fp: FrameParms, st: UeState, slotRx: nat, kOffset: nat)
    requires Valid(fp) && Consistent(fp, st)
    ensures Consistent(fp, ApplyNtnConfig(fp, st, slotRx, kOffset))
    ensures NextTimestamp(fp, ApplyNtnConfig(fp, st, slotRx, kOffset)) == NextTimestamp(fp, st)
  {
    hide ApplyNtnConfig, SlotTimestamp, Valid;
    NtnConfigEffect(fp, st, slotRx, kOffset);
    DurationOfOffset(fp, NextSlot(fp, st), st.ntnKoffset);
    DurationOfOffset(fp, NextSlot(fp, st), kOffset);
    Distribute(kOffset, st.ntnKoffset, fp.samplesPerSubframe);
  }

  /** One slot: its block starts where announced and the next block starts where it ends. */
  lemma BlockMeetsNext(fp: FrameParms, st: UeState, input: SlotInput)
    requires Valid(fp) && Consistent(fp, st)
    ensures var (st', b) := SlotStep(fp, st, input);
            && Consistent(fp, st')
            && b.size >= 0 && b.slotSamples > 0
            && b.timestamp == NextTimestamp(fp, st)
            && b.timestamp + b.size == NextTimestamp(fp, st')
  {
    hide SlotStep, ApplyNtnConfig, NextTimestamp, SamplesPerSlot, Valid;
    PlainBlockMeetsNext(fp, st, input.(kOffset := None));
    NtnComesLast(fp, st, input);
    if input.kOffset.Some? {
      NtnConfigNeutral(fp, SlotStep(fp, st, input.(kOffset := None)).0, NextSlot(fp, st), input.kOffset.value);
    }
  }

  lemma PlainBlockMeetsNext(fp: FrameParms, st: UeState, input: SlotInput)
    requires Valid(fp) && input.kOffset == None
    ensures var (st', b) := SlotStep(fp, st, input);
            && st'.durationRxToTx == st.durationRxToTx && st'.ntnKoffset == st.ntnKoffset
            && b.size >= 0 && b.slotSamples > 0
            && b.timestamp == NextTimestamp(fp, st)
            && b.timestamp + b.size == NextTimestamp(fp, st')
  {
    hide SlotDuration, SamplesPerSlot, FirstSymSamp, Valid;
    SlotStartStep(fp, st, input);
    DurationSlides(fp, st, st.durationRxToTx);
  }

  /** A pending NTN offset is applied to what the slot leaves. */
  lemma NtnComesLast(fp: FrameParms, st: UeState, input: SlotInput)
    requires Valid(fp)
    ensures var (st1, b) := SlotStep(fp, st, input.(kOffset := None));
            SlotStep(fp, st, input)
            == (if input.kOffset.Some? then ApplyNtnConfig(fp, st1, NextSlot(fp, st), input.kOffset.value) else st1, b)
  {
    hide ApplyNtnConfig, SlotDuration, SamplesPerSlot, SamplesRead, FirstSymSamp;
  }

  /** Blocks laid end to end; an empty block is allowed. */
  ghost predicate Abut(bs: seq<TxBlock>, from: int, to: int) {
    if bs == [] then from == to
    else
      && bs[0].timestamp == from && bs[0].size >= 0 && bs[0].slotSamples > 0
      && Abut(bs[1..], from + bs[0].size, to)
  }

  /** Every block ends where the next one starts, the last one at `end`. */
  ghost predicate Contiguous(bs: seq<TxBlock>, end: int) {
    forall k: nat :: k < |bs| ==> EndsAtNext(bs, end, k)
  }

  ghost predicate EndsAtNext(bs: seq<TxBlock>, end: int, k: nat)
    requires k < |bs|
  {
    && bs[k].size >= 0 && bs[k].slotSamples > 0
    && bs[k].timestamp + bs[k].size == if k + 1 < |bs| then bs[k + 1].timestamp else end
  }

  lemma {:induction false} AbutIndexed(bs: seq<TxBlock>, from: int, to: int)
    requires Abut(bs, from, to)
    ensures bs != [] ==> bs[0].timestamp == from
    ensures Contiguous(bs, to)
  {
    if bs != [] {
      AbutIndexed(bs[1..], from + bs[0].size, to);
      assert bs == [bs[0]] + bs[1..];
      ContiguousCons(bs[0], bs[1..], to);
    }
  }

  lemma ContiguousCons(b: TxBlock, rest: seq<TxBlock>, to: int)
    requires Contiguous(rest, to) && b.size >= 0 && b.slotSamples > 0
    requires b.timestamp + b.size == if rest != [] then rest[0].timestamp else to
    ensures Contiguous([b] + rest, to)
  {
    var bs := [b] + rest;
    forall k: nat | k < |bs| ensures EndsAtNext(bs, to, k) {
      if k > 0 {
        assert EndsAtNext(rest, to, k - 1);
      }
    }
  }

  lemma {:induction false} BlocksAbut(fp: FrameParms, st: UeState, inputs: seq<SlotInput>)
    requires Valid(fp) && Consistent(fp, st)
    ensures Abut(Blocks(fp, st, inputs), NextTimestamp(fp, st), NextTimestamp(fp, FinalState(fp, st, inputs)))
    decreases |inputs|
  {
    hide SlotStep, NextTimestamp, Valid;
    if inputs != [] {
      BlockMeetsNext(fp, st, inputs[0]);
      var (st', b) := SlotStep(fp, st, inputs[0]);
      BlocksAbut(fp, st', inputs[1..]);
      assert Blocks(fp, st, inputs)[1..] == Blocks(fp, st', inputs[1..]);
    }
  }

  /** Over any run, block k ends where block k + 1 starts. */
  lemma BlocksContiguous(fp: FrameParms, st: UeState, inputs: seq<SlotInput>)
    requires Valid(fp) && Consistent(fp, st)
    ensures Contiguous(Blocks(fp, st, inputs), NextTimestamp(fp, FinalState(fp, st, inputs)))
  {
    hide SlotStep, NextTimestamp, Valid, Blocks;
    BlocksAbut(fp, st, inputs);
    AbutIndexed(Blocks(fp, st, inputs), NextTimestamp(fp, st), NextTimestamp(fp, FinalState(fp, st, inputs)));
  }

  lemma {:induction false} TilesConcat(a: seq<Chunk>, b: seq<Chunk>, from: int, mid: int, to: int)
    requires Tiles(a, from, mid) && Tiles(b, mid, to)
    ensures Tiles(a + b, from, to)
  {
    if a == [] {
      assert a + b == b;
    } else {
      TilesConcat(a[1..], b, from + a[0].size, mid, to);
      assert (a + b)[1..] == a[1..] + b;
    }
  }

  lemma TilesAppend(a: seq<Chunk>, from: int, to: int, size: int)
    requires Tiles(a, from, to) && size > 0
    ensures Tiles(a + [Chunk(to, size)], from, to + size)
  {
    assert Tiles([Chunk(to, size)][1..], to + size, to + size);
    TilesConcat(a, [Chunk(to, size)], from, to, to + size);
  }

  /** The chunks of one block tile it. */
  lemma {:induction false} RuChunksTile(timestamp: int, size: int, maxSize: nat)
    requires size >= 0 && maxSize > 0
    ensures Tiles(RuChunks(timestamp, size, maxSize), timestamp, timestamp + size)
    decreases size
  {
    if size > maxSize {
      var dummy := Min(size - maxSize, maxSize);
      RuChunksTile(timestamp + dummy, size - dummy, maxSize);
    }
  }

  /** No chunk is longer than the slot, and the real samples are the last, full-slot chunk. */
  lemma {:induction false} RuChunksBounded(timestamp: int, size: int, maxSize: nat)
    requires size > 0 && maxSize > 0
    ensures var chunks := RuChunks(timestamp, size, maxSize);
            && chunks != []
            && chunks[|chunks| - 1] == Chunk(timestamp + size - Min(size, maxSize), Min(size, maxSize))
            && forall k :: 0 <= k < |chunks| ==> 0 < chunks[k].size <= maxSize
    decreases size
  {
    RuChunksUnfold(timestamp, size, maxSize);
    if size > maxSize {
      var dummy := Min(size - maxSize, maxSize);
      RuChunksBounded(timestamp + dummy, size - dummy, maxSize);
    }
    hide RuChunks;
  }

  lemma {:induction false} AbutTiles(bs: seq<TxBlock>, from: int, to: int)
    requires Abut(bs, from, to)
    ensures forall k :: 0 <= k < |bs| ==> bs[k].size >= 0 && bs[k].slotSamples > 0
    ensures Tiles(Stream(bs), from, to)
  {
    AbutIndexed(bs, from, to);
    if bs != [] {
      var b := bs[0];
      AbutTiles(bs[1..], from + b.size, to);
      RuChunksTile(b.timestamp, b.size, b.slotSamples);
      TilesConcat(RuChunks(b.timestamp, b.size, b.slotSamples), Stream(bs[1..]), from, from + b.size, to);
    }
  }

  /** Whole runs: what reaches the radio tiles the interval from the first announced timestamp on. */
  lemma StreamTiles(fp: FrameParms, st: UeState, inputs: seq<SlotInput>)
    requires Valid(fp) && Consistent(fp, st)
    ensures var bs := Blocks(fp, st, inputs);
            && (forall k :: 0 <= k < |bs| ==> bs[k].size >= 0 && bs[k].slotSamples > 0)
            && Tiles(Stream(bs), NextTimestamp(fp, st), NextTimestamp(fp, FinalState(fp, st, inputs)))
  {
    hide SlotStep, NextTimestamp, Valid, Blocks;
    BlocksAbut(fp, st, inputs);
    AbutTiles(Blocks(fp, st, inputs), NextTimestamp(fp, st), NextTimestamp(fp, FinalState(fp, st, inputs)));
  }
}
