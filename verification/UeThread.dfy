/**
  `UE_thread` and `RU_write` (executables/nr-ue.c) as they run: state updated in place, proved
  against the specifications in `UeTiming` and `UeSlotCounter`.
*/
module UeThread {
  import opened Arith
  import opened Options
  import opened NrParms
  import opened UeTiming
  import opened UeSlotCounter

  class UeThread {
    const fp: FrameParms
    var absoluteSlot: int
    var position: int
    var timingAdvance: int
    var nTaOffset: int
    var durationRxToTx: nat
    var ntnKoffset: nat
    var shiftForNextFrame: int

    ghost function View(): UeState
      reads this
    {
      UeState(absoluteSlot, position, timingAdvance, nTaOffset, durationRxToTx, ntnKoffset, shiftForNextFrame)
    }

    constructor (fp: FrameParms, position: int, timingAdvance: int, nTaOffset: int)
      requires Valid(fp)
      ensures this.fp == fp && Consistent(fp, View())
      ensures View() == UeState(0, position, timingAdvance, nTaOffset, SLOT_RX_TO_TX, 0, 0)
    {
      this.fp := fp;
      this.absoluteSlot := 0;
      this.position := position;
      this.timingAdvance := timingAdvance;
      this.nTaOffset := nTaOffset;
      this.durationRxToTx := SLOT_RX_TO_TX;
      this.ntnKoffset := 0;
      this.shiftForNextFrame := 0;
    }

    /** A device read returns the timestamp of its first sample. */
    method DeviceRead(samples: int) returns (timestamp: int)
      modifies this`position
      ensures timestamp == old(position) && position == old(position) + samples
    {
      timestamp := position;
      position := position + samples;
    }

    /**
      Move to the frame boundary after a synchronization: skip `rxOffset` samples, read the first
      symbol of the frame and set the absolute slot counter. With the RF simulator as many samples are
      written as are skipped, `ta` being the timing advance requested by then.
    */
    method Resynchronize(rxOffset: nat, decodedFrame: nat, driftShift: int, kOffset: Option<nat>, rfSim: bool, ta: int)
      returns (writes: seq<Chunk>)
      requires Valid(fp) && absoluteSlot >= 0 && decodedFrame < MAX_FRAME_NUMBER && Consistent(fp, View())
      modifies this
      ensures var st := old(View()).(
                absoluteSlot := ResyncSlot(SlotsPerFrame(fp), old(absoluteSlot), (decodedFrame + 1) % MAX_FRAME_NUMBER),
                position := old(position) + rxOffset + fp.ofdmSymbolSize + fp.nbPrefixSamples0,
                shiftForNextFrame := driftShift);
              View() == if kOffset.Some? then ApplyNtnConfig(fp, st, 0, kOffset.value) else st
      ensures NextSlot(fp, View()) == 0 && SlotStart(fp, View()) == old(position) + rxOffset
      ensures var start := old(position + SlotDuration(fp, 0, durationRxToTx) - nTaOffset - ta);
              if rfSim then Tiles(writes, start, start + rxOffset) else writes == []
      ensures Consistent(fp, View())
    {
      hide SlotTimestamp, SamplesPerSlot, SlotDuration;
      var lead := SlotDuration(fp, 0, durationRxToTx) - nTaOffset - ta;
      ghost var start := position + lead;
      writes := [];
      var size: int := rxOffset;
      while size > 0
        invariant 0 <= size <= rxOffset
        invariant position == old(position) + rxOffset - size
        invariant View() == old(View()).(position := position)
        invariant if rfSim then Tiles(writes, start, start + rxOffset - size) else writes == []
      {
        var unitTransfer := Min(SamplesPerSlot(fp, 0), size);
        var timestamp := DeviceRead(unitTransfer);
        if rfSim {
          TilesAppend(writes, start, timestamp + lead, unitTransfer);
          writes := writes + [Chunk(timestamp + lead, unitTransfer)];
        }
        size := size - unitTransfer;
      }
      shiftForNextFrame := driftShift;
      var _ := DeviceRead(fp.ofdmSymbolSize + fp.nbPrefixSamples0);

      var n := SlotsPerFrame(fp);
      var decoded := (decodedFrame + 1) % MAX_FRAME_NUMBER;
      var prevFrame := absoluteSlot / n % MAX_FRAME_NUMBER;
      var hfn := absoluteSlot / n / MAX_FRAME_NUMBER;
      if decoded <= prevFrame {
        hfn := hfn + 1;
      }
      ResyncLandsOnNextFrame(n, absoluteSlot, decoded);
      absoluteSlot := (hfn * MAX_FRAME_NUMBER + decoded) * n - 1;
      if kOffset.Some? {
        ApplyNtn(0, kOffset.value);
      }
    }

    method ApplyNtn(slotRx: nat, kOffset: nat)
      requires Valid(fp)
      modifies this`durationRxToTx, this`timingAdvance, this`ntnKoffset
      ensures View() == ApplyNtnConfig(fp, old(View()), slotRx, kOffset)
      ensures durationRxToTx == 3 + kOffset * fp.slotsPerSubframe && ntnKoffset == kOffset
    {
      hide SlotDuration, SlotTimestamp, Valid;
      durationRxToTx := SLOT_RX_TO_TX + kOffset * fp.slotsPerSubframe;
      if kOffset > ntnKoffset {
        timingAdvance := timingAdvance + SlotDuration(fp, slotRx, (kOffset - ntnKoffset) * fp.slotsPerSubframe);
      } else if kOffset < ntnKoffset {
        timingAdvance := timingAdvance - SlotDuration(fp, slotRx, (ntnKoffset - kOffset) * fp.slotsPerSubframe);
      }
      ntnKoffset := kOffset;
    }

    /** One pass of the synchronized slot loop. */
    method ProcessSlot(input: SlotInput) returns (block: TxBlock)
      requires Valid(fp) && Consistent(fp, View())
      modifies this
      ensures (View(), block) == SlotStep(fp, old(View()), input)
      ensures block.timestamp == NextTimestamp(fp, old(View()))
      ensures block.size >= 0 && block.timestamp + block.size == NextTimestamp(fp, View())
      ensures Consistent(fp, View())
    {
      hide SlotTimestamp, SamplesPerSlot, FirstSymSamp;
      BlockMeetsNext(fp, View(), input);
      absoluteSlot := absoluteSlot + 1;
      var n := SlotsPerFrame(fp);
      var slotNr := absoluteSlot % n;
      var firstSymSamp := FirstSymSamp(fp, slotNr);
      var iqShift := 0;
      if slotNr == n - 1 {
        iqShift := shiftForNextFrame;
        shiftForNextFrame := input.driftCorrection;
      }
      var rxTimestamp := DeviceRead(ReadBlockSize(fp, slotNr) - iqShift);
      if slotNr == n - 1 {
        var _ := DeviceRead(fp.ofdmSymbolSize + fp.nbPrefixSamples0);
      }
      var writeTimestamp := rxTimestamp + SlotDuration(fp, slotNr, durationRxToTx) - firstSymSamp
                            - nTaOffset - timingAdvance;
      var slotSamples := SamplesPerSlot(fp, (slotNr + durationRxToTx) % n);
      var writeBlockSize := slotSamples - iqShift;
      if input.timingAdvance != timingAdvance {
        writeBlockSize := writeBlockSize - (input.timingAdvance - timingAdvance);
        timingAdvance := input.timingAdvance;
      }
      if input.nTaOffset != nTaOffset {
        writeBlockSize := writeBlockSize - (input.nTaOffset - nTaOffset);
        nTaOffset := input.nTaOffset;
      }
      if writeBlockSize < 0 {
        timingAdvance := timingAdvance + writeBlockSize;
        writeBlockSize := 0;
      }
      if input.measuredShift.Some? {
        shiftForNextFrame := input.measuredShift.value;
      }
      if input.kOffset.Some? {
        ApplyNtn(slotNr, input.kOffset.value);
      }
      block := TxBlock(writeTimestamp, writeBlockSize, slotSamples);
    }
  }

  /** The radio writes of one block: dummy chunks first, then the slot itself (see RuChunksTile). */
  method RuWrite(timestamp: int, size: nat, maxSize: nat) returns (chunks: seq<Chunk>)
    requires maxSize > 0
    ensures chunks == RuChunks(timestamp, size, maxSize)
  {
    hide RuChunks;
    ghost var all := RuChunks(timestamp, size, maxSize);
    chunks := [];
    if size == 0 {
      NoChunks(timestamp, maxSize);
      return;
    }
    var writeTimestamp, writeBlockSize := timestamp, size;
    while writeBlockSize > maxSize
      invariant writeBlockSize > 0
      invariant all == chunks + RuChunks(writeTimestamp, writeBlockSize, maxSize)
    {
      RuChunksUnfold(writeTimestamp, writeBlockSize, maxSize);
      var dummy := Min(writeBlockSize - maxSize, maxSize);
      chunks := chunks + [Chunk(writeTimestamp, dummy)];
      writeTimestamp := writeTimestamp + dummy;
      writeBlockSize := writeBlockSize - dummy;
    }
    RuChunksUnfold(writeTimestamp, writeBlockSize, maxSize);
    chunks := chunks + [Chunk(writeTimestamp, writeBlockSize)];
  }

  lemma NoChunks(timestamp: int, maxSize: nat)
    requires maxSize > 0
    ensures RuChunks(timestamp, 0, maxSize) == []
  {
  }
}
