/** `ru_thread` and `rx_rf` (executables/nr-ru.c) updating their counters in place, proved against `RuClock`. */
module RuThread {
  import opened Arith
  import opened NrParms
  import opened RuClock

  class RuThread {
    const fp: FrameParms
    var firstRx: bool
    var timestampRx: int
    var tsOffset: int
    var frame: int
    var slot: nat
    var frameRx: nat
    var ttiRx: int
    var timestampTx: int
    var frameTx: nat
    var ttiTx: nat

    ghost function View(): RuState
      reads this
    {
      RuState(firstRx, timestampRx, tsOffset, frame, slot, frameRx, ttiRx)
    }

    constructor (fp: FrameParms)
      requires Valid(fp)
      ensures this.fp == fp && View() == Init(fp)
      ensures frame == 1023 && slot == SlotsPerFrame(fp) - 1 && firstRx && tsOffset == 0
    {
      this.fp := fp;
      firstRx, timestampRx, tsOffset := true, 0, 0;
      frame, slot := MAX_FRAME_NUMBER - 1, SlotsPerFrame(fp) - 1;
      frameRx, ttiRx := 0, 0;
      timestampTx, frameTx, ttiTx := 0, 0, 0;
    }

    method AdvanceCounters()
      requires Valid(fp)
      modifies this`slot, this`frame
      ensures View() == Advance(fp, old(View()))
    {
      if slot == SlotsPerFrame(fp) - 1 {
        slot := 0;
        frame := frame + 1;
        frame := frame % MAX_FRAME_NUMBER;
      } else {
        slot := slot + 1;
      }
    }

    /** `ok` is false where the source exits because the timestamp does not match the counters. */
    method ReadSlot(ts: int) returns (ok: bool)
      requires Valid(fp)
      modifies this
      ensures (View(), ok) == RxRf(fp, old(View()), ts)
    {
      hide SlotTimestamp, SlotFromTimestamp, FrameFromTimestamp, SamplesPerSlot;
      var oldTs := timestampRx;
      timestampRx := ts - tsOffset;
      if !firstRx {
        var samplesPrev := SamplesPerSlot(fp, PrevSlot(slot));
        if timestampRx - oldTs != samplesPrev {
          tsOffset := tsOffset + (timestampRx - oldTs - samplesPrev);
          timestampRx := ts - tsOffset;
        }
      }
      frameRx := FrameFromTimestamp(fp, timestampRx);
      ttiRx := SlotFromTimestamp(fp, timestampRx);
      ok := true;
      if !firstRx {
        ok := ttiRx == slot && frameRx == frame;
      } else {
        DecodedSlot(fp, timestampRx);
        firstRx := false;
        frame := frameRx;
        slot := ttiRx;
        var offset := CRem(timestampRx, SamplesPerFrame(fp)) - SlotTimestamp(fp, slot);
        if offset != 0 {
          timestampRx := timestampRx + SamplesPerSlot(fp, slot) - offset;
          if slot + 1 >= SlotsPerFrame(fp) {
            frame := frame + 1;
          }
          slot := (slot + 1) % SlotsPerFrame(fp);
        }
      }
    }

    /** One pass of the main loop after the first reception: read, then label the transmit slot. */
    method Pass(ts: int, ahead: nat) returns (ok: bool)
      requires Valid(fp) && InStep(fp, View())
      modifies this
      ensures ok && InStep(fp, View())
      ensures frameRx == frame && ttiRx == slot
      ensures timestampRx == old(timestampRx) + SamplesPerSlot(fp, old(slot))
      ensures timestampRx + tsOffset == ts
      ensures timestampTx + tsOffset == ts + SlotDuration(fp, slot, ahead) && timestampTx >= 0
      ensures ttiTx == SlotFromTimestamp(fp, timestampTx)
      ensures frameTx == FrameFromTimestamp(fp, timestampTx) <==> ahead / SlotsPerFrame(fp) % MAX_FRAME_NUMBER == 0
    {
      hide SlotTimestamp, SlotFromTimestamp, FrameFromTimestamp, SamplesPerSlot, RxRf, Advance, SlotDuration,
        Position, FrameIndex;
      PassKeepsStep(fp, View(), ts);
      TimeBase(fp, Advance(fp, View()), ts);
      InStepSlot(fp, View());
      AdvanceCounters();
      ok := ReadSlot(ts);
      InStepPosition(fp, View());
      TxTimestampDecodes(fp, FrameIndex(fp, timestampRx), slot, ahead);
      TxFrameRightIff(fp, FrameIndex(fp, timestampRx), slot, ahead);
      timestampTx := TimestampTx(fp, timestampRx, ttiRx, ahead);
      ttiTx := (ttiRx + ahead) % SlotsPerFrame(fp);
      frameTx := if ttiRx > ttiTx then (frameRx + 1) % MAX_FRAME_NUMBER else frameRx;
    }
  }
}
