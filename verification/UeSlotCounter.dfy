/**
  The absolute slot counter of `UE_thread` (executables/nr-ue.c): how it is set after a
  (re)synchronization, and how hyper frame, frame and slot numbers are taken from it.
*/
module UeSlotCounter {
  import opened Arith
  import opened NrParms

  datatype Labels = Labels(hfn: nat, frame: nat, slot: nat)

  function LabelsOf(slotsPerFrame: nat, absoluteSlot: nat): Labels
    requires slotsPerFrame > 0
  {
    Labels(absoluteSlot / slotsPerFrame / MAX_FRAME_NUMBER,
           absoluteSlot / slotsPerFrame % MAX_FRAME_NUMBER,
           absoluteSlot % slotsPerFrame)
  }

  /** Counter value set by a synchronization to `decodedFrame`; the slot loop increments before use. */
  function ResyncSlot(slotsPerFrame: nat, absoluteSlot: nat, decodedFrame: nat): nat
    requires slotsPerFrame > 0
  {
    var prevFrame := absoluteSlot / slotsPerFrame % MAX_FRAME_NUMBER;
    var prevHfn := absoluteSlot / slotsPerFrame / MAX_FRAME_NUMBER;
    var hfn := if decodedFrame <= prevFrame then prevHfn + 1 else prevHfn;
    MulMonotone(1, hfn * MAX_FRAME_NUMBER + decodedFrame, slotsPerFrame);
    (hfn * MAX_FRAME_NUMBER + decodedFrame) * slotsPerFrame - 1
  }

  /** Labels recompose to the counter, and only the right ones do. For TX, use it at `absolute_slot` + duration. */
  lemma LabelsRecompose(slotsPerFrame: nat, absoluteSlot: nat, l: Labels)
    requires slotsPerFrame > 0
    ensures l == LabelsOf(slotsPerFrame, absoluteSlot)
       <==> l.frame < MAX_FRAME_NUMBER && l.slot < slotsPerFrame
            && (l.hfn * MAX_FRAME_NUMBER + l.frame) * slotsPerFrame + l.slot == absoluteSlot
  {
    var f := absoluteSlot / slotsPerFrame;
    DivMod(absoluteSlot, slotsPerFrame);
    DivMod(f, MAX_FRAME_NUMBER);
    var g := l.hfn * MAX_FRAME_NUMBER + l.frame;
    if l.frame < MAX_FRAME_NUMBER && l.slot < slotsPerFrame && g * slotsPerFrame + l.slot == absoluteSlot {
      DivModUnique(absoluteSlot, slotsPerFrame, g, l.slot);
      DivModUnique(g, MAX_FRAME_NUMBER, l.hfn, l.frame);
    }
  }

  /** The frame a synchronization selects: the first later one with the decoded number. */
  ghost predicate NextFrameNumbered(frameIndex: nat, after: nat, number: nat) {
    && after < frameIndex
    && frameIndex % MAX_FRAME_NUMBER == number
    && forall g :: after < g < frameIndex ==> g % MAX_FRAME_NUMBER != number
  }

  lemma NextFrameIndex(index: nat, number: nat)
    requires number < MAX_FRAME_NUMBER
    ensures var hfn := index / MAX_FRAME_NUMBER + if number <= index % MAX_FRAME_NUMBER then 1 else 0;
            NextFrameNumbered(hfn * MAX_FRAME_NUMBER + number, index, number)
  {
    var hfn := index / MAX_FRAME_NUMBER + if number <= index % MAX_FRAME_NUMBER then 1 else 0;
    var f := hfn * MAX_FRAME_NUMBER + number;
    DivMod(index, MAX_FRAME_NUMBER);
    DivModUnique(f, MAX_FRAME_NUMBER, hfn, number);
    forall g | index < g < f ensures g % MAX_FRAME_NUMBER != number {
      if g % MAX_FRAME_NUMBER == number {
        CloseResidues(f, g, MAX_FRAME_NUMBER);
      }
    }
  }

  /**
    After every synchronization the next slot processed is the first slot of the least later frame
    with the decoded number. The counter itself is never moved back.
  */
  lemma ResyncLandsOnNextFrame(slotsPerFrame: nat, absoluteSlot: nat, decodedFrame: nat)
    requires slotsPerFrame > 0 && decodedFrame < MAX_FRAME_NUMBER
    ensures var next := ResyncSlot(slotsPerFrame, absoluteSlot, decodedFrame) + 1;
            && next > absoluteSlot
            && next % slotsPerFrame == 0
            && NextFrameNumbered(next / slotsPerFrame, absoluteSlot / slotsPerFrame, decodedFrame)
  {
    var index := absoluteSlot / slotsPerFrame;
    DivMod(absoluteSlot, slotsPerFrame);
    NextFrameIndex(index, decodedFrame);
    var next := ResyncSlot(slotsPerFrame, absoluteSlot, decodedFrame) + 1;
    var f := index / MAX_FRAME_NUMBER * MAX_FRAME_NUMBER + decodedFrame
             + if decodedFrame <= index % MAX_FRAME_NUMBER then MAX_FRAME_NUMBER else 0;
    assert next == f * slotsPerFrame;
    DivModUnique(next, slotsPerFrame, f, 0);
    MulMonotone(index + 1, f, slotsPerFrame);
    Distribute(index, 1, slotsPerFrame);
  }

  /**
    The counter strictly increases unless it stood at the last slot of a frame and the very next
    frame was decoded: then it is set to the value it already has.
  */
  lemma ResyncIncreasesIff(slotsPerFrame: nat, absoluteSlot: nat, decodedFrame: nat)
    requires slotsPerFrame > 0 && decodedFrame < MAX_FRAME_NUMBER
    ensures ResyncSlot(slotsPerFrame, absoluteSlot, decodedFrame) >= absoluteSlot
    ensures ResyncSlot(slotsPerFrame, absoluteSlot, decodedFrame) > absoluteSlot
       <==> !(&& absoluteSlot % slotsPerFrame == slotsPerFrame - 1
              && decodedFrame == (absoluteSlot / slotsPerFrame + 1) % MAX_FRAME_NUMBER)
  {
    var index := absoluteSlot / slotsPerFrame;
    ResyncLandsOnNextFrame(slotsPerFrame, absoluteSlot, decodedFrame);
    DivMod(absoluteSlot, slotsPerFrame);
    var next := ResyncSlot(slotsPerFrame, absoluteSlot, decodedFrame) + 1;
    var f := next / slotsPerFrame;
    DivMod(next, slotsPerFrame);
    Distribute(index, 1, slotsPerFrame);
    if f == index + 1 {
    } else {
      assert decodedFrame != (index + 1) % MAX_FRAME_NUMBER;
      MulMonotone(index + 2, f, slotsPerFrame);
      Distribute(index, 2, slotsPerFrame);
    }
  }

  /** A synchronization that leaves the counter where it was. */
  lemma ResyncKeepsCounter()
    ensures ResyncSlot(20, 19, 1) == 19
  {
  }

  // ---- Runs ----

  datatype Event = Resync(decodedFrame: nat) | Slot

  ghost predicate Legal(events: seq<Event>) {
    forall e :: e in events ==> e.Resync? ==> e.decodedFrame < MAX_FRAME_NUMBER
  }

  /** Absolute numbers of the slots processed in a run that starts with counter `absoluteSlot`. */
  function Processed(slotsPerFrame: nat, absoluteSlot: nat, events: seq<Event>): seq<nat>
    requires slotsPerFrame > 0
    decreases |events|
  {
    if events == [] then []
    else match events[0]
      case Slot => [absoluteSlot + 1] + Processed(slotsPerFrame, absoluteSlot + 1, events[1..])
      case Resync(frame) =>
        Processed(slotsPerFrame, ResyncSlot(slotsPerFrame, absoluteSlot, frame), events[1..])
  }

  ghost predicate Ascending(p: seq<nat>, above: int) {
    && (forall i :: 0 <= i < |p| ==> above < p[i])
    && (forall i, j :: 0 <= i < j < |p| ==> p[i] < p[j])
  }

  /** Over any run of slots and synchronizations no absolute slot number is repeated or revisited. */
  lemma {:induction false} ProcessedIncreases(slotsPerFrame: nat, absoluteSlot: nat, events: seq<Event>)
    requires slotsPerFrame > 0 && Legal(events)
    ensures Ascending(Processed(slotsPerFrame, absoluteSlot, events), absoluteSlot)
    decreases |events|
  {
    if events != [] {
      match events[0]
      case Slot =>
        ProcessedIncreases(slotsPerFrame, absoluteSlot + 1, events[1..]);
      case Resync(frame) =>
        assert events[0] in events;
        ResyncIncreasesIff(slotsPerFrame, absoluteSlot, frame);
        ProcessedIncreases(slotsPerFrame, ResyncSlot(slotsPerFrame, absoluteSlot, frame), events[1..]);
    }
  }
}
