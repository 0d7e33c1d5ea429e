/**
  The wait counters of the NR UE while the RX-to-TX duration grows (executables/nr-ue.c): a longer
  duration skips transmit slots, which are then never armed and whose counters are never cleared.
*/
module UeTxDuration {
  import opened Arith
  import opened UeTxChain

  /** What the slot loop keeps for the counters. */
  datatype Loop = Loop(received: nat, armed: nat, duration: nat, ring: seq<nat>)

  datatype LoopStep =
    | Count
    | Arm
    | Grow(extra: nat)  // between two slots: the duration of the next slot is longer

  function Start(c: Config): Loop {
    Loop(c.firstRx, FirstTx(c), c.duration, seq(c.slotsPerFrame, _ => 0))
  }

  predicate CanStep(l: Loop, step: LoopStep) {
    l.armed + (if step.Arm? then 1 else 0) == l.received + l.duration
  }

  function Apply(c: Config, l: Loop, step: LoopStep): Loop
    requires c.slotsPerFrame > 0 && |l.ring| == c.slotsPerFrame
  {
    match step
    case Count =>
      var k1 := c.traffic(l.received).k1;
      var ackNack := (l.received % c.slotsPerFrame + k1) % c.slotsPerFrame;
      l.(received := l.received + 1, ring := if k1 != 0 then l.ring[ackNack := l.ring[ackNack] + 1] else l.ring)
    case Arm => l.(armed := l.armed + 1, ring := l.ring[l.armed % c.slotsPerFrame := 0])
    case Grow(extra) => l.(duration := l.duration + extra, armed := l.armed + extra)
  }

  /** The loop part of a state of the transmit chain. */
  function LoopOf(c: Config, s: State): Loop {
    Loop(s.received, s.armed, c.duration, s.ring)
  }

  /** With a fixed duration the loop is that of the transmit chain. */
  lemma LoopFollowsChain(c: Config, s: State)
    requires Sized(c, s)
    ensures LoopOf(c, RxCountStep(c, s)) == Apply(c, LoopOf(c, s), Count)
    ensures LoopOf(c, RxArmStep(c, s)) == Apply(c, LoopOf(c, s), Arm)
    ensures LoopOf(c, Init(c)) == Start(c)
  {
    hide BarrierUpdate, WrappedIndex;
  }

  /** The offset of a received DLSCH lies within one frame from the duration then in force on. */
  ghost predicate OffsetFits(c: Config, l: Loop) {
    HasFeedback(c, l.received) ==> l.duration <= c.traffic(l.received).k1 < l.duration + c.slotsPerFrame
  }

  ghost predicate LoopRun(c: Config, states: seq<Loop>, steps: seq<LoopStep>) {
    && c.slotsPerFrame > 0 && |states| == |steps| + 1 && states[0] == Start(c)
    && forall i :: 0 <= i < |steps| ==> LoopNext(c, states[i], steps[i], states[i + 1])
  }

  ghost predicate LoopNext(c: Config, l: Loop, step: LoopStep, l': Loop) {
    && c.slotsPerFrame > 0 && |l.ring| == c.slotsPerFrame && CanStep(l, step)
    && (step.Count? ==> OffsetFits(c, l))
    && l' == Apply(c, l, step)
  }

  /** The counters of the frame of slots to be armed are the DLSCHs received with feedback on them. */
  ghost predicate Exact(c: Config, l: Loop) {
    && c.slotsPerFrame > 0 && |l.ring| == c.slotsPerFrame
    && forall t: nat :: l.armed <= t < l.armed + c.slotsPerFrame
                        ==> l.ring[t % c.slotsPerFrame] == FeedbackCount(c, t, l.received)
  }

  /** No DLSCH has its feedback on a slot that the step skips. */
  ghost predicate SkipsNoFeedback(c: Config, l: Loop, step: LoopStep) {
    step.Grow? ==> forall t: nat :: l.armed <= t < l.armed + step.extra ==> FeedbackCount(c, t, l.received) == 0
  }

  ghost predicate LoopInv(c: Config, l: Loop) {
    && c.slotsPerFrame > 0 && |l.ring| == c.slotsPerFrame && c.firstRx <= l.received
    && l.armed <= l.received + l.duration <= l.armed + 1
    && forall t: nat :: t + 1 >= l.received + l.duration + c.slotsPerFrame ==> FeedbackCount(c, t, l.received) == 0
  }

  lemma StartExact(c: Config)
    requires c.slotsPerFrame > 0
    ensures LoopInv(c, Start(c)) && Exact(c, Start(c))
  {
    forall t: nat ensures FeedbackCount(c, t, c.firstRx) == 0 {
      FeedbackNone(c, t, c.firstRx);
    }
  }

  lemma {:induction false} FeedbackNone(c: Config, t: nat, n: nat)
    requires n <= c.firstRx
    ensures FeedbackCount(c, t, n) == 0
  {
    if n > 0 {
      FeedbackNone(c, t, n - 1);
    }
  }

  lemma StepKeepsInv(c: Config, l: Loop, step: LoopStep, l': Loop)
    requires LoopInv(c, l) && LoopNext(c, l, step, l')
    ensures LoopInv(c, l')
  {
  }

  lemma CountKeepsExact(c: Config, l: Loop)
    requires LoopInv(c, l) && Exact(c, l) && CanStep(l, Count) && OffsetFits(c, l)
    ensures Exact(c, Apply(c, l, Count))
  {
    RingPlaces(c.slotsPerFrame, l.armed);
    ModAdd(l.received, c.traffic(l.received).k1, c.slotsPerFrame);
  }

  lemma ArmKeepsExact(c: Config, l: Loop)
    requires LoopInv(c, l) && Exact(c, l) && CanStep(l, Arm)
    ensures Exact(c, Apply(c, l, Arm))
  {
    RingPlaces(c.slotsPerFrame, l.armed);
    AddMultiple(l.armed, c.slotsPerFrame, 1);
  }

  /** The slot from `a` on within one frame that shares the counter of `t`. */
  lemma SamePlace(t: nat, a: nat, n: nat) returns (u: nat)
    requires n > 0
    ensures a <= u < a + n && u % n == t % n
  {
    DivMod(t - a, n);
    u := a + (t - a) % n;
    ModAdd(t - a, a, n);
  }

  /** A longer duration keeps the counters exact exactly when no DLSCH has its feedback on a skipped slot. */
  lemma GrowExactIff(c: Config, l: Loop, extra: nat)
    requires LoopInv(c, l) && Exact(c, l) && CanStep(l, Grow(extra))
    ensures Exact(c, Apply(c, l, Grow(extra))) <==> SkipsNoFeedback(c, l, Grow(extra))
  {
    hide FeedbackCount;
    var a, n := l.armed, c.slotsPerFrame;
    if SkipsNoFeedback(c, l, Grow(extra)) {
      forall t: nat | a + extra <= t < a + extra + n ensures l.ring[t % n] == FeedbackCount(c, t, l.received) {
        var u := SamePlace(t, a, n);
        if u >= a + extra {
          CloseResidues(t, u, n);
        }
      }
    }
    if Exact(c, Apply(c, l, Grow(extra))) {
      forall u: nat | a <= u < a + extra ensures FeedbackCount(c, u, l.received) == 0 {
        if u < a + n {
          var t := SamePlace(u, a + extra, n);
          if t < a + n {
            CloseResidues(t, u, n);
          }
        }
      }
    }
  }

  lemma StepExactIff(c: Config, l: Loop, step: LoopStep, l': Loop)
    requires LoopInv(c, l) && Exact(c, l) && LoopNext(c, l, step, l')
    ensures Exact(c, l') <==> SkipsNoFeedback(c, l, step)
  {
    hide Exact;
    match step
    case Count => CountKeepsExact(c, l);
    case Arm => ArmKeepsExact(c, l);
    case Grow(extra) => GrowExactIff(c, l, extra);
  }

  lemma {:induction false} LoopRunInv(c: Config, states: seq<Loop>, steps: seq<LoopStep>, i: nat)
    requires LoopRun(c, states, steps) && i < |states|
    ensures LoopInv(c, states[i])
  {
    hide LoopInv, LoopNext;
    if i == 0 {
      StartExact(c);
    } else {
      LoopRunInv(c, states, steps, i - 1);
      StepKeepsInv(c, states[i - 1], steps[i - 1], states[i]);
    }
  }

  lemma {:induction false} ExactWhileNoneSkipped(c: Config, states: seq<Loop>, steps: seq<LoopStep>, i: nat)
    requires LoopRun(c, states, steps) && i < |states|
    requires forall k :: 0 <= k < i ==> SkipsNoFeedback(c, states[k], steps[k])
    ensures Exact(c, states[i])
  {
    hide LoopInv, LoopNext, Exact, SkipsNoFeedback;
    if i == 0 {
      StartExact(c);
    } else {
      ExactWhileNoneSkipped(c, states, steps, i - 1);
      LoopRunInv(c, states, steps, i - 1);
      StepExactIff(c, states[i - 1], steps[i - 1], states[i]);
    }
  }

  /**
    Over every run of slots and longer durations, with offsets that fit the duration in force: the counters stay
    exact throughout exactly when no change of the duration skips a slot with feedback on it.
  */
  lemma ExactIffNoneSkipped(c: Config, states: seq<Loop>, steps: seq<LoopStep>)
    requires LoopRun(c, states, steps)
    ensures (forall i :: 0 <= i < |states| ==> Exact(c, states[i]))
       <==> (forall i :: 0 <= i < |steps| ==> SkipsNoFeedback(c, states[i], steps[i]))
  {
    hide LoopInv, LoopNext, Exact, SkipsNoFeedback;
    if forall i :: 0 <= i < |states| ==> Exact(c, states[i]) {
      forall i | 0 <= i < |steps| ensures SkipsNoFeedback(c, states[i], steps[i]) {
        LoopRunInv(c, states, steps, i);
        assert LoopNext(c, states[i], steps[i], states[i + 1]);
        StepExactIff(c, states[i], steps[i], states[i + 1]);
      }
    }
    if forall i :: 0 <= i < |steps| ==> SkipsNoFeedback(c, states[i], steps[i]) {
      forall i | 0 <= i < |states| ensures Exact(c, states[i]) {
        ExactWhileNoneSkipped(c, states, steps, i);
      }
    }
  }
}
