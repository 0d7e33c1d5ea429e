/**
  What becomes of a transmit slot of the NR UE that has had more joins than it waits for by the time
  it is armed (executables/nr-ue.c, common/utils/barrier/barrier.c).
*/
module UeTxExcess {
  import opened Arith
  import opened Options
  import opened UeTxChain
  import opened UeTxOrder

  /** An armed barrier that has passed the number of joins it waits for. */
  predicate Overrun(b: Barrier) {
    b.callback.Some? && b.completed > b.maxJoins
  }

  /** Arming after too many joins does not fire, and neither does any join after that. */
  lemma OverrunNeverFires(b: Barrier, joins: int, arg: nat)
    ensures b.completed > joins ==>
              var (b', fired) := BarrierUpdate(b, joins, arg);
              fired == None && Overrun(b') && b'.callback == Some(arg)
    ensures Overrun(b) ==>
              var (b', fired) := BarrierJoin(b);
              fired == None && Overrun(b') && b'.callback == b.callback
  {
  }

  /** Barriers and starts name slots that have been armed. */
  ghost predicate NamesArmed(s: State) {
    && (forall i :: 0 <= i < |s.barriers| && s.barriers[i].callback.Some? ==> s.barriers[i].callback.value < s.armed)
    && (forall t :: t in s.starts ==> t < s.armed)
  }

  /** A step changes at most one barrier, by a join or by arming, and starts what that fires. */
  ghost predicate Changes(s: State, s': State, index: nat, b: Barrier, fired: Option<nat>) {
    && index < |s.barriers| && s'.barriers == s.barriers[index := b]
    && s'.starts == (if fired.Some? then s.starts + [fired.value] else s.starts)
  }

  lemma JoinChanges(c: Config, s: State, step: Step, s': State) returns (index: nat)
    requires Next(c, s, step, s') && (step.CodewordDecoded? || step.TxJoinsNext?)
    ensures index < |s.barriers| && s'.armed == s.armed
    ensures Changes(s, s', index, BarrierJoin(s.barriers[index]).0, BarrierJoin(s.barriers[index]).1)
  {
    hide BarrierJoin, FeedbackIndex;
    index := if step.CodewordDecoded? then FeedbackIndex(c, step.n) else (s.starts[s.joined] + 1) % c.barriers;
  }

  lemma ArmChanges(c: Config, s: State, s': State) returns (joins: nat)
    requires Next(c, s, RxArm, s')
    ensures var index := WrappedIndex(c, s.armed);
            var (b, fired) := BarrierUpdate(s.barriers[index], joins, s.armed);
            Changes(s, s', index, b, fired) && s'.armed == s.armed + 1
  {
    hide BarrierUpdate, WrappedIndex;
    joins := s.ring[s.armed % c.slotsPerFrame] + if s.armed == FirstTx(c) then 0 else 1;
  }

  lemma ChangeNamesArmed(s: State, s': State, index: nat, b: Barrier, fired: Option<nat>)
    requires NamesArmed(s) && Changes(s, s', index, b, fired) && s.armed <= s'.armed
    requires b.callback.Some? ==> b.callback.value < s'.armed
    requires fired.Some? ==> fired.value < s'.armed
    ensures NamesArmed(s')
  {
  }

  lemma NextNamesArmed(c: Config, s: State, step: Step, s': State)
    requires NamesArmed(s) && Next(c, s, step, s')
    ensures NamesArmed(s')
  {
    match step
    case RxCount =>
    case RxArm =>
      var joins := ArmChanges(c, s, s');
      var index := WrappedIndex(c, s.armed);
      var (b, fired) := BarrierUpdate(s.barriers[index], joins, s.armed);
      hide Next, WrappedIndex;
      ChangeNamesArmed(s, s', index, b, fired);
    case _ =>
      var index := JoinChanges(c, s, step, s');
      hide Next;
      ChangeNamesArmed(s, s', index, BarrierJoin(s.barriers[index]).0, BarrierJoin(s.barriers[index]).1);
  }

  lemma {:induction false} RunNamesArmed(c: Config, states: seq<State>, steps: seq<Step>, i: nat)
    requires Run(c, states, steps) && i < |states|
    ensures NamesArmed(states[i])
  {
    hide Next;
    if i > 0 {
      RunNamesArmed(c, states, steps, i - 1);
      NextNamesArmed(c, states[i - 1], steps[i - 1], states[i]);
    }
  }

  /** Slot `t` has been armed and not started, and only its own, overrun barrier could start it. */
  ghost predicate Lost(c: Config, s: State, t: nat)
    requires Sized(c, s)
  {
    && t < s.armed && t !in s.starts
    && forall i :: 0 <= i < |s.barriers| && s.barriers[i].callback == Some(t) ==> i == t % c.barriers && Overrun(s.barriers[i])
  }

  lemma ArmingLoses(c: Config, s: State)
    requires ValidConfig(c) && BaseInv(c, s) && NamesArmed(s) && Enabled(c, s, RxArm)
    requires s.barriers[s.armed % c.barriers].completed > JoinsNeeded(c, s.armed)
    ensures Sized(c, RxArmStep(c, s)) && Lost(c, RxArmStep(c, s), s.armed)
  {
    hide RxArmStep, Need, RingInv, DecodersInv, ValidConfig;
    ArmsWithNeed(c, s);
    OverrunNeverFires(s.barriers[s.armed % c.barriers], JoinsNeeded(c, s.armed), s.armed);
  }

  lemma ChangeKeepsLost(c: Config, s: State, s': State, t: nat, index: nat, b: Barrier, fired: Option<nat>)
    requires Sized(c, s) && Lost(c, s, t) && Changes(s, s', index, b, fired) && s.armed <= s'.armed && |s'.ring| == |s.ring|
    requires b.callback == Some(t) ==> index == t % c.barriers && Overrun(b)
    requires fired != Some(t)
    ensures Sized(c, s') && Lost(c, s', t)
  {
    hide Overrun;
  }

  lemma NextKeepsLost(c: Config, s: State, step: Step, s': State, t: nat)
    requires ValidConfig(c) && Next(c, s, step, s') && Lost(c, s, t)
    requires s'.armed <= t + c.barriers
    ensures Sized(c, s') && Lost(c, s', t)
  {
    hide ValidConfig;
    match step
    case RxCount =>
    case RxArm =>
      var joins := ArmChanges(c, s, s');
      var index := WrappedIndex(c, s.armed);
      var (b, fired) := BarrierUpdate(s.barriers[index], joins, s.armed);
      IndexUnwrapped(c, s.armed);
      if index == t % c.barriers {
        CloseResidues(s.armed, t, c.barriers);
      }
      RingKept(c, s, step, s');
      hide Next, WrappedIndex;
      ChangeKeepsLost(c, s, s', t, index, b, fired);
    case _ =>
      var index := JoinChanges(c, s, step, s');
      RingKept(c, s, step, s');
      hide Next;
      ChangeKeepsLost(c, s, s', t, index, BarrierJoin(s.barriers[index]).0, BarrierJoin(s.barriers[index]).1);
  }

  lemma RingKept(c: Config, s: State, step: Step, s': State)
    requires Next(c, s, step, s')
    ensures |s'.ring| == |s.ring|
  {
    hide BarrierJoin, BarrierUpdate, WrappedIndex, FeedbackIndex;
  }

  /**
    A slot that is armed after more joins than it waits for never starts, in any run, until its barrier is armed
    again for the slot one ring later.
  */
  lemma {:induction false} ExcessBeforeArmingLoses(c: Config, states: seq<State>, steps: seq<Step>, i: nat, j: nat)
    requires ValidConfig(c) && Run(c, states, steps) && i < j < |states| && steps[i].RxArm?
    requires states[j].armed <= states[i].armed + c.barriers
    requires Sized(c, states[i])
    requires states[i].barriers[states[i].armed % c.barriers].completed > JoinsNeeded(c, states[i].armed)
    ensures states[i].armed !in states[j].starts
    ensures Sized(c, states[j]) && Lost(c, states[j], states[i].armed)
    decreases j
  {
    hide BaseInv, NamesArmed, RxArmStep, ValidConfig, JoinsNeeded;
    if j == i + 1 {
      RunBase(c, states, steps, i);
      RunNamesArmed(c, states, steps, i);
      ArmingLoses(c, states[i]);
    } else {
      assert Next(c, states[j - 1], steps[j - 1], states[j]);
      ArmedGrows(c, states[j - 1], steps[j - 1], states[j]);
      ExcessBeforeArmingLoses(c, states, steps, i, j - 1);
      NextKeepsLost(c, states[j - 1], steps[j - 1], states[j], states[i].armed);
    }
    hide Lost, Next;
  }

  lemma ArmedGrows(c: Config, s: State, step: Step, s': State)
    requires Next(c, s, step, s')
    ensures s.armed <= s'.armed
  {
    hide BarrierJoin, BarrierUpdate, WrappedIndex, FeedbackIndex;
  }

  /** Joins one after the other. */
  function AfterJoins(b: Barrier, k: nat): (Barrier, Option<nat>)
    requires k > 0
  {
    if k == 1 then BarrierJoin(b) else BarrierJoin(AfterJoins(b, k - 1).0)
  }

  /**
    When that later slot finds its joins complete it starts at once, but leaves the old callback in place: the lost
    slot starts after as many more joins as it once waited for.
  */
  lemma {:induction false} StaleCallbackFires(b: Barrier, later: nat, k: nat)
    requires b.callback.Some? && 0 < k <= b.maxJoins
    ensures var (b1, fired) := BarrierUpdate(b, b.completed, later);
            && fired == Some(later)
            && AfterJoins(b1, k).1 == (if k == b.maxJoins then b.callback else None)
            && (k < b.maxJoins ==> AfterJoins(b1, k).0 == b.(completed := k))
    decreases k
  {
    if k > 1 {
      StaleCallbackFires(b, later, k - 1);
    }
  }

  /** With two codewords decoded and slot 3 joined before slot 4 is armed for two joins, slot 4 is lost. */
  lemma TwoCodewordsLoseSlot() returns (s: State)
    ensures ValidConfig(TwoCodewords()) && Reachable(TwoCodewords(), s) && Sized(TwoCodewords(), s)
    ensures s.starts == [3] && s.armed == 5 && s.barriers[4] == Barrier(3, 2, Some(4))
  {
    var c := TwoCodewords();
    hide Reachable;
    var early := TwoCodewordsEarly();
    assert WrappedIndex(c, 4) == 4;
    s := RxArmStep(c, early);
    ReachNext(c, early, RxArm, s);
  }

  lemma TwoCodewordsEarly() returns (s: State)
    ensures ValidConfig(TwoCodewords()) && Reachable(TwoCodewords(), s) && Sized(TwoCodewords(), s)
    ensures s.starts == [3] && s.received == 2 && s.armed == 4 && s.ring[4] == 1
    ensures s.barriers[4] == Barrier(3, 0, None)
  {
    s := TwoCodewordsJoined();
    s := EarlyCodeword(s, 0);
    s := EarlyCodeword(s, 1);
  }

  /** Slot 3 has joined and slot 1 has been received. */
  lemma TwoCodewordsJoined() returns (s: State)
    ensures ValidConfig(TwoCodewords()) && Reachable(TwoCodewords(), s) && EarlyState(s, 0)
  {
    var c := TwoCodewords();
    hide Reachable;
    var s1 := FirstSlotStarted();
    var s2 := TxJoinsNextStep(c, s1);
    assert s2 == s1.(joined := 1, barriers := s1.barriers[4 := Barrier(1, 0, None)]);
    ReachNext(c, s1, TxJoinsNext, s2);
    s := RxCountStep(c, s2);
    ReachNext(c, s2, RxCount, s);
  }

  ghost predicate EarlyState(s: State, codewords: nat) {
    && Sized(TwoCodewords(), s) && s.starts == [3] && s.received == 2 && s.armed == 4 && s.ring[4] == 1
    && s.decoded[1] == codewords && s.barriers[4] == Barrier(codewords + 1, 0, None)
  }

  lemma EarlyCodeword(s: State, codewords: nat) returns (s': State)
    requires Reachable(TwoCodewords(), s) && EarlyState(s, codewords) && codewords < 2
    ensures Reachable(TwoCodewords(), s') && EarlyState(s', codewords + 1)
  {
    var c := TwoCodewords();
    hide Reachable;
    assert FeedbackIndex(c, 1) == 4;
    s' := CodewordDecodedStep(c, s, 1);
    ReachNext(c, s, CodewordDecoded(1), s');
  }
}
