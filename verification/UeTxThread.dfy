/**
  The transmit chain of the NR UE as it runs: counters and barriers updated in place
  (executables/nr-ue.c, common/utils/barrier/barrier.c), proved to make the steps of `UeTxChain`.
*/
module UeTxThread {
  import opened Options
  import opened UeTxChain

  /** Updated under its lock; `fired` is the callback argument, if the callback ran. */
  class DynamicBarrier {
    var completed: int
    var maxJoins: int
    var callback: Option<nat>

    ghost function View(): Barrier
      reads this
    {
      Barrier(completed, maxJoins, callback)
    }

    constructor ()
      ensures View() == NEW_BARRIER
    {
      completed, maxJoins, callback := 0, 0, None;
    }

    method Join() returns (fired: Option<nat>)
      modifies this
      ensures (View(), fired) == BarrierJoin(old(View()))
    {
      fired := None;
      completed := completed + 1;
      if callback.Some? {
        if completed == maxJoins {
          completed := 0;
          fired := callback;
          callback := None;
        }
      }
    }

    method Update(joins: int, arg: nat) returns (fired: Option<nat>)
      modifies this
      ensures (View(), fired) == BarrierUpdate(old(View()), joins, arg)
    {
      fired := None;
      if completed == joins {
        completed := 0;
        fired := Some(arg);
      } else {
        maxJoins := joins;
        callback := Some(arg);
      }
    }
  }

  class TxChain {
    const c: Config
    const txWaitForDlsch: array<nat>
    const barriers: seq<DynamicBarrier>
    var received: nat
    var armed: nat
    var starts: seq<nat>
    var joined: nat
    ghost var views: seq<Barrier>
    ghost var decoded: multiset<nat>
    ghost var joins: multiset<nat>

    /** `views` are the states of the barriers, which are all different objects. */
    ghost predicate Valid()
      reads this, barriers
    {
      && c.slotsPerFrame > 0 && c.barriers > 0
      && txWaitForDlsch.Length == c.slotsPerFrame && |barriers| == |views| == c.barriers
      && (forall i :: 0 <= i < |barriers| ==> barriers[i].View() == views[i])
      && (forall i, j :: 0 <= i < j < |barriers| ==> barriers[i] != barriers[j])
    }

    ghost function View(): State
      reads this, txWaitForDlsch
    {
      State(received, armed, txWaitForDlsch[..], views, starts, joined, decoded, joins)
    }

    /** The state after a synchronization: counters cleared, barriers reset. */
    constructor (c: Config)
      requires c.slotsPerFrame > 0 && c.barriers > 0
      ensures Valid() && this.c == c && View() == Init(c)
      ensures fresh(txWaitForDlsch) && forall i :: 0 <= i < |barriers| ==> fresh(barriers[i])
    {
      this.c := c;
      var ring := new nat[c.slotsPerFrame](_ => 0);
      txWaitForDlsch := ring;
      var objects: seq<DynamicBarrier> := [];
      while |objects| < c.barriers
        invariant |objects| <= c.barriers
        invariant forall i :: 0 <= i < |objects| ==> fresh(objects[i]) && objects[i].View() == NEW_BARRIER
        invariant forall i, j :: 0 <= i < j < |objects| ==> objects[i] != objects[j]
        invariant ring[..] == seq(c.slotsPerFrame, _ => 0)
        decreases c.barriers - |objects|
      {
        var b := new DynamicBarrier();
        objects := objects + [b];
      }
      barriers := objects;
      received, armed, starts, joined := c.firstRx, FirstTx(c), [], 0;
      views, decoded, joins := seq(c.barriers, _ => NEW_BARRIER), multiset{}, multiset{};
    }

    /** Preprocessing of a received slot. */
    method CountDlsch()
      requires Valid()
      modifies this`received, txWaitForDlsch
      ensures Valid() && View() == RxCountStep(c, old(View()))
    {
      var k1 := c.traffic(received).k1;
      if k1 != 0 {
        var ackNackSlot := (received % c.slotsPerFrame + k1) % c.slotsPerFrame;
        txWaitForDlsch[ackNackSlot] := txWaitForDlsch[ackNackSlot] + 1;
      }
      received := received + 1;
    }

    /** A join of barrier `index`, which may start a transmit job. */
    method JoinBarrier(index: nat)
      requires Valid() && index < c.barriers
      modifies this`starts, this`views, barriers
      ensures Valid()
      ensures var (b, fired) := BarrierJoin(old(views)[index]);
              View() == Started(old(View()).(barriers := old(views)[index := b]), fired)
    {
      var fired := barriers[index].Join();
      views := views[index := BarrierJoin(views[index]).0];
      if fired.Some? {
        starts := starts + [fired.value];
      }
    }

    method UpdateBarrier(index: nat, joinsNeeded: nat, slot: nat)
      requires Valid() && index < c.barriers
      modifies this`starts, this`views, barriers
      ensures Valid()
      ensures var (b, fired) := BarrierUpdate(old(views)[index], joinsNeeded, slot);
              View() == Started(old(View()).(barriers := old(views)[index := b]), fired)
    {
      var fired := barriers[index].Update(joinsNeeded, slot);
      views := views[index := BarrierUpdate(views[index], joinsNeeded, slot).0];
      if fired.Some? {
        starts := starts + [fired.value];
      }
    }

    /** End of the slot loop: arm the transmit slot and clear its counter. */
    method Arm()
      requires Valid()
      modifies this`armed, this`starts, this`views, txWaitForDlsch, barriers
      ensures Valid() && View() == RxArmStep(c, old(View()))
    {
      hide BarrierUpdate, WrappedIndex, Started, RxArmStep;
      ArmSplit(c, View());
      var slot := armed % c.slotsPerFrame;
      var waitForPrev := if armed == FirstTx(c) then 0 else 1;
      ghost var before := View();
      UpdateBarrier(WrappedIndex(c, armed), txWaitForDlsch[slot] + waitForPrev, armed);
      ghost var after := View();
      txWaitForDlsch[slot] := 0;
      armed := armed + 1;
      assert txWaitForDlsch[..] == before.ring[slot := 0];
      assert View() == after.(ring := before.ring[slot := 0], armed := before.armed + 1);
    }

    /** A codeword of the DLSCH of slot `n` has been decoded. */
    method CodewordDone(n: nat)
      requires Valid()
      modifies this`starts, this`views, this`decoded, this`joins, barriers
      ensures Valid() && View() == CodewordDecodedStep(c, old(View()), n)
    {
      hide BarrierJoin;
      JoinBarrier(FeedbackIndex(c, n));
      decoded := decoded + multiset{n};
      joins := joins + multiset{Feedback(c, n)};
    }

    /** The oldest job that has not joined yet joins the barrier of the slot after its own. */
    method JobJoins()
      requires Valid() && joined < |starts|
      modifies this`starts, this`views, this`joined, barriers
      ensures Valid() && View() == TxJoinsNextStep(c, old(View()))
    {
      hide BarrierJoin;
      JoinBarrier((starts[joined] + 1) % c.barriers);
      joined := joined + 1;
    }
  }

  /** Arming is updating the barrier, then clearing the counter. */
  lemma ArmSplit(c: Config, s: State)
    requires Sized(c, s)
    ensures var slot, index := s.armed % c.slotsPerFrame, WrappedIndex(c, s.armed);
            var (b, fired) := BarrierUpdate(s.barriers[index], s.ring[slot] + (if s.armed == FirstTx(c) then 0 else 1), s.armed);
            RxArmStep(c, s) == Started(s.(barriers := s.barriers[index := b]), fired)
                               .(ring := s.ring[slot := 0], armed := s.armed + 1)
  {
    hide BarrierUpdate, WrappedIndex;
  }
}
