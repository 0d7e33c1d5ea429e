/**
  For which downlink traffic the transmit slots of the NR UE start in order, and none is lost
  (executables/nr-ue.c, openair1/SCHED_NR_UE/phy_procedures_nr_ue.c), over every interleaving of
  the transition system of `UeTxChain`.
*/
module UeTxOrder {
  import opened Arith
  import opened Options
  import opened UeTxChain

  // ---- What a run should do ----

  /** A step starts at most one slot: the next one, armed, with the previous slot joined and all its codewords decoded. */
  ghost predicate Orderly(c: Config, s: State, s': State) {
    || s'.starts == s.starts
    || var t := NextStart(c, s);
       && s'.starts == s.starts + [t]
       && t < s'.armed
       && s'.joined == |s.starts|
       && s'.joins[t] == Gift(c, t)
  }

  /** An armed slot that has not started still misses a codeword or the previous slot; else it would never start. */
  ghost predicate Live(c: Config, s: State) {
    var t := NextStart(c, s);
    t < s.armed ==> s.joins[t] < Gift(c, t) || s.joined < |s.starts|
  }

  ghost predicate Reachable(c: Config, s: State) {
    exists states, steps :: Run(c, states, steps) && states[|steps|] == s
  }

  ghost predicate EveryRunOrderly(c: Config) {
    forall s :: Reachable(c, s) ==>
      Live(c, s) && forall step, s' :: Next(c, s, step, s') ==> Orderly(c, s, s')
  }

  /** The decoders join every transmit slot exactly as often as the ring counted DLSCHs for it. */
  ghost predicate Balanced(c: Config)
    requires c.slotsPerFrame > 0
  {
    forall t: nat :: Gift(c, t) == Need(c, t)
  }

  // ---- Balanced traffic: every run is in order ----

  lemma BalancedNoExcess(c: Config, s: State)
    requires BaseInv(c, s) && Balanced(c)
    ensures NoExcess(c, s)
  {
    hide Need, Gift, RingInv;
    forall t: nat ensures s.joins[t] <= Need(c, t) {
      MadeAtMostGiven(c, s.decoded, t, s.received);
      GivenFinal(c, t, s.received);
    }
  }

  lemma BalancedRun(c: Config, states: seq<State>, steps: seq<Step>, i: nat)
    requires ValidConfig(c) && Balanced(c) && Run(c, states, steps) && i < |states|
    ensures BaseInv(c, states[i]) && Inv(c, states[i])
  {
    hide Inv, BaseInv, Next, NoExcess, Balanced;
    forall k | 0 <= k <= i ensures NoExcess(c, states[k]) {
      RunBase(c, states, steps, k);
      BalancedNoExcess(c, states[k]);
    }
    RunBase(c, states, steps, i);
    RunInv(c, states, steps, i);
  }

  /**
    With balanced traffic, in every interleaving transmit slots start exactly once, in order, without
    a hole; a slot starts only after it was armed, the previous slot joined and every codeword with
    feedback on it was decoded.
  */
  lemma StartsInOrder(c: Config, states: seq<State>, steps: seq<Step>, i: nat)
    requires ValidConfig(c) && Balanced(c) && Run(c, states, steps) && i < |steps|
    ensures Consecutive(c, states[i + 1].starts) && Orderly(c, states[i], states[i + 1])
  {
    hide BaseInv, BarriersInv, Next, Need, Gift;
    BalancedRun(c, states, steps, i);
    BalancedRun(c, states, steps, i + 1);
    NextKeepsInv(c, states[i], steps[i], states[i + 1]);
  }

  /** No start is lost: an armed slot that has not started still misses a codeword or the previous slot. */
  lemma NoLostStart(c: Config, states: seq<State>, steps: seq<Step>, i: nat)
    requires ValidConfig(c) && Balanced(c) && Run(c, states, steps) && i < |states|
    ensures Live(c, states[i])
  {
    hide Need, Gift, BaseInv;
    BalancedRun(c, states, steps, i);
    if NextStart(c, states[i]) < states[i].armed {
      StillMissing(c, states[i]);
    }
  }

  lemma StillMissing(c: Config, s: State)
    requires Inv(c, s) && NextStart(c, s) < s.armed
    ensures s.joins[NextStart(c, s)] < Need(c, NextStart(c, s)) || s.joined < |s.starts|
  {
    hide Need;
    var t := NextStart(c, s);
    assert Serves(c, s, s.barriers[t % c.barriers], t);
  }

  /**
    The chain never gets stuck: an armed slot that has not started can always be brought forward by
    a decoder or the previous transmit job, and otherwise the slot loop can go on.
  */
  lemma NeverStuck(c: Config, states: seq<State>, steps: seq<Step>, i: nat)
    requires ValidConfig(c) && Balanced(c) && OffsetsAsserted(c) && Run(c, states, steps) && i < |states|
    ensures var s := states[i];
            if NextStart(c, s) < s.armed then
              Enabled(c, s, TxJoinsNext) || exists n :: Enabled(c, s, CodewordDecoded(n)) && Feedback(c, n) == NextStart(c, s)
            else Enabled(c, s, RxCount) || Enabled(c, s, RxArm)
  {
    var s, t := states[i], NextStart(c, states[i]);
    hide Need, Gift, RingInv, BarriersInv, JoinsInv;
    BalancedRun(c, states, steps, i);
    if t < s.armed {
      NoLostStart(c, states, steps, i);
      if s.joins[t] < Gift(c, t) {
        var n := CodewordEnabled(c, s, t);
      }
    }
  }

  /** A codeword of an armed slot that is not decoded yet can be. */
  lemma CodewordEnabled(c: Config, s: State, t: nat) returns (n: nat)
    requires BaseInv(c, s) && OffsetsAsserted(c) && c.barriers > 0
    requires t == NextStart(c, s) < s.armed && s.joins[t] < Gift(c, t)
    ensures Enabled(c, s, CodewordDecoded(n)) && Feedback(c, n) == t
  {
    hide RingInv, Gift;
    GivenFinal(c, t, s.received);
    n := SomeCodewordLeft(c, s.decoded, t, s.received);
  }

  // ---- How long the next start can take ----

  /** All codewords of the slots before `n`. */
  ghost function Codewords(c: Config, n: nat): nat {
    if n == 0 then 0 else Codewords(c, n - 1) + c.traffic(n - 1).codewords
  }

  lemma {:induction false} CodewordsMonotone(c: Config, n: nat, m: nat)
    requires n <= m
    ensures Codewords(c, n) <= Codewords(c, m)
    decreases m
  {
    if n < m {
      CodewordsMonotone(c, n, m - 1);
    }
  }

  lemma {:induction false} DecodedWithinCodewords(c: Config, decoded: multiset<nat>, n: nat)
    requires WithinCodewords(c, decoded) && forall m: nat :: m >= n ==> decoded[m] == 0
    ensures |decoded| <= Codewords(c, n)
  {
    if n == 0 {
      assert decoded == multiset{};
    } else {
      var rest := decoded[n - 1 := 0];
      assert decoded == rest + multiset{}[n - 1 := decoded[n - 1]];
      DecodedWithinCodewords(c, rest, n - 1);
    }
  }

  /** Slots and codewords that can be handled until `starts` grows, and the join of the last started job. */
  ghost function Rank(c: Config, s: State): int {
    var ahead := NextStart(c, s) + c.barriers;
    (ahead - s.armed) + (ahead + 1 - s.received - c.duration) + (Codewords(c, ahead + 1) - |s.decoded|)
    + (|s.starts| - s.joined)
  }

  lemma RankNotNegative(c: Config, s: State)
    requires BaseInv(c, s) && Inv(c, s)
    ensures Rank(c, s) >= 0
  {
    hide RingInv, JoinsInv, BarriersInv;
    DecodedWithinCodewords(c, s.decoded, s.received);
    CodewordsMonotone(c, s.received, NextStart(c, s) + c.barriers + 1);
  }

  /** Every step that starts no slot uses up one unit. */
  lemma StepLowersRank(c: Config, s: State, step: Step, s': State)
    requires Next(c, s, step, s') && s'.starts == s.starts
    ensures Rank(c, s') == Rank(c, s) - 1
  {
    hide BarrierJoin, BarrierUpdate, WrappedIndex, FeedbackIndex, Codewords;
  }

  lemma {:induction false} StartsGrow(c: Config, states: seq<State>, steps: seq<Step>, i: nat, j: nat)
    requires Run(c, states, steps) && i <= j < |states|
    ensures |states[i].starts| <= |states[j].starts|
    ensures |states[i].starts| == |states[j].starts| ==> states[i].starts == states[j].starts
    decreases j
  {
    hide Init;
    if i < j {
      StartsGrow(c, states, steps, i, j - 1);
      assert Next(c, states[j - 1], steps[j - 1], states[j]);
      hide BarrierJoin, BarrierUpdate, WrappedIndex, FeedbackIndex;
    }
  }

  /**
    In every interleaving, from any state, at most `Rank` steps happen before the next slot starts; and until it
    does some step is enabled (NeverStuck).
  */
  lemma {:induction false} NextStartWithinRank(c: Config, states: seq<State>, steps: seq<Step>, i: nat, j: nat)
    requires ValidConfig(c) && Balanced(c) && Run(c, states, steps) && i <= j < |states|
    requires states[j].starts == states[i].starts
    ensures Rank(c, states[j]) == Rank(c, states[i]) - (j - i)
    ensures j - i <= Rank(c, states[i])
    decreases j
  {
    hide Rank, Inv, BaseInv, Balanced, Init, Next;
    if i < j {
      StartsGrow(c, states, steps, i, j - 1);
      StartsGrow(c, states, steps, j - 1, j);
      NextStartWithinRank(c, states, steps, i, j - 1);
      StepLowersRank(c, states[j - 1], steps[j - 1], states[j]);
    }
    BalancedRun(c, states, steps, j);
    RankNotNegative(c, states[j]);
  }

  // ---- Unbalanced traffic: some run is not ----

  lemma ReachInit(c: Config)
    ensures Reachable(c, Init(c))
  {
    assert Run(c, [Init(c)], []);
  }

  lemma ReachNext(c: Config, s: State, step: Step, s': State)
    requires Reachable(c, s) && Next(c, s, step, s')
    ensures Reachable(c, s')
  {
    hide Next;
    var states, steps :| Run(c, states, steps) && states[|steps|] == s;
    var states', steps' := states + [s'], steps + [step];
    forall i | 0 <= i < |steps'| ensures Next(c, states'[i], steps'[i], states'[i + 1]) {
      if i < |steps| {
        assert Next(c, states[i], steps[i], states[i + 1]);
      }
    }
    assert Run(c, states', steps');
  }

  lemma ReachableBase(c: Config, s: State)
    requires c.slotsPerFrame > 0 && c.barriers > 0 && Reachable(c, s)
    ensures BaseInv(c, s)
  {
    hide BaseInv;
    var states, steps :| Run(c, states, steps) && states[|steps|] == s;
    RunBase(c, states, steps, |steps|);
  }

  /** All slots below `t` have started, the last of them has not joined yet, and `t` is the next one to receive for. */
  ghost predicate Poised(c: Config, s: State, t: nat) {
    && Reachable(c, s) && Inv(c, s)
    && s.received + c.duration == s.armed == t == NextStart(c, s)
    && s.joined == (if t == FirstTx(c) then 0 else |s.starts| - 1)
    && (forall u: nat :: u >= t ==> s.joins[u] == 0)
  }

  /** Slot `t` has been armed on top of that, and nothing has been joined for later slots. */
  ghost predicate Pending(c: Config, s: State, t: nat) {
    && Reachable(c, s) && Inv(c, s)
    && s.received + c.duration == s.armed == t + 1
    && (forall u: nat :: u > t ==> s.joins[u] == 0)
  }

  /** One step of an orderly run that makes no excess join. */
  lemma Proceed(c: Config, s: State, step: Step, s': State)
    requires ValidConfig(c) && EveryRunOrderly(c) && Reachable(c, s) && Inv(c, s)
    requires Next(c, s, step, s') && NoExcess(c, s')
    ensures Reachable(c, s') && Inv(c, s') && Live(c, s') && Orderly(c, s, s') && StartsWhenCounted(c, s, s')
  {
    hide Inv, Next, Orderly, StartsWhenCounted, Live, NoExcess, BaseInv;
    ReachNext(c, s, step, s');
    ReachableBase(c, s);
    NextKeepsInv(c, s, step, s');
  }

  /** One more join than the slot was armed for, before the previous slot has joined, starts it too early. */
  lemma ExcessStartsEarly(c: Config, s: State, n: nat)
    requires Inv(c, s) && Feedback(c, n) == NextStart(c, s) < s.armed
    requires FirstTx(c) < NextStart(c, s) && s.joined < |s.starts|
    requires s.joins[NextStart(c, s)] == Need(c, NextStart(c, s))
    ensures !Orderly(c, s, CodewordDecodedStep(c, s, n))
  {
    hide Need, Gift, JoinsInv, FeedbackIndex;
    IndexUnwrapped(c, n);
    var t := NextStart(c, s);
    assert Serves(c, s, s.barriers[t % c.barriers], t);
  }

  /** Decode all codewords of the slot armed last, until it starts. */
  lemma {:induction false} Drain(c: Config, s: State, t: nat) returns (s': State)
    requires ValidConfig(c) && OffsetsAsserted(c) && EveryRunOrderly(c)
    requires Pending(c, s, t) && NextStart(c, s) == t && s.joined == (if t == FirstTx(c) then 0 else |s.starts| - 1)
    ensures Pending(c, s', t)
    ensures if s'.starts == s.starts then s'.joined == s.joined && s'.joins[t] == Gift(c, t)
            else NextStart(c, s') == t + 1 && s'.joined == |s.starts| && s'.joins[t] == Gift(c, t) == Need(c, t)
    decreases Gift(c, t) - s.joins[t]
  {
    hide Need, Gift, Inv, Live, BaseInv;
    ReachableBase(c, s);
    JoinsAtMostGift(c, s, t);
    s' := s;
    if s.joins[t] < Gift(c, t) {
      var n := CodewordEnabled(c, s, t);
      InvFacts(c, s);
      var s1 := CodewordDecodedStep(c, s, n);
      assert Next(c, s, CodewordDecoded(n), s1);
      DecodedEffect(c, s, n);
      if s.joins[t] == Need(c, t) {
        StillMissing(c, s);
        ExcessStartsEarly(c, s, n);
      }
      Proceed(c, s, CodewordDecoded(n), s1);
      s' := s1;
      if s1.starts == s.starts {
        s' := Drain(c, s1, t);
      }
    }
  }

  lemma JoinsAtMostGift(c: Config, s: State, t: nat)
    requires BaseInv(c, s)
    ensures s.joins[t] <= Gift(c, t)
  {
    hide Gift, RingInv;
    MadeAtMostGiven(c, s.decoded, t, s.received);
    GivenFinal(c, t, s.received);
  }

  lemma InvFacts(c: Config, s: State)
    requires Inv(c, s)
    ensures ValidConfig(c) && Sized(c, s) && StartsInv(c, s) && NoExcess(c, s)
  {
  }

  lemma DecodedEffect(c: Config, s: State, n: nat)
    requires Sized(c, s)
    ensures var s', t := CodewordDecodedStep(c, s, n), Feedback(c, n);
            && s'.received == s.received && s'.armed == s.armed && s'.joined == s.joined
            && forall u: nat :: s'.joins[u] == s.joins[u] + if u == t then 1 else 0
  {
    hide BarrierJoin, FeedbackIndex;
  }

  /** Receive for slot `t` and arm it. */
  lemma ArmPoised(c: Config, s: State, t: nat) returns (s': State)
    requires ValidConfig(c) && EveryRunOrderly(c) && Poised(c, s, t)
    ensures Pending(c, s', t) && s'.joined == s.joined && s'.joins == s.joins
    ensures if s'.starts == s.starts then true
            else NextStart(c, s') == t + 1 && s.joined == |s.starts| && Gift(c, t) == 0 == Need(c, t)
  {
    hide Need, Gift, Inv, Live, BarrierUpdate, WrappedIndex;
    InvFacts(c, s);
    var s1 := RxCountStep(c, s);
    assert Next(c, s, RxCount, s1);
    Proceed(c, s, RxCount, s1);
    s' := RxArmStep(c, s1);
    assert Next(c, s1, RxArm, s');
    Proceed(c, s1, RxArm, s');
  }

  /** If every run is orderly, slot `t` is balanced and the next slot can be poised. */
  lemma PassSlot(c: Config, s: State, t: nat) returns (s': State)
    requires ValidConfig(c) && OffsetsAsserted(c) && EveryRunOrderly(c) && Poised(c, s, t)
    ensures Gift(c, t) == Need(c, t) && Poised(c, s', t + 1)
  {
    hide Need, Gift, Inv, Orderly, StartsWhenCounted, EveryRunOrderly;
    InvFacts(c, s);
    s' := ArmPoised(c, s, t);
    if s'.starts == s.starts {
      s' := Drain(c, s', t);
      if s'.starts == s.starts {
        s' := JoinPending(c, s', t);
      }
    }
  }

  /** With all codewords decoded, the join of the previous slot starts the slot. */
  lemma JoinPending(c: Config, s: State, t: nat) returns (s': State)
    requires ValidConfig(c) && EveryRunOrderly(c) && Pending(c, s, t) && NextStart(c, s) == t
    requires s.joined == (if t == FirstTx(c) then 0 else |s.starts| - 1) && s.joins[t] == Gift(c, t)
    ensures Gift(c, t) == Need(c, t) && Pending(c, s', t) && NextStart(c, s') == t + 1 && s'.joined == |s'.starts| - 1
  {
    hide Need, Gift, Inv, Next, BarrierJoin;
    InvFacts(c, s);
    assert Live(c, s);
    s' := TxJoinsNextStep(c, s);
    assert Next(c, s, TxJoinsNext, s') by {
      TxEnabled(c, s);
    }
    Proceed(c, s, TxJoinsNext, s');
  }

  lemma TxEnabled(c: Config, s: State)
    requires Sized(c, s) && s.joined < |s.starts|
    ensures Next(c, s, TxJoinsNext, TxJoinsNextStep(c, s))
  {
  }

  lemma {:induction false} ReachPoised(c: Config, t: nat) returns (s: State)
    requires ValidConfig(c) && OffsetsAsserted(c) && EveryRunOrderly(c) && t >= FirstTx(c)
    ensures Poised(c, s, t)
    decreases t
  {
    hide Inv, EveryRunOrderly;
    if t == FirstTx(c) {
      s := Init(c);
      ReachInit(c);
      InitInv(c);
    } else {
      s := ReachPoised(c, t - 1);
      s := PassSlot(c, s, t - 1);
    }
  }

  /**
    The exact condition: every interleaving starts its slots in order and loses none if and only if the
    decoders join every slot as often as the ring counted DLSCHs for it.
  */
  lemma OrderlyIffBalanced(c: Config)
    requires ValidConfig(c) && OffsetsAsserted(c)
    ensures EveryRunOrderly(c) <==> Balanced(c)
  {
    hide Need, Gift, Orderly, Live, Poised, Next;
    if EveryRunOrderly(c) {
      forall t: nat ensures Gift(c, t) == Need(c, t) {
        if t >= FirstTx(c) {
          var s := ReachPoised(c, t);
          s := PassSlot(c, s, t);
        } else {
          NothingBefore(c, t);
        }
      }
    }
    if Balanced(c) {
      forall s | Reachable(c, s)
        ensures Live(c, s) && forall step, s' :: Next(c, s, step, s') ==> Orderly(c, s, s')
      {
        BalancedReachable(c, s);
      }
    }
  }

  lemma NothingBefore(c: Config, t: nat)
    requires c.slotsPerFrame > 0 && OffsetsAsserted(c) && t < FirstTx(c)
    ensures Gift(c, t) == 0 == Need(c, t)
  {
    CountedOutside(c, t, t + 1);
    GivenBefore(c, t, t + 1);
  }

  lemma {:induction false} GivenBefore(c: Config, t: nat, n: nat)
    requires OffsetsAsserted(c) && t < FirstTx(c)
    ensures Given(c, t, n) == 0
  {
    if n > 0 {
      GivenBefore(c, t, n - 1);
    }
  }

  lemma BalancedReachable(c: Config, s: State)
    requires ValidConfig(c) && Balanced(c) && Reachable(c, s)
    ensures Live(c, s) && forall step, s' :: Next(c, s, step, s') ==> Orderly(c, s, s')
  {
    hide Orderly, Live, Balanced;
    var states, steps :| Run(c, states, steps) && states[|steps|] == s;
    NoLostStart(c, states, steps, |steps|);
    forall step, s' | Next(c, s, step, s') ensures Orderly(c, s, s') {
      var states', steps' := states + [s'], steps + [step];
      assert Run(c, states', steps') by {
        hide Next;
      }
      StartsInOrder(c, states', steps', |steps|);
    }
  }

  // ---- What balanced means ----

  lemma CountedAtFeedbackIff(c: Config, n: nat)
    requires c.slotsPerFrame > 0
    ensures CountedSlot(c, n) == Feedback(c, n)
       <==> c.duration <= c.traffic(n).k1 < c.duration + c.slotsPerFrame
    ensures c.traffic(n).k1 >= c.duration ==> CountedSlot(c, n) <= Feedback(c, n)
  {
    var x, d := c.traffic(n).k1 - c.duration, c.slotsPerFrame;
    DivMod(x, d);
    if 0 <= x < d {
      DivModUnique(x, d, 0, x);
    } else if x >= d {
      MulMonotone(0, x / d, d);
    }
  }

  lemma {:induction false} WithinFrameCounts(c: Config, t: nat, n: nat)
    requires c.slotsPerFrame > 0 && OffsetsAsserted(c) && OffsetsWithinFrame(c)
    ensures Counted(c, t, n) == FeedbackCount(c, t, n)
  {
    if n > 0 {
      WithinFrameCounts(c, t, n - 1);
      CountedAtFeedbackIff(c, n - 1);
    }
  }

  /** Unless some DLSCH has its feedback on `t` but is counted elsewhere, `m` makes the count for `t` too high. */
  lemma {:induction false} TooManyCounted(c: Config, t: nat, n: nat, m: nat)
    requires c.slotsPerFrame > 0
    requires forall k: nat :: k < n && HasFeedback(c, k) && Feedback(c, k) == t ==> CountedSlot(c, k) == t
    ensures Counted(c, t, n) >= FeedbackCount(c, t, n)
    ensures m < n && HasFeedback(c, m) && CountedSlot(c, m) == t != Feedback(c, m)
            ==> Counted(c, t, n) > FeedbackCount(c, t, n)
  {
    if n > 0 {
      TooManyCounted(c, t, n - 1, m);
    }
  }

  /** A DLSCH counted away from its feedback slot makes some count wrong, at that slot or an earlier one. */
  lemma {:induction false} MiscountAt(c: Config, m: nat) returns (t: nat)
    requires c.slotsPerFrame > 0 && OffsetsAsserted(c) && HasFeedback(c, m) && CountedSlot(c, m) != Feedback(c, m)
    ensures Need(c, t) != FeedbackCount(c, t, t + 1)
    decreases CountedSlot(c, m)
  {
    t := CountedSlot(c, m);
    if k: nat :| k < t + 1 && HasFeedback(c, k) && Feedback(c, k) == t && CountedSlot(c, k) != t {
      CountedAtFeedbackIff(c, k);
      t := MiscountAt(c, k);
    } else {
      TooManyCounted(c, t, t + 1, m);
    }
  }

  /**
    The ring counts every DLSCH for its feedback slot, so that the counter used for slot t is the number of
    DLSCHs with feedback on t, exactly when all offsets lie within one frame from the duration on.
  */
  lemma FeedbackWindowIff(c: Config)
    requires c.slotsPerFrame > 0 && OffsetsAsserted(c)
    ensures (forall t: nat :: Need(c, t) == FeedbackCount(c, t, t + 1)) <==> OffsetsWithinFrame(c)
  {
    if OffsetsWithinFrame(c) {
      forall t: nat ensures Need(c, t) == FeedbackCount(c, t, t + 1) {
        WithinFrameCounts(c, t, t + 1);
      }
    } else {
      var n: nat :| HasFeedback(c, n) && c.traffic(n).k1 >= c.duration + c.slotsPerFrame;
      CountedAtFeedbackIff(c, n);
      var t := MiscountAt(c, n);
    }
  }

  lemma {:induction false} OneJoinGiven(c: Config, t: nat, n: nat)
    requires forall k: nat :: HasFeedback(c, k) ==> c.traffic(k).codewords >= 1
    ensures Given(c, t, n) >= FeedbackCount(c, t, n)
    ensures Given(c, t, n) == FeedbackCount(c, t, n) <==>
              forall k: nat :: k < n && HasFeedback(c, k) && Feedback(c, k) == t ==> c.traffic(k).codewords == 1
  {
    if n > 0 {
      OneJoinGiven(c, t, n - 1);
    }
  }

  /** With offsets within a frame, every run is orderly exactly when every counted DLSCH makes one join. */
  lemma OneJoinIff(c: Config)
    requires ValidConfig(c) && OffsetsAsserted(c) && OffsetsWithinFrame(c)
    requires forall n: nat :: HasFeedback(c, n) ==> c.traffic(n).codewords >= 1
    ensures EveryRunOrderly(c) <==> OneJoinEach(c)
  {
    hide EveryRunOrderly, Counted;
    OrderlyIffBalanced(c);
    FeedbackWindowIff(c);
    forall t: nat ensures Gift(c, t) == Need(c, t) <==>
                            forall k: nat :: k < t + 1 && HasFeedback(c, k) && Feedback(c, k) == t ==> c.traffic(k).codewords == 1
    {
      OneJoinGiven(c, t, t + 1);
    }
    if Balanced(c) {
      forall n: nat | HasFeedback(c, n) ensures c.traffic(n).codewords == 1 {
        assert Gift(c, Feedback(c, n)) == Need(c, Feedback(c, n));
      }
    }
  }

  /** With one join each, every run is orderly exactly when all offsets lie within a frame. */
  lemma WithinFrameIff(c: Config)
    requires ValidConfig(c) && OffsetsAsserted(c) && OneJoinEach(c)
    ensures EveryRunOrderly(c) <==> OffsetsWithinFrame(c)
  {
    hide EveryRunOrderly, Counted;
    OrderlyIffBalanced(c);
    FeedbackWindowIff(c);
    forall t: nat ensures Gift(c, t) == FeedbackCount(c, t, t + 1) {
      OneJoinGiven(c, t, t + 1);
    }
  }

  // ---- Runs that fail ----

  /** Slot 1 carries a DLSCH of two codewords with feedback on slot 4. */
  function TwoCodewords(): Config {
    Config(10, 512, 3, 0, n => if n == 1 then Dlsch(3, 2) else Dlsch(0, 0))
  }

  /** Slot 0 has been received; slot 3 waits for nothing and has started. */
  lemma FirstSlotStarted() returns (s: State)
    ensures ValidConfig(TwoCodewords()) && Reachable(TwoCodewords(), s) && Sized(TwoCodewords(), s)
    ensures s == Init(TwoCodewords()).(received := 1, armed := 4, starts := [3])
  {
    var c := TwoCodewords();
    hide Reachable;
    ReachInit(c);
    s := ReceiveSlot(c, Init(c));
    assert s.barriers == Init(c).barriers && s.ring == Init(c).ring;
  }

  /** Slot 4, armed for the DLSCH and slot 3, has neither. */
  lemma TwoCodewordsArmed() returns (s: State)
    ensures ValidConfig(TwoCodewords()) && Reachable(TwoCodewords(), s)
    ensures s.received == 2 && s.starts == [3] && s.joined == 0 && s.decoded == s.joins == multiset{}
    ensures Sized(TwoCodewords(), s) && s.barriers[4] == Barrier(0, 2, Some(4))
  {
    var c := TwoCodewords();
    hide Reachable;
    s := FirstSlotStarted();
    s := ReceiveSlot(c, s);
  }

  lemma ReceiveSlot(c: Config, s: State) returns (s': State)
    requires Reachable(c, s) && Sized(c, s) && s.received + c.duration == s.armed < NextStart(c, s) + c.barriers
    ensures s' == RxArmStep(c, RxCountStep(c, s)) && Reachable(c, s')
  {
    hide RxArmStep;
    var s1 := RxCountStep(c, s);
    ReachNext(c, s, RxCount, s1);
    s' := RxArmStep(c, s1);
    ReachNext(c, s1, RxArm, s');
  }

  /** It starts on the two codewords, before slot 3 has joined. */
  lemma TwoCodewordsStartEarly() returns (s: State)
    ensures ValidConfig(TwoCodewords()) && Reachable(TwoCodewords(), s) && s.starts == [3, 4] && s.joined == 0
    ensures !EveryRunOrderly(TwoCodewords())
  {
    var c := TwoCodewords();
    hide Reachable;
    var s4 := TwoCodewordsArmed();
    var s5 := CodewordDecodedStep(c, s4, 1);
    ReachNext(c, s4, CodewordDecoded(1), s5);
    s := CodewordDecodedStep(c, s5, 1);
    assert Next(c, s5, CodewordDecoded(1), s);
    ReachNext(c, s5, CodewordDecoded(1), s);
    assert !Orderly(c, s5, s);
  }

  /** Slot 0 carries a DLSCH with feedback 13 slots later; a frame has ten slots. */
  function LateFeedback(): Config {
    Config(10, 512, 3, 0, n => if n == 0 then Dlsch(13, 1) else Dlsch(0, 0))
  }

  /** The ring counts the DLSCH for slot 3, its decoder joins slot 13, and slot 3 never starts. */
  lemma LateFeedbackStuck() returns (s: State)
    ensures ValidConfig(LateFeedback()) && Reachable(LateFeedback(), s)
    ensures s.armed == 4 && s.starts == [] && s.decoded == multiset{0}
    ensures |s.barriers| == 512 && s.barriers[3] == Barrier(0, 1, Some(3))
    ensures !Live(LateFeedback(), s) && !EveryRunOrderly(LateFeedback())
  {
    var c := LateFeedback();
    hide Reachable;
    var s0 := Init(c);
    ReachInit(c);
    var s2 := ReceiveSlot(c, s0);
    s := CodewordDecodedStep(c, s2, 0);
    ReachNext(c, s2, CodewordDecoded(0), s);
    assert Given(c, 3, 1) == 0 && Given(c, 3, 2) == 0 && Given(c, 3, 3) == 0 && Gift(c, 3) == 0;
  }
}
