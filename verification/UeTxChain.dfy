/**
  How the NR UE starts its transmit slots: the ring of counters `tx_wait_for_dlsch`, the ring of
  dynamic barriers (common/utils/barrier/barrier.c) and the joins of DLSCH decoding and of the
  previous transmit slot (executables/nr-ue.c, HARQ feedback slot of section 9.2.3 of 3GPP TS 38.213).

  The slot loop, the DLSCH decoders and the transmit jobs are an interleaved transition system. The
  downlink traffic is arbitrary: any feedback offset and any number of codewords in any slot. Module
  `UeTxOrder` proves for which traffic every interleaving starts its slots in order and loses none.
*/
module UeTxChain {
  import opened Arith
  import opened Options
  import opened NrParms

  // ---- Dynamic barrier ----

  datatype Barrier = Barrier(completed: int, maxJoins: int, callback: Option<nat>)

  const NEW_BARRIER := Barrier(0, 0, None)

  /** A join; the second result is the argument of the callback it fires, if any. */
  function BarrierJoin(b: Barrier): (Barrier, Option<nat>) {
    var b1 := b.(completed := b.completed + 1);
    if b1.callback.Some? && b1.completed == b1.maxJoins then (b1.(completed := 0, callback := None), b1.callback)
    else (b1, None)
  }

  function BarrierUpdate(b: Barrier, maxJoins: int, arg: nat): (Barrier, Option<nat>) {
    if b.completed == maxJoins then (b.(completed := 0), Some(arg))
    else (b.(maxJoins := maxJoins, callback := Some(arg)), None)
  }

  // ---- Downlink traffic ----

  /** `k1` is the feedback offset in slots, 0 for a slot without DLSCH feedback; every codeword is decoded and joins. */
  datatype Dlsch = Dlsch(k1: nat, codewords: nat)

  /** `duration` is the fixed RX-to-TX duration, `firstRx` the first slot after synchronization. */
  datatype Config = Config(slotsPerFrame: nat, barriers: nat, duration: nat, firstRx: nat, traffic: nat -> Dlsch)

  ghost predicate ValidConfig(c: Config) {
    && c.slotsPerFrame > 0 && c.barriers > 0
    && (MAX_FRAME_NUMBER * c.slotsPerFrame) % c.barriers == 0
  }

  function FirstTx(c: Config): nat { c.firstRx + c.duration }

  ghost predicate HasFeedback(c: Config, n: nat) {
    n >= c.firstRx && c.traffic(n).k1 != 0
  }

  /** The slot on which the DLSCH of slot `n` has its feedback; its decoders join the barrier of this slot. */
  function Feedback(c: Config, n: nat): nat { n + c.traffic(n).k1 }

  /** The slot for which the ring counts it: the first one of its residue that is still to be armed. */
  ghost function CountedSlot(c: Config, n: nat): (t: nat)
    requires c.slotsPerFrame > 0
    ensures n + c.duration <= t < n + c.duration + c.slotsPerFrame
  {
    DivMod(c.traffic(n).k1 - c.duration, c.slotsPerFrame);
    n + c.duration + (c.traffic(n).k1 - c.duration) % c.slotsPerFrame
  }

  /** Among the slots received before `n`: DLSCHs that the ring counts for `t`. */
  ghost function Counted(c: Config, t: nat, n: nat): nat
    requires c.slotsPerFrame > 0
  {
    if n == 0 then 0
    else Counted(c, t, n - 1) + if HasFeedback(c, n - 1) && CountedSlot(c, n - 1) == t then 1 else 0
  }

  /** DLSCHs with feedback on `t`. */
  ghost function FeedbackCount(c: Config, t: nat, n: nat): nat {
    if n == 0 then 0
    else FeedbackCount(c, t, n - 1) + if HasFeedback(c, n - 1) && Feedback(c, n - 1) == t then 1 else 0
  }

  /** Decoder joins that the DLSCHs with feedback on `t` make in all. */
  ghost function Given(c: Config, t: nat, n: nat): nat {
    if n == 0 then 0
    else Given(c, t, n - 1) + if HasFeedback(c, n - 1) && Feedback(c, n - 1) == t then c.traffic(n - 1).codewords else 0
  }

  /** Decoder joins for `t` that have been made, `decoded` counting those of each DLSCH. */
  ghost function Made(c: Config, decoded: multiset<nat>, t: nat, n: nat): nat {
    if n == 0 then 0
    else Made(c, decoded, t, n - 1) + if HasFeedback(c, n - 1) && Feedback(c, n - 1) == t then decoded[n - 1] else 0
  }

  /** All DLSCHs counted for `t`, and all decoder joins made for `t`: later slots do not matter. */
  ghost function Need(c: Config, t: nat): nat
    requires c.slotsPerFrame > 0
  {
    Counted(c, t, t + 1)
  }

  ghost function Gift(c: Config, t: nat): nat { Given(c, t, t + 1) }

  /** What the MAC asserts of every feedback offset. */
  ghost predicate OffsetsAsserted(c: Config) {
    forall n: nat :: HasFeedback(c, n) ==> c.traffic(n).k1 >= c.duration
  }

  ghost predicate OffsetsWithinFrame(c: Config) {
    forall n: nat :: HasFeedback(c, n) ==> c.traffic(n).k1 < c.duration + c.slotsPerFrame
  }

  ghost predicate OneJoinEach(c: Config) {
    forall n: nat :: HasFeedback(c, n) ==> c.traffic(n).codewords == 1
  }

  // ---- The transition system ----

  /**
    `received` is the next slot to receive and `armed` the next transmit slot to arm; `starts` are the
    transmit slots started so far and `joined` how many of them have joined the next barrier. `decoded`
    and `joins` count decoder joins per received and per transmit slot; `joins` is history.
  */
  datatype State = State(
    received: nat,
    armed: nat,
    ring: seq<nat>,
    barriers: seq<Barrier>,
    starts: seq<nat>,
    joined: nat,
    decoded: multiset<nat>,
    joins: multiset<nat>)

  /** The next transmit slot to start. */
  function NextStart(c: Config, s: State): nat { FirstTx(c) + |s.starts| }

  function Init(c: Config): State {
    State(c.firstRx, FirstTx(c), seq(c.slotsPerFrame, _ => 0), seq(c.barriers, _ => NEW_BARRIER), [], 0,
          multiset{}, multiset{})
  }

  predicate Sized(c: Config, s: State) {
    c.slotsPerFrame > 0 && c.barriers > 0 && |s.ring| == c.slotsPerFrame && |s.barriers| == c.barriers
  }

  /** Barrier index from a slot and a frame number that wraps at 1024. */
  function WrappedIndex(c: Config, t: nat): (index: nat)
    requires c.slotsPerFrame > 0 && c.barriers > 0
    ensures index < c.barriers
  {
    (t % c.slotsPerFrame + t / c.slotsPerFrame % MAX_FRAME_NUMBER * c.slotsPerFrame) % c.barriers
  }

  /** Index that a decoder of the DLSCH of slot `n` joins. */
  function FeedbackIndex(c: Config, n: nat): (index: nat)
    requires c.slotsPerFrame > 0 && c.barriers > 0
    ensures index < c.barriers
  {
    (n % c.slotsPerFrame + c.traffic(n).k1 + n / c.slotsPerFrame % MAX_FRAME_NUMBER * c.slotsPerFrame) % c.barriers
  }

  function Started(s: State, fired: Option<nat>): State {
    if fired.Some? then s.(starts := s.starts + [fired.value]) else s
  }

  datatype Step =
    | RxCount                // preprocessing of a received slot counts its DLSCH
    | RxArm                  // the slot loop arms the barrier of the transmit slot
    | CodewordDecoded(n: nat)
    | TxJoinsNext

  function RxCountStep(c: Config, s: State): State
    requires Sized(c, s)
  {
    var k1 := c.traffic(s.received).k1;
    var ackNack := (s.received % c.slotsPerFrame + k1) % c.slotsPerFrame;
    s.(received := s.received + 1, ring := if k1 != 0 then s.ring[ackNack := s.ring[ackNack] + 1] else s.ring)
  }

  function RxArmStep(c: Config, s: State): State
    requires Sized(c, s)
  {
    var t := s.armed;
    var slot := t % c.slotsPerFrame;
    var waitForPrev := if t == FirstTx(c) then 0 else 1;
    var index := WrappedIndex(c, t);
    var (b, fired) := BarrierUpdate(s.barriers[index], s.ring[slot] + waitForPrev, t);
    Started(s.(armed := t + 1, ring := s.ring[slot := 0], barriers := s.barriers[index := b]), fired)
  }

  function CodewordDecodedStep(c: Config, s: State, n: nat): State
    requires Sized(c, s)
  {
    var index := FeedbackIndex(c, n);
    var (b, fired) := BarrierJoin(s.barriers[index]);
    Started(s.(barriers := s.barriers[index := b], decoded := s.decoded + multiset{n},
               joins := s.joins + multiset{Feedback(c, n)}), fired)
  }

  /** A started job joins the barrier after its own slot. */
  function TxJoinsNextStep(c: Config, s: State): State
    requires Sized(c, s) && s.joined < |s.starts|
  {
    var index := (s.starts[s.joined] + 1) % c.barriers;
    var (b, fired) := BarrierJoin(s.barriers[index]);
    Started(s.(barriers := s.barriers[index := b], joined := s.joined + 1), fired)
  }

  /**
    Which steps can happen. The slot loop counts and arms in turn, every codeword of a received DLSCH
    is decoded once, a transmit job joins once after it started, and no step touches a slot `barriers`
    or more ahead of the next one to start.
  */
  ghost predicate Enabled(c: Config, s: State, step: Step) {
    match step
    case RxCount => s.received + c.duration == s.armed
    case RxArm => s.received + c.duration == s.armed + 1 && s.armed < NextStart(c, s) + c.barriers
    case CodewordDecoded(n) =>
      && n < s.received && HasFeedback(c, n) && s.decoded[n] < c.traffic(n).codewords
      && Feedback(c, n) < NextStart(c, s) + c.barriers
    case TxJoinsNext => s.joined < |s.starts|
  }

  ghost predicate Next(c: Config, s: State, step: Step, s': State) {
    && Sized(c, s) && Enabled(c, s, step)
    && s' == match step
             case RxCount => RxCountStep(c, s)
             case RxArm => RxArmStep(c, s)
             case CodewordDecoded(n) => CodewordDecodedStep(c, s, n)
             case TxJoinsNext => TxJoinsNextStep(c, s)
  }

  ghost predicate Run(c: Config, states: seq<State>, steps: seq<Step>) {
    && |states| == |steps| + 1
    && states[0] == Init(c)
    && forall i :: 0 <= i < |steps| ==> Next(c, states[i], steps[i], states[i + 1])
  }

  // ---- Index arithmetic ----

  lemma WrappedSlot(c: Config, n: nat)
    requires c.slotsPerFrame > 0
    ensures n % c.slotsPerFrame + n / c.slotsPerFrame % MAX_FRAME_NUMBER * c.slotsPerFrame
         == n % (MAX_FRAME_NUMBER * c.slotsPerFrame)
  {
    var f, d := n / c.slotsPerFrame, c.slotsPerFrame;
    var h, g := f / MAX_FRAME_NUMBER, f % MAX_FRAME_NUMBER;
    DivMod(n, d);
    DivMod(f, MAX_FRAME_NUMBER);
    assert f * d == h * (MAX_FRAME_NUMBER * d) + g * d by {
      Distribute(h * MAX_FRAME_NUMBER, g, d);
      Associate(h, MAX_FRAME_NUMBER, d);
    }
    MulMonotone(g, MAX_FRAME_NUMBER - 1, d);
    MulMonotone(0, g, d);
    DivModUnique(n, MAX_FRAME_NUMBER * d, h, g * d + n % d);
  }

  /** Frame numbers wrap, barrier indices do not notice. */
  lemma IndexUnwrapped(c: Config, n: nat)
    requires ValidConfig(c)
    ensures WrappedIndex(c, n) == n % c.barriers
    ensures FeedbackIndex(c, n) == Feedback(c, n) % c.barriers
  {
    var m, k1 := MAX_FRAME_NUMBER * c.slotsPerFrame, c.traffic(n).k1;
    WrappedSlot(c, n);
    ModOfMod(n, m, c.barriers);
    ModAdd(n % m, k1, c.barriers);
    ModAdd(n, k1, c.barriers);
  }

  /**
    The wrapped index of every slot is the unwrapped one, as `next_barrier` computes it, exactly
    when the number of barriers divides the number of slots in 1024 frames.
  */
  lemma IndexChainsIff(c: Config)
    requires c.slotsPerFrame > 0 && c.barriers > 0
    ensures (forall t: nat :: WrappedIndex(c, t) == t % c.barriers) <==> ValidConfig(c)
  {
    hide WrappedIndex;
    if ValidConfig(c) {
      forall t: nat ensures WrappedIndex(c, t) == t % c.barriers {
        IndexUnwrapped(c, t);
      }
    } else {
      FirstWrap(c);
    }
  }

  /** The first slot whose frame number has wrapped is given index 0. */
  lemma FirstWrap(c: Config)
    requires c.slotsPerFrame > 0 && c.barriers > 0
    ensures WrappedIndex(c, MAX_FRAME_NUMBER * c.slotsPerFrame) == 0
  {
    var m := MAX_FRAME_NUMBER * c.slotsPerFrame;
    WrappedSlot(c, m);
    DivModUnique(m, m, 1, 0);
    DivModUnique(0, c.barriers, 0, 0);
  }

  // ---- Counts ----

  /** Counting for a slot ends when it is armed. */
  lemma {:induction false} CountedStable(c: Config, t: nat, n: nat, m: nat)
    requires c.slotsPerFrame > 0 && n <= m && n + c.duration > t
    ensures Counted(c, t, m) == Counted(c, t, n)
    decreases m
  {
    if n < m {
      CountedStable(c, t, n, m - 1);
    }
  }

  lemma CountedFinal(c: Config, t: nat, n: nat)
    requires c.slotsPerFrame > 0 && n + c.duration > t
    ensures Counted(c, t, n) == Need(c, t)
  {
    if n <= t + 1 {
      CountedStable(c, t, n, t + 1);
    } else {
      CountedStable(c, t, t + 1, n);
    }
  }

  /** Nothing is counted for slots before the first transmit slot, or a frame ahead of the slots to be armed. */
  lemma {:induction false} CountedOutside(c: Config, t: nat, n: nat)
    requires c.slotsPerFrame > 0 && (t < FirstTx(c) || t + 1 >= n + c.duration + c.slotsPerFrame)
    ensures Counted(c, t, n) == 0
  {
    if n > 0 {
      CountedOutside(c, t, n - 1);
    }
  }

  lemma {:induction false} GivenMonotone(c: Config, t: nat, n: nat, m: nat)
    requires n <= m
    ensures Given(c, t, n) <= Given(c, t, m)
    ensures n > t || (OffsetsAsserted(c) && n + c.duration > t) ==> Given(c, t, n) == Given(c, t, m)
    decreases m
  {
    if n < m {
      GivenMonotone(c, t, n, m - 1);
    }
  }

  lemma GivenFinal(c: Config, t: nat, n: nat)
    ensures Given(c, t, n) <= Gift(c, t)
    ensures OffsetsAsserted(c) && n + c.duration > t ==> Given(c, t, n) == Gift(c, t)
  {
    if n <= t + 1 {
      GivenMonotone(c, t, n, t + 1);
    } else {
      GivenMonotone(c, t, t + 1, n);
    }
  }

  lemma {:induction false} MadeOneMore(c: Config, decoded: multiset<nat>, m: nat, t: nat, n: nat)
    ensures Made(c, decoded + multiset{m}, t, n)
         == Made(c, decoded, t, n) + if m < n && HasFeedback(c, m) && Feedback(c, m) == t then 1 else 0
  {
    if n > 0 {
      MadeOneMore(c, decoded, m, t, n - 1);
    }
  }

  /** No DLSCH has joined more often than it has codewords. */
  ghost predicate WithinCodewords(c: Config, decoded: multiset<nat>) {
    forall n: nat :: decoded[n] <= c.traffic(n).codewords
  }

  lemma {:induction false} MadeAtMostGiven(c: Config, decoded: multiset<nat>, t: nat, n: nat)
    requires WithinCodewords(c, decoded)
    ensures Made(c, decoded, t, n) <= Given(c, t, n)
  {
    if n > 0 {
      MadeAtMostGiven(c, decoded, t, n - 1);
    }
  }

  /** A missing join belongs to some DLSCH with a codeword to be decoded. */
  lemma {:induction false} SomeCodewordLeft(c: Config, decoded: multiset<nat>, t: nat, n: nat) returns (m: nat)
    requires WithinCodewords(c, decoded) && Made(c, decoded, t, n) < Given(c, t, n)
    ensures m < n && HasFeedback(c, m) && Feedback(c, m) == t && decoded[m] < c.traffic(m).codewords
  {
    if HasFeedback(c, n - 1) && Feedback(c, n - 1) == t && decoded[n - 1] < c.traffic(n - 1).codewords {
      m := n - 1;
    } else {
      m := SomeCodewordLeft(c, decoded, t, n - 1);
    }
  }

  // ---- What holds in every run, for any traffic ----

  /** The ring refines the count per absolute slot. */
  ghost predicate RingInv(c: Config, s: State)
    requires Sized(c, s)
  {
    forall t: nat :: s.armed <= t < s.armed + c.slotsPerFrame
                     ==> s.ring[t % c.slotsPerFrame] == Counted(c, t, s.received)
  }

  ghost predicate DecodersInv(c: Config, s: State) {
    && WithinCodewords(c, s.decoded)
    && (forall n: nat :: n >= s.received ==> s.decoded[n] == 0)
    && (forall t: nat :: s.joins[t] == Made(c, s.decoded, t, s.received))
  }

  ghost predicate BaseInv(c: Config, s: State) {
    && Sized(c, s)
    && c.firstRx <= s.received && FirstTx(c) <= s.armed <= s.received + c.duration <= s.armed + 1
    && RingInv(c, s) && DecodersInv(c, s)
  }

  lemma InitBase(c: Config)
    requires c.slotsPerFrame > 0 && c.barriers > 0
    ensures BaseInv(c, Init(c))
  {
    forall t: nat ensures Made(c, multiset{}, t, c.firstRx) == 0 {
      NothingMade(c, t, c.firstRx);
    }
    forall t: nat ensures Counted(c, t, c.firstRx) == 0 {
      CountedNone(c, t, c.firstRx);
    }
  }

  lemma {:induction false} NothingMade(c: Config, t: nat, n: nat)
    ensures Made(c, multiset{}, t, n) == 0
  {
    if n > 0 {
      NothingMade(c, t, n - 1);
    }
  }

  lemma {:induction false} CountedNone(c: Config, t: nat, n: nat)
    requires c.slotsPerFrame > 0 && n <= c.firstRx
    ensures Counted(c, t, n) == 0
  {
    if n > 0 {
      CountedNone(c, t, n - 1);
    }
  }

  /** Two slots of one frame to be armed have different counters. */
  lemma RingPlaces(n: nat, a: nat)
    requires n > 0
    ensures forall t: nat, u: nat :: a <= t < u < a + n ==> t % n != u % n
  {
    forall t: nat, u: nat | a <= t < u < a + n ensures t % n != u % n {
      if t % n == u % n {
        CloseResidues(t, u, n);
      }
    }
  }

  /** The ring place of a DLSCH is that of the slot it is counted for. */
  lemma CountedPlace(c: Config, n: nat)
    requires c.slotsPerFrame > 0
    ensures (n % c.slotsPerFrame + c.traffic(n).k1) % c.slotsPerFrame == CountedSlot(c, n) % c.slotsPerFrame
  {
    var d, k1 := c.slotsPerFrame, c.traffic(n).k1;
    ModAdd(n, k1, d);
    DivMod(k1 - c.duration, d);
    AddMultiple(CountedSlot(c, n), d, (k1 - c.duration) / d);
  }

  lemma RxCountKeepsRing(c: Config, s: State)
    requires Sized(c, s) && RingInv(c, s) && s.received >= c.firstRx && s.received + c.duration == s.armed
    ensures RingInv(c, RxCountStep(c, s))
  {
    CountedPlace(c, s.received);
    RingPlaces(c.slotsPerFrame, s.armed);
  }

  /** Clearing the counter of the slot just armed makes room for the slot one frame later. */
  lemma RxArmKeepsRing(c: Config, s: State)
    requires Sized(c, s) && RingInv(c, s) && s.received + c.duration == s.armed + 1
    ensures RingInv(c, s.(armed := s.armed + 1, ring := s.ring[s.armed % c.slotsPerFrame := 0]))
  {
    var a, n := s.armed, c.slotsPerFrame;
    AddMultiple(a, n, 1);
    RingPlaces(n, a);
    CountedOutside(c, a + n, s.received);
  }

  lemma DecodedKeepsDecoders(c: Config, s: State, n: nat)
    requires DecodersInv(c, s) && n < s.received && HasFeedback(c, n) && s.decoded[n] < c.traffic(n).codewords
    ensures DecodersInv(c, s.(decoded := s.decoded + multiset{n}, joins := s.joins + multiset{Feedback(c, n)}))
  {
    forall t: nat ensures (s.joins + multiset{Feedback(c, n)})[t] == Made(c, s.decoded + multiset{n}, t, s.received) {
      MadeOneMore(c, s.decoded, n, t, s.received);
    }
  }

  lemma NextKeepsBase(c: Config, s: State, step: Step, s': State)
    requires BaseInv(c, s) && Next(c, s, step, s')
    ensures BaseInv(c, s')
  {
    hide RingInv, DecodersInv;
    match step
    case RxCount =>
      RxCountKeepsRing(c, s);
      CountKeepsDecoders(c, s, s');
    case RxArm =>
      RxArmKeepsRing(c, s);
      SameRing(c, s.(armed := s.armed + 1, ring := s.ring[s.armed % c.slotsPerFrame := 0]), s');
      SameDecoders(c, s, s');
    case CodewordDecoded(n) =>
      DecodedKeepsDecoders(c, s, n);
      SameDecoders(c, s.(decoded := s.decoded + multiset{n}, joins := s.joins + multiset{Feedback(c, n)}), s');
      SameRing(c, s, s');
    case TxJoinsNext =>
      SameRing(c, s, s');
      SameDecoders(c, s, s');
  }

  lemma CountKeepsDecoders(c: Config, s: State, s': State)
    requires DecodersInv(c, s)
    requires s'.received == s.received + 1 && s'.decoded == s.decoded && s'.joins == s.joins
    ensures DecodersInv(c, s')
  {
  }

  lemma SameRing(c: Config, s: State, s': State)
    requires Sized(c, s) && RingInv(c, s) && |s'.barriers| == c.barriers
    requires s'.armed == s.armed && s'.received == s.received && s'.ring == s.ring
    ensures RingInv(c, s')
  {
  }

  lemma SameDecoders(c: Config, s: State, s': State)
    requires DecodersInv(c, s)
    requires s'.received == s.received && s'.decoded == s.decoded && s'.joins == s.joins
    ensures DecodersInv(c, s')
  {
  }

  lemma {:induction false} RunBase(c: Config, states: seq<State>, steps: seq<Step>, i: nat)
    requires c.slotsPerFrame > 0 && c.barriers > 0 && Run(c, states, steps) && i < |states|
    ensures BaseInv(c, states[i])
  {
    hide BaseInv, Next;
    if i == 0 {
      InitBase(c);
    } else {
      RunBase(c, states, steps, i - 1);
      NextKeepsBase(c, states[i - 1], steps[i - 1], states[i]);
    }
  }

  /**
    In every run, for any offsets and codewords, the counter used when a slot is armed is the number of
    DLSCHs whose first slot to be armed in their ring residue it is.
  */
  lemma RingRefinesCounted(c: Config, states: seq<State>, steps: seq<Step>, i: nat)
    requires c.slotsPerFrame > 0 && c.barriers > 0 && Run(c, states, steps) && i < |states|
    ensures |states[i].ring| == c.slotsPerFrame
    ensures states[i].armed + 1 == states[i].received + c.duration ==>
              states[i].ring[states[i].armed % c.slotsPerFrame] == Need(c, states[i].armed)
  {
    RunBase(c, states, steps, i);
    if states[i].armed + 1 == states[i].received + c.duration {
      CountedFinal(c, states[i].armed, states[i].received);
    }
  }

  // ---- While no slot has had more joins than it was armed for ----

  /** Joins a slot has received: decoded codewords and the previous slot. */
  ghost function Joins(c: Config, s: State, t: nat): nat {
    s.joins[t] + if FirstTx(c) < t <= FirstTx(c) + s.joined then 1 else 0
  }

  ghost function JoinsNeeded(c: Config, t: nat): nat
    requires c.slotsPerFrame > 0
  {
    Need(c, t) + if t == FirstTx(c) then 0 else 1
  }

  /** The barrier object that currently serves slot `t`. */
  ghost predicate Serves(c: Config, s: State, b: Barrier, t: nat)
    requires c.slotsPerFrame > 0
  {
    && b.completed == Joins(c, s, t)
    && if t < s.armed then
         b.callback == Some(t) && b.maxJoins == JoinsNeeded(c, t) && b.completed < b.maxJoins
       else b.callback == None
  }

  /** Exactly the slots from the first transmit slot on, each once. */
  ghost predicate Consecutive(c: Config, starts: seq<nat>) {
    forall i :: 0 <= i < |starts| ==> starts[i] == FirstTx(c) + i
  }

  ghost predicate StartsInv(c: Config, s: State) {
    && Consecutive(c, s.starts)
    && s.joined <= |s.starts| <= s.joined + 1
    && NextStart(c, s) <= s.armed <= NextStart(c, s) + c.barriers
  }

  ghost predicate NoExcess(c: Config, s: State)
    requires c.slotsPerFrame > 0
  {
    forall t: nat :: s.joins[t] <= Need(c, t)
  }

  ghost predicate JoinsInv(c: Config, s: State)
    requires c.slotsPerFrame > 0
  {
    && NoExcess(c, s)
    && (forall t: nat :: t < NextStart(c, s) ==> s.joins[t] == Need(c, t))
    && (forall t: nat :: t >= NextStart(c, s) + c.barriers ==> s.joins[t] == 0)
  }

  ghost predicate BarriersInv(c: Config, s: State)
    requires Sized(c, s)
  {
    forall t: nat :: NextStart(c, s) <= t < NextStart(c, s) + c.barriers
                     ==> Serves(c, s, s.barriers[t % c.barriers], t)
  }

  ghost predicate Inv(c: Config, s: State) {
    && ValidConfig(c) && Sized(c, s)
    && StartsInv(c, s) && JoinsInv(c, s) && BarriersInv(c, s)
  }

  lemma InitInv(c: Config)
    requires ValidConfig(c)
    ensures Inv(c, Init(c))
  {
    forall t: nat | t < FirstTx(c) ensures Need(c, t) == 0 {
      CountedOutside(c, t, t + 1);
    }
  }

  /** All of the invariant but the starting of a slot whose joins are complete. */
  ghost predicate InvExcept(c: Config, s: State, t: nat) {
    && ValidConfig(c) && Sized(c, s) && StartsInv(c, s) && JoinsInv(c, s)
    && NextStart(c, s) <= t < NextStart(c, s) + c.barriers
    && (forall u: nat :: NextStart(c, s) <= u < NextStart(c, s) + c.barriers && u != t
                         ==> Serves(c, s, s.barriers[u % c.barriers], u))
  }

  /** Firing the callback of a complete slot, which can only be the next one, hands its barrier to a later slot. */
  lemma FiringKeepsInv(c: Config, s: State, t: nat)
    requires InvExcept(c, s, t) && t < s.armed
    requires Joins(c, s, t) >= JoinsNeeded(c, t)
    requires s.barriers[t % c.barriers].completed == 0 && s.barriers[t % c.barriers].callback == None
    ensures t == NextStart(c, s) && s.joins[t] == Need(c, t) && s.joined == |s.starts|
    ensures Inv(c, Started(s, Some(t)))
  {
    hide Counted;
    var s' := Started(s, Some(t));
    forall u: nat | NextStart(c, s') <= u < NextStart(c, s') + c.barriers
      ensures Serves(c, s', s'.barriers[u % c.barriers], u)
    {
      if u == t + c.barriers {
        AddMultiple(t, c.barriers, 1);
      } else {
        assert Serves(c, s, s.barriers[u % c.barriers], u);
      }
    }
  }

  /** Not firing leaves the slot armed or untouched, with joins outstanding. */
  lemma WaitingKeepsInv(c: Config, s: State, t: nat)
    requires InvExcept(c, s, t) && Serves(c, s, s.barriers[t % c.barriers], t)
    ensures Inv(c, s)
  {
  }

  /** A step starts at most one slot: the next one, when it has the joins it was armed for. */
  ghost predicate StartsWhenCounted(c: Config, s: State, s': State)
    requires c.slotsPerFrame > 0
  {
    || s'.starts == s.starts
    || var t := NextStart(c, s);
       && s'.starts == s.starts + [t]
       && t < s'.armed
       && s'.joined == |s.starts|
       && s'.joins[t] == Need(c, t)
  }

  /** A change to the barrier of slot `t` alone leaves the other slots served. */
  lemma OthersStillServed(c: Config, s: State, s2: State, t: nat)
    requires Inv(c, s) && NextStart(c, s) <= t < NextStart(c, s) + c.barriers
    requires |s2.barriers| == c.barriers && s2.barriers == s.barriers[t % c.barriers := s2.barriers[t % c.barriers]]
    requires s2.starts == s.starts
    requires forall u: nat :: u >= NextStart(c, s) && u != t ==>
               Joins(c, s2, u) == Joins(c, s, u) && (u < s2.armed <==> u < s.armed)
    ensures forall u: nat :: NextStart(c, s) <= u < NextStart(c, s) + c.barriers && u != t
                             ==> Serves(c, s2, s2.barriers[u % c.barriers], u)
  {
    hide Counted;
    forall u: nat | NextStart(c, s) <= u < NextStart(c, s) + c.barriers && u != t
      ensures Serves(c, s2, s2.barriers[u % c.barriers], u)
    {
      if u % c.barriers == t % c.barriers {
        CloseResidues(u, t, c.barriers);
      }
      assert Serves(c, s, s.barriers[u % c.barriers], u);
    }
  }

  /** What a change of the barrier of slot `t` does next, given that the slot is complete if it fires. */
  lemma BarrierOutcome(c: Config, s: State, s2: State, t: nat, fired: Option<nat>)
    requires Inv(c, s) && s2.starts == s.starts && InvExcept(c, s2, t)
    requires if fired.Some? then
               && fired.value == t && t < s2.armed && Joins(c, s2, t) >= JoinsNeeded(c, t)
               && s2.barriers[t % c.barriers].completed == 0 && s2.barriers[t % c.barriers].callback == None
             else Serves(c, s2, s2.barriers[t % c.barriers], t)
    ensures Inv(c, Started(s2, fired)) && StartsWhenCounted(c, s, Started(s2, fired))
  {
    hide InvExcept, Inv, Serves, Need, JoinsNeeded;
    if fired.Some? {
      FiringKeepsInv(c, s2, t);
    } else {
      WaitingKeepsInv(c, s2, t);
    }
  }

  /** The barrier of slot `t` before and after a join, in terms of the joins of the slot. */
  lemma JoinServes(c: Config, s: State, s2: State, b: Barrier, t: nat)
    requires c.slotsPerFrame > 0 && Serves(c, s, b, t)
    requires s2.armed == s.armed && Joins(c, s2, t) == Joins(c, s, t) + 1
    ensures var (b', fired) := BarrierJoin(b);
            if fired.Some? then
              && fired.value == t && t < s2.armed && Joins(c, s2, t) >= JoinsNeeded(c, t)
              && b'.completed == 0 && b'.callback == None
            else Serves(c, s2, b', t)
  {
    hide JoinsNeeded, Joins;
  }

  /** A join for slot `t`, whoever makes it. */
  lemma JoinKeepsInv(c: Config, s: State, s1: State, t: nat)
    requires Inv(c, s) && NextStart(c, s) <= t < NextStart(c, s) + c.barriers
    requires s1 == s.(decoded := s1.decoded, joins := s1.joins, joined := s1.joined)
    requires StartsInv(c, s1) && JoinsInv(c, s1)
    requires forall u: nat :: u >= NextStart(c, s) ==> Joins(c, s1, u) == Joins(c, s, u) + if u == t then 1 else 0
    ensures var index := t % c.barriers;
            var (b, fired) := BarrierJoin(s.barriers[index]);
            var s' := Started(s1.(barriers := s.barriers[index := b]), fired);
            Inv(c, s') && StartsWhenCounted(c, s, s')
  {
    hide BarrierJoin, Serves, Need, JoinsNeeded, StartsWhenCounted, Started;
    var index := t % c.barriers;
    var (b, fired) := BarrierJoin(s.barriers[index]);
    var s2 := s1.(barriers := s.barriers[index := b]);
    assert Serves(c, s, s.barriers[index], t);
    assert forall u: nat :: Joins(c, s2, u) == Joins(c, s1, u);
    OthersStillServed(c, s, s2, t);
    JoinServes(c, s, s2, s.barriers[index], t);
    BarrierOutcome(c, s, s2, t, fired);
  }

  lemma DecodedKeepsInv(c: Config, s: State, n: nat)
    requires Inv(c, s) && Enabled(c, s, CodewordDecoded(n)) && NoExcess(c, CodewordDecodedStep(c, s, n))
    ensures Inv(c, CodewordDecodedStep(c, s, n)) && StartsWhenCounted(c, s, CodewordDecodedStep(c, s, n))
  {
    hide BarriersInv, BarrierJoin, StartsWhenCounted, FeedbackIndex, ValidConfig, Need, StartsInv;
    IndexUnwrapped(c, n);
    var t: nat := Feedback(c, n);
    var s1 := s.(decoded := s.decoded + multiset{n}, joins := s.joins + multiset{t});
    assert NoExcess(c, s1) && s1.joins[t] == s.joins[t] + 1;
    assert t >= NextStart(c, s);
    assert StartsInv(c, s1) by {
      SameStarts(c, s, s1);
    }
    JoinKeepsInv(c, s, s1, t);
  }

  lemma SameStarts(c: Config, s: State, s1: State)
    requires StartsInv(c, s) && s1.starts == s.starts && s1.joined == s.joined && s1.armed == s.armed
    ensures StartsInv(c, s1)
  {
  }

  lemma TxJoinsNextKeepsInv(c: Config, s: State)
    requires Inv(c, s) && s.joined < |s.starts|
    ensures Inv(c, TxJoinsNextStep(c, s)) && StartsWhenCounted(c, s, TxJoinsNextStep(c, s))
  {
    hide BarriersInv, BarrierJoin, StartsWhenCounted, Need;
    var s1, t := s.(joined := s.joined + 1), s.starts[s.joined] + 1;
    assert t == NextStart(c, s);
    JoinKeepsInv(c, s, s1, t);
  }

  /** The barrier of the slot being armed, before and after. */
  lemma ArmServes(c: Config, s: State, s2: State, b: Barrier)
    requires c.slotsPerFrame > 0 && Serves(c, s, b, s.armed) && s.joins[s.armed] <= Need(c, s.armed)
    requires FirstTx(c) <= s.armed
    requires s2 == s.(armed := s.armed + 1, ring := s2.ring, barriers := s2.barriers)
    ensures var t := s.armed;
            var (b', fired) := BarrierUpdate(b, JoinsNeeded(c, t), t);
            if fired.Some? then
              && fired.value == t && Joins(c, s2, t) >= JoinsNeeded(c, t)
              && b'.completed == 0 && b'.callback == None
            else Serves(c, s2, b', t)
  {
    hide Need;
  }

  /** The slot loop arms a slot with the joins it needs. */
  lemma ArmsWithNeed(c: Config, s: State)
    requires ValidConfig(c) && BaseInv(c, s) && s.received + c.duration == s.armed + 1
    ensures var index := s.armed % c.barriers;
            var (b, fired) := BarrierUpdate(s.barriers[index], JoinsNeeded(c, s.armed), s.armed);
            RxArmStep(c, s) == Started(s.(armed := s.armed + 1, ring := s.ring[s.armed % c.slotsPerFrame := 0],
                                          barriers := s.barriers[index := b]), fired)
  {
    hide WrappedIndex, BarrierUpdate, Started, Need, DecodersInv;
    IndexUnwrapped(c, s.armed);
    CountedFinal(c, s.armed, s.received);
  }

  lemma RxArmKeepsInv(c: Config, s: State)
    requires Inv(c, s) && BaseInv(c, s) && Enabled(c, s, RxArm)
    ensures Inv(c, RxArmStep(c, s)) && StartsWhenCounted(c, s, RxArmStep(c, s))
  {
    hide RxArmStep, BarrierUpdate, Serves, Need, JoinsNeeded, StartsWhenCounted, Started, RingInv, DecodersInv;
    ArmsWithNeed(c, s);
    var t := s.armed;
    var index := t % c.barriers;
    var (b, fired) := BarrierUpdate(s.barriers[index], JoinsNeeded(c, t), t);
    var s2 := s.(armed := t + 1, ring := s.ring[t % c.slotsPerFrame := 0], barriers := s.barriers[index := b]);
    assert Serves(c, s, s.barriers[index], t);
    assert forall u: nat :: Joins(c, s2, u) == Joins(c, s, u);
    OthersStillServed(c, s, s2, t);
    ArmServes(c, s, s2, s.barriers[index]);
    BarrierOutcome(c, s, s2, t, fired);
  }

  lemma RxCountKeepsInv(c: Config, s: State)
    requires Inv(c, s)
    ensures Inv(c, RxCountStep(c, s)) && RxCountStep(c, s).starts == s.starts
  {
    hide Need;
    var s' := RxCountStep(c, s);
    assert forall u: nat :: Joins(c, s', u) == Joins(c, s, u);
    forall u: nat | NextStart(c, s) <= u < NextStart(c, s) + c.barriers
      ensures Serves(c, s', s'.barriers[u % c.barriers], u)
    {
      assert Serves(c, s, s.barriers[u % c.barriers], u);
    }
  }

  lemma NextKeepsInv(c: Config, s: State, step: Step, s': State)
    requires Inv(c, s) && BaseInv(c, s) && Next(c, s, step, s') && NoExcess(c, s')
    ensures Inv(c, s') && StartsWhenCounted(c, s, s')
  {
    hide Inv, BaseInv, RxCountStep, RxArmStep, CodewordDecodedStep, TxJoinsNextStep;
    match step
    case RxCount => RxCountKeepsInv(c, s);
    case RxArm => RxArmKeepsInv(c, s);
    case CodewordDecoded(n) => DecodedKeepsInv(c, s, n);
    case TxJoinsNext => TxJoinsNextKeepsInv(c, s);
  }

  /** In any run, as long as no slot has had more decoder joins than DLSCHs were counted for it. */
  lemma {:induction false} RunInv(c: Config, states: seq<State>, steps: seq<Step>, i: nat)
    requires ValidConfig(c) && Run(c, states, steps) && i < |states|
    requires forall k :: 0 <= k <= i ==> NoExcess(c, states[k])
    ensures Inv(c, states[i])
  {
    hide Inv, Next, NoExcess;
    if i == 0 {
      InitInv(c);
    } else {
      RunInv(c, states, steps, i - 1);
      RunBase(c, states, steps, i - 1);
      NextKeepsInv(c, states[i - 1], steps[i - 1], states[i]);
    }
  }
}
