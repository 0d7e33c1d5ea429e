/**
  The gNB slot pipeline: RU thread -> `L1_tx_out` -> L1 TX thread -> `resp_L1` -> L1 RX thread ->
  `L1_rx_out` -> RU thread, with `rx_tti_busy` as flow control (executables/nr-ru.c and
  executables/nr-gnb.c). The three threads are an interleaved transition system; FIFOs are
  sequences and jobs are numbered in the order in which the RU thread makes them.
*/
module GnbPipeline {
  import opened Arith

  /**
    `rx[s]` tells whether slot s of a frame is uplink or mixed (`nr_slot_select`). The first job is for
    absolute slot `first`; `aligned` tells that its reception had to discard samples up to the next slot.
  */
  datatype Config = Config(slotsPerFrame: nat, depth: nat, rx: seq<bool>, first: nat, aligned: bool)

  ghost predicate ValidConfig(c: Config) {
    c.slotsPerFrame > 0 && c.depth > 0 && |c.rx| == c.slotsPerFrame
  }

  /** Absolute slot of a job; an aligning first reception keeps its slot number, and the next slot has no job. */
  function SlotOf(c: Config, job: nat): nat {
    if c.aligned && job > c.first then job + 1 else job
  }

  predicate IsRx(c: Config, job: nat)
    requires ValidConfig(c)
  {
    c.rx[SlotOf(c, job) % c.slotsPerFrame]
  }

  /** Index of the busy flag and of the rxdataF partition of a slot. */
  function Residue(c: Config, job: nat): (i: nat)
    requires ValidConfig(c)
    ensures i < c.depth
  {
    SlotOf(c, job) % c.slotsPerFrame % c.depth
  }

  datatype RuPhase = RuNext | RuWaiting | RuFrontEnd
  datatype TxPhase = TxIdle | TxScheduling(job: nat) | TxSending
  datatype RxPhase = RxIdle | RxBusy(job: nat)

  /** `next` is the job the RU thread works on. */
  datatype State = State(
    next: nat,
    ru: RuPhase,
    busy: seq<bool>,
    txOut: seq<nat>,
    tx: TxPhase,
    respL1: seq<nat>,
    rx: RxPhase,
    rxOut: seq<nat>)

  datatype Step = RuBegin | RuPull | RuPush | TxPull | TxForward | TxDone | RxPull | RxFinish

  function Init(c: Config): State {
    State(c.first, RuNext, seq(c.depth, _ => false), [], TxIdle, [], RxIdle, [])
  }

  predicate Enabled(s: State, step: Step) {
    match step
    case RuBegin => s.ru.RuNext?
    case RuPull => s.ru.RuWaiting? && s.rxOut != []
    case RuPush => s.ru.RuFrontEnd?
    case TxPull => s.tx.TxIdle? && s.txOut != []
    case TxForward => s.tx.TxScheduling?
    case TxDone => s.tx.TxSending?
    case RxPull => s.rx.RxIdle? && s.respL1 != []
    case RxFinish => s.rx.RxBusy?
  }

  function Apply(c: Config, s: State, step: Step): State
    requires ValidConfig(c) && |s.busy| == c.depth && Enabled(s, step)
  {
    var i := Residue(c, s.next);
    match step
    case RuBegin =>
      if !IsRx(c, s.next) then s.(txOut := s.txOut + [s.next], next := s.next + 1)
      else if s.busy[i] then s.(ru := RuWaiting)
      else s.(busy := s.busy[i := true], ru := RuFrontEnd)
    case RuPull =>
      var r := Residue(c, s.rxOut[0]);
      var freed := s.(busy := s.busy[r := false], rxOut := s.rxOut[1..]);
      if r == i then freed.(busy := freed.busy[i := true], ru := RuFrontEnd) else freed
    case RuPush => s.(txOut := s.txOut + [s.next], next := s.next + 1, ru := RuNext)
    case TxPull => s.(tx := TxScheduling(s.txOut[0]), txOut := s.txOut[1..])
    case TxForward => s.(respL1 := s.respL1 + [s.tx.job], tx := TxSending)
    case TxDone => s.(tx := TxIdle)
    case RxPull => s.(rx := RxBusy(s.respL1[0]), respL1 := s.respL1[1..])
    case RxFinish => s.(rxOut := if IsRx(c, s.rx.job) then s.rxOut + [s.rx.job] else s.rxOut, rx := RxIdle)
  }

  ghost predicate Next(c: Config, s: State, step: Step, s': State) {
    ValidConfig(c) && |s.busy| == c.depth && Enabled(s, step) && s' == Apply(c, s, step)
  }

  /** A run segment: consecutive steps from `states[0]` on. */
  ghost predicate Segment(c: Config, states: seq<State>, steps: seq<Step>) {
    && |states| == |steps| + 1
    && forall i :: 0 <= i < |steps| ==> Next(c, states[i], steps[i], states[i + 1])
  }

  ghost predicate Run(c: Config, states: seq<State>, steps: seq<Step>) {
    Segment(c, states, steps) && states[0] == Init(c)
  }

  // ---- Invariant ----

  /** Jobs not yet handled by the RX thread, oldest first, up to the one the RU front end holds. */
  ghost function Upstream(s: State): seq<nat> {
    RxPart(s) + TxPart(s) + if s.ru.RuFrontEnd? then [s.next] else []
  }

  ghost function RxPart(s: State): seq<nat> {
    (if s.rx.RxBusy? then [s.rx.job] else []) + s.respL1
  }

  ghost function TxPart(s: State): seq<nat> {
    (if s.tx.TxScheduling? then [s.tx.job] else []) + s.txOut
  }

  ghost function End(s: State): nat {
    if s.ru.RuFrontEnd? then s.next + 1 else s.next
  }

  ghost function First(s: State): int {
    End(s) - |Upstream(s)|
  }

  /** RX jobs the RU thread has claimed and not yet been told are complete. */
  ghost predicate Outstanding(c: Config, s: State, job: nat)
    requires ValidConfig(c)
  {
    job in s.rxOut || (First(s) <= job < End(s) && IsRx(c, job))
  }

  ghost predicate QueuesInv(c: Config, s: State)
    requires ValidConfig(c)
  {
    && First(s) >= c.first
    && (forall k :: 0 <= k < |Upstream(s)| ==> Upstream(s)[k] == First(s) + k)
    && (forall k :: 0 <= k < |s.rxOut| ==> s.rxOut[k] < First(s) && IsRx(c, s.rxOut[k]))
    && (forall k, l :: 0 <= k < l < |s.rxOut| ==> s.rxOut[k] != s.rxOut[l])
    && (!s.ru.RuNext? ==> IsRx(c, s.next))
  }

  ghost predicate BusyInv(c: Config, s: State)
    requires ValidConfig(c)
  {
    && |s.busy| == c.depth
    && (forall j: nat, k: nat :: Outstanding(c, s, j) && Outstanding(c, s, k) && Residue(c, j) == Residue(c, k)
                                 ==> j == k)
    && (forall j: nat :: Outstanding(c, s, j) ==> s.busy[Residue(c, j)])
    && (forall i :: 0 <= i < c.depth && s.busy[i] ==> exists j: nat :: Outstanding(c, s, j) && Residue(c, j) == i)
  }

  ghost predicate Inv(c: Config, s: State) {
    && ValidConfig(c) && QueuesInv(c, s) && BusyInv(c, s)
    && (s.ru.RuWaiting? ==> s.busy[Residue(c, s.next)])
  }

  lemma InitInv(c: Config)
    requires ValidConfig(c)
    ensures Inv(c, Init(c))
  {
  }

  /** Steps of the L1 threads only move jobs along: nothing outstanding appears or disappears. */
  lemma BusyFrame(c: Config, s: State, s': State)
    requires ValidConfig(c) && BusyInv(c, s) && s'.busy == s.busy && SameOutstanding(c, s, s')
    ensures BusyInv(c, s')
  {
    forall i | 0 <= i < c.depth && s'.busy[i] ensures exists j: nat :: Outstanding(c, s', j) && Residue(c, j) == i {
      var j: nat :| Outstanding(c, s, j) && Residue(c, j) == i;
      assert Outstanding(c, s', j);
    }
  }

  ghost predicate SameOutstanding(c: Config, s: State, s': State)
    requires ValidConfig(c)
  {
    forall j: nat :: Outstanding(c, s', j) <==> Outstanding(c, s, j)
  }

  predicate IsRuStep(step: Step) {
    step.RuBegin? || step.RuPull? || step.RuPush?
  }

  lemma MoveKeepsUpstream(c: Config, s: State, step: Step)
    requires ValidConfig(c) && |s.busy| == c.depth && Enabled(s, step) && !IsRuStep(step) && !step.RxFinish?
    ensures Upstream(Apply(c, s, step)) == Upstream(s)
  {
    var s' := Apply(c, s, step);
    match step
    case TxPull => assert TxPart(s') == TxPart(s);
    case TxForward =>
      assert RxPart(s') == RxPart(s) + [s.tx.job];
      assert TxPart(s) == [s.tx.job] + TxPart(s');
    case TxDone =>
    case RxPull => assert RxPart(s') == RxPart(s);
  }

  lemma MoveKeepsInv(c: Config, s: State, step: Step)
    requires Inv(c, s) && Enabled(s, step) && !IsRuStep(step) && !step.RxFinish?
    ensures Inv(c, Apply(c, s, step)) && SameOutstanding(c, s, Apply(c, s, step))
  {
    var s' := Apply(c, s, step);
    MoveKeepsUpstream(c, s, step);
    assert s'.next == s.next && s'.ru == s.ru && s'.busy == s.busy && s'.rxOut == s.rxOut;
    hide BusyInv, Upstream, Apply;
    assert SameOutstanding(c, s, s');
    BusyFrame(c, s, s');
  }

  lemma RxFinishUpstream(c: Config, s: State)
    requires ValidConfig(c) && |s.busy| == c.depth && s.rx.RxBusy?
    ensures Upstream(s) == [s.rx.job] + Upstream(Apply(c, s, RxFinish))
  {
    assert RxPart(s) == [s.rx.job] + RxPart(Apply(c, s, RxFinish));
  }

  lemma RxFinishKeepsQueues(c: Config, s: State)
    requires ValidConfig(c) && |s.busy| == c.depth && QueuesInv(c, s) && s.rx.RxBusy?
    ensures QueuesInv(c, Apply(c, s, RxFinish)) && SameOutstanding(c, s, Apply(c, s, RxFinish))
  {
    var s' := Apply(c, s, RxFinish);
    RxFinishUpstream(c, s);
    hide Upstream, IsRx;
    assert Upstream(s)[0] == s.rx.job;
    assert First(s') == First(s) + 1 && s.rx.job == First(s);
    forall k | 0 <= k < |Upstream(s')| ensures Upstream(s')[k] == First(s') + k {
      assert Upstream(s)[k + 1] == Upstream(s')[k];
    }
  }

  lemma RxFinishKeepsInv(c: Config, s: State)
    requires Inv(c, s) && s.rx.RxBusy?
    ensures Inv(c, Apply(c, s, RxFinish)) && SameOutstanding(c, s, Apply(c, s, RxFinish))
  {
    RxFinishKeepsQueues(c, s);
    hide QueuesInv, SameOutstanding;
    BusyFrame(c, s, Apply(c, s, RxFinish));
  }

  lemma L1StepKeepsInv(c: Config, s: State, step: Step)
    requires Inv(c, s) && Enabled(s, step) && !IsRuStep(step)
    ensures Inv(c, Apply(c, s, step)) && SameOutstanding(c, s, Apply(c, s, step))
  {
    hide QueuesInv, SameOutstanding;
    if step.RxFinish? {
      RxFinishKeepsInv(c, s);
    } else {
      MoveKeepsInv(c, s, step);
    }
  }

  lemma RuPushKeepsInv(c: Config, s: State)
    requires Inv(c, s) && s.ru.RuFrontEnd?
    ensures Inv(c, Apply(c, s, RuPush))
  {
    var s' := Apply(c, s, RuPush);
    assert Upstream(s') == Upstream(s);
    BusyFrame(c, s, s');
  }

  /** The RU thread claims a free partition for its slot. */
  lemma ClaimKeepsInv(c: Config, s: State)
    requires ValidConfig(c) && QueuesInv(c, s) && BusyInv(c, s)
    requires !s.ru.RuFrontEnd? && IsRx(c, s.next) && !s.busy[Residue(c, s.next)]
    ensures Inv(c, s.(busy := s.busy[Residue(c, s.next) := true], ru := RuFrontEnd))
  {
    var i := Residue(c, s.next);
    var s' := s.(busy := s.busy[i := true], ru := RuFrontEnd);
    assert Upstream(s') == Upstream(s) + [s.next];
    assert forall j: nat :: Outstanding(c, s', j) <==> Outstanding(c, s, j) || j == s.next;
    forall k | 0 <= k < c.depth && s'.busy[k] ensures exists j: nat :: Outstanding(c, s', j) && Residue(c, j) == k {
      if k == i {
        assert Outstanding(c, s', s.next);
      } else {
        var j: nat :| Outstanding(c, s, j) && Residue(c, j) == k;
        assert Outstanding(c, s', j);
      }
    }
  }

  /** A downlink slot is handed on at once. */
  lemma PushKeepsInv(c: Config, s: State)
    requires Inv(c, s) && s.ru.RuNext? && !IsRx(c, s.next)
    ensures Inv(c, s.(txOut := s.txOut + [s.next], next := s.next + 1))
  {
    hide BusyInv;
    var s' := s.(txOut := s.txOut + [s.next], next := s.next + 1);
    assert TxPart(s') == TxPart(s) + [s.next];
    assert Upstream(s') == Upstream(s) + [s.next];
    hide RxPart, TxPart, IsRx;
    assert SameOutstanding(c, s, s');
    BusyFrame(c, s, s');
  }

  /** A slot whose partition is busy makes the RU thread wait. */
  lemma WaitingKeepsInv(c: Config, s: State)
    requires Inv(c, s) && s.ru.RuNext? && IsRx(c, s.next) && s.busy[Residue(c, s.next)]
    ensures Inv(c, s.(ru := RuWaiting))
  {
    hide BusyInv, IsRx;
    var s' := s.(ru := RuWaiting);
    assert Upstream(s') == Upstream(s);
    hide Upstream;
    assert SameOutstanding(c, s, s');
    BusyFrame(c, s, s');
  }

  lemma InvSized(c: Config, s: State)
    requires Inv(c, s)
    ensures ValidConfig(c) && |s.busy| == c.depth
  {
  }

  lemma RuBeginKeepsInv(c: Config, s: State)
    requires Inv(c, s) && s.ru.RuNext?
    ensures Inv(c, Apply(c, s, RuBegin))
  {
    hide QueuesInv, IsRx, Residue;
    InvSized(c, s);
    if !IsRx(c, s.next) {
      PushKeepsInv(c, s);
    } else if s.busy[Residue(c, s.next)] {
      WaitingKeepsInv(c, s);
    } else {
      ClaimKeepsInv(c, s);
    }
  }

  /** Pulling a completion frees exactly its own partition. */
  lemma FreeKeepsInv(c: Config, s: State)
    requires Inv(c, s) && s.rxOut != []
    ensures var s1 := s.(busy := s.busy[Residue(c, s.rxOut[0]) := false], rxOut := s.rxOut[1..]);
            && QueuesInv(c, s1) && BusyInv(c, s1)
            && forall j: nat :: Outstanding(c, s1, j) <==> Outstanding(c, s, j) && j != s.rxOut[0]
  {
    var h := s.rxOut[0];
    var s1 := s.(busy := s.busy[Residue(c, h) := false], rxOut := s.rxOut[1..]);
    assert Upstream(s1) == Upstream(s);
    assert s.rxOut == [h] + s1.rxOut;
    assert Outstanding(c, s, h);
    assert h !in s1.rxOut by {
      forall k | 0 <= k < |s1.rxOut| ensures s1.rxOut[k] != h {
        assert s1.rxOut[k] == s.rxOut[k + 1];
      }
    }
    assert forall j: nat :: Outstanding(c, s1, j) <==> Outstanding(c, s, j) && j != h;
    forall i | 0 <= i < c.depth && s1.busy[i] ensures exists j: nat :: Outstanding(c, s1, j) && Residue(c, j) == i {
      var j: nat :| Outstanding(c, s, j) && Residue(c, j) == i;
      assert Outstanding(c, s1, j);
    }
  }

  lemma RuPullKeepsInv(c: Config, s: State)
    requires Inv(c, s) && Enabled(s, RuPull)
    ensures Inv(c, Apply(c, s, RuPull))
  {
    FreeKeepsInv(c, s);
    var r := Residue(c, s.rxOut[0]);
    var s1 := s.(busy := s.busy[r := false], rxOut := s.rxOut[1..]);
    if r == Residue(c, s.next) {
      ClaimKeepsInv(c, s1);
    }
  }

  lemma NextKeepsInv(c: Config, s: State, step: Step, s': State)
    requires Inv(c, s) && Next(c, s, step, s')
    ensures Inv(c, s')
  {
    match step
    case RuBegin => RuBeginKeepsInv(c, s);
    case RuPull => RuPullKeepsInv(c, s);
    case RuPush => RuPushKeepsInv(c, s);
    case TxPull => L1StepKeepsInv(c, s, step);
    case TxForward => L1StepKeepsInv(c, s, step);
    case TxDone => L1StepKeepsInv(c, s, step);
    case RxPull => L1StepKeepsInv(c, s, step);
    case RxFinish => L1StepKeepsInv(c, s, step);
  }

  lemma {:induction false} RunInv(c: Config, states: seq<State>, steps: seq<Step>, i: nat)
    requires ValidConfig(c) && Run(c, states, steps) && i < |states|
    ensures Inv(c, states[i])
  {
    if i == 0 {
      InitInv(c);
    } else {
      RunInv(c, states, steps, i - 1);
      NextKeepsInv(c, states[i - 1], steps[i - 1], states[i]);
    }
  }

  // ---- Safety over every interleaving ----

  /** An RX job that some queue or thread holds. */
  ghost predicate Held(c: Config, s: State, job: nat)
    requires ValidConfig(c)
  {
    || job in s.rxOut
    || (IsRx(c, job) && (|| (s.ru.RuFrontEnd? && job == s.next)
                         || job in s.txOut || s.tx == TxScheduling(job)
                         || job in s.respL1 || s.rx == RxBusy(job)))
  }

  lemma HeldInUpstream(s: State, job: nat)
    ensures job in Upstream(s) <==>
              || (s.ru.RuFrontEnd? && job == s.next)
              || job in s.txOut || s.tx == TxScheduling(job)
              || job in s.respL1 || s.rx == RxBusy(job)
  {
  }

  /** The outstanding jobs are those that queues and threads hold. */
  lemma OutstandingIsHeld(c: Config, s: State, job: nat)
    requires ValidConfig(c) && QueuesInv(c, s)
    ensures Outstanding(c, s, job) <==> Held(c, s, job)
  {
    hide Upstream, IsRx;
    HeldInUpstream(s, job);
    if First(s) <= job < End(s) {
      assert Upstream(s)[job - First(s)] == job;
    }
  }

  /** A flag is set exactly when one RX job of its residue is outstanding; there are never two. */
  lemma BusyIffOneOutstanding(c: Config, states: seq<State>, steps: seq<Step>, i: nat, r: nat)
    requires ValidConfig(c) && Run(c, states, steps) && i < |states| && r < c.depth
    ensures var s := states[i];
            && |s.busy| == c.depth
            && (s.busy[r] <==> exists j: nat :: Held(c, s, j) && Residue(c, j) == r)
            && (forall j: nat, k: nat ::
                  Held(c, s, j) && Held(c, s, k) && Residue(c, j) == r && Residue(c, k) == r ==> j == k)
  {
    RunInv(c, states, steps, i);
    BusyIffHeld(c, states[i], r);
  }

  lemma BusyIffHeld(c: Config, s: State, r: nat)
    requires Inv(c, s) && r < c.depth
    ensures s.busy[r] <==> exists j: nat :: Held(c, s, j) && Residue(c, j) == r
    ensures forall j: nat, k: nat ::
              Held(c, s, j) && Held(c, s, k) && Residue(c, j) == r && Residue(c, k) == r ==> j == k
  {
    hide Held, Outstanding, QueuesInv, Residue;
    forall j: nat ensures Outstanding(c, s, j) <==> Held(c, s, j) {
      OutstandingIsHeld(c, s, j);
    }
    if s.busy[r] {
      var j: nat :| Outstanding(c, s, j) && Residue(c, j) == r;
      assert Held(c, s, j);
    }
  }

  /** While the front end writes a partition, no job still to be read by the RX thread uses it. */
  lemma FrontEndWritesFreePartition(c: Config, states: seq<State>, steps: seq<Step>, i: nat, job: nat)
    requires ValidConfig(c) && Run(c, states, steps) && i < |states| && states[i].ru.RuFrontEnd?
    requires var s := states[i];
             && IsRx(c, job)
             && (job in s.txOut || job in s.respL1 || s.tx == TxScheduling(job) || s.rx == RxBusy(job))
    ensures Residue(c, job) != Residue(c, states[i].next)
  {
    var s := states[i];
    RunInv(c, states, steps, i);
    var front := Upstream(s)[..|Upstream(s)| - 1];
    assert Upstream(s) == front + [s.next];
    assert job in front;
    var k :| 0 <= k < |front| && front[k] == job;
    assert Upstream(s)[k] == job;
    assert Outstanding(c, s, job) && Outstanding(c, s, s.next);
  }

  ghost function OutstandingSet(c: Config, s: State): set<nat>
    requires ValidConfig(c)
  {
    (set j | j in s.rxOut) + (set j: nat | First(s) <= j < End(s) && IsRx(c, j))
  }

  lemma OutstandingSetMembers(c: Config, s: State)
    requires ValidConfig(c)
    ensures forall j: nat :: j in OutstandingSet(c, s) <==> Outstanding(c, s, j)
  {
  }

  /** Jobs with pairwise different residues are no more than there are residues. */
  lemma {:induction false} ResiduesBound(c: Config, jobs: set<nat>, free: set<nat>)
    requires ValidConfig(c)
    requires forall j :: j in jobs ==> Residue(c, j) in free
    requires forall j, k :: j in jobs && k in jobs && Residue(c, j) == Residue(c, k) ==> j == k
    ensures |jobs| <= |free|
    decreases |jobs|
  {
    if jobs != {} {
      var j :| j in jobs;
      ResiduesBound(c, jobs - {j}, free - {Residue(c, j)});
    }
  }

  ghost function UpTo(n: nat): (r: set<nat>)
    ensures forall i: nat :: i in r <==> i < n
    ensures |r| == n
  {
    if n == 0 then {} else UpTo(n - 1) + {n - 1}
  }

  lemma OutstandingAtMostDepth(c: Config, s: State)
    requires Inv(c, s)
    ensures |OutstandingSet(c, s)| <= c.depth
  {
    OutstandingSetMembers(c, s);
    ResiduesBound(c, OutstandingSet(c, s), UpTo(c.depth));
  }

  /** At most `depth` RX jobs are in flight, in all queues and threads together. */
  lemma AtMostDepthInFlight(c: Config, states: seq<State>, steps: seq<Step>, i: nat, jobs: set<nat>)
    requires ValidConfig(c) && Run(c, states, steps) && i < |states|
    requires forall j :: j in jobs ==> Held(c, states[i], j)
    ensures |jobs| <= c.depth
  {
    RunInv(c, states, steps, i);
    hide Held, Outstanding, Residue;
    forall j, k | j in jobs && k in jobs && Residue(c, j) == Residue(c, k) ensures j == k {
      OutstandingIsHeld(c, states[i], j);
      OutstandingIsHeld(c, states[i], k);
    }
    ResiduesBound(c, jobs, UpTo(c.depth));
  }

  // ---- The wait cannot deadlock ----

  function Rank(s: State): nat {
    6 * |s.txOut| + (match s.tx case TxIdle => 0 case TxScheduling(_) => 5 case TxSending => 1)
    + 3 * |s.respL1| + (if s.rx.RxBusy? then 2 else 0) + |s.rxOut|
  }

  lemma StepLowersRank(c: Config, s: State, step: Step)
    requires ValidConfig(c) && |s.busy| == c.depth && s.ru.RuWaiting? && Enabled(s, step)
    ensures Rank(Apply(c, s, step)) < Rank(s)
  {
  }

  /**
    While the RU thread waits: a matching job is outstanding, some step of another thread is
    enabled when no completion is queued, and every step that can happen decreases the rank.
  */
  lemma WaitMakesProgress(c: Config, s: State)
    requires Inv(c, s) && s.ru.RuWaiting?
    ensures exists j: nat :: Outstanding(c, s, j) && Residue(c, j) == Residue(c, s.next)
    ensures s.rxOut != [] || exists step :: Enabled(s, step) && !IsRuStep(step)
    ensures forall step :: Enabled(s, step) ==> Rank(Apply(c, s, step)) < Rank(s)
  {
    hide Apply, Rank, QueuesInv, IsRx;
    forall step | Enabled(s, step) ensures Rank(Apply(c, s, step)) < Rank(s) {
      StepLowersRank(c, s, step);
    }
    var j: nat :| Outstanding(c, s, j) && Residue(c, j) == Residue(c, s.next);
    if s.rxOut == [] {
      var step := UpstreamMoves(s);
    }
  }

  /** A job upstream of the RX thread, or in it, can be moved on by an L1 thread. */
  lemma UpstreamMoves(s: State) returns (step: Step)
    requires Upstream(s) != [] && !s.ru.RuFrontEnd?
    ensures Enabled(s, step) && !IsRuStep(step)
  {
    step := if s.rx.RxBusy? then RxFinish
            else if s.respL1 != [] then RxPull
            else if s.tx.TxScheduling? then TxForward
            else if s.tx.TxSending? then TxDone
            else TxPull;
  }

  ghost predicate WaitsThroughout(states: seq<State>, steps: seq<Step>)
    requires |states| == |steps| + 1
  {
    forall i :: 0 <= i < |steps| ==> states[i].ru.RuWaiting?
  }

  function Pulls(steps: seq<Step>): nat {
    if steps == [] then 0 else (if steps[0].RuPull? then 1 else 0) + Pulls(steps[1..])
  }

  lemma SegmentTail(c: Config, states: seq<State>, steps: seq<Step>)
    requires Segment(c, states, steps) && WaitsThroughout(states, steps) && steps != []
    ensures Segment(c, states[1..], steps[1..]) && WaitsThroughout(states[1..], steps[1..])
    ensures Next(c, states[0], steps[0], states[1]) && states[0].ru.RuWaiting?
    ensures states[1].ru.RuWaiting? || steps[1..] == []
  {
    forall i | 0 <= i < |steps[1..]| ensures Next(c, states[1..][i], steps[1..][i], states[1..][i + 1]) {
      assert Next(c, states[i + 1], steps[i + 1], states[i + 2]);
    }
  }

  /** A wait lasts at most as many steps, of all threads together, as its rank at the start. */
  lemma {:induction false} WaitIsFinite(c: Config, states: seq<State>, steps: seq<Step>)
    requires Segment(c, states, steps) && Inv(c, states[0]) && WaitsThroughout(states, steps)
    ensures |steps| <= Rank(states[0])
    decreases |steps|
  {
    hide Inv, Apply, WaitsThroughout, Rank;
    if steps != [] {
      SegmentTail(c, states, steps);
      WaitMakesProgress(c, states[0]);
      NextKeepsInv(c, states[0], steps[0], states[1]);
      WaitIsFinite(c, states[1..], steps[1..]);
    }
  }

  lemma SameOutstandingSet(c: Config, s: State, s': State)
    requires ValidConfig(c) && SameOutstanding(c, s, s')
    ensures OutstandingSet(c, s') == OutstandingSet(c, s)
  {
    OutstandingSetMembers(c, s);
    OutstandingSetMembers(c, s');
    forall j: nat ensures j in OutstandingSet(c, s') <==> j in OutstandingSet(c, s) {
      assert Outstanding(c, s', j) <==> Outstanding(c, s, j);
    }
  }

  lemma PullRemovesOne(c: Config, s: State)
    requires Inv(c, s) && Enabled(s, RuPull) && Apply(c, s, RuPull).ru.RuWaiting?
    ensures |OutstandingSet(c, s)| == |OutstandingSet(c, Apply(c, s, RuPull))| + 1
  {
    var s' := Apply(c, s, RuPull);
    FreeKeepsInv(c, s);
    OutstandingSetMembers(c, s);
    OutstandingSetMembers(c, s');
    assert Outstanding(c, s, s.rxOut[0]);
    hide OutstandingSet, Outstanding, BusyInv, QueuesInv;
    assert OutstandingSet(c, s') == OutstandingSet(c, s) - {s.rxOut[0]};
  }

  /** A step of a wait that goes on removes one outstanding job if it is a pull, and else none. */
  lemma WaitStepSize(c: Config, s: State, step: Step)
    requires Inv(c, s) && s.ru.RuWaiting? && Enabled(s, step) && Apply(c, s, step).ru.RuWaiting?
    ensures |OutstandingSet(c, s)| == |OutstandingSet(c, Apply(c, s, step))| + if step.RuPull? then 1 else 0
  {
    hide OutstandingSet, QueuesInv, SameOutstanding;
    if step.RuPull? {
      PullRemovesOne(c, s);
    } else {
      L1StepKeepsInv(c, s, step);
      SameOutstandingSet(c, s, Apply(c, s, step));
    }
  }

  lemma PullNeedsOutstanding(c: Config, s: State)
    requires Inv(c, s) && s.rxOut != []
    ensures |OutstandingSet(c, s)| >= 1
  {
    assert s.rxOut[0] in OutstandingSet(c, s);
  }

  /** A wait pulls at most `depth` completions. */
  lemma {:induction false} WaitPulls(c: Config, states: seq<State>, steps: seq<Step>)
    requires Segment(c, states, steps) && Inv(c, states[0]) && WaitsThroughout(states, steps)
    ensures Pulls(steps) <= |OutstandingSet(c, states[0])| <= c.depth
    decreases |steps|
  {
    hide Inv, OutstandingSet, Apply, WaitsThroughout;
    OutstandingAtMostDepth(c, states[0]);
    if steps != [] {
      SegmentTail(c, states, steps);
      NextKeepsInv(c, states[0], steps[0], states[1]);
      WaitPulls(c, states[1..], steps[1..]);
      if states[1].ru.RuWaiting? {
        WaitStepSize(c, states[0], steps[0]);
      } else {
        if steps[0].RuPull? {
          PullNeedsOutstanding(c, states[0]);
        }
      }
    }
  }

  // ---- Bounded lead ----

  /** The first slot from `from` on that has number `u` in its frame. */
  function NextNumbered(from: int, u: int, n: int): int
    requires n > 0
  {
    from + (u - from) % n
  }

  lemma NextNumberedIs(from: int, u: int, n: int)
    requires 0 <= u < n
    ensures from <= NextNumbered(from, u, n) < from + n && NextNumbered(from, u, n) % n == u
    ensures (NextNumbered(from, u, n) + n) % n == u
  {
    ModAdd(u - from, from, n);
    DivModUnique(u, n, 0, u);
    AddMultiple(NextNumbered(from, u, n), n, 1);
  }

  /** Two open jobs for the same slot of a frame are not RX jobs. */
  lemma OneRound(c: Config, s: State, j: nat, k: nat, u: nat)
    requires Inv(c, s) && First(s) <= j < k < End(s) && u < c.slotsPerFrame
    requires SlotOf(c, j) % c.slotsPerFrame == u == SlotOf(c, k) % c.slotsPerFrame
    ensures !c.rx[u]
  {
    if c.rx[u] {
      assert Outstanding(c, s, j) && Outstanding(c, s, k);
    }
  }

  lemma InvFirst(c: Config, s: State)
    requires Inv(c, s)
    ensures First(s) >= c.first
  {
  }

  /** From job `from` on, slots are `shift` ahead of jobs: a frame of open jobs and another have no RX slot. */
  lemma LeadFrom(c: Config, s: State, u: nat, from: nat, shift: nat)
    requires Inv(c, s) && u < c.slotsPerFrame && c.rx[u] && First(s) <= from
    requires forall j: nat :: j >= from ==> SlotOf(c, j) == j + shift
    ensures End(s) - from < 2 * c.slotsPerFrame
  {
    hide Inv, SlotOf, NextNumbered, First, End;
    var n := c.slotsPerFrame;
    if End(s) - from >= 2 * n {
      var x := NextNumbered(from + shift, u, n);
      NextNumberedIs(from + shift, u, n);
      OneRound(c, s, x - shift, x - shift + n, u);
    }
  }

  /**
    With an uplink or mixed slot in the frame, the RU thread is never two frames of jobs ahead of the oldest job
    that the RX thread has not handled; it can be exactly so while the job of an aligning first reception is open.
  */
  lemma BoundedLead(c: Config, states: seq<State>, steps: seq<Step>, i: nat)
    requires ValidConfig(c) && Run(c, states, steps) && i < |states|
    requires exists u :: 0 <= u < c.slotsPerFrame && c.rx[u]
    ensures End(states[i]) - First(states[i]) <= 2 * c.slotsPerFrame
    ensures !c.aligned || First(states[i]) > c.first ==> End(states[i]) - First(states[i]) < 2 * c.slotsPerFrame
  {
    hide Inv, Run;
    RunInv(c, states, steps, i);
    InvFirst(c, states[i]);
    var u :| 0 <= u < c.slotsPerFrame && c.rx[u];
    if c.aligned && First(states[i]) == c.first {
      LeadFrom(c, states[i], u, c.first + 1, 1);
    } else {
      LeadFrom(c, states[i], u, First(states[i]), if c.aligned then 1 else 0);
    }
  }

  ghost predicate Reachable(c: Config, s: State) {
    exists states, steps :: Run(c, states, steps) && states[|steps|] == s
  }

  lemma ReachNext(c: Config, s: State, step: Step, s': State)
    requires Reachable(c, s) && Next(c, s, step, s')
    ensures Reachable(c, s')
  {
    hide Next;
    var states, steps :| Run(c, states, steps) && states[|steps|] == s;
    var states', steps' := states + [s'], steps + [step];
    forall i | 0 <= i < |steps'| ensures Next(c, states'[i], steps'[i], states'[i + 1]) {
      if i < |steps| {
        assert Next(c, states[i], steps[i], states[i + 1]);
      }
    }
    assert Run(c, states', steps');
  }

  /** The L1 threads have not run yet and the RU thread has made `n` jobs. */
  ghost function Ahead(c: Config, n: nat, busy: seq<bool>): State {
    Init(c).(next := c.first + n, txOut := seq(n, k => c.first + k), busy := busy)
  }

  lemma AheadOneMore(c: Config, n: nat, busy: seq<bool>)
    ensures Ahead(c, n + 1, busy)
         == Ahead(c, n, busy).(next := c.first + n + 1, txOut := Ahead(c, n, busy).txOut + [c.first + n])
    ensures Upstream(Ahead(c, n, busy)) == seq(n, k => c.first + k)
  {
  }

  lemma AheadStep(c: Config, n: nat, busy: seq<bool>)
    requires ValidConfig(c) && |busy| == c.depth && !IsRx(c, c.first + n)
    requires Reachable(c, Ahead(c, n, busy))
    ensures Reachable(c, Ahead(c, n + 1, busy))
  {
    hide Reachable, IsRx;
    AheadOneMore(c, n, busy);
    ReachNext(c, Ahead(c, n, busy), RuBegin, Ahead(c, n + 1, busy));
  }

  /** A free RX slot is claimed, then handed on. */
  lemma AheadRxStep(c: Config, n: nat, busy: seq<bool>)
    requires ValidConfig(c) && |busy| == c.depth && IsRx(c, c.first + n) && !busy[Residue(c, c.first + n)]
    requires Reachable(c, Ahead(c, n, busy))
    ensures Reachable(c, Ahead(c, n + 1, busy[Residue(c, c.first + n) := true]))
  {
    hide Reachable, IsRx, Residue;
    var busy' := busy[Residue(c, c.first + n) := true];
    AheadOneMore(c, n, busy');
    var s, s' := Ahead(c, n, busy), Ahead(c, n + 1, busy');
    var claimed := s.(busy := busy', ru := RuFrontEnd);
    ReachNext(c, s, RuBegin, claimed);
    ReachNext(c, claimed, RuPush, s');
  }

  lemma AheadNone(c: Config)
    ensures Reachable(c, Ahead(c, 0, Init(c).busy))
  {
    assert Ahead(c, 0, Init(c).busy) == Init(c);
    assert Run(c, [Init(c)], []);
  }

  /** One uplink slot in a frame of n, skipped by the aligning first reception at slot 0. */
  function AlignedConfig(n: nat): Config {
    Config(n, 1, seq(n, i => i == 1), 0, true)
  }

  /** Until the second uplink slot that is received, nothing holds the RU thread back. */
  lemma {:induction false} AlignedAhead(n: nat, k: nat)
    requires n >= 2 && k <= 2 * n
    ensures Reachable(AlignedConfig(n), Ahead(AlignedConfig(n), k, [k > n]))
  {
    hide Reachable, Ahead, IsRx;
    var c := AlignedConfig(n);
    if k == 0 {
      assert Init(c).busy == [false];
      AheadNone(c);
    } else {
      AlignedAhead(n, k - 1);
      AlignedRx(n, k - 1);
      if k - 1 == n {
        AheadRxStep(c, k - 1, [false]);
        assert [false][Residue(c, c.first + (k - 1)) := true] == [true];
      } else {
        AheadStep(c, k - 1, [k - 1 > n]);
      }
    }
  }

  lemma AlignedRx(n: nat, j: nat)
    requires n >= 2 && j < 2 * n
    ensures ValidConfig(AlignedConfig(n)) && (IsRx(AlignedConfig(n), j) <==> j == n)
  {
    if j == 0 {
      DivModUnique(0, n, 0, 0);
    } else if j + 1 < n {
      DivModUnique(j + 1, n, 0, j + 1);
    } else if j + 1 < 2 * n {
      DivModUnique(j + 1, n, 1, j + 1 - n);
    } else {
      DivModUnique(j + 1, n, 2, 0);
    }
  }

  /** Two full frames of jobs are reached after an aligning first reception. */
  lemma AlignedLeadReached(n: nat) returns (s: State)
    requires n >= 2
    ensures ValidConfig(AlignedConfig(n)) && Reachable(AlignedConfig(n), s) && End(s) - First(s) == 2 * n
  {
    var c := AlignedConfig(n);
    AlignedRx(n, 0);
    AlignedAhead(n, 2 * n);
    s := Ahead(c, 2 * n, [true]);
    AheadOneMore(c, 2 * n, [true]);
  }

  /** Without an uplink or mixed slot, nothing ever holds the RU thread back: every lead is reached. */
  lemma {:induction false} UnboundedLeadWithoutRx(c: Config, lead: nat)
    requires ValidConfig(c) && forall u :: 0 <= u < c.slotsPerFrame ==> !c.rx[u]
    ensures var s := Ahead(c, lead, Init(c).busy);
            Reachable(c, s) && End(s) - First(s) == lead
  {
    var busy := Init(c).busy;
    AheadOneMore(c, lead, busy);
    hide Reachable;
    if lead == 0 {
      AheadNone(c);
    } else {
      UnboundedLeadWithoutRx(c, lead - 1);
      AheadStep(c, lead - 1, busy);
    }
  }

  // ---- The wait loop as the RU thread runs it ----

  /** Some completed slot among `slots` uses flag `i`. */
  predicate Completes(slots: seq<nat>, depth: nat, i: nat)
    requires depth > 0
  {
    exists k :: 0 <= k < |slots| && slots[k] % depth == i
  }

  /** Flags after pulling `slots`: the completed ones are cleared, and the caller's is set if it got its slot. */
  ghost predicate FlagsAfter(before: seq<bool>, slots: seq<nat>, ok: bool, idx: nat, after: seq<bool>)
    requires |before| > 0
  {
    && |after| == |before|
    && forall i :: 0 <= i < |before| ==>
         after[i] == if ok && i == idx then true else before[i] && !Completes(slots, |before|, i)
  }

  /**
    `wait_free_rx_tti`: `completions` are the slots the completion queue delivers until it is
    aborted. The loop pulls up to the first completion of the caller's own residue.
  */
  method WaitFreeRxTti(completions: seq<nat>, busy: array<bool>, slot: nat) returns (ok: bool, pulled: nat)
    requires busy.Length > 0
    modifies busy
    ensures pulled <= |completions|
    ensures !old(busy[slot % busy.Length]) ==> ok && pulled == 0
    ensures old(busy[slot % busy.Length]) ==>
              if ok then
                && pulled > 0 && completions[pulled - 1] % busy.Length == slot % busy.Length
                && !Completes(completions[..pulled - 1], busy.Length, slot % busy.Length)
              else pulled == |completions| && !Completes(completions, busy.Length, slot % busy.Length)
    ensures FlagsAfter(old(busy[..]), completions[..pulled], ok, slot % busy.Length, busy[..])
  {
    var depth := busy.Length;
    var idx := slot % depth;
    ghost var before := busy[..];
    ok, pulled := true, 0;
    if busy[idx] {
      var notDone := true;
      while notDone
        invariant pulled <= |completions| && ok
        invariant forall i :: 0 <= i < depth ==> busy[i] == (before[i] && !Completes(completions[..pulled], depth, i))
        invariant notDone ==> !Completes(completions[..pulled], depth, idx)
        invariant !notDone ==> pulled > 0 && completions[pulled - 1] % depth == idx
                               && !Completes(completions[..pulled - 1], depth, idx)
        decreases |completions| - pulled, notDone
      {
        if pulled == |completions| {
          ok := false;
          assert completions[..pulled] == completions;
          return;
        }
        var info := completions[pulled];
        CompletesOneMore(completions, pulled, depth);
        busy[info % depth] := false;
        if info % depth == idx {
          notDone := false;
        }
        pulled := pulled + 1;
      }
    }
    busy[idx] := true;
  }

  lemma CompletesOneMore(slots: seq<nat>, k: nat, depth: nat)
    requires k < |slots| && depth > 0
    ensures forall i: nat :: Completes(slots[..k + 1], depth, i) <==> Completes(slots[..k], depth, i) || slots[k] % depth == i
  {
    assert slots[..k + 1] == slots[..k] + [slots[k]];
    hide Completes;
    forall i: nat
      ensures Completes(slots[..k + 1], depth, i) <==> Completes(slots[..k], depth, i) || slots[k] % depth == i
    {
      CompletesAppended(slots[..k], slots[k], depth, i);
      AppendedCompletes(slots[..k], slots[k], depth, i);
    }
  }

  lemma CompletesAppended(slots: seq<nat>, last: nat, depth: nat, i: nat)
    requires depth > 0
    ensures Completes(slots + [last], depth, i) ==> Completes(slots, depth, i) || last % depth == i
  {
    var all := slots + [last];
    if l :| 0 <= l < |all| && all[l] % depth == i {
      if l < |slots| {
        assert slots[l] % depth == i;
      }
    }
  }

  lemma AppendedCompletes(slots: seq<nat>, last: nat, depth: nat, i: nat)
    requires depth > 0
    ensures Completes(slots, depth, i) || last % depth == i ==> Completes(slots + [last], depth, i)
  {
    var all := slots + [last];
    if l :| 0 <= l < |slots| && slots[l] % depth == i {
      assert all[l] % depth == i;
    } else {
      assert all[|slots|] == last;
    }
  }

  ghost function SlotsOf(c: Config, jobs: seq<nat>): seq<nat>
    requires ValidConfig(c)
  {
    seq(|jobs|, k requires 0 <= k < |jobs| => SlotOf(c, jobs[k]) % c.slotsPerFrame)
  }

  ghost function AfterPulls(c: Config, s: State, k: nat): State
    requires ValidConfig(c) && |s.busy| == c.depth
    decreases k
  {
    if k == 0 || !Enabled(s, RuPull) then s else AfterPulls(c, Apply(c, s, RuPull), k - 1)
  }

  /** The loop is what the pull steps of the transition system do, one completion after the other. */
  lemma {:induction false} PullStepsFollowLoop(c: Config, s: State, k: nat)
    requires ValidConfig(c) && |s.busy| == c.depth && s.ru.RuWaiting? && 0 < k <= |s.rxOut|
    requires Residue(c, s.rxOut[k - 1]) == Residue(c, s.next)
    requires forall i :: 0 <= i < k - 1 ==> Residue(c, s.rxOut[i]) != Residue(c, s.next)
    ensures var s' := AfterPulls(c, s, k);
            && s' == s.(ru := RuFrontEnd, busy := s'.busy, rxOut := s.rxOut[k..])
            && FlagsAfter(s.busy, SlotsOf(c, s.rxOut[..k]), true, Residue(c, s.next), s'.busy)
    decreases k
  {
    var s1 := Apply(c, s, RuPull);
    var slots := SlotsOf(c, s.rxOut[..k]);
    var h := Residue(c, s.rxOut[0]);
    assert slots[0] % c.depth == h;
    if k == 1 {
      assert AfterPulls(c, s1, 0) == s1;
      forall i: nat | i < c.depth ensures Completes(slots, c.depth, i) <==> i == h {
      }
    } else {
      PullStepsFollowLoop(c, s1, k - 1);
      var rest := SlotsOf(c, s1.rxOut[..k - 1]);
      assert s1.rxOut[k - 1..] == s.rxOut[k..];
      assert slots == [slots[0]] + rest;
      forall i: nat | i < c.depth ensures Completes(slots, c.depth, i) <==> i == h || Completes(rest, c.depth, i) {
        if l :| 0 <= l < |rest| && rest[l] % c.depth == i {
          assert slots[l + 1] % c.depth == i;
        }
      }
    }
  }
}
