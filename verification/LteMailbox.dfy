/**
  The one-place mailbox between `wakeup_tx` and `L1_thread_tx` (executables/lte-enb.c). Both sides
  share one condition variable. Code under the mutex is one atomic step; a thread blocked in
  `pthread_cond_wait` leaves it by a signal or spuriously, and then tests its condition again.
*/
module LteMailbox {
  /** The fields written for one downlink subframe. */
  datatype Job = Job(frameRx: nat, subframeRx: nat, frameTx: nat, subframeTx: nat, timestampTx: int)

  datatype Producer = ProducerIdle | ProducerBlocked(job: Job) | ProducerWoken(job: Job)
  datatype Consumer = ConsumerIdle | ConsumerBlocked | ConsumerWoken | ConsumerProcessing

  /** `count` is `instance_cnt` (-1 or 0); `published` and `processed` are history. */
  datatype State = State(
    count: int,
    fields: Job,
    producer: Producer,
    consumer: Consumer,
    published: seq<Job>,
    processed: seq<Job>)

  datatype Step =
    | WakeupTx(job: Job, uplink: bool)
    | ProducerRetries
    | ConsumerTests
    | ConsumerFinishes
    | SpuriousProducer
    | SpuriousConsumer

  function Init(fields: Job): State {
    State(-1, fields, ProducerIdle, ConsumerIdle, [], [])
  }

  /** `pthread_cond_signal` by one side: the other side, if blocked, is made runnable; else it is lost. */
  function SignalConsumer(s: State): State {
    if s.consumer.ConsumerBlocked? then s.(consumer := ConsumerWoken) else s
  }

  function SignalProducer(s: State): State {
    match s.producer
    case ProducerBlocked(job) => s.(producer := ProducerWoken(job))
    case _ => s
  }

  /** Under the mutex: block while the mailbox is full, else fill it and signal. */
  function Publish(s: State, job: Job): State {
    if s.count == 0 then s.(producer := ProducerBlocked(job))
    else SignalConsumer(s.(count := 0, fields := job, producer := ProducerIdle, published := s.published + [job]))
  }

  predicate Enabled(s: State, step: Step) {
    match step
    case WakeupTx(_, _) => s.producer.ProducerIdle?
    case ProducerRetries => s.producer.ProducerWoken?
    case ConsumerTests => s.consumer.ConsumerIdle? || s.consumer.ConsumerWoken?
    case ConsumerFinishes => s.consumer.ConsumerProcessing?
    case SpuriousProducer => s.producer.ProducerBlocked?
    case SpuriousConsumer => s.consumer.ConsumerBlocked?
  }

  function Apply(s: State, step: Step): State
    requires Enabled(s, step)
  {
    match step
    case WakeupTx(job, uplink) => if uplink then s else Publish(s, job)
    case ProducerRetries => Publish(s, s.producer.job)
    case ConsumerTests => s.(consumer := if s.count < 0 then ConsumerBlocked else ConsumerProcessing)
    case ConsumerFinishes =>
      SignalProducer(s.(count := -1, consumer := ConsumerIdle, processed := s.processed + [s.fields]))
    case SpuriousProducer => s.(producer := ProducerWoken(s.producer.job))
    case SpuriousConsumer => s.(consumer := ConsumerWoken)
  }

  ghost predicate Run(fields: Job, states: seq<State>, steps: seq<Step>) {
    && |states| == |steps| + 1
    && states[0] == Init(fields)
    && forall i :: 0 <= i < |steps| ==> Enabled(states[i], steps[i]) && states[i + 1] == Apply(states[i], steps[i])
  }

  ghost predicate Inv(s: State) {
    && (s.count == 0 || s.count == -1)
    && s.published == s.processed + (if s.count == 0 then [s.fields] else [])
    && (s.consumer.ConsumerProcessing? ==> s.count == 0)
    && (s.producer.ProducerBlocked? ==> s.count == 0)
    && (s.consumer.ConsumerBlocked? ==> s.count == -1)
  }

  /** The downlink jobs handed over by the calls of a run, in order. */
  function DownlinkJobs(steps: seq<Step>): seq<Job> {
    if steps == [] then []
    else
      var last := steps[|steps| - 1];
      DownlinkJobs(steps[..|steps| - 1]) + if last.WakeupTx? && !last.uplink then [last.job] else []
  }

  /** How often the consumer has finished. */
  function Finishes(steps: seq<Step>): nat {
    if steps == [] then 0
    else Finishes(steps[..|steps| - 1]) + if steps[|steps| - 1].ConsumerFinishes? then 1 else 0
  }

  /** A job on its way into the mailbox. */
  function Waiting(s: State): seq<Job> {
    if s.producer.ProducerIdle? then [] else [s.producer.job]
  }

  function Handed(step: Step): seq<Job> {
    if step.WakeupTx? && !step.uplink then [step.job] else []
  }

  /** A step adds to the jobs on their way exactly what it hands over. */
  lemma ApplyHandsOver(s: State, step: Step)
    requires Inv(s) && Enabled(s, step)
    ensures Apply(s, step).published + Waiting(Apply(s, step)) == s.published + Waiting(s) + Handed(step)
    ensures |Apply(s, step).processed| == |s.processed| + if step.ConsumerFinishes? then 1 else 0
  {
  }

  lemma {:induction false} PublishedFromSteps(fields: Job, states: seq<State>, steps: seq<Step>, i: nat)
    requires Run(fields, states, steps) && i < |states|
    ensures DownlinkJobs(steps[..i]) == states[i].published + Waiting(states[i])
    ensures |states[i].processed| == Finishes(steps[..i])
  {
    if i > 0 {
      PublishedFromSteps(fields, states, steps, i - 1);
      RunInv(fields, states, steps, i - 1);
      ApplyHandsOver(states[i - 1], steps[i - 1]);
      assert steps[..i][..i - 1] == steps[..i - 1];
      hide Apply, Enabled;
    }
  }

  lemma ApplyKeepsInv(s: State, step: Step)
    requires Inv(s) && Enabled(s, step)
    ensures Inv(Apply(s, step))
  {
  }

  lemma {:induction false} RunInv(fields: Job, states: seq<State>, steps: seq<Step>, i: nat)
    requires Run(fields, states, steps) && i < |states|
    ensures Inv(states[i])
  {
    if i > 0 {
      RunInv(fields, states, steps, i - 1);
      ApplyKeepsInv(states[i - 1], steps[i - 1]);
    }
  }

  /**
    Every downlink subframe handed to `wakeup_tx` is published and processed exactly once and in
    order: behind the processed ones come the mailbox and the job of a blocked producer, if any.
  */
  lemma ProcessedInOrder(fields: Job, states: seq<State>, steps: seq<Step>, i: nat)
    requires Run(fields, states, steps) && i < |states|
    ensures var s := states[i];
            && DownlinkJobs(steps[..i]) == s.processed + (if s.count == 0 then [s.fields] else [])
                                           + (if s.producer.ProducerIdle? then [] else [s.producer.job])
            && |s.processed| == Finishes(steps[..i])
  {
    RunInv(fields, states, steps, i);
    PublishedFromSteps(fields, states, steps, i);
  }

  /** While the consumer works, no step changes the fields it reads, and its end records them. */
  lemma FieldsStableWhileProcessing(fields: Job, states: seq<State>, steps: seq<Step>, i: nat)
    requires Run(fields, states, steps) && i < |steps| && states[i].consumer.ConsumerProcessing?
    ensures states[i + 1].fields == states[i].fields
    ensures steps[i].ConsumerFinishes? ==> states[i + 1].processed == states[i].processed + [states[i].fields]
    ensures !steps[i].ConsumerFinishes? ==>
              states[i + 1].consumer.ConsumerProcessing? && states[i + 1].processed == states[i].processed
  {
    RunInv(fields, states, steps, i);
  }

  /** The two sides are never both blocked, and a blocked side can always rely on the other. */
  lemma NeverBothBlocked(fields: Job, states: seq<State>, steps: seq<Step>, i: nat)
    requires Run(fields, states, steps) && i < |states|
    ensures var s := states[i];
            && !(s.producer.ProducerBlocked? && s.consumer.ConsumerBlocked?)
            && (s.producer.ProducerBlocked? ==> Enabled(s, ConsumerTests) || Enabled(s, ConsumerFinishes))
            && (s.consumer.ConsumerBlocked? ==> s.producer.ProducerIdle? || Enabled(s, ProducerRetries))
  {
    RunInv(fields, states, steps, i);
  }

  /** Steps left for the consumer until a blocked producer is signalled. */
  function ConsumerWork(s: State): nat {
    match s.consumer
    case ConsumerProcessing => 0
    case ConsumerIdle => 1
    case ConsumerWoken => 1
    case ConsumerBlocked => 2
  }

  /** A blocked producer is released after at most two steps of the consumer. */
  lemma BlockedProducerReleased(s: State)
    requires Inv(s) && s.producer.ProducerBlocked?
    ensures ConsumerWork(s) <= 1
    ensures Enabled(s, ConsumerTests) ==>
              var s' := Apply(s, ConsumerTests);
              s'.consumer.ConsumerProcessing? && s'.producer == s.producer && ConsumerWork(s') < ConsumerWork(s)
    ensures Enabled(s, ConsumerFinishes) ==>
              var s' := Apply(s, ConsumerFinishes);
              && s'.producer == ProducerWoken(s.producer.job)
              && Apply(s', ProducerRetries).published == s'.published + [s.producer.job]
  {
  }
}
