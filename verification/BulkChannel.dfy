/**
 The audio channel of src/relay/bulk/bulk_channel.cpp: the engine's thread in
 `receive`, the worker's in `run`, and the owner in `stop` and `disposeBulk`,
 interleaving freely above the two-thread ring of `Spsc`.
 */
module BulkChannel {
  import opened Text
  import Ring = Spsc

  const DRAIN_BYTES: nat := 16 * 1024
  const QUEUE_BYTES: nat := 128 * 1024
  const U64: nat := 0x1_0000_0000_0000_0000

  /** Where the engine's thread is: outside, in `ring_.write`, or about to count what was refused. */
  datatype Engine = EngineIdle | InWrite(bytes: nat, before: nat) | Refusing(refused: nat)

  /** Where the worker is in `run` and `markFinished`. */
  datatype Worker =
    | AtLoop
    | AboutToRead
    | InRead(before: nat)
    | InHand(chunk: seq<Byte>)
    | Written(chunk: seq<Byte>)
    | Marking
    | Notifying
    | Exited

  /** Where the owner is in `disposeBulk`: `Stopped` is the result of `stop`. */
  datatype Owner = Holding | Waiting | Joining | Stopped(ok: bool) | Freed | Released

  /**
   `host` is everything the endpoint took.  A write that fails may have sent part
   of its chunk: `torn` bytes, counted nowhere; `lost` is the rest of that chunk;
   `offered` the bytes of all calls with a context and data.
   */
  datatype State = State(
    ring: Ring.State, engine: Engine, worker: Worker, owner: Owner,
    host: seq<Byte>, torn: nat, lost: seq<Byte>,
    forwarded: nat, dropped: nat, offered: nat,
    stopping: bool, finished: bool)

  datatype Step =
    | Receive(data: seq<Byte>)
    | EngineStep(engineStep: Ring.Step)
    | CountRefused
    | CheckStopping
    | StartRead
    | WorkerStep(workerStep: Ring.Step)
    | EndpointWrites
    | EndpointFails(sent: nat)
    | CountForwarded
    | SetFinished
    | NotifyAll
    | BeginStop
    | WaitEnds
    | Join
    | Dispose

  function Initial(): State {
    State(Ring.Initial(QUEUE_BYTES), EngineIdle, AtLoop, Holding, [], 0, [], 0, 0, 0, false, false)
  }

  predicate Shaped(s: State) {
    && Ring.Shaped(s.ring)
    && (s.worker.InRead? ==> s.worker.before <= |s.ring.delivered|)
    && (s.engine.InWrite? ==> s.engine.before <= |s.ring.accepted| <= s.engine.before + s.engine.bytes)
  }

  predicate ProducerStep(step: Ring.Step) { step.LoadTail? || step.CopyByte? || step.PublishHead? }

  predicate ConsumerStep(step: Ring.Step) { step.LoadHead? || step.FetchByte? || step.PublishTail? }

  /** The engine's thread, in `receive`. */
  function EngineApply(s: State, step: Step): Option<State>
    requires Shaped(s)
  {
    match step
    case Receive(data) =>
      if !s.engine.EngineIdle? || s.owner.Freed? then None else
      (match Ring.Apply(s.ring, Ring.Offer(data))
       case None => None
       case Some(ring) =>
         Some(s.(ring := ring, engine := InWrite(|data|, |s.ring.accepted|), offered := s.offered + |data|)))
    case EngineStep(ringStep) =>
      if !s.engine.InWrite? || !ProducerStep(ringStep) then None else
      (match Ring.Apply(s.ring, ringStep)
       case None => None
       case Some(ring) =>
         var taken := |ring.accepted| - s.engine.before;
         if !ring.producer.ProducerIdle? then Some(s.(ring := ring))
         else if 0 <= taken <= s.engine.bytes
         then Some(s.(ring := ring, engine := Refusing(s.engine.bytes - taken)))
         else None)
    case CountRefused =>
      if s.engine.Refusing?
      then Some(s.(engine := EngineIdle, dropped := (s.dropped + s.engine.refused) % U64)) else None
    case _ => None
  }

  /** The worker's thread, in `run` and `markFinished`. */
  function WorkerApply(s: State, step: Step): Option<State>
    requires Shaped(s)
  {
    match step
    case CheckStopping =>
      if s.worker.AtLoop? then Some(s.(worker := if s.stopping then Marking else AboutToRead)) else None
    case StartRead =>
      if !s.worker.AboutToRead? then None else
      (match Ring.Apply(s.ring, Ring.Ask(DRAIN_BYTES))
       case None => None
       case Some(ring) => Some(s.(ring := ring, worker := InRead(|s.ring.delivered|))))
    case WorkerStep(ringStep) =>
      if !s.worker.InRead? || !ConsumerStep(ringStep) then None else
      (match Ring.Apply(s.ring, ringStep)
       case None => None
       case Some(ring) =>
         if !ring.consumer.ConsumerIdle? then Some(s.(ring := ring))
         else if |ring.delivered| <= s.worker.before then Some(s.(ring := ring, worker := AtLoop))
         else Some(s.(ring := ring, worker := InHand(ring.delivered[s.worker.before..]))))
    case EndpointWrites =>
      if s.worker.InHand?
      then Some(s.(worker := Written(s.worker.chunk), host := s.host + s.worker.chunk)) else None
    case EndpointFails(sent) =>
      if s.worker.InHand? && sent <= |s.worker.chunk|
      then Some(s.(worker := Marking, host := s.host + s.worker.chunk[..sent], torn := sent,
                   lost := s.worker.chunk[sent..]))
      else None
    case CountForwarded =>
      if s.worker.Written?
      then Some(s.(worker := AtLoop, forwarded := (s.forwarded + |s.worker.chunk|) % U64)) else None
    case SetFinished =>
      if s.worker.Marking? then Some(s.(worker := Notifying, finished := true)) else None
    case NotifyAll =>
      if s.worker.Notifying? then Some(s.(worker := Exited)) else None
    case _ => None
  }

  /** The owner, in `stop` and then `disposeBulk`. */
  function OwnerApply(s: State, step: Step): Option<State> {
    match step
    case BeginStop =>
      if s.owner.Holding? then Some(s.(owner := Waiting, stopping := true)) else None
    case WaitEnds =>
      // Either the flag was seen in time, or the grace ran out.
      if s.owner.Waiting? then Some(s.(owner := if s.finished then Joining else Stopped(false))) else None
    case Join =>
      if s.owner.Joining? && s.worker.Exited? then Some(s.(owner := Stopped(true))) else None
    case Dispose =>
      if s.owner.Stopped? then Some(s.(owner := if s.owner.ok then Freed else Released)) else None
    case _ => None
  }

  function Apply(s: State, step: Step): Option<State>
    requires Shaped(s)
  {
    if step.Receive? || step.EngineStep? || step.CountRefused? then EngineApply(s, step)
    else if step.BeginStop? || step.WaitEnds? || step.Join? || step.Dispose? then OwnerApply(s, step)
    else WorkerApply(s, step)
  }

  // -------------------------------------------------------------- invariant

  /** Bytes taken from the queue and not yet handed to the endpoint. */
  function Hand(w: Worker): seq<Byte> { if w.InHand? then w.chunk else [] }

  function Queued(s: State): seq<Byte> {
    if |s.ring.delivered| <= |s.ring.accepted| then s.ring.accepted[|s.ring.delivered|..] else []
  }

  /** Bytes of the call in progress that are neither accepted nor counted as dropped yet. */
  function Outstanding(e: Engine): nat {
    match e
    case EngineIdle => 0
    case InWrite(bytes, _) => bytes
    case Refusing(refused) => refused
  }

  ghost predicate EngineOk(s: State) {
    && (s.engine.InWrite? <==> !s.ring.producer.ProducerIdle?)
    && (s.engine.InWrite? ==>
          && s.engine.before == |s.ring.accepted|
          && (s.ring.producer.HeadLoaded? ==> |s.ring.producer.offered| == s.engine.bytes)
          && (s.ring.producer.Copying? ==> |s.ring.producer.data| <= s.engine.bytes))
    && (|s.ring.accepted| + s.dropped + Outstanding(s.engine)) % U64 == s.offered % U64
  }

  /** Bytes the endpoint took that `forwarded` does not count, or not yet. */
  function Uncounted(s: State): nat { if s.worker.Written? then |s.worker.chunk| else s.torn }

  ghost predicate WorkerOk(s: State) {
    && (s.worker.InRead? <==> !s.ring.consumer.ConsumerIdle?)
    && (s.worker.InRead? ==>
          && s.worker.before == |s.ring.delivered|
          && (s.ring.consumer.TailLoaded? ==> s.ring.consumer.capacity == DRAIN_BYTES)
          && (s.ring.consumer.Fetching? ==> s.ring.consumer.count <= DRAIN_BYTES))
    && s.ring.delivered == s.host + (Hand(s.worker) + s.lost)
    && |Hand(s.worker)| + |s.lost| + s.torn <= DRAIN_BYTES && s.torn <= |s.host|
    && (s.worker.Written? ==> |s.worker.chunk| <= DRAIN_BYTES && |s.worker.chunk| <= |s.host|)
    && (s.lost != [] || s.torn > 0 ==> s.worker.Marking? || s.worker.Notifying? || s.worker.Exited?)
    && s.forwarded == (|s.host| - Uncounted(s)) % U64
    && (s.finished <==> s.worker.Notifying? || s.worker.Exited?)
  }

  ghost predicate OwnerOk(s: State) {
    && (s.owner.Holding? <==> !s.stopping)
    && (s.owner.Joining? ==> s.finished)
    && (s.owner == Stopped(true) || s.owner.Freed? ==> s.worker.Exited?)
  }

  ghost predicate Inv(s: State) {
    && Ring.Inv(s.ring) && |s.ring.storage| == QUEUE_BYTES + 1
    && EngineOk(s) && WorkerOk(s) && OwnerOk(s)
  }

  lemma OfferEffect(r: Ring.State, data: seq<Byte>)
    requires Ring.Inv(r) && Ring.Apply(r, Ring.Offer(data)).Some?
    ensures var t := Ring.Apply(r, Ring.Offer(data)).value;
            && Ring.Inv(t) && |t.storage| == |r.storage|
            && t.consumer == r.consumer && t.delivered == r.delivered && t.accepted == r.accepted
            && t.producer == Ring.HeadLoaded(data, Ring.Last(r.headLog))
  {
    Ring.StepKeeps(r, Ring.Offer(data));
  }

  lemma AskEffect(r: Ring.State)
    requires Ring.Inv(r) && Ring.Apply(r, Ring.Ask(DRAIN_BYTES)).Some?
    ensures var t := Ring.Apply(r, Ring.Ask(DRAIN_BYTES)).value;
            && Ring.Inv(t) && |t.storage| == |r.storage|
            && t.producer == r.producer && t.delivered == r.delivered && t.accepted == r.accepted
            && t.consumer == Ring.TailLoaded(DRAIN_BYTES, Ring.Last(r.tailLog))
  {
    Ring.StepKeeps(r, Ring.Ask(DRAIN_BYTES));
  }

  lemma ProducerEffect(r: Ring.State, step: Ring.Step)
    requires Ring.Inv(r) && ProducerStep(step) && Ring.Apply(r, step).Some?
    ensures var t := Ring.Apply(r, step).value;
            && Ring.Inv(t) && |t.storage| == |r.storage|
            && t.consumer == r.consumer && t.delivered == r.delivered
            && !r.producer.ProducerIdle?
            && !t.producer.HeadLoaded?
            && (t.producer.Copying? ==>
                  && t.accepted == r.accepted
                  && |t.producer.data| <= if r.producer.Copying? then |r.producer.data| else |r.producer.offered|)
            && (t.producer.ProducerIdle? && r.producer.HeadLoaded? ==> t.accepted == r.accepted)
            && (t.producer.ProducerIdle? && r.producer.Copying? ==> t.accepted == r.accepted + r.producer.data)
  {
    Ring.StepKeeps(r, step);
  }

  lemma ConsumerEffect(r: Ring.State, step: Ring.Step)
    requires Ring.Inv(r) && ConsumerStep(step) && Ring.Apply(r, step).Some?
    ensures var t := Ring.Apply(r, step).value;
            && Ring.Inv(t) && |t.storage| == |r.storage|
            && t.producer == r.producer && t.accepted == r.accepted
            && !r.consumer.ConsumerIdle?
            && !t.consumer.TailLoaded?
            && (t.consumer.Fetching? ==>
                  && t.delivered == r.delivered
                  && t.consumer.count <= if r.consumer.Fetching? then r.consumer.count else r.consumer.capacity)
            && (t.consumer.ConsumerIdle? && r.consumer.TailLoaded? ==> t.delivered == r.delivered)
            && (t.consumer.ConsumerIdle? && r.consumer.Fetching? ==>
                  |t.delivered| == |r.delivered| + r.consumer.count && r.delivered <= t.delivered)
  {
    Ring.StepKeeps(r, step);
  }

  lemma CountRefusedKeeps(s: State)
    requires Inv(s) && s.engine.Refusing?
    ensures Inv(s.(engine := EngineIdle, dropped := (s.dropped + s.engine.refused) % U64))
  {
    hide Ring.Inv;
    var a, d, r := |s.ring.accepted|, s.dropped, s.engine.refused;
    assert (a + (d + r) % U64 + 0) % U64 == (a + d + r) % U64;
  }

  lemma ReceiveKeeps(s: State, data: seq<Byte>)
    requires Inv(s) && Shaped(s) && EngineApply(s, Receive(data)).Some?
    ensures Inv(EngineApply(s, Receive(data)).value)
  {
    hide Ring.Inv, Ring.Apply;
    OfferEffect(s.ring, data);
    var a, d, o, n := |s.ring.accepted|, s.dropped, s.offered, |data|;
    assert (a + d + n) % U64 == (o + n) % U64;
  }

  lemma WriteKeeps(s: State, step: Ring.Step)
    requires Inv(s) && Shaped(s) && EngineApply(s, EngineStep(step)).Some?
    ensures Inv(EngineApply(s, EngineStep(step)).value)
  {
    hide Ring.Inv, Ring.Apply;
    ProducerEffect(s.ring, step);
  }

  lemma EngineKeeps(s: State, step: Step)
    requires Inv(s) && Shaped(s) && EngineApply(s, step).Some?
    ensures Inv(EngineApply(s, step).value)
  {
    hide Inv, Shaped;
    match step
    case Receive(data) => ReceiveKeeps(s, data);
    case EngineStep(ringStep) => WriteKeeps(s, ringStep);
    case CountRefused => CountRefusedKeeps(s);
  }

  lemma ReadKeeps(s: State, step: Ring.Step)
    requires Inv(s) && Shaped(s) && WorkerApply(s, WorkerStep(step)).Some?
    ensures Inv(WorkerApply(s, WorkerStep(step)).value)
  {
    hide Ring.Inv, Ring.Apply;
    ConsumerEffect(s.ring, step);
    var t := WorkerApply(s, WorkerStep(step)).value;
    assert s.host + ([] + []) == s.host;
    if t.worker.InHand? {
      Cut(t.ring.delivered, |s.ring.delivered|);
      assert t.worker.chunk + [] == t.worker.chunk;
    }
  }

  lemma StartReadKeeps(s: State)
    requires Inv(s) && Shaped(s) && WorkerApply(s, StartRead).Some?
    ensures Inv(WorkerApply(s, StartRead).value)
  {
    hide Ring.Inv, Ring.Apply;
    AskEffect(s.ring);
  }

  lemma CountForwardedKeeps(s: State)
    requires Inv(s) && s.worker.Written?
    ensures Inv(s.(worker := AtLoop, forwarded := (s.forwarded + |s.worker.chunk|) % U64))
  {
    hide Ring.Inv;
    var n, c := |s.host|, |s.worker.chunk|;
    assert ((n - c) % U64 + c) % U64 == n % U64;
  }

  lemma EndpointWritesKeeps(s: State)
    requires Inv(s) && s.worker.InHand?
    ensures Inv(s.(worker := Written(s.worker.chunk), host := s.host + s.worker.chunk))
  {
    hide Ring.Inv;
    var c := s.worker.chunk;
    assert c + [] == c && [] + c == c;
    assert (s.host + c) + ([] + []) == s.host + c;
  }

  lemma EndpointFailsKeeps(s: State, sent: nat)
    requires Inv(s) && s.worker.InHand? && sent <= |s.worker.chunk|
    ensures Inv(s.(worker := Marking, host := s.host + s.worker.chunk[..sent], torn := sent,
                   lost := s.worker.chunk[sent..]))
  {
    hide Ring.Inv;
    var c := s.worker.chunk;
    Cut(c, sent);
    Regroup(s.host, c[..sent], c[sent..]);
    assert c + [] == c && [] + c[sent..] == c[sent..];
  }

  lemma MoveOnKeeps(s: State, step: Step)
    requires Inv(s) && Shaped(s) && WorkerApply(s, step).Some?
    requires step.CheckStopping? || step.SetFinished? || step.NotifyAll?
    ensures Inv(WorkerApply(s, step).value)
  {
    hide Ring.Inv, Ring.Apply;
  }

  lemma WorkerKeeps(s: State, step: Step)
    requires Inv(s) && Shaped(s) && WorkerApply(s, step).Some?
    ensures Inv(WorkerApply(s, step).value)
  {
    hide Inv, Shaped;
    match step
    case StartRead => StartReadKeeps(s);
    case WorkerStep(ringStep) => ReadKeeps(s, ringStep);
    case EndpointWrites => EndpointWritesKeeps(s);
    case EndpointFails(sent) => EndpointFailsKeeps(s, sent);
    case CountForwarded => CountForwardedKeeps(s);
    case _ => MoveOnKeeps(s, step);
  }

  lemma OwnerKeeps(s: State, step: Step)
    requires Inv(s) && OwnerApply(s, step).Some?
    ensures Inv(OwnerApply(s, step).value)
  {
    hide Ring.Inv, EngineOk, WorkerOk;
    OwnerLeavesOthers(s, step);
  }

  lemma OwnerLeavesOthers(s: State, step: Step)
    requires EngineOk(s) && WorkerOk(s) && OwnerApply(s, step).Some?
    ensures EngineOk(OwnerApply(s, step).value) && WorkerOk(OwnerApply(s, step).value)
    ensures s.finished ==> s.worker.Notifying? || s.worker.Exited?
  {
    hide Ring.Inv;
  }

  // ------------------------------------------------------------ whole runs

  ghost predicate CanStep(s: State, t: State) {
    Shaped(s) && exists step :: Apply(s, step) == Some(t)
  }

  ghost predicate IsRun(run: seq<State>) {
    && run != [] && run[0] == Initial()
    && forall i | 0 <= i < |run| - 1 :: CanStep(run[i], run[i + 1])
  }

  lemma CanStepKeeps(s: State, t: State)
    requires Inv(s) && CanStep(s, t)
    ensures Inv(t)
  {
    hide Inv, Shaped, EngineApply, WorkerApply, OwnerApply;
    var step :| Apply(s, step) == Some(t);
    if step.Receive? || step.EngineStep? || step.CountRefused? {
      EngineKeeps(s, step);
    } else if step.BeginStop? || step.WaitEnds? || step.Join? || step.Dispose? {
      OwnerKeeps(s, step);
    } else {
      WorkerKeeps(s, step);
    }
  }

  lemma {:induction false} RunInvariant(run: seq<State>, i: nat)
    requires IsRun(run) && i < |run|
    ensures Inv(run[i])
  {
    if i == 0 {
      Ring.InitialOk(QUEUE_BYTES);
    } else {
      hide Inv, CanStep;
      RunInvariant(run, i - 1);
      assert CanStep(run[i - 1], run[i - 1 + 1]);
      CanStepKeeps(run[i - 1], run[i]);
    }
  }

  /**
   In every state of every interleaving no byte is created, lost track of or
   reordered, the counters say what they should modulo 2^64, and what is
   accepted but not forwarded stays within the queue plus one chunk.
   */
  lemma BytesConserved(run: seq<State>, i: nat)
    requires IsRun(run) && i < |run|
    ensures var s := run[i];
            && s.ring.accepted == s.host + (Hand(s.worker) + s.lost) + Queued(s)
            && s.host <= s.ring.accepted
            && (|s.ring.accepted| + s.dropped + Outstanding(s.engine)) % U64 == s.offered % U64
            && Uncounted(s) <= |s.host|
            && s.forwarded == (|s.host| - Uncounted(s)) % U64
            && |s.ring.accepted| - (|s.host| - Uncounted(s)) <= 131072 + 16384
  {
    RunInvariant(run, i);
    var s := run[i];
    Cut(s.ring.accepted, |s.ring.delivered|);
    assert s.ring.accepted[..|s.ring.delivered|] == s.ring.delivered;
    Regroup(s.host, Hand(s.worker) + s.lost, Queued(s));
  }

  /** The stop timed out: the channel was, or is about to be, released rather than freed. */
  predicate GaveUp(s: State) { s.owner == Stopped(false) || s.owner.Released? }

  lemma GaveUpStays(s: State, t: State)
    requires CanStep(s, t) && GaveUp(s)
    ensures GaveUp(t)
  {
    hide EngineApply, WorkerApply, Shaped;
    var step :| Apply(s, step) == Some(t);
    EngineLeavesOwner(s, step);
    WorkerLeavesOwner(s, step);
  }

  lemma EngineLeavesOwner(s: State, step: Step)
    requires Shaped(s)
    ensures EngineApply(s, step).Some? ==> EngineApply(s, step).value.owner == s.owner
  {
    hide Ring.Apply, Ring.Shaped;
  }

  lemma WorkerLeavesOwner(s: State, step: Step)
    requires Shaped(s)
    ensures WorkerApply(s, step).Some? ==> WorkerApply(s, step).value.owner == s.owner
  {
    hide Ring.Apply, Ring.Shaped;
  }

  lemma RunStep(run: seq<State>, i: nat)
    requires IsRun(run) && i + 1 < |run|
    ensures CanStep(run[i], run[i + 1])
  {
  }

  lemma {:induction false} NeverFreedAfterTimeout(run: seq<State>, i: nat, j: nat)
    requires IsRun(run) && i <= j < |run| && GaveUp(run[i])
    ensures GaveUp(run[j])
    decreases j
  {
    hide *;
    if i < j {
      NeverFreedAfterTimeout(run, i, j - 1);
      RunStep(run, j - 1);
      GaveUpStays(run[j - 1], run[j]);
    }
  }

  /**
   The channel's memory is freed only once its worker has left `run` and been
   joined; after a stop that timed out it is never freed.
   */
  lemma FreedOnlyAfterExit(run: seq<State>, i: nat, j: nat)
    requires IsRun(run) && i <= j < |run|
    ensures run[j].owner.Freed? ==>
              && Shaped(run[j]) && run[j].finished
              && forall step :: WorkerApply(run[j], step).None?
    ensures GaveUp(run[i]) ==> !run[j].owner.Freed?
  {
    hide IsRun;
    RunInvariant(run, j);
    if GaveUp(run[i]) {
      NeverFreedAfterTimeout(run, i, j);
    }
  }
}
