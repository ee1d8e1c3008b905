/**
 That the channel's threads get anywhere: the worker empties the queue, leaves
 when it is told to stop, and the engine's call never waits.
 */
module ChannelProgress {
  import opened Text
  import Ring = Spsc
  import opened BulkChannel

  // ------------------------------------------------------- nothing is stuck

  function Upto(n: nat): (r: set<nat>)
    ensures |r| == n && forall k: nat :: k in r <==> k < n
  {
    if n == 0 then {} else Upto(n - 1) + {n - 1}
  }

  /** A byte that is still to be copied. */
  lemma SomeLeft(done: set<nat>, n: nat) returns (k: nat)
    requires (forall j | j in done :: j < n) && |done| < n
    ensures k < n && k !in done
  {
    if Upto(n) <= done { Fewer(Upto(n), done); }
    k :| k in Upto(n) && k !in done;
  }

  lemma Bounded(done: set<nat>, n: nat)
    requires forall j | j in done :: j < n
    ensures |done| <= n
    ensures |done| == n ==> forall k: nat | k < n :: k in done
  {
    Fewer(done, Upto(n));
    if |done| == n {
      forall k: nat | k < n ensures k in done {
        if k !in done { Fewer(done, Upto(n) - {k}); }
      }
    }
  }

  lemma Fewer<T>(a: set<T>, b: set<T>)
    requires a <= b
    ensures |a| <= |b|
  {
    if a != {} {
      var x :| x in a;
      Fewer(a - {x}, b - {x});
    }
  }

  lemma ReadGoesOn(r: Ring.State) returns (step: Ring.Step)
    requires Ring.Inv(r) && !r.consumer.ConsumerIdle?
    ensures ConsumerStep(step) && Ring.Apply(r, step).Some?
    ensures step.LoadHead? ==> step.j == |r.headLog| - 1
  {
    if r.consumer.TailLoaded? {
      step := Ring.LoadHead(|r.headLog| - 1);
    } else {
      var done := r.consumer.fetched.Keys;
      Bounded(done, r.consumer.count);
      if |done| < r.consumer.count {
        var m := SomeLeft(done, r.consumer.count);
        step := Ring.FetchByte(m);
      } else {
        step := Ring.PublishTail;
      }
    }
  }

  /** In every reachable state a worker that has not left can take a step, with the newest index if it loads one. */
  lemma WorkerNeverStuck(s: State) returns (step: Step)
    requires Inv(s) && Shaped(s) && !s.worker.Exited?
    ensures WorkerApply(s, step).Some? && Prompt(s, step)
  {
    hide Ring.Inv, Ring.Apply, Ring.Shaped;
    match s.worker
    case AtLoop => step := CheckStopping;
    case AboutToRead =>
      step := StartRead;
      AskPossible(s.ring);
    case InRead(_) =>
      var ringStep := ReadGoesOn(s.ring);
      step := WorkerStep(ringStep);
    case InHand(_) => step := EndpointWrites;
    case Written(_) => step := CountForwarded;
    case Marking => step := SetFinished;
    case Notifying => step := NotifyAll;
  }

  lemma AskPossible(r: Ring.State)
    requires r.consumer.ConsumerIdle? && Ring.Shaped(r)
    ensures Ring.Apply(r, Ring.Ask(DRAIN_BYTES)).Some?
  {
  }

  /** A step in which the endpoint does not fail and an index loaded is the newest. */
  predicate Prompt(s: State, step: Step) {
    && !step.EndpointFails?
    && (step.WorkerStep? && step.workerStep.LoadHead? ==> step.workerStep.j == |s.ring.headLog| - 1)
  }

  // ---------------------------------------------------------------- draining

  /** Nobody stops the worker and its endpoint has not failed. */
  ghost predicate Flowing(s: State) {
    Inv(s) && Shaped(s) && !s.stopping && !s.worker.Marking? && !s.worker.Notifying? && !s.worker.Exited?
  }

  /** The endpoint has everything accepted, and all of it is counted. */
  predicate Drained(s: State) { s.host == s.ring.accepted && s.forwarded == |s.host| % U64 }

  function Waiting(s: State): nat {
    if |s.ring.delivered| <= |s.ring.accepted| then |s.ring.accepted| - |s.ring.delivered| else 0
  }

  /** Steps at most until everything is drained: eight for a byte queued, and the rest of the turn. */
  function Distance(s: State): nat {
    match s.worker
    case InHand(_) => 8 * Waiting(s) + 4
    case Written(_) => 8 * Waiting(s) + 3
    case AtLoop => 8 * Waiting(s) + 2
    case AboutToRead => 8 * Waiting(s) + 1
    case InRead(_) =>
      var c := s.ring.consumer;
      if c.Fetching? && |c.fetched| <= c.count <= Waiting(s)
      then 8 * (Waiting(s) - c.count) + (c.count - |c.fetched|) + 5
      else 8 * Waiting(s)
    case _ => 0
  }

  /** What loading the head does to a read. */
  lemma LoadEffect(r: Ring.State, j: nat)
    requires Ring.Inv(r) && Ring.Apply(r, Ring.LoadHead(j)).Some?
    ensures var t := Ring.Apply(r, Ring.LoadHead(j)).value;
            && t.delivered == r.delivered && t.accepted == r.accepted && !t.consumer.TailLoaded?
            && (t.consumer.Fetching? ==>
                  && 0 < t.consumer.count <= |r.accepted| - |r.delivered| && t.consumer.fetched == map[]
                  && t.consumer.count <= r.consumer.capacity)
            && (j == |r.headLog| - 1 && |r.accepted| > |r.delivered| && r.consumer.capacity > 0 ==>
                  t.consumer.Fetching?)
  {
    Ring.LoadHeadTakes(r, j);
  }

  /** What fetching a byte does. */
  lemma FetchEffect(r: Ring.State, m: nat)
    requires Ring.Inv(r) && Ring.Apply(r, Ring.FetchByte(m)).Some?
    ensures var t := Ring.Apply(r, Ring.FetchByte(m)).value;
            && t.delivered == r.delivered && t.accepted == r.accepted && t.consumer.Fetching?
            && t.consumer.count == r.consumer.count <= |r.accepted| - |r.delivered|
            && |t.consumer.fetched| == |r.consumer.fetched| + 1 && |t.consumer.fetched| <= t.consumer.count
  {
    var c, f := r.consumer, Ring.Apply(r, Ring.FetchByte(m)).value.consumer.fetched;
    assert f.Keys == c.fetched.Keys + {m};
    assert |f| == |f.Keys| && |c.fetched| == |c.fetched.Keys|;
    Bounded(f.Keys, c.count);
  }

  lemma PublishEffect(r: Ring.State)
    requires Ring.Inv(r) && Ring.Apply(r, Ring.PublishTail).Some?
    ensures var t := Ring.Apply(r, Ring.PublishTail).value;
            && t.accepted == r.accepted && t.consumer.ConsumerIdle?
            && |t.delivered| == |r.delivered| + r.consumer.count && r.consumer.count <= |r.accepted| - |r.delivered|
  {
  }

  lemma FetchedBounded(r: Ring.State)
    requires Ring.Inv(r) && r.consumer.Fetching?
    ensures |r.consumer.fetched| <= r.consumer.count <= |r.accepted| - |r.delivered|
  {
    Bounded(r.consumer.fetched.Keys, r.consumer.count);
    assert |r.consumer.fetched| == |r.consumer.fetched.Keys|;
  }

  /** A step of a read brings a prompt worker nearer. */
  lemma ReadNearer(s: State, step: Ring.Step)
    requires Flowing(s) && WorkerApply(s, WorkerStep(step)).Some? && Prompt(s, WorkerStep(step))
    ensures var t := WorkerApply(s, WorkerStep(step)).value;
            (Waiting(s) > 0 || s.ring.consumer.Fetching? ==> Distance(t) < Distance(s)) && t.ring.accepted == s.ring.accepted
  {
    hide Ring.Inv, Ring.Apply, Ring.Shaped;
    InvParts(s);
    match step
    case LoadHead(j) =>
      LoadingMeans(s.ring, j);
      LoadEffect(s.ring, j);
    case FetchByte(m) =>
      FetchingMeans(s.ring, step);
      FetchEffect(s.ring, m);
      FetchedBounded(s.ring);
    case PublishTail =>
      FetchingMeans(s.ring, step);
      PublishEffect(s.ring);
      FetchedBounded(s.ring);
    case _ =>
  }

  lemma LoadingMeans(r: Ring.State, j: nat)
    requires Ring.Shaped(r)
    ensures Ring.Apply(r, Ring.LoadHead(j)).Some? ==> r.consumer.TailLoaded?
  {
  }

  lemma FetchingMeans(r: Ring.State, step: Ring.Step)
    requires Ring.Shaped(r) && (step.FetchByte? || step.PublishTail?)
    ensures Ring.Apply(r, step).Some? ==> r.consumer.Fetching?
  {
  }

  lemma InvParts(s: State)
    requires Inv(s)
    ensures |s.ring.delivered| <= |s.ring.accepted| && s.ring.delivered == s.host + (Hand(s.worker) + s.lost)
    ensures s.ring.delivered <= s.ring.accepted
    ensures s.worker.InRead? ==>
              s.worker.before == |s.ring.delivered|
              && (s.ring.consumer.TailLoaded? ==> s.ring.consumer.capacity == DRAIN_BYTES)
    ensures s.worker.InRead? <==> !s.ring.consumer.ConsumerIdle?
  {
  }

  lemma StartEffect(r: Ring.State)
    requires Ring.Inv(r) && Ring.Apply(r, Ring.Ask(DRAIN_BYTES)).Some?
    ensures var t := Ring.Apply(r, Ring.Ask(DRAIN_BYTES)).value;
            t.consumer.TailLoaded? && t.delivered == r.delivered && t.accepted == r.accepted
  {
  }

  /** With nothing queued or in hand, everything is drained. */
  lemma NothingLeft(s: State)
    requires Flowing(s) && !Drained(s)
    ensures Waiting(s) > 0 || s.worker.InHand? || s.worker.Written?
  {
    hide Ring.Inv, Ring.Shaped;
    InvParts(s);
  }

  lemma OtherNearer(s: State, step: Step)
    requires Flowing(s) && WorkerApply(s, step).Some? && Prompt(s, step) && !step.WorkerStep?
    ensures var t := WorkerApply(s, step).value;
            t.ring.accepted == s.ring.accepted && Distance(t) < Distance(s)
  {
    hide Ring.Inv, Ring.Apply, Ring.Shaped;
    InvParts(s);
    if step.StartRead? { StartEffect(s.ring); }
  }

  /** Of the worker's steps only these end its loop: a stop seen, a write failed. */
  lemma StillFlowing(s: State, step: Step)
    requires Flowing(s) && WorkerApply(s, step).Some? && Prompt(s, step)
    ensures Flowing(WorkerApply(s, step).value)
  {
    hide Inv, Ring.Apply, Ring.Shaped;
    WorkerKeeps(s, step);
    AlwaysShaped(WorkerApply(s, step).value);
  }

  lemma AlwaysShaped(s: State)
    requires Inv(s)
    ensures Shaped(s)
  {
  }

  /** Until everything is drained, every prompt step of the worker brings it nearer. */
  lemma WorkerNearer(s: State, step: Step)
    requires Flowing(s) && !Drained(s) && WorkerApply(s, step).Some? && Prompt(s, step)
    ensures var t := WorkerApply(s, step).value;
            Flowing(t) && t.ring.accepted == s.ring.accepted && Distance(t) < Distance(s)
  {
    hide Flowing, Drained, WorkerApply, Distance, Waiting;
    FlowingParts(s);
    StillFlowing(s, step);
    NothingLeft(s);
    if step.WorkerStep? {
      InReadOnly(s, step);
      ReadNearer(s, step.workerStep);
    } else {
      OtherNearer(s, step);
    }
  }

  lemma InReadOnly(s: State, step: Step)
    requires Shaped(s) && step.WorkerStep? && WorkerApply(s, step).Some?
    ensures s.worker.InRead?
  {
  }

  /** A prompt step of the worker leads from `s` to `t`. */
  ghost predicate Works(s: State, t: State) {
    Shaped(s) && exists step :: WorkerApply(s, step) == Some(t) && Prompt(s, step)
  }

  ghost predicate IsWork(path: seq<State>) {
    path != [] && forall i | 0 <= i < |path| - 1 :: Works(path[i], path[i + 1])
  }

  lemma WorksNearer(s: State, t: State)
    requires Flowing(s) && !Drained(s) && Works(s, t)
    ensures Flowing(t) && t.ring.accepted == s.ring.accepted && Distance(t) < Distance(s)
  {
    hide Flowing, Drained, WorkerApply, Distance, Prompt;
    var step :| WorkerApply(s, step) == Some(t) && Prompt(s, step);
    WorkerNearer(s, step);
  }

  /**
   From every reachable state in which the worker is not stopped and its endpoint
   has not failed, its own steps can empty the queue: the endpoint gets everything
   accepted, and it is counted.
   */
  lemma {:induction false} QueueEmpties(s: State) returns (path: seq<State>)
    requires Flowing(s)
    ensures IsWork(path) && path[0] == s && |path| <= Distance(s) + 1
    ensures Drained(path[|path| - 1]) && path[|path| - 1].ring.accepted == s.ring.accepted
    decreases Distance(s)
  {
    hide Flowing, Drained, WorkerApply, Distance, Prompt;
    if Drained(s) {
      path := [s];
    } else {
      FlowingParts(s);
      var step := WorkerNeverStuck(s);
      var t := WorkerApply(s, step).value;
      WorkerNearer(s, step);
      var more := QueueEmpties(t);
      path := [s] + more;
      assert Works(s, t);
      forall i | 0 <= i < |path| - 1 ensures Works(path[i], path[i + 1]) {
        if i > 0 { assert Works(more[i - 1], more[i - 1 + 1]); }
      }
    }
  }

  lemma FlowingParts(s: State)
    requires Flowing(s)
    ensures Inv(s) && Shaped(s) && !s.worker.Exited? && Distance(s) >= 0
  {
  }

  /** And whichever prompt steps it takes, after that many it has been there. */
  lemma {:induction false} EveryScheduleEmpties(path: seq<State>) returns (i: nat)
    requires IsWork(path) && Flowing(path[0]) && |path| > Distance(path[0])
    ensures i < |path| && Drained(path[i]) && path[i].ring.accepted == path[0].ring.accepted
    decreases |path|
  {
    hide Flowing, Drained, Works, Distance;
    if Drained(path[0]) {
      i := 0;
    } else {
      EnoughSteps(path);
      assert Works(path[0], path[0 + 1]);
      WorksNearer(path[0], path[1]);
      var rest := path[1..];
      forall j | 0 <= j < |rest| - 1 ensures Works(rest[j], rest[j + 1]) {
        assert Works(path[j + 1], path[j + 1 + 1]);
      }
      i := EveryScheduleEmpties(rest);
      i := i + 1;
    }
  }

  lemma EnoughSteps(path: seq<State>)
    requires IsWork(path) && Flowing(path[0]) && !Drained(path[0]) && |path| > Distance(path[0])
    ensures |path| > 1
  {
    hide Drained;
    NothingLeft(path[0]);
  }

  /** Any such state of a run will do. */
  lemma RunsFlow(run: seq<State>, i: nat)
    requires IsRun(run) && i < |run| && !run[i].stopping
    requires !run[i].worker.Marking? && !run[i].worker.Notifying? && !run[i].worker.Exited?
    ensures Flowing(run[i])
  {
    RunInvariant(run, i);
    AlwaysShaped(run[i]);
  }

  // ---------------------------------------------------------------- leaving

  /** Steps of its own a worker that is told to stop has left, whatever it sees and however its writes go. */
  function StepsLeft(s: State): nat {
    match s.worker
    case AboutToRead => DRAIN_BYTES + 9
    case InRead(_) =>
      var c := s.ring.consumer;
      if c.Fetching? then (if |c.fetched| <= c.count then c.count - |c.fetched| else 0) + 7 else DRAIN_BYTES + 8
    case InHand(_) => 6
    case Written(_) => 5
    case AtLoop => 4
    case Marking => 2
    case Notifying => 1
    case Exited => 0
  }

  lemma ReadLeaves(s: State, step: Ring.Step)
    requires Inv(s) && Shaped(s) && WorkerApply(s, WorkerStep(step)).Some?
    ensures StepsLeft(WorkerApply(s, WorkerStep(step)).value) < StepsLeft(s)
  {
    hide Ring.Inv, Ring.Apply, Ring.Shaped;
    InvParts(s);
    match step
    case LoadHead(j) =>
      LoadingMeans(s.ring, j);
      LoadEffect(s.ring, j);
    case FetchByte(m) =>
      FetchingMeans(s.ring, step);
      FetchEffect(s.ring, m);
      FetchedBounded(s.ring);
    case PublishTail =>
      FetchingMeans(s.ring, step);
      PublishEffect(s.ring);
    case _ =>
  }

  /**
   Once it is told to stop, every step a worker takes brings it nearer to leaving,
   and it can always take one: it leaves within 16384 + 9 steps.
   */
  lemma StoppedWorkerLeaves(s: State, step: Step)
    requires Inv(s) && Shaped(s) && s.stopping && WorkerApply(s, step).Some?
    ensures var t := WorkerApply(s, step).value; t.stopping && StepsLeft(t) < StepsLeft(s) <= DRAIN_BYTES + 9
    ensures StepsLeft(s) == 0 <==> s.worker.Exited?
  {
    hide Ring.Inv, Ring.Apply, Ring.Shaped;
    AtMost(s);
    if step.WorkerStep? {
      ReadLeaves(s, step.workerStep);
    } else if step.StartRead? {
      StartEffect(s.ring);
    }
  }

  lemma AtMost(s: State)
    requires Inv(s)
    ensures StepsLeft(s) <= DRAIN_BYTES + 9
  {
    hide Ring.Inv;
  }

  // ------------------------------------------------------- the engine's call

  /** Steps left of the engine's call. */
  function CallLeft(s: State): nat {
    match s.engine
    case EngineIdle => 0
    case Refusing(_) => 1
    case InWrite(bytes, _) =>
      var p := s.ring.producer;
      if p.Copying? then (if |p.copied| <= |p.data| then |p.data| - |p.copied| else 0) + 2 else bytes + 3
  }

  lemma LoadTailEffect(r: Ring.State, i: nat)
    requires Ring.Inv(r) && Ring.Apply(r, Ring.LoadTail(i)).Some?
    ensures var t := Ring.Apply(r, Ring.LoadTail(i)).value;
            && r.producer.HeadLoaded? && t.accepted == r.accepted
            && (t.producer.ProducerIdle?
                || (t.producer.Copying? && |t.producer.data| <= |r.producer.offered| && t.producer.copied == {}))
  {
    Ring.LoadTailTakes(r, i);
  }

  lemma CopyEffect(r: Ring.State, k: nat)
    requires Ring.Inv(r) && Ring.Apply(r, Ring.CopyByte(k)).Some?
    ensures var t := Ring.Apply(r, Ring.CopyByte(k)).value;
            && r.producer.Copying? && t.producer.Copying? && t.producer.data == r.producer.data
            && |t.producer.copied| == |r.producer.copied| + 1 && |t.producer.copied| <= |t.producer.data|
  {
    Bounded(r.producer.copied + {k}, |r.producer.data|);
  }

  lemma PublishHeadEffect(r: Ring.State)
    ensures Ring.Shaped(r) && Ring.Apply(r, Ring.PublishHead).Some? ==>
              r.producer.Copying? && Ring.Apply(r, Ring.PublishHead).value.producer.ProducerIdle?
  {
  }

  lemma WriteGoesOn(r: Ring.State) returns (step: Ring.Step)
    requires Ring.Inv(r) && !r.producer.ProducerIdle?
    ensures ProducerStep(step) && Ring.Apply(r, step).Some?
  {
    if r.producer.HeadLoaded? {
      step := Ring.LoadTail(|r.tailLog| - 1);
    } else {
      var done := r.producer.copied;
      Bounded(done, |r.producer.data|);
      if |done| < |r.producer.data| {
        var k := SomeLeft(done, |r.producer.data|);
        step := Ring.CopyByte(k);
      } else {
        step := Ring.PublishHead;
      }
    }
  }

  /** The engine's call can always go on, whatever the other threads do. */
  lemma CallNeverStuck(s: State) returns (step: Step)
    requires Inv(s) && Shaped(s) && !s.engine.EngineIdle?
    ensures EngineApply(s, step).Some?
  {
    hide Ring.Apply, Ring.Shaped;
    if s.engine.Refusing? {
      step := CountRefused;
    } else {
      hide Ring.Inv;
      var ringStep := WriteGoesOn(s.ring);
      ProducerEffect(s.ring, ringStep);
      step := EngineStep(ringStep);
    }
  }

  lemma WriteNearer(s: State, step: Ring.Step)
    requires Inv(s) && Shaped(s) && EngineApply(s, EngineStep(step)).Some?
    ensures CallLeft(EngineApply(s, EngineStep(step)).value) < CallLeft(s)
  {
    hide Ring.Inv, Ring.Apply, Ring.Shaped;
    match step
    case LoadTail(i) => LoadTailEffect(s.ring, i);
    case CopyByte(k) => CopyEffect(s.ring, k);
    case PublishHead => PublishHeadEffect(s.ring);
    case _ =>
  }

  /** Every step of it brings it nearer to its end: it never waits for anyone. */
  lemma CallNeverWaits(s: State, step: Step)
    requires Inv(s) && Shaped(s) && !s.engine.EngineIdle? && EngineApply(s, step).Some?
    ensures CallLeft(EngineApply(s, step).value) < CallLeft(s)
  {
    hide Ring.Inv, Ring.Apply, Ring.Shaped;
    if step.EngineStep? { WriteNearer(s, step.engineStep); }
  }
}
