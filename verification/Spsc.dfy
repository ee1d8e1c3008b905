/**
 The ring buffer of src/relay/bulk/ring_buffer.cpp with its two threads, as a
 system of steps that interleave freely.

 A call to `write` is four kinds of step: load the own index, load the peer's
 index, copy one byte, publish the own index.  `read` is the same the other way
 round.  The bytes of a copy may go in any order.  A load of the peer's index
 may return any value the peer ever stored, as long as it is not older than the
 one the same thread loaded last.
 */
module Spsc {
  import opened Text
  import opened RingMath

  datatype Producer =
    | ProducerIdle
    | HeadLoaded(offered: seq<Byte>, head: nat)
    | Copying(data: seq<Byte>, at: nat, copied: set<nat>)

  datatype Consumer =
    | ConsumerIdle
    | TailLoaded(capacity: nat, tail: nat)
    | Fetching(count: nat, from: nat, fetched: map<nat, Byte>)

  /**
   `headLog` and `tailLog` hold every value ever stored to the two indices,
   `producerSaw` and `consumerSaw` say which of the peer's each thread loaded
   last.  `accepted` and `delivered` are all bytes published so far, and the
   marks are how many there were at each store.
   */
  datatype State = State(
    storage: seq<Byte>,
    headLog: seq<nat>, tailLog: seq<nat>,
    producerSaw: nat, consumerSaw: nat,
    producer: Producer, consumer: Consumer,
    accepted: seq<Byte>, delivered: seq<Byte>,
    headMarks: seq<nat>, tailMarks: seq<nat>)

  datatype Step =
    | Offer(data: seq<Byte>)
    | LoadTail(i: nat)
    | CopyByte(k: nat)
    | PublishHead
    | Ask(capacity: nat)
    | LoadHead(j: nat)
    | FetchByte(m: nat)
    | PublishTail

  function Initial(capacity: nat): State {
    State(seq(capacity + 1, _ => 0), [0], [0], 0, 0, ProducerIdle, ConsumerIdle, [], [], [0], [0])
  }

  function Last(log: seq<nat>): nat
    requires log != []
  {
    log[|log| - 1]
  }

  /** What the code needs to be true of the memory it indexes. */
  predicate Shaped(s: State) {
    && s.storage != [] && s.headLog != [] && s.tailLog != []
    && (forall i | 0 <= i < |s.headLog| :: s.headLog[i] < |s.storage|)
    && (forall i | 0 <= i < |s.tailLog| :: s.tailLog[i] < |s.storage|)
    && (s.producer.HeadLoaded? ==> s.producer.head < |s.storage|)
    && (s.producer.Copying? ==> s.producer.at < |s.storage|)
    && (s.consumer.TailLoaded? ==> s.consumer.tail < |s.storage|)
    && (s.consumer.Fetching? ==> s.consumer.from < |s.storage|)
  }

  /** One step of either thread, or None when that thread is not at such a step. */
  function Apply(s: State, step: Step): Option<State>
    requires Shaped(s)
  {
    var n := |s.storage|;
    match step
    case Offer(data) =>
      if s.producer.ProducerIdle? && data != []
      then Some(s.(producer := HeadLoaded(data, Last(s.headLog)))) else None
    case LoadTail(i) =>
      if s.producer.HeadLoaded? && s.producerSaw <= i < |s.tailLog| then
        var available := n - 1 - Distance(s.producer.head, s.tailLog[i], n);
        var taken := Min(|s.producer.offered|, available);
        Some(s.(producerSaw := i,
                producer := if taken == 0 then ProducerIdle
                            else Copying(s.producer.offered[..taken], s.producer.head, {})))
      else None
    case CopyByte(k) =>
      if s.producer.Copying? && k < |s.producer.data| && k !in s.producer.copied then
        Some(s.(storage := s.storage[Around(s.producer.at, k, n) := s.producer.data[k]],
                producer := s.producer.(copied := s.producer.copied + {k})))
      else None
    case PublishHead =>
      if s.producer.Copying? && (forall k | 0 <= k < |s.producer.data| :: k in s.producer.copied) then
        var all := s.accepted + s.producer.data;
        Some(s.(headLog := s.headLog + [Around(s.producer.at, |s.producer.data|, n)],
                producer := ProducerIdle, accepted := all, headMarks := s.headMarks + [|all|]))
      else None
    case Ask(capacity) =>
      if s.consumer.ConsumerIdle? && capacity > 0
      then Some(s.(consumer := TailLoaded(capacity, Last(s.tailLog)))) else None
    case LoadHead(j) =>
      if s.consumer.TailLoaded? && s.consumerSaw <= j < |s.headLog| then
        var taken := Min(s.consumer.capacity, Distance(s.headLog[j], s.consumer.tail, n));
        Some(s.(consumerSaw := j,
                consumer := if taken == 0 then ConsumerIdle
                            else Fetching(taken, s.consumer.tail, map[])))
      else None
    case FetchByte(m) =>
      if s.consumer.Fetching? && m < s.consumer.count && m !in s.consumer.fetched then
        Some(s.(consumer := s.consumer.(
                  fetched := s.consumer.fetched[m := s.storage[Around(s.consumer.from, m, n)]])))
      else None
    case PublishTail =>
      if s.consumer.Fetching? && (forall m | 0 <= m < s.consumer.count :: m in s.consumer.fetched) then
        var c := s.consumer;
        var all := s.delivered + seq(c.count, m requires 0 <= m < c.count && m in c.fetched => c.fetched[m]);
        Some(s.(tailLog := s.tailLog + [Around(c.from, c.count, n)],
                consumer := ConsumerIdle, delivered := all, tailMarks := s.tailMarks + [|all|]))
      else None
  }

  // -------------------------------------------------------------- invariant

  /** The log of one index: each entry is a total reduced around the ring, and totals only grow. */
  ghost predicate LogOk(log: seq<nat>, marks: seq<nat>, total: nat, n: nat)
    requires n > 0
  {
    && |log| == |marks| > 0
    && (forall i | 0 <= i < |log| :: log[i] == marks[i] % n)
    && (forall i, j | 0 <= i <= j < |marks| :: marks[i] <= marks[j])
    && Last(marks) == total
  }

  ghost predicate QueueOk(s: State)
    requires s.storage != []
  {
    && s.delivered <= s.accepted
    && |s.accepted| - |s.delivered| < |s.storage|
    && forall p | |s.delivered| <= p < |s.accepted| :: s.storage[p % |s.storage|] == s.accepted[p]
  }

  ghost predicate ProducerOk(s: State)
    requires s.storage != []
  {
    var n, w := |s.storage|, |s.accepted|;
    && s.producerSaw < |s.tailMarks|
    && w < s.tailMarks[s.producerSaw] + n
    && (s.producer.HeadLoaded? ==> s.producer.head == w % n)
    && (s.producer.Copying? ==>
          && s.producer.at == w % n
          && w + |s.producer.data| < s.tailMarks[s.producerSaw] + n
          && forall k | k in s.producer.copied ::
               k < |s.producer.data| && s.storage[(w + k) % n] == s.producer.data[k])
  }

  ghost predicate ConsumerOk(s: State)
    requires s.storage != []
  {
    var n, r := |s.storage|, |s.delivered|;
    && s.consumerSaw < |s.headMarks|
    && r <= s.headMarks[s.consumerSaw]
    && (s.consumer.TailLoaded? ==> s.consumer.tail == r % n)
    && (s.consumer.Fetching? ==>
          && s.consumer.from == r % n
          && r + s.consumer.count <= s.headMarks[s.consumerSaw]
          && r + s.consumer.count <= |s.accepted|
          && forall m | m in s.consumer.fetched ::
               m < s.consumer.count && s.consumer.fetched[m] == s.accepted[r + m])
  }

  ghost predicate Inv(s: State) {
    && Shaped(s)
    && LogOk(s.headLog, s.headMarks, |s.accepted|, |s.storage|)
    && LogOk(s.tailLog, s.tailMarks, |s.delivered|, |s.storage|)
    && QueueOk(s) && ProducerOk(s) && ConsumerOk(s)
  }

  lemma InitialOk(capacity: nat)
    ensures Inv(Initial(capacity))
  {
    SmallMod(0, capacity + 1);
  }

  lemma LoadTailKeeps(s: State, i: nat)
    requires Inv(s) && Apply(s, LoadTail(i)).Some?
    ensures Inv(Apply(s, LoadTail(i)).value)
  {
    var n, w := |s.storage|, |s.accepted|;
    assert s.tailMarks[s.producerSaw] <= s.tailMarks[i] <= Last(s.tailMarks);
    DistanceOfPositions(w, s.tailMarks[i], n);
  }

  lemma LoadHeadKeeps(s: State, j: nat)
    requires Inv(s) && Apply(s, LoadHead(j)).Some?
    ensures Inv(Apply(s, LoadHead(j)).value)
  {
    var n, r := |s.storage|, |s.delivered|;
    assert s.headMarks[s.consumerSaw] <= s.headMarks[j] <= Last(s.headMarks);
    DistanceOfPositions(s.headMarks[j], r, n);
  }

  /** The slot a copy step writes holds no queued byte, and no byte of the same copy. */
  lemma FreshSlot(s: State, k: nat, p: nat)
    requires Inv(s) && s.producer.Copying? && k < |s.producer.data|
    requires |s.delivered| <= p < |s.accepted| + |s.producer.data| && p != |s.accepted| + k
    ensures Around(s.producer.at, k, |s.storage|) == (|s.accepted| + k) % |s.storage|
    ensures Around(s.producer.at, k, |s.storage|) != p % |s.storage|
  {
    var n, q := |s.storage|, |s.accepted| + k;
    SlotOfSum(|s.accepted|, k, n);
    assert s.tailMarks[s.producerSaw] <= Last(s.tailMarks);
    if p < q { SlotsDistinct(p, q, n); } else { SlotsDistinct(q, p, n); }
  }

  lemma CopyByteKeeps(s: State, k: nat)
    requires Inv(s) && Apply(s, CopyByte(k)).Some?
    ensures Inv(Apply(s, CopyByte(k)).value)
  {
    hide Around, LogOk;
    var t := Apply(s, CopyByte(k)).value;
    var n, w := |s.storage|, |s.accepted|;
    forall p | |s.delivered| <= p < w + |s.producer.data| && p != w + k
      ensures t.storage[p % n] == s.storage[p % n]
    {
      FreshSlot(s, k, p);
    }
    SlotOfSum(w, k, n);
    assert forall j | j in s.producer.copied :: t.storage[(w + j) % n] == s.storage[(w + j) % n];
  }

  lemma PublishHeadKeeps(s: State)
    requires Inv(s) && Apply(s, PublishHead).Some?
    ensures Inv(Apply(s, PublishHead).value)
  {
    var t := Apply(s, PublishHead).value;
    var n, w := |s.storage|, |s.accepted|;
    SlotOfSum(w, |s.producer.data|, n);
    assert s.tailMarks[s.producerSaw] <= Last(s.tailMarks);
    forall p | |t.delivered| <= p < |t.accepted| ensures t.storage[p % n] == t.accepted[p] {
      if p >= w {
        assert p - w in s.producer.copied;
        assert p == w + (p - w);
      }
    }
  }

  lemma FetchByteKeeps(s: State, m: nat)
    requires Inv(s) && Apply(s, FetchByte(m)).Some?
    ensures Inv(Apply(s, FetchByte(m)).value)
  {
    SlotOfSum(|s.delivered|, m, |s.storage|);
    assert |s.delivered| <= |s.delivered| + m < |s.accepted|;
  }

  lemma PublishTailKeeps(s: State)
    requires Inv(s) && Apply(s, PublishTail).Some?
    ensures Inv(Apply(s, PublishTail).value)
  {
    var t := Apply(s, PublishTail).value;
    SlotOfSum(|s.delivered|, s.consumer.count, |s.storage|);
    assert t.delivered <= s.accepted;
    assert s.headMarks[s.consumerSaw] <= Last(s.headMarks);
  }

  lemma StepKeeps(s: State, step: Step)
    requires Inv(s) && Apply(s, step).Some?
    ensures Inv(Apply(s, step).value)
  {
    match step
    case Offer(_) =>
    case LoadTail(i) => LoadTailKeeps(s, i);
    case CopyByte(k) => CopyByteKeeps(s, k);
    case PublishHead => PublishHeadKeeps(s);
    case Ask(_) =>
    case LoadHead(j) => LoadHeadKeeps(s, j);
    case FetchByte(m) => FetchByteKeeps(s, m);
    case PublishTail => PublishTailKeeps(s);
  }

  /**
   What a call takes is decided by the index it loaded: all of it that fits
   behind what the peer had taken by then.  With the newest index that is
   min(offered, capacity - queued); with an older one it is never more.
   */
  lemma LoadTailTakes(s: State, i: nat)
    requires Inv(s) && Apply(s, LoadTail(i)).Some?
    ensures var taken := Min(|s.producer.offered|, |s.storage| - 1 - (|s.accepted| - s.tailMarks[i]));
            Apply(s, LoadTail(i)).value.producer
            == if taken == 0 then ProducerIdle
               else Copying(s.producer.offered[..taken], |s.accepted| % |s.storage|, {})
    ensures s.tailMarks[i] <= |s.delivered|
    ensures i == |s.tailLog| - 1 ==> s.tailMarks[i] == |s.delivered|
  {
    assert s.tailMarks[s.producerSaw] <= s.tailMarks[i] <= Last(s.tailMarks);
    DistanceOfPositions(|s.accepted|, s.tailMarks[i], |s.storage|);
  }

  lemma LoadHeadTakes(s: State, j: nat)
    requires Inv(s) && Apply(s, LoadHead(j)).Some?
    ensures s.headMarks[j] >= |s.delivered|
    ensures var taken := Min(s.consumer.capacity, s.headMarks[j] - |s.delivered|);
            Apply(s, LoadHead(j)).value.consumer
            == if taken == 0 then ConsumerIdle
               else Fetching(taken, |s.delivered| % |s.storage|, map[])
    ensures s.headMarks[j] <= |s.accepted|
    ensures j == |s.headLog| - 1 ==> s.headMarks[j] == |s.accepted|
  {
    assert s.headMarks[s.consumerSaw] <= s.headMarks[j] <= Last(s.headMarks);
    DistanceOfPositions(s.headMarks[j], |s.delivered|, |s.storage|);
  }

  // ----------------------------------------------------------- whole runs

  ghost predicate CanStep(s: State, t: State) {
    Shaped(s) && exists step :: Apply(s, step) == Some(t)
  }

  lemma CanStepKeeps(s: State, t: State)
    requires Inv(s) && CanStep(s, t)
    ensures Inv(t) && |t.storage| == |s.storage|
  {
    var step :| Apply(s, step) == Some(t);
    StepKeeps(s, step);
  }

  /** `run` is a sequence of states, each one step of some thread after the one before. */
  ghost predicate IsRun(run: seq<State>, capacity: nat) {
    && run != [] && run[0] == Initial(capacity)
    && forall i | 0 <= i < |run| - 1 :: CanStep(run[i], run[i + 1])
  }

  lemma {:induction false} RunInvariant(run: seq<State>, capacity: nat, i: nat)
    requires IsRun(run, capacity) && i < |run|
    ensures Inv(run[i]) && |run[i].storage| == capacity + 1
  {
    if i == 0 {
      InitialOk(capacity);
    } else {
      hide Inv, CanStep;
      RunInvariant(run, capacity, i - 1);
      assert CanStep(run[i - 1], run[i - 1 + 1]);
      CanStepKeeps(run[i - 1], run[i]);
    }
  }

  /** The slots a producer in the middle of a copy may still write or has written. */
  function WriteSlots(s: State): set<nat>
    requires Shaped(s)
  {
    if !s.producer.Copying? then {}
    else set k | 0 <= k < |s.producer.data| :: Around(s.producer.at, k, |s.storage|)
  }

  /** The slots a consumer in the middle of a copy may still read or has read. */
  function ReadSlots(s: State): set<nat>
    requires Shaped(s)
  {
    if !s.consumer.Fetching? then {}
    else set m | 0 <= m < s.consumer.count :: Around(s.consumer.from, m, |s.storage|)
  }

  /** The slots of the bytes published and not yet taken. */
  function QueuedSlots(s: State): set<nat>
    requires s.storage != []
  {
    set p | |s.delivered| <= p < |s.accepted| :: p % |s.storage|
  }

  /**
   In every state of every interleaving: the bytes read are a prefix of the
   bytes accepted and never more than the capacity behind, a copy in progress
   touches no slot that is queued or being read, and every byte a reader has
   fetched is the next one accepted.
   */
  lemma SafeInEveryRun(run: seq<State>, capacity: nat, i: nat)
    requires IsRun(run, capacity) && i < |run|
    ensures var s := run[i];
            && Shaped(s)
            && s.delivered <= s.accepted
            && |s.accepted| - |s.delivered| <= capacity
            && WriteSlots(s) !! QueuedSlots(s)
            && ReadSlots(s) <= QueuedSlots(s)
            && (s.consumer.Fetching? ==>
                  forall m | m in s.consumer.fetched ::
                    |s.delivered| + m < |s.accepted|
                    && s.consumer.fetched[m] == s.accepted[|s.delivered| + m])
  {
    RunInvariant(run, capacity, i);
    var s := run[i];
    var n := |s.storage|;
    if s.producer.Copying? {
      forall k | 0 <= k < |s.producer.data|
        ensures Around(s.producer.at, k, n) !in QueuedSlots(s)
      {
        if Around(s.producer.at, k, n) in QueuedSlots(s) {
          var p :| |s.delivered| <= p < |s.accepted| && p % n == Around(s.producer.at, k, n);
          FreshSlot(s, k, p);
        }
      }
    }
    if s.consumer.Fetching? {
      forall m | 0 <= m < s.consumer.count
        ensures Around(s.consumer.from, m, n) in QueuedSlots(s)
      {
        SlotOfSum(|s.delivered|, m, n);
        assert |s.delivered| <= |s.delivered| + m < |s.accepted|;
      }
    }
  }
}
