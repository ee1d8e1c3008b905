/** The bounded byte queue of src/relay/bulk/ring_buffer.cpp, called from one thread at a time. */
module RingBuffer {
  import opened Text
  import opened RingMath

  class RingBuffer {
    const storage: array<Byte>
    const slots: nat
    const usable: nat
    var head: nat
    var tail: nat

    constructor (capacity: nat)
      ensures Valid() && fresh(storage)
      ensures usable == capacity && Contents() == []
    {
      storage := new Byte[capacity + 1](_ => 0);
      slots := capacity + 1;
      usable := capacity;
      head, tail := 0, 0;
      new;
      Once(slots, slots);
    }

    ghost predicate Valid()
      reads this
    {
      storage.Length == slots == usable + 1 && head < slots && tail < slots
    }

    /** The queued bytes, oldest first. */
    ghost function Contents(): (s: seq<Byte>)
      requires Valid()
      reads this, storage
      ensures |s| <= usable
    {
      ReadAround(storage[..], tail, Distance(head, tail, slots))
    }

    /** Appends the first min(bytes, free) bytes of `data`; `null` is refused. */
    method Write(data: array?<Byte>, bytes: nat) returns (taken: nat)
      requires Valid()
      requires data != null ==> bytes <= data.Length && data != storage
      modifies this`head, storage
      ensures Valid()
      ensures taken == if data == null then 0 else Min(bytes, usable - |old(Contents())|)
      ensures Contents() == if data == null then old(Contents()) else old(Contents()) + data[..taken]
      ensures data != null ==> storage[..] == StoreAround(old(storage[..]), old(head), data[..taken])
    {
      if data == null || bytes == 0 { return 0; }
      var used := (head + slots - tail) % slots;
      assert used == Distance(head, tail, slots);
      var available := slots - 1 - used;
      taken := Min(bytes, available);
      if taken == 0 { return 0; }

      CopyRunsIn(data, taken);
      ghost var queued := Distance(head, tail, slots);
      AppendKeepsOrder(old(storage[..]), head, tail, queued, data[..taken]);
      assert head + taken < 2 * slots;
      head := (head + taken) % slots;
    }

    /** Free slots lie in one stretch or two. */
    method CopyRunsIn(data: array<Byte>, taken: nat)
      requires Valid() && data != storage && taken < slots && taken <= data.Length
      modifies storage
      ensures storage[..] == StoreAround(old(storage[..]), head, data[..taken])
    {
      var firstRun := Min(taken, slots - head);
      CopyIn(head, data, 0, firstRun);
      if taken > firstRun {
        CopyIn(0, data, firstRun, taken - firstRun);
      }
      TwoRuns(old(storage[..]), head, data[..taken], firstRun, storage[..]);
    }

    /** One `memcpy` into the storage. */
    method CopyIn(at: nat, data: array<Byte>, from: nat, count: nat)
      requires at + count <= storage.Length && from + count <= data.Length && data != storage
      modifies storage
      ensures forall i | 0 <= i < storage.Length ::
                storage[i] == if at <= i < at + count then data[from + (i - at)] else old(storage[i])
    {
      forall i | 0 <= i < count {
        storage[at + i] := data[from + i];
      }
    }

    /** Removes the first min(capacity, size) bytes into `out`; `null` is refused. */
    method Read(out: array?<Byte>, capacity: nat) returns (taken: nat)
      requires Valid()
      requires out != null ==> capacity <= out.Length && out != storage
      modifies this`tail
      modifies if out == null then {} else {out}
      ensures Valid()
      ensures taken == if out == null then 0 else Min(capacity, |old(Contents())|)
      ensures Contents() == old(Contents())[taken..]
      ensures out != null ==> out[..taken] == old(Contents())[..taken] && out[taken..] == old(out[taken..])
    {
      if out == null || capacity == 0 { return 0; }
      var used := (head + slots - tail) % slots;
      assert used == Distance(head, tail, slots);
      taken := Min(capacity, used);
      if taken == 0 { return 0; }

      var firstRun := Min(taken, slots - tail);
      CopyOut(out, 0, tail, firstRun);
      if taken > firstRun {
        CopyOut(out, firstRun, 0, taken - firstRun);
      }
      RemoveKeepsOrder(storage[..], head, tail, taken);
      tail := (tail + taken) % slots;
    }

    /** One `memcpy` out of the storage. */
    method CopyOut(out: array<Byte>, at: nat, from: nat, count: nat)
      requires from + count <= storage.Length && at + count <= out.Length && out != storage
      modifies out
      ensures forall i | 0 <= i < out.Length ::
                out[i] == if at <= i < at + count then storage[from + (i - at)] else old(out[i])
    {
      forall i | 0 <= i < count {
        out[at + i] := storage[from + i];
      }
    }

    method Size() returns (size: nat)
      requires Valid()
      ensures size == |Contents()|
    {
      size := (head + slots - tail) % slots;
      assert size == Distance(head, tail, slots);
    }

    /** The spare slot: empty and full are told apart by the indices alone. */
    lemma EmptyAndFull()
      requires Valid()
      ensures Contents() == [] <==> head == tail
      ensures |Contents()| == usable <==> Around(head, 1, slots) == tail
    {
      Once(head + 1, slots);
    }
  }

  /** The two copies are the byte-at-a-time stores around the ring. */
  lemma TwoRuns(before: seq<Byte>, head: nat, data: seq<Byte>, firstRun: nat, after: seq<Byte>)
    requires head < |before| == |after| && |data| < |before|
    requires firstRun == Min(|data|, |before| - head)
    requires forall i | 0 <= i < |before| ::
               after[i] == if 0 <= i < |data| - firstRun then data[firstRun + i]
                           else if head <= i < head + firstRun then data[i - head]
                           else before[i]
    ensures after == StoreAround(before, head, data)
  {
    forall i | 0 <= i < |before| ensures after[i] == StoreAround(before, head, data)[i] {
      StoreAroundAt(before, head, data, i);
    }
  }

  lemma RemoveKeepsOrder(storage: seq<Byte>, head: nat, tail: nat, taken: nat)
    requires head < |storage| && tail < |storage| && taken <= Distance(head, tail, |storage|)
    ensures var next, used := Around(tail, taken, |storage|), Distance(head, tail, |storage|);
            && Distance(head, next, |storage|) == used - taken
            && ReadAround(storage, next, used - taken) == ReadAround(storage, tail, used)[taken..]
  {
    hide Around, Distance;
  }

  /** Stores from the head on leave the queued bytes alone and line up behind them. */
  lemma AppendKeepsOrder(before: seq<Byte>, head: nat, tail: nat, used: nat, data: seq<Byte>)
    requires head < |before| && tail < |before| && used == Distance(head, tail, |before|)
    requires used + |data| < |before|
    ensures Distance(Around(head, |data|, |before|), tail, |before|) == used + |data|
    ensures ReadAround(StoreAround(before, head, data), tail, used + |data|)
         == ReadAround(before, tail, used) + data
  {
    hide Around, Distance, StoreAround;
    var n := |before|;
    var after := StoreAround(before, head, data);
    forall k | 0 <= k < used + |data|
      ensures after[Around(tail, k, n)] == if k < used then before[Around(tail, k, n)] else data[k - used]
    {
      StoreAroundAt(before, head, data, Around(tail, k, n));
    }
  }
}
