/** The handle table of src/relay/probe/probing_backend.cpp, over every run of opens and closes. */
module Handles {
  import opened Session

  const U32: nat := 0x1_0000_0000

  /** `nextHandle_` and `liveHandles_`. */
  datatype Table = Table(next: Handle, live: seq<Handle>)

  const EMPTY := Table(1, [])

  function OpenHandle(t: Table): (Table, Handle) {
    (Table((t.next + 1) % U32, t.live + [t.next]), t.next)
  }

  /** Only the first occurrence goes. */
  function RemoveFirst(s: seq<Handle>, h: Handle): seq<Handle> {
    if s == [] then [] else if s[0] == h then s[1..] else [s[0]] + RemoveFirst(s[1..], h)
  }

  function CloseHandle(t: Table, h: Handle): Table { t.(live := RemoveFirst(t.live, h)) }

  datatype Op = OpenOp | CloseOp(handle: Handle)

  function Apply(t: Table, op: Op): Table {
    if op.OpenOp? then OpenHandle(t).0 else CloseHandle(t, op.handle)
  }

  function Run(ops: seq<Op>): Table {
    if ops == [] then EMPTY else Apply(Run(ops[..|ops| - 1]), ops[|ops| - 1])
  }

  function Opens(ops: seq<Op>): nat {
    if ops == [] then 0 else Opens(ops[..|ops| - 1]) + if ops[|ops| - 1].OpenOp? then 1 else 0
  }

  /** Closes that found their handle. */
  function EffectiveCloses(ops: seq<Op>): nat {
    if ops == [] then 0 else
      var op := ops[|ops| - 1];
      EffectiveCloses(ops[..|ops| - 1])
      + if op.CloseOp? && op.handle in Run(ops[..|ops| - 1]).live then 1 else 0
  }

  /** The k-th open returns k modulo 2^32. */
  lemma {:induction false} NextIsCount(ops: seq<Op>)
    ensures Run(ops).next == (1 + Opens(ops)) % U32
  {
    if ops != [] { NextIsCount(ops[..|ops| - 1]); }
  }

  lemma NextBeforeWrap(ops: seq<Op>)
    requires Opens(ops) + 1 < U32
    ensures Run(ops).next == Opens(ops) + 1
  {
    NextIsCount(ops);
  }

  lemma {:induction false} OpensGrow(ops: seq<Op>, i: nat)
    requires i <= |ops|
    ensures Opens(ops[..i]) <= Opens(ops)
    ensures i < |ops| && ops[i].OpenOp? ==> Opens(ops[..i]) < Opens(ops)
    decreases |ops| - i
  {
    if i == |ops| {
      assert ops[..i] == ops;
    } else {
      OpensGrow(ops, i + 1);
      assert ops[..i + 1][..i] == ops[..i];
    }
  }

  /** Within the first 2^32 - 1 opens every handle is non-zero and none is given twice. */
  lemma HandlesDistinct(ops: seq<Op>, i: nat, j: nat)
    requires i < j < |ops| && ops[i].OpenOp? && ops[j].OpenOp?
    requires Opens(ops) < U32
    ensures Run(ops[..i]).next != 0 && Run(ops[..j]).next != 0
    ensures Run(ops[..i]).next < Run(ops[..j]).next
  {
    hide Opens, Run;
    assert ops[..j][..i] == ops[..i] && ops[..j][i] == ops[i];
    OpensGrow(ops, j);
    OpensGrow(ops[..j], i);
    NextBeforeWrap(ops[..i]);
    NextBeforeWrap(ops[..j]);
  }

  /** The open after 2^32 - 1 others returns 0, which the session reports as a failure. */
  lemma HandlesRunOut(ops: seq<Op>)
    ensures OpenHandle(Run(ops)).1 == 0 <==> (1 + Opens(ops)) % U32 == 0
    ensures Opens(ops) == U32 - 1 ==> OpenHandle(Run(ops)).1 == 0
  {
    NextIsCount(ops);
  }

  predicate NoRepeats(s: seq<Handle>) { forall i, j | 0 <= i < j < |s| :: s[i] != s[j] }

  lemma {:induction false} RemoveFirstEffect(s: seq<Handle>, h: Handle)
    requires NoRepeats(s)
    ensures NoRepeats(RemoveFirst(s, h))
    ensures forall x :: x in RemoveFirst(s, h) <==> x in s && x != h
    ensures |RemoveFirst(s, h)| == |s| - if h in s then 1 else 0
  {
    if s != [] {
      RemoveFirstEffect(s[1..], h);
      assert s == [s[0]] + s[1..];
      assert s[0] !in s[1..];
    }
  }

  lemma {:induction false} LiveOnce(ops: seq<Op>)
    requires Opens(ops) < U32
    ensures NoRepeats(Run(ops).live)
    ensures forall h | h in Run(ops).live :: 1 <= h <= Opens(ops)
  {
    if ops != [] {
      var before, op := ops[..|ops| - 1], ops[|ops| - 1];
      LiveOnce(before);
      if op.CloseOp? {
        RemoveFirstEffect(Run(before).live, op.handle);
      } else {
        NextBeforeWrap(before);
        assert Run(before).next !in Run(before).live;
      }
    }
  }

  /** `ops[i]` gave out `h`, and nothing after it closed it. */
  ghost predicate OpenedAndKept(ops: seq<Op>, i: nat, h: Handle)
    requires i < |ops|
  {
    ops[i].OpenOp? && Run(ops[..i]).next == h && forall j | i < j < |ops| :: ops[j] != CloseOp(h)
  }

  lemma KeptBefore(ops: seq<Op>, i: nat, h: Handle)
    requires i < |ops| - 1
    ensures OpenedAndKept(ops, i, h)
       <==> OpenedAndKept(ops[..|ops| - 1], i, h) && ops[|ops| - 1] != CloseOp(h)
  {
    assert ops[..|ops| - 1][..i] == ops[..i];
    assert forall j | 0 <= j < |ops| - 1 :: ops[..|ops| - 1][j] == ops[j];
  }

  /** A handle is live exactly when some open gave it out and no close of it came after. */
  lemma {:induction false} LiveExactly(ops: seq<Op>, h: Handle)
    requires Opens(ops) < U32
    ensures h in Run(ops).live <==> exists i :: 0 <= i < |ops| && OpenedAndKept(ops, i, h)
  {
    if ops != [] {
      var n := |ops| - 1;
      var before, op := ops[..n], ops[n];
      LiveExactly(before, h);
      LiveOnce(before);
      forall i | 0 <= i < n
        ensures OpenedAndKept(ops, i, h) <==> OpenedAndKept(before, i, h) && op != CloseOp(h)
      {
        KeptBefore(ops, i, h);
      }
      if op.CloseOp? {
        RemoveFirstEffect(Run(before).live, op.handle);
      } else {
        assert OpenedAndKept(ops, n, h) <==> Run(before).next == h;
      }
    }
  }

  lemma {:induction false} RemoveFirstLength(s: seq<Handle>, h: Handle)
    ensures |RemoveFirst(s, h)| == |s| - if h in s then 1 else 0
  {
    if s != [] {
      RemoveFirstLength(s[1..], h);
      assert s == [s[0]] + s[1..];
    }
  }

  /** Over every run, past the wrap too, the target count is the opens minus the closes that found something. */
  lemma {:induction false} TargetCount(ops: seq<Op>)
    ensures |Run(ops).live| == Opens(ops) - EffectiveCloses(ops)
  {
    if ops != [] {
      var before, op := ops[..|ops| - 1], ops[|ops| - 1];
      TargetCount(before);
      if op.CloseOp? { RemoveFirstLength(Run(before).live, op.handle); }
    }
  }
}
