/** Arithmetic of indices around a ring of `n` slots. */
module RingMath {
  import opened Text

  /** How far `head` is ahead of `tail`, as the code computes it. */
  function Distance(head: nat, tail: nat, n: nat): (d: nat)
    requires head < n && tail < n
    ensures d < n
    ensures d == if tail <= head then head - tail else head + n - tail
  {
    Once(head + n - tail, n);
    (head + n - tail) % n
  }

  function Around(at: nat, steps: nat, n: nat): (i: nat)
    requires at < n
    ensures i < n
    ensures steps < n ==> i == if at + steps < n then at + steps else at + steps - n
  {
    if steps < n then
      Once(at + steps, n);
      (at + steps) % n
    else (at + steps) % n
  }

  lemma Once(x: nat, n: nat)
    requires n > 0 && x < 2 * n
    ensures x % n == if x < n then x else x - n
  {
    if x < n {
      SmallMod(x, n);
    } else {
      SmallMod(x - n, n);
      AddMod(x - n, n);
    }
  }

  lemma SmallMod(x: nat, n: nat)
    requires x < n
    ensures x % n == x
  {
  }

  lemma AddMod(x: nat, n: nat)
    requires n > 0
    ensures (x + n) % n == x % n
  {
    assert x == (x / n) * n + x % n;
    assert x + n == (x / n + 1) * n + x % n by { assert (x / n + 1) * n == (x / n) * n + n; }
    ModUnique(x + n, n, x / n + 1, x % n);
  }

  /** Quotient and remainder are unique. */
  lemma ModUnique(x: nat, n: nat, q: int, r: nat)
    requires n > 0 && r < n && x == q * n + r
    ensures x % n == r && x / n == q
  {
    assert x == (x / n) * n + x % n;
    assert (x / n - q) * n == r - x % n by { assert (x / n - q) * n == (x / n) * n - q * n; }
    OnlyZero(x / n - q, n);
  }

  /** Zero is the only multiple strictly between -n and n. */
  lemma OnlyZero(d: int, n: int)
    requires -n < d * n < n
    ensures d == 0
  {
    assert d * n == (d - 1) * n + n && d * n == (d + 1) * n - n;
    assert d >= 1 ==> (d - 1) * n >= 0;
    assert d <= -1 ==> (d + 1) * n <= 0;
  }

  /** Reducing before going on around changes nothing. */
  lemma AroundAdds(at: nat, a: nat, b: nat, n: nat)
    requires at < n
    ensures Around(Around(at, a, n), b, n) == Around(at, a + b, n)
  {
    var x := at + a;
    var r, q := x % n, x / n;
    assert x == q * n + r;
    var y := r + b;
    assert y == (y / n) * n + y % n;
    assert at + (a + b) == (q + y / n) * n + y % n by { assert (q + y / n) * n == q * n + (y / n) * n; }
    ModUnique(at + (a + b), n, q + y / n, y % n);
  }

  /** Absolute positions less than a lap apart never share a slot. */
  lemma SlotsDistinct(x: nat, y: nat, n: nat)
    requires n > 0 && x < y < x + n
    ensures x % n != y % n
  {
    var r := x % n;
    var d := y - x;
    AroundAdds(r, 0, d, n);
    assert x == (x / n) * n + r;
    Once(r + d, n);
    var z := (r + d) % n;
    if r + d < n {
      ModUnique(y, n, x / n, r + d);
    } else {
      assert y == (x / n + 1) * n + (r + d - n) by { assert (x / n + 1) * n == (x / n) * n + n; }
      ModUnique(y, n, x / n + 1, r + d - n);
    }
  }

  /** Going on from the slot of an absolute position. */
  lemma SlotOfSum(x: nat, d: nat, n: nat)
    requires n > 0
    ensures Around(x % n, d, n) == (x + d) % n
  {
    var q, r := x / n, x % n;
    assert x == q * n + r;
    var y := r + d;
    assert y == (y / n) * n + y % n;
    assert x + d == (q + y / n) * n + y % n by { assert (q + y / n) * n == q * n + (y / n) * n; }
    ModUnique(x + d, n, q + y / n, y % n);
  }

  /** The code's difference of indices is the difference of absolute positions. */
  lemma DistanceOfPositions(w: nat, r: nat, n: nat)
    requires n > 0 && r <= w < r + n
    ensures Distance(w % n, r % n, n) == w - r
  {
    SlotOfSum(r, w - r, n);
    Once(r % n + (w - r), n);
  }

  // ------------------------------------------------------- stores and reads

  /** Byte-at-a-time stores from slot `at` on, around the ring. */
  function StoreAround(storage: seq<Byte>, at: nat, data: seq<Byte>): (r: seq<Byte>)
    requires at < |storage|
    ensures |r| == |storage|
    decreases |data|
  {
    if data == [] then storage
    else StoreAround(storage[at := data[0]], Around(at, 1, |storage|), data[1..])
  }

  /** What a lap-bounded run of stores leaves in each slot. */
  lemma {:induction false} StoreAroundAt(storage: seq<Byte>, at: nat, data: seq<Byte>, i: nat)
    requires at < |storage| && |data| <= |storage| && i < |storage|
    ensures var k := Distance(i, at, |storage|);
            StoreAround(storage, at, data)[i] == if k < |data| then data[k] else storage[i]
    decreases |data|
  {
    if data != [] {
      var n := |storage|;
      var next := Around(at, 1, n);
      Once(at + 1, n);
      StoreAroundAt(storage[at := data[0]], next, data[1..], i);
    }
  }

  /** The `count` bytes from slot `at` on, around the ring. */
  function ReadAround(storage: seq<Byte>, at: nat, count: nat): (r: seq<Byte>)
    requires at < |storage|
    ensures |r| == count
    ensures forall k | 0 <= k < count :: r[k] == storage[Around(at, k, |storage|)]
  {
    seq(count, k requires 0 <= k < count => storage[Around(at, k, |storage|)])
  }
}
