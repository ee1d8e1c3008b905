/**
 The JSON value type of src/relay/protocol/json.hpp: readers, member access,
 and the order-insensitive equality of `Value::operator==`.

 A number is the exact real it denotes, or one of the two infinities, or not a
 number.  Rounding to the nearest double is not modelled.
 */
module JsonValue {
  import opened Text

  datatype Number = Finite(r: real) | Infinite(negative: bool) | NaN

  datatype Member = Member(key: Bytes, value: Value)

  datatype Value =
    | Null
    | Bool(b: bool)
    | Number(n: Number)
    | String(s: Bytes)
    | Array(items: seq<Value>)
    | Object(members: seq<Member>)

  // ------------------------------------------------------------------ depth

  /** Nesting height: scalars and empty containers have height 0. */
  function Height(v: Value): nat
    decreases v, 0
  {
    match v
    case Array(items) => if items == [] then 0 else 1 + ItemsHeight(items)
    case Object(members) => if members == [] then 0 else 1 + MembersHeight(members)
    case _ => 0
  }

  function ItemsHeight(items: seq<Value>): (h: nat)
    ensures forall i | 0 <= i < |items| :: Height(items[i]) <= h
    decreases items, 1
  {
    if items == [] then 0 else
      var first := Height(items[0]);
      var others := ItemsHeight(items[1..]);
      assert forall i | 0 < i < |items| :: items[i] == items[1..][i - 1];
      if first < others then others else first
  }

  function MembersHeight(members: seq<Member>): (h: nat)
    ensures forall i | 0 <= i < |members| :: Height(members[i].value) <= h
    decreases members, 1
  {
    if members == [] then 0 else
      var first := Height(members[0].value);
      var others := MembersHeight(members[1..]);
      assert forall i | 0 < i < |members| :: members[i] == members[1..][i - 1];
      if first < others then others else first
  }

  // ---------------------------------------------------------------- members

  /** Position of the first member called `key`, or the length when there is none. */
  function IndexOf(members: seq<Member>, key: Bytes): (i: nat)
    ensures i <= |members|
    ensures forall j | 0 <= j < i :: members[j].key != key
    ensures i < |members| ==> members[i].key == key
  {
    if members == [] then 0
    else if members[0].key == key then 0
    else 1 + IndexOf(members[1..], key)
  }

  function FindMember(members: seq<Member>, key: Bytes): (r: Option<Value>)
    ensures r.Some? <==> exists i :: 0 <= i < |members| && members[i].key == key
  {
    var i := IndexOf(members, key);
    if i < |members| then Some(members[i].value) else None
  }

  /** `Value::find`: absent for anything that is not an object. */
  function Find(v: Value, key: Bytes): Option<Value> {
    if v.Object? then FindMember(v.members, key) else None
  }

  function SetMember(members: seq<Member>, key: Bytes, value: Value): (r: seq<Member>)
  {
    var i := IndexOf(members, key);
    if i < |members| then members[i := Member(key, value)] else members + [Member(key, value)]
  }

  /** `Value::set`: a later occurrence wins and keeps the place of the first. */
  function Set(v: Value, key: Bytes, value: Value): Value {
    if v.Object? then Object(SetMember(v.members, key, value)) else v
  }

  ghost predicate UniqueKeys(members: seq<Member>) {
    forall i, j | 0 <= i < j < |members| :: members[i].key != members[j].key
  }

  /** What every value built through the class's own operations satisfies. */
  ghost predicate Proper(v: Value)
    decreases v
  {
    match v
    case Array(items) => forall i | 0 <= i < |items| :: Proper(items[i])
    case Object(members) =>
      && UniqueKeys(members)
      && forall i | 0 <= i < |members| :: Proper(members[i].value)
    case _ => true
  }

  /** The keys in order of first occurrence. */
  function KeyOrder(members: seq<Member>): (keys: seq<Bytes>)
    ensures |keys| == |members|
    ensures forall i | 0 <= i < |members| :: keys[i] == members[i].key
  {
    seq(|members|, i requires 0 <= i < |members| => members[i].key)
  }

  /** Last wins, first occurrence keeps its place, every other key is untouched. */
  lemma SetMemberEffect(members: seq<Member>, key: Bytes, value: Value)
    requires UniqueKeys(members)
    ensures UniqueKeys(SetMember(members, key, value))
    ensures FindMember(SetMember(members, key, value), key) == Some(value)
    ensures forall other | other != key ::
              FindMember(SetMember(members, key, value), other) == FindMember(members, other)
    ensures KeyOrder(SetMember(members, key, value))
         == if key in KeyOrder(members) then KeyOrder(members) else KeyOrder(members) + [key]
  {
    var after := SetMember(members, key, value);
    var i := IndexOf(members, key);
    assert key in KeyOrder(members) <==> i < |members| by {
      assert i < |members| ==> KeyOrder(members)[i] == key;
    }
    assert after[i].key == key;
    forall other | other != key
      ensures FindMember(after, other) == FindMember(members, other)
    {
      var a, b := IndexOf(after, other), IndexOf(members, other);
      assert b < |members| ==> after[b] == members[b] && a == b;
      assert a < |after| ==> a < |members| && after[a] == members[a];
    }
  }

  // --------------------------------------------------------------- equality

  predicate NumberEqual(a: Number, b: Number) {
    a == b && !a.NaN?
  }

  /** `Value::operator==`, including its one-sided walk over object members. */
  predicate Equal(a: Value, b: Value)
    decreases Height(a) + Height(b)
  {
    match (a, b)
    case (Null, Null) => true
    case (Bool(x), Bool(y)) => x == y
    case (Number(x), Number(y)) => NumberEqual(x, y)
    case (String(x), String(y)) => x == y
    case (Array(xs), Array(ys)) =>
      |xs| == |ys| && forall i | 0 <= i < |xs| :: Equal(xs[i], ys[i])
    case (Object(ms), Object(ns)) =>
      && |ms| == |ns|
      && forall i | 0 <= i < |ms| ::
           var mine := FindMember(ns, ms[i].key);
           mine.Some? && Equal(mine.value, ms[i].value)
    case _ => false
  }

  predicate NaNFree(v: Value)
    decreases v
  {
    match v
    case Number(n) => !n.NaN?
    case Array(items) => forall i | 0 <= i < |items| :: NaNFree(items[i])
    case Object(members) => forall i | 0 <= i < |members| :: NaNFree(members[i].value)
    case _ => true
  }

  lemma UniqueKeysFind(members: seq<Member>, i: nat)
    requires UniqueKeys(members) && i < |members|
    ensures FindMember(members, members[i].key) == Some(members[i].value)
  {
    assert IndexOf(members, members[i].key) == i;
  }

  /** What `find` finds: the member of that name, in an object only. */
  lemma FindExactly(v: Value, key: Bytes, value: Value)
    requires Proper(v)
    ensures Find(v, key) == Some(value) <==> v.Object? && Member(key, value) in v.members
  {
    if v.Object? {
      var i := IndexOf(v.members, key);
      if Member(key, value) in v.members {
        var j :| 0 <= j < |v.members| && v.members[j] == Member(key, value);
        UniqueKeysFind(v.members, j);
      }
      assert i < |v.members| ==> v.members[i] in v.members;
    }
  }

  /** Equality is reflexive exactly where no number is NaN. */
  lemma {:induction false} EqualReflexive(v: Value)
    requires Proper(v)
    ensures Equal(v, v) <==> NaNFree(v)
    decreases v
  {
    match v
    case Array(items) =>
      forall i | 0 <= i < |items| ensures Equal(items[i], items[i]) <==> NaNFree(items[i]) {
        EqualReflexive(items[i]);
      }
    case Object(members) =>
      forall i | 0 <= i < |members|
        ensures FindMember(members, members[i].key) == Some(members[i].value)
        ensures Equal(members[i].value, members[i].value) <==> NaNFree(members[i].value)
      {
        UniqueKeysFind(members, i);
        EqualReflexive(members[i].value);
      }
    case _ =>
  }

  ghost function KeySet(members: seq<Member>): set<Bytes> {
    set i | 0 <= i < |members| :: members[i].key
  }

  lemma {:induction false} KeySetSize(members: seq<Member>)
    requires UniqueKeys(members)
    ensures |KeySet(members)| == |members|
  {
    if members != [] {
      var n := |members| - 1;
      KeySetSize(members[..n]);
      assert KeySet(members) == KeySet(members[..n]) + {members[n].key};
      assert members[n].key !in KeySet(members[..n]);
    }
  }

  lemma SubsetOfSameSize<T>(a: set<T>, b: set<T>)
    requires a <= b && |a| == |b|
    ensures a == b
  {
    assert |b - a| == |b| - |a|;
    assert b == a + (b - a);
  }

  /** The pigeonhole step: same size and every key found on one side means found on both. */
  lemma KeysFoundBothWays(ms: seq<Member>, ns: seq<Member>, j: nat)
    requires UniqueKeys(ms) && UniqueKeys(ns) && |ms| == |ns|
    requires forall i | 0 <= i < |ms| :: FindMember(ns, ms[i].key).Some?
    requires j < |ns|
    ensures FindMember(ms, ns[j].key).Some?
  {
    KeySetSize(ms);
    KeySetSize(ns);
    assert KeySet(ms) <= KeySet(ns);
    SubsetOfSameSize(KeySet(ms), KeySet(ns));
    assert ns[j].key in KeySet(ns);
  }

  lemma {:induction false} EqualSymmetric(a: Value, b: Value)
    requires Proper(a) && Proper(b) && Equal(a, b)
    ensures Equal(b, a)
    decreases Height(a) + Height(b)
  {
    match (a, b)
    case (Array(xs), Array(ys)) =>
      forall i | 0 <= i < |ys| ensures Equal(ys[i], xs[i]) {
        EqualSymmetric(xs[i], ys[i]);
      }
    case (Object(ms), Object(ns)) =>
      forall j | 0 <= j < |ns|
        ensures FindMember(ms, ns[j].key).Some?
        ensures Equal(FindMember(ms, ns[j].key).value, ns[j].value)
      {
        KeysFoundBothWays(ms, ns, j);
        var i := IndexOf(ms, ns[j].key);
        UniqueKeysFind(ns, j);
        assert FindMember(ns, ms[i].key) == Some(ns[j].value);
        EqualSymmetric(ns[j].value, ms[i].value);
      }
    case _ =>
  }

  lemma {:induction false} EqualTransitive(a: Value, b: Value, c: Value)
    requires Equal(a, b) && Equal(b, c)
    ensures Equal(a, c)
    decreases Height(a) + Height(b) + Height(c)
  {
    match (a, b, c)
    case (Array(xs), Array(ys), Array(zs)) =>
      forall i | 0 <= i < |xs| ensures Equal(xs[i], zs[i]) {
        EqualTransitive(xs[i], ys[i], zs[i]);
      }
    case (Object(ms), Object(ns), Object(os)) =>
      forall i | 0 <= i < |ms|
        ensures FindMember(os, ms[i].key).Some?
        ensures Equal(FindMember(os, ms[i].key).value, ms[i].value)
      {
        var j := IndexOf(ns, ms[i].key);
        assert FindMember(os, ns[j].key).Some?;
        EqualTransitive(FindMember(os, ns[j].key).value, ns[j].value, ms[i].value);
      }
    case _ =>
  }

  /** Member order does not matter: reordering a proper object gives an equal one. */
  lemma EqualIgnoresOrder(ms: seq<Member>, ns: seq<Member>)
    requires Proper(Object(ms)) && Proper(Object(ns))
    requires NaNFree(Object(ms)) && multiset(ms) == multiset(ns)
    ensures Equal(Object(ms), Object(ns))
  {
    assert |ms| == |multiset(ms)| && |ns| == |multiset(ns)|;
    forall i | 0 <= i < |ms|
      ensures FindMember(ns, ms[i].key) == Some(ms[i].value)
      ensures Equal(ms[i].value, ms[i].value)
    {
      assert ms[i] in multiset(ms);
      assert ms[i] in multiset(ns);
      var j :| 0 <= j < |ns| && ns[j] == ms[i];
      UniqueKeysFind(ns, j);
      EqualReflexive(ms[i].value);
    }
  }

  /** What `Equal` compares, kind by kind. */
  ghost predicate SameContent(a: Value, b: Value) {
    if a.Array? && b.Array? then
      |a.items| == |b.items| && forall i | 0 <= i < |a.items| :: Equal(a.items[i], b.items[i])
    else if a.Object? && b.Object? then
      forall key :: SameUnder(a.members, b.members, key)
    else !a.Array? && !a.Object? && a == b && (a.Number? ==> !a.n.NaN?)
  }

  /** Both have `key` with equal values, or neither has it. */
  predicate SameUnder(ms: seq<Member>, ns: seq<Member>, key: Bytes) {
    var mine, other := FindMember(ms, key), FindMember(ns, key);
    (mine.None? && other.None?) || (mine.Some? && other.Some? && Equal(other.value, mine.value))
  }

  /**
   Two values are equal exactly when they are the same scalar, not NaN; or arrays
   with equal items; or objects with the same keys and equal values under each.
   */
  lemma EqualExactly(a: Value, b: Value)
    requires Proper(a) && Proper(b)
    ensures Equal(a, b) <==> SameContent(a, b)
  {
    if a.Object? && b.Object? { ObjectsEqualExactly(a.members, b.members); }
  }

  lemma ObjectsEqualExactly(ms: seq<Member>, ns: seq<Member>)
    requires UniqueKeys(ms) && UniqueKeys(ns)
    ensures Equal(Object(ms), Object(ns)) <==> forall key :: SameUnder(ms, ns, key)
  {
    if Equal(Object(ms), Object(ns)) {
      forall key ensures SameUnder(ms, ns, key) {
        var i, j := IndexOf(ms, key), IndexOf(ns, key);
        if j < |ns| { KeysFoundBothWays(ms, ns, j); }
        assert i < |ms| ==> FindMember(ns, ms[i].key).Some?;
      }
    }
    if forall key :: SameUnder(ms, ns, key) {
      SameKeys(ms, ns);
      forall i | 0 <= i < |ms|
        ensures FindMember(ns, ms[i].key).Some? && Equal(FindMember(ns, ms[i].key).value, ms[i].value)
      {
        UniqueKeysFind(ms, i);
        assert SameUnder(ms, ns, ms[i].key);
      }
    }
  }

  lemma SameKeys(ms: seq<Member>, ns: seq<Member>)
    requires UniqueKeys(ms) && UniqueKeys(ns) && forall key :: SameUnder(ms, ns, key)
    ensures |ms| == |ns|
  {
    hide Equal;
    KeySetSize(ms);
    KeySetSize(ns);
    forall key ensures key in KeySet(ms) <==> key in KeySet(ns) {
      assert SameUnder(ms, ns, key);
      assert key in KeySet(ms) <==> FindMember(ms, key).Some?;
      assert key in KeySet(ns) <==> FindMember(ns, key).Some?;
    }
    assert KeySet(ms) == KeySet(ns);
  }
}
