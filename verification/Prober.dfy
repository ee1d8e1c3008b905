/**
 Binding in src/relay/probe/prober.cpp.  A loaded library is a partial map from
 symbol to a non-null address; `load` says which paths the platform loads.
 */
module Prober {
  import opened Text
  import opened Profiles
  import opened Scanner

  type Address = n: nat | n > 0 witness 1

  type Library = map<Bytes, Address>

  type Loader = Path -> Option<Library>

  function Resolve(library: Library, symbol: Bytes): Option<Address> {
    if symbol in library && symbol != [] then Some(library[symbol]) else None
  }

  datatype Engine =
    Engine(library: Option<Library>, profiles: seq<Profile>, addresses: seq<(Role, Address)>)

  const NO_ENGINE := Engine(None, [], [])

  predicate IsBound(e: Engine) { e.library.Some? && e.profiles != [] }

  // -------------------------------------------------------- building addresses

  /** The first address recorded for a role. */
  function Recorded(addresses: seq<(Role, Address)>, role: Role): Option<Address> {
    if addresses == [] then None
    else if addresses[0].0 == role then Some(addresses[0].1)
    else Recorded(addresses[1..], role)
  }

  /** One address per role: a binding is recorded if it resolves and its role is new. */
  function Record(addresses: seq<(Role, Address)>, b: Binding, library: Library): seq<(Role, Address)> {
    var address := Resolve(library, b.symbol);
    if address.None? || Recorded(addresses, b.role).Some? then addresses
    else addresses + [(b.role, address.value)]
  }

  function RecordAll(addresses: seq<(Role, Address)>, bs: seq<Binding>, library: Library): seq<(Role, Address)> {
    if bs == [] then addresses
    else Record(RecordAll(addresses, bs[..|bs| - 1], library), bs[|bs| - 1], library)
  }

  function RecordProfiles(ps: seq<Profile>, library: Library): seq<(Role, Address)> {
    if ps == [] then []
    else RecordAll(RecordProfiles(ps[..|ps| - 1], library), ps[|ps| - 1].bindings, library)
  }

  function MakeEngine(library: Library, ps: seq<Profile>): Engine {
    Engine(Some(library), ps, RecordProfiles(ps, library))
  }

  /** The constructor of `BoundEngine`. */
  method BuildEngine(library: Library, profiles: seq<Profile>) returns (e: Engine)
    ensures e == MakeEngine(library, profiles)
  {
    var addresses: seq<(Role, Address)> := [];
    for i := 0 to |profiles|
      invariant addresses == RecordProfiles(profiles[..i], library)
    {
      assert profiles[..i + 1][..i] == profiles[..i];
      var bindings := profiles[i].bindings;
      ghost var before := addresses;
      for j := 0 to |bindings|
        invariant addresses == RecordAll(before, bindings[..j], library)
      {
        assert bindings[..j + 1][..j] == bindings[..j];
        var address := Resolve(library, bindings[j].symbol);
        if address.None? { continue; }
        var alreadyBound := AnyRole(addresses, bindings[j].role);
        if !alreadyBound {
          addresses := addresses + [(bindings[j].role, address.value)];
        }
      }
      assert bindings[..|bindings|] == bindings;
    }
    assert profiles[..|profiles|] == profiles;
    e := Engine(Some(library), profiles, addresses);
  }

  method AnyRole(addresses: seq<(Role, Address)>, role: Role) returns (found: bool)
    ensures found == Recorded(addresses, role).Some?
  {
    var i := 0;
    assert addresses[0..] == addresses;
    while i < |addresses|
      invariant 0 <= i <= |addresses|
      invariant Recorded(addresses[i..], role) == Recorded(addresses, role)
    {
      assert addresses[i..][0] == addresses[i] && addresses[i..][1..] == addresses[i + 1..];
      if addresses[i].0 == role { return true; }
      i := i + 1;
    }
    return false;
  }

  // ----------------------------------------------------------------- lookups

  /** `BoundEngine::bindingFor`: of the first profile that declares the role. */
  function EngineBinding(ps: seq<Profile>, role: Role): Option<Binding> {
    if ps == [] then None
    else if BindingFor(ps[0].bindings, role).Some? then BindingFor(ps[0].bindings, role)
    else EngineBinding(ps[1..], role)
  }

  predicate HasBinding(e: Engine, role: Role) { EngineBinding(e.profiles, role).Some? }

  /** `BoundEngine::addressFor`: the declared shape, and separately the recorded address. */
  function AddressFor(e: Engine, role: Role, shape: SymbolShape): Option<Address> {
    var b := EngineBinding(e.profiles, role);
    if b.None? || b.value.shape != shape then None else Recorded(e.addresses, role)
  }

  /** Whether `callWithLevel`, `callWithName` or `installSink` reaches an entry point. */
  predicate Calls(e: Engine, role: Role, shape: SymbolShape) { AddressFor(e, role, shape).Some? }

  // -------------------------------------------------------------- satisfying

  predicate Satisfies(library: Library, p: Profile) {
    forall i | 0 <= i < |p.bindings| :: Resolve(library, p.bindings[i].symbol).Some?
  }

  function Satisfied(library: Library, ps: seq<Profile>): seq<Profile> {
    if ps == [] then [] else
      Satisfied(library, ps[..|ps| - 1]) + if Satisfies(library, ps[|ps| - 1]) then [ps[|ps| - 1]] else []
  }

  lemma {:induction false} SatisfiedIsFilter(library: Library, ps: seq<Profile>)
    ensures forall p :: p in Satisfied(library, ps) <==> p in ps && Satisfies(library, p)
    ensures |Satisfied(library, ps)| <= |ps|
  {
    if ps != [] {
      var n := |ps| - 1;
      SatisfiedIsFilter(library, ps[..n]);
      assert ps == ps[..n] + [ps[n]];
    }
  }

  /** `kept` are the profiles of `ps` at the positions `at`: the satisfied ones, each once, in order. */
  ghost predicate KeptAt(library: Library, ps: seq<Profile>, kept: seq<Profile>, at: seq<nat>) {
    && |at| == |kept|
    && (forall k | 0 <= k < |at| :: at[k] < |ps| && ps[at[k]] == kept[k])
    && (forall k, l | 0 <= k < l < |at| :: at[k] < at[l])
    && (forall i: nat | i < |ps| :: i in at <==> Satisfies(library, ps[i]))
  }

  lemma KeptSnoc(library: Library, ps: seq<Profile>, kept: seq<Profile>, at: seq<nat>, p: Profile)
    requires KeptAt(library, ps, kept, at)
    ensures Satisfies(library, p) ==> KeptAt(library, ps + [p], kept + [p], at + [|ps|])
    ensures !Satisfies(library, p) ==> KeptAt(library, ps + [p], kept, at)
  {
    hide Satisfies;
    assert forall i: nat | i < |ps| :: i in at + [|ps|] <==> i in at;
  }

  /** The profiles kept are the satisfied ones, each once, in file order. */
  lemma {:induction false} SatisfiedInOrder(library: Library, ps: seq<Profile>)
    ensures exists at: seq<nat> :: KeptAt(library, ps, Satisfied(library, ps), at)
  {
    hide KeptAt, Satisfies;
    if ps == [] {
      var none := NothingKept(library);
      assert KeptAt(library, ps, Satisfied(library, ps), none);
    } else {
      var n := |ps| - 1;
      SatisfiedInOrder(library, ps[..n]);
      var at: seq<nat> :| KeptAt(library, ps[..n], Satisfied(library, ps[..n]), at);
      KeptSnoc(library, ps[..n], Satisfied(library, ps[..n]), at, ps[n]);
      assert ps == ps[..n] + [ps[n]];
      assert Satisfied(library, ps[..n]) + [] == Satisfied(library, ps[..n]);
      var next := if Satisfies(library, ps[n]) then at + [n] else at;
      assert KeptAt(library, ps, Satisfied(library, ps), next);
    }
  }

  lemma NothingKept(library: Library) returns (none: seq<nat>)
    ensures KeptAt(library, [], Satisfied(library, []), none)
  {
    none := [];
  }

  // ------------------------------------------------------- the two lookups agree

  lemma {:induction false} RecordedAppend(a: seq<(Role, Address)>, b: seq<(Role, Address)>, role: Role)
    ensures Recorded(a + b, role) == if Recorded(a, role).Some? then Recorded(a, role) else Recorded(b, role)
  {
    if a == [] {
      assert a + b == b;
    } else {
      assert (a + b)[1..] == a[1..] + b;
      RecordedAppend(a[1..], b, role);
    }
  }

  lemma RecordEffect(addresses: seq<(Role, Address)>, b: Binding, library: Library, role: Role)
    requires Resolve(library, b.symbol).Some?
    ensures Recorded(Record(addresses, b, library), role)
         == if Recorded(addresses, role).Some? then Recorded(addresses, role)
            else if b.role == role then Resolve(library, b.symbol) else None
  {
    var one := [(b.role, Resolve(library, b.symbol).value)];
    RecordedAppend(addresses, one, role);
    assert one[1..] == [];
  }

  /** All bindings of a profile list, in file order. */
  function Declared(ps: seq<Profile>): seq<Binding> {
    if ps == [] then [] else Declared(ps[..|ps| - 1]) + ps[|ps| - 1].bindings
  }

  lemma {:induction false} BindingForAppend(a: seq<Binding>, b: seq<Binding>, role: Role)
    ensures BindingFor(a + b, role) == if BindingFor(a, role).Some? then BindingFor(a, role) else BindingFor(b, role)
  {
    if a == [] {
      assert a + b == b;
    } else {
      assert (a + b)[1..] == a[1..] + b;
      BindingForAppend(a[1..], b, role);
    }
  }

  lemma {:induction false} EngineBindingAppend(ps: seq<Profile>, p: Profile, role: Role)
    ensures EngineBinding(ps + [p], role)
         == if EngineBinding(ps, role).Some? then EngineBinding(ps, role) else BindingFor(p.bindings, role)
  {
    if ps == [] {
      assert ps + [p] == [p] && [p][1..] == [];
    } else {
      assert (ps + [p])[1..] == ps[1..] + [p];
      EngineBindingAppend(ps[1..], p, role);
    }
  }

  lemma {:induction false} RecordAllAppend(addresses: seq<(Role, Address)>, a: seq<Binding>, b: seq<Binding>, library: Library)
    ensures RecordAll(addresses, a + b, library) == RecordAll(RecordAll(addresses, a, library), b, library)
    decreases |b|
  {
    hide Record;
    if b == [] {
      assert a + b == a;
    } else {
      assert (a + b)[..|a + b| - 1] == a + b[..|b| - 1];
      RecordAllAppend(addresses, a, b[..|b| - 1], library);
    }
  }

  /** Both scans of an engine run over the bindings in file order. */
  lemma {:induction false} ScansAreFlat(ps: seq<Profile>, library: Library, role: Role)
    ensures EngineBinding(ps, role) == BindingFor(Declared(ps), role)
    ensures RecordProfiles(ps, library) == RecordAll([], Declared(ps), library)
  {
    hide RecordAll, BindingFor;
    if ps == [] {
      NothingDeclared(library, role);
    } else {
      var n := |ps| - 1;
      ScansAreFlat(ps[..n], library, role);
      EngineBindingAppend(ps[..n], ps[n], role);
      assert ps == ps[..n] + [ps[n]];
      BindingForAppend(Declared(ps[..n]), ps[n].bindings, role);
      RecordAllAppend([], Declared(ps[..n]), ps[n].bindings, library);
    }
  }

  lemma NothingDeclared(library: Library, role: Role)
    ensures BindingFor([], role).None? && RecordAll([], [], library) == []
  {
  }

  /** The address of the first binding of a role that resolves. */
  function FirstResolved(bs: seq<Binding>, library: Library, role: Role): Option<Address> {
    if bs == [] then None else
      var before, b := FirstResolved(bs[..|bs| - 1], library, role), bs[|bs| - 1];
      if before.Some? || b.role != role then before else Resolve(library, b.symbol)
  }

  lemma {:induction false} RecordedIsFirstResolved(bs: seq<Binding>, library: Library, role: Role)
    ensures Recorded(RecordAll([], bs, library), role) == FirstResolved(bs, library, role)
  {
    hide Recorded, Resolve;
    if bs == [] {
      NothingRecorded(role);
    } else {
      var n := |bs| - 1;
      RecordedIsFirstResolved(bs[..n], library, role);
      if Resolve(library, bs[n].symbol).Some? {
        RecordEffect(RecordAll([], bs[..n], library), bs[n], library, role);
      }
    }
  }

  lemma NothingRecorded(role: Role)
    ensures Recorded([], role).None?
  {
  }

  predicate Reaches(b: Binding, library: Library, role: Role) { b.role == role && Resolve(library, b.symbol).Some? }

  /** The first that resolves is the first declared, if that one resolves; and there is one if any does. */
  lemma {:induction false} FirstResolvedIs(bs: seq<Binding>, library: Library, role: Role)
    ensures var first, declared := FirstResolved(bs, library, role), BindingFor(bs, role);
            && (first.Some? <==> exists b :: b in bs && Reaches(b, library, role))
            && (declared.None? ==> first.None?)
            && (declared.Some? && Resolve(library, declared.value.symbol).Some? ==>
                  first == Resolve(library, declared.value.symbol))
  {
    hide Resolve, BindingFor;
    if bs == [] {
      NothingDeclared(library, role);
    } else {
      var n := |bs| - 1;
      FirstResolvedIs(bs[..n], library, role);
      BindingForAppend(bs[..n], [bs[n]], role);
      OneBinding(bs[n], role);
      assert bs == bs[..n] + [bs[n]];
      assert bs[n] in bs && forall b | b in bs[..n] :: b in bs;
      assert Reaches(bs[n], library, role) <==> bs[n].role == role && Resolve(library, bs[n].symbol).Some?;
    }
  }

  lemma OneBinding(b: Binding, role: Role)
    ensures BindingFor([b], role) == if b.role == role then Some(b) else None
  {
    assert [b][1..] == [];
  }

  lemma {:induction false} DeclaredHolds(ps: seq<Profile>, b: Binding)
    ensures b in Declared(ps) <==> exists p :: p in ps && b in p.bindings
  {
    if ps != [] {
      var n := |ps| - 1;
      DeclaredHolds(ps[..n], b);
      assert ps == ps[..n] + [ps[n]];
      assert ps[n] in ps;
    }
  }

  /** What a call of a role and shape should reach: the first declared binding's own entry point. */
  function OwnAddress(library: Library, ps: seq<Profile>, role: Role, shape: SymbolShape): Option<Address> {
    var declared := EngineBinding(ps, role);
    if declared.Some? && declared.value.shape == shape then Resolve(library, declared.value.symbol) else None
  }

  /** Some binding of the role, in some profile, resolves. */
  ghost predicate SomeReaches(library: Library, ps: seq<Profile>, role: Role) {
    exists p, b :: p in ps && b in p.bindings && Reaches(b, library, role)
  }

  /**
   For any library and any profiles, satisfied or not: the two lookups agree on a
   role if and only if no binding declares it, or the first that does resolves, or
   none that does resolves.
   */
  lemma LookupsAgreeExactly(library: Library, ps: seq<Profile>, role: Role)
    ensures var declared := EngineBinding(ps, role);
            (forall shape :: AddressFor(MakeEngine(library, ps), role, shape) == OwnAddress(library, ps, role, shape))
            <==> || declared.None?
                 || Resolve(library, declared.value.symbol).Some?
                 || !SomeReaches(library, ps, role)
  {
    hide Resolve, FirstResolved, RecordProfiles, RecordAll, Recorded, EngineBinding, Declared, BindingFor;
    var bs := Declared(ps);
    ScansAreFlat(ps, library, role);
    RecordedIsFirstResolved(bs, library, role);
    FirstResolvedIs(bs, library, role);
    forall b: Binding ensures b in bs <==> exists p :: p in ps && b in p.bindings { DeclaredHolds(ps, b); }
    var declared := EngineBinding(ps, role);
    if declared.Some? {
      assert AddressFor(MakeEngine(library, ps), role, declared.value.shape) == FirstResolved(bs, library, role);
      assert OwnAddress(library, ps, role, declared.value.shape) == Resolve(library, declared.value.symbol);
    }
  }

  /**
   For an engine whose profiles are all satisfied, a call of a shape reaches an
   entry point exactly when the first profile declaring the role declares that
   shape, and the entry point is that very binding's.
   */
  lemma AddressesAgree(library: Library, ps: seq<Profile>, role: Role, shape: SymbolShape)
    requires forall i | 0 <= i < |ps| :: Satisfies(library, ps[i])
    ensures var declared := EngineBinding(ps, role);
            && (declared.Some? ==> Resolve(library, declared.value.symbol).Some?)
            && AddressFor(MakeEngine(library, ps), role, shape)
               == if declared.Some? && declared.value.shape == shape
                  then Resolve(library, declared.value.symbol) else None
  {
    hide AddressFor;
    LookupsAgreeExactly(library, ps, role);
    ScansAreFlat(ps, library, role);
    if EngineBinding(ps, role).Some? { DeclaredHolds(ps, EngineBinding(ps, role).value); }
    assert OwnAddress(library, ps, role, shape) == AddressFor(MakeEngine(library, ps), role, shape);
  }

  /** They can disagree: the first profile's shape with the second profile's entry point. */
  lemma UnsatisfiedProfilesDisagree()
    ensures var library: Library := map[[2] := 7];
            var ps := [Profile([0], [Binding(Post, [1], Name)]), Profile([0], [Binding(Post, [2], Level)])];
            && EngineBinding(ps, Post) == Some(Binding(Post, [1], Name))
            && AddressFor(MakeEngine(library, ps), Post, Name) == Some(7)
            && Resolve(library, [1]) == None
  {
    var library: Library := map[[2] := 7];
    var one, two := Binding(Post, [1], Name), Binding(Post, [2], Level);
    var p, q := Profile([0], [one]), Profile([0], [two]);
    var ps := [p, q];
    assert ps[..1] == [p] && [p][..0] == [] && [one][..0] == [] && [two][..0] == [];
    assert RecordAll([], [one], library) == [];
    assert RecordProfiles([p], library) == [];
    assert RecordAll([], [two], library) == [(Post, 7)];
    assert RecordProfiles(ps, library) == [(Post, 7)];
  }

  // --------------------------------------------------------- choosing a module

  datatype Attempt = Attempt(engine: Engine, candidatesLoaded: nat, profilesTried: nat)

  /** Candidate `c` loads, and something in the profile list fits it. */
  predicate Fits(c: Candidate, ps: seq<Profile>, load: Loader) {
    load(c.path).Some? && Satisfied(load(c.path).value, ps) != []
  }

  function CountLoadable(cs: seq<Candidate>, load: Loader): nat {
    if cs == [] then 0
    else CountLoadable(cs[..|cs| - 1], load) + if load(cs[|cs| - 1].path).Some? then 1 else 0
  }

  /** The first candidate that fits, or the number of candidates when none does. */
  function FirstFit(cs: seq<Candidate>, ps: seq<Profile>, load: Loader): (k: nat)
    ensures k <= |cs|
    ensures forall i | 0 <= i < k :: !Fits(cs[i], ps, load)
    ensures k < |cs| ==> Fits(cs[k], ps, load)
  {
    if cs == [] || Fits(cs[0], ps, load) then 0 else 1 + FirstFit(cs[1..], ps, load)
  }

  function BindFirst(cs: seq<Candidate>, ps: seq<Profile>, load: Loader): Attempt {
    var k := FirstFit(cs, ps, load);
    if ps == [] then Attempt(NO_ENGINE, 0, 0)
    else if k == |cs| then Attempt(NO_ENGINE, CountLoadable(cs, load), CountLoadable(cs, load) * |ps|)
    else
      var library, loaded := load(cs[k].path).value, CountLoadable(cs[..k + 1], load);
      Attempt(MakeEngine(library, Satisfied(library, ps)), loaded, loaded * |ps|)
  }

  lemma {:induction false} FirstFitIs(cs: seq<Candidate>, ps: seq<Profile>, load: Loader, k: nat)
    requires k <= |cs| && forall i | 0 <= i < k :: !Fits(cs[i], ps, load)
    requires k < |cs| ==> Fits(cs[k], ps, load)
    ensures FirstFit(cs, ps, load) == k
  {
    if k > 0 { FirstFitIs(cs[1..], ps, load, k - 1); }
  }

  /** An engine is bound exactly when some candidate loads and satisfies some profile. */
  lemma BoundExactly(cs: seq<Candidate>, ps: seq<Profile>, load: Loader)
    ensures IsBound(BindFirst(cs, ps, load).engine)
       <==> exists i, p :: 0 <= i < |cs| && p in ps && load(cs[i].path).Some? && Satisfies(load(cs[i].path).value, p)
  {
    hide RecordProfiles;
    forall i | 0 <= i < |cs| && load(cs[i].path).Some?
      ensures Fits(cs[i], ps, load) <==> exists p :: p in ps && Satisfies(load(cs[i].path).value, p)
    {
      var library := load(cs[i].path).value;
      SatisfiedIsFilter(library, ps);
      var fitting := Satisfied(library, ps);
      if fitting != [] { assert fitting[0] in fitting; }
    }
    var k := FirstFit(cs, ps, load);
    if k < |cs| {
      var p :| p in ps && Satisfies(load(cs[k].path).value, p);
    }
  }

  /**
   `bindFirstAvailable`: nothing after the module chosen is loaded, and every
   loaded module is tried against every profile.
   */
  method BindFirstAvailable(cs: seq<Candidate>, ps: seq<Profile>, load: Loader) returns (r: Attempt)
    ensures r == BindFirst(cs, ps, load)
  {
    hide Satisfied, RecordProfiles, FirstFit;
    if ps == [] { return Attempt(NO_ENGINE, 0, 0); }
    var candidatesLoaded, profilesTried := 0, 0;
    for i := 0 to |cs|
      invariant forall k | 0 <= k < i :: !Fits(cs[k], ps, load)
      invariant candidatesLoaded == CountLoadable(cs[..i], load)
      invariant profilesTried == candidatesLoaded * |ps|
    {
      assert cs[..i + 1][..i] == cs[..i];
      var library := load(cs[i].path);
      if library.None? { continue; }
      candidatesLoaded := candidatesLoaded + 1;
      var satisfied: seq<Profile>;
      satisfied, profilesTried := SelectSatisfied(library.value, ps, profilesTried);
      OneMore(candidatesLoaded, |ps|);
      if satisfied == [] { continue; }
      var engine := BuildEngine(library.value, satisfied);
      FirstFitIs(cs, ps, load, i);
      return Attempt(engine, candidatesLoaded, profilesTried);
    }
    assert cs[..|cs|] == cs;
    FirstFitIs(cs, ps, load, |cs|);
    return Attempt(NO_ENGINE, candidatesLoaded, profilesTried);
  }

  lemma OneMore(a: nat, n: nat)
    requires a > 0
    ensures (a - 1) * n + n == a * n
  {
  }

  /** The loop over the profiles for one loaded module. */
  method SelectSatisfied(library: Library, ps: seq<Profile>, triedBefore: nat)
    returns (satisfied: seq<Profile>, tried: nat)
    ensures satisfied == Satisfied(library, ps) && tried == triedBefore + |ps|
  {
    satisfied, tried := [], triedBefore;
    for i := 0 to |ps|
      invariant satisfied == Satisfied(library, ps[..i]) && tried == triedBefore + i
    {
      assert ps[..i + 1][..i] == ps[..i];
      tried := tried + 1;
      var complete := true;
      var bindings := ps[i].bindings;
      for j := 0 to |bindings|
        invariant complete
        invariant forall k | 0 <= k < j :: Resolve(library, bindings[k].symbol).Some?
      {
        if Resolve(library, bindings[j].symbol).None? {
          complete := false;
          break;
        }
      }
      if complete { satisfied := satisfied + [ps[i]]; }
    }
    assert ps[..|ps|] == ps;
  }

  /** What a host can rely on from the engine that `BindFirstAvailable` chose. */
  lemma ChosenEngineAgrees(library: Library, ps: seq<Profile>, role: Role, shape: SymbolShape)
    ensures var fitting := Satisfied(library, ps);
            var declared := EngineBinding(fitting, role);
            && (declared.Some? ==> Resolve(library, declared.value.symbol).Some?)
            && AddressFor(MakeEngine(library, fitting), role, shape)
               == if declared.Some? && declared.value.shape == shape
                  then Resolve(library, declared.value.symbol) else None
  {
    SatisfiedIsFilter(library, ps);
    var fitting := Satisfied(library, ps);
    assert forall i | 0 <= i < |fitting| :: fitting[i] in fitting;
    AddressesAgree(library, fitting, role, shape);
  }

  // ------------------------------------------------------ what was chosen

  /** A loadable candidate that satisfies some profile. */
  ghost predicate Suits(c: Candidate, ps: seq<Profile>, load: Loader) {
    load(c.path).Some? && exists p :: p in ps && Satisfies(load(c.path).value, p)
  }

  lemma FitsIsSuits(c: Candidate, ps: seq<Profile>, load: Loader)
    ensures Fits(c, ps, load) <==> Suits(c, ps, load)
  {
    hide Satisfies, Satisfied;
    if load(c.path).Some? {
      var fitting := Satisfied(load(c.path).value, ps);
      SatisfiedIsFilter(load(c.path).value, ps);
      if fitting != [] { assert fitting[0] in fitting; }
    }
  }

  /** The positions of the loadable candidates among the first `n`. */
  ghost function Loadable(cs: seq<Candidate>, load: Loader, n: nat): set<nat>
    requires n <= |cs|
  {
    set i: nat | i < n && load(cs[i].path).Some?
  }

  lemma {:induction false} CountIsSize(cs: seq<Candidate>, load: Loader, n: nat)
    requires n <= |cs|
    ensures CountLoadable(cs[..n], load) == |Loadable(cs, load, n)|
  {
    if n > 0 {
      CountIsSize(cs, load, n - 1);
      assert cs[..n][..n - 1] == cs[..n - 1];
      var before := Loadable(cs, load, n - 1);
      if load(cs[n - 1].path).Some? {
        assert Loadable(cs, load, n) == before + {n - 1};
      } else {
        assert Loadable(cs, load, n) == before;
      }
    }
  }

  /**
   `k` is the first candidate that loads and satisfies a profile; the engine is
   that module's, with all the profiles it satisfies, and the counts are of the
   modules loaded up to it and of every profile tried on each.
   */
  ghost predicate ChosenAt(r: Attempt, cs: seq<Candidate>, ps: seq<Profile>, load: Loader, k: nat) {
    && k < |cs| && Suits(cs[k], ps, load) && (forall i: nat | i < k :: !Suits(cs[i], ps, load))
    && r.engine.library == load(cs[k].path)
    && (exists at: seq<nat> :: KeptAt(load(cs[k].path).value, ps, r.engine.profiles, at))
    && r.candidatesLoaded == |Loadable(cs, load, k + 1)|
    && r.profilesTried == r.candidatesLoaded * |ps|
  }

  ghost predicate SomeChosen(r: Attempt, cs: seq<Candidate>, ps: seq<Profile>, load: Loader) {
    exists k: nat :: ChosenAt(r, cs, ps, load, k)
  }

  /** Nothing was chosen: no candidate suits, and all that load were tried, if there was anything to try. */
  ghost predicate NothingChosen(r: Attempt, cs: seq<Candidate>, ps: seq<Profile>, load: Loader) {
    && (forall i: nat | i < |cs| :: !Suits(cs[i], ps, load))
    && r.engine == NO_ENGINE
    && r.candidatesLoaded == (if ps == [] then 0 else |Loadable(cs, load, |cs|)|)
    && r.profilesTried == r.candidatesLoaded * |ps|
  }

  /** For every list of candidates, profiles and modules: what binding gives. */
  lemma BoundToFirstThatSuits(cs: seq<Candidate>, ps: seq<Profile>, load: Loader)
    ensures var r := BindFirst(cs, ps, load);
            if IsBound(r.engine) then SomeChosen(r, cs, ps, load) else NothingChosen(r, cs, ps, load)
  {
    hide Satisfied, RecordProfiles, KeptAt, CountLoadable, Fits, Suits, Satisfies, Loadable, FirstFit;
    forall i: nat | i < |cs| ensures Fits(cs[i], ps, load) <==> Suits(cs[i], ps, load) { FitsIsSuits(cs[i], ps, load); }
    var k := FirstFit(cs, ps, load);
    NoProfilesNoFit(cs, load);
    CountIsSize(cs, load, |cs|);
    assert cs[..|cs|] == cs;
    if ps != [] && k < |cs| {
      FitLoads(cs[k], ps, load);
      SatisfiedInOrder(load(cs[k].path).value, ps);
      CountIsSize(cs, load, k + 1);
      assert ChosenAt(BindFirst(cs, ps, load), cs, ps, load, k);
    }
  }

  lemma FitLoads(c: Candidate, ps: seq<Profile>, load: Loader)
    requires Fits(c, ps, load)
    ensures load(c.path).Some? && Satisfied(load(c.path).value, ps) != []
  {
  }

  lemma NoProfilesNoFit(cs: seq<Candidate>, load: Loader)
    ensures forall i: nat | i < |cs| :: !Suits(cs[i], [], load)
  {
  }

  /** The engine bound calls the entry point of the first kept profile's own binding, for each role and shape. */
  lemma BoundEngineCalls(cs: seq<Candidate>, ps: seq<Profile>, load: Loader, role: Role, shape: SymbolShape)
    ensures var e := BindFirst(cs, ps, load).engine;
            IsBound(e) ==>
              && AddressFor(e, role, shape) == OwnAddress(e.library.value, e.profiles, role, shape)
              && (Calls(e, role, shape) <==>
                    EngineBinding(e.profiles, role).Some? && EngineBinding(e.profiles, role).value.shape == shape)
  {
    hide AddressFor, EngineBinding, Satisfied, RecordProfiles, FirstFit, Resolve;
    var k := FirstFit(cs, ps, load);
    if ps != [] && k < |cs| { ChosenEngineAgrees(load(cs[k].path).value, ps, role, shape); }
  }
}
