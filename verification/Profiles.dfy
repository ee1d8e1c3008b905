/** Probe profiles, src/relay/probe/profile.cpp: reading a profile document, and what it then is. */
module Profiles {
  import opened Text
  import opened JsonValue
  import opened JsonReader
  import opened JsonPrinter
  import opened JsonRoundTrip

  datatype SymbolShape = Level | Name | Sink

  datatype Role = Post | Set | Bulk

  datatype Binding = Binding(role: Role, symbol: Bytes, shape: SymbolShape)

  datatype Profile = Profile(capabilityClass: Bytes, bindings: seq<Binding>)

  const KEY_PROFILES: Bytes := Ascii("profiles")
  const KEY_CLASS: Bytes := Ascii("class")
  const KEY_BINDINGS: Bytes := Ascii("bindings")
  const KEY_ROLE: Bytes := Ascii("role")
  const KEY_SYMBOL: Bytes := Ascii("symbol")
  const KEY_SHAPE: Bytes := Ascii("shape")

  function RoleName(role: Role): Bytes {
    match role
    case Post => Ascii("post")
    case Set => Ascii("set")
    case Bulk => Ascii("bulk")
  }

  function RoleFromName(name: Bytes): Option<Role> {
    if name == RoleName(Post) then Some(Post)
    else if name == RoleName(Role.Set) then Some(Role.Set)
    else if name == RoleName(Bulk) then Some(Bulk)
    else None
  }

  function ShapeName(shape: SymbolShape): Bytes {
    match shape
    case Level => Ascii("level")
    case Name => Ascii("name")
    case Sink => Ascii("sink")
  }

  function ShapeFromName(name: Bytes): Option<SymbolShape> {
    if name == ShapeName(Level) then Some(Level)
    else if name == ShapeName(Name) then Some(Name)
    else if name == ShapeName(Sink) then Some(Sink)
    else None
  }

  lemma NamesRoundTrip(role: Role, shape: SymbolShape)
    ensures RoleFromName(RoleName(role)) == Some(role)
    ensures ShapeFromName(ShapeName(shape)) == Some(shape)
  {
    assert RoleName(Post)[0] != RoleName(Bulk)[0];
    assert ShapeName(Name)[0] != ShapeName(Sink)[0];
  }

  /** `Profile::bindingFor`: the first binding of a role. */
  function BindingFor(bindings: seq<Binding>, role: Role): (r: Option<Binding>)
    ensures r.Some? ==> r.value in bindings && r.value.role == role
    ensures r.None? ==> forall b | b in bindings :: b.role != role
  {
    if bindings == [] then None
    else if bindings[0].role == role then Some(bindings[0])
    else BindingFor(bindings[1..], role)
  }

  // ---------------------------------------------------------------- reading

  function TextField(v: Value, key: Bytes): Option<Bytes> {
    var f := Find(v, key);
    if f.Some? && f.value.String? then Some(f.value.s) else None
  }

  function ArrayField(v: Value, key: Bytes): Option<seq<Value>> {
    var f := Find(v, key);
    if f.Some? && f.value.Array? then Some(f.value.items) else None
  }

  /** One raw binding, apart from whether its role is already taken. */
  function ReadBinding(raw: Value): Option<Binding> {
    if !raw.Object? then None else
      var role, shape, symbol := TextField(raw, KEY_ROLE), TextField(raw, KEY_SHAPE), TextField(raw, KEY_SYMBOL);
      if role.None? || shape.None? || symbol.None? || symbol.value == [] then None else
        var r, s := RoleFromName(role.value), ShapeFromName(shape.value);
        if r.None? || s.None? then None else Some(Binding(r.value, symbol.value, s.value))
  }

  /** All raw bindings of one profile; two for one role refuse the lot. */
  function ReadBindings(raws: seq<Value>): Option<seq<Binding>> {
    if raws == [] then Some([]) else
      match ReadBindings(raws[..|raws| - 1])
      case None => None
      case Some(before) =>
        match ReadBinding(raws[|raws| - 1])
        case None => None
        case Some(b) => if BindingFor(before, b.role).Some? then None else Some(before + [b])
  }

  function ReadProfile(raw: Value): Option<Profile> {
    if !raw.Object? then None else
      var name, raws := TextField(raw, KEY_CLASS), ArrayField(raw, KEY_BINDINGS);
      if name.None? || name.value == [] || raws.None? || raws.value == [] then None else
        match ReadBindings(raws.value)
        case None => None
        case Some(bindings) => Some(Profile(name.value, bindings))
  }

  function ReadProfileList(raws: seq<Value>): Option<seq<Profile>> {
    if raws == [] then Some([]) else
      match ReadProfileList(raws[..|raws| - 1])
      case None => None
      case Some(before) =>
        match ReadProfile(raws[|raws| - 1])
        case None => None
        case Some(p) => Some(before + [p])
  }

  function ReadProfiles(text: Bytes): Option<seq<Profile>> {
    match Parse(text)
    case None => None
    case Some(document) =>
      if !document.Object? || ArrayField(document, KEY_PROFILES).None? then None else
        match ReadProfileList(ArrayField(document, KEY_PROFILES).value)
        case None => None
        case Some(profiles) => if profiles == [] then None else Some(profiles)
  }

  lemma {:induction false} BindingsFail(raws: seq<Value>, i: nat)
    requires i <= |raws| && ReadBindings(raws[..i]).None?
    ensures ReadBindings(raws).None?
    decreases |raws|
  {
    if i == |raws| {
      assert raws[..i] == raws;
    } else {
      assert raws[..|raws| - 1][..i] == raws[..i];
      BindingsFail(raws[..|raws| - 1], i);
    }
  }

  lemma {:induction false} ProfileListFails(raws: seq<Value>, i: nat)
    requires i <= |raws| && ReadProfileList(raws[..i]).None?
    ensures ReadProfileList(raws).None?
    decreases |raws|
  {
    if i == |raws| {
      assert raws[..i] == raws;
    } else {
      assert raws[..|raws| - 1][..i] == raws[..i];
      ProfileListFails(raws[..|raws| - 1], i);
    }
  }

  /** `parseProfiles`: refused at the first thing that is wrong, never applied in part. */
  method ParseProfiles(text: Bytes) returns (r: Option<seq<Profile>>)
    ensures r == ReadProfiles(text)
  {
    hide Parse, ArrayField, ReadProfile;
    var document := Parse(text);
    if document.None? || !document.value.Object? { return None; }
    var raws := ArrayField(document.value, KEY_PROFILES);
    if raws.None? { return None; }
    var profiles: seq<Profile> := [];
    for i := 0 to |raws.value|
      invariant ReadProfileList(raws.value[..i]) == Some(profiles)
    {
      assert raws.value[..i + 1][..i] == raws.value[..i];
      var profile := ParseProfile(raws.value[i]);
      if profile.None? {
        ProfileListFails(raws.value, i + 1);
        return None;
      }
      profiles := profiles + [profile.value];
    }
    assert raws.value[..|raws.value|] == raws.value;
    if profiles == [] { return None; }
    return Some(profiles);
  }

  /** The body of the outer loop, with the inner one. */
  method ParseProfile(entry: Value) returns (r: Option<Profile>)
    ensures r == ReadProfile(entry)
  {
    if !entry.Object? { return None; }
    var name := TextField(entry, KEY_CLASS);
    if name.None? || name.value == [] { return None; }
    var raws := ArrayField(entry, KEY_BINDINGS);
    if raws.None? || raws.value == [] { return None; }
    var bindings: seq<Binding> := [];
    for i := 0 to |raws.value|
      invariant ReadBindings(raws.value[..i]) == Some(bindings)
    {
      assert raws.value[..i + 1][..i] == raws.value[..i];
      var binding := ReadBinding(raws.value[i]);
      if binding.None? || BindingFor(bindings, binding.value.role).Some? {
        BindingsFail(raws.value, i + 1);
        return None;
      }
      bindings := bindings + [binding.value];
    }
    assert raws.value[..|raws.value|] == raws.value;
    return Some(Profile(name.value, bindings));
  }

  // --------------------------------------------------------------- validity

  predicate OneBindingPerRole(bindings: seq<Binding>) {
    forall i, j | 0 <= i < j < |bindings| :: bindings[i].role != bindings[j].role
  }

  predicate ValidProfile(p: Profile) {
    && p.capabilityClass != [] && p.bindings != [] && OneBindingPerRole(p.bindings)
    && forall i | 0 <= i < |p.bindings| :: p.bindings[i].symbol != []
  }

  predicate ValidProfiles(ps: seq<Profile>) {
    ps != [] && forall i | 0 <= i < |ps| :: ValidProfile(ps[i])
  }

  lemma ReadBindingSymbol(raw: Value)
    ensures ReadBinding(raw).Some? ==> ReadBinding(raw).value.symbol != []
  {
  }

  lemma {:induction false} ReadBindingsValid(raws: seq<Value>)
    requires ReadBindings(raws).Some?
    ensures var bs := ReadBindings(raws).value;
            && |bs| == |raws| && OneBindingPerRole(bs)
            && forall i | 0 <= i < |bs| :: bs[i].symbol != []
  {
    hide ReadBinding;
    if raws != [] {
      ReadBindingsValid(raws[..|raws| - 1]);
      ReadBindingSymbol(raws[|raws| - 1]);
      var before := ReadBindings(raws[..|raws| - 1]).value;
      assert forall i | 0 <= i < |before| :: before[i] in before;
    }
  }

  lemma {:induction false} ReadProfileListValid(raws: seq<Value>)
    requires ReadProfileList(raws).Some?
    ensures forall i | 0 <= i < |ReadProfileList(raws).value| :: ValidProfile(ReadProfileList(raws).value[i])
  {
    if raws != [] {
      ReadProfileListValid(raws[..|raws| - 1]);
      ReadBindingsValid(ArrayField(raws[|raws| - 1], KEY_BINDINGS).value);
    }
  }

  // -------------------------------------------------------------- rendering

  function BindingValue(b: Binding): Value {
    var v := JsonValue.Set(Value.Object([]), KEY_ROLE, Value.String(RoleName(b.role)));
    var v := JsonValue.Set(v, KEY_SYMBOL, Value.String(b.symbol));
    JsonValue.Set(v, KEY_SHAPE, Value.String(ShapeName(b.shape)))
  }

  function BindingValues(bs: seq<Binding>): (r: seq<Value>)
    ensures |r| == |bs| && forall i | 0 <= i < |bs| :: r[i] == BindingValue(bs[i])
  {
    seq(|bs|, i requires 0 <= i < |bs| => BindingValue(bs[i]))
  }

  function ProfileValue(p: Profile): Value {
    JsonValue.Set(JsonValue.Set(Value.Object([]), KEY_CLASS, Value.String(p.capabilityClass)),
                  KEY_BINDINGS, Value.Array(BindingValues(p.bindings)))
  }

  function ProfileValues(ps: seq<Profile>): (r: seq<Value>)
    ensures |r| == |ps| && forall i | 0 <= i < |ps| :: r[i] == ProfileValue(ps[i])
  {
    seq(|ps|, i requires 0 <= i < |ps| => ProfileValue(ps[i]))
  }

  /** A profile document for `ps`. */
  function DocumentValue(ps: seq<Profile>): Value {
    JsonValue.Set(Value.Object([]), KEY_PROFILES, Value.Array(ProfileValues(ps)))
  }

  /** Setting keys that are new appends them. */
  lemma SetNew(members: seq<Member>, key: Bytes, value: Value)
    requires forall i | 0 <= i < |members| :: members[i].key != key
    ensures JsonValue.Set(Value.Object(members), key, value) == Value.Object(members + [Member(key, value)])
  {
    assert IndexOf(members, key) == |members|;
  }

  /** Setting two new keys gives an object with just them, found by key. */
  lemma TwoFields(a: Member, b: Member)
    requires a.key != b.key
    ensures var v := JsonValue.Set(JsonValue.Set(Value.Object([]), a.key, a.value), b.key, b.value);
            && v == Value.Object([a, b])
            && Find(v, a.key) == Some(a.value) && Find(v, b.key) == Some(b.value)
            && UniqueKeys([a, b])
  {
    SetNew([], a.key, a.value);
    assert [] + [a] == [a] && [a] + [b] == [a, b];
    SetNew([a], b.key, b.value);
    UniqueKeysFind([a, b], 0);
    UniqueKeysFind([a, b], 1);
  }

  lemma ThreeFields(a: Member, b: Member, c: Member)
    requires a.key != b.key && a.key != c.key && b.key != c.key
    ensures var v := JsonValue.Set(JsonValue.Set(JsonValue.Set(Value.Object([]), a.key, a.value), b.key, b.value), c.key, c.value);
            && v == Value.Object([a, b, c])
            && Find(v, a.key) == Some(a.value) && Find(v, b.key) == Some(b.value) && Find(v, c.key) == Some(c.value)
            && UniqueKeys([a, b, c])
  {
    TwoFields(a, b);
    SetNew([a, b], c.key, c.value);
    assert [a, b] + [c] == [a, b, c];
    UniqueKeysFind([a, b, c], 0);
    UniqueKeysFind([a, b, c], 1);
    UniqueKeysFind([a, b, c], 2);
  }

  lemma KeysDiffer()
    ensures KEY_ROLE != KEY_SYMBOL && KEY_ROLE != KEY_SHAPE && KEY_SYMBOL != KEY_SHAPE
    ensures KEY_CLASS != KEY_BINDINGS
  {
    assert |KEY_ROLE| == 4 && |KEY_SYMBOL| == 6 && |KEY_SHAPE| == 5;
    assert |KEY_CLASS| == 5 && |KEY_BINDINGS| == 8;
  }

  lemma BindingValueReads(b: Binding)
    requires b.symbol != []
    ensures ReadBinding(BindingValue(b)) == Some(b)
    ensures Proper(BindingValue(b)) && Integral(BindingValue(b)) && Height(BindingValue(b)) <= 1
  {
    hide RoleName, ShapeName, RoleFromName, ShapeFromName, JsonValue.Set, Find, UniqueKeys;
    NamesRoundTrip(b.role, b.shape);
    KeysDiffer();
    var role, symbol, shape :=
      Member(KEY_ROLE, Value.String(RoleName(b.role))), Member(KEY_SYMBOL, Value.String(b.symbol)),
      Member(KEY_SHAPE, Value.String(ShapeName(b.shape)));
    ThreeFields(role, symbol, shape);
    FlatHeight([role, symbol, shape]);
  }

  lemma {:induction false} FlatHeight(members: seq<Member>)
    requires forall i | 0 <= i < |members| :: members[i].value.String?
    ensures MembersHeight(members) == 0
  {
    if members != [] { FlatHeight(members[1..]); }
  }

  lemma {:induction false} ItemsHeightLeast(items: seq<Value>, bound: nat)
    requires forall i | 0 <= i < |items| :: Height(items[i]) <= bound
    ensures ItemsHeight(items) <= bound
  {
    if items != [] { ItemsHeightLeast(items[1..], bound); }
  }

  lemma {:induction false} BindingValuesRead(bs: seq<Binding>)
    requires OneBindingPerRole(bs) && forall i | 0 <= i < |bs| :: bs[i].symbol != []
    ensures ReadBindings(BindingValues(bs)) == Some(bs)
  {
    hide ReadBinding, BindingValue;
    if bs != [] {
      var n := |bs| - 1;
      BindingValuesRead(bs[..n]);
      BindingValueReads(bs[n]);
      assert BindingValues(bs)[..n] == BindingValues(bs[..n]);
      assert bs == bs[..n] + [bs[n]];
      assert BindingFor(bs[..n], bs[n].role).None? by {
        assert forall b | b in bs[..n] :: b.role != bs[n].role;
      }
    }
  }

  lemma ProfileValueReads(p: Profile)
    requires ValidProfile(p)
    ensures ReadProfile(ProfileValue(p)) == Some(p)
    ensures Proper(ProfileValue(p)) && Integral(ProfileValue(p)) && Height(ProfileValue(p)) <= 3
  {
    hide JsonValue.Set, Find, UniqueKeys, ReadBindings, OneBindingPerRole;
    var values := BindingValues(p.bindings);
    var name, list := Member(KEY_CLASS, Value.String(p.capabilityClass)), Member(KEY_BINDINGS, Value.Array(values));
    KeysDiffer();
    TwoFields(name, list);
    BindingValuesRead(p.bindings);
    BindingValuesPlain(p.bindings);
    PairHeight(name, list, 2);
  }

  lemma BindingValuesPlain(bs: seq<Binding>)
    requires forall i | 0 <= i < |bs| :: bs[i].symbol != []
    ensures var list := Value.Array(BindingValues(bs)); Proper(list) && Integral(list) && Height(list) <= 2
  {
    hide BindingValue;
    var values := BindingValues(bs);
    forall i | 0 <= i < |values| ensures Proper(values[i]) && Integral(values[i]) && Height(values[i]) <= 1 {
      BindingValueReads(bs[i]);
    }
    ItemsHeightLeast(values, 1);
  }

  lemma PairHeight(a: Member, b: Member, bound: nat)
    requires Height(a.value) <= bound && Height(b.value) <= bound
    ensures MembersHeight([a, b]) <= bound
  {
    assert [a, b][1..] == [b];
    OneHeight(b);
  }

  lemma OneHeight(a: Member)
    ensures MembersHeight([a]) == Height(a.value)
  {
    assert [a][1..] == [];
    assert MembersHeight([]) == 0;
  }

  lemma {:induction false} ProfileValuesRead(ps: seq<Profile>)
    requires forall i | 0 <= i < |ps| :: ValidProfile(ps[i])
    ensures ReadProfileList(ProfileValues(ps)) == Some(ps)
  {
    hide ReadProfile, ProfileValue, ValidProfile;
    if ps != [] {
      var n := |ps| - 1;
      ProfileValuesRead(ps[..n]);
      ProfileValueReads(ps[n]);
      assert ProfileValues(ps)[..n] == ProfileValues(ps[..n]);
      assert ps == ps[..n] + [ps[n]];
    }
  }

  /** The text of a document for valid profiles is read back as exactly them. */
  lemma DocumentReads(ps: seq<Profile>, fractional: Formatter)
    requires ValidProfiles(ps)
    ensures ReadProfiles(ValueText(DocumentValue(ps), fractional)) == Some(ps)
  {
    hide JsonValue.Set, Find, ReadProfileList, ValueText, Parse, ValidProfile;
    var list := Member(KEY_PROFILES, Value.Array(ProfileValues(ps)));
    OneField(list);
    ProfileValuesRead(ps);
    ProfileValuesPlain(ps);
    OneHeight(list);
    RoundTrip(DocumentValue(ps), fractional);
  }

  lemma OneField(a: Member)
    ensures var v := JsonValue.Set(Value.Object([]), a.key, a.value);
            v == Value.Object([a]) && Find(v, a.key) == Some(a.value)
  {
    SetNew([], a.key, a.value);
    assert [] + [a] == [a];
    UniqueKeysFind([a], 0);
  }

  lemma ProfileValuesPlain(ps: seq<Profile>)
    requires forall i | 0 <= i < |ps| :: ValidProfile(ps[i])
    ensures var list := Value.Array(ProfileValues(ps)); Proper(list) && Integral(list) && Height(list) <= 4
  {
    hide ProfileValue, ValidProfile;
    var values := ProfileValues(ps);
    forall i | 0 <= i < |values| ensures Proper(values[i]) && Integral(values[i]) && Height(values[i]) <= 3 {
      ProfileValueReads(ps[i]);
    }
    ItemsHeightLeast(values, 3);
  }

  /**
   What the reader can return is exactly the non-empty lists of profiles with a
   class, at least one binding, one binding per role and no empty symbol.
   */
  lemma ReadableExactlyValid(ps: seq<Profile>, fractional: Formatter)
    ensures (exists text :: ReadProfiles(text) == Some(ps)) <==> ValidProfiles(ps)
  {
    if text :| ReadProfiles(text) == Some(ps) {
      var raws := ArrayField(Parse(text).value, KEY_PROFILES).value;
      ReadProfileListValid(raws);
    }
    if ValidProfiles(ps) {
      DocumentReads(ps, fractional);
    }
  }

  // ------------------------------------------------- what a document describes

  const POST_NAME: AsciiText := Ascii("post")
  const SET_NAME: AsciiText := Ascii("set")
  const BULK_NAME: AsciiText := Ascii("bulk")
  const LEVEL_NAME: AsciiText := Ascii("level")
  const NAME_NAME: AsciiText := Ascii("name")
  const SINK_NAME: AsciiText := Ascii("sink")

  predicate RoleCalled(name: Bytes, role: Role) {
    (name == POST_NAME && role == Post) || (name == SET_NAME && role == Role.Set) || (name == BULK_NAME && role == Bulk)
  }

  predicate ShapeCalled(name: Bytes, shape: SymbolShape) {
    (name == LEVEL_NAME && shape == Level) || (name == NAME_NAME && shape == Name) || (name == SINK_NAME && shape == Sink)
  }

  /** The names a document may use for roles and shapes, and what they name. */
  lemma NamesMean(name: Bytes, role: Role, shape: SymbolShape)
    ensures RoleFromName(name) == Some(role) <==> RoleCalled(name, role)
    ensures ShapeFromName(name) == Some(shape) <==> ShapeCalled(name, shape)
  {
    RolesMean(name, role);
    ShapesMean(name, shape);
  }

  lemma RolesMean(name: Bytes, role: Role)
    ensures RoleFromName(name) == Some(role) <==> RoleCalled(name, role)
  {
    assert POST_NAME[0] == 'p' as int && BULK_NAME[0] == 'b' as int && SET_NAME[0] == 's' as int;
  }

  lemma ShapesMean(name: Bytes, shape: SymbolShape)
    ensures ShapeFromName(name) == Some(shape) <==> ShapeCalled(name, shape)
  {
    assert LEVEL_NAME[0] == 'l' as int && NAME_NAME[0] == 'n' as int && SINK_NAME[0] == 's' as int;
  }

  const ROLE_FIELD: AsciiText := Ascii("role")
  const SYMBOL_FIELD: AsciiText := Ascii("symbol")
  const SHAPE_FIELD: AsciiText := Ascii("shape")
  const CLASS_FIELD: AsciiText := Ascii("class")
  const BINDINGS_FIELD: AsciiText := Ascii("bindings")
  const PROFILES_FIELD: AsciiText := Ascii("profiles")

  lemma FieldNames()
    ensures ROLE_FIELD == KEY_ROLE && SYMBOL_FIELD == KEY_SYMBOL && SHAPE_FIELD == KEY_SHAPE
    ensures CLASS_FIELD == KEY_CLASS && BINDINGS_FIELD == KEY_BINDINGS && PROFILES_FIELD == KEY_PROFILES
  {
  }

  predicate HasText(v: Value, key: Bytes, s: Bytes) { Find(v, key) == Some(Value.String(s)) }

  /** An object that names a role, a shape and a symbol. */
  ghost predicate DescribesBinding(raw: Value, b: Binding) {
    && b.symbol != [] && HasText(raw, SYMBOL_FIELD, b.symbol)
    && (exists name :: HasText(raw, ROLE_FIELD, name) && RoleCalled(name, b.role))
    && (exists name :: HasText(raw, SHAPE_FIELD, name) && ShapeCalled(name, b.shape))
  }

  ghost predicate DescribesProfile(raw: Value, p: Profile) {
    && p.capabilityClass != [] && HasText(raw, CLASS_FIELD, p.capabilityClass)
    && p.bindings != [] && OneBindingPerRole(p.bindings)
    && exists raws: seq<Value> ::
         Find(raw, BINDINGS_FIELD) == Some(Value.Array(raws)) && DescribeBindings(raws, p.bindings)
  }

  ghost predicate DescribeBindings(raws: seq<Value>, bs: seq<Binding>) {
    |raws| == |bs| && forall i | 0 <= i < |bs| :: DescribesBinding(raws[i], bs[i])
  }

  ghost predicate DescribeProfiles(raws: seq<Value>, ps: seq<Profile>) {
    |raws| == |ps| && forall i | 0 <= i < |ps| :: DescribesProfile(raws[i], ps[i])
  }

  /** A JSON object with a list of such objects under `profiles`. */
  ghost predicate DescribesAll(document: Value, ps: seq<Profile>) {
    ps != [] && exists raws: seq<Value> ::
      Find(document, PROFILES_FIELD) == Some(Value.Array(raws)) && DescribeProfiles(raws, ps)
  }

  lemma BindingDescribed(raw: Value, b: Binding)
    ensures ReadBinding(raw) == Some(b) <==> DescribesBinding(raw, b)
  {
    hide Ascii, RoleFromName, ShapeFromName, RoleCalled, ShapeCalled;
    FieldNames();
    forall name: Bytes ensures RoleFromName(name) == Some(b.role) <==> RoleCalled(name, b.role) { RolesMean(name, b.role); }
    forall name: Bytes ensures ShapeFromName(name) == Some(b.shape) <==> ShapeCalled(name, b.shape) {
      ShapesMean(name, b.shape);
    }
  }

  lemma {:induction false} BindingsDescribed(raws: seq<Value>, bs: seq<Binding>)
    ensures ReadBindings(raws) == Some(bs) <==> OneBindingPerRole(bs) && DescribeBindings(raws, bs)
    decreases |raws|
  {
    hide ReadBinding, DescribesBinding, BindingFor;
    if raws != [] && bs != [] {
      var n, m := |raws| - 1, |bs| - 1;
      BindingsDescribed(raws[..n], bs[..m]);
      BindingDescribed(raws[n], bs[m]);
      RolesSnoc(bs[..m], bs[m]);
      assert bs == bs[..m] + [bs[m]];
      DescribedSnoc(raws, bs);
      if ReadBindings(raws).Some? {
        var before := ReadBindings(raws[..n]).value;
        BindingsDescribed(raws[..n], before);
      }
    } else if raws != [] && ReadBindings(raws).Some? {
      assert ReadBindings(raws).value != [];
    }
  }

  lemma DescribedSnoc(raws: seq<Value>, bs: seq<Binding>)
    requires raws != [] && bs != []
    ensures DescribeBindings(raws, bs) <==>
              DescribeBindings(raws[..|raws| - 1], bs[..|bs| - 1]) && DescribesBinding(raws[|raws| - 1], bs[|bs| - 1])
  {
    hide DescribesBinding;
    forall i | 0 <= i < |bs| - 1 && i < |raws| - 1
      ensures DescribesBinding(raws[..|raws| - 1][i], bs[..|bs| - 1][i]) == DescribesBinding(raws[i], bs[i])
    {
    }
  }

  lemma RolesSnoc(bs: seq<Binding>, b: Binding)
    ensures OneBindingPerRole(bs + [b]) <==> OneBindingPerRole(bs) && BindingFor(bs, b.role).None?
  {
    var all := bs + [b];
    assert all[|bs|] == b;
    assert forall i | 0 <= i < |bs| :: all[i] == bs[i];
    var found := BindingFor(bs, b.role);
    if found.Some? {
      var i :| 0 <= i < |bs| && bs[i] == found.value;
      assert all[i].role == all[|bs|].role;
    } else {
      assert forall i | 0 <= i < |bs| :: bs[i] in bs;
    }
  }

  lemma ProfileDescribed(raw: Value, p: Profile)
    ensures ReadProfile(raw) == Some(p) <==> DescribesProfile(raw, p)
  {
    hide *;
    FieldNames();
    hide CLASS_FIELD, BINDINGS_FIELD, KEY_CLASS, KEY_BINDINGS;
    ProfileRead(raw, p);
    var raws := ArrayField(raw, KEY_BINDINGS);
    if raws.Some? {
      BindingsDescribed(raws.value, p.bindings);
      NoneDescribed(raws.value, p.bindings);
    }
  }

  /** What `ReadProfile` asks for, clause by clause. */
  lemma ProfileRead(raw: Value, p: Profile)
    ensures var raws := ArrayField(raw, KEY_BINDINGS);
            ReadProfile(raw) == Some(p)
            <==> HasText(raw, KEY_CLASS, p.capabilityClass) && p.capabilityClass != []
                 && raws.Some? && raws.value != [] && ReadBindings(raws.value) == Some(p.bindings)
    ensures var raws := ArrayField(raw, KEY_BINDINGS);
            DescribesProfile(raw, p)
            <==> HasText(raw, KEY_CLASS, p.capabilityClass) && p.capabilityClass != []
                 && raws.Some? && p.bindings != [] && OneBindingPerRole(p.bindings)
                 && DescribeBindings(raws.value, p.bindings)
  {
    hide Ascii, ReadBindings, DescribeBindings, OneBindingPerRole;
    FieldNames();
  }

  lemma NoneDescribed(raws: seq<Value>, bs: seq<Binding>)
    ensures DescribeBindings(raws, bs) ==> (raws == [] <==> bs == [])
  {
  }

  lemma {:induction false} ProfilesDescribed(raws: seq<Value>, ps: seq<Profile>)
    ensures ReadProfileList(raws) == Some(ps) <==> DescribeProfiles(raws, ps)
    decreases |raws|
  {
    hide ReadProfile, DescribesProfile;
    if raws != [] && ps != [] {
      var n, m := |raws| - 1, |ps| - 1;
      ProfilesDescribed(raws[..n], ps[..m]);
      ProfileDescribed(raws[n], ps[m]);
      assert ps == ps[..m] + [ps[m]];
      ProfilesSnoc(raws, ps);
      if ReadProfileList(raws).Some? {
        var before := ReadProfileList(raws[..n]).value;
        ProfilesDescribed(raws[..n], before);
      }
    } else if raws != [] && ReadProfileList(raws).Some? {
      assert ReadProfileList(raws).value != [];
    }
  }

  lemma ProfilesSnoc(raws: seq<Value>, ps: seq<Profile>)
    requires raws != [] && ps != []
    ensures DescribeProfiles(raws, ps) <==>
              DescribeProfiles(raws[..|raws| - 1], ps[..|ps| - 1]) && DescribesProfile(raws[|raws| - 1], ps[|ps| - 1])
  {
    hide DescribesProfile;
    forall i | 0 <= i < |ps| - 1 && i < |raws| - 1
      ensures DescribesProfile(raws[..|raws| - 1][i], ps[..|ps| - 1][i]) == DescribesProfile(raws[i], ps[i])
    {
    }
  }

  /** A document is read as the profiles it describes, and as nothing when it describes none. */
  lemma DocumentsMean(text: Bytes, ps: seq<Profile>)
    ensures ReadProfiles(text) == Some(ps) <==> Parse(text).Some? && DescribesAll(Parse(text).value, ps)
  {
    hide Ascii, Parse, ReadProfileList, DescribeProfiles;
    FieldNames();
    if Parse(text).Some? {
      var raws := ArrayField(Parse(text).value, KEY_PROFILES);
      if raws.Some? { ProfilesDescribed(raws.value, ps); }
    }
  }
}
