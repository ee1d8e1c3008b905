/**
 JSON as the host reads it: any nesting, and a number is an integer only when
 it is written as one.  The host's reader is RFC 8259's, for texts without
 unpaired surrogate escapes.
 */
module HostJson {
  import opened Text
  import opened JsonValue
  import opened JsonGrammar
  import opened JsonReader
  import opened JsonCorrectness
  import opened JsonPrinter
  import opened JsonRoundTrip
  import opened Messages

  /** A text cannot be nested more deeply than it is long. */
  function Decode(text: Bytes): Option<Value> { ParseWithin(text, |text|) }

  predicate IsObject(text: Bytes) { Decode(text).Some? && Decode(text).value.Object? }

  lemma {:induction false} HeightBelowLength(t: Tree)
    requires TreeOk(t)
    ensures TreeHeight(t) < |Spell(t)|
    decreases t
  {
    match t
    case ArrayTree(items) => ItemsHeightBelow(items);
    case ObjectTree(fields) => FieldsHeightBelow(fields);
    case _ => SpellStarts(t);
  }

  lemma {:induction false} ItemsHeightBelow(items: Items)
    requires ItemsOk(items)
    ensures ItemsTreeHeight(items) < |SpellItems(items)|
    decreases items
  {
    HeightBelowLength(items.item.tree);
    if items.MoreItems? { ItemsHeightBelow(items.others); }
  }

  lemma {:induction false} FieldsHeightBelow(fields: Fields)
    requires FieldsOk(fields)
    ensures FieldsTreeHeight(fields) < |SpellFields(fields)|
    decreases fields
  {
    HeightBelowLength(fields.field.tree);
    if fields.MoreFields? { FieldsHeightBelow(fields.others); }
  }

  /** Every derivation with paired surrogates is read, as what it means. */
  lemma DecodesDerivation(text: Bytes, document: Item)
    requires Derives(text, document)
    ensures Decode(text) == if PairedTree(document.tree) then Some(Meaning(document.tree)) else None
  {
    hide ParseWithin, PairedTree, Meaning, TreeOk, Spell, TreeHeight;
    HeightBelowLength(document.tree);
    DerivationRead(text, document, |text|);
  }

  /** Everything that is printed as an object is read as one. */
  lemma PrintedObject(v: Value, f: Formatter)
    requires v.Object? && Printable(v, f)
    ensures IsObject(ValueText(v, f))
  {
    hide Decode, PairedTree, Spell, Meaning, ValueText;
    var document := PrintedDerives(v, f);
    DecodesDerivation(ValueText(v, f), document);
    ObjectMeaning(v, f);
  }

  lemma ObjectMeaning(v: Value, f: Formatter)
    requires v.Object? && Printable(v, f) && TreeOk(TreeOf(v, f))
    ensures Meaning(TreeOf(v, f)).Object?
  {
  }

  // --------------------------------------------------------------- integers

  /** The text of the last value called `key`, from a field of an object on. */
  function TextAfterKey(s: Bytes, key: Bytes, found: Option<Bytes>, depth: int): Option<Bytes>
    decreases |s|
  {
    match ReadKey(s)
    case Fail => None
    case Done(k, t) =>
      match ReadValue(t, depth)
      case Fail => None
      case Done(_, u) =>
        var here := if k == key then Some(t[..|t| - |u|]) else found;
        var w := SkipWhitespace(u);
        if StartsWith(w, COMMA) then TextAfterKey(w[1..], key, here, depth) else here
  }

  function FieldText(text: Bytes, key: Bytes): Option<Bytes> {
    var s := SkipWhitespace(text);
    if !IsObject(text) || !StartsWith(s, OPEN_BRACE) || StartsWith(SkipWhitespace(s[1..]), CLOSE_BRACE) then None
    else TextAfterKey(s[1..], key, None, MAX_PARSE_DEPTH - |text|)
  }

  /** A number without fraction and exponent that a 64-bit integer holds. */
  function IntegerOf(text: Bytes): Option<int> {
    match ReadToken(text)
    case Fail => None
    case Done(t, rest) =>
      if rest != [] || t.fraction.Some? || t.exponent.Some? || !AllDigits(t.whole) then None else
        var n := if t.negative then -(DigitsValue(t.whole) as int) else DigitsValue(t.whole);
        if INT64_MIN <= n < -INT64_MIN then Some(n) else None
  }

  /** The member `key` of a payload, when it is written as an integer. */
  function IntegerField(payload: Bytes, key: Bytes): Option<int> {
    var text := FieldText(payload, key);
    if text.None? then None else IntegerOf(text.value)
  }

  lemma IntegerReads(n: int, f: Formatter)
    requires -1_000_000_000_000_000 < n < 1_000_000_000_000_000
    ensures IntegerOf(ValueText(Integer(n), f)) == Some(n)
  {
    hide SpellNumber, ReadToken, NatText, AllDigits, DigitsValue, PrintsAsInteger;
    var t := IntToken(n);
    IntTokenCorrect(n);
    NatTextDigits(if n < 0 then -n else n);
    TokenComplete(t, []);
    assert SpellNumber(t) + [] == SpellNumber(t);
    IntegerPrintsAsInteger(n);
  }

  lemma IntegerPrintsAsInteger(n: int)
    requires -1_000_000_000_000_000 < n < 1_000_000_000_000_000
    ensures PrintsAsInteger(n as real) && (n as real).Floor == n
  {
    assert -1_000_000_000_000_000.0 < n as real < 1_000_000_000_000_000.0;
  }

  /** What the search finds in the members of a printed object. */
  function Found(members: seq<Member>, key: Bytes, found: Option<Bytes>, f: Formatter): Option<Bytes> {
    if members == [] then found
    else Found(members[1..], key, if members[0].key == key then Some(ValueText(members[0].value, f)) else found, f)
  }

  lemma SearchStep(s: Bytes, key: Bytes, found: Option<Bytes>, depth: int, k: Bytes, t: Tree, tail: Bytes)
    requires ReadKey(s) == Done(k, Spell(t) + tail)
    requires TreeOk(t) && PairedTree(t) && depth + TreeHeight(t) <= MAX_PARSE_DEPTH
    requires tail != [] && tail[0] in {COMMA, CLOSE_BRACE}
    ensures TextAfterKey(s, key, found, depth)
         == var here := if k == key then Some(Spell(t)) else found;
            if tail[0] == COMMA then TextAfterKey(tail[1..], key, here, depth) else here
  {
    hide ReadKey, ReadValue, Spell, TreeOk, PairedTree, TreeHeight, Meaning;
    assert [] + tail == tail;
    AfterValue([], tail);
    TreeComplete(t, tail, depth);
    Split(Spell(t), tail);
  }

  lemma {:induction false} SearchMembers(members: seq<Member>, key: Bytes, found: Option<Bytes>, depth: int, f: Formatter)
    requires members != [] && forall i | 0 <= i < |members| :: Printable(members[i].value, f)
    requires depth + MembersHeight(members) <= MAX_PARSE_DEPTH
    ensures TextAfterKey(MembersText(members, f) + [CLOSE_BRACE], key, found, depth) == Found(members, key, found, f)
    decreases |members|
  {
    hide TextAfterKey, ValueText, MemberText, StringText, TreeOf, CharsOf, Printable, Height, TreeHeight, TreeOk,
      PairedTree, Spell, Paired, CharsOk, CharsMeaning, ReadKey, SpellFields, MembersText, FieldsOk;
    var m, end := members[0], [CLOSE_BRACE];
    var fields := FieldsOf(members, f);
    FieldsOfCorrect(members, [], f);
    FieldsHead(fields, end);
    FirstField(members, f);
    TreeOfCorrect(m.value, f);
    var tail := FieldsTail(fields, end);
    assert [] + tail == tail;
    var here := if m.key == key then Some(ValueText(m.value, f)) else found;
    SearchStep(SpellFields(fields) + end, key, found, depth, m.key, fields.field.tree, tail);
    if |members| == 1 {
      assert members[1..] == [];
    } else {
      FieldsOfCorrect(members[1..], [], f);
      assert tail[1..] == MembersText(members[1..], f) + end;
      SearchMembers(members[1..], key, here, depth, f);
    }
  }

  lemma FirstField(members: seq<Member>, f: Formatter)
    requires members != [] && forall i | 0 <= i < |members| :: Printable(members[i].value, f)
    ensures var field := FieldsOf(members, f).field;
            && field.tree == TreeOf(members[0].value, f) && field.after == []
            && CharsOk(field.key) && Paired(field.key) && CharsMeaning(field.key) == members[0].key
    ensures FieldsOf(members, f).LastField? <==> |members| == 1
    ensures |members| > 1 ==> FieldsOf(members, f).others == FieldsOf(members[1..], f)
  {
    hide TreeOf, CharsOk, Paired, CharsMeaning, StringText;
    StringTextSpells(members[0].key);
  }

  lemma {:induction false} FoundUnique(members: seq<Member>, i: nat, found: Option<Bytes>, f: Formatter)
    requires UniqueKeys(members) && i < |members|
    ensures Found(members, members[i].key, found, f) == Some(ValueText(members[i].value, f))
    decreases |members|
  {
    hide ValueText;
    var here := if members[0].key == members[i].key then Some(ValueText(members[0].value, f)) else found;
    if i > 0 {
      FoundUnique(members[1..], i - 1, here, f);
    } else {
      NotFound(members[1..], members[0].key, here, f);
    }
  }

  lemma {:induction false} NotFound(members: seq<Member>, key: Bytes, found: Option<Bytes>, f: Formatter)
    requires forall i | 0 <= i < |members| :: members[i].key != key
    ensures Found(members, key, found, f) == found
    decreases |members|
  {
    hide ValueText;
    if members != [] { NotFound(members[1..], key, found, f); }
  }

  /** An integer member of any object printed is read as that integer, by its key. */
  lemma IntegerMemberReads(members: seq<Member>, i: nat, n: int, f: Formatter)
    requires UniqueKeys(members) && Printable(Value.Object(members), f)
    requires i < |members| && members[i].value == Integer(n)
    requires -1_000_000_000_000_000 < n < 1_000_000_000_000_000
    ensures IntegerField(ValueText(Value.Object(members), f), members[i].key) == Some(n)
  {
    hide IntegerOf, TextAfterKey, MembersText, IsObject, Found, UniqueKeys;
    var v := Value.Object(members);
    var text := ValueText(v, f);
    var key := members[i].key;
    PrintedObject(v, f);
    ObjectOpens(members, f);
    PrintedHeight(v, f);
    SearchMembers(members, key, None, MAX_PARSE_DEPTH - |text|, f);
    FoundUnique(members, i, None, f);
    IntegerReads(n, f);
  }

  lemma ObjectOpens(members: seq<Member>, f: Formatter)
    requires members != []
    ensures var text := ValueText(Value.Object(members), f);
            && SkipWhitespace(text) == text && StartsWith(text, OPEN_BRACE)
            && text[1..] == MembersText(members, f) + [CLOSE_BRACE]
            && !StartsWith(SkipWhitespace(text[1..]), CLOSE_BRACE)
  {
    hide ValueText, EscapedText;
    var m := members[0];
    var text := MembersText(members, f) + [CLOSE_BRACE];
    assert MemberText(m, f)[0] == QUOTE;
    assert text[0] == QUOTE;
    ObjectText(members, f);
    Split([OPEN_BRACE], text);
  }

  lemma ObjectText(members: seq<Member>, f: Formatter)
    ensures ValueText(Value.Object(members), f) == [OPEN_BRACE] + (MembersText(members, f) + [CLOSE_BRACE])
  {
  }

  lemma PrintedHeight(v: Value, f: Formatter)
    requires Printable(v, f)
    ensures Height(v) < |ValueText(v, f)|
  {
    hide TreeOk, Spell, TreeHeight, ValueText, Height, TreeOf;
    TreeOfCorrect(v, f);
    HeightBelowLength(TreeOf(v, f));
  }
}
