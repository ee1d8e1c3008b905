/**
 The printer of src/relay/protocol/json.cpp.  `fractional` stands for the `%.17g` text of a number that is not an
 integer below 10^15.
 */
module JsonPrinter {
  import opened Text
  import opened JsonValue
  import opened JsonGrammar

  type Formatter = real -> Bytes

  // ------------------------------------------------------ what is printed

  function NatText(n: nat): (r: Bytes)
    ensures r != []
  {
    if n < 10 then [0x30 + n] else NatText(n / 10) + [0x30 + n % 10]
  }

  function IntText(n: int): Bytes {
    if n < 0 then [MINUS] + NatText(-n) else NatText(n)
  }

  /** The condition under which a number is printed as an integer. */
  predicate PrintsAsInteger(r: real) {
    r == r.Floor as real && -1_000_000_000_000_000.0 < r < 1_000_000_000_000_000.0
  }

  function NumberText(n: Number, fractional: Formatter): Bytes {
    if !n.Finite? then NULL
    else if PrintsAsInteger(n.r) then IntText(n.r.Floor)
    else fractional(n.r)
  }

  function HexDigit(n: nat): Byte
    requires n < 16
  {
    if n < 10 then 0x30 + n else 0x61 + (n - 10)
  }

  function ShortEscape(b: Byte): Option<Byte> {
    match b
    case 0x22 => Some(0x22)
    case 0x5C => Some(0x5C)
    case 0x08 => Some(0x62)
    case 0x0C => Some(0x66)
    case 0x0A => Some(0x6E)
    case 0x0D => Some(0x72)
    case 0x09 => Some(0x74)
    case _ => None
  }

  function ByteText(b: Byte): Bytes {
    if ShortEscape(b).Some? then [BACKSLASH, ShortEscape(b).value]
    else if b < 0x20 then [BACKSLASH, LOWER_U, 0x30, 0x30, HexDigit(b / 16), HexDigit(b % 16)]
    else [b]
  }

  function EscapedText(s: Bytes): Bytes {
    if s == [] then [] else EscapedText(s[..|s| - 1]) + ByteText(s[|s| - 1])
  }

  function StringText(s: Bytes): Bytes { [QUOTE] + (EscapedText(s) + [QUOTE]) }

  function ValueText(v: Value, fractional: Formatter): Bytes
    decreases v, 0
  {
    match v
    case Null => NULL
    case Bool(b) => if b then TRUE else FALSE
    case Number(n) => NumberText(n, fractional)
    case String(s) => StringText(s)
    case Array(items) => [OPEN_BRACKET] + (ItemsText(items, fractional) + [CLOSE_BRACKET])
    case Object(members) => [OPEN_BRACE] + (MembersText(members, fractional) + [CLOSE_BRACE])
  }

  function ItemsText(items: seq<Value>, fractional: Formatter): Bytes
    decreases items, 1
  {
    if items == [] then []
    else ValueText(items[0], fractional)
         + (if |items| == 1 then [] else [COMMA] + ItemsText(items[1..], fractional))
  }

  function MemberText(m: Member, fractional: Formatter): Bytes
    decreases m.value, 1
  {
    StringText(m.key) + ([COLON] + ValueText(m.value, fractional))
  }

  function MembersText(members: seq<Member>, fractional: Formatter): Bytes
    decreases members, 2
  {
    if members == [] then []
    else MemberText(members[0], fractional)
         + (if |members| == 1 then [] else [COMMA] + MembersText(members[1..], fractional))
  }

  // ----------------------------------------------------------- the printer

  class Writer {
    var out: Bytes

    constructor ()
      ensures out == []
    {
      out := [];
    }

    /** The switch of `writeEscapedString`. */
    method WriteByte(c: Byte)
      modifies this
      ensures out == old(out) + ByteText(c)
    {
      var short := ShortEscape(c);
      if short.Some? {
        out := out + [BACKSLASH, short.value];
      } else if c < 0x20 {
        out := out + [BACKSLASH, LOWER_U, 0x30, 0x30, HexDigit(c / 16), HexDigit(c % 16)];
      } else {
        out := out + [c];
      }
    }

    method WriteEscapedString(value: Bytes)
      modifies this
      ensures out == old(out) + StringText(value)
    {
      hide ByteText;
      out := out + [QUOTE];
      for i := 0 to |value|
        invariant out == old(out) + [QUOTE] + EscapedText(value[..i])
      {
        assert value[..i + 1][..i] == value[..i];
        WriteByte(value[i]);
      }
      assert value[..|value|] == value;
      out := out + [QUOTE];
    }

    method WriteNumber(value: Number, fractional: Formatter)
      modifies this
      ensures out == old(out) + NumberText(value, fractional)
    {
      if !value.Finite? {
        out := out + NULL;
      } else if PrintsAsInteger(value.r) {
        out := out + IntText(value.r.Floor);
      } else {
        out := out + fractional(value.r);
      }
    }

    method WriteValue(value: Value, fractional: Formatter)
      modifies this
      ensures out == old(out) + ValueText(value, fractional)
      decreases value, 0
    {
      hide ItemsText, MembersText, NumberText, StringText;
      match value
      case Null => out := out + NULL;
      case Bool(b) => out := out + (if b then TRUE else FALSE);
      case Number(n) => WriteNumber(n, fractional);
      case String(s) => WriteEscapedString(s);
      case Array(items) =>
        out := out + [OPEN_BRACKET];
        WriteItems(items, fractional);
        out := out + [CLOSE_BRACKET];
      case Object(members) =>
        out := out + [OPEN_BRACE];
        WriteMembers(members, fractional);
        out := out + [CLOSE_BRACE];
    }

    /** The array loop of `writeValue`. */
    method WriteItems(items: seq<Value>, fractional: Formatter)
      modifies this
      ensures out == old(out) + ItemsText(items, fractional)
      decreases items, 1
    {
      hide ItemsText, ValueText;
      NoItemsText(fractional);
      var first := true;
      for i := 0 to |items|
        invariant first == (i == 0)
        invariant out == old(out) + ItemsText(items[..i], fractional)
      {
        if !first { out := out + [COMMA]; }
        first := false;
        WriteValue(items[i], fractional);
        ItemsTextSnoc(items[..i], items[i], fractional);
        assert items[..i] + [items[i]] == items[..i + 1];
      }
      assert items[..|items|] == items;
    }

    method WriteMember(m: Member, fractional: Formatter)
      modifies this
      ensures out == old(out) + MemberText(m, fractional)
      decreases m.value, 1
    {
      WriteEscapedString(m.key);
      out := out + [COLON];
      WriteValue(m.value, fractional);
    }

    /** The object loop of `writeValue`. */
    method WriteMembers(members: seq<Member>, fractional: Formatter)
      modifies this
      ensures out == old(out) + MembersText(members, fractional)
      decreases members, 2
    {
      hide MembersText, MemberText;
      NoItemsText(fractional);
      var first := true;
      for i := 0 to |members|
        invariant first == (i == 0)
        invariant out == old(out) + MembersText(members[..i], fractional)
      {
        if !first { out := out + [COMMA]; }
        first := false;
        WriteMember(members[i], fractional);
        MembersTextSnoc(members[..i], members[i], fractional);
        assert members[..i] + [members[i]] == members[..i + 1];
      }
      assert members[..|members|] == members;
    }
  }

  method Dump(value: Value, fractional: Formatter) returns (text: Bytes)
    ensures text == ValueText(value, fractional)
  {
    var writer := new Writer();
    writer.WriteValue(value, fractional);
    text := writer.out;
  }

  lemma NoItemsText(fractional: Formatter)
    ensures ItemsText([], fractional) == [] && MembersText([], fractional) == []
  {
  }

  lemma {:induction false} ItemsTextSnoc(items: seq<Value>, last: Value, fractional: Formatter)
    ensures ItemsText(items + [last], fractional)
         == ItemsText(items, fractional) + ((if items == [] then [] else [COMMA]) + ValueText(last, fractional))
  {
    if items == [] {
      assert items + [last] == [last];
    } else {
      ItemsTextSnoc(items[1..], last, fractional);
      assert (items + [last])[1..] == items[1..] + [last];
      var head, more, end := ValueText(items[0], fractional), ItemsText(items[1..], fractional), ValueText(last, fractional);
      if |items| == 1 {
        assert items[1..] == [];
        assert [] + ([] + end) == end;
        assert head + [] == head;
      } else {
        Regroup([COMMA], more, [COMMA] + end);
        Regroup(head, [COMMA] + more, [COMMA] + end);
      }
    }
  }

  lemma {:induction false} MembersTextSnoc(members: seq<Member>, last: Member, fractional: Formatter)
    ensures MembersText(members + [last], fractional)
         == MembersText(members, fractional) + ((if members == [] then [] else [COMMA]) + MemberText(last, fractional))
  {
    hide MemberText;
    if members == [] {
      assert members + [last] == [last];
    } else {
      MembersTextSnoc(members[1..], last, fractional);
      assert (members + [last])[1..] == members[1..] + [last];
      var head, more, end := MemberText(members[0], fractional), MembersText(members[1..], fractional), MemberText(last, fractional);
      if |members| == 1 {
        assert members[1..] == [];
        assert [] + ([] + end) == end;
        assert head + [] == head;
      } else {
        Regroup([COMMA], more, [COMMA] + end);
        Regroup(head, [COMMA] + more, [COMMA] + end);
      }
    }
  }
}
