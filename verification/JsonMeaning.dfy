/** Read back as JavaScript, a rewritten JSON text is the value itself, every key an own member. */
module JsonMeaning {
  import opened JsonExpressions
  import opened ObjectLiterals
  import opened Wrappers

  /** JSON whose numbers, `true`, `false` and `null` are spelled with token characters. */
  predicate IsCompact(v: Json) {
    match v
    case Literal(text) => text != [] && AreTokenChars(text)
    case Str(_) => true
    case Arr(items) => AreCompactItems(items)
    case Obj(members) => AreCompactMembers(members)
  }

  predicate AreCompactItems(items: Items) {
    items.Item? ==> IsCompact(items.value) && AreCompactItems(items.rest)
  }

  predicate AreCompactMembers(members: Members) {
    members.Member? ==> IsCompact(members.value) && AreCompactMembers(members.rest)
  }

  predicate AreTokenChars(text: string) {
    forall i | 0 <= i < |text| :: IsTokenChar(text[i])
  }

  /** The value as a program has it, with every member its own, or as the unrewritten text has it. */
  function AsJs(v: Json, own: bool): Js {
    match v
    case Literal(text) => Token(text)
    case Str(chars) => Text(chars)
    case Arr(items) => List(AsElements(items, own))
    case Obj(members) => Record(AsProperties(members, own))
  }

  function AsElements(items: Items, own: bool): Elements {
    match items
    case NoItems => NoElements
    case Item(value, rest) => Element(AsJs(value, own), AsElements(rest, own))
  }

  function AsProperties(members: Members, own: bool): Properties {
    match members
    case NoMembers => NoProperties
    case Member(key, value, rest) =>
      if own || key != "__proto__" then Own(key, AsJs(value, own), AsProperties(rest, own))
      else SetPrototype(AsJs(value, own), AsProperties(rest, own))
  }

  // ---- Strings and keys -------------------------------------------------------------------

  lemma HexDigitHasValue(n: nat)
    requires n < 16
    ensures HexValue(HexDigit(n)) == Some(n)
  {
  }

  lemma ReadEscapedChar(c: char, rest: string)
    ensures ReadChar(EscapeChar(c) + rest) == Some(Reading(c, rest))
    ensures (EscapeChar(c) + rest)[0] != '\"'
  {
    var e := EscapeChar(c);
    assert (e + rest)[|e|..] == rest;
    if |e| == 6 {
      HexDigitHasValue(c as nat / 16);
      HexDigitHasValue(c as nat % 16);
    }
  }

  lemma {:induction false} ReadEscaped(s: string, rest: string)
    ensures ReadChars(Escape(s) + ("\"" + rest)) == Some(Reading(s, rest))
    decreases |s|
  {
    if s == [] {
      assert Escape(s) + ("\"" + rest) == "\"" + rest && ("\"" + rest)[1..] == rest;
    } else {
      var tail := Escape(s[1..]) + ("\"" + rest);
      Join3(EscapeChar(s[0]), Escape(s[1..]), "\"" + rest);
      ReadEscapedChar(s[0], tail);
      ReadEscaped(s[1..], rest);
      assert s == [s[0]] + s[1..];
    }
  }

  lemma ReadQuoted(s: string, rest: string)
    ensures Read(Quoted(s) + rest) == Some(Reading(Text(s), rest))
  {
    Join4("\"", Escape(s), "\"", rest);
    ReadEscaped(s, rest);
    assert ("\"" + (Escape(s) + ("\"" + rest)))[1..] == Escape(s) + ("\"" + rest);
  }

  lemma ReadQuotedKey(s: string, rest: string)
    ensures ReadKey(Quoted(s) + ":" + rest) == Some(Reading(Key(s, false), rest))
  {
    var after := ":" + rest;
    Join3(Quoted(s), ":", rest);
    Join4("\"", Escape(s), "\"", after);
    ReadEscaped(s, after);
    assert ("\"" + (Escape(s) + ("\"" + after)))[1..] == Escape(s) + ("\"" + after);
    assert after[1..] == rest;
  }

  lemma ReadBracketedKey(name: string, rest: string)
    ensures ReadKey("[\"" + (Escape(name) + ("\"" + ("]:" + rest)))) == Some(Reading(Key(name, true), rest))
  {
    var after := "]:" + rest;
    ReadEscaped(name, after);
    assert ("[\"" + (Escape(name) + ("\"" + after)))[2..] == Escape(name) + ("\"" + after);
    assert after[2..] == rest;
  }

  lemma BracketedText(name: string, rest: string)
    ensures "[\"" + name + "\"]:" + rest == "[\"" + (name + ("\"" + ("]:" + rest)))
  {
  }

  lemma ComputedKeyText(name: string)
    requires name == PROTO
    ensures COMPUTED_KEY == "[\"" + name + "\"]:"
  {
  }

  lemma ReadComputedKey(rest: string)
    ensures ReadKey(COMPUTED_KEY + rest) == Some(Reading(Key(PROTO, true), rest))
  {
    assert Escape(PROTO) == PROTO by {
      PlainEscape(PROTO);
    }
    ReadKeyText(PROTO, rest);
  }

  lemma ReadKeyText(name: string, rest: string)
    requires name == PROTO == Escape(name)
    ensures ReadKey(COMPUTED_KEY + rest) == Some(Reading(Key(name, true), rest))
  {
    ComputedKeyText(name);
    BracketedText(name, rest);
    ReadBracketedKey(name, rest);
  }

  lemma ReadPrintedKey(key: string, computed: bool, rest: string)
    ensures ReadKey(PrintKey(key, computed) + rest) == Some(Reading(Key(key, computed && key == PROTO), rest))
  {
    if computed && key == PROTO {
      ReadComputedKey(rest);
    } else {
      ReadQuotedKey(key, rest);
    }
  }

  // ---- Values -----------------------------------------------------------------------------

  lemma {:induction false} TokenEnds(text: string, rest: string)
    requires AreTokenChars(text) && EndsValue(rest)
    ensures TokenLength(text + rest) == |text|
  {
    if text != [] {
      assert (text + rest)[1..] == text[1..] + rest;
      TokenEnds(text[1..], rest);
    }
  }

  lemma ReadToken(text: string, rest: string)
    requires text != [] && AreTokenChars(text) && EndsValue(rest)
    ensures Read(text + rest) == Some(Reading(Token(text), rest))
  {
    TokenEnds(text, rest);
    assert IsTokenChar((text + rest)[0]);
    assert (text + rest)[..|text|] == text && (text + rest)[|text|..] == rest;
  }

  /** The first character of a printed value closes nothing. */
  lemma StartsValue(v: Json, computed: bool, rest: string)
    requires IsCompact(v)
    ensures Print(v, computed) != [] && Print(v, computed)[0] != ']' && Print(v, computed)[0] != '}'
  {
    if v.Literal? {
      assert IsTokenChar(v.text[0]);
    }
  }

  lemma {:induction false} ReadValue(v: Json, computed: bool, rest: string)
    requires IsCompact(v) && EndsValue(rest)
    ensures Read(Print(v, computed) + rest) == Some(Reading(AsJs(v, computed), rest))
    decreases v, 0
  {
    match v
    case Literal(text) => ReadToken(text, rest);
    case Str(chars) => ReadQuoted(chars, rest);
    case Arr(items) =>
      if items.Item? {
        ReadItems(items, computed, rest);
        StartsItems(items, computed);
      }
      ReadArray(PrintItems(items, computed), AsElements(items, computed), rest);
    case Obj(members) =>
      if members.Member? {
        ReadMembers(members, computed, rest);
        StartsMembers(members, computed);
      }
      ReadObject(PrintMembers(members, computed), AsProperties(members, computed), rest);
  }

  lemma ReadArray(inner: string, elements: Elements, rest: string)
    requires if inner == [] then elements == NoElements
             else inner[0] != ']' && ReadElements(inner + ("]" + rest)) == Some(Reading(elements, rest))
    ensures Read("[" + inner + "]" + rest) == Some(Reading(List(elements), rest))
  {
    Join4("[", inner, "]", rest);
    var s := "[" + (inner + ("]" + rest));
    assert s[1..] == inner + ("]" + rest);
    assert inner == [] ==> s[2..] == rest;
  }

  lemma ReadObject(inner: string, properties: Properties, rest: string)
    requires if inner == [] then properties == NoProperties
             else inner[0] != '}' && ReadProperties(inner + ("}" + rest)) == Some(Reading(properties, rest))
    ensures Read("{" + inner + "}" + rest) == Some(Reading(Record(properties), rest))
  {
    Join4("{", inner, "}", rest);
    var s := "{" + (inner + ("}" + rest));
    assert s[1..] == inner + ("}" + rest);
    assert inner == [] ==> s[2..] == rest;
  }

  lemma StartsMembers(members: Members, computed: bool)
    requires members.Member?
    ensures PrintMembers(members, computed) != [] && PrintMembers(members, computed)[0] != '}'
  {
    assert PrintMembers(members, computed)[0] == PrintKey(members.key, computed)[0];
  }

  lemma StartsItems(items: Items, computed: bool)
    requires AreCompactItems(items) && items.Item?
    ensures PrintItems(items, computed) != [] && PrintItems(items, computed)[0] != ']'
  {
    StartsValue(items.value, computed, "");
  }

  lemma {:induction false} ReadItems(items: Items, computed: bool, rest: string)
    requires AreCompactItems(items) && items.Item?
    ensures ReadElements(PrintItems(items, computed) + ("]" + rest)) == Some(Reading(AsElements(items, computed), rest))
    decreases items, 1
  {
    var value, others := items.value, items.rest;
    if others.NoItems? {
      assert PrintItems(items, computed) == Print(value, computed);
      ReadValue(value, computed, "]" + rest);
      assert ("]" + rest)[1..] == rest;
    } else {
      var more := PrintItems(others, computed) + ("]" + rest);
      Join4(Print(value, computed), ",", PrintItems(others, computed), "]" + rest);
      Join3(Print(value, computed), ",", PrintItems(others, computed));
      ReadValue(value, computed, "," + more);
      assert ("," + more)[1..] == more;
      ReadItems(others, computed, rest);
    }
  }

  lemma LastProperty(s: string, key: Key, t: string, value: Js, rest: string)
    requires ReadKey(s) == Some(Reading(key, t)) && Read(t) == Some(Reading(value, "}" + rest))
    ensures ReadProperties(s) == Some(Reading(Property(key, value, NoProperties), rest))
  {
    assert ("}" + rest)[1..] == rest;
  }

  lemma NextProperty(s: string, key: Key, t: string, value: Js, more: string, others: Properties, rest: string)
    requires ReadKey(s) == Some(Reading(key, t)) && Read(t) == Some(Reading(value, "," + more))
    requires ReadProperties(more) == Some(Reading(others, rest))
    ensures ReadProperties(s) == Some(Reading(Property(key, value, others), rest))
  {
    assert ("," + more)[1..] == more;
  }

  lemma RegroupMembers(members: Members, computed: bool, rest: string)
    requires members.Member?
    ensures PrintMembers(members, computed) + rest == PrintKey(members.key, computed)
              + (Print(members.value, computed) + (MoreMembers(members.rest, computed) + rest))
    ensures members.rest.Member? ==>
              MoreMembers(members.rest, computed) + rest == "," + (PrintMembers(members.rest, computed) + rest)
    ensures members.rest.NoMembers? ==> MoreMembers(members.rest, computed) + rest == rest
  {
    Join4(PrintKey(members.key, computed), Print(members.value, computed), MoreMembers(members.rest, computed), rest);
    Join3(",", PrintMembers(members.rest, computed), rest);
  }

  lemma PropertyOfMember(members: Members, computed: bool)
    requires members.Member?
    ensures AsProperties(members, computed) == Property(Key(members.key, computed && members.key == PROTO),
                AsJs(members.value, computed), AsProperties(members.rest, computed))
  {
  }

  lemma {:induction false} ReadMembers(members: Members, computed: bool, rest: string)
    requires AreCompactMembers(members) && members.Member?
    ensures ReadProperties(PrintMembers(members, computed) + ("}" + rest)) ==
            Some(Reading(AsProperties(members, computed), rest))
    decreases members, 1
  {
    var text := PrintMembers(members, computed) + ("}" + rest);
    var after := MoreMembers(members.rest, computed) + ("}" + rest);
    var key, valueText := Key(members.key, computed && members.key == PROTO), Print(members.value, computed) + after;
    var value := AsJs(members.value, computed);
    RegroupMembers(members, computed, "}" + rest);
    PropertyOfMember(members, computed);
    assert ReadKey(text) == Some(Reading(key, valueText)) by {
      ReadPrintedKey(members.key, computed, valueText);
    }
    assert Read(valueText) == Some(Reading(value, after)) by {
      ReadValue(members.value, computed, after);
    }
    if members.rest.NoMembers? {
      LastProperty(text, key, valueText, value, rest);
    } else {
      ReadMembers(members.rest, computed, rest);
      NextProperty(text, key, valueText, value, PrintMembers(members.rest, computed) + ("}" + rest),
                   AsProperties(members.rest, computed), rest);
    }
  }

  // ---- The meaning of the output ----------------------------------------------------------

  lemma {:induction false} CompactIsJson(v: Json)
    requires IsCompact(v)
    ensures IsJson(v)
    decreases v, 0
  {
    match v
    case Literal(text) => assert forall i | 0 <= i < |text| :: IsTokenChar(text[i]);
    case Str(_) =>
    case Arr(items) => CompactItemsAreItems(items);
    case Obj(members) => CompactMembersAreMembers(members);
  }

  lemma {:induction false} CompactItemsAreItems(items: Items)
    requires AreCompactItems(items)
    ensures AreItems(items)
    decreases items, 1
  {
    if items.Item? {
      CompactIsJson(items.value);
      CompactItemsAreItems(items.rest);
    }
  }

  lemma {:induction false} CompactMembersAreMembers(members: Members)
    requires AreCompactMembers(members)
    ensures AreMembers(members)
    decreases members, 1
  {
    if members.Member? {
      CompactIsJson(members.value);
      CompactMembersAreMembers(members.rest);
    }
  }

  /** For every JSON value: as JavaScript, the rewritten text of the value means the value, with each
      member its object's own at every depth. Without the rewriting, each `__proto__` member would set
      the prototype instead, and everything else would be the same. */
  lemma EveryMemberIsOwn(v: Json)
    requires IsCompact(v)
    ensures Meaning(Rewrite(' ', Print(v, false))) == Some(AsJs(v, true))
    ensures Meaning(Print(v, false)) == Some(AsJs(v, false))
  {
    CompactIsJson(v);
    RewriteComputesProtoKeys(v);
    ReadValue(v, true, "");
    ReadValue(v, false, "");
    assert Print(v, true) + "" == Print(v, true) && Print(v, false) + "" == Print(v, false);
  }
}
