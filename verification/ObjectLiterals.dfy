/** What the text of a literal means as a JavaScript expression: a reader for literals, arrays and objects. */
module ObjectLiterals {
  import opened Wrappers

  /** A property is an own member, or sets the prototype of the object. */
  datatype Js =
    | Token(text: string)
    | Text(chars: string)
    | List(elements: Elements)
    | Record(properties: Properties)

  datatype Elements = NoElements | Element(value: Js, rest: Elements)

  datatype Properties =
    | NoProperties
    | Own(key: string, value: Js, rest: Properties)
    | SetPrototype(value: Js, rest: Properties)

  /** What was read, and the text behind it. */
  datatype Reading<T> = Reading(what: T, rest: string)

  /** The characters of numbers, `true`, `false` and `null`. */
  predicate IsTokenChar(c: char) {
    'a' <= c <= 'z' || 'A' <= c <= 'Z' || '0' <= c <= '9' || c == '+' || c == '-' || c == '.'
  }

  function TokenLength(s: string): (n: nat)
    ensures n <= |s|
  {
    if s == [] || !IsTokenChar(s[0]) then 0 else 1 + TokenLength(s[1..])
  }

  function HexValue(c: char): Option<nat> {
    if '0' <= c <= '9' then Some(c as nat - '0' as nat)
    else if 'a' <= c <= 'f' then Some(c as nat - 'a' as nat + 10)
    else if 'A' <= c <= 'F' then Some(c as nat - 'A' as nat + 10)
    else None
  }

  /** One character of a string literal (section 12.9.4 of ECMA-262). Of the four-digit escapes only
      those up to 255 are read. */
  function ReadChar(s: string): (r: Option<Reading<char>>)
    ensures r.Some? ==> |r.value.rest| < |s|
  {
    if s == [] || s[0] == '\"' || s[0] == '\n' || s[0] == '\r' then None
    else if s[0] != '\\' then Some(Reading(s[0], s[1..]))
    else if |s| < 2 then None
    else if s[1] == '\"' || s[1] == '\\' then Some(Reading(s[1], s[2..]))
    else if s[1] == 'n' then Some(Reading('\n', s[2..]))
    else if s[1] == 'r' then Some(Reading('\r', s[2..]))
    else if s[1] == 't' then Some(Reading('\t', s[2..]))
    else if s[1] == 'b' then Some(Reading(8 as char, s[2..]))
    else if s[1] == 'f' then Some(Reading(12 as char, s[2..]))
    else if s[1] == 'u' && |s| >= 6 && s[2] == '0' && s[3] == '0' && HexValue(s[4]).Some? && HexValue(s[5]).Some? then
      Some(Reading((HexValue(s[4]).value * 16 + HexValue(s[5]).value) as char, s[6..]))
    else None
  }

  /** The rest of a string literal, after its opening quote. */
  function ReadChars(s: string): (r: Option<Reading<string>>)
    ensures r.Some? ==> |r.value.rest| < |s|
    decreases |s|
  {
    if s != [] && s[0] == '\"' then Some(Reading("", s[1..]))
    else
      var first := ReadChar(s);
      if first.None? then None
      else
        var more := ReadChars(first.value.rest);
        if more.None? then None else Some(Reading([first.value.what] + more.value.what, more.value.rest))
  }

  /** A property name with its colon, and whether it is computed (section 13.2.5 of ECMA-262). */
  datatype Key = Key(name: string, computed: bool)

  function ReadKey(s: string): (r: Option<Reading<Key>>)
    ensures r.Some? ==> |r.value.rest| < |s|
  {
    if |s| > 1 && s[0] == '[' && s[1] == '\"' then
      var name := ReadChars(s[2..]);
      if name.Some? && |name.value.rest| > 1 && name.value.rest[0] == ']' && name.value.rest[1] == ':' then
        Some(Reading(Key(name.value.what, true), name.value.rest[2..]))
      else None
    else if s != [] && s[0] == '\"' then
      var name := ReadChars(s[1..]);
      if name.Some? && name.value.rest != [] && name.value.rest[0] == ':' then
        Some(Reading(Key(name.value.what, false), name.value.rest[1..]))
      else None
    else None
  }

  /** Section B.3.1 of ECMA-262: `__proto__: v` sets the prototype, unless the name is computed. */
  function Property(key: Key, value: Js, rest: Properties): Properties {
    if key.name == "__proto__" && !key.computed then SetPrototype(value, rest) else Own(key.name, value, rest)
  }

  function Read(s: string): (r: Option<Reading<Js>>)
    ensures r.Some? ==> |r.value.rest| < |s|
    decreases |s|, 0
  {
    if s == [] then None
    else if s[0] == '\"' then
      var chars := ReadChars(s[1..]);
      if chars.None? then None else Some(Reading(Text(chars.value.what), chars.value.rest))
    else if s[0] == '[' then
      var elements := if |s| > 1 && s[1] == ']' then Some(Reading(NoElements, s[2..])) else ReadElements(s[1..]);
      if elements.None? then None else Some(Reading(List(elements.value.what), elements.value.rest))
    else if s[0] == '{' then
      var properties := if |s| > 1 && s[1] == '}' then Some(Reading(NoProperties, s[2..])) else ReadProperties(s[1..]);
      if properties.None? then None else Some(Reading(Record(properties.value.what), properties.value.rest))
    else
      var n := TokenLength(s);
      if n == 0 then None else Some(Reading(Token(s[..n]), s[n..]))
  }

  /** One element or more, up to the closing bracket. */
  function ReadElements(s: string): (r: Option<Reading<Elements>>)
    ensures r.Some? ==> |r.value.rest| < |s|
    decreases |s|, 1
  {
    var first := Read(s);
    if first.None? || first.value.rest == [] then None
    else
      var value, after := first.value.what, first.value.rest;
      if after[0] == ']' then Some(Reading(Element(value, NoElements), after[1..]))
      else if after[0] != ',' then None
      else
        var more := ReadElements(after[1..]);
        if more.None? then None else Some(Reading(Element(value, more.value.what), more.value.rest))
  }

  /** One property or more, up to the closing brace. */
  function ReadProperties(s: string): (r: Option<Reading<Properties>>)
    ensures r.Some? ==> |r.value.rest| < |s|
    decreases |s|, 1
  {
    var key := ReadKey(s);
    var first := if key.None? then None else Read(key.value.rest);
    if key.None? || first.None? || first.value.rest == [] then None
    else
      var value, after := first.value.what, first.value.rest;
      if after[0] == '}' then Some(Reading(Property(key.value.what, value, NoProperties), after[1..]))
      else if after[0] != ',' then None
      else
        var more := ReadProperties(after[1..]);
        if more.None? then None
        else Some(Reading(Property(key.value.what, value, more.value.what), more.value.rest))
  }

  /** The value of the whole text. */
  function Meaning(s: string): Option<Js> {
    var all := Read(s);
    if all.Some? && all.value.rest == [] then Some(all.value.what) else None
  }
}
