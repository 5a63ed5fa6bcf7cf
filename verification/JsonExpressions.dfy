/** Compact JSON as a JavaScript expression: every `__proto__` key of an object becomes computed. */
module JsonExpressions {
  import opened PatchIds
  import opened Sets

  datatype Json =
    | Literal(text: string)
    | Str(chars: string)
    | Arr(items: Items)
    | Obj(members: Members)

  datatype Items = NoItems | Item(value: Json, rest: Items)

  datatype Members = NoMembers | Member(key: string, value: Json, rest: Members)

  const PROTO := "__proto__"
  const PROTO_KEY := "\"__proto__\":"
  const COMPUTED_KEY := "[\"__proto__\"]:"

  // ---- Printing (section 7 of RFC 8259) ---------------------------------------------------

  function HexDigit(n: nat): char
    requires n < 16
  {
    "0123456789abcdef"[n]
  }

  function EscapeChar(c: char): (e: string)
    ensures |e| > 0
  {
    if c == '\"' then "\\\""
    else if c == '\\' then "\\\\"
    else if c == '\n' then "\\n"
    else if c == '\r' then "\\r"
    else if c == '\t' then "\\t"
    else if c as int == 8 then "\\b"
    else if c as int == 12 then "\\f"
    else if c < ' ' then "\\u00" + [HexDigit(c as nat / 16), HexDigit(c as nat % 16)]
    else [c]
  }

  function Escape(s: string): string {
    if s == [] then [] else EscapeChar(s[0]) + Escape(s[1..])
  }

  function Quoted(s: string): string {
    "\"" + Escape(s) + "\""
  }

  /** A key with its colon, either as JSON has it or with `__proto__` computed. */
  function PrintKey(key: string, computed: bool): string {
    if computed && key == PROTO then COMPUTED_KEY else Quoted(key) + ":"
  }

  function Print(v: Json, computed: bool): string {
    match v
    case Literal(text) => text
    case Str(chars) => Quoted(chars)
    case Arr(items) => "[" + PrintItems(items, computed) + "]"
    case Obj(members) => "{" + PrintMembers(members, computed) + "}"
  }

  function PrintItems(items: Items, computed: bool): string {
    match items
    case NoItems => ""
    case Item(value, rest) => Print(value, computed) + (if rest.NoItems? then "" else "," + PrintItems(rest, computed))
  }

  function PrintMembers(members: Members, computed: bool): string {
    match members
    case NoMembers => ""
    case Member(key, value, rest) =>
      PrintKey(key, computed) + Print(value, computed)
          + (if rest.NoMembers? then "" else "," + PrintMembers(rest, computed))
  }

  /** Numbers, `true`, `false` and `null` have no quotes in their text. */
  predicate IsJson(v: Json) {
    match v
    case Literal(text) => text != [] && '\"' !in text
    case Str(_) => true
    case Arr(items) => AreItems(items)
    case Obj(members) => AreMembers(members)
  }

  predicate AreItems(items: Items) {
    items.Item? ==> IsJson(items.value) && AreItems(items.rest)
  }

  predicate AreMembers(members: Members) {
    members.Member? ==> IsJson(members.value) && AreMembers(members.rest)
  }

  // ---- Rewriting --------------------------------------------------------------------------

  /** The key pattern begins at `s`, right after an object delimiter or a comma. */
  predicate StartsKey(prev: char, s: string) {
    (prev == '{' || prev == ',') && PROTO_KEY <= s
  }

  /** Every key pattern after a delimiter is replaced, from left to right. */
  function Rewrite(prev: char, s: string): string
    decreases |s|
  {
    if s == [] then []
    else if StartsKey(prev, s) then COMPUTED_KEY + Rewrite(':', s[|PROTO_KEY|..])
    else [s[0]] + Rewrite(s[0], s[1..])
  }

  function Before(s: string, i: nat): char
    requires i <= |s|
  {
    if i == 0 then ' ' else s[i - 1]
  }

  lemma Join3(a: string, b: string, c: string)
    ensures a + (b + c) == a + b + c
  {
  }

  lemma Join4(a: string, b: string, c: string, d: string)
    ensures a + (b + (c + d)) == a + b + c + d
  {
  }

  lemma CopyFirst(prev: char, c: char, rest: string)
    requires !StartsKey(prev, [c] + rest)
    ensures Rewrite(prev, [c] + rest) == [c] + Rewrite(c, rest)
  {
    assert ([c] + rest)[1..] == rest;
  }

  lemma {:induction false} CopyUntil(s: string, i: nat, j: nat)
    requires i <= j <= |s| && forall k | i <= k < j :: !StartsKey(Before(s, k), s[k..])
    ensures Rewrite(Before(s, i), s[i..]) == s[i..j] + Rewrite(Before(s, j), s[j..])
    decreases j - i
  {
    if i < j {
      CopyUntil(s, i + 1, j);
      assert s[i..] == [s[i]] + s[i + 1..] && s[i..j] == [s[i]] + s[i + 1..j];
      CopyFirst(Before(s, i), s[i], s[i + 1..]);
      Join3([s[i]], s[i + 1..j], Rewrite(Before(s, j), s[j..]));
    } else {
      assert s[i..j] == "" && "" + Rewrite(Before(s, j), s[j..]) == Rewrite(Before(s, j), s[j..]);
    }
  }

  /** `code` stands for the text before `end`. */
  ghost predicate IsCodeUpTo(json: string, code: string, end: nat) {
    end <= |json| && Rewrite(' ', json) == code + Rewrite(Before(json, end), json[end..])
  }

  ghost predicate NoKeyBetween(json: string, from: nat, start: nat)
    requires start <= |json|
  {
    forall k | from <= k < start :: !StartsKey(Before(json, k), json[k..])
  }

  /** The next occurrence of the pattern after a delimiter, or the end of the text. */
  method NextKey(json: string, from: nat) returns (start: nat)
    requires from <= |json|
    ensures from <= start <= |json|
    ensures NoKeyBetween(json, from, start)
    ensures start < |json| ==> StartsKey(Before(json, start), json[start..])
  {
    start := from;
    while start < |json| && !(start > 0 && (json[start - 1] == '{' || json[start - 1] == ',')
        && PROTO_KEY <= json[start..])
      invariant from <= start <= |json|
      invariant forall k | from <= k < start :: !StartsKey(Before(json, k), json[k..])
    {
      start := start + 1;
    }
  }

  lemma CopySegment(json: string, code: string, end: nat, start: nat)
    requires IsCodeUpTo(json, code, end) && end <= start <= |json| && NoKeyBetween(json, end, start)
    ensures IsCodeUpTo(json, code + json[end..start], start)
  {
    CopyUntil(json, end, start);
  }

  lemma ReplaceKey(json: string, code: string, start: nat)
    requires IsCodeUpTo(json, code, start) && start < |json| && StartsKey(Before(json, start), json[start..])
    ensures IsCodeUpTo(json, code + COMPUTED_KEY, start + |PROTO_KEY|)
  {
    var rest, end := json[start..], start + |PROTO_KEY|;
    assert rest[|PROTO_KEY|..] == json[end..];
    assert rest[|PROTO_KEY| - 1] == PROTO_KEY[|PROTO_KEY| - 1];
    assert Before(json, end) == ':';
  }

  lemma CodeStarts(json: string)
    ensures IsCodeUpTo(json, "", 0)
  {
    assert json[0..] == json && "" + Rewrite(' ', json) == Rewrite(' ', json);
  }

  lemma WholeText(json: string, code: string)
    requires IsCodeUpTo(json, code, |json|)
    ensures code == Rewrite(' ', json)
  {
    assert json[|json|..] == [];
    assert code + [] == code;
  }

  lemma CodeEnds(json: string, code: string, end: nat)
    requires IsCodeUpTo(json, code, end) && NoKeyBetween(json, end, |json|)
    ensures code + json[end..] == Rewrite(' ', json)
  {
    CopySegment(json, code, end, |json|);
    assert json[end..|json|] == json[end..];
    WholeText(json, code + json[end..]);
  }

  method JsonToJsExpression(json: string) returns (code: string)
    ensures code == Rewrite(' ', json)
  {
    var start := NextKey(json, 0);
    CodeStarts(json);
    if start == |json| {
      CodeEnds(json, "", 0);
      assert "" + json[0..] == json;
      return json;
    }
    code := "";
    var end := 0;
    while start < |json|
      invariant end <= start <= |json| && NoKeyBetween(json, end, start)
      invariant start < |json| ==> StartsKey(Before(json, start), json[start..])
      invariant IsCodeUpTo(json, code, end)
      decreases |json| - end
    {
      CopySegment(json, code, end, start);
      code := code + json[end..start];
      ReplaceKey(json, code, start);
      code := code + COMPUTED_KEY;
      end := start + |PROTO_KEY|;
      start := NextKey(json, end);
    }
    CodeEnds(json, code, end);
    code := code + json[end..];
  }

  // ---- Printing and rewriting commute -----------------------------------------------------

  /** The character at `i` is no quote, or a backslash stands before it. */
  predicate IsHidden(prev: char, a: string, i: nat)
    requires i < |a|
  {
    a[i] == '\"' ==> (if i == 0 then prev else a[i - 1]) == '\\'
  }

  ghost predicate QuotesAreEscaped(prev: char, a: string) {
    forall i {:trigger IsHidden(prev, a, i)} | 0 <= i < |a| :: IsHidden(prev, a, i)
  }

  lemma HiddenJoin(prev: char, a: string, b: string)
    requires QuotesAreEscaped(prev, a) && QuotesAreEscaped(LastOr(prev, a), b)
    ensures QuotesAreEscaped(prev, a + b)
  {
    forall i | 0 <= i < |a + b| ensures IsHidden(prev, a + b, i) {
      if i < |a| {
        assert IsHidden(prev, a, i);
      } else {
        assert IsHidden(LastOr(prev, a), b, i - |a|);
      }
    }
  }

  lemma HiddenTail(prev: char, a: string)
    requires a != [] && QuotesAreEscaped(prev, a)
    ensures (a[0] == '\"' ==> prev == '\\') && QuotesAreEscaped(a[0], a[1..])
  {
    assert IsHidden(prev, a, 0);
    forall i | 0 <= i < |a[1..]| ensures IsHidden(a[0], a[1..], i) {
      assert IsHidden(prev, a, i + 1);
    }
  }

  lemma EscapeCharHidesQuote(prev: char, c: char)
    ensures QuotesAreEscaped(prev, EscapeChar(c)) && EscapeChar(c)[0] != '\"'
  {
  }

  lemma {:induction false} EscapeHidesQuotes(prev: char, s: string)
    ensures QuotesAreEscaped(prev, Escape(s))
    decreases |s|
  {
    if s != [] {
      EscapeCharHidesQuote(prev, s[0]);
      EscapeHidesQuotes(LastOr(prev, EscapeChar(s[0])), s[1..]);
      HiddenJoin(prev, EscapeChar(s[0]), Escape(s[1..]));
    }
  }

  lemma KeyStartsWithQuote(prev: char, s: string)
    ensures StartsKey(prev, s) ==> s != [] && s[0] == '\"' && prev != '\\'
  {
    assert StartsKey(prev, s) ==> s[0] == PROTO_KEY[0];
  }

  function LastOr(prev: char, a: string): char {
    if a == [] then prev else a[|a| - 1]
  }

  /** Text whose quotes are all escaped is copied, whatever stands before it. */
  lemma {:induction false} CopyEscaped(prev: char, a: string, rest: string)
    requires QuotesAreEscaped(prev, a)
    ensures Rewrite(prev, a + rest) == a + Rewrite(LastOr(prev, a), rest)
    decreases |a|
  {
    if a == [] {
      assert a + rest == rest && a + Rewrite(prev, rest) == Rewrite(prev, rest);
    } else {
      assert a == [a[0]] + a[1..] && LastOr(a[0], a[1..]) == LastOr(prev, a);
      Join3([a[0]], a[1..], rest);
      HiddenTail(prev, a);
      KeyStartsWithQuote(prev, [a[0]] + (a[1..] + rest));
      assert ([a[0]] + (a[1..] + rest))[0] == a[0];
      CopyFirst(prev, a[0], a[1..] + rest);
      CopyEscaped(a[0], a[1..], rest);
      Join3([a[0]], a[1..], Rewrite(LastOr(prev, a), rest));
    }
  }

  /** What may follow a value or a key. */
  predicate Follows(rest: string) {
    rest == [] || rest[0] == ',' || rest[0] == ']' || rest[0] == '}' || rest[0] == ':'
  }

  lemma PrevIsIrrelevant(p: char, q: char, rest: string)
    requires Follows(rest)
    ensures Rewrite(p, rest) == Rewrite(q, rest)
  {
    KeyStartsWithQuote(p, rest);
    KeyStartsWithQuote(q, rest);
  }

  lemma {:induction false} PlainEscapeIsIdentity(s: string)
    requires '\\' !in Escape(s)
    ensures Escape(s) == s
  {
    if s != [] {
      var e := EscapeChar(s[0]);
      assert e[0] in Escape(s);
      assert e == [s[0]];
      assert forall c | c in Escape(s[1..]) :: c in Escape(s);
      PlainEscapeIsIdentity(s[1..]);
      assert s == [s[0]] + s[1..];
    }
  }

  lemma EscapedAt(prev: char, e: string, i: nat)
    requires QuotesAreEscaped(prev, e) && 0 < i < |e|
    ensures e[i] == '\"' ==> e[i - 1] == '\\'
  {
    assert IsHidden(prev, e, i);
  }

  /** The pattern begins at an opening quote only if the string is `__proto__` and a colon follows. */
  lemma OnlyProtoStartsKey(prev: char, s: string, rest: string)
    requires Follows(rest) && StartsKey(prev, Quoted(s) + rest)
    ensures s == PROTO && rest != [] && rest[0] == ':'
  {
    var e := Escape(s);
    var all := Quoted(s) + rest;
    EscapeHidesQuotes(' ', s);
    assert all[..12] == PROTO_KEY;
    assert forall i | 0 <= i < |e| :: all[i + 1] == e[i];
    assert all[|e| + 1] == '\"';
    assert forall i | 0 <= i < 12 :: all[i] == PROTO_KEY[i];
    assert PROTO_KEY[10] == '\"' && PROTO_KEY[9] == '_' && PROTO_KEY[11] == ':';
    if |e| > 9 {
      EscapedAt(' ', e, 9);
      assert false;
    }
    assert |e| == 9;
    assert forall i | 0 <= i < 9 :: e[i] == PROTO[i] && e[i] != '\\';
    assert e == PROTO;
    PlainEscapeIsIdentity(s);
    assert all[11] == rest[0];
  }

  lemma CopyClosingQuote(prev: char, rest: string)
    requires Follows(rest)
    ensures Rewrite(prev, ['\"'] + rest) == ['\"'] + Rewrite('\"', rest)
  {
    SecondCharOfKey(prev, ['\"'] + rest);
    CopyFirst(prev, '\"', rest);
  }

  lemma SecondCharOfKey(prev: char, s: string)
    ensures StartsKey(prev, s) ==> |s| > 1 && s[1] == '_'
  {
    assert StartsKey(prev, s) ==> s[1] == PROTO_KEY[1];
  }

  /** A quoted string is copied, unless it is a `__proto__` key after a delimiter. */
  lemma CopyQuoted(prev: char, s: string, rest: string)
    requires Follows(rest) && !StartsKey(prev, Quoted(s) + rest)
    ensures Rewrite(prev, Quoted(s) + rest) == Quoted(s) + Rewrite('\"', rest)
  {
    var e, done := Escape(s), Rewrite('\"', rest);
    Join4("\"", e, "\"", rest);
    Join4("\"", e, "\"", done);
    CopyFirst(prev, '\"', e + ("\"" + rest));
    CopyBody(s, rest);
  }

  lemma CopyBody(s: string, rest: string)
    requires Follows(rest)
    ensures Rewrite('\"', Escape(s) + ("\"" + rest)) == Escape(s) + ("\"" + Rewrite('\"', rest))
  {
    var e := Escape(s);
    EscapeHidesQuotes('\"', s);
    CopyEscaped('\"', e, "\"" + rest);
    CopyClosingQuote(LastOr('\"', e), rest);
  }

  /** The rest of a text, after something that is no delimiter. */
  function RewriteRest(rest: string): string {
    Rewrite(' ', rest)
  }

  predicate EndsValue(rest: string) {
    Follows(rest) && (rest != [] ==> rest[0] != ':')
  }

  predicate IsPlain(c: char) {
    c == '_' || 'a' <= c <= 'z'
  }

  lemma {:induction false} PlainEscape(s: string)
    requires forall i | 0 <= i < |s| :: IsPlain(s[i])
    ensures Escape(s) == s
  {
    if s != [] {
      assert IsPlain(s[0]);
      PlainEscape(s[1..]);
      assert s == [s[0]] + s[1..];
    }
  }

  lemma ProtoIsPlain()
    ensures Quoted(PROTO) + ":" == PROTO_KEY
  {
    PlainEscape(PROTO);
    QuoteProto(Escape(PROTO));
  }

  lemma QuoteProto(e: string)
    requires e == PROTO
    ensures "\"" + e + "\"" + ":" == PROTO_KEY
  {
  }

  lemma ReplaceAtStart(prev: char, rest: string)
    requires prev == '{' || prev == ','
    ensures Rewrite(prev, PROTO_KEY + rest) == COMPUTED_KEY + Rewrite(':', rest)
  {
    assert (PROTO_KEY + rest)[|PROTO_KEY|..] == rest;
  }

  lemma RewriteKey(prev: char, key: string, rest: string)
    requires prev == '{' || prev == ','
    ensures Rewrite(prev, PrintKey(key, false) + rest) == PrintKey(key, true) + Rewrite(':', rest)
  {
    if key == PROTO {
      ProtoIsPlain();
      ReplaceAtStart(prev, rest);
    } else {
      RewriteOtherKey(prev, key, rest);
    }
  }

  lemma RewriteOtherKey(prev: char, key: string, rest: string)
    requires key != PROTO
    ensures Rewrite(prev, Quoted(key) + ":" + rest) == Quoted(key) + ":" + Rewrite(':', rest)
  {
    Join3(Quoted(key), ":", rest);
    if StartsKey(prev, Quoted(key) + (":" + rest)) {
      OnlyProtoStartsKey(prev, key, ":" + rest);
      assert false;
    }
    CopyQuoted(prev, key, ":" + rest);
    CopyChar('\"', ':', rest);
    Join3(Quoted(key), ":", Rewrite(':', rest));
  }

  lemma CopyChar(prev: char, c: char, rest: string)
    requires c != '\"'
    ensures Rewrite(prev, [c] + rest) == [c] + Rewrite(c, rest)
  {
    KeyStartsWithQuote(prev, [c] + rest);
    CopyFirst(prev, c, rest);
  }

  /** Rewriting a printed value prints it with computed keys, and leaves the text after it to itself. */
  lemma {:induction false} RewriteValue(prev: char, v: Json, rest: string)
    requires IsJson(v) && EndsValue(rest)
    ensures Rewrite(prev, Print(v, false) + rest) == Print(v, true) + RewriteRest(rest)
    decreases v, 0
  {
    match v
    case Literal(text) =>
      HideNone(prev, text);
      CopyEscaped(prev, text, rest);
      PrevIsIrrelevant(text[|text| - 1], ' ', rest);
    case Str(chars) =>
      RewriteString(prev, chars, rest);
    case Arr(items) =>
      var printed := PrintItems(items, false);
      RewriteItems('[', items, "]" + rest);
      RewriteBracketed(prev, '[', printed, ']', PrintItems(items, true), rest);
    case Obj(members) =>
      var printed := PrintMembers(members, false);
      RewriteMembers('{', members, "}" + rest);
      RewriteBracketed(prev, '{', printed, '}', PrintMembers(members, true), rest);
  }

  lemma HideNone(prev: char, text: string)
    requires '\"' !in text
    ensures QuotesAreEscaped(prev, text)
  {
  }

  lemma RewriteString(prev: char, chars: string, rest: string)
    requires EndsValue(rest)
    ensures Rewrite(prev, Quoted(chars) + rest) == Quoted(chars) + RewriteRest(rest)
  {
    if StartsKey(prev, Quoted(chars) + rest) {
      OnlyProtoStartsKey(prev, chars, rest);
      assert false;
    }
    CopyQuoted(prev, chars, rest);
    PrevIsIrrelevant('\"', ' ', rest);
  }

  lemma RewriteBracketed(prev: char, open: char, inner: string, close: char, done: string, rest: string)
    requires open != '\"' && (close == ']' || close == '}') && EndsValue(rest)
    requires Rewrite(open, inner + ([close] + rest)) == done + RewriteRest([close] + rest)
    ensures Rewrite(prev, [open] + inner + [close] + rest) == [open] + done + [close] + RewriteRest(rest)
  {
    Join4([open], inner, [close], rest);
    Join4([open], done, [close], RewriteRest(rest));
    CopyChar(prev, open, inner + ([close] + rest));
    CopyChar(' ', close, rest);
    PrevIsIrrelevant(close, ' ', rest);
  }

  lemma {:induction false} RewriteItems(prev: char, items: Items, rest: string)
    requires AreItems(items) && rest != [] && rest[0] == ']'
    ensures Rewrite(prev, PrintItems(items, false) + rest) == PrintItems(items, true) + RewriteRest(rest)
    decreases items, 1
  {
    match items
    case NoItems =>
      assert "" + rest == rest;
      PrevIsIrrelevant(prev, ' ', rest);
    case Item(value, others) =>
      if others.NoItems? {
        assert Print(value, false) + "" == Print(value, false) && Print(value, true) + "" == Print(value, true);
        RewriteValue(prev, value, rest);
      } else {
        var tail := PrintItems(others, false) + rest;
        Join4(Print(value, false), ",", PrintItems(others, false), rest);
        RewriteValue(prev, value, "," + tail);
        RewriteItems(',', others, rest);
        CopyChar(' ', ',', tail);
        Join4(Print(value, true), ",", PrintItems(others, true), RewriteRest(rest));
        RegroupItems(value, others, rest);
      }
  }

  lemma RegroupItems(value: Json, others: Items, rest: string)
    requires others.Item?
    ensures PrintItems(Item(value, others), false) + rest ==
        Print(value, false) + ("," + (PrintItems(others, false) + rest))
    ensures PrintItems(Item(value, others), true) + RewriteRest(rest) ==
        Print(value, true) + ("," + (PrintItems(others, true) + RewriteRest(rest)))
  {
    Join4(Print(value, false), ",", PrintItems(others, false), rest);
    Join3(Print(value, false), ",", PrintItems(others, false));
    Join4(Print(value, true), ",", PrintItems(others, true), RewriteRest(rest));
    Join3(Print(value, true), ",", PrintItems(others, true));
  }

  function MoreMembers(members: Members, computed: bool): string {
    if members.NoMembers? then "" else "," + PrintMembers(members, computed)
  }

  lemma {:induction false} RewriteMembers(prev: char, members: Members, rest: string)
    requires AreMembers(members) && rest != [] && rest[0] == '}' && (prev == '{' || prev == ',')
    ensures Rewrite(prev, PrintMembers(members, false) + rest) == PrintMembers(members, true) + RewriteRest(rest)
    decreases members, 1
  {
    match members
    case NoMembers =>
      assert "" + rest == rest;
      PrevIsIrrelevant(prev, ' ', rest);
    case Member(key, value, others) =>
      var after := MoreMembers(others, false) + rest;
      RewriteMoreMembers(others, rest);
      RewriteValue(':', value, after);
      RewriteKey(prev, key, Print(value, false) + after);
      Join4(PrintKey(key, false), Print(value, false), MoreMembers(others, false), rest);
      Join4(PrintKey(key, true), Print(value, true), MoreMembers(others, true), RewriteRest(rest));
  }

  lemma {:induction false} RewriteMoreMembers(members: Members, rest: string)
    requires AreMembers(members) && rest != [] && rest[0] == '}'
    ensures EndsValue(MoreMembers(members, false) + rest)
    ensures RewriteRest(MoreMembers(members, false) + rest) == MoreMembers(members, true) + RewriteRest(rest)
    decreases members, 2
  {
    if members.NoMembers? {
      assert "" + rest == rest && "" + RewriteRest(rest) == RewriteRest(rest);
    } else {
      Join3(",", PrintMembers(members, false), rest);
      CopyChar(' ', ',', PrintMembers(members, false) + rest);
      RewriteMembers(',', members, rest);
      Join3(",", PrintMembers(members, true), RewriteRest(rest));
    }
  }

  /** For every JSON value, rewriting its compact text is printing it with each `__proto__` key of an
      object computed, at every depth: nothing inside a string and no longer key changes. */
  lemma RewriteComputesProtoKeys(v: Json)
    requires IsJson(v)
    ensures Rewrite(' ', Print(v, false)) == Print(v, true)
  {
    RewriteValue(' ', v, []);
    assert Print(v, false) + [] == Print(v, false) && Print(v, true) + [] == Print(v, true);
  }

  // ---- A name beside the global `JSON` ----------------------------------------------------

  function Candidate(n: nat): string {
    "JSON$" + Decimal(n)
  }

  lemma {:induction false} DecimalIsInjective(a: nat, b: nat)
    requires Decimal(a) == Decimal(b)
    ensures a == b
  {
    if a >= 10 && b >= 10 {
      assert Decimal(a)[..|Decimal(a)| - 1] == Decimal(a / 10) && Decimal(b)[..|Decimal(b)| - 1] == Decimal(b / 10);
      DecimalIsInjective(a / 10, b / 10);
    }
    assert Decimal(a)[|Decimal(a)| - 1] == Decimal(b)[|Decimal(b)| - 1];
  }

  lemma CandidatesDiffer(a: nat, b: nat)
    requires a != b
    ensures Candidate(a) != Candidate(b)
  {
    if Candidate(a) == Candidate(b) {
      assert Candidate(a)[5..] == Decimal(a) && Candidate(b)[5..] == Decimal(b);
      DecimalIsInjective(a, b);
    }
  }

  lemma {:induction false} FirstNamesFit(keys: set<string>, k: nat)
    requires forall n {:trigger Candidate(n)} | 1 <= n <= k :: Candidate(n) in keys
    ensures k <= |keys|
    decreases k
  {
    if k > 0 {
      var rest := keys - {Candidate(k)};
      forall n {:trigger Candidate(n)} | 1 <= n <= k - 1 ensures Candidate(n) in rest {
        CandidatesDiffer(n, k);
      }
      FirstNamesFit(rest, k - 1);
      assert Candidate(k) in keys;
    }
  }

  /** The first numbered name that is no key of the object; there are too few keys to take them all. */
  method FreshName(keys: set<string>) returns (name: string, suffix: nat)
    ensures name == Candidate(suffix) && name !in keys
    ensures 1 <= suffix <= |keys| + 1 && forall n | 1 <= n < suffix :: Candidate(n) in keys
  {
    suffix := 1;
    name := Candidate(suffix);
    while name in keys
      invariant 1 <= suffix <= |keys| + 1 && name == Candidate(suffix)
      invariant forall n {:trigger Candidate(n)} | 1 <= n < suffix :: Candidate(n) in keys
      decreases |keys| + 1 - suffix
    {
      FirstNamesFit(keys, suffix);
      suffix := suffix + 1;
      name := Candidate(suffix);
    }
  }
}
