/** The glob of a dynamic import: a pattern for every text its argument can evaluate to. */
module DynamicGlobs {
  import opened Wrappers

  /** The argument of a dynamic import. `Call` is a method call on a receiver, `Operator` any binary
      operator other than `+`, `Opaque` whatever is not looked into. */
  datatype Expr =
    | Str(value: string)
    | Template(parts: Parts)
    | Call(isConcat: bool, receiver: Expr, args: Args)
    | Add(left: Expr, right: Expr)
    | Operator(left: Expr, right: Expr)
    | Opaque

  datatype Parts = End(quasi: string) | Part(quasi: string, expr: Expr, rest: Parts)

  datatype Args = NoArgs | Arg(spread: bool, expr: Expr, rest: Args)

  // ---- Building the glob ------------------------------------------------------------------

  function Joined(a: Option<string>, b: Option<string>): Option<string> {
    if a.Some? && b.Some? then Some(a.value + b.value) else None
  }

  /** A literal text must not contain the wildcard. */
  function Sanitized(s: string): Option<string> {
    if '*' in s then None else Some(s)
  }

  /** `None` where the source reports an error. */
  function GlobOf(e: Expr): Option<string> {
    match e
    case Str(value) => Sanitized(value)
    case Template(parts) => GlobOfParts(parts)
    case Call(isConcat, receiver, args) => if isConcat then Joined(GlobOf(receiver), GlobOfArgs(args)) else Some("*")
    case Add(left, right) => Joined(GlobOf(left), GlobOf(right))
    case Operator(_, _) => None
    case Opaque => Some("*")
  }

  function GlobOfParts(parts: Parts): Option<string> {
    match parts
    case End(quasi) => Sanitized(quasi)
    case Part(quasi, expr, rest) => Joined(Sanitized(quasi), Joined(GlobOf(expr), GlobOfParts(rest)))
  }

  function GlobOfArgs(args: Args): Option<string> {
    match args
    case NoArgs => Some("")
    case Arg(spread, expr, rest) => Joined(if spread then Some("*") else GlobOf(expr), GlobOfArgs(rest))
  }

  /** Somewhere a literal has an asterisk, or an operator is not `+`. Only what a `concat` is called on and its
      plain arguments are looked into. */
  predicate HasUnsupported(e: Expr) {
    match e
    case Str(value) => '*' in value
    case Template(parts) => PartsHaveUnsupported(parts)
    case Call(isConcat, receiver, args) => isConcat && (HasUnsupported(receiver) || ArgsHaveUnsupported(args))
    case Add(left, right) => HasUnsupported(left) || HasUnsupported(right)
    case Operator(_, _) => true
    case Opaque => false
  }

  predicate PartsHaveUnsupported(parts: Parts) {
    '*' in parts.quasi || (parts.Part? && (HasUnsupported(parts.expr) || PartsHaveUnsupported(parts.rest)))
  }

  predicate ArgsHaveUnsupported(args: Args) {
    args.Arg? && ((!args.spread && HasUnsupported(args.expr)) || ArgsHaveUnsupported(args.rest))
  }

  /** An error is reported exactly for these arguments. */
  lemma {:induction false} GlobFailsIff(e: Expr)
    ensures GlobOf(e).None? <==> HasUnsupported(e)
    decreases e, 0
  {
    match e
    case Str(_) =>
    case Template(parts) => PartsFailIff(parts);
    case Call(_, receiver, args) =>
      GlobFailsIff(receiver);
      ArgsFailIff(args);
    case Add(left, right) =>
      GlobFailsIff(left);
      GlobFailsIff(right);
    case Operator(_, _) =>
    case Opaque =>
  }

  lemma {:induction false} PartsFailIff(parts: Parts)
    ensures GlobOfParts(parts).None? <==> PartsHaveUnsupported(parts)
    decreases parts, 1
  {
    if parts.Part? {
      GlobFailsIff(parts.expr);
      PartsFailIff(parts.rest);
    }
  }

  lemma {:induction false} ArgsFailIff(args: Args)
    ensures GlobOfArgs(args).None? <==> ArgsHaveUnsupported(args)
    decreases args, 1
  {
    if args.Arg? {
      GlobFailsIff(args.expr);
      ArgsFailIff(args.rest);
    }
  }

  // ---- What the argument can be -----------------------------------------------------------

  /** The texts that unknown parts may stand for. */
  type Unknown = string -> bool

  ghost predicate IsClosed(ok: Unknown) {
    ok("") && forall a: string, b: string | ok(a) && ok(b) :: ok(a + b)
  }

  ghost predicate CanBe(ok: Unknown, e: Expr, s: string) {
    match e
    case Str(value) => s == value
    case Template(parts) => PartsCanBe(ok, parts, s)
    case Call(isConcat, receiver, args) =>
      if isConcat then exists i :: 0 <= i <= |s| && CanBe(ok, receiver, s[..i]) && ArgsCanBe(ok, args, s[i..])
      else ok(s)
    case Add(left, right) => exists i :: 0 <= i <= |s| && CanBe(ok, left, s[..i]) && CanBe(ok, right, s[i..])
    case Operator(_, _) => ok(s)
    case Opaque => ok(s)
  }

  ghost predicate PartsCanBe(ok: Unknown, parts: Parts, s: string) {
    match parts
    case End(quasi) => s == quasi
    case Part(quasi, expr, rest) =>
      quasi <= s &&
      var t := s[|quasi|..];
      exists i :: 0 <= i <= |t| && CanBe(ok, expr, t[..i]) && PartsCanBe(ok, rest, t[i..])
  }

  ghost predicate ArgsCanBe(ok: Unknown, args: Args, s: string) {
    match args
    case NoArgs => s == ""
    case Arg(spread, expr, rest) =>
      exists i :: 0 <= i <= |s| && (if spread then ok(s[..i]) else CanBe(ok, expr, s[..i]))
          && ArgsCanBe(ok, rest, s[i..])
  }

  // ---- What the glob matches --------------------------------------------------------------

  /** Text with wildcards, each standing for an unknown text. */
  ghost predicate Matches(ok: Unknown, g: string, s: string)
    decreases |g|
  {
    if g == [] then s == []
    else if g[0] == '*' then exists i :: 0 <= i <= |s| && ok(s[..i]) && Matches(ok, g[1..], s[i..])
    else s != [] && s[0] == g[0] && Matches(ok, g[1..], s[1..])
  }

  /** A wildcard followed by `g`. */
  ghost predicate StarThen(ok: Unknown, g: string, s: string) {
    exists i :: 0 <= i <= |s| && ok(s[..i]) && Matches(ok, g, s[i..])
  }

  ghost predicate SplitMatches(ok: Unknown, a: string, b: string, s: string) {
    exists i :: 0 <= i <= |s| && Matches(ok, a, s[..i]) && Matches(ok, b, s[i..])
  }

  lemma {:induction false} MatchesJoined(ok: Unknown, a: string, b: string, s: string)
    ensures Matches(ok, a + b, s) <==> SplitMatches(ok, a, b, s)
    decreases |a|
  {
    if a == [] {
      assert a + b == b;
      assert s[..0] == [] && s[0..] == s;
    } else {
      assert (a + b)[0] == a[0] && (a + b)[1..] == a[1..] + b;
      if a[0] == '*' {
        StarJoined(ok, a, b, s);
      } else if s != [] {
        CharJoined(ok, a, b, s);
      }
    }
  }

  lemma {:induction false} CharJoined(ok: Unknown, a: string, b: string, s: string)
    requires a != [] && a[0] != '*' && s != []
    ensures s[0] == a[0] && Matches(ok, a[1..] + b, s[1..]) <==> SplitMatches(ok, a, b, s)
    decreases |a|, 0
  {
    MatchesJoined(ok, a[1..], b, s[1..]);
    if s[0] == a[0] && SplitMatches(ok, a[1..], b, s[1..]) {
      var i :| 0 <= i <= |s[1..]| && Matches(ok, a[1..], s[1..][..i]) && Matches(ok, b, s[1..][i..]);
      assert s[..i + 1][1..] == s[1..][..i] && s[i + 1..] == s[1..][i..];
      assert Matches(ok, a, s[..i + 1]);
    }
    if SplitMatches(ok, a, b, s) {
      var i :| 0 <= i <= |s| && Matches(ok, a, s[..i]) && Matches(ok, b, s[i..]);
      assert s[..i][1..] == s[1..][..i - 1] && s[i..] == s[1..][i - 1..];
    }
  }

  lemma {:induction false} StarJoined(ok: Unknown, a: string, b: string, s: string)
    requires a != [] && a[0] == '*'
    ensures StarThen(ok, a[1..] + b, s) <==> SplitMatches(ok, a, b, s)
    decreases |a|, 0
  {
    if StarThen(ok, a[1..] + b, s) {
      var i :| 0 <= i <= |s| && ok(s[..i]) && Matches(ok, a[1..] + b, s[i..]);
      MatchesJoined(ok, a[1..], b, s[i..]);
      StarBeforeSplit(ok, a, b, s, i);
    }
    if SplitMatches(ok, a, b, s) {
      var i := SplitAfterStar(ok, a, b, s);
      MatchesJoined(ok, a[1..], b, s[i..]);
    }
  }

  lemma StarBeforeSplit(ok: Unknown, a: string, b: string, s: string, i: nat)
    requires a != [] && a[0] == '*' && i <= |s| && ok(s[..i]) && SplitMatches(ok, a[1..], b, s[i..])
    ensures SplitMatches(ok, a, b, s)
  {
    var t := s[i..];
    var j :| 0 <= j <= |t| && Matches(ok, a[1..], t[..j]) && Matches(ok, b, t[j..]);
    var first := s[..i + j];
    assert first[..i] == s[..i] && first[i..] == t[..j] && s[i + j..] == t[j..];
    assert Matches(ok, a, first);
  }

  lemma MatchAfterStar(ok: Unknown, a: string, s: string) returns (i: nat)
    requires a != [] && a[0] == '*' && Matches(ok, a, s)
    ensures i <= |s| && ok(s[..i]) && Matches(ok, a[1..], s[i..])
  {
    i :| 0 <= i <= |s| && ok(s[..i]) && Matches(ok, a[1..], s[i..]);
  }

  lemma SplitAfterStar(ok: Unknown, a: string, b: string, s: string) returns (i: nat)
    requires a != [] && a[0] == '*' && SplitMatches(ok, a, b, s)
    ensures i <= |s| && ok(s[..i]) && SplitMatches(ok, a[1..], b, s[i..])
  {
    var k :| 0 <= k <= |s| && Matches(ok, a, s[..k]) && Matches(ok, b, s[k..]);
    var first := s[..k];
    i := MatchAfterStar(ok, a, first);
    assert first[..i] == s[..i] && first[i..] == s[i..][..k - i] && s[k..] == s[i..][k - i..];
  }

  lemma {:induction false} MatchesLiteral(ok: Unknown, a: string, s: string)
    requires '*' !in a
    ensures Matches(ok, a, s) <==> s == a
    decreases |a|
  {
    if a != [] {
      assert a[0] in a && forall c | c in a[1..] :: c in a;
      if s != [] {
        MatchesLiteral(ok, a[1..], s[1..]);
        assert s == [s[0]] + s[1..] && a == [a[0]] + a[1..];
      }
    }
  }

  lemma MatchesStar(ok: Unknown, s: string)
    ensures Matches(ok, "*", s) <==> ok(s)
  {
    assert "*"[1..] == "";
    assert s[..|s|] == s && s[|s|..] == "";
    if ok(s) {
      assert ok(s[..|s|]) && Matches(ok, "", s[|s|..]);
    }
    if Matches(ok, "*", s) {
      var i :| 0 <= i <= |s| && ok(s[..i]) && Matches(ok, "*"[1..], s[i..]);
      assert i == |s|;
    }
  }

  // ---- The glob stands for exactly those texts --------------------------------------------

  /** For every text: it matches the glob exactly if the expression can evaluate to it. */
  lemma {:induction false} GlobIsExact(ok: Unknown, e: Expr, s: string)
    requires GlobOf(e).Some?
    ensures Matches(ok, GlobOf(e).value, s) <==> CanBe(ok, e, s)
    decreases e, 0
  {
    match e
    case Str(value) => MatchesLiteral(ok, value, s);
    case Template(parts) => PartsAreExact(ok, parts, s);
    case Call(isConcat, receiver, args) =>
      if isConcat {
        MatchesJoined(ok, GlobOf(receiver).value, GlobOfArgs(args).value, s);
        forall i | 0 <= i <= |s| ensures Matches(ok, GlobOf(receiver).value, s[..i]) <==> CanBe(ok, receiver, s[..i]) {
          GlobIsExact(ok, receiver, s[..i]);
        }
        forall i | 0 <= i <= |s| ensures Matches(ok, GlobOfArgs(args).value, s[i..]) <==> ArgsCanBe(ok, args, s[i..]) {
          ArgsAreExact(ok, args, s[i..]);
        }
      } else {
        MatchesStar(ok, s);
      }
    case Add(left, right) =>
      MatchesJoined(ok, GlobOf(left).value, GlobOf(right).value, s);
      forall i | 0 <= i <= |s| ensures Matches(ok, GlobOf(left).value, s[..i]) <==> CanBe(ok, left, s[..i]) {
        GlobIsExact(ok, left, s[..i]);
      }
      forall i | 0 <= i <= |s| ensures Matches(ok, GlobOf(right).value, s[i..]) <==> CanBe(ok, right, s[i..]) {
        GlobIsExact(ok, right, s[i..]);
      }
    case Opaque => MatchesStar(ok, s);
  }

  lemma {:induction false} PartsAreExact(ok: Unknown, parts: Parts, s: string)
    requires GlobOfParts(parts).Some?
    ensures Matches(ok, GlobOfParts(parts).value, s) <==> PartsCanBe(ok, parts, s)
    decreases parts, 1
  {
    match parts
    case End(quasi) => MatchesLiteral(ok, quasi, s);
    case Part(quasi, expr, rest) =>
      var inner, after := GlobOf(expr).value, GlobOfParts(rest).value;
      LiteralPrefix(ok, quasi, inner + after, s);
      if quasi <= s {
        var t := s[|quasi|..];
        MatchesJoined(ok, inner, after, t);
        forall i | 0 <= i <= |t|
          ensures Matches(ok, inner, t[..i]) <==> CanBe(ok, expr, t[..i])
          ensures Matches(ok, after, t[i..]) <==> PartsCanBe(ok, rest, t[i..])
        {
          GlobIsExact(ok, expr, t[..i]);
          PartsAreExact(ok, rest, t[i..]);
        }
      }
  }

  lemma LiteralPrefix(ok: Unknown, quasi: string, rest: string, s: string)
    requires '*' !in quasi
    ensures Matches(ok, quasi + rest, s) <==> quasi <= s && Matches(ok, rest, s[|quasi|..])
  {
    MatchesJoined(ok, quasi, rest, s);
    forall i | 0 <= i <= |s| ensures Matches(ok, quasi, s[..i]) <==> s[..i] == quasi {
      MatchesLiteral(ok, quasi, s[..i]);
    }
    if quasi <= s {
      assert s[..|quasi|] == quasi;
    }
  }

  lemma {:induction false} ArgsAreExact(ok: Unknown, args: Args, s: string)
    requires GlobOfArgs(args).Some?
    ensures Matches(ok, GlobOfArgs(args).value, s) <==> ArgsCanBe(ok, args, s)
    decreases args, 1
  {
    match args
    case NoArgs =>
    case Arg(spread, expr, rest) =>
      var first := if spread then "*" else GlobOf(expr).value;
      MatchesJoined(ok, first, GlobOfArgs(rest).value, s);
      forall i | 0 <= i <= |s|
        ensures Matches(ok, first, s[..i]) <==> (if spread then ok(s[..i]) else CanBe(ok, expr, s[..i]))
        ensures Matches(ok, GlobOfArgs(rest).value, s[i..]) <==> ArgsCanBe(ok, rest, s[i..])
      {
        if spread {
          MatchesStar(ok, s[..i]);
        } else {
          GlobIsExact(ok, expr, s[..i]);
        }
        ArgsAreExact(ok, rest, s[i..]);
      }
  }

  // ---- Collapsing and escaping ------------------------------------------------------------

  /** `replace("**", "*")`: pairs of wildcards from left to right. */
  function Collapsed(g: string): string
    decreases |g|
  {
    if g == [] then []
    else if |g| > 1 && g[0] == '*' && g[1] == '*' then "*" + Collapsed(g[2..])
    else [g[0]] + Collapsed(g[1..])
  }

  lemma {:induction false} CollapsedMatches(ok: Unknown, g: string, s: string)
    requires IsClosed(ok)
    ensures Matches(ok, Collapsed(g), s) <==> Matches(ok, g, s)
    decreases |g|
  {
    if g == [] {
    } else if |g| > 1 && g[0] == '*' && g[1] == '*' {
      var c := Collapsed(g);
      assert c[0] == '*' && c[1..] == Collapsed(g[2..]) && g[1..][1..] == g[2..];
      forall i | 0 <= i <= |s| ensures Matches(ok, c[1..], s[i..]) <==> Matches(ok, g[2..], s[i..]) {
        CollapsedMatches(ok, g[2..], s[i..]);
      }
      TwoStarsAreOne(ok, g, s);
    } else {
      var c := Collapsed(g);
      assert c[0] == g[0] && c[1..] == Collapsed(g[1..]);
      forall i | 0 <= i <= |s| ensures Matches(ok, c[1..], s[i..]) <==> Matches(ok, g[1..], s[i..]) {
        CollapsedMatches(ok, g[1..], s[i..]);
      }
      if s != [] {
        CollapsedMatches(ok, g[1..], s[1..]);
      }
    }
  }

  lemma TwoStarsMakeOne(ok: Unknown, g: string, s: string, i: nat)
    requires IsClosed(ok) && i <= |s| && ok(s[..i]) && StarThen(ok, g, s[i..])
    ensures StarThen(ok, g, s)
  {
    var t := s[i..];
    var j :| 0 <= j <= |t| && ok(t[..j]) && Matches(ok, g, t[j..]);
    assert s[..i + j] == s[..i] + t[..j] && s[i + j..] == t[j..];
    assert ok(s[..i + j]) && Matches(ok, g, s[i + j..]);
  }

  lemma OneStarMakesTwo(ok: Unknown, g: string, s: string)
    requires IsClosed(ok) && StarThen(ok, g, s)
    ensures s[..0] == "" && s[0..] == s && ok(s[..0]) && StarThen(ok, g, s[0..])
  {
    assert s[..0] == "" && s[0..] == s;
  }

  lemma TwoStarsAreOne(ok: Unknown, g: string, s: string)
    requires IsClosed(ok) && |g| > 1 && g[0] == '*' && g[1] == '*'
    ensures Matches(ok, g, s) <==> StarThen(ok, g[2..], s)
  {
    var rest := g[1..];
    assert rest[1..] == g[2..];
    assert forall t :: Matches(ok, rest, t) <==> StarThen(ok, g[2..], t);
    if Matches(ok, g, s) {
      var i :| 0 <= i <= |s| && ok(s[..i]) && Matches(ok, rest, s[i..]);
      TwoStarsMakeOne(ok, g[2..], s, i);
    }
    if StarThen(ok, g[2..], s) {
      OneStarMakesTwo(ok, g[2..], s);
      assert Matches(ok, rest, s[0..]);
    }
  }

  predicate IsSpecial(c: char) {
    c == '?' || c == '[' || c == ']' || c == '{' || c == '}'
  }

  function EscapedChar(c: char): string {
    if IsSpecial(c) then ['[', c, ']'] else [c]
  }

  /** The escaping of `to_valid_glob`: special characters become character classes of their own. */
  function Escaped(g: string): string {
    if g == [] then [] else EscapedChar(g[0]) + Escaped(g[1..])
  }

  /** What a glob engine matches: a class of one character, a wildcard, any one character, a backslash
      with the character it makes literal, or a plain character. A brace elsewhere is no plain one. */
  ghost predicate EngineMatches(ok: Unknown, g: string, s: string)
    decreases |g|
  {
    if g == [] then s == []
    else if g[0] == '[' then
      |g| > 2 && g[2] == ']' && s != [] && s[0] == g[1] && EngineMatches(ok, g[3..], s[1..])
    else if g[0] == '*' then exists i :: 0 <= i <= |s| && ok(s[..i]) && EngineMatches(ok, g[1..], s[i..])
    else if g[0] == '\\' then |g| > 1 && s != [] && s[0] == g[1] && EngineMatches(ok, g[2..], s[1..])
    else if g[0] == '?' then s != [] && EngineMatches(ok, g[1..], s[1..])
    else if g[0] == '{' || g[0] == '}' then false
    else s != [] && s[0] == g[0] && EngineMatches(ok, g[1..], s[1..])
  }

  /** Escaping keeps what the glob matches, as long as it has no backslash. */
  lemma {:induction false} EscapedMatches(ok: Unknown, g: string, s: string)
    requires '\\' !in g
    ensures EngineMatches(ok, Escaped(g), s) <==> Matches(ok, g, s)
    decreases |g|
  {
    if g != [] {
      var e, rest := Escaped(g), g[1..];
      assert g[0] in g && forall c | c in rest :: c in g;
      if g[0] == '*' {
        assert e[0] == '*' && e[1..] == Escaped(rest);
        forall i | 0 <= i <= |s| ensures EngineMatches(ok, e[1..], s[i..]) <==> Matches(ok, rest, s[i..]) {
          EscapedMatches(ok, rest, s[i..]);
        }
      } else if s != [] {
        EscapedMatches(ok, rest, s[1..]);
        if IsSpecial(g[0]) {
          assert e[..3] == ['[', g[0], ']'] && e[3..] == Escaped(rest);
          assert e[0] == e[..3][0] && e[1] == e[..3][1] && e[2] == e[..3][2];
        } else {
          assert e[0] == g[0] && e[1..] == Escaped(rest);
        }
      } else {
        assert e[0] == EscapedChar(g[0])[0];
      }
    }
  }

  /** The pattern handed to the engine: collapsed and escaped. */
  function Pattern(e: Expr): Option<string> {
    if GlobOf(e).None? then None else Some(Escaped(Collapsed(GlobOf(e).value)))
  }

  lemma {:induction false} CollapsedHasNoBackslash(g: string)
    requires '\\' !in g
    ensures '\\' !in Collapsed(g)
    decreases |g|
  {
    if g == [] {
    } else if |g| > 1 && g[0] == '*' && g[1] == '*' {
      assert forall c | c in g[2..] :: c in g;
      CollapsedHasNoBackslash(g[2..]);
    } else {
      assert g[0] in g && forall c | c in g[1..] :: c in g;
      CollapsedHasNoBackslash(g[1..]);
    }
  }

  /** An argument whose literal parts have no backslash: the pattern matches exactly the texts the
      argument can evaluate to, so no module it can name is left out. */
  lemma PatternIsExact(ok: Unknown, e: Expr, s: string)
    requires IsClosed(ok) && GlobOf(e).Some? && '\\' !in GlobOf(e).value
    ensures EngineMatches(ok, Pattern(e).value, s) <==> CanBe(ok, e, s)
  {
    var g := GlobOf(e).value;
    CollapsedHasNoBackslash(g);
    EscapedMatches(ok, Collapsed(g), s);
    CollapsedMatches(ok, g, s);
    GlobIsExact(ok, e, s);
  }

  // ---- Backslashes ------------------------------------------------------------------------

  function Backslash(c: char): nat {
    if c == '\\' then 1 else 0
  }

  function Backslashes(s: string): nat {
    if s == [] then 0 else Backslash(s[0]) + Backslashes(s[1..])
  }

  lemma FirstTwo(s: string)
    requires |s| > 1
    ensures Backslashes(s) == Backslash(s[0]) + Backslash(s[1]) + Backslashes(s[2..])
  {
    assert s[1..][1..] == s[2..];
  }

  lemma FirstThree(s: string)
    requires |s| > 2
    ensures Backslashes(s) == Backslash(s[0]) + Backslash(s[1]) + Backslash(s[2]) + Backslashes(s[3..])
  {
    FirstTwo(s[1..]);
    assert s[1..][2..] == s[3..];
  }

  lemma {:induction false} BackslashesAdd(a: string, b: string)
    ensures Backslashes(a + b) == Backslashes(a) + Backslashes(b)
    decreases |a|
  {
    if a == [] {
      assert a + b == b;
    } else {
      assert (a + b)[1..] == a[1..] + b;
      BackslashesAdd(a[1..], b);
    }
  }

  /** Every text that a raw glob matches has all of the glob's backslashes. */
  lemma {:induction false} MatchHasBackslashes(ok: Unknown, g: string, s: string)
    requires Matches(ok, g, s)
    ensures Backslashes(s) >= Backslashes(g)
    decreases |g|
  {
    if g != [] {
      if g[0] == '*' {
        var i :| 0 <= i <= |s| && ok(s[..i]) && Matches(ok, g[1..], s[i..]);
        MatchHasBackslashes(ok, g[1..], s[i..]);
        BackslashesAdd(s[..i], s[i..]);
        assert s == s[..i] + s[i..];
      } else {
        MatchHasBackslashes(ok, g[1..], s[1..]);
      }
    }
  }

  /** The glob's own text, every wildcard standing for nothing. */
  function Plain(g: string): string {
    if g == [] then [] else (if g[0] == '*' then [] else [g[0]]) + Plain(g[1..])
  }

  lemma {:induction false} PlainMatches(ok: Unknown, g: string)
    requires ok("")
    ensures Matches(ok, g, Plain(g))
  {
    if g != [] {
      PlainMatches(ok, g[1..]);
      if g[0] == '*' {
        assert Plain(g) == Plain(g[1..]);
        assert Plain(g)[..0] == "" && Plain(g)[0..] == Plain(g);
      } else {
        assert Plain(g)[0] == g[0] && Plain(g)[1..] == Plain(g[1..]);
      }
    }
  }

  lemma {:induction false} EscapedKeepsBackslashes(g: string)
    ensures Backslashes(Escaped(g)) == Backslashes(g)
  {
    if g != [] {
      EscapedKeepsBackslashes(g[1..]);
      if IsSpecial(g[0]) {
        FirstThree(Escaped(g));
        assert Escaped(g)[3..] == Escaped(g[1..]);
      } else {
        assert Escaped(g)[1..] == Escaped(g[1..]);
      }
    }
  }

  lemma {:induction false} CollapsedKeepsBackslashes(g: string)
    ensures Backslashes(Collapsed(g)) == Backslashes(g)
    decreases |g|
  {
    if g == [] {
    } else if |g| > 1 && g[0] == '*' && g[1] == '*' {
      CollapsedKeepsBackslashes(g[2..]);
      assert Collapsed(g)[1..] == Collapsed(g[2..]) && g[1..][1..] == g[2..];
    } else {
      CollapsedKeepsBackslashes(g[1..]);
      assert Collapsed(g)[1..] == Collapsed(g[1..]);
    }
  }

  lemma {:induction false} HasBackslash(g: string)
    ensures '\\' in g <==> Backslashes(g) > 0
  {
    if g != [] {
      HasBackslash(g[1..]);
      assert g == [g[0]] + g[1..];
    }
  }

  /** The engine reads some backslash as an escape. */
  predicate Escapes(p: string)
    decreases |p|
  {
    p != [] && if p[0] == '[' then |p| > 2 && Escapes(p[3..]) else p[0] == '\\' || Escapes(p[1..])
  }

  lemma {:induction false} EscapedEscapes(g: string)
    requires Backslashes(g) > 0
    ensures Escapes(Escaped(g))
  {
    var e, rest := Escaped(g), g[1..];
    if g[0] != '\\' {
      EscapedEscapes(rest);
      if IsSpecial(g[0]) {
        assert e[0] == '[' && e[3..] == Escaped(rest);
      } else {
        assert e[0] == g[0] && e[1..] == Escaped(rest);
      }
    } else {
      assert e[0] == '\\';
    }
  }

  /** A pattern that matches anything at all matches a text with at most its own backslashes, and
      with fewer if the engine reads one of them as an escape. */
  lemma {:induction false} ShortMatch(ok: Unknown, p: string, s: string) returns (m: string)
    requires ok("") && EngineMatches(ok, p, s)
    ensures EngineMatches(ok, p, m)
    ensures Backslashes(m) <= Backslashes(p) && (Escapes(p) ==> Backslashes(m) < Backslashes(p))
    decreases |p|
  {
    if p == [] {
      m := [];
    } else if p[0] == '*' {
      var i :| 0 <= i <= |s| && ok(s[..i]) && EngineMatches(ok, p[1..], s[i..]);
      m := ShortMatch(ok, p[1..], s[i..]);
      assert m[..0] == "" && m[0..] == m;
    } else if p[0] == '[' {
      FirstThree(p);
      m := ShortTail(ok, p, p[3..], p[1], s);
    } else if p[0] == '\\' {
      FirstTwo(p);
      m := ShortTail(ok, p, p[2..], p[1], s);
    } else {
      m := ShortTail(ok, p, p[1..], p[0], s);
    }
  }

  lemma {:induction false} ShortTail(ok: Unknown, p: string, rest: string, first: char, s: string) returns (m: string)
    requires ok("") && |rest| < |p| && s != [] && EngineMatches(ok, rest, s[1..])
    ensures |m| > 0 && m[0] == first && EngineMatches(ok, rest, m[1..])
    ensures Backslashes(m) <= Backslash(first) + Backslashes(rest)
    ensures Escapes(rest) ==> Backslashes(m) < Backslash(first) + Backslashes(rest)
    decreases |p|, 0
  {
    var tail := ShortMatch(ok, rest, s[1..]);
    m := [first] + tail;
    assert m[1..] == tail;
  }

  /** The pattern matches exactly the texts the argument can evaluate to if and only if no literal of
      the argument has a backslash. */
  lemma ExactIffNoBackslash(ok: Unknown, e: Expr)
    requires IsClosed(ok) && GlobOf(e).Some?
    ensures (forall s :: EngineMatches(ok, Pattern(e).value, s) <==> CanBe(ok, e, s)) <==> '\\' !in GlobOf(e).value
  {
    var g := GlobOf(e).value;
    if '\\' !in g {
      forall s ensures EngineMatches(ok, Pattern(e).value, s) <==> CanBe(ok, e, s) {
        PatternIsExact(ok, e, s);
      }
    } else {
      var s := NotExact(ok, e);
    }
  }

  /** A text on which a pattern with a backslash goes wrong. */
  lemma NotExact(ok: Unknown, e: Expr) returns (s: string)
    requires IsClosed(ok) && GlobOf(e).Some? && '\\' in GlobOf(e).value
    ensures EngineMatches(ok, Pattern(e).value, s) <==> !CanBe(ok, e, s)
  {
    var g := GlobOf(e).value;
    var p := Pattern(e).value;
    PlainMatches(ok, g);
    GlobIsExact(ok, e, Plain(g));
    s := Plain(g);
    if EngineMatches(ok, p, s) {
      HasBackslash(g);
      CollapsedKeepsBackslashes(g);
      EscapedKeepsBackslashes(Collapsed(g));
      EscapedEscapes(Collapsed(g));
      s := ShortMatch(ok, p, s);
      GlobIsExact(ok, e, s);
      if Matches(ok, g, s) {
        MatchHasBackslashes(ok, g, s);
      }
    }
  }

  // ---- When every possible text is matched ------------------------------------------------

  ghost predicate HasNoBackslash(ok: Unknown) {
    forall a: string | ok(a) :: Backslashes(a) == 0
  }

  /** How far a text is from being the glob's own: what escapes take away in backslashes they do not
      give back in length. */
  ghost predicate FallsShort(g: string, s: string) {
    |s| + 2 * Backslashes(g) >= |Plain(g)| + 2 * Backslashes(s) + if Backslashes(g) > 0 then 1 else 0
  }

  /** A plain or escaped character in front, on both sides. */
  lemma OneMoreChar(g: string, s: string)
    requires g != [] && s != [] && g[0] == s[0] && g[0] != '\\' && g[0] != '*' && FallsShort(g[1..], s[1..])
    ensures FallsShort(g, s)
  {
    assert Plain(g) == [g[0]] + Plain(g[1..]);
  }

  lemma OneMoreStar(g: string, s: string, i: nat)
    requires g != [] && g[0] == '*' && i <= |s| && Backslashes(s[..i]) == 0 && FallsShort(g[1..], s[i..])
    ensures FallsShort(g, s)
  {
    BackslashesAdd(s[..i], s[i..]);
    assert s == s[..i] + s[i..];
    assert Plain(g) == Plain(g[1..]);
  }

  lemma PlainOfTwo(g: string)
    requires |g| > 1
    ensures |Plain(g)| <= 2 + |Plain(g[2..])|
  {
    assert g[1..][1..] == g[2..];
  }

  /** A backslash with the character it makes literal. */
  lemma OneEscape(g: string, s: string)
    requires |g| > 1 && g[0] == '\\' && s != [] && s[0] == g[1] && FallsShort(g[2..], s[1..])
    ensures FallsShort(g, s)
  {
    FirstTwo(g);
    PlainOfTwo(g);
  }

  /** A backslash in front of an escaped character spoils the class: its bracket becomes literal. */
  lemma SpoiledClass(g: string, s: string)
    requires |g| > 1 && g[0] == '\\' && g[1] != '\\' && |s| > 2 && s[0] == '[' && s[2] == ']'
    requires FallsShort(g[2..], s[3..])
    ensures FallsShort(g, s)
  {
    FirstTwo(g);
    PlainOfTwo(g);
    FirstThree(s);
  }

  lemma EscapedHead(g: string)
    requires g != []
    ensures Escaped(g) != [] && Escaped(g)[0] != ']'
    ensures IsSpecial(g[0]) ==>
      |Escaped(g)| > 2 && Escaped(g)[..3] == ['[', g[0], ']'] && Escaped(g)[3..] == Escaped(g[1..])
    ensures !IsSpecial(g[0]) ==> Escaped(g)[0] == g[0] && Escaped(g)[1..] == Escaped(g[1..])
  {
  }

  /** What the engine matches of an escaped glob, when unknown texts have no backslash. */
  lemma {:induction false} MatchFallsShort(ok: Unknown, g: string, s: string)
    requires HasNoBackslash(ok) && EngineMatches(ok, Escaped(g), s)
    ensures FallsShort(g, s)
    decreases |g|
  {
    if g != [] {
      var e := Escaped(g);
      EscapedHead(g);
      if g[0] == '*' {
        var i :| 0 <= i <= |s| && ok(s[..i]) && EngineMatches(ok, e[1..], s[i..]);
        MatchFallsShort(ok, g[1..], s[i..]);
        OneMoreStar(g, s, i);
      } else if g[0] == '\\' {
        EscapeFallsShort(ok, g, s);
      } else {
        assert IsSpecial(g[0]) ==> e[0] == e[..3][0] && e[1] == e[..3][1] && e[2] == e[..3][2];
        MatchFallsShort(ok, g[1..], s[1..]);
        OneMoreChar(g, s);
      }
    }
  }

  lemma {:induction false} EscapeFallsShort(ok: Unknown, g: string, s: string)
    requires HasNoBackslash(ok) && g != [] && g[0] == '\\' && EngineMatches(ok, Escaped(g), s)
    ensures FallsShort(g, s)
    decreases |g|, 0
  {
    var e, rest := Escaped(g), Escaped(g[1..]);
    EscapedHead(g);
    assert |g| > 1;
    EscapedHead(g[1..]);
    assert g[1..][1..] == g[2..] && e[1] == rest[0] && e[2..] == rest[1..];
    if IsSpecial(g[1]) {
      SpoiledMatch(ok, g[1], Escaped(g[2..]), s[1..]);
      assert rest[1..] == [g[1], ']'] + Escaped(g[2..]);
      assert s[1..][2..] == s[3..];
      MatchFallsShort(ok, g[2..], s[3..]);
      SpoiledClass(g, s);
    } else {
      MatchFallsShort(ok, g[2..], s[1..]);
      OneEscape(g, s);
    }
  }

  /** Behind the literal bracket: the special character and a closing bracket, which stand for
      themselves or, as `?`, for any character; an opening bracket or a brace matches nothing. */
  lemma SpoiledMatch(ok: Unknown, c: char, rest: string, t: string)
    requires IsSpecial(c) && (rest != [] ==> rest[0] != ']')
    ensures EngineMatches(ok, [c, ']'] + rest, t) ==> |t| > 1 && t[1] == ']' && EngineMatches(ok, rest, t[2..])
  {
    var p := [c, ']'] + rest;
    assert p[0] == c && p[1..] == [']'] + rest && ([']'] + rest)[1..] == rest;
    if EngineMatches(ok, p, t) {
      assert c != '[' by {
        assert |p| > 2 ==> p[2] == rest[0];
      }
      assert EngineMatches(ok, [']'] + rest, t[1..]);
      assert t[1..][1..] == t[2..];
    }
  }

  /** When the unknown parts have no backslash, the pattern matches every text the argument can be if
      and only if no literal has one. */
  lemma NothingMissedIffNoBackslash(ok: Unknown, e: Expr)
    requires IsClosed(ok) && HasNoBackslash(ok) && GlobOf(e).Some?
    ensures (forall s :: CanBe(ok, e, s) ==> EngineMatches(ok, Pattern(e).value, s)) <==> '\\' !in GlobOf(e).value
  {
    var g := GlobOf(e).value;
    if '\\' !in g {
      forall s | CanBe(ok, e, s) ensures EngineMatches(ok, Pattern(e).value, s) {
        PatternIsExact(ok, e, s);
      }
    } else {
      OwnTextIsMissed(ok, e);
    }
  }

  lemma {:induction false} PlainKeeps(g: string)
    ensures Backslashes(Plain(g)) == Backslashes(g) && Plain(Collapsed(g)) == Plain(g)
    decreases |g|
  {
    if g == [] {
    } else if |g| > 1 && g[0] == '*' && g[1] == '*' {
      PlainKeeps(g[2..]);
      FirstTwo(g);
      assert g[1..][1..] == g[2..] && Collapsed(g)[1..] == Collapsed(g[2..]);
      assert Plain(g) == Plain(g[1..]) == Plain(g[2..]);
    } else {
      PlainKeeps(g[1..]);
      assert Collapsed(g)[1..] == Collapsed(g[1..]);
      if g[0] == '*' {
        assert Plain(g) == Plain(g[1..]);
      } else {
        assert Plain(g)[1..] == Plain(g[1..]);
      }
    }
  }

  /** With a backslash, the pattern misses the text whose unknown parts are all empty. */
  lemma OwnTextIsMissed(ok: Unknown, e: Expr)
    requires IsClosed(ok) && HasNoBackslash(ok) && GlobOf(e).Some? && '\\' in GlobOf(e).value
    ensures CanBe(ok, e, Plain(GlobOf(e).value)) && !EngineMatches(ok, Pattern(e).value, Plain(GlobOf(e).value))
  {
    var g := GlobOf(e).value;
    PlainMatches(ok, g);
    GlobIsExact(ok, e, Plain(g));
    HasBackslash(g);
    PlainKeeps(g);
    CollapsedKeepsBackslashes(g);
    if EngineMatches(ok, Pattern(e).value, Plain(g)) {
      MatchFallsShort(ok, Collapsed(g), Plain(g));
    }
  }

  function LiteralInTemplate(dir: string, literal: string, extension: string): Expr {
    Template(Part(dir, Str(literal), Part("", Opaque, End(extension))))
  }

  /** A string literal with a backslash inside a template, as it occurs in a program. */
  function Example(): Expr {
    LiteralInTemplate("./", "a\\b", ".js")
  }

  lemma TemplateGlob(dir: string, literal: string, extension: string)
    requires '*' !in dir && '*' !in literal && '*' !in extension
    ensures GlobOf(LiteralInTemplate(dir, literal, extension)) == Some(dir + literal + "*" + extension)
  {
    assert "" + ("*" + extension) == "*" + extension;
    var last := Part("", Opaque, End(extension));
    assert GlobOfParts(last) == Some("*" + extension);
    assert GlobOfParts(Part(dir, Str(literal), last)) == Some(dir + (literal + ("*" + extension)));
    assert dir + (literal + ("*" + extension)) == dir + literal + "*" + extension;
  }

  lemma PatternText(e: Expr, g: string)
    requires GlobOf(e) == Some(g) && forall c | c in g :: !IsSpecial(c)
    requires forall i {:trigger g[i]} | 0 <= i < |g| - 1 :: g[i] != '*' || g[i + 1] != '*'
    ensures Pattern(e) == Some(g)
  {
    NothingToCollapse(g);
    NothingToEscape(g);
  }

  lemma ExampleGlob()
    ensures GlobOf(Example()) == Some("./a\\b*.js") == Pattern(Example())
  {
    TemplateGlob("./", "a\\b", ".js");
    assert "./" + "a\\b" + "*" + ".js" == "./a\\b*.js";
    PatternText(Example(), "./a\\b*.js");
  }

  lemma ExampleMisses(ok: Unknown, x: string)
    ensures !EngineMatches(ok, "./a\\b*.js", "./a\\b" + x + ".js")
  {
    Misses(ok, "b*.js", "./a", "\\b" + x + ".js");
    assert "./a\\b*.js" == "./a" + (['\\'] + "b*.js");
    assert "./a\\b" + x + ".js" == "./a" + ("\\b" + x + ".js");
  }

  /** Its pattern misses every text the argument can be. */
  lemma BackslashIsLost(ok: Unknown, x: string)
    requires ok(x)
    ensures CanBe(ok, Example(), "./a\\b" + x + ".js")
    ensures Pattern(Example()).Some? && !EngineMatches(ok, Pattern(Example()).value, "./a\\b" + x + ".js")
  {
    ExampleGlob();
    ExampleMisses(ok, x);
    MatchesPieces(ok, x);
    GlobIsExact(ok, Example(), "./a\\b" + x + ".js");
  }

  /** Behind plain text, an escaped character does not match a backslash. */
  lemma {:induction false} Misses(ok: Unknown, rest: string, plain: string, s: string)
    requires rest != [] && rest[0] != '\\' && s != [] && s[0] == '\\'
    requires forall c | c in plain :: !IsSpecial(c) && c != '*' && c != '\\'
    ensures !EngineMatches(ok, plain + (['\\'] + rest), plain + s)
    decreases |plain|
  {
    var p, t := plain + (['\\'] + rest), plain + s;
    if plain == [] {
      assert p[0] == '\\' && p[1] == rest[0] && t[0] == '\\';
    } else {
      assert plain[0] in plain && forall c | c in plain[1..] :: c in plain;
      assert p[0] == plain[0] && p[1..] == plain[1..] + (['\\'] + rest) && t[1..] == plain[1..] + s;
      Misses(ok, rest, plain[1..], s);
    }
  }

  lemma MatchesPieces(ok: Unknown, x: string)
    requires ok(x)
    ensures Matches(ok, "./a\\b*.js", "./a\\b" + x + ".js")
  {
    var s := "./a\\b" + x + ".js";
    assert "./a\\b*.js" == "./a\\b" + ("*" + ".js") && s == "./a\\b" + (x + ".js");
    MatchesLiteral(ok, "./a\\b", "./a\\b");
    MatchesLiteral(ok, ".js", ".js");
    MatchesStar(ok, x);
    MatchesJoined(ok, "*", ".js", x + ".js");
    assert (x + ".js")[..|x|] == x && (x + ".js")[|x|..] == ".js";
    assert SplitMatches(ok, "*", ".js", x + ".js");
    MatchesJoined(ok, "./a\\b", "*" + ".js", s);
    assert s[..5] == "./a\\b" && s[5..] == x + ".js";
  }

  lemma {:induction false} NothingToCollapse(g: string)
    requires forall i {:trigger g[i]} | 0 <= i < |g| - 1 :: g[i] != '*' || g[i + 1] != '*'
    ensures Collapsed(g) == g
  {
    if g != [] {
      NothingToCollapse(g[1..]);
    }
  }

  lemma {:induction false} NothingToEscape(g: string)
    requires forall c | c in g :: !IsSpecial(c)
    ensures Escaped(g) == g
  {
    if g != [] {
      assert g[0] in g && forall c | c in g[1..] :: c in g;
      NothingToEscape(g[1..]);
    }
  }
}
