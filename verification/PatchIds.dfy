/** The decimal id in a payload's file name. */
module PatchIds {

  const U32_MAX: nat := 0xFFFF_FFFF

  predicate IsDigit(c: char) {
    '0' <= c <= '9'
  }

  function DigitValue(c: char): nat
    requires IsDigit(c)
  {
    c as nat - '0' as nat
  }

  /** The decimal digits of `n`, without leading zeros. */
  function Decimal(n: nat): (s: string)
    ensures |s| > 0 && forall i | 0 <= i < |s| :: IsDigit(s[i])
  {
    var digit := ('0' as nat + n % 10) as char;
    if n < 10 then [digit] else Decimal(n / 10) + [digit]
  }

  /** The value of a string of digits, `None` when there is none, a non-digit or an overflow. */
  function ParseDigits(s: string): (r: int)
    ensures -1 <= r <= U32_MAX
  {
    if s == [] || !IsDigit(s[|s| - 1]) then -1
    else if |s| == 1 then DigitValue(s[0])
    else
      var high := ParseDigits(s[..|s| - 1]);
      var value := high * 10 + DigitValue(s[|s| - 1]);
      if high < 0 || value > U32_MAX then -1 else value
  }

  /** `str::parse::<u32>`: one leading plus sign is allowed. */
  function ParseU32(s: string): int {
    if |s| > 1 && s[0] == '+' then ParseDigits(s[1..]) else ParseDigits(s)
  }

  function AfterLastUnderscore(s: string): string {
    if s == [] || s[|s| - 1] == '_' then []
    else AfterLastUnderscore(s[..|s| - 1]) + [s[|s| - 1]]
  }

  function PatchIdOf(filename: string): nat {
    var rest := AfterLastUnderscore(filename);
    if |rest| >= 3 && rest[|rest| - 3..] == ".js" then
      var id := ParseU32(rest[..|rest| - 3]);
      if id < 0 then 0 else id
    else 0
  }

  function HmrPatchName(id: nat): string {
    "hmr_patch_" + Decimal(id) + ".js"
  }

  function LazyCompileName(id: nat): string {
    "lazy_compile_" + Decimal(id) + ".js"
  }

  lemma {:induction false} ParseInvertsDecimal(n: nat)
    requires n <= U32_MAX
    ensures ParseDigits(Decimal(n)) == n
  {
    if n >= 10 {
      ParseInvertsDecimal(n / 10);
      assert Decimal(n)[..|Decimal(n)| - 1] == Decimal(n / 10);
    }
  }

  lemma {:induction false} AfterLastUnderscoreOfTail(prefix: string, tail: string)
    requires forall i | 0 <= i < |tail| :: tail[i] != '_'
    ensures AfterLastUnderscore(prefix + ['_'] + tail) == tail
  {
    var s := prefix + ['_'] + tail;
    if tail != [] {
      AfterLastUnderscoreOfTail(prefix, tail[..|tail| - 1]);
      assert s[..|s| - 1] == prefix + ['_'] + tail[..|tail| - 1];
    }
  }

  /** `patch_id_of` recovers the id from a name of either kind, whatever precedes the last `_`. */
  lemma PatchIdInvertsName(prefix: string, id: nat)
    requires id <= 0xFFFF_FFFF
    ensures PatchIdOf(prefix + "_" + Decimal(id) + ".js") == id
  {
    var tail := Decimal(id) + ".js";
    assert prefix + "_" + Decimal(id) + ".js" == prefix + ['_'] + tail;
    AfterLastUnderscoreOfTail(prefix, tail);
    ParseInvertsDecimal(id);
    assert tail[..|tail| - 3] == Decimal(id) && tail[|tail| - 3..] == ".js";
    assert IsDigit(Decimal(id)[0]);
  }

  lemma PatchIdOfBothKinds(id: nat)
    requires id <= 0xFFFF_FFFF
    ensures PatchIdOf(HmrPatchName(id)) == id && PatchIdOf(LazyCompileName(id)) == id
  {
    PatchIdInvertsName("hmr_patch", id);
    PatchIdInvertsName("lazy_compile", id);
    assert "hmr_patch" + "_" == "hmr_patch_";
    assert "lazy_compile" + "_" == "lazy_compile_";
  }

  /** Names drawn from one counter never collide, not even across the two kinds. */
  lemma NamesAreDistinct(a: nat, b: nat)
    requires a != b && a <= 0xFFFF_FFFF && b <= 0xFFFF_FFFF
    ensures HmrPatchName(a) != HmrPatchName(b) && LazyCompileName(a) != LazyCompileName(b)
    ensures HmrPatchName(a) != LazyCompileName(b)
  {
    PatchIdOfBothKinds(a);
    PatchIdOfBothKinds(b);
  }

  // ---- Any name ---------------------------------------------------------------------------

  /** The number that digits stand for. */
  function Value(digits: string): nat
    requires forall i | 0 <= i < |digits| :: IsDigit(digits[i])
  {
    if digits == [] then 0 else Value(digits[..|digits| - 1]) * 10 + DigitValue(digits[|digits| - 1])
  }

  predicate IsNumeral(s: string) {
    s != [] && (forall i | 0 <= i < |s| :: IsDigit(s[i])) && Value(s) <= 0xFFFF_FFFF
  }

  /** Digits are read unless their number is too large, also when it becomes so on the way. */
  lemma {:induction false} ParseDigitsIff(s: string)
    ensures ParseDigits(s) == if IsNumeral(s) then Value(s) else -1
  {
    if |s| == 1 {
      assert s[..0] == [];
    } else if s != [] {
      var front := s[..|s| - 1];
      ParseDigitsIff(front);
      if IsNumeral(s) {
        assert forall i | 0 <= i < |front| :: front[i] == s[i];
        assert IsNumeral(front);
      }
    }
  }

  /** The text in a name that is read as its id: what a last `_`, or the beginning, and the ending enclose, without
      one leading plus sign. */
  predicate EndsWithNumeral(tail: string, digits: string) {
    IsNumeral(digits) && (tail == digits + ".js" || tail == "+" + digits + ".js")
  }

  lemma EndingIff(tail: string, digits: string)
    requires EndsWithNumeral(tail, digits)
    ensures |tail| >= 3 && tail[|tail| - 3..] == ".js" && ParseU32(tail[..|tail| - 3]) == Value(digits)
  {
    var id := tail[..|tail| - 3];
    ParseDigitsIff(digits);
    assert IsDigit(digits[0]);
    if tail == digits + ".js" {
      assert id == digits;
    } else {
      assert id == "+" + digits && id[1..] == digits;
    }
  }

  lemma NumeralOf(id: string) returns (digits: string)
    requires ParseU32(id) >= 0
    ensures IsNumeral(digits) && Value(digits) == ParseU32(id) && (id == digits || id == "+" + digits)
  {
    digits := if |id| > 1 && id[0] == '+' then id[1..] else id;
    ParseDigitsIff(digits);
    assert digits != id ==> id == "+" + digits;
  }

  /** The id of any name: the number behind its last `_` if there is one that fits 32 bits, and 0 otherwise. */
  lemma PatchIdOfName(filename: string, prefix: string, tail: string)
    requires '_' !in tail && (filename == tail || filename == prefix + "_" + tail)
    ensures forall digits | EndsWithNumeral(tail, digits) :: PatchIdOf(filename) == Value(digits)
    ensures (forall digits :: !EndsWithNumeral(tail, digits)) ==> PatchIdOf(filename) == 0
  {
    assert AfterLastUnderscore(filename) == tail by {
      if filename == tail {
        NoUnderscore(tail);
      } else {
        assert filename == prefix + ['_'] + tail;
        AfterLastUnderscoreOfTail(prefix, tail);
      }
    }
    forall digits | EndsWithNumeral(tail, digits) ensures PatchIdOf(filename) == Value(digits) {
      EndingIff(tail, digits);
    }
    if |tail| >= 3 && tail[|tail| - 3..] == ".js" && ParseU32(tail[..|tail| - 3]) >= 0 {
      var id := tail[..|tail| - 3];
      assert tail == id + ".js";
      var digits := NumeralOf(id);
      assert EndsWithNumeral(tail, digits);
    }
  }

  lemma {:induction false} NoUnderscore(s: string)
    requires '_' !in s
    ensures AfterLastUnderscore(s) == s
  {
    if s != [] {
      var n := |s| - 1;
      assert s[n] in s && forall c | c in s[..n] :: c in s;
      NoUnderscore(s[..n]);
      assert s == s[..n] + [s[n]];
    }
  }
}
