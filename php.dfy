/** The few PHP built-ins the form handlers lean on, written out so that the
    handlers can be stated exactly: `??` on a missing request field, the
    truthiness test on a query-string id, `trim`, and `is_numeric` together
    with the number PHP compares a numeric string as. */
module Php {

  datatype Option<+T> = None | Some(value: T) {
    /** PHP's `$x ?? $default` on a request field that may be absent. */
    function GetOr(default: T): T {
      match this
      case Some(v) => v
      case None => default
    }
  }

  /** `!$id` on a query-string id: a missing id, an empty one and "0" are
      falsy. The id arrives already parsed; None stands for absent or "". */
  predicate IdGiven(p: Option<int>) {
    p.Some? && p.value != 0
  }

  // ---------------------------------------------------------------------
  // trim()

  /** The characters PHP's `trim` strips by default: " \t\n\r\0\x0B". */
  predicate IsTrimSpace(c: char) {
    c == ' ' || c == '\t' || c == '\n' || c == '\r' || c == '\0' || c == '\U{0B}'
  }

  predicate AllTrimSpace(s: string) {
    forall i :: 0 <= i < |s| ==> IsTrimSpace(s[i])
  }

  function TrimLeft(s: string): string {
    if s != [] && IsTrimSpace(s[0]) then TrimLeft(s[1..]) else s
  }

  function TrimRight(s: string): string {
    if s != [] && IsTrimSpace(s[|s| - 1]) then TrimRight(s[..|s| - 1]) else s
  }

  /** `trim($s)`: trim characters removed from both ends. */
  function Trim(s: string): (r: string)
    ensures IsTrimOf(r, s)
  {
    TrimLeftShape(s);
    TrimRightShape(TrimLeft(s));
    var l := TrimLeft(s);
    var i := |s| - |l|;
    assert l == s[i..];
    var r := TrimRight(l);
    assert r == s[i..i + |r|];
    assert l[|r|..] == s[i + |r|..];
    r
  }

  /** r is s with some trim characters cut from its start and some from its
      end, and nothing else: a contiguous piece of s. */
  predicate IsTrimOf(r: string, s: string) {
    exists i, j :: 0 <= i <= j <= |s| && r == s[i..j] && AllTrimSpace(s[..i]) && AllTrimSpace(s[j..])
  }

  /** TrimLeft drops a prefix of trim characters and stops at the first
      other character. */
  lemma {:induction false} TrimLeftShape(s: string)
    ensures var r := TrimLeft(s);
      && |r| <= |s| && r == s[|s| - |r|..] && AllTrimSpace(s[..|s| - |r|])
      && (r != [] ==> !IsTrimSpace(r[0]))
  {
    if s != [] && IsTrimSpace(s[0]) {
      TrimLeftShape(s[1..]);
      var r := TrimLeft(s);
      assert s[..|s| - |r|] == [s[0]] + s[1..][..|s| - 1 - |r|];
    }
  }

  /** TrimRight drops a suffix of trim characters and stops at the last
      other character. */
  lemma {:induction false} TrimRightShape(s: string)
    ensures var r := TrimRight(s);
      && |r| <= |s| && r == s[..|r|] && AllTrimSpace(s[|r|..])
      && (r != [] ==> !IsTrimSpace(r[|r| - 1]))
  {
    if s != [] && IsTrimSpace(s[|s| - 1]) {
      TrimRightShape(s[..|s| - 1]);
      var r := TrimRight(s);
      assert s[|r|..] == s[..|s| - 1][|r|..] + [s[|s| - 1]];
    }
  }

  /** A field is empty after trimming exactly when it holds nothing but trim
      characters. */
  lemma TrimEmptyIff(s: string)
    ensures Trim(s) == [] <==> AllTrimSpace(s)
  {
    var l := TrimLeft(s);
    TrimLeftShape(s);
    TrimRightShape(l);
    if AllTrimSpace(s) {
      AllSpaceTrimsLeftToEmpty(s);
    } else if TrimRight(l) == [] {
      var k := |s| - |l|;
      assert l[0..] == l;
      assert s == s[..k] + l;
      AllSpaceConcat(s[..k], l);
    }
  }

  lemma {:induction false} AllSpaceTrimsLeftToEmpty(s: string)
    requires AllTrimSpace(s)
    ensures TrimLeft(s) == []
  {
    if s != [] {
      AllSpaceTrimsLeftToEmpty(s[1..]);
    }
  }

  lemma AllSpaceConcat(a: string, b: string)
    requires AllTrimSpace(a) && AllTrimSpace(b)
    ensures AllTrimSpace(a + b)
  {
    forall i | 0 <= i < |a + b| ensures IsTrimSpace((a + b)[i]) {
      if i >= |a| { assert (a + b)[i] == b[i - |a|]; }
    }
  }

  /** A string that has no trim character at either end. */
  predicate IsTrimmed(s: string) {
    s != [] ==> !IsTrimSpace(s[0]) && !IsTrimSpace(s[|s| - 1])
  }

  /** What trim returns is trimmed. */
  lemma TrimIsTrimmed(s: string)
    ensures IsTrimmed(Trim(s))
  {
    var l := TrimLeft(s);
    TrimLeftShape(s);
    TrimRightShape(l);
    var r := TrimRight(l);
    if r != [] {
      assert r[0] == l[0];
    }
  }

  lemma TrimOfTrimmed(s: string)
    requires IsTrimmed(s)
    ensures Trim(s) == s
  {
    assert TrimLeft(s) == s;
  }

  /** Trimming twice is trimming once. */
  lemma TrimIdempotent(s: string)
    ensures Trim(Trim(s)) == Trim(s)
  {
    TrimIsTrimmed(s);
    TrimOfTrimmed(Trim(s));
  }

  // ---------------------------------------------------------------------
  // is_numeric() and the value of a numeric string

  predicate IsDigit(c: char) {
    '0' <= c <= '9'
  }

  predicate AllDigits(s: string) {
    forall i :: 0 <= i < |s| ==> IsDigit(s[i])
  }

  function Pow10(n: nat): (p: nat)
    ensures p >= 1
  {
    if n == 0 then 1 else 10 * Pow10(n - 1)
  }

  /** The natural number a string of decimal digits denotes. */
  function DigitsValue(s: string): nat
    requires AllDigits(s)
  {
    if s == [] then 0 else 10 * DigitsValue(s[..|s| - 1]) + (s[|s| - 1] as int - '0' as int)
  }

  /** The position of the first '.' in s, if any. */
  function DotIndex(s: string): (r: Option<nat>)
    ensures r.Some? ==> r.value < |s| && s[r.value] == '.' && '.' !in s[..r.value]
    ensures r.None? <==> '.' !in s
  {
    if s == [] then None
    else if s[0] == '.' then Some(0)
    else match DotIndex(s[1..])
      case None => None
      case Some(k) => assert s[..k + 1] == [s[0]] + s[1..][..k]; Some(k + 1)
  }

  /** An unsigned decimal: digits, optionally a '.' and more digits, with at
      least one digit in all; its exact value. */
  function ParseUnsigned(s: string): (r: Option<real>)
    ensures r.Some? ==> r.value >= 0.0
  {
    match DotIndex(s)
    case None =>
      if s != [] && AllDigits(s) then Some(DigitsValue(s) as real) else None
    case Some(k) =>
      var whole, frac := s[..k], s[k + 1..];
      if AllDigits(whole) && AllDigits(frac) && |whole| + |frac| > 0
      then Some(DigitsValue(whole) as real + DigitsValue(frac) as real / Pow10(|frac|) as real)
      else None
  }

  /** `is_numeric($s)` for a trimmed field, and the number PHP then compares
      it as: an optional sign followed by an unsigned decimal. None when the
      string is not numeric. */
  function ParseNumber(s: string): (r: Option<real>)
    ensures s == [] ==> r.None?
    ensures r.Some? && r.value < 0.0 ==> s[0] == '-'
  {
    if s != [] && (s[0] == '+' || s[0] == '-') then
      match ParseUnsigned(s[1..])
      case None => None
      case Some(v) => Some(if s[0] == '-' then -v else v)
    else ParseUnsigned(s)
  }

  /** The decimal digits of a natural number, most significant first. */
  function NatToDigits(n: nat): (s: string)
    ensures AllDigits(s) && s != [] && '.' !in s
  {
    var d := ['0' + (n % 10) as char];
    if n < 10 then d else NatToDigits(n / 10) + d
  }

  lemma {:induction false} DigitsRoundTrip(n: nat)
    ensures DigitsValue(NatToDigits(n)) == n
  {
    if n >= 10 {
      DigitsRoundTrip(n / 10);
      var s := NatToDigits(n);
      assert s[..|s| - 1] == NatToDigits(n / 10);
    }
  }

  /** A whole number written in decimal is numeric and is read back as itself. */
  lemma ParseNatRoundTrip(n: nat)
    ensures ParseNumber(NatToDigits(n)) == Some(n as real)
  {
    DigitsRoundTrip(n);
    var s := NatToDigits(n);
    assert DotIndex(s).None?;
  }

  /** A negative whole number written with a leading '-' reads back as itself. */
  lemma ParseNegativeRoundTrip(n: nat)
    ensures ParseNumber("-" + NatToDigits(n)) == Some(-(n as real))
  {
    ParseNatRoundTrip(n);
    var s := "-" + NatToDigits(n);
    assert s[1..] == NatToDigits(n);
  }
}
