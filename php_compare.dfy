/**
 * PHP 7 numeric strings (`is_numeric`) and the loose comparison `==` that
 * `in_array` (without its strict flag) and `switch` use.
 * Numbers are read exactly, as reals; PHP reads them as doubles.
 */
module PhpCompare {
  import opened PhpValues

  predicate IsDigit(c: char)
  {
    '0' <= c <= '9'
  }

  /** The whitespace PHP skips in front of a numeric string. */
  predicate IsSpace(c: char)
  {
    c == ' ' || c == '\t' || c == '\n' || c == '\r' || c == '\U{000B}' || c == '\U{000C}'
  }

  function SkipSpace(s: string, p: nat): (q: nat)
    requires p <= |s|
    ensures p <= q <= |s|
    decreases |s| - p
  {
    if p < |s| && IsSpace(s[p]) then SkipSpace(s, p + 1) else p
  }

  /** Length of the run of digits starting at `p`. */
  function CountDigits(s: string, p: nat): (n: nat)
    requires p <= |s|
    ensures p + n <= |s|
    ensures forall i :: p <= i < p + n ==> IsDigit(s[i])
    ensures p + n < |s| ==> !IsDigit(s[p + n])
    decreases |s| - p
  {
    if p < |s| && IsDigit(s[p]) then 1 + CountDigits(s, p + 1) else 0
  }

  /** The value of a string of decimal digits. */
  function DigitsValue(s: string): nat
  {
    if s == [] then 0
    else
      var d := s[|s| - 1] as int - '0' as int;
      DigitsValue(s[..|s| - 1]) * 10 + (if 0 <= d < 10 then d else 0)
  }

  function Pow10(e: nat): (r: nat)
    ensures r >= 1
  {
    if e == 0 then 1 else 10 * Pow10(e - 1)
  }

  /** Where a numeric prefix ends, and the number it denotes. */
  datatype Scan = Scan(end: nat, value: real)

  /**
   * The longest prefix of `s` that PHP reads as a number: optional leading
   * whitespace, an optional sign, digits with an optional fraction (at least one
   * digit in all), then an optional exponent (taken only when it has digits).
   */
  function ScanNumber(s: string): (r: Option<Scan>)
    ensures r.Some? ==> r.value.end <= |s|
  {
    var p0 := SkipSpace(s, 0);
    var negative := p0 < |s| && s[p0] == '-';
    var p1 := if p0 < |s| && (s[p0] == '+' || s[p0] == '-') then p0 + 1 else p0;
    var nInt := CountDigits(s, p1);
    var pDot := p1 + nInt;
    var hasDot := pDot < |s| && s[pDot] == '.';
    var nFrac := if hasDot then CountDigits(s, pDot + 1) else 0;
    if nInt + nFrac == 0 then None
    else
      var pMant := if hasDot then pDot + 1 + nFrac else pDot;
      var fraction := if hasDot then s[pDot + 1..pMant] else "";
      var mantissa := DigitsValue(s[p1..pDot]) as real + DigitsValue(fraction) as real / Pow10(nFrac) as real;
      var signed := if negative then -mantissa else mantissa;
      var hasE := pMant < |s| && (s[pMant] == 'e' || s[pMant] == 'E');
      var expSigned := hasE && pMant + 1 < |s| && (s[pMant + 1] == '+' || s[pMant + 1] == '-');
      var pExp := if expSigned then pMant + 2 else pMant + 1;
      var nExp := if hasE then CountDigits(s, pExp) else 0;
      if nExp == 0 then Some(Scan(pMant, signed))
      else
        var scale := Pow10(DigitsValue(s[pExp..pExp + nExp])) as real;
        var negExp := expSigned && s[pMant + 1] == '-';
        Some(Scan(pExp + nExp, if negExp then signed / scale else signed * scale))
  }

  /** PHP 7 `is_numeric` on a string: the whole string is a number (no trailing whitespace). */
  predicate IsNumeric(s: string)
  {
    var r := ScanNumber(s);
    r.Some? && r.value.end == |s|
  }

  /** The number PHP 7 reads from a string when comparing it with an integer: its numeric prefix, or 0. */
  function NumberOf(s: string): real
  {
    match ScanNumber(s)
    case Some(sc) => sc.value
    case None => 0.0
  }

  /** `is_numeric($key)` for an array key. */
  predicate IsNumericKey(k: Key)
  {
    k.Idx? || IsNumeric(k.s)
  }

  /** PHP 7 `$v == $t` for a string `$t`. */
  predicate LooseEquals(v: Value, t: string)
  {
    match v
    case Null => t == ""
    case Bool(b) => b == Truthy(Str(t))
    case Int(n) => NumberOf(t) == n as real
    case Str(s) => if IsNumeric(s) && IsNumeric(t) then NumberOf(s) == NumberOf(t) else s == t
    case Arr(_) => false
  }

  /** PHP 7 `in_array($v, $list)` without the strict flag. */
  predicate InArrayLoose(v: Value, list: seq<string>)
  {
    exists i :: 0 <= i < |list| && LooseEquals(v, list[i])
  }

  /** A string with no digit and no sign/dot start is not numeric, and reads as 0. */
  lemma {:induction false} WordIsNotNumeric(s: string)
    requires s != [] && 'a' <= s[0] <= 'z'
    ensures !IsNumeric(s) && NumberOf(s) == 0.0
  {
    assert SkipSpace(s, 0) == 0;
    assert CountDigits(s, 0) == 0;
  }

  /**
   * Loose comparison with a word (a string starting with a lowercase letter): only the
   * identical string, `true`, and the integer 0 equal it.
   */
  lemma LooseEqualsWord(v: Value, t: string)
    requires t != [] && 'a' <= t[0] <= 'z'
    ensures LooseEquals(v, t) <==> v == Str(t) || v == Bool(true) || v == Int(0)
  {
    WordIsNotNumeric(t);
    assert Truthy(Str(t)) by { assert t != "0"; }
  }
}
