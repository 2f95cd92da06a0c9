/** `GridManager.extract_difficulty`: the difficulty written at the end of a grid file name. */
module Difficulty {
  import opened Options

  /** Python's clamping of a slice bound. */
  function SliceBound(len: nat, i: int): (r: nat)
    ensures r <= len
  {
    if i < 0 then (if i + len < 0 then 0 else i + len) else if i > len then len else i
  }

  /** Python's `s[start:stop]`. */
  function Slice(s: string, start: int, stop: int): (r: string)
    ensures |r| <= |s|
  {
    var a, b := SliceBound(|s|, start), SliceBound(|s|, stop);
    if a < b then s[a..b] else []
  }

  /** `s.split('_')[-1]`: the text after the last underscore, or all of s if it has none. */
  function LastField(s: string): (r: string)
    ensures '_' !in r
    ensures |r| <= |s| && r == s[|s| - |r|..]
    ensures |r| < |s| ==> s[|s| - |r| - 1] == '_'
  {
    if s == [] then []
    else if s[|s| - 1] == '_' then []
    else LastField(s[..|s| - 1]) + [s[|s| - 1]]
  }

  predicate IsDigit(c: char) {
    '0' <= c <= '9'
  }

  function DigitValue(c: char): nat
    requires IsDigit(c)
  {
    c as int - '0' as int
  }

  function DigitsValue(t: string): nat
    requires forall k :: 0 <= k < |t| ==> IsDigit(t[k])
  {
    if t == [] then 0 else DigitsValue(t[..|t| - 1]) * 10 + DigitValue(t[|t| - 1])
  }

  function ParseDigits(t: string): Option<nat> {
    if t != [] && forall k :: 0 <= k < |t| ==> IsDigit(t[k]) then Some(DigitsValue(t)) else None
  }

  /** Python's `int(text)` for ASCII text: an optional sign followed by at least one digit. */
  function ParseInt(t: string): Option<int> {
    if |t| > 0 && (t[0] == '+' || t[0] == '-') then
      match ParseDigits(t[1..])
      case Some(d) =>
        var v: int := if t[0] == '-' then -(d as int) else d;
        Some(v)
      case None => None
    else
      match ParseDigits(t)
      case Some(d) => Some(d)
      case None => None
  }

  /** `extract_difficulty`: parse the last '_'-separated field of `filename[4:-3]`; 0 when that field
      is not an integer. */
  function ExtractDifficulty(filename: string): int {
    match ParseInt(LastField(Slice(filename, 4, -3)))
    case Some(d) => d
    case None => 0
  }

  /** Decimal digits of a natural number, most significant first. */
  function Digits(d: nat): (t: string)
    ensures t != [] && forall k :: 0 <= k < |t| ==> IsDigit(t[k])
  {
    if d < 10 then [('0' as int + d) as char] else Digits(d / 10) + [('0' as int + d % 10) as char]
  }

  lemma {:induction false} DigitsRoundTrip(d: nat)
    ensures DigitsValue(Digits(d)) == d
  {
    var t := Digits(d);
    if d >= 10 {
      DigitsRoundTrip(d / 10);
      assert t[..|t| - 1] == Digits(d / 10);
    }
  }

  /** The decimal text of an integer, with a '-' sign when negative. */
  function IntText(d: int): string {
    if d < 0 then "-" + Digits(-d) else Digits(d)
  }

  /** For a file name "grid" + X + "_" + D + ".in", where D is the decimal text of d, the difficulty
      read back is d, whatever X holds. */
  lemma {:induction false} ExtractDifficultyRoundTrip(x: string, d: int)
    ensures ExtractDifficulty("grid" + x + "_" + IntText(d) + ".in") == d
  {
    var text := IntText(d);
    var mid := x + "_" + text;
    assert "grid" + x + "_" + text + ".in" == "grid" + mid + ".in";
    SliceMiddle("grid", mid, ".in");
    IntTextFields(d);
    LastFieldAfterUnderscore(x, text);
    ParseIntText(d);
  }

  lemma IntTextFields(d: int)
    ensures '_' !in IntText(d)
  {
    var digits := if d < 0 then Digits(-d) else Digits(d);
    assert forall k :: 0 <= k < |digits| ==> IsDigit(digits[k]);
  }

  lemma ParseIntText(d: int)
    ensures ParseInt(IntText(d)) == Some(d)
  {
    var text := IntText(d);
    if d < 0 {
      DigitsRoundTrip(-d);
      assert text[0] == '-' && text[1..] == Digits(-d);
    } else {
      DigitsRoundTrip(d);
      assert IsDigit(text[0]);
    }
  }

  lemma {:induction false} LastFieldAfterUnderscore(x: string, t: string)
    requires '_' !in t
    ensures LastField(x + "_" + t) == t
    decreases |t|
  {
    var s := x + "_" + t;
    if t != [] {
      assert s[..|s| - 1] == x + "_" + t[..|t| - 1];
      assert t[|t| - 1] in t;
      LastFieldAfterUnderscore(x, t[..|t| - 1]);
    }
  }

  lemma SliceMiddle(p: string, mid: string, q: string)
    requires |q| > 0
    ensures Slice(p + mid + q, |p|, -|q|) == mid
  {
    var f := p + mid + q;
    assert f[|p|..|f| - |q|] == mid;
  }

  /** A name without any digit in its last field has difficulty 0. */
  lemma NoDigitsNoDifficulty(filename: string)
    requires forall c :: c in LastField(Slice(filename, 4, -3)) ==> !IsDigit(c)
    ensures ExtractDifficulty(filename) == 0
  {
    var t := LastField(Slice(filename, 4, -3));
    if |t| > 0 {
      assert t[0] in t;
      if |t| > 1 {
        assert t[1..][0] == t[1];
      }
    }
  }
}
