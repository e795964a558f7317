/**
 * The colour constants of the keyboard faces and the names of the keys they
 * are written to: function keys "F1".."F12", number-row digits "0".."9",
 * keypad digits "KP0".."KP9". Python's str(n) on a natural number is
 * NatToString, and str.rjust is RJust.
 */
module Palette {

  const Foreground: string := "ff99ff"
  const ForegroundAlt: string := "94b2ff"
  const ForegroundCombined: string := "CFA4FF"
  const Background: string := "f1f1f1"
  const Separator: string := "787878"

  /** The fields of datetime.now() that the faces read. */
  type Hour = h: nat | h < 24
  type Sixty = m: nat | m < 60
  type Digit = d: nat | d < 10

  function DigitChar(d: Digit): (c: char)
    ensures '0' <= c <= '9'
    ensures c as int - '0' as int == d
  {
    ('0' as int + d) as char
  }

  /** Decimal rendering without leading zeros, as Python's str on an int >= 0. */
  function NatToString(n: nat): (s: string)
    ensures 1 <= |s|
    ensures n < 10 <==> |s| == 1
    decreases n
  {
    if n < 10 then [DigitChar(n)] else NatToString(n / 10) + [DigitChar(n % 10)]
  }

  /** Two naturals with the same decimal rendering are equal. */
  lemma {:induction false} NatToStringInjective(a: nat, b: nat)
    requires NatToString(a) == NatToString(b)
    ensures a == b
    decreases a
  {
    if a >= 10 && b >= 10 {
      var sa, sb := NatToString(a), NatToString(b);
      assert sa[|sa| - 1] == sb[|sb| - 1];
      assert DigitChar(a % 10) == DigitChar(b % 10);
      assert NatToString(a / 10) == sa[..|sa| - 1] == sb[..|sb| - 1] == NatToString(b / 10);
      NatToStringInjective(a / 10, b / 10);
    }
  }

  /** Python's s.rjust(width, fill): pad on the left up to width, never truncate. */
  function RJust(s: string, width: nat, fill: char): (r: string)
    ensures |r| == if |s| < width then width else |s|
    ensures r[|r| - |s|..] == s
    ensures forall i :: 0 <= i < |r| - |s| ==> r[i] == fill
  {
    if |s| >= width then s else seq(width - |s|, _ => fill) + s
  }

  /** str(n).rjust(2, "0") for n < 100 is its tens digit followed by its units digit. */
  lemma TwoDigits(n: nat)
    requires n < 100
    ensures RJust(NatToString(n), 2, '0') == [DigitChar(n / 10), DigitChar(n % 10)]
  {
    var s := NatToString(n);
    if n >= 10 {
      var t, u := n / 10, n % 10;
      assert t < 10;
      assert s == NatToString(t) + [DigitChar(u)];
      assert NatToString(t) == [DigitChar(t)];
      assert RJust(s, 2, '0') == s;
    } else {
      assert n / 10 == 0 && n % 10 == n;
      assert s == [DigitChar(n)];
      assert seq(1, _ => '0') == [DigitChar(0)];
      assert RJust(s, 2, '0') == seq(1, _ => '0') + s;
    }
  }

  /** The key of function key number i, f"F{i}". */
  function FKey(i: nat): (k: string)
    ensures |k| >= 2 && k[0] == 'F'
  {
    "F" + NatToString(i)
  }

  /** The number-row key of a digit, str(d). */
  function DigitKey(d: Digit): (k: string)
    ensures k == [DigitChar(d)]
  {
    NatToString(d)
  }

  /** The keypad key of a digit, f"KP{d}". */
  function KeypadKey(d: Digit): (k: string)
    ensures |k| == 3 && k[0] == 'K' && k[1] == 'P' && k[2] == DigitChar(d)
  {
    "KP" + DigitKey(d)
  }

  lemma FKeyInjective(i: nat, j: nat)
    requires FKey(i) == FKey(j)
    ensures i == j
  {
    assert NatToString(i) == FKey(i)[1..] == FKey(j)[1..] == NatToString(j);
    NatToStringInjective(i, j);
  }

  lemma FKeyDistinct(i: nat, j: nat)
    requires i != j
    ensures FKey(i) != FKey(j)
  {
    if FKey(i) == FKey(j) {
      FKeyInjective(i, j);
    }
  }

  lemma DigitKeyInjective(d: Digit, e: Digit)
    requires DigitKey(d) == DigitKey(e)
    ensures d == e
  {
    assert DigitKey(d)[0] == DigitKey(e)[0];
  }

  lemma KeypadKeyInjective(d: Digit, e: Digit)
    requires KeypadKey(d) == KeypadKey(e)
    ensures d == e
  {
    assert KeypadKey(d)[2] == KeypadKey(e)[2];
  }

  /** The function keys F1..F12. */
  function FKeys(): set<string>
  {
    set i: nat | 1 <= i <= 12 :: FKey(i)
  }

  /** The number-row digit keys "0".."9". */
  function DigitKeys(): set<string>
  {
    set d: Digit | true :: DigitKey(d)
  }

  /** The keypad digit keys "KP0".."KP9". */
  function KeypadKeys(): set<string>
  {
    set d: Digit | true :: KeypadKey(d)
  }

  /**
   * The function key that shows an hour on the 12-hour dial: hour mod 12,
   * with 0 shown as 12.
   */
  function HourSlot(hour: Hour): (hh: nat)
    ensures 1 <= hh <= 12
    ensures hh % 12 == hour % 12
  {
    var hh := hour % 12;
    if hh == 0 then 12 else hh
  }
}
