/**
 * The numeric clock face (mod_num_time). The function-key row shows the hour
 * on a 12-hour dial, in the foreground colour up to 12 o'clock and in the
 * alternate colour after; the number row shows the two digits of the
 * minute; in second mode the keypad shows the two digits of the second.
 * Of a two-digit number, the tens digit is foreground and the units digit
 * alternate, and a repeated digit is the combined colour.
 */
module NumClock {
  import opened Wrappers
  import opened Palette

  /** The colour of the lit function key: foreground up to hour 12, alternate after. */
  function HourColour(hour: Hour): (c: string)
    ensures c == Foreground || c == ForegroundAlt
    ensures c == ForegroundAlt <==> hour > 12
  {
    ColoursDiffer();
    if hour <= 12 then Foreground else ForegroundAlt
  }

  /** The colour of digit key d when the tens digit is t and the units digit u. */
  function PairColour(t: Digit, u: Digit, d: Digit): (c: string)
    ensures c != Background <==> d == t || d == u
    ensures c == ForegroundCombined <==> d == t && t == u
  {
    if t == u && d == t then ForegroundCombined
    else if d == t then Foreground
    else if d == u then ForegroundAlt
    else Background
  }

  /** The colour that digit key d gets when the zero-padded number n is shown. */
  function DigitColour(n: nat, d: Digit): (c: string)
    requires n < 100
    ensures c != Background <==> d == n / 10 || d == n % 10
  {
    PairColour(n / 10, n % 10, d)
  }

  /** The key of digit d on the number row, or on the keypad. */
  function DigitRowKey(keypad: bool, d: Digit): string
  {
    if keypad then KeypadKey(d) else DigitKey(d)
  }

  /** The ten keys of the number row, or of the keypad. */
  function DigitRow(keypad: bool): set<string>
  {
    if keypad then KeypadKeys() else DigitKeys()
  }

  lemma DigitRowKeyInjective(keypad: bool, d: Digit, e: Digit)
    ensures DigitRowKey(keypad, d) == DigitRowKey(keypad, e) <==> d == e
  {
    if DigitRowKey(keypad, d) == DigitRowKey(keypad, e) {
      if keypad {
        KeypadKeyInjective(d, e);
      } else {
        DigitKeyInjective(d, e);
      }
    }
  }

  /**
   * What mod_num_time returns: exactly F1..F12, the number-row digits and (in
   * second mode) the keypad digits; the F key of the hour has the hour's
   * colour and the other eleven are background; the number row follows the
   * digit rule for the minute and the keypad the digit rule for the second.
   */
  ghost predicate IsNumFace(keys: map<string, string>, hour: Hour, minute: Sixty, second: Sixty, secondMode: bool)
  {
    && keys.Keys == FKeys() + DigitKeys() + (if secondMode then KeypadKeys() else {})
    && (forall i: nat :: 1 <= i <= 12 ==> keys[FKey(i)] == (if i == HourSlot(hour) then HourColour(hour) else Background))
    && (forall d: Digit :: keys[DigitKey(d)] == DigitColour(minute, d))
    && (secondMode ==> forall d: Digit :: keys[KeypadKey(d)] == DigitColour(second, d))
  }

  method NumTime(hour: Hour, minute: Sixty, second: Sixty, secondMode: bool) returns (keys: map<string, string>)
    ensures IsNumFace(keys, hour, minute, second, secondMode)
  {
    var hh := hour % 12;
    if hh == 0 {
      hh := 12;
    }
    keys := DimRows();
    keys := LightHourKey(keys, hh, if hour <= 12 then Foreground else ForegroundAlt);
    ghost var hourDone := keys;
    keys := MarkDigits(keys, false, minute);
    forall i: nat | 1 <= i <= 12 ensures keys[FKey(i)] == hourDone[FKey(i)] {
      assert FKey(i) !in DigitKeys();
    }
    if secondMode {
      ghost var minuteDone := keys;
      KeypadApart(keys.Keys);
      keys := DimKeypad(keys);
      keys := MarkDigits(keys, true, second);
      forall k | k in minuteDone ensures keys[k] == minuteDone[k] {
        assert k !in KeypadKeys();
      }
    }
  }

  /** Only the hour's function key is recoloured; the function keys and digits stay otherwise background. */
  method LightHourKey(before: map<string, string>, hh: nat, colour: string) returns (keys: map<string, string>)
    requires 1 <= hh <= 12
    requires before.Keys == FKeys() + DigitKeys()
    requires forall k :: k in before ==> before[k] == Background
    ensures keys.Keys == FKeys() + DigitKeys()
    ensures forall i: nat :: 1 <= i <= 12 ==> keys[FKey(i)] == (if i == hh then colour else Background)
    ensures forall d: Digit :: keys[DigitKey(d)] == Background
  {
    keys := before[FKey(hh) := colour];
    forall i: nat | 1 <= i <= 12 && i != hh ensures keys[FKey(i)] == Background {
      FKeyDistinct(i, hh);
    }
    forall d: Digit ensures keys[DigitKey(d)] == Background {
      assert DigitKey(d) != FKey(hh);
    }
  }

  /** No function key or number-row key is a keypad key. */
  lemma KeypadApart(ks: set<string>)
    requires ks == FKeys() + DigitKeys()
    ensures ks !! KeypadKeys()
  {
    forall k | k in ks ensures k !in KeypadKeys() {
      if k in FKeys() {
        var i: nat :| 1 <= i <= 12 && FKey(i) == k;
        assert k[0] == 'F';
      } else {
        var d: Digit :| DigitKey(d) == k;
        assert |k| == 1;
      }
    }
  }

  /** The first loop: F1..F12 and str(i % 10) for i < 12, all background. */
  method DimRows() returns (keys: map<string, string>)
    ensures keys.Keys == FKeys() + DigitKeys()
    ensures forall k :: k in keys ==> keys[k] == Background
  {
    keys := map[];
    for i := 0 to 12
      invariant forall j: nat :: 1 <= j <= i ==> FKey(j) in keys
      invariant forall d: Digit :: d < i ==> DigitKey(d) in keys
      invariant forall k :: k in keys ==> k in FKeys() || k in DigitKeys()
      invariant forall k :: k in keys ==> keys[k] == Background
    {
      var d: Digit := i % 10;
      assert i < 10 ==> d == i;
      assert FKey(i + 1) in FKeys() && DigitKey(d) in DigitKeys();
      keys := keys[FKey(i + 1) := Background];
      keys := keys[NatToString(d) := Background];
    }
    forall k | k in FKeys() + DigitKeys() ensures k in keys {
      if k in FKeys() {
        var j: nat :| 1 <= j <= 12 && FKey(j) == k;
      } else {
        var d: Digit :| DigitKey(d) == k;
      }
    }
  }

  /** The keypad loop: KP0..KP9 background, every other key kept. */
  method DimKeypad(before: map<string, string>) returns (keys: map<string, string>)
    requires before.Keys !! KeypadKeys()
    ensures keys.Keys == before.Keys + KeypadKeys()
    ensures forall k :: k in before ==> keys[k] == before[k]
    ensures forall k :: k in KeypadKeys() ==> keys[k] == Background
  {
    keys := before;
    for i := 0 to 10
      invariant keys.Keys == before.Keys + (set j: Digit | j < i :: KeypadKey(j))
      invariant forall k :: k in before ==> keys[k] == before[k]
      invariant forall k :: k in keys && k !in before ==> keys[k] == Background
    {
      keys := keys[KeypadKey(i) := Background];
    }
  }

  /**
   * The digit rule on the number row or the keypad, whose ten keys are all
   * background before: the keys of the two characters of str(n).rjust(2, "0")
   * are lit, and no other key changes.
   */
  method MarkDigits(before: map<string, string>, keypad: bool, n: nat) returns (keys: map<string, string>)
    requires n < 100
    requires forall d: Digit :: DigitRowKey(keypad, d) in before && before[DigitRowKey(keypad, d)] == Background
    ensures keys.Keys == before.Keys
    ensures forall d: Digit :: keys[DigitRowKey(keypad, d)] == DigitColour(n, d)
    ensures forall k :: k in before && k !in DigitRow(keypad) ==> keys[k] == before[k]
  {
    var tensKey, unitsKey, repeated := TwoDigitKeys(keypad, n);
    if repeated {
      keys := before[tensKey := ForegroundCombined];
    } else {
      keys := before[tensKey := Foreground];
      keys := keys[unitsKey := ForegroundAlt];
    }
    forall d: Digit ensures keys[DigitRowKey(keypad, d)] == DigitColour(n, d) {
      DigitRowKeyInjective(keypad, d, n / 10);
      DigitRowKeyInjective(keypad, d, n % 10);
    }
    assert tensKey in DigitRow(keypad) && unitsKey in DigitRow(keypad);
  }

  /**
   * The keys named by the two characters of str(n).rjust(2, "0"), and
   * whether the two characters are the same.
   */
  method TwoDigitKeys(keypad: bool, n: nat) returns (tensKey: string, unitsKey: string, repeated: bool)
    requires n < 100
    ensures tensKey == DigitRowKey(keypad, n / 10)
    ensures unitsKey == DigitRowKey(keypad, n % 10)
    ensures repeated <==> n / 10 == n % 10
  {
    var digits := RJust(NatToString(n), 2, '0');
    ghost var t: Digit, u: Digit := n / 10, n % 10;
    TwoDigits(n);
    assert digits[0] == DigitChar(t) && digits[1] == DigitChar(u);
    tensKey := if keypad then "KP" + [digits[0]] else [digits[0]];
    unitsKey := if keypad then "KP" + [digits[1]] else [digits[1]];
    repeated := digits[0] == digits[1];
    SameDigitChar(t, u);
  }

  lemma SameDigitChar(t: Digit, u: Digit)
    ensures DigitChar(t) == DigitChar(u) <==> t == u
  {
  }

  /** The first digit from `from` on whose key in the row has the given colour. */
  function FindDigit(keys: map<string, string>, keypad: bool, colour: string, from: nat): Option<Digit>
    decreases 10 - from
  {
    if from >= 10 then None
    else if DigitRowKey(keypad, from) in keys && keys[DigitRowKey(keypad, from)] == colour then Some(from)
    else FindDigit(keys, keypad, colour, from + 1)
  }

  /**
   * Reads a two-digit number back from a digit row: a combined key d means
   * dd; otherwise the foreground key is the tens digit and the alternate key
   * the units digit.
   */
  function ReadDigits(keys: map<string, string>, keypad: bool): (r: Option<nat>)
    ensures r.Some? ==> r.value < 100
  {
    match FindDigit(keys, keypad, ForegroundCombined, 0)
    case Some(d) => Some(10 * (d as nat) + d)
    case None =>
      match (FindDigit(keys, keypad, Foreground, 0), FindDigit(keys, keypad, ForegroundAlt, 0))
      case (Some(t), Some(u)) => Some(10 * (t as nat) + u)
      case _ => None
  }

  /** Whether the row keys are coloured by the digit rule for n. */
  ghost predicate ShowsDigits(keys: map<string, string>, keypad: bool, n: nat)
    requires n < 100
  {
    forall d: Digit :: DigitRowKey(keypad, d) in keys && keys[DigitRowKey(keypad, d)] == DigitColour(n, d)
  }

  /** The search finds the one digit whose key has the colour, or nothing when no key has it. */
  lemma {:induction false} FindDigitOfRule(keys: map<string, string>, keypad: bool, t: Digit, u: Digit, colour: string, from: nat, only: Option<Digit>)
    requires from <= 10
    requires forall d: Digit :: DigitRowKey(keypad, d) in keys && keys[DigitRowKey(keypad, d)] == PairColour(t, u, d)
    requires forall e: Digit :: PairColour(t, u, e) == colour <==> only == Some(e)
    requires only.Some? ==> from <= only.value
    ensures FindDigit(keys, keypad, colour, from) == only
    decreases 10 - from
  {
    if from < 10 && only != Some(from) {
      FindDigitOfRule(keys, keypad, t, u, colour, from + 1, only);
    }
  }

  /** The four colours of the digit rule are different strings. */
  lemma ColoursDiffer()
    ensures Foreground != ForegroundAlt && Foreground != ForegroundCombined && Foreground != Background
    ensures ForegroundAlt != ForegroundCombined && ForegroundAlt != Background
    ensures ForegroundCombined != Background
  {
    assert Foreground[0] == 'f' && ForegroundAlt[0] == '9' && ForegroundCombined[0] == 'C';
    assert Background[1] == '1' && Foreground[1] == 'f';
  }

  /** What ReadDigits makes of the three searches for a number with tens digit t and units digit u. */
  lemma PairReadBack(keys: map<string, string>, keypad: bool, t: Digit, u: Digit)
    requires FindDigit(keys, keypad, ForegroundCombined, 0) == (if t == u then Some(t) else None)
    requires t != u ==> FindDigit(keys, keypad, Foreground, 0) == Some(t)
    requires t != u ==> FindDigit(keys, keypad, ForegroundAlt, 0) == Some(u)
    ensures ReadDigits(keys, keypad) == Some(10 * (t as nat) + u)
  {
  }

  lemma RepeatedReadBack(keys: map<string, string>, keypad: bool, t: Digit)
    requires forall d: Digit :: DigitRowKey(keypad, d) in keys && keys[DigitRowKey(keypad, d)] == PairColour(t, t, d)
    ensures FindDigit(keys, keypad, ForegroundCombined, 0) == Some(t)
  {
    FindDigitOfRule(keys, keypad, t, t, ForegroundCombined, 0, Some(t));
  }

  lemma DistinctReadBack(keys: map<string, string>, keypad: bool, t: Digit, u: Digit)
    requires t != u
    requires forall d: Digit :: DigitRowKey(keypad, d) in keys && keys[DigitRowKey(keypad, d)] == PairColour(t, u, d)
    ensures FindDigit(keys, keypad, ForegroundCombined, 0) == None
    ensures FindDigit(keys, keypad, Foreground, 0) == Some(t)
    ensures FindDigit(keys, keypad, ForegroundAlt, 0) == Some(u)
  {
    ColoursDiffer();
    FindDigitOfRule(keys, keypad, t, u, ForegroundCombined, 0, None);
    FindDigitOfRule(keys, keypad, t, u, Foreground, 0, Some(t));
    FindDigitOfRule(keys, keypad, t, u, ForegroundAlt, 0, Some(u));
  }

  /** The digit rule can be read back: a row coloured by the rule for n reads as n. */
  lemma DigitsReadBack(keys: map<string, string>, keypad: bool, n: nat)
    requires n < 100
    requires ShowsDigits(keys, keypad, n)
    ensures ReadDigits(keys, keypad) == Some(n)
  {
    var t: Digit, u: Digit := n / 10, n % 10;
    assert forall d: Digit :: DigitColour(n, d) == PairColour(t, u, d);
    if t == u {
      RepeatedReadBack(keys, keypad, t);
    } else {
      DistinctReadBack(keys, keypad, t, u);
    }
    PairReadBack(keys, keypad, t, u);
    assert n == 10 * t + u;
  }

  /** The first function key from Ffrom on that is not background, and whether it has the alternate colour. */
  function FindLitFKey(keys: map<string, string>, from: nat): Option<(nat, bool)>
    decreases 13 - from
  {
    if from > 12 then None
    else if FKey(from) in keys && keys[FKey(from)] != Background then Some((from, keys[FKey(from)] == ForegroundAlt))
    else FindLitFKey(keys, from + 1)
  }

  lemma {:induction false} FindLitFKeyOfFace(keys: map<string, string>, hour: Hour, from: nat)
    requires 1 <= from <= HourSlot(hour)
    requires forall i: nat :: 1 <= i <= 12 ==> FKey(i) in keys && keys[FKey(i)] == (if i == HourSlot(hour) then HourColour(hour) else Background)
    ensures FindLitFKey(keys, from) == Some((HourSlot(hour), hour > 12))
    decreases 13 - from
  {
    if from < HourSlot(hour) {
      FindLitFKeyOfFace(keys, hour, from + 1);
    }
  }

  /**
   * Reading the face back recovers what it shows: the hour's dial key and
   * whether it is past 12 o'clock, the minute, and in second mode the second.
   */
  lemma NumFaceReadBack(keys: map<string, string>, hour: Hour, minute: Sixty, second: Sixty, secondMode: bool)
    requires IsNumFace(keys, hour, minute, second, secondMode)
    ensures FindLitFKey(keys, 1) == Some((HourSlot(hour), hour > 12))
    ensures ReadDigits(keys, false) == Some(minute)
    ensures secondMode ==> ReadDigits(keys, true) == Some(second)
  {
    forall i: nat | 1 <= i <= 12 ensures FKey(i) in keys {
      assert FKey(i) in FKeys();
    }
    FindLitFKeyOfFace(keys, hour, 1);
    forall d: Digit ensures DigitRowKey(false, d) in keys {
      assert DigitKey(d) in DigitKeys();
    }
    DigitsReadBack(keys, false, minute);
    if secondMode {
      forall d: Digit ensures DigitRowKey(true, d) in keys {
        assert KeypadKey(d) in KeypadKeys();
      }
      DigitsReadBack(keys, true, second);
    }
  }

  /** The face is a complete description: two maps that both satisfy it are equal. */
  lemma NumFaceUnique(a: map<string, string>, b: map<string, string>, hour: Hour, minute: Sixty, second: Sixty, secondMode: bool)
    requires IsNumFace(a, hour, minute, second, secondMode)
    requires IsNumFace(b, hour, minute, second, secondMode)
    ensures a == b
  {
    forall k | k in a ensures a[k] == b[k] {
      if k in FKeys() {
        var i: nat :| 1 <= i <= 12 && FKey(i) == k;
      } else if k in DigitKeys() {
        var d: Digit :| DigitKey(d) == k;
      } else {
        var d: Digit :| KeypadKey(d) == k;
      }
    }
  }

  /** At 14:05 F2 is lit in the alternate colour, "0" is foreground and "5" alternate. */
  lemma FaceAt1405(keys: map<string, string>, second: Sixty)
    requires IsNumFace(keys, 14, 5, second, false)
    ensures keys[FKey(2)] == ForegroundAlt
    ensures keys[DigitKey(0)] == Foreground && keys[DigitKey(5)] == ForegroundAlt
    ensures forall d: Digit :: d != 0 && d != 5 ==> keys[DigitKey(d)] == Background
  {
    assert HourSlot(14) == 2;
    assert DigitColour(5, 0) == Foreground && DigitColour(5, 5) == ForegroundAlt;
  }

  /** Midnight and noon give the same face: both light F12 in the foreground colour. */
  lemma MidnightLooksLikeNoon(a: map<string, string>, b: map<string, string>, minute: Sixty, second: Sixty, secondMode: bool)
    requires IsNumFace(a, 0, minute, second, secondMode)
    requires IsNumFace(b, 12, minute, second, secondMode)
    ensures a == b
  {
    assert HourSlot(0) == HourSlot(12) && HourColour(0) == HourColour(12);
    assert IsNumFace(a, 12, minute, second, secondMode);
    NumFaceUnique(a, b, 12, minute, second, secondMode);
  }
}
