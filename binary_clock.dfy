/**
 * The binary clock face (mod_binary_time). In normal mode the number-row keys
 * other than the separator "6" show the hour as 5 bits followed by the minute
 * as 6 bits, most significant bit first; in second mode the row is extended by
 * GRAVE on the left, shows the minute and the second as 6 bits each, and the
 * function-key row lights the key of the hour on a 12-hour dial.
 */
module BinaryClock {
  import opened Palette

  const SeparatorKey: string := "6"
  const NumberRow: seq<string> := ["1", "2", "3", "4", "5", "6", "7", "8", "9", "0", "MINUS", "EQUAL"]
  const SecondsKey: string := "GRAVE"

  /** Position of the first occurrence of x in s. */
  function IndexOf(s: seq<string>, x: string): (i: nat)
    requires x in s
    ensures i < |s| && s[i] == x && x !in s[..i]
  {
    if s[0] == x then 0 else 1 + IndexOf(s[1..], x)
  }

  /** Python's list.remove(x): drop the first occurrence of x. */
  function RemoveFirst(s: seq<string>, x: string): (r: seq<string>)
    requires x in s
    ensures |r| == |s| - 1
    ensures r == s[..IndexOf(s, x)] + s[IndexOf(s, x) + 1..]
  {
    var i := IndexOf(s, x);
    s[..i] + s[i + 1..]
  }

  /** The number row without the separator key. */
  const BitRow: seq<string> := ["1", "2", "3", "4", "5", "7", "8", "9", "0", "MINUS", "EQUAL"]

  /** The keys that carry bits, most significant first. */
  function RowKeys(secondMode: bool): seq<string>
  {
    if secondMode then [SecondsKey] + BitRow else BitRow
  }

  /** An index of x with no earlier occurrence is the one IndexOf finds. */
  lemma IndexOfAt(s: seq<string>, x: string, i: nat)
    requires i < |s| && s[i] == x
    requires forall j :: 0 <= j < i ==> s[j] != x
    ensures IndexOf(s, x) == i
  {
    var k := IndexOf(s, x);
    assert k <= i;
  }

  /** key_set.remove("6") on the number row leaves the bit row. */
  lemma RemoveSeparator()
    ensures RemoveFirst(NumberRow, SeparatorKey) == BitRow
  {
    IndexOfAt(NumberRow, SeparatorKey, 5);
    assert NumberRow[..5] + NumberRow[6..] == BitRow;
  }

  predicate DistinctKeys(s: seq<string>)
  {
    forall i, j :: 0 <= i < j < |s| ==> s[i] != s[j]
  }

  lemma BitRowDistinct()
    ensures DistinctKeys(BitRow)
  {
  }

  lemma BitRowNames()
    ensures SecondsKey !in BitRow && SeparatorKey !in BitRow
    ensures forall k :: k in BitRow ==> |k| >= 1 && k[0] != 'F'
  {
  }

  lemma DistinctCons(x: string, s: seq<string>)
    requires x !in s && DistinctKeys(s)
    ensures DistinctKeys([x] + s)
  {
    forall i, j | 0 <= i < j < |[x] + s|
      ensures ([x] + s)[i] != ([x] + s)[j]
    {
      assert ([x] + s)[j] == s[j - 1];
      if i > 0 {
        assert ([x] + s)[i] == s[i - 1];
      }
    }
  }

  /** No key of the row is repeated, none is the separator, none is a function key. */
  lemma RowKeysDistinct(secondMode: bool)
    ensures DistinctKeys(RowKeys(secondMode))
    ensures SeparatorKey !in RowKeys(secondMode)
    ensures forall k :: k in RowKeys(secondMode) ==> |k| >= 1 && k[0] != 'F'
  {
    BitRowDistinct();
    BitRowNames();
    if secondMode {
      DistinctCons(SecondsKey, BitRow);
    }
  }

  function BitChar(b: nat): char
    requires b < 2
  {
    if b == 1 then '1' else '0'
  }

  /** format(n, "b"): the binary digits of n without leading zeros ("0" for zero). */
  function Binary(n: nat): (s: string)
    ensures 1 <= |s|
    ensures forall i :: 0 <= i < |s| ==> s[i] == '0' || s[i] == '1'
    decreases n
  {
    if n < 2 then [BitChar(n)] else Binary(n / 2) + [BitChar(n % 2)]
  }

  /** The value of a string of binary digits, most significant first; '1' counts as one, anything else as zero. */
  function FromBinary(s: string): nat
  {
    if s == [] then 0 else 2 * FromBinary(s[..|s| - 1]) + (if s[|s| - 1] == '1' then 1 else 0)
  }

  function Pow2(w: nat): (p: nat)
    ensures p >= 1
  {
    if w == 0 then 1 else 2 * Pow2(w - 1)
  }

  lemma {:induction false} FromBinaryOfBinary(n: nat)
    ensures FromBinary(Binary(n)) == n
    decreases n
  {
    if n >= 2 {
      var s := Binary(n);
      assert s[..|s| - 1] == Binary(n / 2);
      FromBinaryOfBinary(n / 2);
    }
  }

  lemma {:induction false} BinaryFits(n: nat, w: nat)
    requires 1 <= w && n < Pow2(w)
    ensures |Binary(n)| <= w
    decreases n
  {
    if n >= 2 {
      BinaryFits(n / 2, w - 1);
    }
  }

  /** Leading '0' digits do not change the value. */
  lemma {:induction false} FromBinaryLeadingZeros(z: nat, s: string)
    ensures FromBinary(seq(z, _ => '0') + s) == FromBinary(s)
    decreases |s|, z
  {
    var zs: string := seq(z, _ => '0');
    if s == [] {
      if z > 0 {
        var t := zs + s;
        assert t[..|t| - 1] == seq(z - 1, _ => '0') + [];
        FromBinaryLeadingZeros(z - 1, []);
      }
    } else {
      var t := zs + s;
      assert t[..|t| - 1] == zs + s[..|s| - 1];
      FromBinaryLeadingZeros(z, s[..|s| - 1]);
    }
  }

  /** format(n, "b").rjust(w, "0"). */
  function Bits(n: nat, w: nat): (b: string)
    ensures |b| >= w && |b| >= 1
    ensures forall i :: 0 <= i < |b| ==> b[i] == '0' || b[i] == '1'
  {
    RJust(Binary(n), w, '0')
  }

  /** A number below 2^w is written in exactly w binary digits, and reading them back gives the number. */
  lemma BitsRoundTrip(n: nat, w: nat)
    requires 1 <= w && n < Pow2(w)
    ensures |Bits(n, w)| == w
    ensures forall i :: 0 <= i < w ==> Bits(n, w)[i] == '0' || Bits(n, w)[i] == '1'
    ensures FromBinary(Bits(n, w)) == n
  {
    var b := Binary(n);
    BinaryFits(n, w);
    var zs: string := seq(w - |b|, _ => '0');
    assert Bits(n, w) == zs + b by {
      if |b| == w {
        assert zs == [];
      }
    }
    forall i | 0 <= i < w
      ensures (zs + b)[i] == '0' || (zs + b)[i] == '1'
    {
      if i >= |zs| {
        assert (zs + b)[i] == b[i - |zs|];
      }
    }
    FromBinaryLeadingZeros(w - |b|, b);
    FromBinaryOfBinary(n);
  }

  /** The string of bits the face shows: hour+minute, or minute+second in second mode. */
  function Render(hour: Hour, minute: Sixty, second: Sixty, secondMode: bool): (r: string)
    ensures forall i :: 0 <= i < |r| ==> r[i] == '0' || r[i] == '1'
  {
    if secondMode then Bits(minute, 6) + Bits(second, 6) else Bits(hour, 5) + Bits(minute, 6)
  }

  lemma RenderShape(hour: Hour, minute: Sixty, second: Sixty, secondMode: bool)
    ensures |Render(hour, minute, second, secondMode)| == |RowKeys(secondMode)|
    ensures secondMode ==> Render(hour, minute, second, secondMode)[..6] == Bits(minute, 6)
    ensures secondMode ==> Render(hour, minute, second, secondMode)[6..] == Bits(second, 6)
    ensures !secondMode ==> Render(hour, minute, second, secondMode)[..5] == Bits(hour, 5)
    ensures !secondMode ==> Render(hour, minute, second, secondMode)[5..] == Bits(minute, 6)
  {
    assert Pow2(5) == 32 && Pow2(6) == 64;
    BitsRoundTrip(hour, 5);
    BitsRoundTrip(minute, 6);
    BitsRoundTrip(second, 6);
  }

  function BitColour(c: char): string
  {
    if c == '1' then Foreground else Background
  }

  /** Reads a row of keys back as a binary number: a foreground key is a one, any other key a zero. */
  function ReadNumber(keys: map<string, string>, ks: seq<string>): nat
  {
    if ks == [] then 0
    else
      var last := ks[|ks| - 1];
      2 * ReadNumber(keys, ks[..|ks| - 1]) + (if last in keys && keys[last] == Foreground then 1 else 0)
  }

  lemma {:induction false} ReadNumberOfBits(keys: map<string, string>, ks: seq<string>, bits: string)
    requires |ks| == |bits|
    requires forall i :: 0 <= i < |ks| ==> ks[i] in keys && keys[ks[i]] == BitColour(bits[i])
    ensures ReadNumber(keys, ks) == FromBinary(bits)
    decreases |ks|
  {
    if ks != [] {
      ReadNumberOfBits(keys, ks[..|ks| - 1], bits[..|bits| - 1]);
    }
  }

  /**
   * A face drawn from a row of keys and a string of bits: exactly the row
   * keys, the separator and (in second mode) F1..F12; each row key is
   * foreground for a one bit and background for a zero bit; the separator
   * has the separator colour; in second mode the F key of the hour is
   * foreground and the other eleven are background.
   */
  ghost predicate IsFace(keys: map<string, string>, row: seq<string>, bits: string, secondMode: bool, hour: Hour)
  {
    && keys.Keys == (set k | k in row) + {SeparatorKey} + (if secondMode then FKeys() else {})
    && |bits| == |row|
    && (forall i :: 0 <= i < |row| ==> keys[row[i]] == BitColour(bits[i]))
    && keys[SeparatorKey] == Separator
    && (secondMode ==> forall i: nat :: 1 <= i <= 12 ==> keys[FKey(i)] == (if i == HourSlot(hour) then Foreground else Background))
  }

  /** What mod_binary_time returns: the face of its row keys and its rendered bits. */
  ghost predicate IsBinaryFace(keys: map<string, string>, hour: Hour, minute: Sixty, second: Sixty, secondMode: bool)
  {
    IsFace(keys, RowKeys(secondMode), Render(hour, minute, second, secondMode), secondMode, hour)
  }

  method BinaryTime(hour: Hour, minute: Sixty, second: Sixty, secondMode: bool) returns (keys: map<string, string>)
    ensures IsBinaryFace(keys, hour, minute, second, secondMode)
  {
    var keySet := RemoveFirst(NumberRow, SeparatorKey);
    RemoveSeparator();
    if secondMode {
      keySet := [SecondsKey] + keySet;
    }
    var hourBits := Bits(hour, 5);
    var minuteBits := Bits(minute, 6);
    var secondBits := Bits(second, 6);
    var renderStr := if secondMode then minuteBits + secondBits else hourBits + minuteBits;
    RenderShape(hour, minute, second, secondMode);
    RowKeysDistinct(secondMode);
    keys := PaintFace(keySet, renderStr, secondMode, hour);
  }

  /** The body of mod_binary_time once the row and the bits are known. */
  method PaintFace(row: seq<string>, bits: string, secondMode: bool, hour: Hour) returns (keys: map<string, string>)
    requires |row| == |bits| && DistinctKeys(row) && SeparatorKey !in row
    requires forall k :: k in row ==> |k| >= 1 && k[0] != 'F'
    ensures IsFace(keys, row, bits, secondMode, hour)
  {
    keys := PaintBits(row, bits);
    keys := keys[SeparatorKey := Separator];
    if secondMode {
      keys := LightHour(keys, hour);
    }
  }

  /** The enumerate loop: key i of the row gets the colour of bit i. */
  method PaintBits(row: seq<string>, bits: string) returns (keys: map<string, string>)
    requires |row| == |bits| && DistinctKeys(row)
    ensures keys.Keys == set k | k in row
    ensures forall i :: 0 <= i < |row| ==> keys[row[i]] == BitColour(bits[i])
  {
    keys := map[];
    var index := 0;
    while index < |bits|
      invariant 0 <= index <= |bits|
      invariant keys.Keys == set j | 0 <= j < index :: row[j]
      invariant forall j :: 0 <= j < index ==> keys[row[j]] == BitColour(bits[j])
    {
      if bits[index] == '1' {
        keys := keys[row[index] := Foreground];
      } else {
        keys := keys[row[index] := Background];
      }
      index := index + 1;
    }
    assert (set j | 0 <= j < |row| :: row[j]) == (set k | k in row) by {
      forall k | k in row ensures k in (set j | 0 <= j < |row| :: row[j]) {
        var j :| 0 <= j < |row| && row[j] == k;
      }
    }
  }

  /** The second-mode loop over F1..F12: every function key background. */
  method DimFKeys(before: map<string, string>) returns (keys: map<string, string>)
    requires forall k :: k in before ==> |k| >= 1 && k[0] != 'F'
    ensures keys.Keys == before.Keys + FKeys()
    ensures forall k :: k in before ==> keys[k] == before[k]
    ensures forall k :: k in keys && k !in before ==> keys[k] == Background
  {
    keys := before;
    for i := 0 to 12
      invariant forall j: nat :: 1 <= j <= i ==> FKey(j) in keys
      invariant forall k :: k in keys ==> k in before || k in FKeys()
      invariant forall k :: k in before ==> k in keys && keys[k] == before[k]
      invariant forall k :: k in keys && k !in before ==> keys[k] == Background
    {
      assert FKey(i + 1) in FKeys() && FKey(i + 1) !in before;
      keys := keys[FKey(i + 1) := Background];
    }
    forall k | k in FKeys() ensures k in keys {
      var j: nat :| 1 <= j <= 12 && FKey(j) == k;
    }
  }

  /** The second-mode F-key block: all background, then the hour's key foreground. */
  method LightHour(before: map<string, string>, hour: Hour) returns (keys: map<string, string>)
    requires forall k :: k in before ==> |k| >= 1 && k[0] != 'F'
    ensures keys.Keys == before.Keys + FKeys()
    ensures forall k :: k in before ==> keys[k] == before[k]
    ensures forall i: nat :: 1 <= i <= 12 ==> keys[FKey(i)] == (if i == HourSlot(hour) then Foreground else Background)
  {
    var hh := hour % 12;
    if hh == 0 {
      hh := 12;
    }
    assert hh == HourSlot(hour);
    keys := DimFKeys(before);
    keys := keys[FKey(hh) := Foreground];
    forall j: nat | 1 <= j <= 12 && j != hh ensures keys[FKey(j)] == Background {
      FKeyDistinct(j, hh);
      assert FKey(j) in FKeys() && FKey(j) !in before;
    }
    forall k | k in before ensures keys[k] == before[k] {
      assert k != FKey(hh);
    }
  }

  /**
   * Reading the face back recovers the time it shows: the hour and the minute
   * in normal mode, the minute and the second in second mode.
   */
  lemma BinaryFaceReadBack(keys: map<string, string>, hour: Hour, minute: Sixty, second: Sixty, secondMode: bool)
    requires IsBinaryFace(keys, hour, minute, second, secondMode)
    ensures !secondMode ==> ReadNumber(keys, RowKeys(false)[..5]) == hour && ReadNumber(keys, RowKeys(false)[5..]) == minute
    ensures secondMode ==> ReadNumber(keys, RowKeys(true)[..6]) == minute && ReadNumber(keys, RowKeys(true)[6..]) == second
  {
    var row := RowKeys(secondMode);
    var bits := Render(hour, minute, second, secondMode);
    RenderShape(hour, minute, second, secondMode);
    assert Pow2(5) == 32 && Pow2(6) == 64;
    var cut := if secondMode then 6 else 5;
    ReadNumberOfBits(keys, row[..cut], bits[..cut]);
    ReadNumberOfBits(keys, row[cut..], bits[cut..]);
    if secondMode {
      BitsRoundTrip(minute, 6);
      BitsRoundTrip(second, 6);
    } else {
      BitsRoundTrip(hour, 5);
      BitsRoundTrip(minute, 6);
    }
  }

  /** The face is a complete description: two maps that both satisfy it are equal. */
  lemma BinaryFaceUnique(a: map<string, string>, b: map<string, string>, hour: Hour, minute: Sixty, second: Sixty, secondMode: bool)
    requires IsBinaryFace(a, hour, minute, second, secondMode)
    requires IsBinaryFace(b, hour, minute, second, secondMode)
    ensures a == b
  {
    var row := RowKeys(secondMode);
    forall k | k in a ensures a[k] == b[k] {
      if k in row {
        var i :| 0 <= i < |row| && row[i] == k;
      } else if k != SeparatorKey {
        assert secondMode && k in FKeys();
        var i: nat :| 1 <= i <= 12 && FKey(i) == k;
      }
    }
  }
}
