/** The hexadecimal helpers of the mango client, and the proof that reading back a
    written number gives the number. */
module HexText {
  import opened Bytes

  const TWO32 := 0x1_0000_0000

  /** Byte i of a NUL-terminated text. */
  function At(s: bytes, i: nat): byte {
    if i < |s| then s[i] else 0
  }

  predicate IsHex(c: byte) {
    47 < c < 58 || 64 < c < 71 || 96 < c < 103
  }

  function DigitValue(c: byte): nat
    requires IsHex(c)
  {
    if c < 58 then c - 48 else if c < 71 then c - 65 + 10 else c - 97 + 10
  }

  function Digit(d: nat): (c: byte)
    requires d < 16
    ensures IsHex(c) && DigitValue(c) == d && c != 0 && c != 10 && c != 13
    ensures c == 48 <==> d == 0
  {
    if d <= 9 then 48 + d else 65 - 10 + d
  }

  // ---------------------------------------------------------------- writing

  /** The digits of a number, the last one lowest; nothing for 0. */
  function Hex(n: nat): (s: bytes)
    ensures n > 0 ==> s != [] && s[0] != 48
    ensures forall i :: 0 <= i < |s| ==> IsHex(s[i])
    decreases n
  {
    if n == 0 then [] else Hex(n / 16) + [Digit(n % 16)]
  }

  lemma {:induction false} HexLength(n: nat, k: nat)
    requires n < Pow16(k)
    ensures |Hex(n)| <= k
    decreases n
  {
    if n > 0 && k > 0 {
      HexLength(n / 16, k - 1);
    }
  }

  function Pow16(k: nat): nat {
    if k == 0 then 1 else 16 * Pow16(k - 1)
  }

  lemma Pow16Of8()
    ensures Pow16(8) == TWO32
  {
    assert Pow16(4) == 65536;
    assert Pow16(8) == 16 * (16 * (16 * (16 * Pow16(4))));
  }

  /** The value of the first i of eight nibbles. */
  function Value(nibbles: seq<nat>): nat {
    if nibbles == [] then 0 else 16 * Value(nibbles[..|nibbles| - 1]) + nibbles[|nibbles| - 1]
  }

  function Nibbles(dec: nat, k: nat): (r: seq<nat>)
    ensures |r| == k
    ensures forall i :: 0 <= i < k ==> r[i] < 16
  {
    if k == 0 then [] else Nibbles(dec / 16, k - 1) + [dec % 16]
  }

  function Digits(ns: seq<nat>): (s: bytes)
    requires forall i :: 0 <= i < |ns| ==> ns[i] < 16
    ensures |s| == |ns|
  {
    seq(|ns|, i requires 0 <= i < |ns| => Digit(ns[i]))
  }

  /** Without its leading zeros, the row of nibbles is the number. */
  lemma {:induction false} NibblesAreHex(dec: nat, k: nat, z: nat)
    requires dec < Pow16(k) && z <= k
    requires forall i :: 0 <= i < z ==> Nibbles(dec, k)[i] == 0
    requires z < k ==> Nibbles(dec, k)[z] != 0
    ensures Digits(Nibbles(dec, k)[z..]) == Hex(dec)
    decreases k
  {
    if k > 0 {
      var hi := Nibbles(dec / 16, k - 1);
      assert Nibbles(dec, k) == hi + [dec % 16];
      if z < k {
        assert z < k - 1 ==> hi[z] != 0;
        assert forall i :: 0 <= i < z ==> hi[i] == Nibbles(dec, k)[i];
        NibblesAreHex(dec / 16, k - 1, z);
        assert Nibbles(dec, k)[z..] == hi[z..] + [dec % 16];
        assert Digits(hi[z..] + [dec % 16]) == Digits(hi[z..]) + [Digit(dec % 16)];
        NonZero(dec, k, z);
      } else {
        AllZero(dec, k);
        assert Nibbles(dec, k)[z..] == [];
      }
    } else {
      assert Nibbles(dec, k)[z..] == [];
    }
  }

  lemma {:induction false} AllZero(dec: nat, k: nat)
    requires dec < Pow16(k)
    requires forall i :: 0 <= i < k ==> Nibbles(dec, k)[i] == 0
    ensures dec == 0
  {
    if k > 0 {
      var hi := Nibbles(dec / 16, k - 1);
      assert Nibbles(dec, k) == hi + [dec % 16];
      assert Nibbles(dec, k)[k - 1] == dec % 16;
      forall i | 0 <= i < |hi|
        ensures hi[i] == 0
      {
        assert hi[i] == Nibbles(dec, k)[i];
      }
      AllZero(dec / 16, k - 1);
    }
  }

  lemma {:induction false} NonZero(dec: nat, k: nat, z: nat)
    requires z < k && Nibbles(dec, k)[z] != 0
    ensures dec != 0
    decreases k
  {
    assert Nibbles(dec, k) == Nibbles(dec / 16, k - 1) + [dec % 16];
    if z < k - 1 {
      NonZero(dec / 16, k - 1, z);
    }
  }

  /** The scan for the first digit ends inside the eight nibbles if and only if the number is not zero. */
  lemma ScanEnds(dec: nat)
    requires dec < TWO32
    ensures (exists z :: 0 <= z < 8 && Nibbles(dec, 8)[z] != 0) <==> dec != 0
  {
    Pow16Of8();
    if z :| 0 <= z < 8 && Nibbles(dec, 8)[z] != 0 {
      NonZero(dec, 8, z);
    } else {
      AllZero(dec, 8);
    }
  }

  /** The eight nibbles, filled from the lowest. */
  method FillNibbles(dec: nat) returns (hex: array<nat>)
    ensures fresh(hex) && hex.Length == 8 && hex[..] == Nibbles(dec, 8)
  {
    hex := new nat[8];
    var d, i := dec, 8;
    while i > 0
      invariant 0 <= i <= 8
      invariant Nibbles(dec, 8) == Nibbles(d, i) + hex[i..]
    {
      i := i - 1;
      ghost var tail := hex[i + 1..];
      hex[i] := d % 16;
      d := d / 16;
      assert hex[i..] == [hex[i]] + tail;
    }
    assert hex[..] == hex[0..];
  }

  /** mangoHelper_dec2hexstr: eight nibbles and a NUL, leading zeros dropped. For zero the text is written, but the
      scan for the first digit goes on over the NUL and out of the buffer. */
  method Dec2HexStr(dec: nat, hexbuf: array<byte>) returns (ends: bool, len: nat)
    requires dec < TWO32 && hexbuf.Length >= 9
    modifies hexbuf
    ensures ends <==> dec != 0
    ensures ends ==> 1 <= len <= 8 && hexbuf[..len] == Hex(dec) && hexbuf[len] == 0
    ensures !ends ==> hexbuf[..2] == [48, 0]
  {
    if dec == 0 {
      hexbuf[0], hexbuf[1] := 48, 0;
    }
    var hex := FillNibbles(dec);
    ghost var ns := Nibbles(dec, 8);
    var i: nat := 0;
    while i < 8 && hex[i] == 0
      invariant 0 <= i <= 8
      invariant forall j :: 0 <= j < i ==> ns[j] == 0
    {
      i := i + 1;
    }
    ScanEnds(dec);
    if i == 8 {
      return false, 0;
    }
    Pow16Of8();
    NibblesAreHex(dec, 8, i);
    len := PutDigits(hex, i, hexbuf);
    hexbuf[len] := 0;
    ends := true;
  }

  method PutDigits(hex: array<nat>, z: nat, hexbuf: array<byte>) returns (len: nat)
    requires hex.Length == 8 && z <= 8 && hexbuf.Length >= 9
    requires forall i :: 0 <= i < 8 ==> hex[i] < 16
    modifies hexbuf
    ensures len == 8 - z && hexbuf[..len] == Digits(hex[..][z..])
  {
    ghost var ns := hex[..];
    var i := z;
    len := 0;
    while i < 8
      invariant z <= i <= 8 && len == i - z
      invariant hexbuf[..len] == Digits(ns[z..i])
    {
      hexbuf[len] := Digit(hex[i]);
      assert ns[z..i + 1] == ns[z..i] + [ns[i]];
      assert hexbuf[..len + 1] == Digits(ns[z..i + 1]);
      i, len := i + 1, len + 1;
    }
    assert ns[z..8] == ns[z..];
  }

  // ---------------------------------------------------------------- reading

  datatype Number = Bad | Number(n: nat)

  /** The digit loop of mangoHelper_hexstr2dec from byte i, with k digits and the sum `dec` so far. */
  function ReadDigits(s: bytes, i: nat, k: nat, dec: nat): Number
    decreases |s| - i
  {
    if !IsHex(At(s, i)) then if k == 0 then Bad else Number(dec)
    else if k + 1 == 9 then Bad
    else
      var sum := (dec + DigitValue(s[i])) % TWO32;
      ReadDigits(s, i + 1, k + 1, if IsHex(At(s, i + 1)) then sum * 16 % TWO32 else sum)
  }

  function ReadHex(s: bytes): Number {
    ReadDigits(s, if At(s, 0) == 48 && At(s, 1) in {120, 88} then 2 else 0, 0, 0)
  }

  /** mangoHelper_hexstr2dec */
  method HexStr2Dec(s: bytes) returns (r: Number)
    ensures r == ReadHex(s)
  {
    var p: nat := 0;
    if At(s, 0) == 48 && (At(s, 1) == 120 || At(s, 1) == 88) {
      p := 2;
    }
    var dec: nat, i: nat := 0, 0;
    while At(s, p) != 0
      invariant ReadDigits(s, p, i, dec) == ReadHex(s)
      decreases |s| - p
    {
      if !IsHex(At(s, p)) {
        break;
      }
      dec := (dec + DigitValue(At(s, p))) % TWO32;
      p := p + 1;
      if IsHex(At(s, p)) {
        dec := dec * 16 % TWO32;
      }
      i := i + 1;
      if i == 9 {
        return Bad;
      }
    }
    r := if i == 0 then Bad else Number(dec);
  }

  lemma ReadOne(s: bytes, i: nat, k: nat, dec: nat, sum: nat)
    requires i < |s| && IsHex(s[i]) && k < 8 && sum == dec + DigitValue(s[i]) < TWO32
    requires IsHex(At(s, i + 1)) ==> 16 * sum < TWO32
    ensures ReadDigits(s, i, k, dec) == ReadDigits(s, i + 1, k + 1, if IsHex(At(s, i + 1)) then 16 * sum else sum)
  {
    hide DigitValue, IsHex;
    assert sum % TWO32 == sum;
    if IsHex(At(s, i + 1)) {
      assert sum * 16 % TWO32 == 16 * sum;
    }
  }

  /** Reading on from digit i of a number, the earlier digits already in `dec`. */
  lemma {:induction false} ReadSuffix(n: nat, rest: bytes, i: nat, dec: nat)
    requires 0 < n < TWO32 && !IsHex(At(rest, 0)) && i < |Hex(n)| <= 8
    requires dec == 16 * Prefix(n, |Hex(n)| - i)
    ensures ReadDigits(Hex(n) + rest, i, i, dec) == Number(n)
    decreases |Hex(n)| - i
  {
    var s, j := Hex(n) + rest, |Hex(n)| - i;
    PrefixStep(n, j);
    assert s[i] == Hex(n)[i];
    assert At(s, i + 1) == if j > 1 then Hex(n)[i + 1] else At(rest, 0);
    if j > 1 {
      PrefixStep(n, j - 1);
      ReadSuffix(n, rest, i + 1, 16 * Prefix(n, j - 1));
    } else {
      assert Prefix(n, 0) == n;
    }
    hide Hex, DigitValue, IsHex;
    ReadOne(s, i, i, dec, Prefix(n, j - 1));
  }

  /** n without its last j hexadecimal digits. */
  function Prefix(n: nat, j: nat): (r: nat)
    ensures r <= n
  {
    if j == 0 then n else Prefix(n / 16, j - 1)
  }

  lemma {:induction false} PrefixStep(n: nat, j: nat)
    requires 1 <= j <= |Hex(n)|
    ensures Prefix(n, j - 1) == 16 * Prefix(n, j) + DigitValue(Hex(n)[|Hex(n)| - j])
    decreases j
  {
    assert Hex(n) == Hex(n / 16) + [Digit(n % 16)];
    if j > 1 {
      PrefixStep(n / 16, j - 1);
    }
  }

  lemma {:induction false} PrefixAll(n: nat)
    ensures Prefix(n, |Hex(n)|) == 0
    decreases n
  {
    if n > 0 {
      PrefixAll(n / 16);
    }
  }

  /** Reading a written number back, whatever non-digit follows it. */
  lemma HexInverse(n: nat, rest: bytes)
    requires 0 < n < TWO32 && !IsHex(At(rest, 0)) && At(rest, 0) !in {120, 88}
    ensures |Hex(n)| <= 8 && ReadHex(Hex(n) + rest) == Number(n)
  {
    Pow16Of8();
    HexLength(n, 8);
    PrefixAll(n);
    ReadSuffix(n, rest, 0, 0);
  }
}
