/** JSON strings of cJSON: escaping, the decoding that undoes it, and the loops that do both. */
module JsonStrings {
  import opened Bytes
  import opened HexText
  import opened Wrappers

  const QUOTE: byte := 34
  const BACKSLASH: byte := 92

  /** C string contents */
  predicate NulFree(s: bytes) {
    forall i :: 0 <= i < |s| ==> s[i] != 0
  }

  // ---------------------------------------------------------------- writing

  /** A byte written as itself */
  predicate Plain(b: byte) {
    b > 31 && b != QUOTE && b != BACKSLASH
  }

  /** The letter of a two-character escape, or 0. */
  function Letter(b: byte): byte {
    if b == BACKSLASH then BACKSLASH else if b == QUOTE then QUOTE
    else if b == 8 then 98 else if b == 12 then 102 else if b == 10 then 110 else if b == 13 then 114
    else if b == 9 then 116 else 0
  }

  /** A hexadecimal digit as "%x" writes it. */
  function LowDigit(d: nat): (c: byte)
    requires d < 16
    ensures IsHex(c) && DigitValue(c) == d
  {
    if d <= 9 then 48 + d else 97 - 10 + d
  }

  function EscapeOne(b: byte): bytes {
    if Plain(b) then [b]
    else if Letter(b) != 0 then [BACKSLASH, Letter(b)]
    else [BACKSLASH, 117, 48, 48, LowDigit(b as int / 16), LowDigit(b as int % 16)]
  }

  function Escape(s: bytes): bytes {
    if s == [] then [] else EscapeOne(s[0]) + Escape(s[1..])
  }

  function Quote(s: bytes): bytes {
    [QUOTE] + Escape(s) + [QUOTE]
  }

  // ---------------------------------------------------------------- reading

  /** parse_hex4 of the text at position i: 0 unless four hexadecimal digits are there. */
  function Hex4(s: bytes, i: nat): (h: nat)
    ensures h < 0x1_0000
  {
    if IsHex(At(s, i)) && IsHex(At(s, i + 1)) && IsHex(At(s, i + 2)) && IsHex(At(s, i + 3)) then
      DigitValue(At(s, i)) * 4096 + DigitValue(At(s, i + 1)) * 256
      + DigitValue(At(s, i + 2)) * 16 + DigitValue(At(s, i + 3))
    else 0
  }

  /** A code point in UTF-8 */
  function Utf8(uc: nat): bytes
    requires uc < 0x11_0000
  {
    if uc < 0x80 then [uc]
    else if uc < 0x800 then [0xC0 + uc / 64, 0x80 + uc % 64]
    else if uc < 0x1_0000 then [0xE0 + uc / 4096, 0x80 + uc / 64 % 64, 0x80 + uc % 64]
    else [0xF0 + uc / 262144, 0x80 + uc / 4096 % 64, 0x80 + uc / 64 % 64, 0x80 + uc % 64]
  }

  /** What an escape sequence stands for, and how long it is. CutOff where it runs over the end of the text. */
  datatype Escaped = CutOff | Decoded(out: bytes, len: nat)

  function UnicodeEscape(s: bytes, i: nat): (e: Escaped)
    requires i + 2 <= |s|
    ensures e.Decoded? ==> 2 <= e.len && i + e.len <= |s|
  {
    if i + 6 > |s| then CutOff
    else
      var uc := Hex4(s, i + 2);
      if 0xDC00 <= uc <= 0xDFFF || uc == 0 then Decoded([], 6)
      else if 0xD800 <= uc <= 0xDBFF then
        if At(s, i + 6) != BACKSLASH || At(s, i + 7) != 117 then Decoded([], 6)
        else if i + 12 > |s| then CutOff
        else
          var uc2 := Hex4(s, i + 8);
          if uc2 < 0xDC00 || uc2 > 0xDFFF then Decoded([], 12)
          else Decoded(Utf8(0x1_0000 + uc % 1024 * 1024 + uc2 % 1024), 12)
      else Decoded(Utf8(uc), 6)
  }

  /** The escape sequence at a backslash. */
  function EscapeAt(s: bytes, i: nat): (e: Escaped)
    requires i < |s|
    ensures e.Decoded? ==> 2 <= e.len && i + e.len <= |s|
  {
    if i + 2 > |s| then CutOff
    else
      var c := s[i + 1];
      if c == 117 then UnicodeEscape(s, i)
      else
        Decoded([if c == 98 then 8 else if c == 102 then 12 else if c == 110 then 10 else if c == 114 then 13
                 else if c == 116 then 9 else c], 2)
  }

  datatype Read = Overrun | Read(value: bytes, end: nat)

  /** The string from position i, behind its opening quote: its bytes, and where the text goes on. A text
      that ends before the closing quote ends the string. */
  function ReadFrom(s: bytes, i: nat): (r: Read)
    requires i <= |s|
    ensures r.Read? ==> i <= r.end <= |s|
    decreases |s| - i
  {
    if i == |s| then Read([], i)
    else if s[i] == QUOTE then Read([], i + 1)
    else if s[i] != BACKSLASH then Prepend([s[i]], ReadFrom(s, i + 1))
    else
      match EscapeAt(s, i)
      case CutOff => Overrun
      case Decoded(out, len) => Prepend(out, ReadFrom(s, i + len))
  }

  function Prepend(b: bytes, r: Read): Read {
    match r
    case Overrun => Overrun
    case Read(v, end) => Read(b + v, end)
  }

  // ---------------------------------------------------------------- what escapes stand for

  predicate Tail(b: byte) {
    0x80 <= b <= 0xBF
  }

  /** The code point at the head of a text in UTF-8 (sections 3 and 4 of RFC 3629), and what is behind it. */
  function DecodeUtf8(s: bytes): Option<(nat, bytes)> {
    if s == [] then None
    else if s[0] <= 0x7F then Some((s[0], s[1..]))
    else if 0xC2 <= s[0] <= 0xDF && |s| >= 2 && Tail(s[1]) then
      Some(((s[0] as int - 0xC0) * 0x40 + (s[1] as int - 0x80), s[2..]))
    else if 0xE0 <= s[0] <= 0xEF && |s| >= 3 && Tail(s[1]) && Tail(s[2])
            && (s[0] == 0xE0 ==> s[1] >= 0xA0) && (s[0] == 0xED ==> s[1] <= 0x9F) then
      Some(((s[0] as int - 0xE0) * 0x1000 + (s[1] as int - 0x80) * 0x40 + (s[2] as int - 0x80), s[3..]))
    else if 0xF0 <= s[0] <= 0xF4 && |s| >= 4 && Tail(s[1]) && Tail(s[2]) && Tail(s[3])
            && (s[0] == 0xF0 ==> s[1] >= 0x90) && (s[0] == 0xF4 ==> s[1] <= 0x8F) then
      Some(((s[0] as int - 0xF0) * 0x4_0000 + (s[1] as int - 0x80) * 0x1000 + (s[2] as int - 0x80) * 0x40
            + (s[3] as int - 0x80), s[4..]))
    else None
  }

  predicate Surrogate(uc: nat) {
    0xD800 <= uc <= 0xDFFF
  }

  lemma SixBits(v: nat)
    ensures v == v / 0x40 * 0x40 + v % 0x40 && v / 0x40 / 0x40 == v / 0x1000 && v / 0x40 / 0x40 / 0x40 == v / 0x4_0000
    ensures v / 0x40 == v / 0x1000 * 0x40 + v / 0x40 % 0x40 && v / 0x1000 == v / 0x4_0000 * 0x40 + v / 0x1000 % 0x40
  {
  }

  /** What is written for a code point decodes to it. */
  lemma Utf8Inverse(uc: nat, rest: bytes)
    requires uc < 0x11_0000 && !Surrogate(uc)
    ensures DecodeUtf8(Utf8(uc) + rest) == Some((uc, rest))
  {
    SixBits(uc);
    var u := Utf8(uc);
    CutAtEnd(u, rest);
    if uc < 0x80 {
    } else if uc < 0x800 {
      TwoBytes(u[0], u[1], rest);
    } else if uc < 0x1_0000 {
      ThreeBytes(u[0], u[1], u[2], rest);
    } else {
      FourBytes(u[0], u[1], u[2], u[3], rest);
    }
    hide DecodeUtf8;
  }

  lemma TwoBytes(a: byte, b: byte, rest: bytes)
    requires 0xC2 <= a <= 0xDF && Tail(b)
    ensures DecodeUtf8([a, b] + rest) == Some(((a as int - 0xC0) * 0x40 + (b as int - 0x80), rest))
  {
    assert ([a, b] + rest)[2..] == rest;
  }

  lemma ThreeBytes(a: byte, b: byte, c: byte, rest: bytes)
    requires 0xE0 <= a <= 0xEF && Tail(b) && Tail(c) && (a == 0xE0 ==> b >= 0xA0) && (a == 0xED ==> b <= 0x9F)
    ensures DecodeUtf8([a, b, c] + rest)
         == Some(((a as int - 0xE0) * 0x1000 + (b as int - 0x80) * 0x40 + (c as int - 0x80), rest))
  {
    assert ([a, b, c] + rest)[3..] == rest;
  }

  lemma FourBytes(a: byte, b: byte, c: byte, d: byte, rest: bytes)
    requires 0xF0 <= a <= 0xF4 && Tail(b) && Tail(c) && Tail(d) && (a == 0xF0 ==> b >= 0x90) && (a == 0xF4 ==> b <= 0x8F)
    ensures DecodeUtf8([a, b, c, d] + rest)
         == Some(((a as int - 0xF0) * 0x4_0000 + (b as int - 0x80) * 0x1000 + (c as int - 0x80) * 0x40
                  + (d as int - 0x80), rest))
  {
    assert ([a, b, c, d] + rest)[4..] == rest;
  }

  const UPPER_DIGITS := "0123456789ABCDEF"
  const LOWER_DIGITS := "0123456789abcdef"

  /** A hexadecimal digit, in either case of letters. */
  predicate DigitIs(c: byte, d: nat) {
    d < 16 && (c == UPPER_DIGITS[d] as int || c == LOWER_DIGITS[d] as int)
  }

  predicate Spells(s: bytes, i: nat, v: nat) {
    && i + 4 <= |s| && v < 0x1_0000
    && DigitIs(s[i], v / 0x1000) && DigitIs(s[i + 1], v / 0x100 % 16)
    && DigitIs(s[i + 2], v / 0x10 % 16) && DigitIs(s[i + 3], v % 16)
  }

  lemma DigitRead(c: byte, d: nat)
    requires DigitIs(c, d)
    ensures IsHex(c) && DigitValue(c) == d
  {
  }

  lemma FourBits(v: nat)
    requires v < 0x1_0000
    ensures v == v / 0x1000 * 0x1000 + v / 0x100 % 16 * 0x100 + v / 0x10 % 16 * 0x10 + v % 16
  {
    assert v / 0x10 == v / 0x100 * 16 + v / 0x10 % 16;
    assert v / 0x100 == v / 0x1000 * 16 + v / 0x100 % 16;
  }

  lemma SpelledHex(s: bytes, i: nat, v: nat)
    requires Spells(s, i, v)
    ensures Hex4(s, i) == v
  {
    hide DigitIs, IsHex, DigitValue;
    FourBits(v);
    DigitRead(s[i], v / 0x1000);
    DigitRead(s[i + 1], v / 0x100 % 16);
    DigitRead(s[i + 2], v / 0x10 % 16);
    DigitRead(s[i + 3], v % 16);
  }

  /** An escape with four digits */
  predicate EscapeOf(s: bytes, i: nat, v: nat) {
    i + 6 <= |s| && s[i] == BACKSLASH && s[i + 1] == 117 && Spells(s, i + 2, v)
  }

  /** A string that begins with a code point, before what is read behind it. */
  ghost predicate Begins(r: Read, uc: nat, more: Read) {
    && (r.Read? <==> more.Read?)
    && (r.Read? ==> r.end == more.end && DecodeUtf8(r.value) == Some((uc, more.value)))
  }

  /** The escape of a code point below 0x1_0000 is read as that code point; only zero and a surrogate without the
      other are left out. */
  lemma ShortEscape(s: bytes, i: nat, uc: nat)
    requires EscapeOf(s, i, uc) && !Surrogate(uc)
    ensures if uc == 0 then ReadFrom(s, i) == ReadFrom(s, i + 6) else Begins(ReadFrom(s, i), uc, ReadFrom(s, i + 6))
  {
    SpelledHex(s, i + 2, uc);
    hide Hex4, Utf8, DecodeUtf8;
    var more := ReadFrom(s, i + 6);
    if more.Read? {
      Utf8Inverse(uc, more.value);
      AppendEmpty(more.value);
    }
  }

  /** A surrogate pair is read as the code point it stands for (section 3 of RFC 2781). */
  lemma PairEscape(s: bytes, i: nat, uc: nat)
    requires 0x1_0000 <= uc < 0x11_0000
    requires EscapeOf(s, i, 0xD800 + (uc - 0x1_0000) / 0x400) && EscapeOf(s, i + 6, 0xDC00 + (uc - 0x1_0000) % 0x400)
    ensures Begins(ReadFrom(s, i), uc, ReadFrom(s, i + 12))
  {
    hide Spells, Hex4;
    var hi, lo := (uc - 0x1_0000) / 0x400, (uc - 0x1_0000) % 0x400;
    SpelledHex(s, i + 2, 0xD800 + hi);
    SpelledHex(s, i + 8, 0xDC00 + lo);
    PairAt(s, i, hi, lo);
    hide EscapeAt, Utf8, DecodeUtf8, EscapeOf;
    assert 0x1_0000 + hi * 1024 + lo == uc;
    var more := ReadFrom(s, i + 12);
    if more.Read? {
      Utf8Inverse(uc, more.value);
    }
  }

  lemma PairAt(s: bytes, i: nat, hi: nat, lo: nat)
    requires hi < 0x400 && lo < 0x400 && i + 12 <= |s|
    requires s[i] == s[i + 6] == BACKSLASH && s[i + 1] == s[i + 7] == 117
    requires Hex4(s, i + 2) == 0xD800 + hi && Hex4(s, i + 8) == 0xDC00 + lo
    ensures EscapeAt(s, i) == Decoded(Utf8(0x1_0000 + hi * 1024 + lo), 12)
  {
    hide Hex4, Utf8;
  }

  /** The escapes of two characters (section 7 of RFC 8259). */
  lemma LetterEscapes(s: bytes, i: nat)
    requires i + 2 <= |s| && s[i] as char == '\\'
    ensures var r, more := ReadFrom(s, i), ReadFrom(s, i + 2);
            && (s[i + 1] as char == '"' ==> r == Prepend([0x22], more))
            && (s[i + 1] as char == '\\' ==> r == Prepend([0x5C], more))
            && (s[i + 1] as char == '/' ==> r == Prepend([0x2F], more))
            && (s[i + 1] as char == 'b' ==> r == Prepend([0x08], more))
            && (s[i + 1] as char == 'f' ==> r == Prepend([0x0C], more))
            && (s[i + 1] as char == 'n' ==> r == Prepend([0x0A], more))
            && (s[i + 1] as char == 'r' ==> r == Prepend([0x0D], more))
            && (s[i + 1] as char == 't' ==> r == Prepend([0x09], more))
  {
  }

  // ---------------------------------------------------------------- the memory that reading asks for

  /** What the pass in front of the decoding counts, and where it stops. NoStop where it steps over the end of the
      text. */
  datatype Measured = NoStop | Measured(len: nat, stop: nat)

  function Count(n: nat, m: Measured): Measured {
    match m
    case NoStop => NoStop
    case Measured(len, stop) => Measured(n + len, stop)
  }

  /** It takes a backslash with the byte behind it, whatever that is. */
  function Measure(s: bytes, i: nat): (m: Measured)
    requires i <= |s|
    ensures m.Measured? ==> i <= m.stop <= |s| && (m.stop < |s| ==> s[m.stop] == QUOTE)
    decreases |s| - i
  {
    if i == |s| || s[i] == QUOTE then Measured(0, i)
    else if s[i] != BACKSLASH then Count(1, Measure(s, i + 1))
    else if i + 1 == |s| then NoStop
    else Count(1, Measure(s, i + 2))
  }

  /** Both passes stay in the text, and the second one in the memory that the first one has asked for. */
  predicate InBounds(s: bytes, i: nat)
    requires i <= |s|
  {
    Measure(s, i).Measured? && ReadFrom(s, i).Read? && |ReadFrom(s, i).value| <= Measure(s, i).len
  }

  /** The decoding pass stops, at a quote or the end of the text, and not behind `e`. */
  predicate StopsBy(s: bytes, i: nat, e: nat)
    requires i <= |s|
    decreases |s| - i
  {
    && i <= e
    && (i == |s| || s[i] == QUOTE
        || (if s[i] != BACKSLASH then StopsBy(s, i + 1, e)
            else EscapeAt(s, i).Decoded? && StopsBy(s, i + EscapeAt(s, i).len, e)))
  }

  predicate FourHex(s: bytes, i: nat) {
    IsHex(At(s, i)) && IsHex(At(s, i + 1)) && IsHex(At(s, i + 2)) && IsHex(At(s, i + 3))
  }

  /** Up to the closing quote there is a byte behind every backslash, and four hexadecimal digits behind every
      backslash with the letter u. */
  predicate HexEscapes(s: bytes, i: nat)
    requires i <= |s|
    decreases |s| - i
  {
    || i == |s|
    || s[i] == QUOTE
    || (if s[i] != BACKSLASH then HexEscapes(s, i + 1)
        else
          && i + 1 < |s|
          && if s[i + 1] == 117 then FourHex(s, i + 2) && HexEscapes(s, i + 6) else HexEscapes(s, i + 2))
  }

  /** The measuring pass, followed to a position that it does not stop before: it comes there, or one byte behind. */
  lemma {:induction false} MeasureTo(s: bytes, m: nat, t: nat) returns (m': nat)
    requires m <= t <= |s| && Measure(s, m).Measured? && t <= Measure(s, m).stop
    ensures t <= m' <= t + 1 && m' <= |s| && Measure(s, m').Measured?
    ensures Measure(s, m').stop == Measure(s, m).stop && 2 * (Measure(s, m).len - Measure(s, m').len) >= m' - m
    decreases t - m
  {
    m' := m;
    if m < t {
      m' := m + if s[m] == BACKSLASH then 2 else 1;
      if m' < t {
        m' := MeasureTo(s, m', t);
      }
    }
  }

  lemma EscapeSize(s: bytes, i: nat)
    requires i < |s| && EscapeAt(s, i).Decoded?
    ensures var e := EscapeAt(s, i);
            if e.len == 2 then |e.out| == 1 else e.len in {6, 12} && |e.out| <= (if e.len == 6 then 3 else 4)
  {
  }

  /** A decoding pass that does not go behind the stop of the measuring one fits, also where the two are out of step:
      when the one is at i, the other is there or one byte behind. */
  lemma {:induction false} StopsFit(s: bytes, i: nat, m: nat)
    requires i <= m <= i + 1 && m <= |s| && Measure(s, m).Measured? && StopsBy(s, i, Measure(s, m).stop)
    ensures ReadFrom(s, i).Read? && |ReadFrom(s, i).value| <= Measure(s, m).len + (m - i)
    decreases |s| - i
  {
    hide EscapeAt;
    if i < |s| && s[i] != QUOTE {
      if s[i] != BACKSLASH {
        StopsFit(s, i + 1, i + 1);
      } else {
        EscapeSize(s, i);
        var j := i + EscapeAt(s, i).len;
        var m' := MeasureTo(s, m, j);
        StopsFit(s, j, m');
      }
    }
  }

  lemma {:induction false} ReadStops(s: bytes, i: nat)
    requires i <= |s| && ReadFrom(s, i).Read?
    ensures StopsBy(s, i, |s|)
    decreases |s| - i
  {
    hide EscapeAt;
    if i < |s| && s[i] != QUOTE {
      ReadStops(s, i + if s[i] == BACKSLASH then EscapeAt(s, i).len else 1);
    }
  }

  /** A string that the measuring pass finds no end of is decoded in bounds if and only if no escape sequence is cut
      off by the end of the text. */
  lemma OpenBounds(s: bytes, i: nat)
    requires i <= |s| && Measure(s, i).Measured? && Measure(s, i).stop == |s|
    ensures InBounds(s, i) <==> ReadFrom(s, i).Read?
  {
    if ReadFrom(s, i).Read? {
      ReadStops(s, i);
      StopsFit(s, i, i);
    }
  }

  lemma HexMeasure(s: bytes, i: nat)
    requires i + 1 < |s| && s[i] == BACKSLASH && s[i + 1] == 117 && FourHex(s, i + 2)
    ensures i + 6 <= |s| && Measure(s, i) == Count(5, Measure(s, i + 6))
  {
    assert Measure(s, i + 5) == Count(1, Measure(s, i + 6));
    assert Measure(s, i + 4) == Count(2, Measure(s, i + 6));
    assert Measure(s, i + 3) == Count(3, Measure(s, i + 6));
    assert Measure(s, i + 2) == Count(4, Measure(s, i + 6));
  }

  /** What such an escape sequence takes is one of them, or two. */
  lemma HexEscape(s: bytes, i: nat)
    requires i + 1 < |s| && s[i] == BACKSLASH && s[i + 1] == 117 && HexEscapes(s, i)
    ensures EscapeAt(s, i).Decoded? && EscapeAt(s, i).len in {6, 12}
    ensures EscapeAt(s, i).len == 12 ==> s[i + 6] == BACKSLASH && s[i + 7] == 117
  {
    hide Hex4, Utf8;
  }

  /** With such escapes both passes stop at the same place. */
  lemma {:induction false} HexStops(s: bytes, i: nat)
    requires i <= |s| && HexEscapes(s, i)
    ensures Measure(s, i).Measured? && StopsBy(s, i, Measure(s, i).stop) && ReadFrom(s, i).Read?
    ensures ReadFrom(s, i).end == if Measure(s, i).stop < |s| then Measure(s, i).stop + 1 else |s|
    decreases |s| - i
  {
    if i < |s| && s[i] != QUOTE {
      if s[i] != BACKSLASH {
        HexStops(s, i + 1);
      } else if s[i + 1] != 117 {
        HexStops(s, i + 2);
      } else {
        HexMeasure(s, i);
        HexEscape(s, i);
        hide EscapeAt, FourHex;
        HexStops(s, i + 6);
        if EscapeAt(s, i).len == 12 {
          HexMeasure(s, i + 6);
          HexStops(s, i + 12);
        }
      }
    }
  }

  /** Strings with such escapes are decoded in bounds. */
  lemma HexInBounds(s: bytes, i: nat)
    requires i <= |s| && HexEscapes(s, i)
    ensures InBounds(s, i)
  {
    HexStops(s, i);
    StopsFit(s, i, i);
  }

  // ---------------------------------------------------------------- strings that are safe whatever follows

  lemma {:induction false} MeasurePrefix(p: bytes, rest: bytes, i: nat)
    requires i <= |p| && Measure(p, i).Measured? && Measure(p, i).stop < |p|
    ensures Measure(p + rest, i) == Measure(p, i)
    decreases |p| - i
  {
    if p[i] != QUOTE {
      MeasurePrefix(p, rest, i + if p[i] == BACKSLASH then 2 else 1);
    }
  }

  predicate Closed(p: bytes) {
    p != [] && p[|p| - 1] == QUOTE
  }

  /** What stands behind the closing quote is not part of an escape sequence before it, unless that goes over it. */
  lemma EscapePrefix(p: bytes, rest: bytes, i: nat)
    requires Closed(p) && i < |p| && p[i] == BACKSLASH
    ensures EscapeAt(p, i).Decoded? ==> EscapeAt(p + rest, i) == EscapeAt(p, i)
    ensures EscapeAt(p, i).CutOff? && EscapeAt(p + rest, i).Decoded? ==> |p| < i + EscapeAt(p + rest, i).len
    ensures EscapeAt(p + rest, i).Decoded? ==> i + EscapeAt(p + rest, i).len <= |p| + 9
  {
    var t := p + rest;
    assert forall j :: 0 <= j < |p| ==> t[j] == p[j];
    assert i + 6 > |p| && i + 2 < |p| ==> Hex4(t, i + 2) == 0;
    if i + 6 <= |p| {
      assert Hex4(t, i + 2) == Hex4(p, i + 2);
      assert i + 6 == |p| ==> Hex4(p, i + 2) == 0;
      assert i + 12 <= |p| ==> Hex4(t, i + 8) == Hex4(p, i + 8);
    }
    hide Hex4, Utf8;
  }

  lemma {:induction false} StopsPrefix(p: bytes, rest: bytes, i: nat)
    requires Closed(p) && i < |p| && StopsBy(p, i, |p| - 1)
    ensures StopsBy(p + rest, i, |p| - 1)
    decreases |p| - i
  {
    hide EscapeAt;
    if p[i] == BACKSLASH {
      EscapePrefix(p, rest, i);
      StopsPrefix(p, rest, i + EscapeAt(p, i).len);
    } else if p[i] != QUOTE {
      StopsPrefix(p, rest, i + 1);
    }
  }

  function Letters(n: nat): (t: bytes)
    ensures |t| == n && forall i :: 0 <= i < n ==> t[i] == 97
  {
    seq(n, _ => 97)
  }

  lemma {:induction false} ReadLetters(t: bytes, i: nat)
    requires i <= |t| && forall k :: i <= k < |t| ==> t[k] == 97
    ensures ReadFrom(t, i).Read? && |ReadFrom(t, i).value| == |t| - i
    decreases |t| - i
  {
    if i < |t| {
      ReadLetters(t, i + 1);
    }
  }

  /** A decoding pass that misses the closing quote takes what stands behind it. */
  lemma {:induction false} Runaway(p: bytes, n: nat, i: nat)
    requires Closed(p) && i <= |p| + 9 && i <= |p| + n && (i < |p| ==> !StopsBy(p, i, |p| - 1))
    ensures var r := ReadFrom(p + Letters(n), i); r.Read? ==> |r.value| + 9 >= n
    decreases |p| + n - i
  {
    hide EscapeAt;
    var t := p + Letters(n);
    if i >= |p| {
      ReadLetters(t, i);
    } else if p[i] == BACKSLASH {
      EscapePrefix(p, Letters(n), i);
      if EscapeAt(t, i).Decoded? {
        Runaway(p, n, i + EscapeAt(t, i).len);
      }
    } else {
      Runaway(p, n, i + 1);
    }
  }

  /** A string, to its closing quote as the measuring pass sees it, is decoded in bounds whatever follows it if and
      only if the decoding pass stops inside it. */
  lemma SafeWhateverFollows(p: bytes, i: nat)
    requires Closed(p) && i < |p| && Measure(p, i).Measured? && Measure(p, i).stop == |p| - 1
    ensures (forall rest :: NulFree(rest) ==> InBounds(p + rest, i)) <==> StopsBy(p, i, |p| - 1)
  {
    hide Measure, StopsBy, ReadFrom;
    if StopsBy(p, i, |p| - 1) {
      forall rest | NulFree(rest) ensures InBounds(p + rest, i) {
        MeasurePrefix(p, rest, i);
        StopsPrefix(p, rest, i);
        StopsFit(p + rest, i, i);
      }
    } else {
      var rest := Letters(Measure(p, i).len + 10);
      MeasurePrefix(p, rest, i);
      Runaway(p, |rest|, i);
      assert NulFree(rest) && !InBounds(p + rest, i);
    }
  }

  /** A quote among the digits: the decoding pass goes over it, and three bytes do not fit where one was measured. */
  lemma QuoteInDigits()
    ensures var s := [QUOTE, BACKSLASH, 117, QUOTE, 97, 98, 99, 100, 101, 102, QUOTE];
            && Measure(s, 1) == Measured(1, 3) && ReadFrom(s, 1) == Read([100, 101, 102], 11)
            && !InBounds(s, 1) && !StopsBy(s, 1, 3)
  {
    var s := [QUOTE, BACKSLASH, 117, QUOTE, 97, 98, 99, 100, 101, 102, QUOTE];
    assert ReadFrom(s, 10) == Read([], 11);
    assert ReadFrom(s, 9) == Read([102], 11);
    assert ReadFrom(s, 8) == Read([101, 102], 11);
    assert ReadFrom(s, 7) == Read([100, 101, 102], 11);
    assert EscapeAt(s, 1) == Decoded([], 6);
  }

  /** A backslash as the last digit and the last byte: the decoding pass ends with the text, the measuring one does
      not. */
  lemma BackslashAtEnd()
    ensures var s := [QUOTE, BACKSLASH, 117, 48, 48, 48, BACKSLASH];
            Measure(s, 1) == NoStop && ReadFrom(s, 1) == Read([], 7) && !InBounds(s, 1)
  {
    var s := [QUOTE, BACKSLASH, 117, 48, 48, 48, BACKSLASH];
    assert Measure(s, 6) == NoStop;
    assert Measure(s, 5) == NoStop;
    assert Measure(s, 4) == NoStop;
    assert EscapeAt(s, 1) == Decoded([], 6);
  }

  // ---------------------------------------------------------------- reading undoes writing

  lemma EscapeOneInverse(s: bytes, i: nat, b: byte)
    requires b != 0 && !Plain(b) && i + |EscapeOne(b)| <= |s|
    requires forall k :: 0 <= k < |EscapeOne(b)| ==> EscapeOne(b)[k] == s[i + k]
    ensures s[i] == BACKSLASH && EscapeAt(s, i) == Decoded([b], |EscapeOne(b)|)
  {
    var e := EscapeOne(b);
    assert e[0] == s[i] && e[1] == s[i + 1];
    if Letter(b) == 0 {
      assert e[2] == s[i + 2] && e[3] == s[i + 3] && e[4] == s[i + 4] && e[5] == s[i + 5];
      assert Hex4(s, i + 2) == b;
    }
  }

  lemma HeadAt(s: bytes, i: nat, e: bytes, more: bytes)
    requires i <= |s| && s[i..] == e + more
    ensures i + |e| <= |s| && s[i + |e|..] == more && forall k :: 0 <= k < |e| ==> e[k] == s[i + k]
  {
    assert forall k :: 0 <= k < |s| - i ==> s[i..][k] == s[i + k];
    assert s[i + |e|..] == s[i..][|e|..];
  }

  lemma {:induction false} ReadInverse(s: bytes, i: nat, v: bytes, rest: bytes)
    requires i <= |s| && s[i..] == Escape(v) + ([QUOTE] + rest) && NulFree(v)
    ensures ReadFrom(s, i) == Read(v, |s| - |rest|)
    decreases |v|
  {
    hide EscapeOne, EscapeAt;
    if v == [] {
      AppendEmpty([QUOTE] + rest);
      HeadAt(s, i, [QUOTE], rest);
      assert [QUOTE][0] == s[i];
    } else {
      var e, more := EscapeOne(v[0]), Escape(v[1..]) + ([QUOTE] + rest);
      Assoc(e, Escape(v[1..]), [QUOTE] + rest);
      HeadAt(s, i, e, more);
      ReadInverse(s, i + |e|, v[1..], rest);
      assert v == [v[0]] + v[1..];
      ReadOne(s, i, v[0]);
    }
  }

  /** One byte of the string, read from its escape. */
  lemma ReadOne(s: bytes, i: nat, b: byte)
    requires b != 0 && i + |EscapeOne(b)| <= |s|
    requires forall k :: 0 <= k < |EscapeOne(b)| ==> EscapeOne(b)[k] == s[i + k]
    ensures ReadFrom(s, i) == Prepend([b], ReadFrom(s, i + |EscapeOne(b)|))
  {
    if Plain(b) {
      assert EscapeOne(b)[0] == s[i];
    } else {
      EscapeOneInverse(s, i, b);
    }
  }

  /** parse_string on a printed string, whatever follows. */
  lemma QuoteInverse(v: bytes, rest: bytes)
    requires NulFree(v)
    ensures ReadFrom(Quote(v) + rest, 1) == Read(v, |Quote(v)|)
  {
    var s := Quote(v) + rest;
    assert s[1..] == Escape(v) + ([QUOTE] + rest);
    ReadInverse(s, 1, v, rest);
  }

  /** A printed byte has digits behind its u. */
  lemma HexOne(s: bytes, i: nat, b: byte)
    requires b != 0 && i + |EscapeOne(b)| <= |s| && HexEscapes(s, i + |EscapeOne(b)|)
    requires forall k :: 0 <= k < |EscapeOne(b)| ==> EscapeOne(b)[k] == s[i + k]
    ensures HexEscapes(s, i)
  {
    var e := EscapeOne(b);
    assert e[0] == s[i];
    if !Plain(b) {
      assert e[1] == s[i + 1];
      if Letter(b) == 0 {
        assert e[2] == s[i + 2] && e[3] == s[i + 3] && e[4] == s[i + 4] && e[5] == s[i + 5];
      }
    }
  }

  lemma {:induction false} EscapedHex(s: bytes, i: nat, v: bytes, rest: bytes)
    requires i <= |s| && s[i..] == Escape(v) + ([QUOTE] + rest) && NulFree(v)
    ensures HexEscapes(s, i)
    decreases |v|
  {
    hide EscapeOne;
    if v == [] {
      AppendEmpty([QUOTE] + rest);
      HeadAt(s, i, [QUOTE], rest);
      assert [QUOTE][0] == s[i];
    } else {
      var e, more := EscapeOne(v[0]), Escape(v[1..]) + ([QUOTE] + rest);
      Assoc(e, Escape(v[1..]), [QUOTE] + rest);
      hide HexEscapes;
      HeadAt(s, i, e, more);
      EscapedHex(s, i + |e|, v[1..], rest);
      HexOne(s, i, v[0]);
    }
  }

  /** A printed string is decoded in bounds, whatever follows. */
  lemma QuoteInBounds(v: bytes, rest: bytes)
    requires NulFree(v)
    ensures InBounds(Quote(v) + rest, 1)
  {
    var s := Quote(v) + rest;
    assert s[1..] == Escape(v) + ([QUOTE] + rest);
    EscapedHex(s, 1, v, rest);
    HexInBounds(s, 1);
  }

  // ---------------------------------------------------------------- the loops

  /** The escape at a backslash: what it stands for goes to the output, the cursor behind it. */
  method TakeEscape(s: bytes, i: nat) returns (ok: bool, out: bytes, next: nat)
    requires i < |s| && s[i] == BACKSLASH && NulFree(s)
    ensures ok <==> EscapeAt(s, i).Decoded?
    ensures ok ==> i < next <= |s| && Decoded(out, next - i) == EscapeAt(s, i)
  {
    var ptr: nat := i + 1;
    out := [];
    if ptr == |s| {
      return false, [], i;
    }
    var c := s[ptr];
    if c == 98 {
      out := [8];
    } else if c == 102 {
      out := [12];
    } else if c == 110 {
      out := [10];
    } else if c == 114 {
      out := [13];
    } else if c == 116 {
      out := [9];
    } else if c == 117 {
      var uc := Hex4(s, ptr + 1);
      ptr := ptr + 4;
      if !((0xDC00 <= uc <= 0xDFFF) || uc == 0) {
        if 0xD800 <= uc <= 0xDBFF {
          if At(s, ptr + 1) == BACKSLASH && At(s, ptr + 2) == 117 {
            var uc2 := Hex4(s, ptr + 3);
            ptr := ptr + 6;
            if 0xDC00 <= uc2 <= 0xDFFF {
              out := Utf8(0x1_0000 + uc % 1024 * 1024 + uc2 % 1024);
            }
          }
        } else {
          out := Utf8(uc);
        }
      }
      if ptr >= |s| {
        return false, [], i;
      }
    } else {
      out := [c];
    }
    return true, out, ptr + 1;
  }

  /** The pass that measures the string. It fails where it would step over the end of the text. */
  method MeasureString(s: bytes, start: nat) returns (ok: bool, len: nat)
    requires NulFree(s) && start < |s|
    ensures if ok then Measure(s, start + 1).Measured? && len == Measure(s, start + 1).len
            else Measure(s, start + 1) == NoStop
  {
    var ptr: nat := start + 1;
    len := 0;
    while ptr < |s| && s[ptr] != QUOTE
      invariant start < ptr <= |s|
      invariant Measure(s, start + 1) == Count(len, Measure(s, ptr))
      decreases |s| - ptr
    {
      len := len + 1;
      if s[ptr] == BACKSLASH {
        ptr := ptr + 1;
        if ptr == |s| {
          return false, len;
        }
      }
      ptr := ptr + 1;
    }
    ok := true;
  }

  /** parse_string from the opening quote at `start`: memory of the measured size and a NUL, and the string in it. It
      fails where it would leave the text or that memory. */
  method ParseString(s: bytes, start: nat) returns (ok: bool, out: array<byte>, n: nat, end: nat)
    requires NulFree(s) && start < |s| && s[start] == QUOTE
    ensures ok <==> InBounds(s, start + 1)
    ensures ok ==> out.Length == Measure(s, start + 1).len + 1
    ensures ok ==> n < out.Length && out[n] == 0 && Read(out[..n], end) == ReadFrom(s, start + 1)
  {
    hide EscapeAt, Measure;
    n, end := 0, start + 1;
    var len: nat;
    ok, len := MeasureString(s, start);
    out := new byte[len + 1](_ => 0);
    if !ok {
      return;
    }
    ghost var read := ReadFrom(s, start + 1);
    assert out[..0] == [];
    while end < |s| && s[end] != QUOTE
      invariant start < end <= |s| && n <= len && out.Length == len + 1
      invariant read == Prepend(out[..n], ReadFrom(s, end))
      decreases |s| - end
    {
      ghost var was := out[..n];
      var piece, next := [s[end]], end + 1;
      if s[end] == BACKSLASH {
        ok, piece, next := TakeEscape(s, end);
        if !ok {
          return;
        }
      }
      PrependTwice(was, piece, ReadFrom(s, next));
      if n + |piece| > len {
        return false, out, n, end;
      }
      n := Write(out, n, piece);
      end := next;
    }
    AppendEmpty(out[..n]);
    out[n] := 0;
    if end < |s| {
      end := end + 1;
    }
  }

  lemma PrependTwice(a: bytes, b: bytes, r: Read)
    ensures Prepend(a, Prepend(b, r)) == Prepend(a + b, r)
  {
    if r.Read? {
      Assoc(a, b, r.value);
    }
  }

  lemma {:induction false} EscapeSnoc(s: bytes, k: nat)
    requires k < |s|
    ensures Escape(s[..k + 1]) == Escape(s[..k]) + EscapeOne(s[k])
  {
    if k == 0 {
      AppendEmpty(EscapeOne(s[0]));
      assert s[..1][1..] == [];
    } else {
      assert s[..k + 1][1..] == s[1..][..k] && s[..k][1..] == s[1..][..k - 1];
      EscapeSnoc(s[1..], k - 1);
      Assoc(EscapeOne(s[0]), Escape(s[1..][..k - 1]), EscapeOne(s[k]));
    }
  }

  lemma {:induction false} EscapePlain(s: bytes)
    requires forall i :: 0 <= i < |s| ==> Plain(s[i])
    ensures Escape(s) == s
  {
    if s != [] {
      EscapePlain(s[1..]);
    }
  }

  /** No control character is written as itself (section 7 of RFC 8259). */
  lemma {:induction false} EscapeClean(s: bytes, i: nat)
    requires NulFree(s) && i < |Escape(s)|
    ensures Escape(s)[i] >= 0x20
  {
    if i < |EscapeOne(s[0])| {
      assert EscapeOne(s[0])[i] >= 0x20;
    } else {
      EscapeClean(s[1..], i - |EscapeOne(s[0])|);
    }
  }

  /** The pass that measures the escaped string. */
  method EscapedLength(str: bytes) returns (len: nat)
    requires NulFree(str)
    ensures len == |Escape(str)|
  {
    len := 0;
    var ptr: nat := 0;
    assert str[..0] == [];
    while ptr < |str|
      invariant ptr <= |str| && len == |Escape(str[..ptr])|
    {
      EscapeSnoc(str, ptr);
      var token := str[ptr];
      len := len + 1;
      if token == QUOTE || token == BACKSLASH || token == 8 || token == 12 || token == 10 || token == 13 || token == 9 {
        len := len + 1;
      } else if token < 32 {
        len := len + 5;
      }
      ptr := ptr + 1;
    }
    assert str[..ptr] == str;
  }

  /** Writes bytes behind what is there. */
  method Write(out: array<byte>, at: nat, bs: bytes) returns (next: nat)
    requires at + |bs| <= out.Length
    modifies out
    ensures next == at + |bs| && out[..next] == old(out[..at]) + bs
  {
    forall i | 0 <= i < |bs| {
      out[at + i] := bs[i];
    }
    next := at + |bs|;
  }

  /** print_string_ptr: the memory asked for holds the quoted string and its NUL exactly. */
  method PrintString(str: bytes) returns (out: array<byte>)
    requires NulFree(str)
    ensures fresh(out) && out[..] == Quote(str) + [0]
  {
    var flag, ptr: nat := false, 0;
    while ptr < |str|
      invariant ptr <= |str| && (!flag ==> forall i :: 0 <= i < ptr ==> Plain(str[i]))
    {
      flag := flag || str[ptr] < 32 || str[ptr] == QUOTE || str[ptr] == BACKSLASH;
      ptr := ptr + 1;
    }
    var at: nat;
    if !flag {
      EscapePlain(str);
      out := new byte[|str| + 3](_ => 0);
      at := Write(out, 0, [QUOTE]);
      at := Write(out, at, str);
      assert out[..at] == [QUOTE] + Escape(str);
      at := Write(out, at, [QUOTE]);
      assert out[..at] == Quote(str);
      at := Write(out, at, [0]);
      assert out[..at] == out[..];
      return;
    }
    var len := EscapedLength(str);
    out := new byte[len + 3](_ => 0);
    at := Write(out, 0, [QUOTE]);
    ptr := 0;
    assert str[..0] == [];
    assert str[..|str|] == str;
    while ptr < |str|
      invariant ptr <= |str| && at == 1 + |Escape(str[..ptr])| && at <= 1 + len && out.Length == len + 3
      invariant out[..at] == [QUOTE] + Escape(str[..ptr])
    {
      EscapeSnoc(str, ptr);
      EscapeFits(str, ptr);
      Assoc([QUOTE], Escape(str[..ptr]), EscapeOne(str[ptr]));
      at := PutEscape(out, at, str[ptr]);
      ptr := ptr + 1;
    }
    at := Write(out, at, [QUOTE]);
    at := Write(out, at, [0]);
    assert out[..at] == out[..];
  }

  method PutEscape(out: array<byte>, at0: nat, token: byte) returns (at: nat)
    requires token != 0 && at0 + |EscapeOne(token)| <= out.Length
    modifies out
    ensures at == at0 + |EscapeOne(token)| && out[..at] == old(out[..at0]) + EscapeOne(token)
  {
    if token > 31 && token != QUOTE && token != BACKSLASH {
      at := Write(out, at0, [token]);
    } else if token == BACKSLASH {
      at := Write(out, at0, [BACKSLASH, BACKSLASH]);
    } else if token == QUOTE {
      at := Write(out, at0, [BACKSLASH, QUOTE]);
    } else if token == 8 {
      at := Write(out, at0, [BACKSLASH, 98]);
    } else if token == 12 {
      at := Write(out, at0, [BACKSLASH, 102]);
    } else if token == 10 {
      at := Write(out, at0, [BACKSLASH, 110]);
    } else if token == 13 {
      at := Write(out, at0, [BACKSLASH, 114]);
    } else if token == 9 {
      at := Write(out, at0, [BACKSLASH, 116]);
    } else {
      at := Write(out, at0, [BACKSLASH, 117, 48, 48, LowDigit(token as int / 16), LowDigit(token as int % 16)]);
    }
  }

  lemma {:induction false} EscapeFits(s: bytes, k: nat)
    requires k < |s|
    ensures |Escape(s[..k + 1])| <= |Escape(s)|
  {
    EscapeMonotone(s, k + 1, |s|);
    assert s[..|s|] == s;
  }

  lemma {:induction false} EscapeMonotone(s: bytes, j: nat, k: nat)
    requires j <= k <= |s|
    ensures |Escape(s[..j])| <= |Escape(s[..k])|
  {
    if j < k {
      EscapeMonotone(s, j, k - 1);
      EscapeSnoc(s, k - 1);
    }
  }
}
