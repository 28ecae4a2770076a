/** JSON texts of cJSON: printing a tree, formatted or not, parsing a text, and the proof that parsing gives
    back the tree that was printed. */
module JsonText {
  import opened Bytes
  import opened HexText
  import opened JsonStrings

  /** A tree. A number that is no integer of 32 bits, or is written with a fraction or an exponent, is its digits
      and a power of ten: what it is before it is rounded. */
  datatype Value =
    | Null
    | False
    | True
    | Num(n: int)
    | Dec(digits: int, exp: int)
    | Str(s: bytes)
    | Arr(es: seq<Value>)
    | Obj(ms: seq<Member>)

  datatype Member = Member(name: bytes, v: Value)

  /** What the printer is for: 32-bit integers, and strings without NUL. */
  predicate Printable(v: Value) {
    match v
    case Num(n) => -0x8000_0000 <= n <= 0x7FFF_FFFF
    case Dec(_, _) => false
    case Str(s) => NulFree(s)
    case Arr(es) => forall e :: e in es ==> Printable(e)
    case Obj(ms) => forall m :: m in ms ==> NulFree(m.name) && Printable(m.v)
    case _ => true
  }

  // ---------------------------------------------------------------- texts

  const COMMA: byte := 44
  const COLON: byte := 58
  const MINUS: byte := 45
  const LBRACKET: byte := 91
  const RBRACKET: byte := 93
  const LBRACE: byte := 123
  const RBRACE: byte := 125
  const NULL_TEXT: bytes := [110, 117, 108, 108]
  const FALSE_TEXT: bytes := [102, 97, 108, 115, 101]
  const TRUE_TEXT: bytes := [116, 114, 117, 101]

  /** The decimal digits of a number, "0" for zero. */
  function Decimal(n: nat): (s: bytes)
    ensures s != [] && forall i :: 0 <= i < |s| ==> IsDigit(s[i])
    ensures s[0] == 48 <==> n == 0
  {
    if n < 10 then [48 + n] else Decimal(n / 10) + [48 + n % 10]
  }

  predicate IsDigit(b: byte) {
    48 <= b <= 57
  }

  function Number(n: int): (s: bytes)
    ensures s != []
  {
    if n < 0 then [MINUS] + Decimal(-n) else Decimal(n)
  }

  function Tabs(n: nat): (s: bytes)
    ensures |s| == n && forall i :: 0 <= i < n ==> s[i] == 9
  {
    if n == 0 then [] else [9] + Tabs(n - 1)
  }

  /** A new line with its indentation, in formatted texts. */
  function Line(fmt: bool, depth: nat): bytes {
    if fmt then [10] + Tabs(depth) else []
  }

  /** The text of a value. A number with a power of ten has one here that is not cJSON's, which rounds. */
  function Text(v: Value, depth: nat, fmt: bool): (t: bytes)
    ensures t != []
    decreases v, 0
  {
    match v
    case Null => NULL_TEXT
    case False => FALSE_TEXT
    case True => TRUE_TEXT
    case Num(n) => Number(n)
    case Dec(digits, exp) => Number(digits) + ([101] + Number(exp))
    case Str(s) => Quote(s)
    case Arr(es) => [LBRACKET] + if es == [] then [RBRACKET] else ElemsText(es, depth + 1, fmt)
    case Obj(ms) =>
      if ms == [] then [LBRACE] + (Line(fmt, if depth > 0 then depth - 1 else 0) + [RBRACE])
      else [LBRACE] + (Line(fmt, depth + 1) + MembersText(ms, depth + 1, fmt))
  }

  /** The elements of an array, with the closing bracket. */
  function ElemsText(es: seq<Value>, depth: nat, fmt: bool): (t: bytes)
    requires es != []
    ensures t != []
    decreases es, 1
  {
    Text(es[0], depth, fmt)
    + if |es| == 1 then [RBRACKET] else [COMMA] + ((if fmt then [32] else []) + ElemsText(es[1..], depth, fmt))
  }

  /** The members of an object, with the closing brace. */
  function MembersText(ms: seq<Member>, depth: nat, fmt: bool): (t: bytes)
    requires ms != [] && depth > 0
    ensures t != []
    decreases ms, 1
  {
    Quote(ms[0].name)
    + ([COLON]
       + ((if fmt then [9] else [])
          + (Text(ms[0].v, depth, fmt)
             + if |ms| == 1 then Line(fmt, depth - 1) + [RBRACE]
               else [COMMA] + (Line(fmt, depth) + MembersText(ms[1..], depth, fmt)))))
  }

  // ---------------------------------------------------------------- parsing

  /** The outcome of a parse: a text that is refused, one on which the code leaves it or its memory, or a value. */
  datatype Parse<T> = Refused | Astray | Parsed(value: T) {
    predicate IsFailure() {
      !Parsed?
    }

    function PropagateFailure<U>(): Parse<U>
      requires IsFailure()
    {
      if Refused? then Refused else Astray
    }

    function Extract(): T
      requires !IsFailure()
    {
      value
    }
  }

  function Skip(t: bytes): (r: bytes)
    ensures |r| <= |t|
  {
    if t != [] && 0 < t[0] <= 32 then Skip(t[1..]) else t
  }

  /** The digits at the head of a text. */
  function ReadDecimal(t: bytes, n: nat): (r: (nat, bytes))
    ensures |r.1| <= |t|
  {
    if t != [] && IsDigit(t[0]) then ReadDecimal(t[1..], n * 10 + (t[0] as int - 48)) else (n, t)
  }

  predicate HasFraction(t: bytes) {
    |t| > 1 && t[0] == 46 && IsDigit(t[1])
  }

  predicate HasExponent(t: bytes) {
    t != [] && (t[0] == 101 || t[0] == 69)
  }

  /** The digits before the point. */
  function ReadInteger(t: bytes): (r: (nat, bytes))
    ensures |r.1| <= |t| && (t != [] && IsDigit(t[0]) ==> |r.1| < |t|)
  {
    var w := if t != [] && t[0] == 48 then t[1..] else t;
    if w != [] && 49 <= w[0] <= 57 then ReadDecimal(w, 0) else (0, w)
  }

  /** A fraction behind the digits `n`: more digits, and the power of ten they count for. */
  function ReadFraction(t: bytes, n: nat): (r: (nat, int, bytes))
    ensures |r.2| <= |t|
  {
    if HasFraction(t) then
      var (m, rest) := ReadDecimal(t[1..], n);
      (m, |rest| - |t[1..]|, rest)
    else (n, 0, t)
  }

  function ReadExponent(t: bytes): (r: (int, bytes))
    ensures |r.1| <= |t|
  {
    if HasExponent(t) then
      var u := t[1..];
      var signed := u != [] && (u[0] == 43 || u[0] == MINUS);
      var (n, rest) := ReadDecimal(if signed then u[1..] else u, 0);
      (if signed && u[0] == MINUS then -(n as int) else n as int, rest)
    else (0, t)
  }

  /** parse_number: it takes whatever begins like a number. */
  function ParseNumber(t: bytes): (r: (Value, bytes))
    requires t != [] && (t[0] == MINUS || IsDigit(t[0]))
    ensures |r.1| < |t|
  {
    var u := if t[0] == MINUS then t[1..] else t;
    var (n, rest) := ReadInteger(u);
    var (m, scale, rest2) := ReadFraction(rest, n);
    var (exp, rest3) := ReadExponent(rest2);
    var value: int := if t[0] == MINUS then -(m as int) else m as int;
    var whole := rest3 == rest && -0x8000_0000 <= value <= 0x7FFF_FFFF;
    (if whole then Num(value) else Dec(value, scale + exp), rest3)
  }

  function ParseString(t: bytes): (r: Parse<(bytes, bytes)>)
    ensures r.Parsed? ==> |r.value.1| < |t|
  {
    if t == [] || t[0] != QUOTE then Refused
    else if !InBounds(t, 1) then Astray
    else Parsed((ReadFrom(t, 1).value, t[ReadFrom(t, 1).end..]))
  }

  function ParseValue(t: bytes): (r: Parse<(Value, bytes)>)
    ensures r.Parsed? ==> |r.value.1| < |t|
    decreases |t|, 0
  {
    if NULL_TEXT <= t then Parsed((Null, t[4..]))
    else if FALSE_TEXT <= t then Parsed((False, t[5..]))
    else if TRUE_TEXT <= t then Parsed((True, t[4..]))
    else if t == [] then Refused
    else if t[0] == QUOTE then
      var x :- ParseString(t);
      Parsed((Str(x.0), x.1))
    else if t[0] == MINUS || IsDigit(t[0]) then Parsed(ParseNumber(t))
    else if t[0] == LBRACKET then
      var u := Skip(t[1..]);
      if u != [] && u[0] == RBRACKET then Parsed((Arr([]), u[1..]))
      else
        var x :- ParseElems(u);
        Parsed((Arr(x.0), x.1))
    else if t[0] == LBRACE then
      var u := Skip(t[1..]);
      if u != [] && u[0] == RBRACE then Parsed((Obj([]), u[1..]))
      else
        var x :- ParseMembers(u);
        Parsed((Obj(x.0), x.1))
    else Refused
  }

  /** The elements of an array from the first on, to the closing bracket. */
  function ParseElems(t: bytes): (r: Parse<(seq<Value>, bytes)>)
    ensures r.Parsed? ==> |r.value.1| < |t|
    decreases |t|, 1
  {
    var x :- ParseValue(t);
    var u := Skip(x.1);
    if u == [] then Refused
    else if u[0] == COMMA then
      var y :- ParseElems(Skip(u[1..]));
      Parsed(([x.0] + y.0, y.1))
    else if u[0] == RBRACKET then Parsed(([x.0], u[1..]))
    else Refused
  }

  /** The members of an object from the first name on, to the closing brace. */
  function ParseMembers(t: bytes): (r: Parse<(seq<Member>, bytes)>)
    ensures r.Parsed? ==> |r.value.1| < |t|
    decreases |t|, 1
  {
    var name :- ParseString(t);
    var c := Skip(name.1);
    if c == [] || c[0] != COLON then Refused
    else
      var x :- ParseValue(Skip(c[1..]));
      var u := Skip(x.1);
      if u == [] then Refused
      else if u[0] == COMMA then
        var y :- ParseMembers(Skip(u[1..]));
        Parsed(([Member(name.0, x.0)] + y.0, y.1))
      else if u[0] == RBRACE then Parsed(([Member(name.0, x.0)], u[1..]))
      else Refused
  }

  // ---------------------------------------------------------------- texts that are parsed in bounds

  /** Every backslash has a byte behind it, and one with the letter u four hexadecimal digits. */
  predicate TextEscapes(t: bytes) {
    forall k :: 0 <= k < |t| && t[k] == BACKSLASH ==> k + 1 < |t| && (t[k + 1] == 117 ==> FourHex(t, k + 2))
  }

  lemma EscapesTail(t: bytes, k: nat)
    requires TextEscapes(t) && k <= |t|
    ensures TextEscapes(t[k..])
  {
    var u := t[k..];
    forall i | 0 <= i < |u| && u[i] == BACKSLASH ensures i + 1 < |u| && (u[i + 1] == 117 ==> FourHex(u, i + 2)) {
      assert t[k + i] == BACKSLASH;
      assert u[i + 1] == 117 ==> FourHex(t, k + i + 2);
    }
  }

  lemma {:induction false} EscapesHex(t: bytes, i: nat)
    requires TextEscapes(t) && i <= |t|
    ensures HexEscapes(t, i)
    decreases |t| - i
  {
    if i < |t| && t[i] != QUOTE {
      if t[i] != BACKSLASH {
        EscapesHex(t, i + 1);
      } else if t[i + 1] != 117 {
        EscapesHex(t, i + 2);
      } else {
        EscapesHex(t, i + 6);
      }
    }
  }

  lemma {:induction false} EscapesSkip(t: bytes)
    requires TextEscapes(t)
    ensures TextEscapes(Skip(t))
  {
    if t != [] && 0 < t[0] <= 32 {
      EscapesTail(t, 1);
      EscapesSkip(t[1..]);
    }
  }

  lemma EscapesNext(t: bytes)
    requires TextEscapes(t) && t != []
    ensures TextEscapes(Skip(t[1..]))
  {
    EscapesTail(t, 1);
    EscapesSkip(t[1..]);
  }

  lemma {:induction false} EscapesDecimal(t: bytes, n: nat)
    requires TextEscapes(t)
    ensures TextEscapes(ReadDecimal(t, n).1)
  {
    if t != [] && IsDigit(t[0]) {
      EscapesTail(t, 1);
      EscapesDecimal(t[1..], n * 10 + (t[0] as int - 48));
    }
  }

  lemma EscapesInteger(t: bytes)
    requires TextEscapes(t)
    ensures TextEscapes(ReadInteger(t).1)
  {
    hide TextEscapes;
    if t != [] {
      EscapesTail(t, 1);
      EscapesDecimal(t[1..], 0);
    }
    EscapesDecimal(t, 0);
  }

  lemma EscapesFraction(t: bytes, n: nat)
    requires TextEscapes(t)
    ensures TextEscapes(ReadFraction(t, n).2)
  {
    hide TextEscapes;
    if t != [] {
      EscapesTail(t, 1);
      EscapesDecimal(t[1..], n);
    }
  }

  lemma EscapesExponent(t: bytes)
    requires TextEscapes(t)
    ensures TextEscapes(ReadExponent(t).1)
  {
    hide TextEscapes;
    if HasExponent(t) {
      var u := t[1..];
      EscapesTail(t, 1);
      EscapesDecimal(u, 0);
      if u != [] {
        EscapesTail(u, 1);
        EscapesDecimal(u[1..], 0);
      }
    }
  }

  lemma EscapesNumber(t: bytes)
    requires TextEscapes(t) && t != [] && (t[0] == MINUS || IsDigit(t[0]))
    ensures TextEscapes(ParseNumber(t).1)
  {
    hide TextEscapes, ReadInteger, ReadFraction, ReadExponent;
    EscapesTail(t, 1);
    var u := if t[0] == MINUS then t[1..] else t;
    EscapesInteger(u);
    var (n, rest) := ReadInteger(u);
    EscapesFraction(rest, n);
    EscapesExponent(ReadFraction(rest, n).2);
  }

  /** A parse that does not go astray, and leaves such a text. */
  ghost predicate Inside<T>(r: Parse<(T, bytes)>) {
    !r.Astray? && (r.Parsed? ==> TextEscapes(r.value.1))
  }

  lemma EscapesString(t: bytes)
    requires TextEscapes(t)
    ensures Inside(ParseString(t))
  {
    if t != [] && t[0] == QUOTE {
      EscapesHex(t, 1);
      HexInBounds(t, 1);
      EscapesTail(t, ReadFrom(t, 1).end);
    }
  }

  /** A text with such escapes is parsed without leaving it or the memory of any string. */
  lemma {:induction false} ParsedInside(t: bytes)
    requires TextEscapes(t)
    ensures Inside(ParseValue(t))
    decreases |t|, 0
  {
    hide TextEscapes, ParseNumber, ParseString, ParseElems, ParseMembers, Skip;
    if NULL_TEXT <= t || TRUE_TEXT <= t {
      EscapesTail(t, 4);
    } else if FALSE_TEXT <= t {
      EscapesTail(t, 5);
    } else if t != [] {
      if t[0] == QUOTE {
        EscapesString(t);
      } else if t[0] == MINUS || IsDigit(t[0]) {
        EscapesNumber(t);
      } else {
        var u := Skip(t[1..]);
        EscapesNext(t);
        if u != [] {
          EscapesTail(u, 1);
        }
        ElemsInside(u);
        MembersInside(u);
      }
    }
  }

  lemma {:induction false} ElemsInside(t: bytes)
    requires TextEscapes(t)
    ensures Inside(ParseElems(t))
    decreases |t|, 1
  {
    hide TextEscapes, ParseValue, Skip;
    ParsedInside(t);
    if ParseValue(t).Parsed? {
      EscapesSkip(ParseValue(t).value.1);
      var u := Skip(ParseValue(t).value.1);
      if u != [] {
        EscapesTail(u, 1);
        EscapesNext(u);
        ElemsInside(Skip(u[1..]));
      }
    }
  }

  lemma {:induction false} MembersInside(t: bytes)
    requires TextEscapes(t)
    ensures Inside(ParseMembers(t))
    decreases |t|, 1
  {
    hide TextEscapes, ParseString, ParseValue, Skip;
    EscapesString(t);
    if ParseString(t).Parsed? {
      EscapesSkip(ParseString(t).value.1);
      var c := Skip(ParseString(t).value.1);
      if c != [] {
        EscapesNext(c);
        ParsedInside(Skip(c[1..]));
        if ParseValue(Skip(c[1..])).Parsed? {
          EscapesSkip(ParseValue(Skip(c[1..])).value.1);
          var u := Skip(ParseValue(Skip(c[1..])).value.1);
          if u != [] {
            EscapesTail(u, 1);
            EscapesNext(u);
            MembersInside(Skip(u[1..]));
          }
        }
      }
    }
  }

  // ---------------------------------------------------------------- parsing undoes printing

  /** What may stand behind a value: anything that would not make a number go on. */
  predicate Follows(rest: bytes) {
    rest == [] || (!IsDigit(rest[0]) && rest[0] != 46 && rest[0] != 101 && rest[0] != 69)
  }

  lemma {:induction false} SkipTabs(n: nat, t: bytes)
    requires t != [] && t[0] > 32
    ensures Skip(Tabs(n) + t) == t
  {
    if n == 0 {
      AppendEmpty(t);
    } else {
      Assoc([9], Tabs(n - 1), t);
      CutAtEnd([9], Tabs(n - 1) + t);
      SkipTabs(n - 1, t);
    }
  }

  lemma SkipLine(fmt: bool, depth: nat, t: bytes)
    requires t != [] && t[0] > 32
    ensures Skip(Line(fmt, depth) + t) == t
  {
    if fmt {
      Assoc([10], Tabs(depth), t);
      CutAtEnd([10], Tabs(depth) + t);
      SkipTabs(depth, t);
    } else {
      AppendEmpty(t);
    }
  }

  lemma SkipOne(fmt: bool, b: byte, t: bytes)
    requires 0 < b <= 32 && t != [] && t[0] > 32
    ensures Skip((if fmt then [b] else []) + t) == t
  {
    if fmt {
      CutAtEnd([b], t);
    } else {
      AppendEmpty(t);
    }
  }

  /** The value of a row of digits behind others. */
  function Fold(a: bytes, acc: nat): nat {
    if a == [] || !IsDigit(a[0]) then acc else Fold(a[1..], acc * 10 + (a[0] as int - 48))
  }

  lemma {:induction false} DigitsSplit(a: bytes, t: bytes, acc: nat)
    requires forall i :: 0 <= i < |a| ==> IsDigit(a[i])
    ensures ReadDecimal(a + t, acc) == ReadDecimal(t, Fold(a, acc))
  {
    if a == [] {
      AppendEmpty(t);
    } else {
      assert (a + t)[1..] == a[1..] + t;
      DigitsSplit(a[1..], t, acc * 10 + (a[0] as int - 48));
    }
  }

  lemma {:induction false} FoldSnoc(a: bytes, d: byte, acc: nat)
    requires (forall i :: 0 <= i < |a| ==> IsDigit(a[i])) && IsDigit(d)
    ensures Fold(a + [d], acc) == Fold(a, acc) * 10 + (d as int - 48)
  {
    if a == [] {
      AppendEmpty([d]);
      assert [d][1..] == [];
    } else {
      assert (a + [d])[1..] == a[1..] + [d];
      FoldSnoc(a[1..], d, acc * 10 + (a[0] as int - 48));
    }
  }

  lemma {:induction false} FoldDecimal(n: nat)
    ensures Fold(Decimal(n), 0) == n
  {
    if n < 10 {
      assert [48 + n][1..] == [];
    } else {
      FoldDecimal(n / 10);
      FoldSnoc(Decimal(n / 10), 48 + n % 10, 0);
    }
  }

  lemma DigitsInverse(n: nat, rest: bytes)
    requires Follows(rest)
    ensures ReadDecimal(Decimal(n) + rest, 0) == (n, rest)
  {
    DigitsSplit(Decimal(n), rest, 0);
    FoldDecimal(n);
  }

  lemma NumberInverse(n: int, rest: bytes)
    requires Follows(rest) && -0x8000_0000 <= n <= 0x7FFF_FFFF
    ensures var t := Number(n) + rest;
            (t[0] == MINUS || IsDigit(t[0])) && ParseNumber(t) == (Num(n), rest)
  {
    var m: nat := if n < 0 then -n else n;
    var t, w := Number(n) + rest, Decimal(m) + rest;
    DigitsInverse(m, rest);
    if n < 0 {
      Assoc([MINUS], Decimal(m), rest);
      CutAtEnd([MINUS], w);
    }
    if m == 0 {
      CutAtEnd([48], rest);
    }
  }

  predicate AllDigits(f: bytes) {
    forall i :: 0 <= i < |f| ==> IsDigit(f[i])
  }

  /** The digits of a fraction continue the number, each for a tenth. */
  lemma FractionInverse(n: nat, f: bytes, rest: bytes)
    requires f != [] && AllDigits(f) && (rest == [] || !IsDigit(rest[0]))
    ensures ReadFraction(['.' as int] + (f + rest), n) == (Fold(f, n), -|f|, rest)
  {
    var t := ['.' as int] + (f + rest);
    CutAtEnd(['.' as int], f + rest);
    assert t[1] == f[0];
    DigitsSplit(f, rest, n);
  }

  datatype Sign = Unsigned | Plus | Minus

  function SignText(s: Sign): bytes {
    match s
    case Unsigned => []
    case Plus => ['+' as int]
    case Minus => ['-' as int]
  }

  lemma ExponentInverse(capital: bool, s: Sign, e: nat, rest: bytes)
    requires Follows(rest)
    ensures var mark := if capital then 'E' as int else 'e' as int;
            ReadExponent([mark] + (SignText(s) + (Decimal(e) + rest))) == (if s.Minus? then -(e as int) else e, rest)
  {
    var mark := if capital then 'E' as int else 'e' as int;
    var w := Decimal(e) + rest;
    CutAtEnd([mark], SignText(s) + w);
    DigitsInverse(e, rest);
    if s.Unsigned? {
      AppendEmpty(w);
    } else {
      CutAtEnd(SignText(s), w);
    }
  }

  function ExponentText(capital: bool, s: Sign, e: nat): bytes {
    [if capital then 'E' as int else 'e' as int] + (SignText(s) + Decimal(e))
  }

  lemma EndParts(capital: bool, s: Sign, e: nat, rest: bytes)
    requires Follows(rest)
    ensures var end := ExponentText(capital, s, e) + rest;
            && |end| > |rest| && !IsDigit(end[0])
            && ReadExponent(end) == (if s.Minus? then -(e as int) else e, rest)
  {
    hide ReadExponent, Decimal, SignText;
    var mark := if capital then 'E' as int else 'e' as int;
    ExponentInverse(capital, s, e, rest);
    Assoc([mark], SignText(s) + Decimal(e), rest);
    Assoc(SignText(s), Decimal(e), rest);
  }

  function FractionText(f: bytes): bytes {
    ['.' as int] + f
  }

  lemma TailParts(n: nat, f: bytes, end: bytes)
    requires f != [] && AllDigits(f) && end != [] && !IsDigit(end[0])
    ensures var tail := FractionText(f) + end;
            && |tail| > |end| && !IsDigit(tail[0]) && ReadFraction(tail, n) == (Fold(f, n), -|f|, end)
  {
    hide ReadFraction;
    FractionInverse(n, f, end);
    Assoc(['.' as int], f, end);
  }

  /** A number in all its parts is its digits, and the power of ten of the exponent less the places of the fraction
      (section 6 of RFC 8259). */
  lemma DecimalInverse(negative: bool, n: nat, f: bytes, capital: bool, s: Sign, e: nat, rest: bytes)
    requires f != [] && AllDigits(f) && Follows(rest)
    ensures var t := (if negative then ['-' as int] else [])
                     + (Decimal(n) + (FractionText(f) + (ExponentText(capital, s, e) + rest)));
            && (t[0] == MINUS || IsDigit(t[0]))
            && ParseNumber(t) == (Dec(if negative then -(Fold(f, n) as int) else Fold(f, n),
                                      -|f| + if s.Minus? then -(e as int) else e), rest)
  {
    hide ReadInteger, ReadFraction, ReadExponent, ParseNumber, Decimal, Fold, FractionText, ExponentText;
    EndParts(capital, s, e, rest);
    var end := ExponentText(capital, s, e) + rest;
    TailParts(n, f, end);
    var tail := FractionText(f) + end;
    IntegerInverse(n, tail);
    NumberParts(negative, Decimal(n) + tail, n, tail, Fold(f, n), -|f|, end, if s.Minus? then -(e as int) else e, rest);
  }

  lemma NumberParts(negative: bool, u: bytes, n: nat, tail: bytes, m: nat, scale: int, end: bytes, exp: int, rest: bytes)
    requires u != [] && IsDigit(u[0]) && ReadInteger(u) == (n, tail) && ReadFraction(tail, n) == (m, scale, end)
    requires ReadExponent(end) == (exp, rest) && rest != tail
    ensures var t := (if negative then ['-' as int] else []) + u;
            && (t[0] == MINUS || IsDigit(t[0]))
            && ParseNumber(t) == (Dec(if negative then -(m as int) else m, scale + exp), rest)
  {
    hide ReadInteger, ReadFraction, ReadExponent;
    if negative {
      CutAtEnd(['-' as int], u);
    } else {
      AppendEmpty(u);
    }
  }

  lemma Shorter(f: bytes, a: bytes, b: bytes, c: bytes, rest: bytes)
    requires a != []
    ensures ['.' as int] + (f + (a + (b + (c + rest)))) != rest
  {
    assert |['.' as int] + (f + (a + (b + (c + rest))))| > |rest|;
  }

  /** The integer part is read up to what no digit is. */
  lemma IntegerInverse(n: nat, tail: bytes)
    requires tail != [] && !IsDigit(tail[0])
    ensures var u := Decimal(n) + tail; IsDigit(u[0]) && ReadInteger(u) == (n, tail)
  {
    DigitsSplit(Decimal(n), tail, 0);
    FoldDecimal(n);
    if n == 0 {
      CutAtEnd([48], tail);
    }
  }

  // ---------------------------------------------------------------- values

  /** How the text of a value begins. */
  lemma TextStarts(v: Value, depth: nat, fmt: bool)
    ensures var b := Text(v, depth, fmt)[0]; b > 32 && b != RBRACKET && b != RBRACE
  {
    if v.Str? {
      QuoteStarts(v.s);
    }
  }

  lemma QuoteStarts(s: bytes)
    ensures Quote(s) != [] && Quote(s)[0] == QUOTE
  {
  }

  lemma SkipNone(t: bytes)
    requires t != [] && t[0] > 32
    ensures Skip(t) == t
  {
  }

  lemma StringInverse(s: bytes, rest: bytes)
    requires NulFree(s)
    ensures ParseString(Quote(s) + rest) == Parsed((s, rest))
  {
    QuoteInverse(s, rest);
    QuoteInBounds(s, rest);
    CutAtEnd(Quote(s), rest);
  }

  lemma WordInverse(v: Value, rest: bytes)
    requires v.Null? || v.False? || v.True?
    ensures ParseValue(Text(v, 0, false) + rest) == Parsed((v, rest))
  {
    var w := Text(v, 0, false);
    var t := w + rest;
    CutAtEnd(w, rest);
    assert w <= t && t[0] == w[0];
    assert NULL_TEXT <= t ==> t[0] == NULL_TEXT[0];
    assert FALSE_TEXT <= t ==> t[0] == FALSE_TEXT[0];
  }

  /** Parsing the text of a value gives the value, and stops at the end of the text. */
  lemma {:induction false} ValueInverse(v: Value, depth: nat, fmt: bool, rest: bytes)
    requires Printable(v) && Follows(rest)
    ensures ParseValue(Text(v, depth, fmt) + rest) == Parsed((v, rest))
    decreases v, 0
  {
    hide Quote, Number, Decimal, Follows, ParseValue, ParseString, ElemsText, MembersText, Line, Skip;
    match v {
      case Num(n) =>
        NumberParsed(n, rest);
      case Str(s) =>
        StringParsed(s, rest);
      case Arr(es) =>
        if es == [] {
          EmptyArray(depth, fmt, rest);
        } else {
          var body := ElemsText(es, depth + 1, fmt);
          ElemsInverse(es, depth + 1, fmt, rest);
          ElemsStart(es, depth + 1, fmt);
          Assoc([LBRACKET], body, rest);
          SkipNone(body + rest);
          ArrayParsed(body + rest, es, rest);
        }
      case Obj(ms) =>
        if ms == [] {
          EmptyObject(depth, fmt, rest);
        } else {
          var body, line := MembersText(ms, depth + 1, fmt), Line(fmt, depth + 1);
          MembersInverse(ms, depth + 1, fmt, rest);
          MembersStart(ms, depth + 1, fmt);
          Assoc([LBRACE], line + body, rest);
          Assoc(line, body, rest);
          SkipLine(fmt, depth + 1, body + rest);
          ObjectParsed(line + (body + rest), ms, rest);
        }
      case _ =>
        WordInverse(v, rest);
    }
  }

  lemma NumberParsed(n: int, rest: bytes)
    requires Follows(rest) && -0x8000_0000 <= n <= 0x7FFF_FFFF
    ensures ParseValue(Number(n) + rest) == Parsed((Num(n), rest))
  {
    hide ParseNumber, Number, Follows;
    NumberInverse(n, rest);
  }

  lemma StringParsed(s: bytes, rest: bytes)
    requires NulFree(s)
    ensures ParseValue(Quote(s) + rest) == Parsed((Str(s), rest))
  {
    hide ParseString, Quote;
    StringInverse(s, rest);
    QuoteStarts(s);
    NotAWord(Quote(s) + rest);
  }

  lemma ArrayParsed(u: bytes, es: seq<Value>, rest: bytes)
    requires Skip(u) != [] && Skip(u)[0] != RBRACKET && ParseElems(Skip(u)) == Parsed((es, rest))
    ensures ParseValue([LBRACKET] + u) == Parsed((Arr(es), rest))
  {
    hide Skip, ParseElems;
    NotAWord([LBRACKET] + u);
    CutAtEnd([LBRACKET], u);
  }

  lemma ObjectParsed(u: bytes, ms: seq<Member>, rest: bytes)
    requires Skip(u) != [] && Skip(u)[0] != RBRACE && ParseMembers(Skip(u)) == Parsed((ms, rest))
    ensures ParseValue([LBRACE] + u) == Parsed((Obj(ms), rest))
  {
    hide Skip, ParseMembers;
    NotAWord([LBRACE] + u);
    CutAtEnd([LBRACE], u);
  }

  lemma EmptyArray(depth: nat, fmt: bool, rest: bytes)
    ensures ParseValue(Text(Arr([]), depth, fmt) + rest) == Parsed((Arr([]), rest))
  {
    var t := [LBRACKET] + ([RBRACKET] + rest);
    Assoc([LBRACKET], [RBRACKET], rest);
    CutAtEnd([LBRACKET], [RBRACKET] + rest);
    CutAtEnd([RBRACKET], rest);
    SkipNone([RBRACKET] + rest);
    NotAWord(t);
    hide Skip;
    assert t[0] == LBRACKET && ([RBRACKET] + rest)[0] == RBRACKET;
  }

  lemma NotAWord(t: bytes)
    requires t != [] && t[0] in {LBRACKET, LBRACE, QUOTE}
    ensures !(NULL_TEXT <= t) && !(FALSE_TEXT <= t) && !(TRUE_TEXT <= t)
  {
    assert t[0] != NULL_TEXT[0] && t[0] != FALSE_TEXT[0] && t[0] != TRUE_TEXT[0];
  }

  lemma EmptyObject(depth: nat, fmt: bool, rest: bytes)
    ensures ParseValue(Text(Obj([]), depth, fmt) + rest) == Parsed((Obj([]), rest))
  {
    var line := Line(fmt, if depth > 0 then depth - 1 else 0);
    Assoc([LBRACE], line + [RBRACE], rest);
    Assoc(line, [RBRACE], rest);
    CutAtEnd([LBRACE], line + ([RBRACE] + rest));
    SkipLine(fmt, if depth > 0 then depth - 1 else 0, [RBRACE] + rest);
    CutAtEnd([RBRACE], rest);
    var t := [LBRACE] + (line + ([RBRACE] + rest));
    NotAWord(t);
    hide Skip, Line;
    assert t[0] == LBRACE && ([RBRACE] + rest)[0] == RBRACE;
  }

  lemma ElemsStart(es: seq<Value>, depth: nat, fmt: bool)
    requires es != []
    ensures var b := ElemsText(es, depth, fmt)[0]; b > 32 && b != RBRACKET
  {
    TextStarts(es[0], depth, fmt);
    hide Text;
  }

  lemma MembersStart(ms: seq<Member>, depth: nat, fmt: bool)
    requires ms != [] && depth > 0
    ensures MembersText(ms, depth, fmt)[0] == QUOTE
  {
    QuoteStarts(ms[0].name);
    hide Text, Quote;
  }

  lemma {:induction false} ElemsInverse(es: seq<Value>, depth: nat, fmt: bool, rest: bytes)
    requires es != [] && forall e :: e in es ==> Printable(e)
    ensures ParseElems(ElemsText(es, depth, fmt) + rest) == Parsed((es, rest))
    decreases es, 1
  {
    hide Text, ParseValue, Skip;
    var first := Text(es[0], depth, fmt);
    if |es| == 1 {
      Assoc(first, [RBRACKET], rest);
      ValueInverse(es[0], depth, fmt, [RBRACKET] + rest);
      SkipNone([RBRACKET] + rest);
      CutAtEnd([RBRACKET], rest);
      assert es == [es[0]];
    } else {
      var sp, more := if fmt then [32] else [], ElemsText(es[1..], depth, fmt);
      Assoc(first, [COMMA] + (sp + more), rest);
      Assoc([COMMA], sp + more, rest);
      Assoc(sp, more, rest);
      var tail := [COMMA] + (sp + (more + rest));
      ValueInverse(es[0], depth, fmt, tail);
      SkipNone(tail);
      CutAtEnd([COMMA], sp + (more + rest));
      ElemsStart(es[1..], depth, fmt);
      SkipOne(fmt, 32, more + rest);
      ElemsInverse(es[1..], depth, fmt, rest);
      assert es == [es[0]] + es[1..];
    }
  }

  lemma {:induction false} MembersInverse(ms: seq<Member>, depth: nat, fmt: bool, rest: bytes)
    requires ms != [] && depth > 0 && forall m :: m in ms ==> NulFree(m.name) && Printable(m.v)
    ensures ParseMembers(MembersText(ms, depth, fmt) + rest) == Parsed((ms, rest))
    decreases ms, 1
  {
    hide Text, ParseValue, Skip, Quote, ParseString, Line;
    var m := ms[0];
    var sp, text := if fmt then [9] else [], Text(m.v, depth, fmt);
    var tail := if |ms| == 1 then Line(fmt, depth - 1) + [RBRACE]
                else [COMMA] + (Line(fmt, depth) + MembersText(ms[1..], depth, fmt));
    Assoc(Quote(m.name), [COLON] + (sp + (text + tail)), rest);
    Assoc([COLON], sp + (text + tail), rest);
    Assoc(sp, text + tail, rest);
    Assoc(text, tail, rest);
    StringInverse(m.name, [COLON] + (sp + (text + (tail + rest))));
    SkipNone([COLON] + (sp + (text + (tail + rest))));
    CutAtEnd([COLON], sp + (text + (tail + rest)));
    TextStarts(m.v, depth, fmt);
    SkipOne(fmt, 9, text + (tail + rest));
    if |ms| == 1 {
      var line := Line(fmt, depth - 1);
      Assoc(line, [RBRACE], rest);
      LineFollows(fmt, depth - 1, [RBRACE] + rest);
      ValueInverse(m.v, depth, fmt, tail + rest);
      SkipLine(fmt, depth - 1, [RBRACE] + rest);
      CutAtEnd([RBRACE], rest);
      assert ms == [m];
    } else {
      var line, more := Line(fmt, depth), MembersText(ms[1..], depth, fmt);
      Assoc([COMMA], line + more, rest);
      Assoc(line, more, rest);
      ValueInverse(m.v, depth, fmt, tail + rest);
      SkipNone(tail + rest);
      CutAtEnd([COMMA], line + (more + rest));
      MembersStart(ms[1..], depth, fmt);
      SkipLine(fmt, depth, more + rest);
      MembersInverse(ms[1..], depth, fmt, rest);
      assert ms == [m] + ms[1..];
    }
  }

  lemma LineFollows(fmt: bool, depth: nat, t: bytes)
    requires Follows(t)
    ensures Follows(Line(fmt, depth) + t)
  {
    if !fmt {
      AppendEmpty(t);
    }
  }

  /** cJSON_Parse of cJSON_Print and of cJSON_PrintUnformatted. */
  lemma PrintParse(v: Value, fmt: bool)
    requires Printable(v)
    ensures ParseValue(Skip(Text(v, 0, fmt))) == Parsed((v, []))
  {
    hide Text, ParseValue, Skip;
    TextStarts(v, 0, fmt);
    SkipNone(Text(v, 0, fmt));
    AppendEmpty(Text(v, 0, fmt));
    ValueInverse(v, 0, fmt, []);
  }
}
