/** The recursive-descent parser of cJSON: a cursor that moves over the text, against the functions of
    JsonText. */
module JsonParser {
  import opened Bytes
  import opened HexText
  import opened JsonStrings
  import opened JsonText

  /** The outcome of a parse from a position: a failure, or what was read and where the text goes on. */
  ghost predicate Is<T>(spec: Parse<(T, bytes)>, s: bytes, r: Parse<(T, nat)>) {
    match r
    case Refused => spec == Refused
    case Astray => spec == Astray
    case Parsed(x) => x.1 <= |s| && spec == Parsed((x.0, s[x.1..]))
  }

  method SkipAt(s: bytes, pos: nat) returns (i: nat)
    requires pos <= |s| && NulFree(s)
    ensures pos <= i <= |s| && s[i..] == Skip(s[pos..])
  {
    i := pos;
    while i < |s| && s[i] <= 32
      invariant pos <= i <= |s| && Skip(s[i..]) == Skip(s[pos..])
    {
      assert s[i..][1..] == s[i + 1..];
      i := i + 1;
    }
  }

  method DigitsAt(s: bytes, pos: nat, acc: nat) returns (n: nat, end: nat)
    requires pos <= |s|
    ensures pos <= end <= |s| && ReadDecimal(s[pos..], acc) == (n, s[end..])
  {
    n, end := acc, pos;
    while end < |s| && IsDigit(s[end])
      invariant pos <= end <= |s| && ReadDecimal(s[end..], n) == ReadDecimal(s[pos..], acc)
    {
      assert s[end..][1..] == s[end + 1..];
      n := n * 10 + (s[end] as int - 48);
      end := end + 1;
    }
  }

  /** The digits behind the sign. */
  method IntegerAt(s: bytes, pos: nat) returns (n: nat, end: nat)
    requires pos <= |s|
    ensures pos <= end <= |s| && ReadInteger(s[pos..]) == (n, s[end..])
  {
    n, end := 0, pos;
    if end < |s| && s[end] == 48 {
      assert s[end..][1..] == s[end + 1..];
      end := end + 1;
    }
    if end < |s| && 49 <= s[end] <= 57 {
      n, end := DigitsAt(s, end, 0);
    }
  }

  method FractionAt(s: bytes, pos: nat, n: nat) returns (m: nat, scale: int, end: nat)
    requires pos <= |s|
    ensures pos <= end <= |s| && ReadFraction(s[pos..], n) == (m, scale, s[end..])
  {
    m, scale, end := n, 0, pos;
    if |s| - pos > 1 && s[pos] == 46 && IsDigit(s[pos + 1]) {
      assert s[pos..][1..] == s[pos + 1..];
      m, end := DigitsAt(s, pos + 1, n);
      scale := pos + 1 - end;
    }
  }

  method ExponentAt(s: bytes, pos: nat) returns (exp: int, end: nat)
    requires pos <= |s|
    ensures pos <= end <= |s| && ReadExponent(s[pos..]) == (exp, s[end..])
  {
    exp, end := 0, pos;
    if end < |s| && (s[end] == 101 || s[end] == 69) {
      assert s[end..][1..] == s[end + 1..];
      end := end + 1;
      var signsubscale: int := 1;
      if end < |s| && s[end] == 43 {
        assert s[end..][1..] == s[end + 1..];
        end := end + 1;
      } else if end < |s| && s[end] == MINUS {
        assert s[end..][1..] == s[end + 1..];
        signsubscale := -1;
        end := end + 1;
      }
      var subscale;
      subscale, end := DigitsAt(s, end, 0);
      exp := subscale * signsubscale;
    }
  }

  /** parse_number, with the number kept as digits and a power of ten where it is not an integer of 32 bits. */
  method ParseNumberAt(s: bytes, pos: nat) returns (v: Value, end: nat)
    requires pos < |s| && (s[pos] == MINUS || IsDigit(s[pos]))
    ensures pos < end <= |s| && ParseNumber(s[pos..]) == (v, s[end..])
  {
    hide ReadInteger, ReadFraction, ReadExponent;
    var num: nat, sign: int := pos, 1;
    if s[num] == MINUS {
      sign := -1;
      num := num + 1;
    }
    assert s[num..] == if s[pos] == MINUS then s[pos..][1..] else s[pos..];
    var n, m, scale, exp;
    n, num := IntegerAt(s, num);
    var integer := num;
    m, scale, num := FractionAt(s, num, n);
    exp, end := ExponentAt(s, num);
    assert s[end..] == s[integer..] <==> end == integer by {
      assert |s[end..]| == |s| - end && |s[integer..]| == |s| - integer;
    }
    var value := sign * m;
    v := if end == integer && -0x8000_0000 <= value <= 0x7FFF_FFFF then Num(value) else Dec(value, scale + exp);
  }

  /** Whether the text goes on with a word: strncmp. */
  method WordAt(s: bytes, pos: nat, w: bytes) returns (b: bool)
    requires pos <= |s|
    ensures b <==> w <= s[pos..]
  {
    b := |w| <= |s| - pos && s[pos..pos + |w|] == w;
    assert |w| <= |s| - pos ==> s[pos..][..|w|] == s[pos..pos + |w|];
  }

  method ParseStringAt(s: bytes, pos: nat) returns (r: Parse<(bytes, nat)>)
    requires NulFree(s) && pos <= |s|
    ensures Is(JsonText.ParseString(s[pos..]), s, r) && (r.Parsed? ==> r.value.1 > pos)
  {
    if pos == |s| || s[pos] != QUOTE {
      return Refused;
    }
    var ok, out, n, end := JsonStrings.ParseString(s, pos);
    ReadShift(s, pos, pos + 1);
    MeasureShift(s, pos, pos + 1);
    if !ok {
      return Astray;
    }
    assert s[pos..][end - pos..] == s[end..];
    r := Parsed((out[..n], end));
  }

  lemma {:induction false} MeasureShift(s: bytes, pos: nat, i: nat)
    requires pos <= i <= |s|
    ensures Measure(s[pos..], i - pos)
         == match Measure(s, i) case NoStop => NoStop case Measured(len, stop) => Measured(len, stop - pos)
    decreases |s| - i
  {
    if i < |s| && s[i] != QUOTE {
      assert s[pos..][i - pos] == s[i];
      if s[i] != BACKSLASH {
        MeasureShift(s, pos, i + 1);
      } else if i + 1 < |s| {
        MeasureShift(s, pos, i + 2);
      }
    }
  }

  /** Reading a string does not depend on where the text begins. */
  lemma {:induction false} ReadShift(s: bytes, pos: nat, i: nat)
    requires pos <= i <= |s|
    ensures ReadFrom(s[pos..], i - pos) == Shift(ReadFrom(s, i), pos)
    decreases |s| - i
  {
    hide EscapeAt;
    var t := s[pos..];
    if i < |s| && s[i] != QUOTE {
      assert t[i - pos] == s[i];
      if s[i] != BACKSLASH {
        ReadShift(s, pos, i + 1);
      } else {
        EscapeShift(s, pos, i);
        if EscapeAt(s, i).Decoded? {
          ReadShift(s, pos, i + EscapeAt(s, i).len);
        }
      }
    }
  }

  function Shift(r: Read, pos: nat): Read
    requires r.Read? ==> r.end >= pos
  {
    match r
    case Overrun => Overrun
    case Read(v, end) => Read(v, end - pos)
  }

  lemma EscapeShift(s: bytes, pos: nat, i: nat)
    requires pos <= i < |s|
    ensures EscapeAt(s[pos..], i - pos) == EscapeAt(s, i)
  {
    hide Hex4, Utf8;
    Hex4Shift(s, pos, i + 2);
    Hex4Shift(s, pos, i + 8);
    hide At;
    AtShift(s, pos, i + 6);
    AtShift(s, pos, i + 7);
  }

  lemma AtShift(s: bytes, pos: nat, j: nat)
    requires pos <= j && pos <= |s|
    ensures At(s[pos..], j - pos) == At(s, j)
  {
  }

  lemma Hex4Shift(s: bytes, pos: nat, j: nat)
    requires pos <= j && pos <= |s|
    ensures Hex4(s[pos..], j - pos) == Hex4(s, j)
  {
    AtShift(s, pos, j);
    AtShift(s, pos, j + 1);
    AtShift(s, pos, j + 2);
    AtShift(s, pos, j + 3);
  }

  /** What has been read of an array or an object, before the rest of it. */
  function Behind<T>(es: seq<T>, r: Parse<(seq<T>, bytes)>): Parse<(seq<T>, bytes)> {
    var x :- r;
    Parsed((es + x.0, x.1))
  }

  lemma BehindTwice<T>(a: seq<T>, b: seq<T>, r: Parse<(seq<T>, bytes)>)
    ensures Behind(a, Behind(b, r)) == Behind(a + b, r)
  {
    if r.Parsed? {
      Assoc(a, b, r.value.0);
    }
  }

  /** An array behind an element. */
  function MoreElems(u: bytes): Parse<(seq<Value>, bytes)> {
    if u == [] then Refused
    else if u[0] == COMMA then ParseElems(Skip(u[1..]))
    else if u[0] == RBRACKET then Parsed(([], u[1..]))
    else Refused
  }

  lemma ElemThenMore(t: bytes)
    ensures ParseElems(t) == var x :- ParseValue(t); Behind([x.0], MoreElems(Skip(x.1)))
  {
    hide ParseValue, Skip;
    if ParseValue(t).Parsed? {
      AppendEmpty([ParseValue(t).value.0]);
    }
  }

  /** An object behind a member. */
  function MoreMembers(u: bytes): Parse<(seq<Member>, bytes)> {
    if u == [] then Refused
    else if u[0] == COMMA then ParseMembers(Skip(u[1..]))
    else if u[0] == RBRACE then Parsed(([], u[1..]))
    else Refused
  }

  /** A name, the colon and a value. */
  function ParseMember(t: bytes): Parse<(Member, bytes)> {
    var name :- JsonText.ParseString(t);
    var c := Skip(name.1);
    if c == [] || c[0] != COLON then Refused
    else
      var x :- ParseValue(Skip(c[1..]));
      Parsed((Member(name.0, x.0), x.1))
  }

  lemma MemberThenMore(t: bytes)
    ensures ParseMembers(t) == var x :- ParseMember(t); Behind([x.0], MoreMembers(Skip(x.1)))
  {
    hide ParseValue, Skip, JsonText.ParseString;
    if ParseMember(t).Parsed? {
      AppendEmpty([ParseMember(t).value.0]);
    }
  }

  /** A word of JSON */
  method ParseWordAt(s: bytes, pos: nat) returns (ok: bool, v: Value, end: nat)
    requires pos <= |s|
    ensures ok ==> pos < end <= |s| && ParseValue(s[pos..]) == Parsed((v, s[end..]))
    ensures !ok ==> !(NULL_TEXT <= s[pos..]) && !(FALSE_TEXT <= s[pos..]) && !(TRUE_TEXT <= s[pos..])
  {
    var word := WordAt(s, pos, NULL_TEXT);
    if word {
      assert s[pos..][4..] == s[pos + 4..];
      return true, Null, pos + 4;
    }
    word := WordAt(s, pos, FALSE_TEXT);
    if word {
      assert s[pos..][5..] == s[pos + 5..];
      return true, False, pos + 5;
    }
    word := WordAt(s, pos, TRUE_TEXT);
    if word {
      assert s[pos..][4..] == s[pos + 4..];
      return true, True, pos + 4;
    }
    return false, Null, pos;
  }

  /** parse_value */
  method ParseAt(s: bytes, pos: nat) returns (r: Parse<(Value, nat)>)
    requires NulFree(s) && pos <= |s|
    ensures Is(ParseValue(s[pos..]), s, r) && (r.Parsed? ==> r.value.1 > pos)
    decreases |s| - pos, 1
  {
    hide JsonText.ParseString, ParseNumber, ParseElems, ParseMembers, Skip;
    var ok, word, behind := ParseWordAt(s, pos);
    if ok {
      return Parsed((word, behind));
    }
    if pos == |s| {
      return Refused;
    }
    assert s[pos..][0] == s[pos];
    if s[pos] == QUOTE {
      var x :- ParseStringAt(s, pos);
      r := Parsed((Str(x.0), x.1));
    } else if s[pos] == MINUS || IsDigit(s[pos]) {
      var v, end := ParseNumberAt(s, pos);
      r := Parsed((v, end));
    } else if s[pos] == LBRACKET {
      r := ParseArrayAt(s, pos);
    } else if s[pos] == LBRACE {
      r := ParseObjectAt(s, pos);
    } else {
      r := Refused;
    }
  }

  /** parse_array */
  method ParseArrayAt(s: bytes, pos: nat) returns (r: Parse<(Value, nat)>)
    requires NulFree(s) && pos < |s| && s[pos] == LBRACKET
    ensures Is(ParseValue(s[pos..]), s, r) && (r.Parsed? ==> r.value.1 > pos)
    decreases |s| - pos, 0
  {
    hide ParseElems, Skip, MoreElems, Behind;
    assert s[pos..][1..] == s[pos + 1..];
    var value := SkipAt(s, pos + 1);
    ArrayAt(s, pos, value);
    if value < |s| && s[value] == RBRACKET {
      return Parsed((Arr([]), value + 1));
    }
    ElemThenMore(s[value..]);
    value := SkipAt(s, value);
    var child :- ParseAt(s, value);
    value := SkipAt(s, child.1);
    var es :- MoreElemsAt(s, value, child.0, pos);
    r := Parsed((Arr(es.0), es.1));
  }

  /** What is behind the bracket and the spaces behind it. */
  lemma ArrayAt(s: bytes, pos: nat, value: nat)
    requires pos < |s| && s[pos] == LBRACKET && pos < value <= |s| && s[value..] == Skip(s[pos + 1..])
    ensures Skip(s[value..]) == s[value..]
    ensures ParseValue(s[pos..])
         == if value < |s| && s[value] == RBRACKET then Parsed((Arr([]), s[value + 1..]))
            else var x :- ParseElems(s[value..]); Parsed((Arr(x.0), x.1))
  {
    hide Skip, ParseElems;
    assert s[pos..][1..] == s[pos + 1..];
    assert value < |s| ==> s[value..][1..] == s[value + 1..];
    SkipTwice(s[pos + 1..]);
    NotAWord(s[pos..]);
  }

  /** The loop of parse_array: the elements behind the first one. */
  method MoreElemsAt(s: bytes, value0: nat, first: Value, ghost limit: nat) returns (r: Parse<(seq<Value>, nat)>)
    requires NulFree(s) && limit < value0 <= |s|
    ensures Is(Behind([first], MoreElems(s[value0..])), s, r) && (r.Parsed? ==> r.value.1 > limit)
    decreases |s| - limit - 1, 2
  {
    hide ParseElems, ParseValue, Skip, MoreElems, Behind;
    var value, es := value0, [first];
    ghost var all := Behind([first], MoreElems(s[value0..]));
    while value < |s| && s[value] == COMMA
      invariant limit < value <= |s|
      invariant all == Behind(es, MoreElems(s[value..]))
      decreases |s| - value
    {
      CommaThen(s, value);
      value := SkipAt(s, value + 1);
      ElemThenMore(s[value..]);
      BehindFailure(es);
      var child :- ParseAt(s, value);
      value := SkipAt(s, child.1);
      BehindTwice(es, [child.0], MoreElems(s[value..]));
      es := es + [child.0];
    }
    EndThen(s, value, es);
    r := if value < |s| && s[value] == RBRACKET then Parsed((es, value + 1)) else Refused;
  }

  lemma {:induction false} SkipTwice(t: bytes)
    ensures Skip(Skip(t)) == Skip(t)
  {
    if t != [] && 0 < t[0] <= 32 {
      SkipTwice(t[1..]);
    }
  }

  lemma BehindFailure<T>(es: seq<T>)
    ensures Behind(es, Refused) == Refused && Behind(es, Astray) == Astray
  {
  }

  lemma CommaThen(s: bytes, value: nat)
    requires value < |s| && s[value] == COMMA
    ensures MoreElems(s[value..]) == ParseElems(Skip(s[value + 1..]))
    ensures MoreMembers(s[value..]) == ParseMembers(Skip(s[value + 1..]))
  {
    hide ParseElems, ParseMembers, Skip;
    assert s[value..][1..] == s[value + 1..];
  }

  lemma EndThen(s: bytes, value: nat, es: seq<Value>)
    requires value <= |s| && (value < |s| ==> s[value] != COMMA)
    ensures Behind(es, MoreElems(s[value..])) ==
            if value < |s| && s[value] == RBRACKET then Parsed((es, s[value + 1..])) else Refused
  {
    hide ParseElems, Skip;
    AppendEmpty(es);
    if value < |s| {
      assert s[value..][1..] == s[value + 1..];
    }
  }

  lemma EndMembers(s: bytes, value: nat, ms: seq<Member>)
    requires value <= |s| && (value < |s| ==> s[value] != COMMA)
    ensures Behind(ms, MoreMembers(s[value..])) ==
            if value < |s| && s[value] == RBRACE then Parsed((ms, s[value + 1..])) else Refused
  {
    hide ParseMembers, Skip;
    AppendEmpty(ms);
    if value < |s| {
      assert s[value..][1..] == s[value + 1..];
    }
  }

  /** The part of parse_object that is done for every member. */
  method ParseMemberAt(s: bytes, pos: nat, ghost limit: nat) returns (r: Parse<(Member, nat)>)
    requires NulFree(s) && limit < pos <= |s|
    ensures Is(ParseMember(s[pos..]), s, r) && (r.Parsed? ==> r.value.1 > pos)
    decreases |s| - limit - 1, 2
  {
    hide JsonText.ParseString, ParseValue, Skip;
    var name :- ParseStringAt(s, pos);
    var value := SkipAt(s, name.1);
    if value == |s| || s[value] != COLON {
      return Refused;
    }
    assert s[value..][1..] == s[value + 1..];
    value := SkipAt(s, value + 1);
    var x :- ParseAt(s, value);
    r := Parsed((Member(name.0, x.0), x.1));
  }

  /** parse_object */
  method ParseObjectAt(s: bytes, pos: nat) returns (r: Parse<(Value, nat)>)
    requires NulFree(s) && pos < |s| && s[pos] == LBRACE
    ensures Is(ParseValue(s[pos..]), s, r) && (r.Parsed? ==> r.value.1 > pos)
    decreases |s| - pos, 0
  {
    hide ParseMembers, ParseMember, Skip, MoreMembers, Behind;
    assert s[pos..][1..] == s[pos + 1..];
    var value := SkipAt(s, pos + 1);
    ObjectAt(s, pos, value);
    if value < |s| && s[value] == RBRACE {
      return Parsed((Obj([]), value + 1));
    }
    MemberThenMore(s[value..]);
    value := SkipAt(s, value);
    var child :- ParseMemberAt(s, value, pos);
    value := SkipAt(s, child.1);
    var ms :- MoreMembersAt(s, value, child.0, pos);
    r := Parsed((Obj(ms.0), ms.1));
  }

  lemma ObjectAt(s: bytes, pos: nat, value: nat)
    requires pos < |s| && s[pos] == LBRACE && pos < value <= |s| && s[value..] == Skip(s[pos + 1..])
    ensures Skip(s[value..]) == s[value..]
    ensures ParseValue(s[pos..])
         == if value < |s| && s[value] == RBRACE then Parsed((Obj([]), s[value + 1..]))
            else var x :- ParseMembers(s[value..]); Parsed((Obj(x.0), x.1))
  {
    hide Skip, ParseMembers;
    assert s[pos..][1..] == s[pos + 1..];
    assert value < |s| ==> s[value..][1..] == s[value + 1..];
    SkipTwice(s[pos + 1..]);
    NotAWord(s[pos..]);
  }

  /** The loop of parse_object: the members behind the first one. */
  method MoreMembersAt(s: bytes, value0: nat, first: Member, ghost limit: nat) returns (r: Parse<(seq<Member>, nat)>)
    requires NulFree(s) && limit < value0 <= |s|
    ensures Is(Behind([first], MoreMembers(s[value0..])), s, r) && (r.Parsed? ==> r.value.1 > limit)
    decreases |s| - limit - 1, 3
  {
    hide ParseMembers, ParseMember, Skip, MoreMembers, Behind;
    var value, ms := value0, [first];
    ghost var all := Behind([first], MoreMembers(s[value0..]));
    while value < |s| && s[value] == COMMA
      invariant limit < value <= |s|
      invariant all == Behind(ms, MoreMembers(s[value..]))
      decreases |s| - value
    {
      CommaThen(s, value);
      value := SkipAt(s, value + 1);
      MemberThenMore(s[value..]);
      BehindFailure(ms);
      var child :- ParseMemberAt(s, value, limit);
      value := SkipAt(s, child.1);
      BehindTwice(ms, [child.0], MoreMembers(s[value..]));
      ms := ms + [child.0];
    }
    EndMembers(s, value, ms);
    r := if value < |s| && s[value] == RBRACE then Parsed((ms, value + 1)) else Refused;
  }

  /** cJSON_Parse: a tree printed and parsed again is the same tree, and a text with the right escapes is not left. */
  method ParseText(s: bytes) returns (r: Parse<(Value, nat)>)
    requires NulFree(s)
    ensures Is(ParseValue(Skip(s)), s, r)
    ensures forall w, fmt :: Printable(w) && s == Text(w, 0, fmt) ==> r.Parsed? && r.value.0 == w && r.value.1 == |s|
    ensures TextEscapes(s) ==> r != Astray
  {
    hide ParseValue, Skip, Text, Printable, TextEscapes;
    var start := SkipAt(s, 0);
    assert s[0..] == s;
    r := ParseAt(s, start);
    forall w, fmt | Printable(w) && s == Text(w, 0, fmt) ensures r.Parsed? && r.value.0 == w && r.value.1 == |s| {
      PrintParse(w, fmt);
    }
    if TextEscapes(s) {
      EscapesSkip(s);
      ParsedInside(Skip(s));
    }
  }
}
