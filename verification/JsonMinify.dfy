/** cJSON_Minify: what it makes of a text, that the formatted text of a tree becomes the unformatted one, and
    that it can be done in place. */
module JsonMinify {
  import opened Bytes
  import opened JsonStrings
  import opened JsonText
  import opened Wrappers

  const SLASH: byte := 47
  const STAR: byte := 42

  predicate IsSpace(b: byte) {
    b == 32 || b == 9 || b == 13 || b == 10
  }

  /** From a double slash to the end of its line. */
  function LineRest(t: bytes): (r: bytes)
    ensures |r| <= |t|
  {
    if t == [] || t[0] == 10 then t else LineRest(t[1..])
  }

  /** Behind a comment; None where it does not end. */
  function CommentRest(t: bytes): (r: Option<bytes>)
    ensures r.Some? ==> |r.value| < |t|
  {
    if |t| < 2 then None
    else if t[0] == STAR && t[1] == SLASH then Some(t[2..])
    else CommentRest(t[1..])
  }

  /** How long a string is behind its opening quote, with the closing one; None where it does not end. */
  function StringLength(t: bytes, i: nat): (r: Option<nat>)
    requires i <= |t|
    ensures r.Some? ==> i < r.value <= |t|
    decreases |t| - i
  {
    if i == |t| then None
    else if t[i] == QUOTE then Some(i + 1)
    else if t[i] == BACKSLASH then if i + 2 > |t| then None else StringLength(t, i + 2)
    else StringLength(t, i + 1)
  }

  function Onto(a: bytes, r: Option<bytes>): Option<bytes> {
    match r
    case None => None
    case Some(m) => Some(a + m)
  }

  /** The text without white space and comments outside of strings; None where a comment or a string does
      not end, and the code runs over the end of the text. */
  function Minified(t: bytes): (r: Option<bytes>)
    decreases |t|
  {
    if t == [] then Some([])
    else if IsSpace(t[0]) then Minified(t[1..])
    else if |t| > 1 && t[0] == SLASH && t[1] == SLASH then Minified(LineRest(t[1..]))
    else if |t| > 1 && t[0] == SLASH && t[1] == STAR then
      match CommentRest(t[1..])
      case None => None
      case Some(r) => Minified(r)
    else if t[0] == QUOTE then
      match StringLength(t, 1)
      case None => None
      case Some(n) => Onto(t[..n], Minified(t[n..]))
    else Onto([t[0]], Minified(t[1..]))
  }

  // ---------------------------------------------------------------- what goes

  lemma WhiteSpace(c: char, t: bytes)
    requires c in {' ', '\t', '\r', '\n'}
    ensures Minified([c as int] + t) == Minified(t)
  {
    CutAtEnd([c as int], t);
  }

  /** A comment to the end of its line */
  lemma LineComment(c: bytes, t: bytes)
    requires '\n' as int !in c
    ensures Minified(['/' as int, '/' as int] + (c + (['\n' as int] + t))) == Minified(t)
  {
    var s := ['/' as int, '/' as int] + (c + (['\n' as int] + t));
    assert s[1..] == ['/' as int] + c + (['\n' as int] + t);
    LineEnds(['/' as int] + c, ['\n' as int] + t);
    WhiteSpace('\n', t);
  }

  lemma {:induction false} LineEnds(c: bytes, t: bytes)
    requires 10 !in c && t != [] && t[0] == 10
    ensures LineRest(c + t) == t
  {
    if c == [] {
      AppendEmpty(t);
    } else {
      assert (c + t)[0] == c[0] && (c + t)[1..] == c[1..] + t;
      LineEnds(c[1..], t);
    }
  }

  /** A comment in stars. One that begins with a slash is over there, since its star is taken twice. */
  lemma BlockComment(c: bytes, t: bytes)
    requires (forall i :: 0 <= i < |c| ==> c[i] != '*' as int) && (c != [] ==> c[0] != '/' as int)
    ensures Minified(['/' as int, '*' as int] + (c + (['*' as int, '/' as int] + t))) == Minified(t)
  {
    var s := ['/' as int, '*' as int] + (c + (['*' as int, '/' as int] + t));
    var u := c + (['*' as int, '/' as int] + t);
    assert s[1..] == ['*' as int] + u;
    BlockStart(c, t);
    assert (['*' as int] + u)[1..] == u;
    CommentEnds(c, t);
  }

  lemma BlockStart(c: bytes, t: bytes)
    ensures (c + (['*' as int, '/' as int] + t))[0] == if c == [] then '*' as int else c[0]
  {
  }

  lemma {:induction false} CommentEnds(c: bytes, t: bytes)
    requires forall i :: 0 <= i < |c| ==> c[i] != STAR
    ensures CommentRest(c + ([STAR, SLASH] + t)) == Some(t)
  {
    var s := c + ([STAR, SLASH] + t);
    if c == [] {
      assert s == [STAR, SLASH] + t && s[2..] == t;
    } else {
      assert s[0] == c[0] && s[1..] == c[1..] + ([STAR, SLASH] + t);
      CommentEnds(c[1..], t);
    }
  }

  // ---------------------------------------------------------------- printed texts

  lemma OntoTwice(a: bytes, b: bytes, r: Option<bytes>)
    ensures Onto(a, Onto(b, r)) == Onto(a + b, r)
  {
    if r.Some? {
      Assoc(a, b, r.value);
    }
  }

  predicate Bare(a: bytes) {
    forall i :: 0 <= i < |a| ==> !IsSpace(a[i]) && a[i] != SLASH && a[i] != QUOTE
  }

  lemma {:induction false} BareKept(a: bytes, rest: bytes)
    requires Bare(a)
    ensures Minified(a + rest) == Onto(a, Minified(rest))
  {
    if a == [] {
      AppendEmpty(rest);
      if Minified(rest).Some? {
        AppendEmpty(Minified(rest).value);
      }
    } else {
      assert (a + rest)[0] == a[0] && (a + rest)[1..] == a[1..] + rest;
      BareKept(a[1..], rest);
      OntoTwice([a[0]], a[1..], Minified(rest));
      assert [a[0]] + a[1..] == a;
    }
  }

  lemma {:induction false} TabsDropped(n: nat, rest: bytes)
    ensures Minified(Tabs(n) + rest) == Minified(rest)
  {
    if n == 0 {
      AppendEmpty(rest);
    } else {
      Assoc([9], Tabs(n - 1), rest);
      CutAtEnd([9], Tabs(n - 1) + rest);
      TabsDropped(n - 1, rest);
    }
  }

  lemma LineDropped(depth: nat, rest: bytes)
    ensures Minified(Line(true, depth) + rest) == Minified(rest)
  {
    Assoc([10], Tabs(depth), rest);
    CutAtEnd([10], Tabs(depth) + rest);
    TabsDropped(depth, rest);
  }

  lemma SpaceDropped(b: byte, rest: bytes)
    requires IsSpace(b)
    ensures Minified([b] + rest) == Minified(rest)
  {
    CutAtEnd([b], rest);
  }

  /** A printed string ends at its closing quote. */
  lemma {:induction false} QuoteLength(t: bytes, i: nat, s: bytes, rest: bytes)
    requires i <= |t| && t[i..] == Escape(s) + ([QUOTE] + rest)
    ensures StringLength(t, i) == Some(|t| - |rest|)
    decreases |s|
  {
    if s == [] {
      AppendEmpty([QUOTE] + rest);
      assert t[i..][0] == t[i];
    } else {
      var e, more := EscapeOne(s[0]), Escape(s[1..]) + ([QUOTE] + rest);
      Assoc(e, Escape(s[1..]), [QUOTE] + rest);
      SplitAt(t, i, e, more);
      QuoteLength(t, i + |e|, s[1..], rest);
      EscapeSkipped(t, i, s[0]);
    }
  }

  lemma SplitAt(t: bytes, i: nat, e: bytes, more: bytes)
    requires i <= |t| && t[i..] == e + more
    ensures i + |e| <= |t| && t[i + |e|..] == more && forall k :: 0 <= k < |e| ==> e[k] == t[i + k]
  {
    HeadAt(t, i, e, more);
  }

  lemma EscapeSkipped(t: bytes, i: nat, b: byte)
    requires i + |EscapeOne(b)| <= |t| && forall k :: 0 <= k < |EscapeOne(b)| ==> EscapeOne(b)[k] == t[i + k]
    ensures StringLength(t, i) == StringLength(t, i + |EscapeOne(b)|)
  {
    var e := EscapeOne(b);
    assert e[0] == t[i];
    if !Plain(b) && Letter(b) == 0 {
      assert e[2] == t[i + 2] && e[3] == t[i + 3] && e[4] == t[i + 4] && e[5] == t[i + 5];
      assert StringLength(t, i + 2) == StringLength(t, i + 3);
      assert StringLength(t, i + 3) == StringLength(t, i + 4);
      assert StringLength(t, i + 4) == StringLength(t, i + 5);
    }
  }

  lemma QuoteKept(s: bytes, rest: bytes)
    ensures Minified(Quote(s) + rest) == Onto(Quote(s), Minified(rest))
  {
    var t := Quote(s) + rest;
    assert t[1..] == Escape(s) + ([QUOTE] + rest);
    QuoteLength(t, 1, s, rest);
    CutAtEnd(Quote(s), rest);
  }

  lemma NumberBare(n: int)
    ensures Bare(Number(n))
  {
  }

  /** Minifying the formatted text of a value gives the unformatted one. */
  lemma {:induction false} ValueMinified(v: Value, depth: nat, rest: bytes)
    ensures Minified(Text(v, depth, true) + rest) == Onto(Text(v, depth, false), Minified(rest))
    decreases v, 0
  {
    hide Minified, Number, Quote, ElemsText, MembersText, Line;
    match v {
      case Num(n) =>
        NumberBare(n);
        BareKept(Number(n), rest);
      case Dec(digits, exp) =>
        NumberBare(digits);
        NumberBare(exp);
        BareKept(Text(v, depth, true), rest);
      case Str(s) =>
        QuoteKept(s, rest);
      case Arr(es) =>
        var body := if es == [] then [RBRACKET] else ElemsText(es, depth + 1, true);
        Assoc([LBRACKET], body, rest);
        BareKept([LBRACKET], body + rest);
        if es == [] {
          BareKept([RBRACKET], rest);
          OntoTwice([LBRACKET], [RBRACKET], Minified(rest));
        } else {
          ElemsMinified(es, depth + 1, rest);
          OntoTwice([LBRACKET], ElemsText(es, depth + 1, false), Minified(rest));
        }
      case Obj(ms) =>
        if ms == [] {
          EmptyMinified(if depth > 0 then depth - 1 else 0, rest);
        } else {
          var line, body := Line(true, depth + 1), MembersText(ms, depth + 1, true);
          Assoc([LBRACE], line + body, rest);
          Assoc(line, body, rest);
          BareKept([LBRACE], line + (body + rest));
          LineDropped(depth + 1, body + rest);
          MembersMinified(ms, depth + 1, rest);
          NoLine(depth + 1, MembersText(ms, depth + 1, false));
          OntoTwice([LBRACE], MembersText(ms, depth + 1, false), Minified(rest));
        }
      case _ =>
        BareKept(Text(v, depth, true), rest);
    }
  }

  lemma NoLine(depth: nat, t: bytes)
    ensures Line(false, depth) + t == t
  {
  }

  lemma EmptyMinified(depth: nat, rest: bytes)
    ensures Minified([LBRACE] + (Line(true, depth) + [RBRACE]) + rest)
            == Onto([LBRACE] + (Line(false, depth) + [RBRACE]), Minified(rest))
  {
    hide Minified, Line;
    Assoc([LBRACE], Line(true, depth) + [RBRACE], rest);
    Assoc(Line(true, depth), [RBRACE], rest);
    BareKept([LBRACE], Line(true, depth) + ([RBRACE] + rest));
    LineDropped(depth, [RBRACE] + rest);
    BareKept([RBRACE], rest);
    NoLine(depth, [RBRACE]);
    OntoTwice([LBRACE], [RBRACE], Minified(rest));
  }

  lemma {:induction false} ElemsMinified(es: seq<Value>, depth: nat, rest: bytes)
    requires es != []
    ensures Minified(ElemsText(es, depth, true) + rest) == Onto(ElemsText(es, depth, false), Minified(rest))
    decreases es, 1
  {
    hide Minified, Text;
    var a, b := Text(es[0], depth, true), Text(es[0], depth, false);
    if |es| == 1 {
      Assoc(a, [RBRACKET], rest);
      ValueMinified(es[0], depth, [RBRACKET] + rest);
      BareKept([RBRACKET], rest);
      OntoTwice(b, [RBRACKET], Minified(rest));
    } else {
      var more, less := ElemsText(es[1..], depth, true), ElemsText(es[1..], depth, false);
      Assoc(a, [COMMA] + ([32] + more), rest);
      Assoc([COMMA], [32] + more, rest);
      Assoc([32], more, rest);
      ValueMinified(es[0], depth, [COMMA] + ([32] + (more + rest)));
      BareKept([COMMA], [32] + (more + rest));
      SpaceDropped(32, more + rest);
      ElemsMinified(es[1..], depth, rest);
      OntoTwice([COMMA], less, Minified(rest));
      AppendEmpty(less);
      OntoTwice(b, [COMMA] + less, Minified(rest));
    }
  }

  lemma {:induction false} MembersMinified(ms: seq<Member>, depth: nat, rest: bytes)
    requires ms != [] && depth > 0
    ensures Minified(MembersText(ms, depth, true) + rest) == Onto(MembersText(ms, depth, false), Minified(rest))
    decreases ms, 1
  {
    hide Minified, Text, Quote, Line;
    var name, a, b := Quote(ms[0].name), Text(ms[0].v, depth, true), Text(ms[0].v, depth, false);
    var tail := if |ms| == 1 then Line(true, depth - 1) + [RBRACE]
                else [COMMA] + (Line(true, depth) + MembersText(ms[1..], depth, true));
    var end := if |ms| == 1 then Line(false, depth - 1) + [RBRACE]
               else [COMMA] + (Line(false, depth) + MembersText(ms[1..], depth, false));
    EndMinified(ms, depth, tail, end, rest);
    Assoc(name, [COLON] + ([9] + (a + tail)), rest);
    Assoc([COLON], [9] + (a + tail), rest);
    Assoc([9], a + tail, rest);
    Assoc(a, tail, rest);
    QuoteKept(ms[0].name, [COLON] + ([9] + (a + (tail + rest))));
    BareKept([COLON], [9] + (a + (tail + rest)));
    SpaceDropped(9, a + (tail + rest));
    ValueMinified(ms[0].v, depth, tail + rest);
    OntoTwice(b, end, Minified(rest));
    OntoTwice([COLON], b + end, Minified(rest));
    AppendEmpty(b + end);
    OntoTwice(name, [COLON] + (b + end), Minified(rest));
  }

  lemma {:induction false} EndMinified(ms: seq<Member>, depth: nat, tail: bytes, end: bytes, rest: bytes)
    requires ms != [] && depth > 0
    requires tail == if |ms| == 1 then Line(true, depth - 1) + [RBRACE]
                     else [COMMA] + (Line(true, depth) + MembersText(ms[1..], depth, true))
    requires end == if |ms| == 1 then Line(false, depth - 1) + [RBRACE]
                    else [COMMA] + (Line(false, depth) + MembersText(ms[1..], depth, false))
    ensures Minified(tail + rest) == Onto(end, Minified(rest))
    decreases ms, 0
  {
    hide Minified, MembersText, Line;
    if |ms| == 1 {
      Assoc(Line(true, depth - 1), [RBRACE], rest);
      LineDropped(depth - 1, [RBRACE] + rest);
      BareKept([RBRACE], rest);
      NoLine(depth - 1, [RBRACE]);
    } else {
      var line, more := Line(true, depth), MembersText(ms[1..], depth, true);
      Assoc([COMMA], line + more, rest);
      Assoc(line, more, rest);
      BareKept([COMMA], line + (more + rest));
      LineDropped(depth, more + rest);
      MembersMinified(ms[1..], depth, rest);
      NoLine(depth, MembersText(ms[1..], depth, false));
      OntoTwice([COMMA], MembersText(ms[1..], depth, false), Minified(rest));
    }
  }

  /** cJSON_Minify of cJSON_Print is cJSON_PrintUnformatted. */
  lemma PrintMinify(v: Value)
    ensures Minified(Text(v, 0, true)) == Some(Text(v, 0, false))
  {
    hide Text;
    ValueMinified(v, 0, []);
    AppendEmpty(Text(v, 0, true));
    AppendEmpty(Text(v, 0, false));
  }

  // ---------------------------------------------------------------- in place

  /** The text from position j on is untouched, and what is before `into` is the result so far. */
  ghost predicate Left(json: array<byte>, into: nat, j: nat, t: bytes, done: bytes)
    reads json
  {
    && into <= j <= |t| < json.Length && json[..into] == done
    && (forall k :: j <= k < |t| ==> json[k] == t[k]) && json[|t|] == 0
  }

  /** *into++ = *json++ */
  method CopyOne(json: array<byte>, into: nat, j: nat, ghost t: bytes, ghost done: bytes)
    requires Left(json, into, j, t, done) && j < |t|
    modifies json
    ensures Left(json, into + 1, j + 1, t, done + [t[j]])
  {
    json[into] := json[j];
  }

  lemma Drop(t: bytes, j: nat)
    requires j < |t|
    ensures t[j..] != [] && t[j..][0] == t[j] && t[j..][1..] == t[j + 1..]
    ensures |t[j..]| > 1 <==> j + 1 < |t|
    ensures j + 1 < |t| ==> t[j..][1] == t[j + 1]
  {
  }

  /** A comment to the end of its line. */
  method SkipLineComment(json: array<byte>, into: nat, j0: nat, ghost t: bytes, ghost done: bytes) returns (j: nat)
    requires Left(json, into, j0, t, done) && NulFree(t) && j0 < |t| && t[j0] == SLASH
    ensures j0 < j && Left(json, into, j, t, done) && t[j..] == LineRest(t[j0 + 1..])
  {
    j := j0;
    while json[j] != 0 && json[j] != 10
      invariant j0 <= j && Left(json, into, j, t, done)
      invariant j > j0 ==> LineRest(t[j..]) == LineRest(t[j0 + 1..])
      decreases |t| - j
    {
      Drop(t, j);
      j := j + 1;
    }
  }

  /** A comment to its end, if it has one: the code goes two bytes on in any case. */
  method SkipComment(json: array<byte>, into: nat, j0: nat, ghost t: bytes, ghost done: bytes) returns (ends: bool, j: nat)
    requires Left(json, into, j0, t, done) && NulFree(t) && j0 < |t| && t[j0] == SLASH
    ensures ends <==> CommentRest(t[j0 + 1..]).Some?
    ensures ends ==> j0 < j && Left(json, into, j, t, done) && Some(t[j..]) == CommentRest(t[j0 + 1..])
  {
    j := j0;
    while json[j] != 0 && !(json[j] == STAR && json[j + 1] == SLASH)
      invariant j0 <= j && Left(json, into, j, t, done)
      invariant j > j0 ==> CommentRest(t[j..]) == CommentRest(t[j0 + 1..])
      decreases |t| - j
    {
      Drop(t, j);
      j := j + 1;
    }
    ends := json[j] != 0;
    if ends {
      Drop(t, j);
      assert t[j..][2..] == t[j + 2..];
      j := j + 2;
    }
  }

  /** A string, copied to its closing quote, if it has one: the code copies what is there in any case. */
  method CopyString(json: array<byte>, into0: nat, j0: nat, ghost t: bytes, ghost done: bytes)
    returns (ends: bool, into: nat, j: nat)
    requires Left(json, into0, j0, t, done) && NulFree(t) && j0 < |t| && t[j0] == QUOTE
    modifies json
    ensures ends <==> StringLength(t[j0..], 1).Some?
    ensures ends ==>
              var n := StringLength(t[j0..], 1).value; j == j0 + n && Left(json, into, j, t, done + t[j0..][..n])
  {
    ghost var u, copied := t[j0..], [t[j0]];
    CopyOne(json, into0, j0, t, done);
    ends, into, j := true, into0 + 1, j0 + 1;
    while ends && json[j] != 0 && json[j] != QUOTE
      invariant ends ==> j0 < j <= |t| && copied == u[..j - j0] && Left(json, into, j, t, done + copied)
      invariant if ends then StringLength(u, j - j0) == StringLength(u, 1) else StringLength(u, 1) == None
      decreases ends, |t| - j
    {
      ends, into, j, copied := CopyChar(json, into, j0, j, t, done, copied);
    }
    if !ends || json[j] == 0 {
      ends := false;
      return;
    }
    assert u[j - j0] == t[j];
    Longer(u, done, j - j0);
    CopyOne(json, into, j, t, done + copied);
    into, j := into + 1, j + 1;
  }

  lemma LengthBehind(u: bytes, i: nat)
    requires i < |u| && u[i] != QUOTE
    ensures u[i] != BACKSLASH ==> StringLength(u, i) == StringLength(u, i + 1)
    ensures u[i] == BACKSLASH ==> StringLength(u, i) == if i + 2 > |u| then None else StringLength(u, i + 2)
  {
  }

  /** A character of a string, or a backslash and the character behind it. */
  method CopyChar(json: array<byte>, into0: nat, ghost start: nat, j0: nat, ghost t: bytes, ghost done: bytes, ghost copied0: bytes)
    returns (ends: bool, into: nat, j: nat, ghost copied: bytes)
    requires start < j0 < |t| && copied0 == t[start..][..j0 - start] && Left(json, into0, j0, t, done + copied0)
    requires NulFree(t) && t[j0] != QUOTE
    modifies json
    ensures ends ==> j0 < j <= |t| && copied == t[start..][..j - start] && Left(json, into, j, t, done + copied)
    ensures ends ==> StringLength(t[start..], j - start) == StringLength(t[start..], j0 - start)
    ensures !ends ==> StringLength(t[start..], j0 - start) == None
  {
    hide StringLength;
    ghost var u := t[start..];
    assert u[j0 - start] == t[j0];
    LengthBehind(u, j0 - start);
    ends, into, j, copied := true, into0, j0, copied0;
    if json[j] == BACKSLASH {
      Longer(u, done, j - start);
      CopyOne(json, into, j, t, done + copied);
      into, j, copied := into + 1, j + 1, u[..j + 1 - start];
      if json[j] == 0 {
        ends := false;
        return;
      }
    }
    assert u[j - start] == t[j];
    Longer(u, done, j - start);
    CopyOne(json, into, j, t, done + copied);
    into, j, copied := into + 1, j + 1, u[..j + 1 - start];
  }

  lemma Longer(u: bytes, done: bytes, n: nat)
    requires n < |u|
    ensures done + u[..n] + [u[n]] == done + u[..n + 1]
  {
  }

  /** One round of the loop. */
  method Round(json: array<byte>, into0: nat, j0: nat, ghost t: bytes, ghost done0: bytes)
    returns (ends: bool, into: nat, j: nat, ghost done: bytes)
    requires Left(json, into0, j0, t, done0) && NulFree(t) && j0 < |t|
    modifies json
    ensures ends ==>
              j0 < j && Left(json, into, j, t, done) && Onto(done, Minified(t[j..])) == Onto(done0, Minified(t[j0..]))
    ensures !ends ==> Minified(t[j0..]) == None
  {
    hide StringLength, CommentRest, LineRest;
    ends, into, j, done := true, into0, j0, done0;
    Drop(t, j);
    assert t[j0 + 1..] == t[j0..][1..];
    if json[j] == 32 || json[j] == 9 || json[j] == 13 || json[j] == 10 {
      j := j + 1;
    } else if json[j] == SLASH && json[j + 1] == SLASH {
      j := SkipLineComment(json, into, j, t, done);
    } else if json[j] == SLASH && json[j + 1] == STAR {
      ends, j := SkipComment(json, into, j, t, done);
    } else if json[j] == QUOTE {
      ends, into, j := CopyString(json, into, j, t, done);
      if !ends {
        return;
      }
      ghost var n := j - j0;
      assert t[j0..][n..] == t[j..];
      done := done0 + t[j0..][..n];
      OntoTwice(done0, t[j0..][..n], Minified(t[j..]));
    } else {
      CopyOne(json, into, j, t, done);
      into, j := into + 1, j + 1;
      done := done0 + [t[j0]];
      OntoTwice(done0, [t[j0]], Minified(t[j..]));
    }
  }

  /** cJSON_Minify. What it writes never overtakes what it reads. It goes past the end of the text if and only if
      the text ends inside a comment or a string, and is followed here up to there. */
  method Minify(json: array<byte>, ghost t: bytes) returns (overrun: bool)
    requires |t| < json.Length && json[..|t|] == t && NulFree(t) && json[|t|] == 0
    modifies json
    ensures overrun <==> Minified(t) == None
    ensures !overrun ==> var m := Minified(t).value; |m| <= |t| && json[..|m| + 1] == m + [0]
  {
    hide Minified;
    var into: nat, j: nat, ends := 0, 0, true;
    ghost var done: bytes := [];
    assert t[0..] == t;
    if Minified(t).Some? {
      AppendEmpty(Minified(t).value);
    }
    while ends && json[j] != 0
      invariant if ends then Left(json, into, j, t, done) && Onto(done, Minified(t[j..])) == Minified(t)
                else Minified(t) == None
      decreases ends, |t| - j
    {
      ends, into, j, done := Round(json, into, j, t, done);
    }
    if !ends {
      return true;
    }
    NothingLeft(t[j..]);
    AppendEmpty(done);
    json[into] := 0;
    assert json[..into + 1] == json[..into] + [0];
    return false;
  }

  lemma NothingLeft(u: bytes)
    requires u == []
    ensures Minified(u) == Some([])
  {
  }
}
