/** The unbuffered printer of cJSON: each value's text is composed in memory of a size worked out first. */
module JsonPrinter {
  import opened Bytes
  import opened JsonStrings
  import opened JsonText

  lemma {:induction false} DecimalLength(n: nat, k: nat, p: nat)
    requires n < p && p == Pow10(k) && k > 0
    ensures |Decimal(n)| <= k
    decreases k
  {
    if n >= 10 {
      var q := Pow10(k - 1);
      assert p == 10 * q && (k == 1 ==> q == 1);
      hide Pow10;
      DecimalLength(n / 10, k - 1, q);
    }
  }

  function Pow10(k: nat): nat {
    if k == 0 then 1 else 10 * Pow10(k - 1)
  }

  /** print_number: 21 bytes hold the digits, the sign and the NUL. */
  method PrintNumber(n: int) returns (out: bytes)
    requires Printable(Num(n))
    ensures out == Text(Num(n), 0, false) && |out| + 1 <= 21
  {
    assert Pow10(5) == 100000;
    assert Pow10(10) == 100000 * 100000;
    DecimalLength(if n < 0 then -n else n, 10, 10000000000);
    out := if n == 0 then [48] else Number(n);
  }

  /** What the texts of the children take, each with `extra` bytes around it. */
  function Total(entries: seq<bytes>, extra: nat): nat {
    if entries == [] then 0 else Total(entries[..|entries| - 1], extra) + |entries[|entries| - 1]| + extra
  }

  /** What is still to be written of an array from element i on. */
  function ArrayTail(es: seq<Value>, i: nat, depth: nat, fmt: bool): bytes
    requires i <= |es|
  {
    if i == |es| then [RBRACKET] else ElemsText(es[i..], depth, fmt)
  }

  function Between(fmt: bool): bytes {
    if fmt then [COMMA, 32] else [COMMA]
  }

  lemma ArrayTailStep(es: seq<Value>, i: nat, depth: nat, fmt: bool)
    requires i < |es|
    ensures ArrayTail(es, i, depth, fmt) ==
            Text(es[i], depth, fmt) + (if i == |es| - 1 then [] else Between(fmt)) + ArrayTail(es, i + 1, depth, fmt)
  {
    hide Text;
    assert es[i..][0] == es[i] && es[i..][1..] == es[i + 1..];
    if i == |es| - 1 {
      AppendEmpty(Text(es[i], depth, fmt));
    } else {
      var more := ElemsText(es[i + 1..], depth, fmt);
      assert [COMMA] + ((if fmt then [32] else []) + more) == Between(fmt) + more;
      Assoc(Text(es[i], depth, fmt), Between(fmt), more);
    }
  }

  /** Writes bytes behind what is there. */
  method Put(out: array<byte>, at: nat, bs: bytes, ghost tail: bytes, ghost whole: bytes) returns (next: nat)
    requires at + |bs| <= out.Length && out[..at] + (bs + tail) == whole
    modifies out
    ensures next == at + |bs| && out[..next] + tail == whole
  {
    ghost var front := out[..at];
    next := Write(out, at, bs);
    Assoc(front, bs, tail);
  }

  /** The composing half of print_array. */
  method ComposeArray(entries: seq<bytes>, ghost es: seq<Value>, ghost depth: nat, fmt: bool) returns (text: bytes)
    requires es != [] && |entries| == |es|
    requires forall i :: 0 <= i < |es| ==> entries[i] == Text(es[i], depth, fmt)
    ensures text == [LBRACKET] + ElemsText(es, depth, fmt)
  {
    hide Text, ElemsText, ArrayTail, Total;
    var extra := 2 + if fmt then 1 else 0;
    var len := 5 + Total(entries, extra);
    var out := new byte[len](_ => 0);
    ghost var whole := [LBRACKET] + ElemsText(es, depth, fmt);
    TailWhole(es, depth, fmt);
    assert out[..0] + ([LBRACKET] + ArrayTail(es, 0, depth, fmt)) == whole;
    var ptr: nat := Put(out, 0, [LBRACKET], ArrayTail(es, 0, depth, fmt), whole);
    var i: nat := 0;
    TotalStart(entries, extra);
    while i < |entries|
      invariant i <= |entries| && ptr <= 1 + Total(entries[..i], extra) <= len - 4 && out.Length == len
      invariant out[..ptr] + ArrayTail(es, i, depth, fmt) == whole
    {
      TotalStep(entries, extra, i);
      ArrayTailStep(es, i, depth, fmt);
      var sep := if i != |entries| - 1 then Between(fmt) else [];
      Assoc(entries[i], sep, ArrayTail(es, i + 1, depth, fmt));
      ptr := Put(out, ptr, entries[i], sep + ArrayTail(es, i + 1, depth, fmt), whole);
      ptr := Put(out, ptr, sep, ArrayTail(es, i + 1, depth, fmt), whole);
      i := i + 1;
    }
    TotalEnd(entries, extra, es, depth, fmt);
    AppendEmpty([RBRACKET]);
    ptr := Put(out, ptr, [RBRACKET], [], whole);
    AppendEmpty(out[..ptr]);
    out[ptr] := 0;
    assert out[..ptr] == whole;
    text := out[..ptr];
  }

  lemma TailWhole(es: seq<Value>, depth: nat, fmt: bool)
    requires es != []
    ensures ArrayTail(es, 0, depth, fmt) == ElemsText(es, depth, fmt)
  {
    hide Text;
    assert es[0..] == es;
  }

  lemma TotalStart(entries: seq<bytes>, extra: nat)
    ensures Total(entries[..0], extra) == 0 && entries[..|entries|] == entries
  {
  }

  lemma TotalStep(entries: seq<bytes>, extra: nat, i: nat)
    requires i < |entries|
    ensures Total(entries[..i + 1], extra) == Total(entries[..i], extra) + |entries[i]| + extra
    ensures Total(entries[..i + 1], extra) <= Total(entries, extra)
  {
    assert entries[..i + 1][..i] == entries[..i];
    TotalMonotone(entries, extra, i + 1, |entries|);
    assert entries[..|entries|] == entries;
  }

  lemma {:induction false} TotalMonotone(entries: seq<bytes>, extra: nat, i: nat, j: nat)
    requires i <= j <= |entries|
    ensures Total(entries[..i], extra) <= Total(entries[..j], extra)
  {
    if i < j {
      TotalMonotone(entries, extra, i, j - 1);
      assert entries[..j][..j - 1] == entries[..j - 1];
    }
  }

  lemma TotalEnd(entries: seq<bytes>, extra: nat, es: seq<Value>, depth: nat, fmt: bool)
    ensures Total(entries[..|entries|], extra) == Total(entries, extra)
    ensures ArrayTail(es, |es|, depth, fmt) == [RBRACKET]
  {
    assert entries[..|entries|] == entries;
  }

  // ---------------------------------------------------------------- objects

  /** Indentation, in formatted texts. */
  function Indent(fmt: bool, depth: nat): (t: bytes)
    ensures |t| == if fmt then depth else 0
  {
    if fmt then Tabs(depth) else []
  }

  function One(fmt: bool, b: byte): (t: bytes)
    ensures |t| == if fmt then 1 else 0
  {
    if fmt then [b] else []
  }

  /** What is still to be written of an object from member i on. */
  function ObjectTail(ms: seq<Member>, i: nat, depth: nat, fmt: bool): bytes
    requires i <= |ms| && depth > 0
  {
    if i == |ms| then Indent(fmt, depth - 1) + [RBRACE] else Indent(fmt, depth) + MembersText(ms[i..], depth, fmt)
  }

  lemma LineIs(fmt: bool, depth: nat, t: bytes)
    ensures Line(fmt, depth) + t == One(fmt, 10) + (Indent(fmt, depth) + t)
  {
    if fmt {
      Assoc([10], Tabs(depth), t);
    } else {
      AppendEmpty(t);
    }
  }

  lemma ObjectTailStep(ms: seq<Member>, i: nat, depth: nat, fmt: bool)
    requires i < |ms| && depth > 0
    ensures var comma := if i == |ms| - 1 then [] else [COMMA];
            ObjectTail(ms, i, depth, fmt) ==
            Indent(fmt, depth) + (Quote(ms[i].name) + ([COLON] + (One(fmt, 9) + (Text(ms[i].v, depth, fmt)
            + (comma + (One(fmt, 10) + ObjectTail(ms, i + 1, depth, fmt)))))))
  {
    hide Text, Quote, Line, Indent;
    assert ms[i..][0] == ms[i] && ms[i..][1..] == ms[i + 1..];
    if i == |ms| - 1 {
      LineIs(fmt, depth - 1, [RBRACE]);
      AppendEmpty(One(fmt, 10) + ObjectTail(ms, i + 1, depth, fmt));
    } else {
      LineIs(fmt, depth, MembersText(ms[i + 1..], depth, fmt));
    }
  }

  /** A member of an object, composed. */
  method ComposeMember(out: array<byte>, at0: nat, name: bytes, entry: bytes, last: bool, depth: nat, fmt: bool,
                       ghost tail: bytes, ghost whole: bytes) returns (ptr: nat)
    requires at0 + |name| + |entry| + 2 + (if fmt then 2 + depth else 0) <= out.Length
    requires var comma := if last then [] else [COMMA];
             out[..at0] + (Indent(fmt, depth) + (name + ([COLON] + (One(fmt, 9) + (entry
             + (comma + (One(fmt, 10) + tail))))))) == whole
    modifies out
    ensures ptr <= at0 + |name| + |entry| + 2 + if fmt then 2 + depth else 0
    ensures ptr <= out.Length && out[..ptr] + tail == whole
  {
    hide Indent, One;
    var comma := if last then [] else [COMMA];
    ghost var t6 := One(fmt, 10) + tail;
    ghost var t5 := comma + t6;
    ghost var t4 := entry + t5;
    ghost var t3 := One(fmt, 9) + t4;
    ghost var t2 := [COLON] + t3;
    ptr := Put(out, at0, Indent(fmt, depth), name + t2, whole);
    ptr := Put(out, ptr, name, t2, whole);
    ptr := Put(out, ptr, [COLON], t3, whole);
    ptr := Put(out, ptr, One(fmt, 9), t4, whole);
    ptr := Put(out, ptr, entry, t5, whole);
    ptr := Put(out, ptr, comma, t6, whole);
    ptr := Put(out, ptr, One(fmt, 10), tail, whole);
  }

  /** The composing half of print_object; `depth` counts the object itself. */
  method ComposeObject(names: seq<bytes>, entries: seq<bytes>, ghost ms: seq<Member>, depth: nat, fmt: bool)
    returns (text: bytes)
    requires ms != [] && |names| == |entries| == |ms| && depth > 0
    requires forall i :: 0 <= i < |ms| ==> names[i] == Quote(ms[i].name) && entries[i] == Text(ms[i].v, depth, fmt)
    ensures text == [LBRACE] + (Line(fmt, depth) + MembersText(ms, depth, fmt))
  {
    hide Text, Quote, MembersText, ObjectTail, Total, Indent, One, Line;
    var extra := 2 + if fmt then 2 + depth else 0;
    var len := 7 + (if fmt then depth else 0) + Total(names, 0) + Total(entries, extra);
    var out := new byte[len](_ => 0);
    ghost var whole := [LBRACE] + (Line(fmt, depth) + MembersText(ms, depth, fmt));
    ObjectWhole(ms, depth, fmt);
    assert out[..0] + ([LBRACE] + (One(fmt, 10) + ObjectTail(ms, 0, depth, fmt))) == whole;
    var ptr: nat := Put(out, 0, [LBRACE], One(fmt, 10) + ObjectTail(ms, 0, depth, fmt), whole);
    ptr := Put(out, ptr, One(fmt, 10), ObjectTail(ms, 0, depth, fmt), whole);
    var i: nat := 0;
    TotalStart(names, 0);
    TotalStart(entries, extra);
    while i < |entries|
      invariant i <= |entries| && out.Length == len
      invariant ptr <= 2 + Total(names[..i], 0) + Total(entries[..i], extra) <= 2 + Total(names, 0) + Total(entries, extra)
      invariant out[..ptr] + ObjectTail(ms, i, depth, fmt) == whole
    {
      TotalStep(names, 0, i);
      TotalStep(entries, extra, i);
      ObjectTailStep(ms, i, depth, fmt);
      ptr := ComposeMember(out, ptr, names[i], entries[i], i == |entries| - 1, depth, fmt,
                           ObjectTail(ms, i + 1, depth, fmt), whole);
      i := i + 1;
    }
    ObjectEnds(ms, depth, fmt);
    ptr := Put(out, ptr, Indent(fmt, depth - 1), [RBRACE], whole);
    AppendEmpty([RBRACE]);
    ptr := Put(out, ptr, [RBRACE], [], whole);
    AppendEmpty(out[..ptr]);
    out[ptr] := 0;
    assert out[..ptr] == whole;
    text := out[..ptr];
  }

  lemma ObjectWhole(ms: seq<Member>, depth: nat, fmt: bool)
    requires ms != [] && depth > 0
    ensures Line(fmt, depth) + MembersText(ms, depth, fmt) == One(fmt, 10) + ObjectTail(ms, 0, depth, fmt)
  {
    assert ms[0..] == ms;
    LineIs(fmt, depth, MembersText(ms, depth, fmt));
  }

  lemma ObjectEnds(ms: seq<Member>, depth: nat, fmt: bool)
    requires depth > 0
    ensures ObjectTail(ms, |ms|, depth, fmt) == Indent(fmt, depth - 1) + [RBRACE]
  {
  }

  // ---------------------------------------------------------------- values

  /** print_value: the text of the value. */
  method PrintValue(v: Value, depth: nat, fmt: bool) returns (out: bytes)
    requires Printable(v)
    ensures out == Text(v, depth, fmt)
    decreases v, 0
  {
    match v {
      case Null => out := NULL_TEXT;
      case False => out := FALSE_TEXT;
      case True => out := TRUE_TEXT;
      case Num(n) => out := PrintNumber(n);
      case Str(s) => out := PrintQuoted(s);
      case Arr(es) => out := PrintArray(es, depth, fmt);
      case Obj(ms) => out := PrintObject(ms, depth, fmt);
    }
  }

  method PrintQuoted(s: bytes) returns (out: bytes)
    requires NulFree(s)
    ensures out == Quote(s)
  {
    var text := PrintString(s);
    out := text[..text.Length - 1];
  }

  /** print_array */
  method PrintArray(es: seq<Value>, depth: nat, fmt: bool) returns (out: bytes)
    requires forall e :: e in es ==> Printable(e)
    ensures out == Text(Arr(es), depth, fmt)
    decreases es, 1
  {
    if |es| == 0 {
      return [LBRACKET, RBRACKET];
    }
    var entries: seq<bytes>, i: nat := [], 0;
    while i < |es|
      invariant i == |entries| <= |es| && forall k :: 0 <= k < i ==> entries[k] == Text(es[k], depth + 1, fmt)
    {
      var ret := PrintValue(es[i], depth + 1, fmt);
      entries := entries + [ret];
      i := i + 1;
    }
    out := ComposeArray(entries, es, depth + 1, fmt);
  }

  /** print_object */
  method PrintObject(ms: seq<Member>, depth: nat, fmt: bool) returns (out: bytes)
    requires forall m :: m in ms ==> NulFree(m.name) && Printable(m.v)
    ensures out == Text(Obj(ms), depth, fmt)
    decreases ms, 1
  {
    if |ms| == 0 {
      out := [LBRACE] + ((if fmt then [10] + Tabs(if depth > 0 then depth - 1 else 0) else []) + [RBRACE]);
      return;
    }
    var names: seq<bytes>, entries: seq<bytes>, i: nat := [], [], 0;
    while i < |ms|
      invariant i == |entries| == |names| <= |ms|
      invariant forall k :: 0 <= k < i ==> names[k] == Quote(ms[k].name) && entries[k] == Text(ms[k].v, depth + 1, fmt)
    {
      assert ms[i] in ms;
      var str := PrintQuoted(ms[i].name);
      var ret := PrintValue(ms[i].v, depth + 1, fmt);
      names, entries := names + [str], entries + [ret];
      i := i + 1;
    }
    out := ComposeObject(names, entries, ms, depth + 1, fmt);
  }
}
