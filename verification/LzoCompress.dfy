/** lzo1x_1_compress: the hash-dictionary match finder and the token writer, proved to
    produce a stream that decompresses to the input, in the documented space. */
module LzoCompress {
  import opened Bytes
  import opened LzoFormat

  const D_SIZE := 16384
  const BLOCK := 49152

  type u16 = x: int | 0 <= x < 0x1_0000

  // The largest object size; a buffer of the caller's is no longer than this.
  const PTRDIFF_MAX: int := 0x7fff_ffff_ffff_ffff

  // ---------------------------------------------------------------- parses

  /** What has been written so far: literals in front, then matches with literals. */
  datatype Parse = Parse(f: First, gs: seq<Segment>)

  ghost predicate Ok(p: Parse) {
    ValidFirst(p.f) && ValidSegs(p.gs) && Reachable(FirstLits(p.f), p.gs)
  }

  /** The bytes that stand for a parse, and the text they stand for. */
  function Code(p: Parse): bytes
    requires Ok(p)
  {
    FirstBytes(p.f) + Body(p.gs)
  }

  function Text(p: Parse): bytes
    requires Ok(p)
  {
    Expand(FirstLits(p.f), p.gs)
  }

  /** Nothing written yet, or a match without literals at the end. */
  predicate Open(p: Parse) {
    if p.gs == [] then p.f == NoLits else p.gs[|p.gs| - 1].lits == []
  }

  /** x | y on two bits. */
  function Or2(x: nat, y: nat): nat
    requires x < 4 && y < 4
    ensures Or2(x, y) < 4 && (x == 0 ==> Or2(x, y) == y)
  {
    (if x / 2 == 1 || y / 2 == 1 then 2 else 0) + (if x % 2 == 1 || y % 2 == 1 then 1 else 0)
  }

  /** op[-2] |= t */
  function FoldIn(o: bytes, t: nat): bytes
    requires |o| >= 2 && t < 4
  {
    var b := o[|o| - 2];
    o[|o| - 2 := b - b % 4 + Or2(b % 4, t)]
  }

  /** The compressor's output after the literals in front of a match. */
  function LitsOut(o: bytes, lits: bytes): bytes
    requires 1 <= |lits| <= 3 ==> |o| >= 2
  {
    if |lits| == 0 then o
    else if |lits| <= 3 then FoldIn(o, |lits|) + lits
    else o + RunHeader(|lits|) + lits
  }

  function AddLits(p: Parse, lits: bytes): Parse {
    if p.gs == [] then Parse(if lits == [] then p.f else Run(lits), [])
    else p.(gs := p.gs[..|p.gs| - 1] + [p.gs[|p.gs| - 1].(lits := lits)])
  }

  function AddMatch(p: Parse, m: Match): Parse {
    p.(gs := p.gs + [Segment(m, [])])
  }

  // ---------------------------------------------------------------- growing a parse at its end

  lemma {:induction false} BodyAppend(gs: seq<Segment>, g: Segment)
    requires ValidSegs(gs + [g])
    ensures ValidSegs(gs) && ValidMatch(g.m) && Body(gs + [g]) == Body(gs) + SegBytes(g)
  {
    hide SegBytes;
    assert (gs + [g])[|gs|] == g;
    assert forall i :: 0 <= i < |gs| ==> (gs + [g])[i] == gs[i];
    if gs == [] {
      assert gs + [g] == [g];
      assert Body([g]) == SegBytes(g) + Body([]);
    } else {
      assert (gs + [g])[1..] == gs[1..] + [g];
      BodyAppend(gs[1..], g);
    }
  }

  lemma {:induction false} ExpandAppend(out: bytes, gs: seq<Segment>, g: Segment)
    requires Reachable(out, gs) && 1 <= g.m.off <= |Expand(out, gs)|
    ensures Reachable(out, gs + [g])
    ensures Expand(out, gs + [g]) == CopyBack(Expand(out, gs), g.m.off, g.m.len) + g.lits
    decreases |gs|
  {
    if gs == [] {
      assert gs + [g] == [g];
      assert Reachable(CopyBack(out, g.m.off, g.m.len) + g.lits, [g][1..]);
    } else {
      assert (gs + [g])[1..] == gs[1..] + [g] && (gs + [g])[0] == gs[0];
      ExpandAppend(CopyBack(out, gs[0].m.off, gs[0].m.len) + gs[0].lits, gs[1..], g);
    }
  }

  lemma {:induction false} ReachableSplit(out: bytes, gs: seq<Segment>, g: Segment)
    requires Reachable(out, gs + [g])
    ensures Reachable(out, gs) && 1 <= g.m.off <= |Expand(out, gs)|
    decreases |gs|
  {
    if gs == [] {
      assert gs + [g] == [g];
    } else {
      assert (gs + [g])[1..] == gs[1..] + [g] && (gs + [g])[0] == gs[0];
      ReachableSplit(CopyBack(out, gs[0].m.off, gs[0].m.len) + gs[0].lits, gs[1..], g);
    }
  }

  lemma AddMatchCode(p: Parse, m: Match)
    requires Ok(p) && ValidMatch(m) && m.off <= |Text(p)|
    ensures Ok(AddMatch(p, m)) && Open(AddMatch(p, m))
    ensures Code(AddMatch(p, m)) == Code(p) + MatchBytes(m, 0)
    ensures Text(AddMatch(p, m)) == CopyBack(Text(p), m.off, m.len)
  {
    hide Body, FirstBytes, MatchBytes, CopyBack, RunHeader;
    var g := Segment(m, []);
    ExpandAppend(FirstLits(p.f), p.gs, g);
    CodeAppend(p.f, p.gs, g);
    AppendEmpty(MatchBytes(m, 0));
    AppendEmpty(CopyBack(Text(p), m.off, m.len));
  }

  /** Literals after the last match: the run, or the fold into the byte two before the end. */
  lemma AddLitsCode(p: Parse, lits: bytes)
    requires Ok(p) && Open(p) && |lits| < LZO_UINT_TEST
    requires p.gs == [] ==> lits == [] || |lits| >= 4
    ensures Ok(AddLits(p, lits))
    ensures 1 <= |lits| <= 3 ==> |Code(p)| >= 2
    ensures Code(AddLits(p, lits)) == LitsOut(Code(p), lits)
    ensures Text(AddLits(p, lits)) == Text(p) + lits
  {
    hide Body, Expand, Reachable, ValidSegs, LitsOut, RunHeader;
    if p.gs == [] {
      FirstLitsCode(p, lits);
    } else {
      var n := |p.gs| - 1;
      assert p.gs == p.gs[..n] + [p.gs[n]];
      LastLits(p.f, p.gs[..n], p.gs[n].m, lits);
    }
  }

  lemma FirstLitsCode(p: Parse, lits: bytes)
    requires Ok(p) && Open(p) && p.gs == [] && (lits == [] || 4 <= |lits| < LZO_UINT_TEST)
    ensures Ok(AddLits(p, lits))
    ensures Code(AddLits(p, lits)) == LitsOut(Code(p), lits)
    ensures Text(AddLits(p, lits)) == Text(p) + lits
  {
    assert Body([]) == [];
  }

  lemma LastLits(f: First, gs: seq<Segment>, m: Match, lits: bytes)
    requires |lits| < LZO_UINT_TEST
    requires Ok(Parse(f, gs + [Segment(m, [])]))
    ensures var p, p' := Parse(f, gs + [Segment(m, [])]), Parse(f, gs + [Segment(m, lits)]);
            Ok(p') && |Code(p)| >= 2 && Code(p') == LitsOut(Code(p), lits) && Text(p') == Text(p) + lits
  {
    LastCode(f, gs, m, lits);
    ReachableSplit(FirstLits(f), gs, Segment(m, []));
    LastText(FirstLits(f), gs, m, lits);
  }

  lemma LastCode(f: First, gs: seq<Segment>, m: Match, lits: bytes)
    requires ValidFirst(f) && |lits| < LZO_UINT_TEST && ValidSegs(gs + [Segment(m, [])])
    ensures ValidSegs(gs + [Segment(m, lits)])
    ensures var o := FirstBytes(f) + Body(gs + [Segment(m, [])]);
            |o| >= 2 && FirstBytes(f) + Body(gs + [Segment(m, lits)]) == LitsOut(o, lits)
  {
    forall i | 0 <= i < |gs| + 1
      ensures ValidMatch((gs + [Segment(m, lits)])[i].m) && |(gs + [Segment(m, lits)])[i].lits| < LZO_UINT_TEST
    {
      assert ValidMatch((gs + [Segment(m, [])])[i].m);
    }
    CodeAppend(f, gs, Segment(m, []));
    CodeAppend(f, gs, Segment(m, lits));
    assert MatchBytes(m, 0) + [] == MatchBytes(m, 0);
    FoldCode(FirstBytes(f) + Body(gs), m, lits);
  }

  lemma CodeAppend(f: First, gs: seq<Segment>, g: Segment)
    requires ValidFirst(f) && ValidSegs(gs + [g])
    ensures ValidSegs(gs) && ValidMatch(g.m)
    ensures FirstBytes(f) + Body(gs + [g])
         == FirstBytes(f) + Body(gs) + (MatchBytes(g.m, Low(g.lits)) + LitBytes(g.lits))
  {
    hide FirstBytes, Body, MatchBytes, LitBytes;
    BodyAppend(gs, g);
    assert FirstBytes(f) + (Body(gs) + SegBytes(g)) == FirstBytes(f) + Body(gs) + SegBytes(g);
  }

  lemma LastText(out: bytes, gs: seq<Segment>, m: Match, lits: bytes)
    requires Reachable(out, gs) && 1 <= m.off <= |Expand(out, gs)|
    ensures Reachable(out, gs + [Segment(m, [])]) && Reachable(out, gs + [Segment(m, lits)])
    ensures Expand(out, gs + [Segment(m, lits)]) == Expand(out, gs + [Segment(m, [])]) + lits
  {
    ExpandAppend(out, gs, Segment(m, []));
    ExpandAppend(out, gs, Segment(m, lits));
    var t := CopyBack(Expand(out, gs), m.off, m.len);
    assert t + [] == t;
  }

  lemma FoldCode(o: bytes, m: Match, lits: bytes)
    requires ValidMatch(m)
    ensures |o + MatchBytes(m, 0)| >= 2
    ensures LitsOut(o + MatchBytes(m, 0), lits) == o + (MatchBytes(m, Low(lits)) + LitBytes(lits))
  {
    var e, t := MatchBytes(m, 0), Low(lits);
    assert |e| >= 2;
    FoldMatch(m, t);
    FoldAppend(o, e, t);
    hide MatchBytes, RunHeader, FoldIn;
    if |lits| == 0 {
      AppendEmpty(e);
    } else if |lits| <= 3 {
      Assoc(o, MatchBytes(m, t), lits);
    } else {
      Assoc(o, e, RunHeader(|lits|));
      Assoc(o + e, RunHeader(|lits|), lits);
      Assoc(o, e, RunHeader(|lits|) + lits);
    }
  }

  lemma FoldAppend(o: bytes, e: bytes, t: nat)
    requires |e| >= 2 && t < 4
    ensures FoldIn(o + e, t) == o + FoldIn(e, t)
  {
    hide Or2;
    var i, x := |e| - 2, e[|e| - 2] - e[|e| - 2] % 4 + Or2(e[|e| - 2] % 4, t);
    UpdateAppend(o, e, i, x);
  }

  lemma UpdateAppend(o: bytes, e: bytes, i: nat, x: byte)
    requires i < |e|
    ensures (o + e)[|o| + i] == e[i] && (o + e)[|o| + i := x] == o + e[i := x]
  {
  }

  lemma FoldMatch(m: Match, t: nat)
    requires ValidMatch(m) && t < 4
    ensures FoldIn(MatchBytes(m, 0), t) == MatchBytes(m, t)
  {
    if IsM2(m) {
      M2Fields(m, 0);
    } else {
      FarFields(FarOff(m), 0);
    }
  }

  // ---------------------------------------------------------------- match text

  /** A repeated stretch is what the overlapping copy produces. */
  lemma {:induction false} CopyBackText(inp: bytes, ip: nat, off: nat, len: nat)
    requires 1 <= off <= ip && ip + len <= |inp|
    requires inp[ip..ip + len] == inp[ip - off..ip - off + len]
    ensures CopyBack(inp[..ip], off, len) == inp[..ip + len]
    decreases len
  {
    if len > 0 {
      assert inp[ip] == inp[ip..ip + len][0] == inp[ip - off];
      assert inp[..ip + 1] == inp[..ip] + [inp[ip - off]];
      assert inp[ip + 1..ip + len] == inp[ip..ip + len][1..] == inp[ip - off + 1..ip - off + len];
      CopyBackText(inp, ip + 1, off, len - 1);
    }
  }

  // ---------------------------------------------------------------- size

  /** Length of a run header for t literals, 0 when they are folded in. */
  function HeadLen(t: nat): nat {
    if t <= 3 then 0 else |RunHeader(t)|
  }

  lemma LitsSize(o: bytes, lits: bytes)
    requires 1 <= |lits| <= 3 ==> |o| >= 2
    ensures |LitsOut(o, lits)| == |o| + HeadLen(|lits|) + |lits|
    ensures HeadLen(|lits|) <= 1 + |lits| / 16
  {
  }

  lemma MatchSize(m: Match)
    requires ValidMatch(m) && m.len >= 4
    ensures |MatchBytes(m, 0)| <= m.len - 1
  {
  }

  // ---------------------------------------------------------------- writing

  method CopyLiterals(inp: bytes, ii: nat, out: array<byte>, op: nat, t: nat)
    requires ii + t <= |inp| && op + t <= out.Length
    modifies out
    ensures out[..op + t] == old(out[..op]) + inp[ii..ii + t]
  {
    var i := 0;
    while i < t
      invariant i <= t
      invariant out[..op + i] == old(out[..op]) + inp[ii..ii + i]
    {
      ghost var before := out[..op + i];
      out[op + i] := inp[ii + i];
      assert out[..op + i + 1] == before + [inp[ii + i]];
      assert inp[ii..ii + i + 1] == inp[ii..ii + i] + [inp[ii + i]];
      i := i + 1;
    }
  }

  /** tt in the zero-extended form. */
  method PutLen(out: array<byte>, op: nat, n: nat) returns (op': nat)
    requires n > 0 && op + |LenBytes(n)| <= out.Length
    modifies out
    ensures op' == op + |LenBytes(n)| && out[..op'] == old(out[..op]) + LenBytes(n)
  {
    var tt := n;
    op' := op;
    while tt > 255
      invariant 0 < tt && op <= op'
      invariant op' + |LenBytes(tt)| == op + |LenBytes(n)|
      invariant out[..op'] + LenBytes(tt) == old(out[..op]) + LenBytes(n)
    {
      ghost var before := out[..op'];
      tt := tt - 255;
      out[op'] := 0;
      assert out[..op' + 1] + LenBytes(tt) == before + ([0] + LenBytes(tt));
      op' := op' + 1;
    }
    out[op'] := tt;
    op' := op' + 1;
  }

  method PutRunHeader(out: array<byte>, op: nat, t: nat) returns (op': nat)
    requires t >= 4 && op + |RunHeader(t)| <= out.Length
    modifies out
    ensures op' == op + |RunHeader(t)| && out[..op'] == old(out[..op]) + RunHeader(t)
  {
    ghost var before := out[..op];
    if t <= 18 {
      out[op] := t - 3;
      op' := op + 1;
      assert out[..op'] == before + [t - 3];
    } else {
      out[op] := 0;
      assert out[..op + 1] == before + [0];
      op' := PutLen(out, op + 1, t - 18);
      Assoc(before, [0], LenBytes(t - 18));
    }
  }

  /** The literals in front of a match: folded into op[-2], or a run. */
  method PutLits(inp: bytes, ii: nat, t: nat, out: array<byte>, op: nat) returns (op': nat)
    requires ii + t <= |inp| && op + HeadLen(t) + t <= out.Length
    requires 1 <= t <= 3 ==> op >= 2
    modifies out
    ensures op' == op + HeadLen(t) + t && out[..op'] == LitsOut(old(out[..op]), inp[ii..ii + t])
  {
    op' := op;
    if t != 0 {
      if t <= 3 {
        var b := out[op - 2];
        out[op - 2] := b - b % 4 + Or2(b % 4, t);
        assert out[..op] == FoldIn(old(out[..op]), t);
      } else {
        op' := PutRunHeader(out, op, t);
      }
      CopyLiterals(inp, ii, out, op', t);
      op' := op' + t;
    }
  }

  method PutLongHead(out: array<byte>, op: nat, marker: nat, maxLen: nat, len: nat) returns (op': nat)
    requires marker < 256 && 3 <= len && maxLen >= 3 && marker + maxLen - 2 < 256
    requires op + |LongHead(marker, maxLen, len)| <= out.Length
    modifies out
    ensures op' == op + |LongHead(marker, maxLen, len)|
    ensures out[..op'] == old(out[..op]) + LongHead(marker, maxLen, len)
  {
    hide LenBytes;
    if len <= maxLen {
      out[op] := marker + (len - 2);
      op' := op + 1;
    } else {
      out[op] := marker;
      assert out[..op + 1] == old(out[..op]) + [marker];
      op' := PutLen(out, op + 1, len - maxLen);
    }
  }

  /** Offset bytes of an M3 or M4 match, no literals folded in yet. */
  method PutOffset(out: array<byte>, op: nat, o: nat)
    requires op + 2 <= out.Length
    modifies out
    ensures out[..op + 2] == old(out[..op]) + OffsetBytes(o, 0)
  {
    out[op] := o % 64 * 4;
    out[op + 1] := o / 64 % 256;
  }

  /** M2, M3 or M4, by length and offset. */
  method PutMatch(out: array<byte>, op: nat, m: Match) returns (op': nat)
    requires ValidMatch(m) && op + |MatchBytes(m, 0)| <= out.Length
    modifies out
    ensures op' == op + |MatchBytes(m, 0)| && out[..op'] == old(out[..op]) + MatchBytes(m, 0)
  {
    if m.len <= M2_MAX_LEN && m.off <= M2_MAX_OFFSET {
      var o := m.off - 1;
      out[op] := (m.len - 1) * 32 + o % 8 * 4;
      out[op + 1] := o / 8;
      op' := op + 2;
    } else {
      op' := PutFar(out, op, m);
    }
  }

  method PutFar(out: array<byte>, op: nat, m: Match) returns (op': nat)
    requires ValidMatch(m) && !IsM2(m) && op + |MatchHead(m)| + 2 <= out.Length
    modifies out
    ensures op' == op + |MatchHead(m)| + 2 && out[..op'] == old(out[..op]) + (MatchHead(m) + OffsetBytes(FarOff(m), 0))
  {
    hide LongHead, OffsetBytes;
    if m.off <= M3_MAX_OFFSET {
      op' := PutLongHead(out, op, M3_MARKER, M3_MAX_LEN, m.len);
      PutOffset(out, op', m.off - 1);
    } else {
      var o := m.off - 0x4000;
      op' := PutLongHead(out, op, M4_MARKER + o / 0x4000 * 8, M4_MAX_LEN, m.len);
      PutOffset(out, op', o);
    }
    op' := op' + 2;
  }

  // ---------------------------------------------------------------- finding matches

  function Le32(s: bytes, i: nat): nat
    requires i + 4 <= |s|
  {
    s[i] as int + 0x100 * (s[i + 1] as int + 0x100 * (s[i + 2] as int + 0x100 * s[i + 3] as int))
  }

  lemma Peel(a: nat, x: nat, b: nat, y: nat)
    requires a < 0x100 && b < 0x100 && a + 0x100 * x == b + 0x100 * y
    ensures a == b && x == y
  {
  }

  lemma Le32Injective(s: bytes, i: nat, j: nat)
    requires i + 4 <= |s| && j + 4 <= |s| && Le32(s, i) == Le32(s, j)
    ensures s[i..i + 4] == s[j..j + 4]
  {
    var x2, y2 := s[i + 2] as int + 0x100 * s[i + 3] as int, s[j + 2] as int + 0x100 * s[j + 3] as int;
    Peel(s[i], s[i + 1] as int + 0x100 * x2, s[j], s[j + 1] as int + 0x100 * y2);
    Peel(s[i + 1], x2, s[j + 1], y2);
    Peel(s[i + 2], s[i + 3], s[j + 2], s[j + 3]);
    SliceOf4(s, i);
    SliceOf4(s, j);
  }

  lemma SliceOf4(s: bytes, i: nat)
    requires i + 4 <= |s|
    ensures s[i..i + 4] == [s[i], s[i + 1], s[i + 2], s[i + 3]]
  {
  }

  /** DINDEX: a multiplicative hash of four bytes. */
  function DIndex(dv: nat): (d: nat)
    ensures d < D_SIZE
  {
    0x1824429d * dv % 0x1_0000_0000 / 0x4_0000 % D_SIZE
  }

  /** How far the match reaches: seven plain tests, then one with the bound, and so on. */
  method MatchLength(inp: bytes, inEnd: nat, ip: nat, mPos: nat, ipEnd: nat) returns (len: nat)
    requires mPos < ip < ipEnd && ipEnd + 20 == inEnd <= |inp|
    requires inp[ip..ip + 4] == inp[mPos..mPos + 4]
    ensures len >= 4 && ip + len < inEnd
    ensures inp[ip..ip + len] == inp[mPos..mPos + len]
  {
    len := 4;
    var tests := 0;
    while inp[ip + len] == inp[mPos + len]
      invariant 4 <= len && tests < 8 && ip + len < ipEnd + 4 + tests
      invariant inp[ip..ip + len] == inp[mPos..mPos + len]
      decreases |inp| - len
    {
      assert inp[ip..ip + (len + 1)] == inp[ip..ip + len] + [inp[ip + len]];
      assert inp[mPos..mPos + (len + 1)] == inp[mPos..mPos + len] + [inp[mPos + len]];
      len, tests := len + 1, tests + 1;
      if tests == 8 {
        tests := 0;
        if ip + len >= ipEnd {
          break;
        }
      }
    }
  }

  // ---------------------------------------------------------------- the compressor

  /** The first `op` bytes of the output are the code of p, which stands for the first `done`
      bytes of the input, is open at its end, and has not outgrown them. */
  ghost predicate Written(p: Parse, o: bytes, inp: bytes, done: nat) {
    done <= |inp| && Ok(p) && Open(p) && Code(p) == o && Text(p) == inp[..done] && |o| <= done + done / 16
  }

  function OutSize(n: nat): nat {
    n + n / 16 + 67
  }

  /** One match with the literals in front of it. */
  method PutSegment(inp: bytes, lit: nat, ip: nat, off: nat, len: nat, out: array<byte>, op: nat, ghost p: Parse)
    returns (op': nat, ghost p': Parse)
    requires |inp| <= PTRDIFF_MAX && out.Length >= OutSize(|inp|)
    requires op <= out.Length && Written(p, out[..op], inp, lit)
    requires lit <= ip && ip + len <= |inp| && 4 <= len && 1 <= off <= ip && off <= M4_MAX_OFFSET
    requires p.gs == [] ==> ip - lit >= 4
    requires inp[ip..ip + len] == inp[ip - off..ip - off + len]
    modifies out
    ensures op' <= out.Length && Written(p', out[..op'], inp, ip + len) && p'.gs != []
  {
    hide *;
    p' := SegmentWritten(p, out[..op], inp, lit, ip, off, len);
    op' := PutLits(inp, lit, ip - lit, out, op);
    op' := PutMatch(out, op', Match(off, len));
  }

  /** The parse after a segment, and the room its two parts need. */
  lemma SegmentWritten(p: Parse, o: bytes, inp: bytes, lit: nat, ip: nat, off: nat, len: nat) returns (p': Parse)
    requires |inp| <= PTRDIFF_MAX && Written(p, o, inp, lit)
    requires lit <= ip && ip + len <= |inp| && 4 <= len && 1 <= off <= ip && off <= M4_MAX_OFFSET
    requires p.gs == [] ==> ip - lit >= 4
    requires inp[ip..ip + len] == inp[ip - off..ip - off + len]
    ensures (1 <= ip - lit <= 3 ==> |o| >= 2) && ValidMatch(Match(off, len)) && p'.gs != []
    ensures |o| + HeadLen(ip - lit) + (ip - lit) + |MatchBytes(Match(off, len), 0)| <= OutSize(|inp|)
    ensures Written(p', LitsOut(o, inp[lit..ip]) + MatchBytes(Match(off, len), 0), inp, ip + len)
  {
    var lits, m := inp[lit..ip], Match(off, len);
    LitsWritten(p, o, inp, lit, ip);
    LitsSize(o, lits);
    MatchSize(m);
    SegmentFits(|o|, lit, ip - lit, len, |inp|);
    MatchWritten(AddLits(p, lits), LitsOut(o, lits), inp, ip, off, len);
    p' := AddMatch(AddLits(p, lits), m);
  }

  lemma LitsWritten(p: Parse, o: bytes, inp: bytes, lit: nat, ip: nat)
    requires |inp| <= PTRDIFF_MAX && lit <= ip <= |inp| && Written(p, o, inp, lit)
    requires p.gs == [] ==> ip - lit >= 4
    ensures var q := AddLits(p, inp[lit..ip]);
            Ok(q) && (1 <= ip - lit <= 3 ==> |o| >= 2) && Code(q) == LitsOut(o, inp[lit..ip]) && Text(q) == inp[..ip]
  {
    hide Code, Text, LitsOut, AddLits, FoldIn, RunHeader;
    AddLitsCode(p, inp[lit..ip]);
    assert inp[..lit] + inp[lit..ip] == inp[..ip];
  }

  lemma MatchWritten(q: Parse, o: bytes, inp: bytes, ip: nat, off: nat, len: nat)
    requires |inp| <= PTRDIFF_MAX && 4 <= len && ip + len <= |inp| && 1 <= off <= ip && off <= M4_MAX_OFFSET
    requires Ok(q) && Code(q) == o && Text(q) == inp[..ip]
    requires inp[ip..ip + len] == inp[ip - off..ip - off + len]
    requires |o| + (len - 1) <= ip + len + (ip + len) / 16
    ensures var m := Match(off, len);
            && AddMatch(q, m).gs != []
            && Written(AddMatch(q, m), o + MatchBytes(m, 0), inp, ip + len)
  {
    AddMatchCode(q, Match(off, len));
    CopyBackText(inp, ip, off, len);
    MatchSize(Match(off, len));
  }

  lemma SegmentFits(op: nat, done: nat, t: nat, len: nat, n: nat)
    requires op <= done + done / 16 && done + t + len <= n && len >= 4
    ensures op + HeadLen(t) + t + (len - 1) <= done + t + len + (done + t + len) / 16 <= OutSize(n)
  {
  }

  /** lzo1x_1_compress_core: one block of ll bytes from `base`, with ti literals pending in front of
      it. Returns how many are pending after it. */
  method CompressCore(inp: bytes, base: nat, ll: nat, out: array<byte>, op: nat, ti: nat, dict: array<u16>,
                      ghost p: Parse)
    returns (op': nat, ti': nat, ghost p': Parse)
    requires |inp| <= PTRDIFF_MAX && out.Length >= OutSize(|inp|) && dict.Length == D_SIZE
    requires base + ll <= |inp| && 20 < ll <= BLOCK && ti <= base
    requires op <= out.Length && Written(p, out[..op], inp, base - ti)
    requires p.gs == [] ==> ti == base
    requires forall k :: 0 <= k < D_SIZE ==> dict[k] == 0
    modifies out, dict
    ensures ti' <= base + ll && op' <= out.Length && Written(p', out[..op'], inp, base + ll - ti')
    ensures p'.gs == [] ==> ti' == base + ll
  {
    hide Written;
    var ipEnd := base + ll - 20;
    var ii: nat := base;
    var pending: nat := ti;
    var ip: nat := base + if ti < 4 then 4 - ti else 0;
    op', p' := op, p;
    ip := ip + 1 + (ip - ii) / 32;
    while ip < ipEnd
      invariant pending <= ii <= ip && base < ip && ii <= base + ll
      invariant op' <= out.Length && Written(p', out[..op'], inp, ii - pending)
      invariant p'.gs == [] ==> ii == pending && ip >= 4
      invariant forall k :: 0 <= k < D_SIZE ==> base + dict[k] < ip
      decreases |inp| - ip
    {
      var dv := Le32(inp, ip);
      var dIndex := DIndex(dv);
      var mPos := base + dict[dIndex];
      dict[dIndex] := ip - base;
      if dv != Le32(inp, mPos) {
        ip := ip + 1 + (ip - ii) / 32;
      } else {
        Le32Injective(inp, ip, mPos);
        var lit := ii - pending;
        pending := 0;
        var len := MatchLength(inp, base + ll, ip, mPos, ipEnd);
        op', p' := PutSegment(inp, lit, ip, ip - mPos, len, out, op', p');
        ip := ip + len;
        ii := ip;
      }
    }
    ti' := base + ll - (ii - pending);
  }

  // ---------------------------------------------------------------- end of the stream

  /** The literals after the last match, in the form that ends a stream. */
  function Finish(p: Parse, lits: bytes): Parse {
    if p.gs == [] && 1 <= |lits| <= 238 then Parse(Counted(lits), []) else AddLits(p, lits)
  }

  /** Room for the last literals and the end marker, and what the whole stream says. */
  lemma FinishWritten(p: Parse, o: bytes, inp: bytes, t: nat)
    requires |inp| <= PTRDIFF_MAX && t <= |inp| && Written(p, o, inp, |inp| - t)
    requires p.gs == [] ==> t == |inp|
    ensures var lits, q := inp[|inp| - t..], Finish(p, inp[|inp| - t..]);
            && Ok(q) && Text(q) == inp && |Code(q)| <= |inp| + |inp| / 16 + 1
            && (p.gs == [] <==> o == [])
            && if p.gs == [] && 1 <= t <= 238 then Code(q) == [17 + t] + lits
               else (1 <= t <= 3 ==> |o| >= 2) && Code(q) == LitsOut(o, lits) && |Code(q)| == |o| + HeadLen(t) + t
  {
    var lits := inp[|inp| - t..];
    CodeEmpty(p);
    if p.gs == [] && 1 <= t <= 238 {
      CountedParse(lits);
      assert lits == inp;
    } else {
      FinishLits(p, o, inp, t);
    }
  }

  lemma FinishLits(p: Parse, o: bytes, inp: bytes, t: nat)
    requires |inp| <= PTRDIFF_MAX && t <= |inp| && |o| <= |inp| - t + (|inp| - t) / 16
    requires Ok(p) && Open(p) && Code(p) == o && Text(p) == inp[..|inp| - t]
    requires p.gs == [] ==> t == 0 || t >= 4
    ensures var lits, q := inp[|inp| - t..], AddLits(p, inp[|inp| - t..]);
            && Ok(q) && Text(q) == inp && |Code(q)| <= |inp| + |inp| / 16 + 1
            && (1 <= t <= 3 ==> |o| >= 2) && Code(q) == LitsOut(o, lits) && |Code(q)| == |o| + HeadLen(t) + t
  {
    var lits := inp[|inp| - t..];
    hide *;
    assert inp[..|inp| - t] + lits == inp;
    assert lits == [] || |lits| >= 1;
    AddLitsCode(p, lits);
    LitsSize(o, lits);
    SixteenthsAdd(|inp| - t, t);
  }

  lemma SixteenthsAdd(a: nat, b: nat)
    ensures a / 16 + b / 16 <= (a + b) / 16
  {
  }

  lemma CountedParse(lits: bytes)
    requires 1 <= |lits| <= 238
    ensures var q := Parse(Counted(lits), []); Ok(q) && Text(q) == lits && Code(q) == [17 + |lits|] + lits
  {
    assert Body([]) == [];
  }

  lemma CodeEmpty(p: Parse)
    requires Ok(p) && Open(p)
    ensures p.gs == [] <==> Code(p) == []
  {
    if p.gs != [] {
      assert |SegBytes(p.gs[0])| >= 2;
    }
  }

  /** What a finished stream decompresses to. */
  lemma FinishedStream(q: Parse, cap: nat)
    requires Ok(q) && |Text(q)| <= cap
    ensures Decompress(Code(q) + EOF_BYTES, cap) == Outcome(Status.Ok, Text(q))
  {
    StreamInverse(q.f, q.gs, cap);
    assert FirstBytes(q.f) + Body(q.gs) + EOF_BYTES == FirstBytes(q.f) + (Body(q.gs) + EOF_BYTES);
  }

  /** The last t bytes of the input as literals. */
  method PutFinal(inp: bytes, t: nat, out: array<byte>, op: nat, ghost code: bytes) returns (op': nat)
    requires t <= |inp| && op <= out.Length && |code| <= out.Length
    requires if op == 0 && 1 <= t <= 238 then code == [17 + t] + inp[|inp| - t..]
             else ((1 <= t <= 3 ==> op >= 2) && |code| == op + HeadLen(t) + t
                   && code == LitsOut(out[..op], inp[|inp| - t..]))
    modifies out
    ensures op' == |code| && out[..op'] == code
  {
    hide *;
    var ii := |inp| - t;
    assert inp[ii..ii + t] == inp[ii..];
    if op == 0 && 1 <= t <= 238 {
      out[0] := 17 + t;
      CopyLiterals(inp, ii, out, 1, t);
      op' := 1 + t;
    } else {
      op' := PutLits(inp, ii, t, out, op);
    }
  }

  /** lzo_memset of the dictionary */
  method ZeroDict(dict: array<u16>)
    modifies dict
    ensures forall k :: 0 <= k < dict.Length ==> dict[k] == 0
  {
    forall k | 0 <= k < dict.Length {
      dict[k] := 0;
    }
  }

  /** The blocks, until at most 20 bytes are left. t + l literals are pending then. */
  method CompressBlocks(inp: bytes, out: array<byte>, dict: array<u16>) returns (op: nat, t: nat, ghost p: Parse)
    requires |inp| <= PTRDIFF_MAX && out.Length >= OutSize(|inp|) && dict.Length == D_SIZE
    modifies out, dict
    ensures t <= |inp| && op <= out.Length && Written(p, out[..op], inp, |inp| - t)
    ensures p.gs == [] ==> t == |inp|
  {
    hide Written, OutSize;
    var l: nat := |inp|;
    op, t, p := 0, 0, Parse(NoLits, []);
    StartWritten(inp);
    assert out[..0] == [];
    while l > 20
      invariant t + l <= |inp| && op <= out.Length && Written(p, out[..op], inp, |inp| - l - t)
      invariant p.gs == [] ==> t + l == |inp|
    {
      var ll := if l < BLOCK then l else BLOCK;
      ZeroDict(dict);
      op, t, p := CompressCore(inp, |inp| - l, ll, out, op, t, dict, p);
      l := l - ll;
    }
    t := t + l;
  }

  /** lzo1x_1_compress. Decompressing the output gives back the input, in any buffer that holds it. */
  method Compress(inp: bytes, out: array<byte>, dict: array<u16>) returns (outLen: nat)
    requires |inp| <= PTRDIFF_MAX && out.Length >= OutSize(|inp|) && dict.Length == D_SIZE
    modifies out, dict
    ensures outLen <= |inp| + |inp| / 16 + 4 && outLen <= out.Length
    ensures forall cap: nat :: cap >= |inp| ==> Decompress(out[..outLen], cap) == Outcome(Status.Ok, inp)
  {
    assert OutSize(|inp|) == |inp| + |inp| / 16 + 67;
    hide *;
    ghost var p;
    var op, t;
    op, t, p := CompressBlocks(inp, out, dict);
    FinishWritten(p, out[..op], inp, t);
    ghost var q := Finish(p, inp[|inp| - t..]);
    op := PutFinal(inp, t, out, op, Code(q));
    outLen := PutEof(out, op);
    AllCapacities(q, inp, out[..outLen]);
  }

  method PutEof(out: array<byte>, op: nat) returns (op': nat)
    requires op + 3 <= out.Length
    modifies out
    ensures op' == op + 3 && out[..op'] == old(out[..op]) + EOF_BYTES
  {
    out[op], out[op + 1], out[op + 2] := M4_MARKER + 1, 0, 0;
    op' := op + 3;
  }

  lemma AllCapacities(q: Parse, inp: bytes, o: bytes)
    requires Ok(q) && Text(q) == inp && o == Code(q) + EOF_BYTES
    ensures forall cap: nat :: cap >= |inp| ==> Decompress(o, cap) == Outcome(Status.Ok, inp)
  {
    forall cap: nat | cap >= |inp|
      ensures Decompress(o, cap) == Outcome(Status.Ok, inp)
    {
      FinishedStream(q, cap);
    }
  }

  lemma StartWritten(inp: bytes)
    ensures Written(Parse(NoLits, []), [], inp, 0)
  {
    assert inp[..0] == [] && Body([]) == [];
  }
}
