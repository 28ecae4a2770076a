/** lzo1x_decompress_safe over a caller's buffer: every read lies in the input, every
    write in the buffer, and status and output are those of LzoFormat.Decompress. */
module LzoDecompress {
  import opened Bytes
  import opened LzoFormat

  // ---------------------------------------------------------------- copies

  /** k <= off bytes copied at once are the same k bytes copied one by one. */
  lemma {:induction false} CopyBackBlock(s: bytes, off: nat, k: nat, n: nat)
    requires k <= off && 1 <= off <= |s|
    ensures CopyBack(s, off, k + n) == CopyBack(s + s[|s| - off..|s| - off + k], off, n)
    decreases k
  {
    var p := |s| - off;
    if k == 0 {
      assert s + s[p..p + k] == s;
    } else {
      CopyBackBlock(s + [s[p]], off, k - 1, n);
      OneAndMore(s, p, k);
    }
  }

  lemma OneAndMore(s: bytes, p: nat, k: nat)
    requires p + k <= |s| && k > 0
    ensures s + [s[p]] + (s + [s[p]])[p + 1..p + k] == s + s[p..p + k]
  {
    assert [s[p]] + (s + [s[p]])[p + 1..p + k] == s[p..p + k];
  }

  /** One wide load and store. */
  method CopyBlock(out: array<byte>, op: nat, mPos: nat, k: nat)
    requires mPos + k <= op && op + k <= out.Length
    modifies out
    ensures out[..op + k] == old(out[..op]) + old(out[..op])[mPos..mPos + k]
    ensures out[op + k..] == old(out[op + k..])
  {
    forall i | 0 <= i < k {
      out[op + i] := out[mPos + i];
    }
    ghost var was, now := old(out[..]), out[..];
    assert now[..op + k] == was[..op] + was[..op][mPos..mPos + k] by {
      assert forall i :: 0 <= i < op ==> now[i] == was[i];
      assert forall i :: op <= i < op + k ==> now[i] == was[mPos + (i - op)];
    }
    assert now[op + k..] == was[op + k..] by {
      assert forall i :: op + k <= i < out.Length ==> now[i] == was[i];
    }
  }

  method CopyMatchBytes(out: array<byte>, op: nat, off: nat, len: nat)
    requires 1 <= off <= op && op + len <= out.Length
    modifies out
    ensures out[..op + len] == CopyBack(old(out[..op]), off, len)
    ensures out[op + len..] == old(out[op + len..])
  {
    var i: nat := 0;
    while i < len
      invariant i <= len
      invariant CopyBack(out[..op + i], off, len - i) == CopyBack(old(out[..op]), off, len)
      invariant out[op + len..] == old(out[op + len..])
    {
      ghost var before := out[..op + i];
      out[op + i] := out[op + i - off];
      assert out[..op + i + 1] == before + [before[op + i - off]];
      i := i + 1;
    }
  }

  /** The copy in 8-, 4- and 1-byte pieces that is taken when the source is at least 8 back. */
  method CopyMatchWide(out: array<byte>, op: nat, off: nat, len: nat)
    requires 8 <= off <= op && op + len <= out.Length
    modifies out
    ensures out[..op + len] == CopyBack(old(out[..op]), off, len)
    ensures out[op + len..] == old(out[op + len..])
  {
    ghost var goal, end, tail := CopyBack(out[..op], off, len), op + len, out[op + len..];
    var o, t := op, len;
    while t >= 8
      invariant off <= o && o + t == end && CopyBack(out[..o], off, t) == goal && out[end..] == tail
    {
      o, t := CopyPiece(out, o, off, 8, t, end, goal);
    }
    if t >= 4 {
      o, t := CopyPiece(out, o, off, 4, t, end, goal);
    }
    while t > 0
      invariant off <= o && o + t == end && CopyBack(out[..o], off, t) == goal && out[end..] == tail
    {
      o, t := CopyPiece(out, o, off, 1, t, end, goal);
    }
  }

  // One piece of the wide copy, and the pointers moved past it.
  method CopyPiece(out: array<byte>, o: nat, off: nat, k: nat, t: nat, ghost end: nat, ghost goal: bytes)
    returns (o': nat, t': nat)
    requires 1 <= k <= t && k <= off <= o && o + t == end <= out.Length
    requires CopyBack(out[..o], off, t) == goal
    modifies out
    ensures o' == o + k && t' == t - k
    ensures CopyBack(out[..o'], off, t') == goal
    ensures out[end..] == old(out[end..])
  {
    CopyBackBlock(out[..o], off, k, t - k);
    hide CopyBack;
    ghost var was := out[..];
    CopyBlock(out, o, o - off, k);
    LaterTail(out[..], was, o + k, end);
    o', t' := o + k, t - k;
  }

  lemma LaterTail(a: bytes, b: bytes, i: nat, j: nat)
    requires i <= j <= |a| && |a| == |b| && a[i..] == b[i..]
    ensures a[j..] == b[j..]
  {
    assert a[i..][j - i..] == a[j..] && b[i..][j - i..] == b[j..];
  }

  method CopyLiterals(inp: bytes, ip: nat, out: array<byte>, op: nat, t: nat)
    requires ip + t <= |inp| && op + t <= out.Length
    modifies out
    ensures out[..op + t] == old(out[..op]) + inp[ip..ip + t]
    ensures out[op + t..] == old(out[op + t..])
  {
    var i := 0;
    while i < t
      invariant i <= t
      invariant out[..op + i] == old(out[..op]) + inp[ip..ip + i]
      invariant out[op + t..] == old(out[op + t..])
    {
      ghost var before := out[..op + i];
      out[op + i] := inp[ip + i];
      assert out[..op + i + 1] == before + [inp[ip + i]];
      assert inp[ip..ip + i + 1] == inp[ip..ip + i] + [inp[ip + i]];
      i := i + 1;
    }
  }

  // ---------------------------------------------------------------- labels

  /** while (*ip == 0) ...; t += base + *ip++ */
  method ReadExtended(inp: bytes, ip: nat, base: nat) returns (r: LenResult, ip': nat)
    requires ip < |inp|
    ensures ip <= ip' <= |inp|
    ensures r == ReadLen(inp[ip..], 0, base)
    ensures r.Len? ==> r.rest == inp[ip'..]
  {
    var t := 0;
    ip' := ip;
    while inp[ip'] == 0
      invariant ip <= ip' < |inp|
      invariant ReadLen(inp[ip'..], t, base) == ReadLen(inp[ip..], 0, base)
      decreases |inp| - ip'
    {
      assert inp[ip'..][1..] == inp[ip' + 1..];
      t := t + 255;
      ip' := ip' + 1;
      if t > LZO_UINT_TEST {
        return TooLong, ip;
      }
      if |inp| - ip' < 1 {
        return Truncated, ip;
      }
    }
    assert inp[ip'..][1..] == inp[ip' + 1..];
    r := Len(t + base + inp[ip'], inp[ip' + 1..]);
    ip' := ip' + 1;
  }

  /** The tests and the copy that end every kind of match. */
  method DoCopy(inp: bytes, ip: nat, out: array<byte>, op: nat, off: nat, len: nat, low: nat, wide: bool)
    returns (pc: Pc, op': nat)
    requires ip <= |inp| && op <= out.Length && 1 <= off && low < 4
    modifies out
    ensures op <= op' <= out.Length
    ensures State(pc, inp[ip..], out[..op']) == Copy(off, len, low, inp[ip..], old(out[..op]), out.Length)
    ensures out[op'..] == old(out[op'..])
  {
    op' := op;
    if off > op {
      pc := Halt(LookbehindOverrun);
    } else if out.Length - op < len {
      pc := Halt(OutputOverrun);
    } else {
      if wide && off >= 8 {
        CopyMatchWide(out, op, off, len);
      } else {
        CopyMatchBytes(out, op, off, len);
      }
      op' := op + len;
      pc := Done(low);
    }
  }

  /** A literal run of t bytes, its length known. */
  method DoRun(inp: bytes, ip: nat, out: array<byte>, op: nat, t: nat) returns (pc: Pc, ip': nat, op': nat)
    requires ip <= |inp| && op <= out.Length
    modifies out
    ensures ip <= ip' <= |inp| && op <= op' <= out.Length
    ensures pc == if out.Length - op < t then Halt(OutputOverrun)
                  else if |inp| - ip < t + 3 then Halt(InputOverrun) else AfterRun
    ensures if pc.Halt? then out[..op'] == old(out[..op])
            else ip' == ip + t && out[..op'] == old(out[..op]) + inp[ip..ip + t]
    ensures out[op'..] == old(out[op'..])
  {
    ip', op' := ip, op;
    if out.Length - op < t {
      pc := Halt(OutputOverrun);
    } else if |inp| - ip < t + 3 {
      pc := Halt(InputOverrun);
    } else {
      CopyLiterals(inp, ip, out, op, t);
      pc, ip', op' := AfterRun, ip + t, op + t;
    }
  }

  /** for (;;) at the top: a literal run, or a match marker. */
  method DoTop(inp: bytes, ip: nat, out: array<byte>, op: nat) returns (pc: Pc, ip': nat, op': nat)
    requires ip <= |inp| && op <= out.Length
    modifies out
    ensures ip <= ip' <= |inp| && op <= op' <= out.Length
    ensures Same(State(pc, inp[ip'..], out[..op']), StepTop(inp[ip..], old(out[..op]), out.Length))
    ensures out[op'..] == old(out[op'..])
  {
    hide ReadLen;
    ip', op' := ip, op;
    if |inp| - ip < 3 {
      return Halt(InputOverrun), ip, op;
    }
    var t: nat := inp[ip];
    var q := ip + 1;
    assert inp[ip..][1..] == inp[q..];
    if t >= 16 {
      return AtMatch(t), q, op;
    }
    ghost var len := if inp[ip] == 0 then ReadLen(inp[q..], 0, 15) else Len(inp[ip], inp[q..]);
    if t == 0 {
      var r;
      r, q := ReadExtended(inp, q, 15);
      if !r.Len? {
        return Halt(InputOverrun), ip, op;
      }
      t := r.t;
    }
    assert len == Len(t, inp[q..]);
    assert |inp[q..]| == |inp| - q;
    pc, ip', op' := DoRun(inp, q, out, op, t + 3);
    if !pc.Halt? {
      assert inp[q..][..t + 3] == inp[q..q + (t + 3)];
      assert inp[q..][t + 3..] == inp[ip'..];
    }
  }

  // Equal states, but for the input a stopped decoder no longer looks at.
  predicate Same(a: State, b: State) {
    a.pc == b.pc && a.out == b.out && (a.pc.Halt? || a.s == b.s)
  }

  /** first_literal_run */
  method DoAfterRun(inp: bytes, ip: nat, out: array<byte>, op: nat) returns (pc: Pc, ip': nat, op': nat)
    requires ip + 3 <= |inp| && op <= out.Length
    modifies out
    ensures ip <= ip' <= |inp| && op <= op' <= out.Length
    ensures State(pc, inp[ip'..], out[..op']) == StepAfterRun(inp[ip..], old(out[..op]), out.Length)
    ensures out[op'..] == old(out[op'..])
  {
    var t := inp[ip];
    assert inp[ip..][1..] == inp[ip + 1..] && inp[ip..][2..] == inp[ip + 2..];
    if t >= 16 {
      return AtMatch(t), ip + 1, op;
    }
    ip' := ip + 2;
    pc, op' := DoCopy(inp, ip', out, op, 1 + M2_MAX_OFFSET + t as int / 4 + inp[ip + 1] as int * 4, 3, t % 4, false);
  }

  /** match, with marker t: M2, M3, M4 (and the end marker) or the short M1. */
  method DoMatch(t: byte, inp: bytes, ip: nat, out: array<byte>, op: nat) returns (pc: Pc, ip': nat, op': nat)
    requires ip + 2 <= |inp| && op <= out.Length
    modifies out
    ensures ip <= ip' <= |inp| && op <= op' <= out.Length
    ensures Same(State(pc, inp[ip'..], out[..op']), StepMatch(t, inp[ip..], old(out[..op]), out.Length))
    ensures out[op'..] == old(out[op'..])
  {
    ghost var s := inp[ip..];
    assert s[1..] == inp[ip + 1..];
    ip', op' := ip, op;
    if t >= 64 {
      ip' := ip + 1;
      pc, op' := DoCopy(inp, ip', out, op, 1 + t as int / 4 % 8 + inp[ip] as int * 8, t / 32 + 1, t % 4, false);
    } else if t >= 32 {
      MatchIsM3(t, s, out[..op], out.Length);
      pc, ip', op' := DoM3(t, inp, ip, out, op);
    } else if t >= 16 {
      MatchIsM4(t, s, out[..op], out.Length);
      pc, ip', op' := DoM4(t, inp, ip, out, op);
    } else {
      ip' := ip + 1;
      pc, op' := DoCopy(inp, ip', out, op, 1 + t as int / 4 + inp[ip] as int * 4, 2, t % 4, false);
    }
  }

  method DoM3(t: byte, inp: bytes, ip: nat, out: array<byte>, op: nat) returns (pc: Pc, ip': nat, op': nat)
    requires 32 <= t < 64 && ip + 2 <= |inp| && op <= out.Length
    modifies out
    ensures ip <= ip' <= |inp| && op <= op' <= out.Length
    ensures Same(State(pc, inp[ip'..], out[..op']), StepM3(M3Len(t, inp[ip..]), inp[ip..], old(out[..op]), out.Length))
    ensures out[op'..] == old(out[op'..])
  {
    hide ReadLen, CopyBack;
    var l: nat, q := t % 32, ip;
    if l == 0 {
      var r;
      r, q := ReadExtended(inp, ip, 31);
      if !r.Len? {
        return Halt(if r.TooLong? then OutputOverrun else InputOverrun), ip, op;
      }
      l := r.t;
    }
    assert M3Len(t, inp[ip..]) == Len(l, inp[q..]);
    if |inp| - q < 2 {
      return Halt(InputOverrun), ip, op;
    }
    assert inp[q..][2..] == inp[q + 2..];
    ip' := q + 2;
    pc, op' := DoCopy(inp, ip', out, op, 1 + inp[q] as int / 4 + inp[q + 1] as int * 64, l + 2, inp[q] % 4, true);
  }

  method DoM4(t: byte, inp: bytes, ip: nat, out: array<byte>, op: nat) returns (pc: Pc, ip': nat, op': nat)
    requires 16 <= t < 32 && ip + 2 <= |inp| && op <= out.Length
    modifies out
    ensures ip <= ip' <= |inp| && op <= op' <= out.Length
    ensures Same(State(pc, inp[ip'..], out[..op']),
                 StepM4(M4Len(t, inp[ip..]), M4Far(t), inp[ip..], old(out[..op]), out.Length))
    ensures out[op'..] == old(out[op'..])
  {
    hide ReadLen, CopyBack;
    var l: nat, q := t % 8, ip;
    if l == 0 {
      var r;
      r, q := ReadExtended(inp, ip, 7);
      if !r.Len? {
        return Halt(if r.TooLong? then OutputOverrun else InputOverrun), ip, op;
      }
      l := r.t;
    }
    assert M4Len(t, inp[ip..]) == Len(l, inp[q..]);
    if |inp| - q < 2 {
      return Halt(InputOverrun), ip, op;
    }
    assert inp[q..][2..] == inp[q + 2..];
    ip' := q + 2;
    var off := M4Far(t) + inp[q] as int / 4 + inp[q + 1] as int * 64;
    if off == 0 {
      return Halt(if ip' == |inp| then Ok else InputNotConsumed), ip', op;
    }
    pc, op' := DoCopy(inp, ip', out, op, off + 0x4000, l + 2, inp[q] % 4, true);
  }

  /** match_next: one to three literals. */
  method DoNext(t: nat, inp: bytes, ip: nat, out: array<byte>, op: nat) returns (pc: Pc, ip': nat, op': nat)
    requires 1 <= t < 4 && ip <= |inp| && op <= out.Length
    modifies out
    ensures ip <= ip' <= |inp| && op <= op' <= out.Length
    ensures Same(State(pc, inp[ip'..], out[..op']), StepNext(t, inp[ip..], old(out[..op]), out.Length))
    ensures out[op'..] == old(out[op'..])
  {
    ip', op' := ip, op;
    if out.Length - op < t {
      return Halt(OutputOverrun), ip, op;
    }
    if |inp| - ip < t + 3 {
      return Halt(InputOverrun), ip, op;
    }
    CopyLiterals(inp, ip, out, op, t);
    assert inp[ip..][..t] == inp[ip..ip + t] && inp[ip..][t + 1..] == inp[ip + t + 1..];
    return AtMatch(inp[ip + t]), ip + t + 1, op + t;
  }

  /** The byte that may open the stream with a literal count. */
  method DoStart(inp: bytes, out: array<byte>) returns (pc: Pc, ip: nat, op: nat)
    modifies out
    ensures ip <= |inp| && op <= out.Length
    ensures Same(State(pc, inp[ip..], out[..op]), Start(inp, out.Length))
    ensures out[op..] == old(out[op..])
  {
    ip, op := 0, 0;
    if |inp| < 1 {
      return Halt(InputOverrun), 0, 0;
    }
    if inp[0] <= 17 {
      return Top, 0, 0;
    }
    var t: nat := inp[0] - 17;
    if t < 4 {
      return MatchNext(t), 1, 0;
    }
    pc, ip, op := DoRun(inp, 1, out, 0, t);
  }

  // ---------------------------------------------------------------- whole

  lemma SameRun(a: State, b: State, cap: nat)
    requires Same(a, b) && Valid(b, cap)
    ensures Valid(a, cap) && RunFrom(a, cap) == RunFrom(b, cap)
  {
  }

  /** The code at one label. */
  method DoStep(pc: Pc, inp: bytes, ip: nat, out: array<byte>, op: nat) returns (pc': Pc, ip': nat, op': nat)
    requires ip <= |inp| && op <= out.Length && Valid(State(pc, inp[ip..], out[..op]), out.Length) && !pc.Halt?
    modifies out
    ensures ip <= ip' <= |inp| && op <= op' <= out.Length
    ensures Same(State(pc', inp[ip'..], out[..op']), Step(State(pc, inp[ip..], old(out[..op])), out.Length))
    ensures out[op'..] == old(out[op'..])
  {
    match pc
    case Top => pc', ip', op' := DoTop(inp, ip, out, op);
    case AfterRun => pc', ip', op' := DoAfterRun(inp, ip, out, op);
    case AtMatch(t) => pc', ip', op' := DoMatch(t, inp, ip, out, op);
    case Done(low) => pc', ip', op' := if low == 0 then Top else MatchNext(low), ip, op;
    case MatchNext(t) => pc', ip', op' := DoNext(t, inp, ip, out, op);
  }

  /** The run from here ends as the whole decompression does. */
  ghost predicate OnTrack(pc: Pc, inp: bytes, ip: nat, o: bytes, cap: nat) {
    ip <= |inp| && Valid(State(pc, inp[ip..], o), cap) &&
    RunFrom(State(pc, inp[ip..], o), cap) == Decompress(inp, cap)
  }

  /** One round of the decoder stays on track and gets nearer to its end. */
  method Advance(pc: Pc, inp: bytes, ip: nat, out: array<byte>, op: nat) returns (pc': Pc, ip': nat, op': nat)
    requires op <= out.Length && OnTrack(pc, inp, ip, out[..op], out.Length) && !pc.Halt?
    modifies out
    ensures ip <= ip' <= |inp| && op <= op' <= out.Length
    ensures ip < ip' || Rank(pc') < Rank(pc)
    ensures OnTrack(pc', inp, ip', out[..op'], out.Length)
    ensures forall k :: op' <= k < out.Length ==> out[k] == old(out[k])
  {
    ghost var st := State(pc, inp[ip..], out[..op]);
    pc', ip', op' := DoStep(pc, inp, ip, out, op);
    SameRun(State(pc', inp[ip'..], out[..op']), Step(st, out.Length), out.Length);
    assert forall k :: op' <= k < out.Length ==> out[k] == out[op'..][k - op'] && old(out[k]) == old(out[op'..])[k - op'];
  }

  /** lzo1x_decompress_safe */
  method DecompressSafe(inp: bytes, out: array<byte>) returns (status: Status, outLen: nat)
    modifies out
    ensures outLen <= out.Length
    ensures Outcome(status, out[..outLen]) == Decompress(inp, out.Length)
    ensures out[outLen..] == old(out[outLen..])
  {
    var pc: Pc, ip: nat, op: nat := Begin(inp, out);
    while !pc.Halt?
      invariant ip <= |inp| && op <= out.Length && OnTrack(pc, inp, ip, out[..op], out.Length)
      invariant forall k :: op <= k < out.Length ==> out[k] == old(out[k])
      decreases |inp| - ip, Rank(pc)
    {
      pc, ip, op := Advance(pc, inp, ip, out, op);
    }
    return pc.status, op;
  }

  method Begin(inp: bytes, out: array<byte>) returns (pc: Pc, ip: nat, op: nat)
    modifies out
    ensures op <= out.Length && OnTrack(pc, inp, ip, out[..op], out.Length)
    ensures forall k :: op <= k < out.Length ==> out[k] == old(out[k])
  {
    pc, ip, op := DoStart(inp, out);
    SameRun(State(pc, inp[ip..], out[..op]), Start(inp, out.Length), out.Length);
    assert forall k :: op <= k < out.Length ==> out[k] == out[op..][k - op] && old(out[k]) == old(out[op..])[k - op];
  }
}
