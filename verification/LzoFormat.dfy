/** The LZO1X byte format: what the safe decoder makes of any byte string, what
    the compressor writes for a parse of its input into literals and matches, and
    the proof that the first undoes the second. */
module LzoFormat {
  import opened Bytes

  const M2_MAX_LEN := 8
  const M3_MAX_LEN := 33
  const M4_MAX_LEN := 9
  const M2_MAX_OFFSET := 0x0800
  const M3_MAX_OFFSET := 0x4000
  const M4_MAX_OFFSET := 0xbfff
  const M3_MARKER := 32
  const M4_MARKER := 16

  // The largest length that TEST_IV and TEST_OV let through: (lzo_uint)0 - 511, 64-bit lzo_uint.
  const LZO_UINT_TEST: int := 0x1_0000_0000_0000_0000 - 511

  datatype Status = Ok | InputNotConsumed | InputOverrun | OutputOverrun | LookbehindOverrun

  /** Where the decoder stands between two of its labels. `Done(low)` is match_done
      with the two low bits of ip[-2]. */
  datatype Pc = Top | AfterRun | AtMatch(marker: byte) | Done(low: nat) | MatchNext(count: nat) | Halt(status: Status)

  /** A decoder state: label, unread input, output so far. */
  datatype State = State(pc: Pc, s: bytes, out: bytes)

  // ---------------------------------------------------------------- decoder

  /** The overlapping copy of `len` bytes from `off` back, one byte at a time. */
  function CopyBack(out: bytes, off: nat, len: nat): (r: bytes)
    requires 1 <= off <= |out|
    ensures |r| == |out| + len && out <= r
    decreases len
  {
    if len == 0 then out else CopyBack(out + [out[|out| - off]], off, len - 1)
  }

  datatype LenResult = TooLong | Truncated | Len(t: nat, rest: bytes)

  /** A zero-extended length: each zero byte adds 255, the first nonzero byte ends it. */
  function ReadLen(s: bytes, t: nat, base: nat): (r: LenResult)
    requires s != []
    ensures r.Len? ==> |r.rest| < |s| && r.t > 0
  {
    if s[0] != 0 then Len(t + base + s[0], s[1..])
    else if t + 255 > LZO_UINT_TEST then TooLong
    else if |s| == 1 then Truncated
    else ReadLen(s[1..], t + 255, base)
  }

  /** What the bounds tests passed so far have established at each label. */
  predicate Valid(st: State, cap: nat) {
    |st.out| <= cap &&
    match st.pc
    case AfterRun => |st.s| >= 3
    case AtMatch(_) => |st.s| >= 2
    case Done(low) => low < 4
    case MatchNext(t) => 1 <= t < 4
    case _ => true
  }

  function Rank(pc: Pc): nat {
    match pc
    case Halt(_) => 0
    case Done(_) => 2
    case _ => 1
  }

  /** Reading goes on with less input, or stops. */
  predicate Advances(s: bytes, st': State, cap: nat) {
    Valid(st', cap) && if st'.pc.Halt? then |st'.s| <= |s| else |st'.s| < |s|
  }

  /** From one label to the next. */
  function Step(st: State, cap: nat): (st': State)
    requires Valid(st, cap) && !st.pc.Halt?
    ensures Valid(st', cap)
    ensures |st'.s| < |st.s| || (|st'.s| == |st.s| && Rank(st'.pc) < Rank(st.pc))
  {
    match st.pc
    case Top => StepTop(st.s, st.out, cap)
    case AfterRun => StepAfterRun(st.s, st.out, cap)
    case AtMatch(t) => StepMatch(t, st.s, st.out, cap)
    case Done(low) => State(if low == 0 then Top else MatchNext(low), st.s, st.out)
    case MatchNext(t) => StepNext(t, st.s, st.out, cap)
    case Halt(_) => st
  }

  // Head of the outer loop: a literal run or a match.
  function StepTop(s: bytes, out: bytes, cap: nat): (st': State)
    requires |out| <= cap
    ensures Advances(s, st', cap)
  {
    if |s| < 3 then State(Halt(InputOverrun), s, out)
    else if s[0] >= 16 then State(AtMatch(s[0]), s[1..], out)
    else
      match if s[0] == 0 then ReadLen(s[1..], 0, 15) else Len(s[0], s[1..])
      case TooLong => State(Halt(InputOverrun), s, out)
      case Truncated => State(Halt(InputOverrun), s, out)
      case Len(t, r) =>
        if cap - |out| < t + 3 then State(Halt(OutputOverrun), s, out)
        else if |r| < t + 6 then State(Halt(InputOverrun), s, out)
        else State(AfterRun, r[t + 3..], out + r[..t + 3])
  }

  // first_literal_run: after a literal run a byte below 16 is a three-byte match far back.
  function StepAfterRun(s: bytes, out: bytes, cap: nat): (st': State)
    requires |s| >= 3 && |out| <= cap
    ensures Advances(s, st', cap)
  {
    if s[0] >= 16 then State(AtMatch(s[0]), s[1..], out)
    else Copy(1 + M2_MAX_OFFSET + s[0] as int / 4 + s[1] as int * 4, 3, s[0] % 4, s[2..], out, cap)
  }

  function M3Len(t: byte, s: bytes): (r: LenResult)
    requires 32 <= t < 64 && s != []
    ensures r.Len? ==> |r.rest| <= |s|
  {
    if t == 32 then ReadLen(s, 0, 31) else Len(t - 32, s)
  }

  function M4Len(t: byte, s: bytes): (r: LenResult)
    requires 16 <= t < 32 && s != []
    ensures r.Len? ==> |r.rest| <= |s|
  {
    if t % 8 == 0 then ReadLen(s, 0, 7) else Len(t % 8, s)
  }

  // Bit 3 of an M4 marker is bit 14 of the offset.
  function M4Far(t: byte): nat {
    if t / 8 % 2 == 1 then 0x4000 else 0
  }

  function M2Off(t: byte, b: byte): nat {
    1 + t as int / 4 % 8 + b as int * 8
  }

  // match: the marker byte t has been read.
  function StepMatch(t: byte, s: bytes, out: bytes, cap: nat): (st': State)
    requires |s| >= 2 && |out| <= cap
    ensures Advances(s, st', cap)
  {
    if t >= 64 then
      Copy(M2Off(t, s[0]), t / 32 + 1, t % 4, s[1..], out, cap)
    else if t >= 32 then
      StepM3(M3Len(t, s), s, out, cap)
    else if t >= 16 then
      StepM4(M4Len(t, s), M4Far(t), s, out, cap)
    else
      Copy(1 + t as int / 4 + s[0] as int * 4, 2, t % 4, s[1..], out, cap)
  }

  // The 14 offset bits in two bytes, above the two free bits.
  function Offset14(e: bytes): nat
    requires |e| >= 2
  {
    e[0] as int / 4 + e[1] as int * 64
  }

  // The offset bytes of an M3 match, once its length is known.
  function StepM3(len: LenResult, s: bytes, out: bytes, cap: nat): (st': State)
    requires |out| <= cap
    requires len.Len? ==> |len.rest| <= |s|
    ensures Advances(s, st', cap)
  {
    match len
    case TooLong => State(Halt(OutputOverrun), s, out)
    case Truncated => State(Halt(InputOverrun), s, out)
    case Len(l, r) =>
      if |r| < 2 then State(Halt(InputOverrun), s, out)
      else Copy(1 + Offset14(r), l + 2, r[0] % 4, r[2..], out, cap)
  }

  // The offset bytes of an M4 match; `far` is bit 14 of the offset, taken from the marker.
  function StepM4(len: LenResult, far: nat, s: bytes, out: bytes, cap: nat): (st': State)
    requires |out| <= cap
    requires len.Len? ==> |len.rest| <= |s|
    ensures Advances(s, st', cap)
  {
    match len
    case TooLong => State(Halt(OutputOverrun), s, out)
    case Truncated => State(Halt(InputOverrun), s, out)
    case Len(l, r) =>
      if |r| < 2 then State(Halt(InputOverrun), s, out)
      else
        var off := far + Offset14(r);
        if off == 0 then State(Halt(if r[2..] == [] then Ok else InputNotConsumed), r[2..], out)
        else Copy(off + 0x4000, l + 2, r[0] % 4, r[2..], out, cap)
  }

  // One to three literals, then the next match marker.
  function StepNext(t: nat, s: bytes, out: bytes, cap: nat): (st': State)
    requires 1 <= t < 4 && |out| <= cap
    ensures Advances(s, st', cap)
  {
    if cap - |out| < t then State(Halt(OutputOverrun), s, out)
    else if |s| < t + 3 then State(Halt(InputOverrun), s, out)
    else State(AtMatch(s[t]), s[t + 1..], out + s[..t])
  }

  // The two tests and the copy of a match.
  function Copy(off: nat, len: nat, low: nat, s: bytes, out: bytes, cap: nat): (st': State)
    requires 1 <= off && low < 4 && |out| <= cap
    ensures Valid(st', cap) && |st'.s| == |s|
  {
    if off > |out| then State(Halt(LookbehindOverrun), s, out)
    else if cap - |out| < len then State(Halt(OutputOverrun), s, out)
    else State(Done(low), s, CopyBack(out, off, len))
  }

  /** The byte that may open the stream with a literal count. */
  function Start(s: bytes, cap: nat): (st: State)
    ensures Valid(st, cap)
  {
    if |s| < 1 then State(Halt(InputOverrun), s, [])
    else if s[0] <= 17 then State(Top, s, [])
    else
      var t := s[0] - 17;
      if t < 4 then State(MatchNext(t), s[1..], [])
      else if cap < t then State(Halt(OutputOverrun), s, [])
      else if |s| - 1 < t + 3 then State(Halt(InputOverrun), s, [])
      else State(AfterRun, s[1 + t..], s[1..1 + t])
  }

  /** Status and output in the end. */
  datatype Outcome = Outcome(status: Status, out: bytes)

  function RunFrom(st: State, cap: nat): Outcome
    requires Valid(st, cap)
    decreases |st.s|, Rank(st.pc)
  {
    if st.pc.Halt? then Outcome(st.pc.status, st.out) else RunFrom(Step(st, cap), cap)
  }

  /** The whole of lzo1x_decompress_safe, with `cap` bytes of room for the output. */
  function Decompress(s: bytes, cap: nat): Outcome {
    RunFrom(Start(s, cap), cap)
  }

  // ---------------------------------------------------------------- encoder

  datatype Match = Match(off: nat, len: nat)

  /** A match and the literals that follow it. */
  datatype Segment = Segment(m: Match, lits: bytes)

  /** The literals before the first match: none, a whole input of 1..238 bytes
      behind one count byte, or a literal run. */
  datatype First = NoLits | Counted(lits: bytes) | Run(lits: bytes)

  predicate ValidMatch(m: Match) {
    1 <= m.off <= M4_MAX_OFFSET && 3 <= m.len < LZO_UINT_TEST
  }

  predicate ValidFirst(f: First) {
    match f
    case NoLits => true
    case Counted(l) => 1 <= |l| <= 238
    case Run(l) => 4 <= |l| < LZO_UINT_TEST
  }

  /** n > 0 in the zero-extended form. */
  function LenBytes(n: nat): (r: bytes)
    requires n > 0
    ensures |r| == 1 + (n - 1) / 255
    decreases n
  {
    if n > 255 then [0] + LenBytes(n - 255) else [n]
  }

  function RunHeader(t: nat): bytes
    requires t >= 4
  {
    if t <= 18 then [t - 3] else [0] + LenBytes(t - 18)
  }

  /** Marker and extended length of an M3 or M4 match. */
  function LongHead(marker: nat, maxLen: nat, len: nat): bytes
    requires marker < 256 && 3 <= len && maxLen >= 3 && marker + maxLen - 2 < 256
  {
    if len <= maxLen then [marker + (len - 2)] else [marker] + LenBytes(len - maxLen)
  }

  function MatchHead(m: Match): bytes
    requires ValidMatch(m)
  {
    if m.off <= M3_MAX_OFFSET then LongHead(M3_MARKER, M3_MAX_LEN, m.len)
    else LongHead(M4_MARKER + (m.off - 0x4000) / 0x4000 * 8, M4_MAX_LEN, m.len)
  }

  function OffsetBytes(o: nat, low: nat): (e: bytes)
    requires low < 4
    ensures |e| == 2
  {
    [o % 64 * 4 + low, o / 64 % 256]
  }

  function FarOff(m: Match): nat
    requires ValidMatch(m)
  {
    if m.off <= M3_MAX_OFFSET then m.off - 1 else m.off - 0x4000
  }

  predicate IsM2(m: Match) {
    m.len <= M2_MAX_LEN && m.off <= M2_MAX_OFFSET
  }

  /** A match with `low` in the two free bits of its last byte but one. */
  function MatchBytes(m: Match, low: nat): (r: bytes)
    requires ValidMatch(m) && low < 4
    ensures |r| >= 2
  {
    if IsM2(m) then
      [(m.len - 1) * 32 + (m.off - 1) % 8 * 4 + low, (m.off - 1) / 8]
    else
      MatchHead(m) + OffsetBytes(FarOff(m), low)
  }

  function Low(lits: bytes): (low: nat)
    ensures low < 4
  {
    if |lits| <= 3 then |lits| else 0
  }

  function LitBytes(lits: bytes): bytes {
    if |lits| <= 3 then lits else RunHeader(|lits|) + lits
  }

  function SegBytes(g: Segment): bytes
    requires ValidMatch(g.m)
  {
    MatchBytes(g.m, Low(g.lits)) + LitBytes(g.lits)
  }

  ghost predicate ValidSegs(gs: seq<Segment>) {
    forall i :: 0 <= i < |gs| ==> ValidMatch(gs[i].m) && |gs[i].lits| < LZO_UINT_TEST
  }

  function Body(gs: seq<Segment>): bytes
    requires ValidSegs(gs)
  {
    if gs == [] then [] else SegBytes(gs[0]) + Body(gs[1..])
  }

  function FirstBytes(f: First): bytes
    requires ValidFirst(f)
  {
    match f
    case NoLits => []
    case Counted(l) => [17 + |l|] + l
    case Run(l) => RunHeader(|l|) + l
  }

  function FirstLits(f: First): bytes {
    match f
    case NoLits => []
    case Counted(l) => l
    case Run(l) => l
  }

  const EOF_BYTES: bytes := [M4_MARKER + 1, 0, 0]

  // ---------------------------------------------------------------- meaning

  /** Every match reaches back into what is already there. */
  predicate Reachable(out: bytes, gs: seq<Segment>)
    decreases |gs|
  {
    gs == [] ||
    (1 <= gs[0].m.off <= |out| && Reachable(CopyBack(out, gs[0].m.off, gs[0].m.len) + gs[0].lits, gs[1..]))
  }

  function Expand(out: bytes, gs: seq<Segment>): (r: bytes)
    requires Reachable(out, gs)
    ensures out <= r
    decreases |gs|
  {
    if gs == [] then out
    else Expand(CopyBack(out, gs[0].m.off, gs[0].m.len) + gs[0].lits, gs[1..])
  }

  // ---------------------------------------------------------------- the decoder inverts the encoder

  lemma {:induction false} LenInverse(n: nat, t: nat, base: nat, rest: bytes)
    requires n > 0 && t + n < LZO_UINT_TEST
    ensures ReadLen(LenBytes(n) + rest, t, base) == Len(t + base + n, rest)
    decreases n
  {
    var s := LenBytes(n) + rest;
    if n > 255 {
      assert s[1..] == LenBytes(n - 255) + rest;
      LenInverse(n - 255, t + 255, base, rest);
    } else {
      assert s[1..] == rest;
    }
  }

  /** A literal run is read in one step. */
  lemma RunInverse(lits: bytes, rest: bytes, out: bytes, cap: nat)
    requires 4 <= |lits| < LZO_UINT_TEST && |rest| >= 3
    requires |out| + |lits| <= cap
    ensures StepTop(RunHeader(|lits|) + lits + rest, out, cap) == State(AfterRun, rest, out + lits)
  {
    var t, r := |lits|, lits + rest;
    assert r[..t] == lits && r[t..] == rest;
    RunHeadInverse(t, lits, rest);
  }

  lemma RunHeadInverse(t: nat, lits: bytes, rest: bytes)
    requires 4 <= t < LZO_UINT_TEST
    ensures var s := RunHeader(t) + lits + rest;
            |s| >= 1 + |rest| && s[0] < 16
            && if s[0] == 0 then |s| >= 2 && ReadLen(s[1..], 0, 15) == Len(t - 3, lits + rest)
               else s[0] == t - 3 && s[1..] == lits + rest
  {
    if t <= 18 {
      ConsAppend(t - 3, lits, rest);
    } else {
      LenInverse(t - 18, 0, 15, lits + rest);
      hide LenBytes, ReadLen;
      Regroup([0], LenBytes(t - 18), lits, rest);
      Regroup([], LenBytes(t - 18), lits, rest);
      ConsAppend(0, LenBytes(t - 18), lits + rest);
    }
  }

  lemma LongHeadInverse(marker: nat, maxLen: nat, len: nat, rest: bytes)
    requires marker < 256 && maxLen >= 3 && marker + maxLen - 2 < 256
    requires 3 <= len < LZO_UINT_TEST
    ensures var h := LongHead(marker, maxLen, len) + rest;
            && h[0] == marker + (if len <= maxLen then len - 2 else 0)
            && (if len > maxLen then h[1..] != [] && ReadLen(h[1..], 0, maxLen - 2) == Len(len - 2, rest)
                else h[1..] == rest)
  {
    if len > maxLen {
      LenInverse(len - maxLen, 0, maxLen - 2, rest);
      hide LenBytes, ReadLen;
      ConsAppend(marker, LenBytes(len - maxLen), rest);
    } else {
      ConsAppend(marker + (len - 2), [], rest);
    }
  }

  lemma ConsAppend(x: byte, s: bytes, rest: bytes)
    ensures ([x] + s + rest)[1..] == s + rest && ([x] + s + rest)[0] == x && [x] + [] == [x] && [] + rest == rest
  {
  }

  lemma CopyFits(off: nat, len: nat, low: nat, s: bytes, out: bytes, cap: nat)
    requires 1 <= off <= |out| && low < 4 && |out| + len <= cap
    ensures Copy(off, len, low, s, out, cap) == State(Done(low), s, CopyBack(out, off, len))
  {
  }

  /** A match with any number of folded literals is read in one step. */
  lemma MatchInverse(m: Match, low: nat, rest: bytes, out: bytes, cap: nat)
    requires ValidMatch(m) && low < 4 && m.off <= |out| && |out| + m.len <= cap
    requires |rest| >= 1
    ensures var s := MatchBytes(m, low) + rest;
            && s[0] >= 16 && |s| >= 3
            && StepMatch(s[0], s[1..], out, cap) == Copy(m.off, m.len, low, rest, out, cap)
  {
    if IsM2(m) {
      M2Inverse(m, low, rest, out, cap);
    } else {
      FarInverse(m, low, rest, out, cap);
    }
  }

  lemma M2Fields(m: Match, low: nat)
    requires ValidMatch(m) && IsM2(m) && low < 4
    ensures var e := MatchBytes(m, low);
            |e| == 2 && e[0] >= 64 && M2Off(e[0], e[1]) == m.off && e[0] / 32 + 1 == m.len && e[0] % 4 == low
  {
    var o := m.off - 1;
    var x := o % 8;
    M2Marker(m.len - 1, x, low);
    assert MatchBytes(m, low) == [(m.len - 1) * 32 + x * 4 + low, o / 8];
  }

  lemma M2Marker(l: nat, x: nat, low: nat)
    requires 2 <= l <= 7 && x < 8 && low < 4
    ensures var t := l * 32 + x * 4 + low; t / 32 == l && t / 4 % 8 == x && t % 4 == low && 64 <= t < 256
  {
    var t := l * 32 + x * 4 + low;
    assert t / 4 == l * 8 + x;
  }

  lemma M2Inverse(m: Match, low: nat, rest: bytes, out: bytes, cap: nat)
    requires ValidMatch(m) && IsM2(m) && low < 4 && m.off <= |out| && |out| + m.len <= cap
    requires |rest| >= 1
    ensures var s := MatchBytes(m, low) + rest;
            && s[0] >= 16 && |s| >= 3
            && StepMatch(s[0], s[1..], out, cap) == Copy(m.off, m.len, low, rest, out, cap)
  {
    M2Fields(m, low);
    var e := MatchBytes(m, low);
    assert (e + rest)[1..] == [e[1]] + rest && ([e[1]] + rest)[1..] == rest;
  }

  /** The two offset bytes of an M3 or M4 match. */
  lemma FarFields(o: nat, low: nat)
    requires o < 0x8000 && low < 4
    ensures var e := OffsetBytes(o, low);
            e[0] % 4 == low && Offset14(e) == o % 0x4000
  {
    assert o % 0x4000 == o % 64 + o / 64 % 256 * 64;
  }

  lemma M3Head(len: nat, tail: bytes)
    requires 3 <= len < LZO_UINT_TEST
    ensures var s := LongHead(32, 33, len) + tail;
            32 <= s[0] < 64 && |s| >= 1 + |tail| && (|tail| > 0 ==> M3Len(s[0], s[1..]) == Len(len - 2, tail))
  {
    LongHeadInverse(32, 33, len, tail);
  }

  lemma M4Head(hi: nat, len: nat, tail: bytes)
    requires hi <= 1 && 3 <= len < LZO_UINT_TEST
    ensures var s := LongHead(16 + hi * 8, 9, len) + tail;
            && 16 <= s[0] < 32 && |s| >= 1 + |tail| && M4Far(s[0]) == hi * 0x4000
            && (|tail| > 0 ==> M4Len(s[0], s[1..]) == Len(len - 2, tail))
  {
    LongHeadInverse(16 + hi * 8, 9, len, tail);
  }

  lemma MatchIsM3(t: byte, s: bytes, out: bytes, cap: nat)
    requires |s| >= 2 && |out| <= cap && 32 <= t < 64
    ensures StepMatch(t, s, out, cap) == StepM3(M3Len(t, s), s, out, cap)
  {
  }

  lemma MatchIsM4(t: byte, s: bytes, out: bytes, cap: nat)
    requires |s| >= 2 && |out| <= cap && 16 <= t < 32
    ensures StepMatch(t, s, out, cap) == StepM4(M4Len(t, s), M4Far(t), s, out, cap)
  {
  }

  lemma M3Tail(m: Match, tail: bytes, s: bytes, out: bytes, cap: nat)
    requires 2 <= m.len && 1 <= m.off <= |out| && |out| + m.len <= cap && 2 <= |tail| <= |s|
    requires 1 + Offset14(tail) == m.off
    ensures StepM3(Len(m.len - 2, tail), s, out, cap) == Copy(m.off, m.len, tail[0] % 4, tail[2..], out, cap)
  {
  }

  lemma M4Tail(m: Match, far: nat, tail: bytes, s: bytes, out: bytes, cap: nat)
    requires 2 <= m.len && 0x4000 < m.off <= |out| && |out| + m.len <= cap && 2 <= |tail| <= |s|
    requires far + Offset14(tail) == m.off - 0x4000
    ensures StepM4(Len(m.len - 2, tail), far, s, out, cap) == Copy(m.off, m.len, tail[0] % 4, tail[2..], out, cap)
  {
  }

  lemma FarTail(m: Match, low: nat, rest: bytes)
    requires ValidMatch(m) && !IsM2(m) && low < 4
    ensures var tail := OffsetBytes(FarOff(m), low) + rest;
            && MatchBytes(m, low) + rest == MatchHead(m) + tail
            && |tail| >= 2 && tail[2..] == rest && tail[0] % 4 == low
            && Offset14(tail) == FarOff(m) % 0x4000
  {
    FarFields(FarOff(m), low);
    var e := OffsetBytes(FarOff(m), low);
    assert (e + rest)[2..] == rest && (e + rest)[0] == e[0] && (e + rest)[1] == e[1];
    assert MatchBytes(m, low) + rest == MatchHead(m) + (e + rest);
  }

  lemma FarInverse(m: Match, low: nat, rest: bytes, out: bytes, cap: nat)
    requires ValidMatch(m) && !IsM2(m) && low < 4 && m.off <= |out| && |out| + m.len <= cap
    ensures var s := MatchBytes(m, low) + rest;
            && s[0] >= 16 && |s| >= 3
            && StepMatch(s[0], s[1..], out, cap) == Copy(m.off, m.len, low, rest, out, cap)
  {
    FarTail(m, low, rest);
    var tail := OffsetBytes(FarOff(m), low) + rest;
    if m.off <= M3_MAX_OFFSET {
      M3Inverse(m, tail, out, cap);
    } else {
      M4Inverse(m, tail, out, cap);
    }
  }

  lemma M3Inverse(m: Match, tail: bytes, out: bytes, cap: nat)
    requires ValidMatch(m) && m.off <= M3_MAX_OFFSET && m.off <= |out| && |out| + m.len <= cap
    requires |tail| >= 2 && Offset14(tail) == m.off - 1
    ensures var s := MatchHead(m) + tail;
            && s[0] >= 16 && |s| >= 3
            && StepMatch(s[0], s[1..], out, cap) == Copy(m.off, m.len, tail[0] % 4, tail[2..], out, cap)
  {
    var s := MatchHead(m) + tail;
    M3Head(m.len, tail);
    MatchIsM3(s[0], s[1..], out, cap);
    M3Tail(m, tail, s[1..], out, cap);
  }

  lemma M4Inverse(m: Match, tail: bytes, out: bytes, cap: nat)
    requires ValidMatch(m) && m.off > M3_MAX_OFFSET && m.off <= |out| && |out| + m.len <= cap
    requires |tail| >= 2 && Offset14(tail) == (m.off - 0x4000) % 0x4000
    ensures var s := MatchHead(m) + tail;
            && s[0] >= 16 && |s| >= 3
            && StepMatch(s[0], s[1..], out, cap) == Copy(m.off, m.len, tail[0] % 4, tail[2..], out, cap)
  {
    var hi := (m.off - 0x4000) / 0x4000;
    var s := MatchHead(m) + tail;
    M4Head(hi, m.len, tail);
    MatchIsM4(s[0], s[1..], out, cap);
    M4Tail(m, hi * 0x4000, tail, s[1..], out, cap);
  }

  // The labels at which the next byte is taken for a match marker when it is at least 16.
  predicate MarkerDue(pc: Pc) {
    pc == Top || pc == AfterRun
  }

  /** Expanding the segments from a state that stands before them. */
  ghost predicate Expands(gs: seq<Segment>, out: bytes, cap: nat)
    requires ValidSegs(gs) && Reachable(out, gs)
  {
    var s := Body(gs) + EOF_BYTES;
    |out| <= cap && |s| >= 3 && s[0] >= 16 &&
    RunFrom(State(AtMatch(s[0]), s[1..], out), cap) == Outcome(Ok, Expand(out, gs))
  }

  lemma NextInverse(lits: bytes, next: bytes, out: bytes, cap: nat)
    requires 1 <= |lits| <= 3 && |next| >= 3 && |out| + |lits| <= cap
    ensures StepNext(|lits|, lits + next, out, cap) == State(AtMatch(next[0]), next[1..], out + lits)
  {
    var s, t := lits + next, |lits|;
    assert s[..t] == lits && s[t] == next[0] && s[t + 1..] == next[1..];
  }

  // What follows a match: folded literals, a run, or nothing.
  lemma AfterMatch(lits: bytes, gs: seq<Segment>, out: bytes, cap: nat)
    requires ValidSegs(gs) && Reachable(out + lits, gs) && |lits| < LZO_UINT_TEST && |out| + |lits| <= cap
    requires Expands(gs, out + lits, cap)
    ensures RunFrom(State(Done(Low(lits)), LitBytes(lits) + (Body(gs) + EOF_BYTES), out), cap)
         == Outcome(Ok, Expand(out + lits, gs))
  {
    var next := Body(gs) + EOF_BYTES;
    var s := LitBytes(lits) + next;
    var t := |lits|;
    var st := State(Done(Low(lits)), s, out);
    if t == 0 {
      assert s == next && out + lits == out;
      assert Step(st, cap) == State(Top, next, out);
      MarkerStep(gs, Top, out, cap);
    } else if t <= 3 {
      NextInverse(lits, next, out, cap);
      assert Step(st, cap) == State(MatchNext(t), s, out);
      assert Step(Step(st, cap), cap) == State(AtMatch(next[0]), next[1..], out + lits);
    } else {
      assert s == RunHeader(t) + lits + next;
      RunInverse(lits, next, out, cap);
      assert Step(st, cap) == State(Top, s, out);
      MarkerStep(gs, AfterRun, out + lits, cap);
    }
  }

  lemma MarkerStep(gs: seq<Segment>, pc: Pc, out: bytes, cap: nat)
    requires ValidSegs(gs) && Reachable(out, gs) && Expands(gs, out, cap) && MarkerDue(pc)
    ensures RunFrom(State(pc, Body(gs) + EOF_BYTES, out), cap) == Outcome(Ok, Expand(out, gs))
  {
    var s := Body(gs) + EOF_BYTES;
    assert Step(State(pc, s, out), cap) == State(AtMatch(s[0]), s[1..], out);
  }

  lemma EofInverse(out: bytes, cap: nat)
    requires |out| <= cap
    ensures Expands([], out, cap)
  {
    var s := Body([]) + EOF_BYTES;
    assert s == EOF_BYTES;
    EofStep(s[1..], out, cap);
    assert RunFrom(State(AtMatch(17), s[1..], out), cap) == RunFrom(State(Halt(Ok), [], out), cap);
  }

  lemma EofStep(t: bytes, out: bytes, cap: nat)
    requires |t| == 2 && t[0] == 0 && t[1] == 0 && |out| <= cap
    ensures Step(State(AtMatch(17), t, out), cap) == State(Halt(Ok), [], out)
  {
    MatchIsM4(17, t, out, cap);
    assert M4Len(17, t) == Len(1, t) && M4Far(17) == 0;
    assert StepM4(Len(1, t), 0, t, out, cap) == State(Halt(Ok), [], out);
  }

  /** From any point where a match marker is due, the decoder expands the rest of the stream. */
  lemma {:induction false} SegmentsInverse(gs: seq<Segment>, out: bytes, cap: nat)
    requires ValidSegs(gs) && Reachable(out, gs) && |Expand(out, gs)| <= cap
    ensures Expands(gs, out, cap)
    decreases |gs|
  {
    if gs == [] {
      EofInverse(out, cap);
    } else {
      SegmentsInverse(gs[1..], CopyBack(out, gs[0].m.off, gs[0].m.len) + gs[0].lits, cap);
      SegmentInverse(gs, out, cap);
    }
  }

  lemma BodyUnfold(gs: seq<Segment>)
    requires ValidSegs(gs) && gs != []
    ensures Body(gs) + EOF_BYTES
         == MatchBytes(gs[0].m, Low(gs[0].lits)) + (LitBytes(gs[0].lits) + (Body(gs[1..]) + EOF_BYTES))
  {
    hide MatchBytes, LitBytes, Low;
    Regroup(MatchBytes(gs[0].m, Low(gs[0].lits)), LitBytes(gs[0].lits), Body(gs[1..]), EOF_BYTES);
  }

  lemma Regroup(a: bytes, b: bytes, c: bytes, d: bytes)
    ensures a + b + c + d == a + (b + (c + d))
  {
  }

  lemma MatchStep(m: Match, low: nat, rest: bytes, out: bytes, cap: nat)
    requires ValidMatch(m) && low < 4 && m.off <= |out| && |out| + m.len <= cap && |rest| >= 1
    ensures var s := MatchBytes(m, low) + rest;
            && s[0] >= 16 && |s| >= 3
            && Step(State(AtMatch(s[0]), s[1..], out), cap) == State(Done(low), rest, CopyBack(out, m.off, m.len))
  {
    MatchInverse(m, low, rest, out, cap);
    CopyFits(m.off, m.len, low, rest, out, cap);
  }

  lemma SegmentInverse(gs: seq<Segment>, out: bytes, cap: nat)
    requires ValidSegs(gs) && gs != [] && Reachable(out, gs) && |Expand(out, gs)| <= cap
    requires Expands(gs[1..], CopyBack(out, gs[0].m.off, gs[0].m.len) + gs[0].lits, cap)
    ensures Expands(gs, out, cap)
  {
    var m, lits := gs[0].m, gs[0].lits;
    var copied := CopyBack(out, m.off, m.len);
    var rest := LitBytes(lits) + (Body(gs[1..]) + EOF_BYTES);
    BodyUnfold(gs);
    MatchStep(m, Low(lits), rest, out, cap);
    AfterMatch(lits, gs[1..], copied, cap);
  }

  lemma CountedStart(l: bytes, next: bytes, cap: nat)
    requires 1 <= |l| <= 238 && |l| <= cap && |next| >= 3
    ensures Start([17 + |l|] + l + next, cap)
         == if |l| < 4 then State(MatchNext(|l|), l + next, []) else State(AfterRun, next, l)
  {
    var s := [17 + |l|] + l + next;
    assert s[1..] == l + next;
    assert s[1..1 + |l|] == l && s[1 + |l|..] == next;
  }

  lemma CountedInverse(l: bytes, gs: seq<Segment>, cap: nat)
    requires 1 <= |l| <= 238 && ValidSegs(gs) && Reachable(l, gs) && Expands(gs, l, cap)
    ensures Decompress([17 + |l|] + l + (Body(gs) + EOF_BYTES), cap) == Outcome(Ok, Expand(l, gs))
  {
    var next := Body(gs) + EOF_BYTES;
    CountedStart(l, next, cap);
    if |l| < 4 {
      NextInverse(l, next, [], cap);
      assert [] + l == l;
    } else {
      MarkerStep(gs, AfterRun, l, cap);
    }
  }

  lemma RunInverseAtStart(l: bytes, gs: seq<Segment>, cap: nat)
    requires 4 <= |l| < LZO_UINT_TEST && ValidSegs(gs) && Reachable(l, gs) && Expands(gs, l, cap)
    ensures Decompress(RunHeader(|l|) + l + (Body(gs) + EOF_BYTES), cap) == Outcome(Ok, Expand(l, gs))
  {
    var next := Body(gs) + EOF_BYTES;
    RunInverse(l, next, [], cap);
    assert [] + l == l;
    MarkerStep(gs, AfterRun, l, cap);
    assert Step(State(Top, RunHeader(|l|) + l + next, []), cap) == State(AfterRun, next, l);
  }

  lemma EmptyInverse(cap: nat)
    ensures Decompress(Body([]) + EOF_BYTES, cap) == Outcome(Ok, [])
  {
    assert Body([]) + EOF_BYTES == EOF_BYTES;
    EofInverse([], cap);
    MarkerStep([], Top, [], cap);
  }

  /** Decompressing what the compressor writes gives back the literals and the
      expanded matches, into any buffer large enough, with status Ok. */
  lemma StreamInverse(f: First, gs: seq<Segment>, cap: nat)
    requires ValidFirst(f) && ValidSegs(gs) && Reachable(FirstLits(f), gs)
    requires |Expand(FirstLits(f), gs)| <= cap
    ensures Decompress(FirstBytes(f) + (Body(gs) + EOF_BYTES), cap) == Outcome(Ok, Expand(FirstLits(f), gs))
  {
    SegmentsInverse(gs, FirstLits(f), cap);
    match f
    case NoLits =>
      assert gs == [];
      EmptyInverse(cap);
      assert [] + (Body(gs) + EOF_BYTES) == Body([]) + EOF_BYTES;
    case Counted(l) => CountedInverse(l, gs, cap);
    case Run(l) => RunInverseAtStart(l, gs, cap);
  }
}
