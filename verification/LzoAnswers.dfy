/** What the answers of the LZO decoder mean, for every stream: what more input and more room change, when a stream is
    complete, and the tokens one by one. */
module LzoAnswers {
  import opened Arith
  import opened Bytes
  import opened LzoFormat

  // ---------------------------------------------------------------- more input

  /** The same state with more input behind. */
  function More(st: State, rest: bytes): State {
    State(st.pc, st.s + rest, st.out)
  }

  lemma AppendCuts(s: bytes, rest: bytes, k: nat)
    requires k <= |s|
    ensures (s + rest)[k..] == s[k..] + rest && (s + rest)[..k] == s[..k]
  {
  }

  lemma {:induction false} ReadLenMore(s: bytes, t: nat, base: nat, rest: bytes)
    requires s != []
    ensures match ReadLen(s, t, base)
            case TooLong => ReadLen(s + rest, t, base) == TooLong
            case Truncated => true
            case Len(l, r) => ReadLen(s + rest, t, base) == Len(l, r + rest)
  {
    AppendCuts(s, rest, 1);
    if s[0] == 0 && |s| > 1 && t + 255 <= LZO_UINT_TEST {
      ReadLenMore(s[1..], t + 255, base, rest);
    }
  }

  /** What a step comes to, with more input behind. */
  predicate Follows(st': State, lt: State, rest: bytes) {
    if !st'.pc.Halt? then lt == More(st', rest)
    else if st'.pc.status == Ok then lt.pc == Halt(if rest == [] then Ok else InputNotConsumed) && lt.out == st'.out
    else st'.pc.status == InputOverrun || (lt.pc == st'.pc && lt.out == st'.out)
  }

  lemma CopyMore(off: nat, len: nat, low: nat, s: bytes, out: bytes, cap: nat, rest: bytes)
    requires 1 <= off && low < 4 && |out| <= cap
    ensures Follows(Copy(off, len, low, s, out, cap), Copy(off, len, low, s + rest, out, cap), rest)
    ensures Copy(off, len, low, s, out, cap).pc != Halt(Ok)
  {
  }

  lemma TopMore(s: bytes, out: bytes, cap: nat, rest: bytes)
    requires |out| <= cap
    ensures Follows(StepTop(s, out, cap), StepTop(s + rest, out, cap), rest)
  {
    hide ReadLen;
    if |s| >= 3 {
      AppendCuts(s, rest, 1);
      if s[0] == 0 {
        ReadLenMore(s[1..], 0, 15, rest);
      }
      match if s[0] == 0 then ReadLen(s[1..], 0, 15) else Len(s[0], s[1..])
      case Len(t, r) =>
        if |r| >= t + 6 {
          AppendCuts(r, rest, t + 3);
        }
      case _ =>
    }
  }

  lemma MatchMore(t: byte, s: bytes, out: bytes, cap: nat, rest: bytes)
    requires |s| >= 2 && |out| <= cap
    ensures Follows(StepMatch(t, s, out, cap), StepMatch(t, s + rest, out, cap), rest)
  {
    hide ReadLen, Copy;
    AppendCuts(s, rest, 1);
    if t >= 64 || t < 16 {
      var off := if t >= 64 then M2Off(t, s[0]) else 1 + t as int / 4 + s[0] as int * 4;
      CopyMore(off, if t >= 64 then t / 32 + 1 else 2, t % 4, s[1..], out, cap, rest);
    } else if t >= 32 {
      ReadLenMore(s, 0, 31, rest);
      M3More(M3Len(t, s), M3Len(t, s + rest), s, out, cap, rest);
    } else {
      ReadLenMore(s, 0, 7, rest);
      M4More(M4Len(t, s), M4Len(t, s + rest), M4Far(t), s, out, cap, rest);
    }
  }

  /** The lengths read, without and with more input behind. */
  predicate SameLen(a: LenResult, b: LenResult, rest: bytes) {
    match a
    case TooLong => b == TooLong
    case Truncated => true
    case Len(l, r) => b == Len(l, r + rest)
  }

  lemma M3More(a: LenResult, b: LenResult, s: bytes, out: bytes, cap: nat, rest: bytes)
    requires SameLen(a, b, rest) && |out| <= cap
    requires (a.Len? ==> |a.rest| <= |s|) && (b.Len? ==> |b.rest| <= |s + rest|)
    ensures Follows(StepM3(a, s, out, cap), StepM3(b, s + rest, out, cap), rest)
  {
    hide Copy;
    if a.Len? && |a.rest| >= 2 {
      var r := a.rest;
      AppendCuts(r, rest, 2);
      assert (r + rest)[0] == r[0] && (r + rest)[1] == r[1];
      CopyMore(1 + Offset14(r), a.t + 2, r[0] % 4, r[2..], out, cap, rest);
    }
  }

  lemma M4More(a: LenResult, b: LenResult, far: nat, s: bytes, out: bytes, cap: nat, rest: bytes)
    requires SameLen(a, b, rest) && |out| <= cap
    requires (a.Len? ==> |a.rest| <= |s|) && (b.Len? ==> |b.rest| <= |s + rest|)
    ensures Follows(StepM4(a, far, s, out, cap), StepM4(b, far, s + rest, out, cap), rest)
  {
    hide Copy;
    if a.Len? && |a.rest| >= 2 {
      var r := a.rest;
      AppendCuts(r, rest, 2);
      assert (r + rest)[0] == r[0] && (r + rest)[1] == r[1];
      var off := far + Offset14(r);
      if off > 0 {
        CopyMore(off + 0x4000, a.t + 2, r[0] % 4, r[2..], out, cap, rest);
      }
    }
  }

  lemma StepMore(st: State, cap: nat, rest: bytes)
    requires Valid(st, cap) && !st.pc.Halt?
    ensures Valid(More(st, rest), cap)
    ensures Follows(Step(st, cap), Step(More(st, rest), cap), rest)
  {
    hide Follows, StepTop, StepMatch;
    var s, out := st.s, st.out;
    match st.pc
    case Top => TopMore(s, out, cap, rest);
    case AtMatch(t) => MatchMore(t, s, out, cap, rest);
    case _ => EasyMore(st, cap, rest);
  }

  lemma EasyMore(st: State, cap: nat, rest: bytes)
    requires Valid(st, cap) && (st.pc.AfterRun? || st.pc.Done? || st.pc.MatchNext?)
    ensures Follows(Step(st, cap), Step(More(st, rest), cap), rest)
  {
    hide Copy;
    var s, out := st.s, st.out;
    match st.pc
    case AfterRun =>
      AppendCuts(s, rest, 1);
      AppendCuts(s, rest, 2);
      if s[0] < 16 {
        CopyMore(1 + M2_MAX_OFFSET + s[0] as int / 4 + s[1] as int * 4, 3, s[0] % 4, s[2..], out, cap, rest);
      }
    case MatchNext(t) =>
      if |s| >= t + 3 {
        AppendCuts(s, rest, t);
        AppendCuts(s, rest, t + 1);
      }
    case _ =>
  }

  lemma StepGrows(st: State, cap: nat)
    requires Valid(st, cap) && !st.pc.Halt?
    ensures st.out <= Step(st, cap).out && (Step(st, cap).pc.Halt? ==> Step(st, cap).out == st.out)
  {
    hide ReadLen;
  }

  lemma {:induction false} RunGrows(st: State, cap: nat)
    requires Valid(st, cap)
    ensures st.out <= RunFrom(st, cap).out
    decreases |st.s|, Rank(st.pc)
  {
    if !st.pc.Halt? {
      StepGrows(st, cap);
      hide Step;
      RunGrows(Step(st, cap), cap);
    }
  }

  /** What becomes of an outcome when there is more input: success means that the input was used up, a lack of input
      keeps what is there, and no other answer changes. */
  predicate Continues(o: Outcome, l: Outcome, rest: bytes) {
    match o.status
    case Ok => l == Outcome(if rest == [] then Ok else InputNotConsumed, o.out)
    case InputOverrun => o.out <= l.out
    case _ => l == o
  }

  lemma {:induction false} RunMore(st: State, cap: nat, rest: bytes)
    requires Valid(st, cap) && !st.pc.Halt?
    ensures Valid(More(st, rest), cap)
    ensures Continues(RunFrom(st, cap), RunFrom(More(st, rest), cap), rest)
    decreases |st.s|, Rank(st.pc)
  {
    StepMore(st, cap, rest);
    StepGrows(st, cap);
    RunGrows(More(st, rest), cap);
    hide Step, Valid;
    var st' := Step(st, cap);
    if !st'.pc.Halt? {
      RunMore(st', cap, rest);
    }
  }

  lemma StartMore(s: bytes, cap: nat, rest: bytes)
    ensures Follows(Start(s, cap), Start(s + rest, cap), rest)
    ensures Start(s, cap).pc.Halt? ==> Start(s, cap).out == [] && Start(s, cap).pc.status != Ok
  {
    if |s| >= 1 {
      AppendCuts(s, rest, 1);
      if s[0] > 17 && |s| - 1 >= s[0] - 17 + 3 {
        AppendCuts(s, rest, 1 + (s[0] - 17));
        AppendCuts(s[1..], rest, s[0] - 17);
        assert s[1..][..s[0] - 17] == s[1..1 + (s[0] - 17)];
      }
    }
  }

  lemma MoreInput(s: bytes, cap: nat, rest: bytes)
    ensures Continues(Decompress(s, cap), Decompress(s + rest, cap), rest)
  {
    hide Start, RunFrom;
    StartMore(s, cap, rest);
    if Start(s, cap).pc.Halt? {
      HaltedRun(Start(s, cap), cap);
      if Start(s + rest, cap).pc.Halt? {
        HaltedRun(Start(s + rest, cap), cap);
      }
    } else {
      RunMore(Start(s, cap), cap, rest);
    }
  }

  lemma HaltedRun(st: State, cap: nat)
    requires st.pc.Halt? && Valid(st, cap)
    ensures RunFrom(st, cap) == Outcome(st.pc.status, st.out)
  {
  }

  /** A stream that has been cut is never taken for a whole one: what is missing is reported, and the output is a part
      of the whole one. */
  lemma TruncationNoticed(s: bytes, cap: nat, k: nat)
    requires k < |s| && Decompress(s, cap).status == Ok
    ensures Decompress(s[..k], cap).status == InputOverrun && Decompress(s[..k], cap).out <= Decompress(s, cap).out
  {
    hide Decompress;
    MoreInput(s[..k], cap, s[k..]);
    Split(s, k);
  }

  // ---------------------------------------------------------------- success

  /** The token that ends a stream: an M4 marker of the near half, its length in any form, and the distance zero. */
  predicate IsEnd(m: bytes) {
    && |m| >= 3 && 16 <= m[0] < 24 && m[|m| - 2] < 4 && m[|m| - 1] == 0
    && if m[0] > 16 then |m| == 3
       else |m| >= 4 && m[|m| - 3] != 0 && forall i :: 1 <= i < |m| - 3 ==> m[i] == 0
  }

  lemma {:induction false} LenEnds(s: bytes, t: nat, base: nat)
    requires s != []
    ensures var r := ReadLen(s, t, base);
            r.Len? ==>
              && |r.rest| < |s| && r.rest == s[|s| - |r.rest|..] && s[|s| - |r.rest| - 1] != 0
              && forall i :: 0 <= i < |s| - |r.rest| - 1 ==> s[i] == 0
  {
    if s[0] == 0 && |s| > 1 && t + 255 <= LZO_UINT_TEST {
      LenEnds(s[1..], t + 255, base);
      var r := ReadLen(s[1..], t + 255, base);
      if r.Len? {
        assert forall i :: 0 < i < |s| ==> s[i] == s[1..][i - 1];
      }
    }
  }

  lemma {:induction false} LenOf(s: bytes, k: nat, t: nat, base: nat)
    requires k < |s| && s[k] != 0 && (forall i :: 0 <= i < k ==> s[i] == 0) && t + 255 * k <= LZO_UINT_TEST
    ensures ReadLen(s, t, base) == Len(t + 255 * k + base + s[k], s[k + 1..])
    decreases k
  {
    if k > 0 {
      LenOf(s[1..], k - 1, t + 255, base);
    }
  }

  lemma OffsetZero(r: bytes)
    requires |r| >= 2
    ensures Offset14(r) == 0 <==> r[0] < 4 && r[1] == 0
  {
  }

  /** The decoder stops with success at such a token with nothing behind it, and nowhere else. */
  lemma SuccessExact(st: State, cap: nat)
    requires Valid(st, cap) && !st.pc.Halt? && 255 * |st.s| <= LZO_UINT_TEST
    ensures Step(st, cap).pc == Halt(Ok) <==> st.pc.AtMatch? && IsEnd([st.pc.marker] + st.s)
  {
    hide ReadLen, Copy, IsEnd;
    var s, out := st.s, st.out;
    match st.pc
    case AtMatch(t) =>
      if 16 <= t < 32 {
        EndToken(t, s, out, cap);
      } else {
        OtherTokens(t, s, out, cap);
      }
    case _ => NoEndHere(st, cap);
  }

  lemma OtherTokens(t: byte, s: bytes, out: bytes, cap: nat)
    requires !(16 <= t < 32) && |s| >= 2 && |out| <= cap
    ensures StepMatch(t, s, out, cap).pc != Halt(Ok) && !IsEnd([t] + s)
  {
    hide ReadLen, CopyBack;
  }

  lemma NoEndHere(st: State, cap: nat)
    requires Valid(st, cap) && !st.pc.Halt? && !st.pc.AtMatch?
    ensures Step(st, cap).pc != Halt(Ok)
  {
    hide ReadLen, CopyBack;
  }

  lemma EndToken(t: byte, s: bytes, out: bytes, cap: nat)
    requires 16 <= t < 32 && |s| >= 2 && |out| <= cap && 255 * |s| <= LZO_UINT_TEST
    ensures StepM4(M4Len(t, s), M4Far(t), s, out, cap).pc == Halt(Ok) <==> IsEnd([t] + s)
  {
    hide ReadLen, Copy, Offset14, IsEnd, M4Far;
    var len := M4Len(t, s);
    EndLength(t, s);
    if len.Len? && |len.rest| >= 2 {
      OffsetZero(len.rest);
      FarBit(t);
      if M4Far(t) + Offset14(len.rest) > 0 {
        CopyMore(M4Far(t) + Offset14(len.rest) + 0x4000, len.t + 2, len.rest[0] % 4, len.rest[2..], out, cap, []);
      }
    }
  }

  lemma FarBit(t: byte)
    requires 16 <= t < 32
    ensures M4Far(t) == 0 <==> t < 24
  {
  }

  lemma EndLength(t: byte, s: bytes)
    requires 16 <= t < 32 && |s| >= 2 && 255 * |s| <= LZO_UINT_TEST
    ensures IsEnd([t] + s) <==>
              t < 24 && M4Len(t, s).Len? && |M4Len(t, s).rest| == 2 && M4Len(t, s).rest[0] < 4 && M4Len(t, s).rest[1] == 0
  {
    hide ReadLen;
    var m, n := [t] + s, |s|;
    assert forall i :: 0 <= i < n ==> m[i + 1] == s[i];
    LenEnds(s, 0, 7);
    if IsEnd(m) && t == 16 {
      LenOf(s, n - 3, 0, 7);
    }
  }

  /** What a state has still to read, the marker in hand included. */
  function Ahead(st: State): bytes {
    if st.pc.AtMatch? then [st.pc.marker] + st.s else st.s
  }

  predicate EndOf(a: bytes, s: bytes) {
    |a| <= |s| && a == s[|s| - |a|..]
  }

  lemma EndOfEnd(a: bytes, b: bytes, s: bytes)
    requires EndOf(a, b) && EndOf(b, s)
    ensures EndOf(a, s)
  {
  }

  lemma LenEndOf(s: bytes, t: nat, base: nat, k: nat)
    requires s != []
    ensures var r := ReadLen(s, t, base); r.Len? && k <= |r.rest| ==> EndOf(r.rest[k..], s)
  {
    LenEnds(s, t, base);
  }

  lemma TopReadsOn(s: bytes, out: bytes, cap: nat)
    requires |out| <= cap && !StepTop(s, out, cap).pc.Halt?
    ensures EndOf(Ahead(StepTop(s, out, cap)), s)
  {
    hide ReadLen;
    if s[0] == 0 {
      LenEndOf(s[1..], 0, 15, ReadLen(s[1..], 0, 15).t + 3);
    }
  }

  lemma M3ReadsOn(s: bytes, t: byte, out: bytes, cap: nat)
    requires |s| >= 2 && 32 <= t < 64 && |out| <= cap && !StepM3(M3Len(t, s), s, out, cap).pc.Halt?
    ensures EndOf(Ahead(StepM3(M3Len(t, s), s, out, cap)), s)
  {
    hide ReadLen, CopyBack, Offset14;
    LenEndOf(s, 0, 31, 2);
  }

  lemma M4ReadsOn(s: bytes, t: byte, out: bytes, cap: nat)
    requires |s| >= 2 && 16 <= t < 32 && |out| <= cap && !StepM4(M4Len(t, s), M4Far(t), s, out, cap).pc.Halt?
    ensures EndOf(Ahead(StepM4(M4Len(t, s), M4Far(t), s, out, cap)), s)
  {
    hide ReadLen, CopyBack, Offset14;
    LenEndOf(s, 0, 7, 2);
  }

  lemma MarkerBefore(a: bytes, t: byte, s: bytes)
    requires EndOf(a, s)
    ensures EndOf(a, [t] + s)
  {
  }

  lemma CopyReadsOn(off: nat, len: nat, low: nat, s: bytes, out: bytes, cap: nat)
    requires 1 <= off && low < 4 && |out| <= cap
    ensures Ahead(Copy(off, len, low, s, out, cap)) == s
  {
  }

  lemma ShortReadsOn(t: byte, s: bytes, out: bytes, cap: nat)
    requires |s| >= 2 && |out| <= cap && (t >= 64 || t < 16)
    ensures EndOf(Ahead(StepMatch(t, s, out, cap)), s)
  {
    hide Copy, Ahead;
    OneByteOn(s);
    if t >= 64 {
      CopyReadsOn(M2Off(t, s[0]), t / 32 + 1, t % 4, s[1..], out, cap);
    } else {
      CopyReadsOn(1 + t as int / 4 + s[0] as int * 4, 2, t % 4, s[1..], out, cap);
    }
  }

  lemma MatchReadsOn(t: byte, s: bytes, out: bytes, cap: nat)
    requires |s| >= 2 && |out| <= cap && !StepMatch(t, s, out, cap).pc.Halt?
    ensures EndOf(Ahead(StepMatch(t, s, out, cap)), s)
  {
    hide EndOf, Ahead, StepM3, StepM4, M3Len, M4Len, Copy;
    if 32 <= t < 64 {
      M3ReadsOn(s, t, out, cap);
    } else if 16 <= t < 32 {
      M4ReadsOn(s, t, out, cap);
    } else {
      ShortReadsOn(t, s, out, cap);
    }
  }

  /** A step reads on from where the one before has stopped. */
  lemma StepReadsOn(st: State, cap: nat)
    requires Valid(st, cap) && !st.pc.Halt? && !Step(st, cap).pc.Halt?
    ensures EndOf(Ahead(Step(st, cap)), Ahead(st))
  {
    hide EndOf, StepTop, StepMatch;
    match st.pc
    case Top => TopReadsOn(st.s, st.out, cap);
    case AtMatch(t) =>
      MatchReadsOn(t, st.s, st.out, cap);
      MarkerBefore(Ahead(Step(st, cap)), t, st.s);
    case _ => EasyReadsOn(st, cap);
  }

  lemma OneByteOn(s: bytes)
    requires s != []
    ensures EndOf(s[1..], s)
  {
  }

  lemma EasyReadsOn(st: State, cap: nat)
    requires Valid(st, cap) && (st.pc.AfterRun? || st.pc.Done? || st.pc.MatchNext?) && !Step(st, cap).pc.Halt?
    ensures EndOf(Ahead(Step(st, cap)), Ahead(st))
  {
    hide CopyBack;
  }

  lemma {:induction false} RunEnds(st: State, cap: nat)
    requires Valid(st, cap) && !st.pc.Halt? && RunFrom(st, cap).status == Ok && 255 * |st.s| <= LZO_UINT_TEST
    ensures exists m :: IsEnd(m) && EndOf(m, Ahead(st))
    decreases |st.s|, Rank(st.pc)
  {
    hide Step, Valid, IsEnd, Ahead, EndOf;
    var st' := Step(st, cap);
    SuccessExact(st, cap);
    if st'.pc.Halt? {
      assert Ahead(st) == [st.pc.marker] + st.s by { AheadOf(st); }
      WholeEnd(Ahead(st));
    } else {
      RunEnds(st', cap);
      var m :| IsEnd(m) && EndOf(m, Ahead(st'));
      StepReadsOn(st, cap);
      EndOfEnd(m, Ahead(st'), Ahead(st));
    }
  }

  lemma AheadOf(st: State)
    ensures st.pc.AtMatch? ==> Ahead(st) == [st.pc.marker] + st.s
  {
  }

  lemma WholeEnd(a: bytes)
    ensures EndOf(a, a)
  {
  }

  lemma StartReadsOn(s: bytes, cap: nat)
    requires !Start(s, cap).pc.Halt?
    ensures EndOf(Ahead(Start(s, cap)), s)
  {
  }

  /** A stream that is decoded with success ends with the end token. */
  lemma SuccessEnds(s: bytes, cap: nat)
    requires Decompress(s, cap).status == Ok && 255 * |s| <= LZO_UINT_TEST
    ensures exists m :: IsEnd(m) && EndOf(m, s)
  {
    hide Start, IsEnd, EndOf, RunFrom;
    StartMore(s, cap, []);
    var st := Start(s, cap);
    if st.pc.Halt? {
      HaltedRun(st, cap);
    } else {
      StartReadsOn(s, cap);
      StartShrinks(s, cap);
      RunEnds(st, cap);
      var m :| IsEnd(m) && EndOf(m, Ahead(st));
      EndOfEnd(m, Ahead(st), s);
    }
  }

  lemma StartShrinks(s: bytes, cap: nat)
    ensures |Start(s, cap).s| <= |s|
  {
  }

  // ---------------------------------------------------------------- more room

  /** What becomes of a step when there is more room. */
  predicate SameWithRoom(a: State, b: State) {
    if a.pc == Halt(OutputOverrun) then a.out <= b.out else b == a
  }

  lemma CopyRoom(off: nat, len: nat, low: nat, s: bytes, out: bytes, cap: nat, cap': nat)
    requires 1 <= off && low < 4 && |out| <= cap <= cap'
    ensures SameWithRoom(Copy(off, len, low, s, out, cap), Copy(off, len, low, s, out, cap'))
  {
  }

  lemma StepRoom(st: State, cap: nat, cap': nat)
    requires Valid(st, cap) && !st.pc.Halt? && cap <= cap'
    ensures Valid(st, cap') && SameWithRoom(Step(st, cap), Step(st, cap'))
  {
    hide ReadLen, CopyBack, Offset14;
    StepGrows(st, cap);
    StepGrows(st, cap');
  }

  lemma {:induction false} RunRoom(st: State, cap: nat, cap': nat)
    requires Valid(st, cap) && cap <= cap'
    ensures Valid(st, cap')
    ensures var o, l := RunFrom(st, cap), RunFrom(st, cap'); if o.status == OutputOverrun then o.out <= l.out else l == o
    decreases |st.s|, Rank(st.pc)
  {
    if !st.pc.Halt? {
      StepRoom(st, cap, cap');
      RunGrows(Step(st, cap'), cap');
      hide Step;
      RunRoom(Step(st, cap), cap, cap');
    }
  }

  /** Only a lack of room is changed by more of it, and what was written stays. */
  lemma MoreRoom(s: bytes, cap: nat, cap': nat)
    requires cap <= cap'
    ensures var o, l := Decompress(s, cap), Decompress(s, cap');
            if o.status == OutputOverrun then o.out <= l.out else l == o
  {
    hide RunFrom;
    if Start(s, cap) == Start(s, cap') {
      RunRoom(Start(s, cap), cap, cap');
    } else {
      HaltedRun(Start(s, cap), cap);
    }
  }

  // ---------------------------------------------------------------- more text before

  /** A state behind more output. */
  function Behind(pre: bytes, st: State): State {
    State(st.pc, st.s, pre + st.out)
  }

  lemma {:induction false} CopyBackBehind(pre: bytes, out: bytes, off: nat, len: nat)
    requires 1 <= off <= |out|
    ensures CopyBack(pre + out, off, len) == pre + CopyBack(out, off, len)
    decreases len
  {
    if len > 0 {
      var b := [out[|out| - off]];
      assert (pre + out)[|pre + out| - off] == out[|out| - off];
      Assoc(pre, out, b);
      CopyBackBehind(pre, out + b, off, len - 1);
    }
  }

  /** What a step comes to behind more output: a match from before it is the one thing that this changes. */
  predicate SameBehind(pre: bytes, a: State, b: State) {
    if a.pc == Halt(LookbehindOverrun) then |pre| >= M4_MAX_OFFSET ==> b.pc != Halt(LookbehindOverrun)
    else b == Behind(pre, a)
  }

  lemma CopyBehind(pre: bytes, off: nat, len: nat, low: nat, s: bytes, out: bytes, cap: nat)
    requires 1 <= off <= M4_MAX_OFFSET && low < 4 && |out| <= cap
    ensures SameBehind(pre, Copy(off, len, low, s, out, cap), Copy(off, len, low, s, pre + out, |pre| + cap))
  {
    if off <= |out| {
      CopyBackBehind(pre, out, off, len);
    }
  }

  lemma MatchBehind(pre: bytes, t: byte, s: bytes, out: bytes, cap: nat)
    requires |s| >= 2 && |out| <= cap
    ensures SameBehind(pre, StepMatch(t, s, out, cap), StepMatch(t, s, pre + out, |pre| + cap))
  {
    hide ReadLen, Copy;
    if t >= 64 {
      CopyBehind(pre, M2Off(t, s[0]), t / 32 + 1, t % 4, s[1..], out, cap);
    } else if t >= 32 {
      var len := M3Len(t, s);
      if len.Len? && |len.rest| >= 2 {
        var r := len.rest;
        CopyBehind(pre, 1 + Offset14(r), len.t + 2, r[0] % 4, r[2..], out, cap);
      }
    } else if t >= 16 {
      var len := M4Len(t, s);
      if len.Len? && |len.rest| >= 2 && M4Far(t) + Offset14(len.rest) > 0 {
        var r := len.rest;
        CopyBehind(pre, M4Far(t) + Offset14(r) + 0x4000, len.t + 2, r[0] % 4, r[2..], out, cap);
      }
    } else {
      CopyBehind(pre, 1 + t as int / 4 + s[0] as int * 4, 2, t % 4, s[1..], out, cap);
    }
  }

  lemma RunBehind(pre: bytes, st: State, cap: nat)
    requires Valid(st, cap) && (st.pc.Top? || st.pc.MatchNext? || st.pc.Done?)
    ensures SameBehind(pre, Step(st, cap), Step(Behind(pre, st), |pre| + cap))
  {
    hide ReadLen;
    var s, out := st.s, st.out;
    match st.pc
    case Top =>
      if |s| >= 3 && s[0] < 16 {
        match if s[0] == 0 then ReadLen(s[1..], 0, 15) else Len(s[0], s[1..])
        case Len(t, r) =>
          if |r| >= t + 3 {
            Assoc(pre, out, r[..t + 3]);
          }
        case _ =>
      }
    case MatchNext(t) =>
      if |s| >= t {
        Assoc(pre, out, s[..t]);
      }
    case _ =>
  }

  /** A step is refused for a match from before the output, and for nothing else, if and only if more output would let
      it pass: 49151 bytes are enough. */
  lemma StepBehind(pre: bytes, st: State, cap: nat)
    requires Valid(st, cap) && !st.pc.Halt?
    ensures Valid(Behind(pre, st), |pre| + cap)
    ensures SameBehind(pre, Step(st, cap), Step(Behind(pre, st), |pre| + cap))
  {
    hide SameBehind, Copy, StepMatch, StepTop, StepNext;
    var s, out := st.s, st.out;
    match st.pc
    case AtMatch(t) => MatchBehind(pre, t, s, out, cap);
    case AfterRun =>
      if s[0] < 16 {
        CopyBehind(pre, 1 + M2_MAX_OFFSET + s[0] as int / 4 + s[1] as int * 4, 3, s[0] % 4, s[2..], out, cap);
      } else {
        MarkerBehind(pre, s[0], s[1..], out);
      }
    case _ => RunBehind(pre, st, cap);
  }

  lemma MarkerBehind(pre: bytes, t: byte, s: bytes, out: bytes)
    ensures SameBehind(pre, State(AtMatch(t), s, out), State(AtMatch(t), s, pre + out))
  {
  }

  // ---------------------------------------------------------------- the tokens that the compressor does not write

  /** Two bytes from at most 1024 back, behind one to three literals. */
  lemma NearInverse(off: nat, low: nat, rest: bytes, out: bytes, cap: nat)
    requires 1 <= off <= 1024 && low < 4 && |rest| >= 1 && off <= |out| && |out| + 2 <= cap
    ensures StepMatch((off - 1) % 4 * 4 + low, [(off - 1) / 4] + rest, out, cap)
         == State(Done(low), rest, CopyBack(out, off, 2))
  {
    hide Copy, StepM3, StepM4, M3Len, M4Len, CopyBack;
    var t, s := (off - 1) % 4 * 4 + low, [(off - 1) / 4] + rest;
    assert s[1..] == rest && s[0] == (off - 1) / 4;
    assert t / 4 == (off - 1) % 4 && t % 4 == low && t < 16;
    CopyFits(off, 2, low, rest, out, cap);
  }

  /** Three bytes from 2049 to 3072 back, behind a literal run. */
  lemma FarInverse(off: nat, low: nat, rest: bytes, out: bytes, cap: nat)
    requires 2049 <= off <= 3072 && low < 4 && |rest| >= 1 && off <= |out| && |out| + 3 <= cap
    ensures StepAfterRun([(off - 2049) % 4 * 4 + low, (off - 2049) / 4] + rest, out, cap)
         == State(Done(low), rest, CopyBack(out, off, 3))
  {
    var t, s := (off - 2049) % 4 * 4 + low, [(off - 2049) % 4 * 4 + low, (off - 2049) / 4] + rest;
    assert s[2..] == rest;
    assert t / 4 == (off - 2049) % 4 && t % 4 == low;
  }

  // ---------------------------------------------------------------- tokens by example

  // Each class at the ends of its range: lengths, offsets and the literals that follow.

  lemma M2Tokens(s: bytes, out: bytes, cap: nat)
    requires |out| <= cap && |s| >= 1
    ensures StepMatch(0x40, [0x00] + s, out, cap) == Copy(1, 3, 0, s, out, cap)
    ensures StepMatch(0xFF, [0xFF] + s, out, cap) == Copy(2048, 8, 3, s, out, cap)
  {
    hide Copy;
    assert ([0x00] + s)[1..] == s && ([0xFF] + s)[1..] == s;
  }

  lemma M3Tokens(s: bytes, out: bytes, cap: nat)
    requires |out| <= cap
    ensures StepMatch(0x21, [0x00, 0x00] + s, out, cap) == Copy(1, 3, 0, s, out, cap)
    ensures StepMatch(0x3F, [0xFF, 0xFF] + s, out, cap) == Copy(16384, 33, 3, s, out, cap)
    ensures StepMatch(0x20, [0x01, 0x00, 0x00] + s, out, cap) == Copy(1, 34, 0, s, out, cap)
  {
    hide Copy, StepM4;
    TwoBefore(0x00, 0x00, s);
    TwoBefore(0xFF, 0xFF, s);
    OneBefore(0x01, 0x00, 0x00, s);
  }

  lemma M4Tokens(s: bytes, out: bytes, cap: nat)
    requires |out| <= cap
    ensures StepMatch(0x11, [0x04, 0x00] + s, out, cap) == Copy(16385, 3, 0, s, out, cap)
    ensures StepMatch(0x1F, [0xFF, 0xFF] + s, out, cap) == Copy(49151, 9, 3, s, out, cap)
    ensures StepMatch(0x10, [0x01, 0x04, 0x00] + s, out, cap) == Copy(16385, 10, 0, s, out, cap)
  {
    hide Copy, StepM3;
    TwoBefore(0x04, 0x00, s);
    TwoBefore(0xFF, 0xFF, s);
    OneBefore(0x01, 0x04, 0x00, s);
  }

  lemma TwoBefore(a: byte, b: byte, s: bytes)
    ensures var t := [a, b] + s; t[0] == a && t[1] == b && t[2..] == s
  {
  }

  lemma OneBefore(l: byte, a: byte, b: byte, s: bytes)
    ensures [l, a, b] + s == [l] + ([a, b] + s) && ([l, a, b] + s)[1..] == [a, b] + s
  {
  }

  lemma LiteralTokens(lits: bytes, rest: bytes, out: bytes, cap: nat)
    requires |rest| >= 3 && |out| + |lits| <= cap
    ensures |lits| == 4 ==> StepTop([0x01] + (lits + rest), out, cap) == State(AfterRun, rest, out + lits)
    ensures |lits| == 18 ==> StepTop([0x0F] + (lits + rest), out, cap) == State(AfterRun, rest, out + lits)
    ensures |lits| == 19 ==> StepTop([0x00, 0x01] + (lits + rest), out, cap) == State(AfterRun, rest, out + lits)
    ensures |lits| == 238 ==> Start([0xFF] + (lits + rest), cap) == State(AfterRun, rest, lits)
  {
    var u := lits + rest;
    CutAtEnd(lits, rest);
    assert ([0x01] + u)[1..] == u && ([0x0F] + u)[1..] == u && ([0xFF] + u)[1..] == u;
    assert ([0x00, 0x01] + u)[1..] == [0x01] + u && ([0x01] + u)[1..] == u;
    if |lits| == 238 {
      var s := [0xFF] + u;
      assert s[1..1 + 238] == lits && s[1 + 238..] == rest;
    }
  }

  /** A copied byte is the one `off` before it, also when that has just been copied. */
  lemma {:induction false} CopyBackAt(out: bytes, off: nat, len: nat, i: nat)
    requires 1 <= off <= |out| && i < |out| + len
    ensures CopyBack(out, off, len)[i] == if i < |out| then out[i] else CopyBack(out, off, len)[i - off]
    decreases len
  {
    if len > 0 && i >= |out| {
      var b := out + [out[|out| - off]];
      if i > |out| {
        CopyBackAt(b, off, len - 1, i);
      } else {
        assert b <= CopyBack(b, off, len - 1);
        assert CopyBack(b, off, len - 1)[i] == b[i] && CopyBack(b, off, len - 1)[i - off] == b[i - off];
      }
    }
  }
}
