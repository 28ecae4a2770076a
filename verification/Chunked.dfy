/** The chunked transfer coding of the mango client (section 3.6.1 of RFC 2616): what the
    sender puts on the wire, what the incremental receiver makes of any stretch of it,
    and the proof that the receiver delivers the body however the socket cuts the wire. */
module Chunked {
  import opened Bytes
  import opened HexText

  const CR: byte := 13
  const LF: byte := 10
  const CRLF: bytes := [CR, LF]

  datatype Err = OK | MoreDataNeeded | DataProcessing | WorkBufSmall | WriteTimeout | Refused

  // ---------------------------------------------------------------- the wire

  function Chunk(c: bytes): bytes {
    Hex(|c|) + CRLF + c + CRLF
  }

  predicate ValidChunks(cs: seq<bytes>) {
    forall i :: 0 <= i < |cs| ==> 1 <= |cs[i]| < TWO32
  }

  function Chunks(cs: seq<bytes>): bytes {
    if cs == [] then [] else Chunk(cs[0]) + Chunks(cs[1..])
  }

  // "0\r\n\r\n"
  const LAST_CHUNK: bytes := [48, CR, LF, CR, LF]

  function Wire(cs: seq<bytes>): bytes {
    if cs == [] then LAST_CHUNK else Chunk(cs[0]) + Wire(cs[1..])
  }

  function Flat(cs: seq<bytes>): bytes {
    if cs == [] then [] else cs[0] + Flat(cs[1..])
  }

  // ---------------------------------------------------------------- the receiver

  /** mangoIDPArgsChunked_t */
  datatype Args = Args(state: nat, chunkSz: nat, chunkSzProcessed: nat)

  /** What one call of mangoIDP_chunked does: its result, its arguments afterwards, how many
      bytes it took, whether the body is complete, and the bytes handed to the application. */
  datatype IdpResult = IdpResult(err: Err, args: Args, processed: nat, completed: bool, data: bytes)

  predicate ValidArgs(a: Args) {
    1 <= a.state <= 4 && (a.state == 2 ==> a.chunkSzProcessed < a.chunkSz)
  }

  /** Index of the first LF or NUL, the terminator past the end included. */
  function LineEnd(s: bytes, i: nat): (r: nat)
    requires i <= |s|
    ensures i <= r <= |s| && (r < |s| ==> s[r] == LF || s[r] == 0)
    decreases |s| - i
  {
    if At(s, i) == LF || At(s, i) == 0 then i else LineEnd(s, i + 1)
  }

  function Stop(a: Args, processed: nat, data: bytes): IdpResult {
    IdpResult(if processed > 0 then OK else MoreDataNeeded, a, processed, false, data)
  }

  /** The loop of mangoIDP_chunked over the unread buffer. The application accepts all data. */
  function Idp(a: Args, buf: bytes, processed: nat, data: bytes): (r: IdpResult)
    requires ValidArgs(a)
    ensures ValidArgs(r.args) && (r.err == OK && !r.completed ==> r.processed > 0)
    decreases |buf|, if a.state == 1 then 1 else 0
  {
    if buf == [] then Stop(a, processed, data)
    else if a.state == 1 then
      var e := LineEnd(buf, 0);
      if At(buf, e) == 0 then Stop(a, processed, data)
      else
        match ReadHex(buf)
        case Bad => IdpResult(DataProcessing, a.(chunkSz := 0), processed, false, data)
        case Number(n) =>
          var sz := (e + 1) % 256;
          Idp(Args(if n != 0 then 2 else 4, n, 0), buf[sz..], processed + sz, data)
    else if a.state == 2 then
      var left := a.chunkSz - a.chunkSzProcessed;
      var m := if |buf| > left then left else |buf|;
      Idp(Args(if m == left then 3 else 2, a.chunkSz, a.chunkSzProcessed + m), buf[m..], processed + m, data + buf[..m])
    else if a.state == 3 then
      if |buf| < 2 then Stop(a, processed, data)
      else if buf[0] == CR && buf[1] == LF then Idp(a.(state := 1), buf[2..], processed + 2, data)
      else IdpResult(DataProcessing, a, processed, false, data)
    else
      if |buf| < 2 then Stop(a, processed, data)
      else if buf == CRLF || (|buf| > 3 && buf[|buf| - 4..] == CRLF + CRLF) then
        IdpResult(OK, a, processed, true, data)
      else Stop(a, processed, data)
  }

  // ---------------------------------------------------------------- what is still to come

  /** From here the stream `s` finishes the body with `body`: in state 2 the rest of a chunk comes
      first, in state 3 its CRLF, in state 4 the last CRLF. */
  ghost predicate Remaining(a: Args, s: bytes, body: bytes, cs: seq<bytes>) {
    ValidArgs(a) && ValidChunks(cs) &&
    match a.state
    case 1 => s == Wire(cs) && body == Flat(cs)
    case 2 =>
      var left := a.chunkSz - a.chunkSzProcessed;
      && |s| >= left && |body| >= left && a.chunkSz < TWO32
      && s == body[..left] + (CRLF + Wire(cs)) && body[left..] == Flat(cs)
    case 3 => s == CRLF + Wire(cs) && body == Flat(cs)
    case _ => s == CRLF && body == [] && cs == []
  }

  /** The receiver cannot go on with what it has: less than a header, or less than a CRLF. */
  predicate Starved(a: Args, rest: bytes) {
    match a.state
    case 1 => |rest| <= 9
    case 2 => rest == []
    case _ => |rest| <= 1
  }

  /** What a call promises when `net` is still on its way behind `buf`. */
  ghost predicate Delivers(r: IdpResult, a: Args, buf: bytes, net: bytes, body: bytes, processed: nat, data: bytes) {
    && processed <= r.processed <= processed + |buf|
    && data <= r.data && |r.data| - |data| <= |body|
    && r.data[|data|..] == body[..|r.data| - |data|]
    && r.err == (if r.completed || r.processed > 0 then OK else MoreDataNeeded)
    && if r.completed then net == [] && |r.data| - |data| == |body|
       else Continues(r.args, buf[r.processed - processed..], net, body[|r.data| - |data|..])
  }

  ghost predicate Continues(a: Args, rest: bytes, net: bytes, body: bytes) {
    net != [] && Starved(a, rest) && exists cs :: Remaining(a, rest + net, body, cs)
  }

  lemma StopDelivers(a: Args, buf: bytes, net: bytes, body: bytes, cs: seq<bytes>, processed: nat, data: bytes)
    requires Remaining(a, buf + net, body, cs) && Starved(a, buf) && net != []
    ensures Delivers(Stop(a, processed, data), a, buf, net, body, processed, data)
  {
    assert data[|data|..] == [] == body[..0] && body[0..] == body && buf[0..] == buf;
  }

  /** Taking k bytes and delivering some, then going on. */
  lemma StepDelivers(r: IdpResult, a: Args, a': Args, buf: bytes, k: nat, d: bytes, net: bytes, body: bytes,
                     processed: nat, data: bytes)
    requires k <= |buf| && |d| <= |body| && d == body[..|d|]
    requires Delivers(r, a', buf[k..], net, body[|d|..], processed + k, data + d)
    ensures Delivers(r, a, buf, net, body, processed, data)
  {
    hide Continues;
    var got := |r.data| - |data| - |d|;
    assert data + d <= r.data && r.data[|data + d|..] == body[|d|..][..got];
    DataTaken(r.data, data, d, body, got);
    if !r.completed {
      CutTwice(buf, k, r.processed - (processed + k));
      CutTwice(body, |d|, got);
    }
  }

  lemma CutTwice(s: bytes, a: nat, b: nat)
    requires a + b <= |s|
    ensures s[a..][b..] == s[a + b..]
  {
  }

  lemma DataTaken(all: bytes, data: bytes, d: bytes, body: bytes, got: nat)
    requires data + d <= all && |d| + got <= |body| && d == body[..|d|]
    requires all[|data + d|..] == body[|d|..][..got]
    ensures data <= all && all[|data|..] == body[..|d| + got]
  {
    assert all[..|data| + |d|] == data + d;
    assert all == data + d + body[|d|..][..got];
    assert body[..|d| + got] == d + body[|d|..][..got];
  }

  // ---------------------------------------------------------------- one call, state by state

  /** The size line in front of a chunk or of the end. */
  function SizeLine(cs: seq<bytes>): bytes {
    if cs == [] then [48] else Hex(|cs[0]|)
  }

  /** What is left of the stream behind the size line. */
  function AfterLine(cs: seq<bytes>): bytes {
    if cs == [] then CRLF else cs[0] + (CRLF + Wire(cs[1..]))
  }

  lemma WireSplit(cs: seq<bytes>)
    requires ValidChunks(cs)
    ensures Wire(cs) == SizeLine(cs) + (CRLF + AfterLine(cs))
    ensures 1 <= |SizeLine(cs)| <= 8
    ensures forall i :: 0 <= i < |SizeLine(cs)| ==> IsHex(SizeLine(cs)[i])
  {
    if cs != [] {
      HexInverse(|cs[0]|, CRLF);
      hide Hex;
      Regroup(Hex(|cs[0]|), CRLF, cs[0], CRLF, Wire(cs[1..]));
    } else {
      assert LAST_CHUNK == [48] + (CRLF + CRLF);
    }
  }

  lemma Regroup(a: bytes, b: bytes, c: bytes, d: bytes, e: bytes)
    ensures a + b + c + d + e == a + (b + (c + (d + e)))
  {
  }

  lemma {:induction false} LineEndAt(s: bytes, i: nat, e: nat)
    requires i <= e <= |s| && (At(s, e) == LF || At(s, e) == 0)
    requires forall j :: i <= j < e ==> s[j] != LF && s[j] != 0
    ensures LineEnd(s, i) == e
    decreases e - i
  {
    if i < e {
      LineEndAt(s, i + 1, e);
    }
  }

  /** Before the LF has come, the scan runs to the terminator. */
  lemma LineIncomplete(line: bytes, buf: bytes, net: bytes, rest: bytes)
    requires forall i :: 0 <= i < |line| ==> IsHex(line[i])
    requires buf + net == line + (CRLF + rest) && |buf| <= |line| + 1
    ensures LineEnd(buf, 0) == |buf| && net != []
  {
    forall j | 0 <= j < |buf|
      ensures buf[j] != LF && buf[j] != 0
    {
      assert buf[j] == (buf + net)[j] == (line + (CRLF + rest))[j];
    }
    LineEndAt(buf, 0, |buf|);
    assert |buf + net| == |line| + 2 + |rest|;
  }

  lemma LineComplete(line: bytes, buf: bytes, net: bytes, rest: bytes)
    requires forall i :: 0 <= i < |line| ==> IsHex(line[i])
    requires buf + net == line + (CRLF + rest) && |buf| >= |line| + 2
    ensures LineEnd(buf, 0) == |line| + 1 && At(buf, |line| + 1) == LF
    ensures buf == line + buf[|line|..] && At(buf[|line|..], 0) == CR
    ensures buf[|line| + 2..] + net == rest
  {
    var k := |line|;
    TwoCuts(line, buf, net, rest);
    forall j | 0 <= j < k + 1
      ensures buf[j] != LF && buf[j] != 0
    {
      if j < k {
        assert buf[j] == line[j];
      }
    }
    LineEndAt(buf, 0, k + 1);
  }

  lemma TwoCuts(line: bytes, buf: bytes, net: bytes, rest: bytes)
    requires buf + net == line + (CRLF + rest) && |buf| >= |line| + 2
    ensures buf == line + buf[|line|..] && buf[|line|] == CR && buf[|line| + 1] == LF
    ensures buf[|line| + 2..] + net == rest
  {
    var k, s := |line|, buf + net;
    CutLeft(buf, net, k);
    CutLeft(buf, net, k + 2);
    CutAtEnd(line, CRLF + rest);
    Split(buf, k);
    assert s[k] == CR && s[k + 1] == LF;
    Assoc(line, CRLF, rest);
    CutAtEnd(line + CRLF, rest);
  }

  lemma ReadSizeLine(cs: seq<bytes>, tail: bytes)
    requires ValidChunks(cs) && At(tail, 0) == CR
    ensures ReadHex(SizeLine(cs) + tail) == Number(if cs == [] then 0 else |cs[0]|)
  {
    if cs == [] {
      var s := SizeLine(cs) + tail;
      assert s[0] == 48 && At(s, 1) == CR;
      assert ReadDigits(s, 1, 1, 0) == Number(0);
    } else {
      HexInverse(|cs[0]|, tail);
    }
  }

  /** The arguments and the stream after a whole size line. */
  lemma AfterSizeLine(s: bytes, cs: seq<bytes>)
    requires ValidChunks(cs) && s == AfterLine(cs)
    ensures var n := if cs == [] then 0 else |cs[0]|;
            Remaining(Args(if n != 0 then 2 else 4, n, 0), s, Flat(cs), if cs == [] then [] else cs[1..])
  {
    if cs != [] {
      assert Flat(cs)[..|cs[0]|] == cs[0] && Flat(cs)[|cs[0]|..] == Flat(cs[1..]);
    }
  }

  /** What one call of the processor does to any prefix of a good stream. */
  lemma {:induction false} IdpDelivers(a: Args, buf: bytes, net: bytes, body: bytes, cs: seq<bytes>,
                                       processed: nat, data: bytes)
    requires Remaining(a, buf + net, body, cs)
    ensures Delivers(Idp(a, buf, processed, data), a, buf, net, body, processed, data)
    decreases |buf|, 1
  {
    if buf == [] {
      NotEmpty(a, buf + net, body, cs);
      StopDelivers(a, buf, net, body, cs, processed, data);
    } else {
      match a.state
      case 1 => Idp1(a, buf, net, body, cs, processed, data);
      case 2 => Idp2(a, buf, net, body, cs, processed, data);
      case 3 => Idp3(a, buf, net, body, cs, processed, data);
      case _ => Idp4(a, buf, net, body, cs, processed, data);
    }
  }

  lemma NotEmpty(a: Args, s: bytes, body: bytes, cs: seq<bytes>)
    requires Remaining(a, s, body, cs)
    ensures s != []
  {
    WireSplit(cs);
  }

  /** A step that takes k bytes, delivers d, and leaves the stream good. */
  lemma GoOn(a: Args, a': Args, buf: bytes, k: nat, d: bytes, net: bytes, body: bytes, cs: seq<bytes>,
             processed: nat, data: bytes)
    requires 1 <= k <= |buf| && |d| <= |body| && d == body[..|d|]
    requires Remaining(a', buf[k..] + net, body[|d|..], cs)
    ensures Delivers(Idp(a', buf[k..], processed + k, data + d), a, buf, net, body, processed, data)
    decreases |buf|, 0, 0
  {
    IdpDelivers(a', buf[k..], net, body[|d|..], cs, processed + k, data + d);
    hide Idp;
    StepDelivers(Idp(a', buf[k..], processed + k, data + d), a, a', buf, k, d, net, body, processed, data);
  }

  lemma Idp1(a: Args, buf: bytes, net: bytes, body: bytes, cs: seq<bytes>, processed: nat, data: bytes)
    requires a.state == 1 && buf != [] && Remaining(a, buf + net, body, cs)
    ensures Delivers(Idp(a, buf, processed, data), a, buf, net, body, processed, data)
    decreases |buf|, 0
  {
    WireSplit(cs);
    var line, rest := SizeLine(cs), AfterLine(cs);
    if |buf| <= |line| + 1 {
      LineIncomplete(line, buf, net, rest);
      StopDelivers(a, buf, net, body, cs, processed, data);
    } else {
      Idp1Line(a, buf, net, body, cs, processed, data);
    }
  }

  /** The whole size line is there. */
  lemma Idp1Line(a: Args, buf: bytes, net: bytes, body: bytes, cs: seq<bytes>, processed: nat, data: bytes)
    requires a.state == 1 && ValidChunks(cs) && body == Flat(cs) && 1 <= |SizeLine(cs)| <= 8
    requires forall i :: 0 <= i < |SizeLine(cs)| ==> IsHex(SizeLine(cs)[i])
    requires buf + net == SizeLine(cs) + (CRLF + AfterLine(cs)) && |buf| >= |SizeLine(cs)| + 2
    ensures Delivers(Idp(a, buf, processed, data), a, buf, net, body, processed, data)
    decreases |buf|, 0, 1
  {
    hide *;
    var line, sz, n := SizeLine(cs), |SizeLine(cs)| + 2, if cs == [] then 0 else |cs[0]|;
    LineComplete(line, buf, net, AfterLine(cs));
    ReadSizeLine(cs, buf[|line|..]);
    AfterSizeLine(AfterLine(cs), cs);
    AppendEmpty(data);
    assert body[0..] == body && body[..0] == [];
    GoOn(a, Args(if n != 0 then 2 else 4, n, 0), buf, sz, [], net, body, if cs == [] then [] else cs[1..], processed, data);
    Idp1Unfold(a, buf, |line|, n, processed, data);
  }

  lemma Idp1Unfold(a: Args, buf: bytes, k: nat, n: nat, processed: nat, data: bytes)
    requires a.state == 1 && k + 2 <= |buf| && k <= 8
    requires LineEnd(buf, 0) == k + 1 && At(buf, k + 1) == LF && ReadHex(buf) == Number(n)
    ensures Idp(a, buf, processed, data)
         == Idp(Args(if n != 0 then 2 else 4, n, 0), buf[k + 2..], processed + (k + 2), data)
  {
    hide ReadHex, LineEnd;
  }

  lemma Idp2(a: Args, buf: bytes, net: bytes, body: bytes, cs: seq<bytes>, processed: nat, data: bytes)
    requires a.state == 2 && buf != [] && Remaining(a, buf + net, body, cs)
    ensures Delivers(Idp(a, buf, processed, data), a, buf, net, body, processed, data)
    decreases |buf|, 0
  {
    var m := Share(a, buf);
    RemainingData(a, buf, net, body, cs);
    Idp2Unfold(a, buf, processed, data);
    hide Remaining, Delivers, Idp, Share;
    GoOn(a, BehindData(a, m), buf, m, buf[..m], net, body, cs, processed, data);
  }

  /** What of the buffer belongs to the chunk. */
  function Share(a: Args, buf: bytes): (m: nat)
    requires a.state == 2 && ValidArgs(a)
    ensures m <= |buf| && (buf != [] ==> m > 0)
  {
    var left := a.chunkSz - a.chunkSzProcessed;
    if |buf| > left then left else |buf|
  }

  function BehindData(a: Args, m: nat): Args {
    Args(if m == a.chunkSz - a.chunkSzProcessed then 3 else 2, a.chunkSz, a.chunkSzProcessed + m)
  }

  lemma Idp2Unfold(a: Args, buf: bytes, processed: nat, data: bytes)
    requires a.state == 2 && buf != [] && ValidArgs(a)
    ensures var m := Share(a, buf);
            Idp(a, buf, processed, data) == Idp(BehindData(a, m), buf[m..], processed + m, data + buf[..m])
  {
  }

  lemma RemainingData(a: Args, buf: bytes, net: bytes, body: bytes, cs: seq<bytes>)
    requires a.state == 2 && Remaining(a, buf + net, body, cs)
    ensures var m := Share(a, buf);
            && m <= |body| && buf[..m] == body[..m]
            && Remaining(BehindData(a, m), buf[m..] + net, body[m..], cs)
  {
    var left, m := a.chunkSz - a.chunkSzProcessed, Share(a, buf);
    InChunk(buf, net, body, left, m, CRLF + Wire(cs));
    if m == left {
      AppendEmpty(CRLF + Wire(cs));
    }
    hide Wire;
  }

  lemma InChunk(buf: bytes, net: bytes, body: bytes, left: nat, m: nat, tail: bytes)
    requires m <= left <= |body| && m <= |buf| && buf + net == body[..left] + tail
    ensures buf[..m] == body[..m]
    ensures buf[m..] + net == body[m..][..left - m] + tail && body[m..][left - m..] == body[left..]
  {
    CutLeft(buf, net, m);
    CutLeft(body[..left], tail, m);
    assert body[..left][..m] == body[..m] && body[..left][m..] == body[m..][..left - m];
  }

  lemma Idp3(a: Args, buf: bytes, net: bytes, body: bytes, cs: seq<bytes>, processed: nat, data: bytes)
    requires a.state == 3 && buf != [] && Remaining(a, buf + net, body, cs)
    ensures Delivers(Idp(a, buf, processed, data), a, buf, net, body, processed, data)
    decreases |buf|, 0
  {
    CutAtEnd(CRLF, Wire(cs));
    var s, a' := buf + net, a.(state := 1);
    hide Wire, Delivers;
    if |buf| < 2 {
      NotEmpty(a', Wire(cs), body, cs);
      StopDelivers(a, buf, net, body, cs, processed, data);
    } else {
      assert buf[0] == s[0] == CR && buf[1] == s[1] == LF;
      CutLeft(buf, net, 2);
      AppendEmpty(data);
      assert body[0..] == body;
      GoOn(a, a', buf, 2, [], net, body, cs, processed, data);
    }
  }

  lemma Idp4(a: Args, buf: bytes, net: bytes, body: bytes, cs: seq<bytes>, processed: nat, data: bytes)
    requires a.state == 4 && buf != [] && Remaining(a, buf + net, body, cs)
    ensures Delivers(Idp(a, buf, processed, data), a, buf, net, body, processed, data)
  {
    assert |buf| + |net| == 2;
    if |buf| < 2 {
      StopDelivers(a, buf, net, body, cs, processed, data);
    } else {
      assert net == [] && buf + net == buf;
      assert data[|data|..] == [] == body[..0];
    }
  }

  // ---------------------------------------------------------------- the receiving state

  /** Where the state that receives a body stands: about to read, about to process, or done. */
  datatype Phase = Reading | Processing | Complete | Failed(err: Err)

  datatype Rx = Rx(phase: Phase, args: Args, wb: bytes, got: bytes)

  /** EVENT_PROCESS, with `tot` bytes of working buffer: one call of the processor and a shrink. */
  function OnProcess(rx: Rx, tot: nat): (next: Rx)
    requires rx.phase == Processing && ValidArgs(rx.args)
    ensures ValidArgs(next.args) && (next.phase == Processing ==> |next.wb| < |rx.wb|)
  {
    var r := Idp(rx.args, rx.wb, 0, []);
    var rx' := rx.(args := r.args, got := rx.got + r.data);
    if r.err == MoreDataNeeded then
      rx'.(phase := if |rx.wb| >= tot then Failed(WorkBufSmall) else Reading)
    else if r.err != OK then rx'.(phase := Failed(r.err))
    else if r.completed then rx'.(phase := Complete, wb := [])
    else if r.processed >= |rx.wb| then rx'.(phase := Reading, wb := [])
    else rx'.(wb := rx.wb[r.processed..])
  }

  /** EVENT_READ with the bytes d. */
  function OnRead(rx: Rx, d: bytes): Rx {
    rx.(phase := Processing, wb := rx.wb + d)
  }

  /** Processing until it wants to read, or is done. */
  function Settle(rx: Rx, tot: nat): (settled: Rx)
    requires ValidArgs(rx.args)
    ensures ValidArgs(settled.args) && settled.phase != Processing
    decreases |rx.wb|
  {
    if rx.phase != Processing then rx
    else
      var rx1 := OnProcess(rx, tot);
      if rx1.phase == Processing then Settle(rx1, tot) else rx1
  }

  /** The socket returns at most what was asked for, what is free, and what has arrived. */
  function ReadSize(rx: Rx, tot: nat, net: bytes, asked: nat): nat {
    var free := if |rx.wb| <= tot then tot - |rx.wb| else 0;
    var n := if asked < free then asked else free;
    if n < |net| then n else |net|
  }

  /** The receiving state over a schedule of socket reads; what is left on the network comes second. */
  function Receive(rx: Rx, tot: nat, net: bytes, sizes: seq<nat>): (Rx, bytes)
    requires ValidArgs(rx.args)
    decreases |sizes|
  {
    var rx1 := Settle(rx, tot);
    if rx1.phase != Reading || sizes == [] then (rx1, net)
    else
      var n := ReadSize(rx1, tot, net, sizes[0]);
      if n == 0 then Receive(rx1, tot, net, sizes[1..])
      else Receive(OnRead(rx1, net[..n]), tot, net[n..], sizes[1..])
  }

  /** The stream in the buffer and on the network still completes the body. */
  ghost predicate Good(rx: Rx, net: bytes, body: bytes) {
    && rx.got <= body
    && exists cs :: Remaining(rx.args, rx.wb + net, body[|rx.got|..], cs)
  }

  /** Room for a size line: eight digits and CRLF. */
  const MIN_WB := 10

  ghost predicate Settled(rx: Rx, net: bytes, body: bytes) {
    if rx.phase == Complete then rx.got == body && net == []
    else rx.phase == Reading && Good(rx, net, body) && net != [] && |rx.wb| < MIN_WB
  }

  /** One EVENT_PROCESS on a good stream. */
  lemma ProcessGood(rx: Rx, tot: nat, net: bytes, body: bytes)
    requires rx.phase == Processing && Good(rx, net, body) && tot >= MIN_WB
    ensures ValidArgs(rx.args)
    ensures var rx1 := OnProcess(rx, tot);
            if rx1.phase == Complete then rx1.got == body && net == []
            else rx1.phase in {Reading, Processing} && Good(rx1, net, body) && net != [] && |rx1.wb| < MIN_WB
  {
    var left := body[|rx.got|..];
    var cs :| Remaining(rx.args, rx.wb + net, left, cs);
    IdpDelivers(rx.args, rx.wb, net, left, cs, 0, []);
    hide Idp, Remaining;
    ProcessOutcome(rx, tot, net, body, Idp(rx.args, rx.wb, 0, []));
  }

  lemma ProcessOutcome(rx: Rx, tot: nat, net: bytes, body: bytes, r: IdpResult)
    requires rx.phase == Processing && rx.got <= body && tot >= MIN_WB && ValidArgs(rx.args)
    requires r == Idp(rx.args, rx.wb, 0, [])
    requires Delivers(r, rx.args, rx.wb, net, body[|rx.got|..], 0, [])
    ensures var rx1 := OnProcess(rx, tot);
            if rx1.phase == Complete then rx1.got == body && net == []
            else rx1.phase in {Reading, Processing} && Good(rx1, net, body) && net != [] && |rx1.wb| < MIN_WB
  {
    hide Idp;
    var left, k := body[|rx.got|..], |r.data|;
    assert r.data[0..] == r.data;
    Split(body, |rx.got|);
    if r.completed {
      assert left[..k] == left;
    } else {
      Prefixes(body, rx.got, k);
      var rest := rx.wb[r.processed - 0..];
      var cs' :| Remaining(r.args, rest + net, left[k..], cs');
      hide Remaining;
      var rx1 := OnProcess(rx, tot);
      if r.processed == 0 {
        assert rest == rx.wb;
      }
      assert rx1.wb == rest && rx1.got == rx.got + r.data && rx1.args == r.args;
      assert Remaining(rx1.args, rx1.wb + net, body[|rx1.got|..], cs');
    }
  }

  lemma {:induction false} SettleGood(rx: Rx, tot: nat, net: bytes, body: bytes)
    requires rx.phase == Processing && Good(rx, net, body) && tot >= MIN_WB
    ensures ValidArgs(rx.args) && Settled(Settle(rx, tot), net, body)
    decreases |rx.wb|
  {
    hide OnProcess, Good;
    ProcessGood(rx, tot, net, body);
    var rx1 := OnProcess(rx, tot);
    if rx1.phase == Processing {
      SettleGood(rx1, tot, net, body);
    }
  }

  lemma Prefixes(body: bytes, got: bytes, k: nat)
    requires got <= body && k <= |body| - |got|
    ensures got + body[|got|..][..k] <= body
    ensures body[|got + body[|got|..][..k]|..] == body[|got|..][k..]
  {
  }

  /** However the socket cuts the stream: no format error, nothing but the body delivered, complete
      exactly when the last byte has been read. */
  lemma {:induction false} ReceiveGood(rx: Rx, tot: nat, net: bytes, sizes: seq<nat>, body: bytes)
    requires tot >= MIN_WB
    requires (rx.phase == Processing && Good(rx, net, body)) || Settled(rx, net, body)
    requires ValidArgs(rx.args) && forall i :: 0 <= i < |sizes| ==> sizes[i] > 0
    ensures var (rx', net') := Receive(rx, tot, net, sizes);
            Settled(rx', net', body) && (|sizes| >= |net| ==> rx'.phase == Complete)
    decreases |sizes|
  {
    if rx.phase == Processing {
      SettleGood(rx, tot, net, body);
    }
    var rx1 := Settle(rx, tot);
    if rx1.phase == Reading && sizes != [] {
      var n := ReadSize(rx1, tot, net, sizes[0]);
      assert n > 0 && rx1.wb + net[..n] + net[n..] == rx1.wb + net;
      assert Good(OnRead(rx1, net[..n]), net[n..], body);
      ReceiveGood(OnRead(rx1, net[..n]), tot, net[n..], sizes[1..], body);
    }
  }

  /** The receiver from the entry of its state, `first` of the stream already in the buffer behind the
      response headers. */
  lemma FragmentationIndependence(cs: seq<bytes>, first: bytes, net: bytes, tot: nat, sizes: seq<nat>)
    requires ValidChunks(cs) && first + net == Wire(cs) && tot >= MIN_WB
    requires forall i :: 0 <= i < |sizes| ==> sizes[i] > 0
    ensures var (rx, rest) := Receive(Rx(Processing, Args(1, 0, 0), first, []), tot, net, sizes);
            && rx.phase in {Reading, Complete}
            && rx.got <= Flat(cs)
            && (rx.phase == Complete <==> rest == [])
            && (rx.phase == Complete ==> rx.got == Flat(cs))
            && (|sizes| >= |net| ==> rx.phase == Complete)
  {
    var rx := Rx(Processing, Args(1, 0, 0), first, []);
    assert Flat(cs)[|rx.got|..] == Flat(cs);
    assert Remaining(rx.args, rx.wb + net, Flat(cs)[|rx.got|..], cs);
    ReceiveGood(rx, tot, net, sizes, Flat(cs));
  }
}
