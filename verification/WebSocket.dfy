/** The receiving half of the mango client's websockets (section 5.2 of RFC 6455): frames, the incremental
    parser over the working buffer, and the proof that what it hands to the application does not depend on
    how the stream is cut. */
module WebSocket {
  import opened Bytes

  // ---------------------------------------------------------------- frames

  datatype Encoding = Short | Medium | Long

  /** A frame as a server sends it: its first byte, how its length is written, and its payload. */
  datatype Frame = Frame(first: byte, enc: Encoding, payload: bytes) {
    /** Data, or a ping, with a length its encoding can hold. */
    predicate Valid() {
      && (IsData(first) || Opcode(first) == PING)
      && |payload| < match enc case Short => 126 case Medium => 0x1_0000 case Long => 0x1_0000_0000
    }
  }

  const CLOSE := 8
  const PING := 9

  function Opcode(first: byte): nat {
    first % 16
  }

  /** The opcode's high bit is clear. */
  predicate IsData(first: byte) {
    Opcode(first) < 8
  }

  predicate Fin(first: byte) {
    first >= 128
  }

  /** A number in four bytes */
  function Big4(n: nat): (r: bytes)
    requires n < 0x1_0000_0000
    ensures |r| == 4
  {
    [n / 256 / 256 / 256, n / 256 / 256 % 256, n / 256 % 256, n % 256]
  }

  function Header(f: Frame): (h: bytes)
    requires f.Valid()
    ensures 2 <= |h| <= 10 && h[0] == f.first && h[1] < 128
  {
    var n := |f.payload|;
    match f.enc
    case Short => [f.first, n]
    case Medium => [f.first, 126, n / 256, n % 256]
    case Long => [f.first, 127, 0, 0, 0, 0] + Big4(n)
  }

  predicate ValidFrames(fs: seq<Frame>) {
    forall i :: 0 <= i < |fs| ==> fs[i].Valid()
  }

  function Wire(fs: seq<Frame>): bytes
    requires ValidFrames(fs)
  {
    if fs == [] then [] else Header(fs[0]) + (fs[0].payload + Wire(fs[1..]))
  }

  /** A byte of a message, with the number the application gets for it. */
  datatype Tag = Tag(id: nat, b: byte)

  function Tagged(id: nat, data: bytes): (t: seq<Tag>)
    ensures |t| == |data|
  {
    if data == [] then [] else [Tag(id, data[0])] + Tagged(id, data[1..])
  }

  /** The number of the next message, behind a frame. */
  function NextId(first: byte, id: nat): nat {
    if Fin(first) && IsData(first) then (id + 1) % 256 else id
  }

  /** What a frame means for the application. */
  function Meaning(first: byte, id: nat, data: bytes): seq<Tag> {
    if IsData(first) then Tagged(id, data) else []
  }

  /** What the application is to get: the bytes of the data frames in order, all those of a message with one
      number, which advances behind the final frame of a message. */
  function Expected(fs: seq<Frame>, id: nat): seq<Tag> {
    if fs == [] then []
    else Meaning(fs[0].first, id, fs[0].payload) + Expected(fs[1..], NextId(fs[0].first, id))
  }

  // ---------------------------------------------------------------- the parser

  datatype Err = OK | MoreDataNeeded | DataProcessing | WebSocketClosed | WorkBufSmall

  /** mangoIDPArgsWebsocket_t, of the header the byte that is used later. */
  datatype Args = Args(state: nat, first: byte, frameSz: nat, frameSzProcessed: nat, frameID: nat)

  datatype IdpResult = IdpResult(err: Err, args: Args, processed: nat, log: seq<Tag>)

  predicate ValidArgs(a: Args) {
    1 <= a.state <= 2 && (a.state == 2 ==> a.frameSzProcessed <= a.frameSz)
  }

  function Stop(a: Args, processed: nat, log: seq<Tag>): IdpResult {
    IdpResult(if processed > 0 then OK else MoreDataNeeded, a, processed, log)
  }

  /** The header at the head of the buffer: how long it is, and the length it gives; None if it is not all
      there. */
  datatype Head = Partial | Masked | Huge | Head(len: nat, frameSz: nat)

  function ReadHead(buf: bytes): (h: Head)
    ensures h.Head? ==> 2 <= h.len <= |buf|
  {
    if |buf| < 2 then Partial
    else if buf[1] >= 128 then Masked
    else if buf[1] < 126 then Head(2, buf[1])
    else if buf[1] == 126 then
      if |buf| < 4 then Partial else Head(4, buf[2] as int * 256 + buf[3])
    else if |buf| < 10 then Partial
    else if buf[2] != 0 || buf[3] != 0 || buf[4] != 0 || buf[5] != 0 then Huge
    else
      Head(10, buf[6] as int * 0x100_0000 + buf[7] as int * 0x1_0000 + buf[8] as int * 256 + buf[9])
  }

  /** How much of the payload a round takes, with `tot` bytes of working buffer; None while a payload that
      fits the buffer has not all arrived. */
  datatype Part = NotYet | Part(sz: nat)

  function PartSize(a: Args, buf: bytes, tot: nat): (p: Part)
    requires ValidArgs(a) && a.state == 2
    ensures p.Part? ==> p.sz <= |buf| && (a.frameSz > tot ==> a.frameSzProcessed + p.sz <= a.frameSz)
  {
    if a.frameSz <= tot then if a.frameSz > |buf| then NotYet else Part(a.frameSz)
    else
      var left := a.frameSz - a.frameSzProcessed;
      Part(if |buf| >= left then left else |buf|)
  }

  /** The loop of mangoIDP_websocket over the unread buffer. */
  function Idp(a: Args, buf: bytes, tot: nat, processed: nat, log: seq<Tag>): (r: IdpResult)
    requires ValidArgs(a) && (a.state == 2 && a.frameSz <= tot ==> a.frameSzProcessed == 0)
    decreases |buf|, a.state
  {
    if buf == [] then Stop(a, processed, log)
    else if a.state == 1 then
      match ReadHead(buf)
      case Partial => Stop(a, processed, log)
      case Masked => IdpResult(DataProcessing, a, processed, log)
      case Huge => IdpResult(DataProcessing, a, processed, log)
      case Head(len, sz) => Idp(Args(2, buf[0], sz, 0, a.frameID), buf[len..], tot, processed + len, log)
    else
      match PartSize(a, buf, tot)
      case NotYet => Stop(a, processed, log)
      case Part(sz) =>
        if Opcode(a.first) == CLOSE then IdpResult(WebSocketClosed, a, processed, log)
        else if !IsData(a.first) && Opcode(a.first) != PING then IdpResult(DataProcessing, a, processed, log)
        else Idp(After(a, sz), buf[sz..], tot, processed + sz, log + Meaning(a.first, a.frameID, buf[..sz]))
  }

  /** The arguments behind a part of the payload. */
  function After(a: Args, sz: nat): Args {
    var done := a.frameSzProcessed + sz;
    if done == a.frameSz then Args(1, a.first, a.frameSz, done, NextId(a.first, a.frameID)) else a.(frameSzProcessed := done)
  }

  // ---------------------------------------------------------------- what is still to come

  /** From here the stream `s` means `log`: in state 2 the rest of a payload comes first. */
  ghost predicate Remaining(a: Args, tot: nat, s: bytes, log: seq<Tag>, fs: seq<Frame>) {
    ValidArgs(a) && ValidFrames(fs) &&
    if a.state == 1 then s == Wire(fs) && log == Expected(fs, a.frameID)
    else
      var left := a.frameSz - a.frameSzProcessed;
      && (IsData(a.first) || Opcode(a.first) == PING) && left <= |s| && s[left..] == Wire(fs)
      && log == Meaning(a.first, a.frameID, s[..left]) + Expected(fs, NextId(a.first, a.frameID))
      && (a.frameSz <= tot ==> a.frameSzProcessed == 0)
  }

  /** The parser cannot go on with what it has. */
  predicate Starved(a: Args, tot: nat, rest: bytes) {
    if a.state == 1 then ReadHead(rest) == Partial else |rest| < a.frameSz <= tot || rest == []
  }

  /** What a call promises when `net` is still on its way behind `buf`. */
  ghost predicate Delivers(r: IdpResult, buf: bytes, tot: nat, net: bytes, log: seq<Tag>, processed: nat, done: seq<Tag>) {
    && processed <= r.processed <= processed + |buf|
    && r.err == (if r.processed > 0 then OK else MoreDataNeeded)
    && GoesOn(r, tot, buf[r.processed - processed..], net, done + log)
  }

  /** What the call has logged, and what is still to come, are the whole. */
  ghost predicate GoesOn(r: IdpResult, tot: nat, rest: bytes, net: bytes, whole: seq<Tag>) {
    exists more, fs :: Continues(r.args, tot, rest, net, more, fs) && r.log + more == whole
  }

  ghost predicate Continues(a: Args, tot: nat, rest: bytes, net: bytes, log: seq<Tag>, fs: seq<Frame>) {
    Starved(a, tot, rest) && Remaining(a, tot, rest + net, log, fs)
  }

  lemma StopDelivers(a: Args, buf: bytes, tot: nat, net: bytes, log: seq<Tag>, fs: seq<Frame>, processed: nat, done: seq<Tag>)
    requires Remaining(a, tot, buf + net, log, fs) && Starved(a, tot, buf)
    ensures Delivers(Stop(a, processed, done), buf, tot, net, log, processed, done)
  {
    assert buf[0..] == buf;
    assert Continues(a, tot, buf[processed - processed..], net, log, fs);
  }

  /** Taking k bytes that mean `d`, then going on. */
  lemma StepDelivers(r: IdpResult, buf: bytes, k: nat, tot: nat, net: bytes, d: seq<Tag>, log: seq<Tag>,
                     processed: nat, done: seq<Tag>)
    requires k <= |buf| && Delivers(r, buf[k..], tot, net, log, processed + k, done + d)
    ensures Delivers(r, buf, tot, net, d + log, processed, done)
  {
    hide GoesOn;
    Assoc(done, d, log);
    assert buf[k..][r.processed - (processed + k)..] == buf[r.processed - processed..];
  }

  // ---------------------------------------------------------------- the header

  lemma Big4Inverse(n: nat)
    requires n < 0x1_0000_0000
    ensures var b := Big4(n); b[0] as int * 0x100_0000 + b[1] as int * 0x1_0000 + b[2] as int * 256 + b[3] == n
  {
    var q, r := n / 256, n / 256 / 256;
    assert n == q * 256 + n % 256 && q == r * 256 + q % 256 && r == r / 256 * 256 + r % 256;
  }

  /** A header in the buffer is read for what it says; less of it is partial. */
  lemma HeadInverse(f: Frame, rest: bytes, buf: bytes, net: bytes)
    requires f.Valid() && buf + net == Header(f) + rest
    ensures |buf| < |Header(f)| ==> ReadHead(buf) == Partial
    ensures |buf| >= |Header(f)| ==> ReadHead(buf) == Head(|Header(f)|, |f.payload|) && buf[0] == f.first
  {
    var h := Header(f);
    var n := |f.payload|;
    forall i | 0 <= i < |h| && i < |buf| ensures buf[i] == h[i] {
      assert buf[i] == (buf + net)[i] == (h + rest)[i];
    }
    if |buf| >= |h| {
      assert forall i :: 0 <= i < |h| ==> buf[i] == h[i];
      if f.enc == Long {
        Big4Inverse(n);
        assert h[6..] == Big4(n);
      }
    }
  }

  // ---------------------------------------------------------------- one call

  lemma {:induction false} TaggedSplit(id: nat, a: bytes, b: bytes)
    ensures Tagged(id, a + b) == Tagged(id, a) + Tagged(id, b)
  {
    if a == [] {
      AppendEmpty(b);
      AppendEmpty(Tagged(id, b));
    } else {
      assert (a + b)[1..] == a[1..] + b;
      TaggedSplit(id, a[1..], b);
      Assoc([Tag(id, a[0])], Tagged(id, a[1..]), Tagged(id, b));
    }
  }

  lemma MeaningSplit(first: byte, id: nat, a: bytes, b: bytes)
    ensures Meaning(first, id, a + b) == Meaning(first, id, a) + Meaning(first, id, b)
  {
    TaggedSplit(id, a, b);
  }

  /** What one call of the parser does to any prefix of a good stream. */
  lemma {:induction false} IdpDelivers(a: Args, buf: bytes, tot: nat, net: bytes, log: seq<Tag>, fs: seq<Frame>,
                                       processed: nat, done: seq<Tag>)
    requires Remaining(a, tot, buf + net, log, fs)
    ensures Delivers(Idp(a, buf, tot, processed, done), buf, tot, net, log, processed, done)
    decreases |buf|, a.state, 1
  {
    hide Remaining, Delivers;
    if buf == [] {
      hide Idp;
      IdpAtEnd(a, tot, net, log, fs, processed, done);
    } else if a.state == 1 {
      IdpHeader(a, buf, tot, net, log, fs, processed, done);
    } else {
      RemainingValid(a, tot, buf + net, log, fs);
      IdpPayload(a, buf, tot, net, log, fs, processed, done);
    }
  }

  lemma RemainingValid(a: Args, tot: nat, s: bytes, log: seq<Tag>, fs: seq<Frame>)
    requires Remaining(a, tot, s, log, fs)
    ensures ValidArgs(a) && (a.state == 2 && a.frameSz <= tot ==> a.frameSzProcessed == 0)
  {
  }

  lemma IdpAtEnd(a: Args, tot: nat, net: bytes, log: seq<Tag>, fs: seq<Frame>, processed: nat, done: seq<Tag>)
    requires Remaining(a, tot, [] + net, log, fs)
    ensures Delivers(Idp(a, [], tot, processed, done), [], tot, net, log, processed, done)
  {
    StopDelivers(a, [], tot, net, log, fs, processed, done);
  }

  lemma IdpHeader(a: Args, buf: bytes, tot: nat, net: bytes, log: seq<Tag>, fs: seq<Frame>, processed: nat, done: seq<Tag>)
    requires a.state == 1 && buf != [] && Remaining(a, tot, buf + net, log, fs)
    ensures Delivers(Idp(a, buf, tot, processed, done), buf, tot, net, log, processed, done)
    decreases |buf|, 1, 0
  {
    hide *;
    FirstFrame(a, tot, buf, net, log, fs);
    var f, next := fs[0], fs[1..];
    var h, rest := Header(f), f.payload + Wire(next);
    HeadInverse(f, rest, buf, net);
    if |buf| < |h| {
      IdpPartial(a, buf, tot, net, log, fs, processed, done);
    } else {
      var b := Args(2, f.first, |f.payload|, 0, a.frameID);
      HeaderTaken(buf, net, h, rest);
      PayloadNext(f, next, a.frameID, rest, tot);
      IdpDelivers(b, buf[|h|..], tot, net, log, next, processed + |h|, done);
      AppendEmpty(done);
      AppendEmpty(log);
      StepDelivers(Idp(b, buf[|h|..], tot, processed + |h|, done), buf, |h|, tot, net, [], log, processed, done);
      IdpHead(a, buf, tot, f, processed, done);
    }
  }

  lemma FirstFrame(a: Args, tot: nat, buf: bytes, net: bytes, log: seq<Tag>, fs: seq<Frame>)
    requires a.state == 1 && buf != [] && Remaining(a, tot, buf + net, log, fs)
    ensures ValidFrames(fs) && fs != [] && fs[0].Valid() && ValidFrames(fs[1..]) && ValidArgs(a)
    ensures buf + net == Header(fs[0]) + (fs[0].payload + Wire(fs[1..]))
    ensures log == Meaning(fs[0].first, a.frameID, fs[0].payload) + Expected(fs[1..], NextId(fs[0].first, a.frameID))
  {
    hide Header, Meaning;
  }

  /** A header that is not all there. */
  lemma IdpPartial(a: Args, buf: bytes, tot: nat, net: bytes, log: seq<Tag>, fs: seq<Frame>, processed: nat, done: seq<Tag>)
    requires a.state == 1 && buf != [] && Remaining(a, tot, buf + net, log, fs)
    requires ReadHead(buf) == Partial
    ensures Delivers(Idp(a, buf, tot, processed, done), buf, tot, net, log, processed, done)
  {
    StopDelivers(a, buf, tot, net, log, fs, processed, done);
    hide Remaining, Delivers, ReadHead;
  }

  /** A header that is all there is taken. */
  lemma IdpHead(a: Args, buf: bytes, tot: nat, f: Frame, processed: nat, done: seq<Tag>)
    requires ValidArgs(a) && a.state == 1 && buf != [] && f.Valid() && |Header(f)| <= |buf|
    requires ReadHead(buf) == Head(|Header(f)|, |f.payload|) && buf[0] == f.first
    ensures Idp(a, buf, tot, processed, done)
            == Idp(Args(2, f.first, |f.payload|, 0, a.frameID), buf[|Header(f)|..], tot, processed + |Header(f)|, done)
  {
    hide Header, ReadHead;
  }

  lemma HeaderTaken(buf: bytes, net: bytes, h: bytes, rest: bytes)
    requires buf + net == h + rest && |buf| >= |h|
    ensures buf[|h|..] + net == rest
  {
    CutLeft(buf, net, |h|);
    CutAtEnd(h, rest);
  }

  /** Behind its header, a frame's payload is what comes next. */
  lemma PayloadNext(f: Frame, fs: seq<Frame>, id: nat, rest: bytes, tot: nat)
    requires f.Valid() && ValidFrames(fs) && rest == f.payload + Wire(fs)
    ensures Remaining(Args(2, f.first, |f.payload|, 0, id), tot, rest,
                      Meaning(f.first, id, f.payload) + Expected(fs, NextId(f.first, id)), fs)
  {
    CutAtEnd(f.payload, Wire(fs));
  }

  lemma IdpPayload(a: Args, buf: bytes, tot: nat, net: bytes, log: seq<Tag>, fs: seq<Frame>, processed: nat, done: seq<Tag>)
    requires a.state == 2 && buf != [] && Remaining(a, tot, buf + net, log, fs)
    ensures Delivers(Idp(a, buf, tot, processed, done), buf, tot, net, log, processed, done)
    decreases |buf|, 2, 0
  {
    hide Delivers, Wire, Expected, Meaning, PartSize;
    match PartSize(a, buf, tot) {
      case NotYet =>
        NotYetStarved(a, buf, tot);
        StopDelivers(a, buf, tot, net, log, fs, processed, done);
      case Part(sz) =>
        PartTaken(a, buf, tot, sz);
        var more := PayloadStep(a, buf, tot, net, log, fs, sz);
        hide Remaining;
        var d := Meaning(a.first, a.frameID, buf[..sz]);
        IdpDelivers(After(a, sz), buf[sz..], tot, net, more, fs, processed + sz, done + d);
        StepDelivers(Idp(After(a, sz), buf[sz..], tot, processed + sz, done + d), buf, sz, tot, net, d, more, processed, done);
    }
  }

  lemma NotYetStarved(a: Args, buf: bytes, tot: nat)
    requires ValidArgs(a) && a.state == 2 && PartSize(a, buf, tot).NotYet?
    ensures Starved(a, tot, buf)
  {
  }

  /** A part is some bytes, or the whole payload, or both. */
  lemma PartTaken(a: Args, buf: bytes, tot: nat, sz: nat)
    requires ValidArgs(a) && a.state == 2 && buf != [] && PartSize(a, buf, tot) == Part(sz)
    requires a.frameSz <= tot ==> a.frameSzProcessed == 0
    ensures sz <= |buf| && a.frameSzProcessed + sz <= a.frameSz
    ensures sz > 0 || a.frameSzProcessed + sz == a.frameSz
    ensures a.frameSz <= tot ==> a.frameSzProcessed + sz == a.frameSz
  {
  }

  /** A part of the payload is taken; the rest of the stream means the rest of the log. */
  lemma PayloadStep(a: Args, buf: bytes, tot: nat, net: bytes, log: seq<Tag>, fs: seq<Frame>, sz: nat) returns (more: seq<Tag>)
    requires a.state == 2 && Remaining(a, tot, buf + net, log, fs)
    requires sz <= |buf| && a.frameSzProcessed + sz <= a.frameSz
    requires a.frameSz <= tot ==> a.frameSzProcessed + sz == a.frameSz
    ensures log == Meaning(a.first, a.frameID, buf[..sz]) + more
    ensures Remaining(After(a, sz), tot, buf[sz..] + net, more, fs)
  {
    hide Wire, Expected, Meaning;
    var s, left, b := buf + net, a.frameSz - a.frameSzProcessed, After(a, sz);
    var head, tail := s[..sz], s[sz..left];
    var after := Expected(fs, NextId(a.first, a.frameID));
    assert s[..left] == head + tail && s[sz..][..left - sz] == tail && s[sz..][left - sz..] == s[left..];
    MeaningSplit(a.first, a.frameID, head, tail);
    CutLeft(buf, net, sz);
    more := Meaning(a.first, a.frameID, tail) + after;
    Assoc(Meaning(a.first, a.frameID, head), Meaning(a.first, a.frameID, tail), after);
    if b.state == 1 {
      MeaningNothing(a.first, a.frameID);
      AppendEmpty(after);
      assert tail == [];
    }
  }

  lemma MeaningNothing(first: byte, id: nat)
    ensures Meaning(first, id, []) == []
  {
  }

  // ---------------------------------------------------------------- the polling state

  /** Where the polling state stands. */
  datatype Phase = Reading | Processing | Failed(err: Err)

  datatype Rx = Rx(phase: Phase, args: Args, wb: bytes, got: seq<Tag>)

  predicate ValidRx(rx: Rx, tot: nat) {
    ValidArgs(rx.args) && (rx.args.state == 2 && rx.args.frameSz <= tot ==> rx.args.frameSzProcessed == 0)
  }

  lemma {:induction false} IdpValid(a: Args, buf: bytes, tot: nat, processed: nat, log: seq<Tag>)
    requires ValidArgs(a) && (a.state == 2 && a.frameSz <= tot ==> a.frameSzProcessed == 0)
    ensures var r := Idp(a, buf, tot, processed, log);
            && ValidArgs(r.args) && (r.args.state == 2 && r.args.frameSz <= tot ==> r.args.frameSzProcessed == 0)
            && (r.err == OK ==> r.processed > 0) && r.processed >= processed
    decreases |buf|, a.state
  {
    hide ReadHead, Meaning;
    if buf != [] {
      if a.state == 1 {
        if ReadHead(buf).Head? {
          var h := ReadHead(buf);
          IdpValid(Args(2, buf[0], h.frameSz, 0, a.frameID), buf[h.len..], tot, processed + h.len, log);
        }
      } else if PartSize(a, buf, tot).Part? {
        var sz := PartSize(a, buf, tot).sz;
        IdpValid(After(a, sz), buf[sz..], tot, processed + sz, log + Meaning(a.first, a.frameID, buf[..sz]));
      }
    }
  }

  /** EVENT_PROCESS, with `tot` bytes of working buffer: one call of the parser and a shrink. */
  function OnProcess(rx: Rx, tot: nat): (next: Rx)
    requires rx.phase == Processing && ValidRx(rx, tot)
    ensures ValidRx(next, tot) && (next.phase == Processing ==> |next.wb| < |rx.wb|)
  {
    IdpValid(rx.args, rx.wb, tot, 0, []);
    var r := Idp(rx.args, rx.wb, tot, 0, []);
    var rx' := rx.(args := r.args, got := rx.got + r.log);
    if r.err == MoreDataNeeded then
      rx'.(phase := if |rx.wb| >= tot then Failed(WorkBufSmall) else Reading)
    else if r.err != OK then rx'.(phase := Failed(r.err))
    else if r.processed >= |rx.wb| then rx'.(phase := Reading, wb := [])
    else rx'.(wb := rx.wb[r.processed..])
  }

  /** Processing until it wants to read. */
  function Settle(rx: Rx, tot: nat): (settled: Rx)
    requires ValidRx(rx, tot)
    ensures ValidRx(settled, tot) && settled.phase != Processing
    decreases |rx.wb|
  {
    if rx.phase != Processing then rx
    else
      var rx1 := OnProcess(rx, tot);
      if rx1.phase == Processing then Settle(rx1, tot) else rx1
  }

  /** What happens between two rounds of processing: the socket returns some bytes, or the poll times out
      and the application polls again. */
  datatype Event = Read(asked: nat) | PollAgain

  function ReadSize(rx: Rx, tot: nat, net: bytes, asked: nat): nat {
    var free := if |rx.wb| <= tot then tot - |rx.wb| else 0;
    var n := if asked < free then asked else free;
    if n < |net| then n else |net|
  }

  function Poll(rx: Rx, tot: nat, net: bytes, events: seq<Event>): (Rx, bytes)
    requires ValidRx(rx, tot)
    decreases |events|
  {
    var rx1 := Settle(rx, tot);
    if rx1.phase != Reading || events == [] then (rx1, net)
    else
      match events[0]
      case PollAgain => Poll(rx1.(phase := Processing), tot, net, events[1..])
      case Read(asked) =>
        var n := ReadSize(rx1, tot, net, asked);
        if n == 0 then Poll(rx1, tot, net, events[1..])
        else Poll(rx1.(phase := Processing, wb := rx1.wb + net[..n]), tot, net[n..], events[1..])
  }

  /** The stream in the buffer and on the network still means the rest of `whole`. */
  ghost predicate Good(rx: Rx, tot: nat, net: bytes, whole: seq<Tag>) {
    exists more, fs :: Remaining(rx.args, tot, rx.wb + net, more, fs) && rx.got + more == whole
  }

  ghost predicate Settled(rx: Rx, tot: nat, net: bytes, whole: seq<Tag>) {
    rx.phase == Reading && Good(rx, tot, net, whole) && Starved(rx.args, tot, rx.wb)
  }

  /** Room for a header */
  const MIN_WB := 10

  /** One EVENT_PROCESS on a good stream. */
  lemma ProcessGood(rx: Rx, tot: nat, net: bytes, whole: seq<Tag>)
    requires rx.phase == Processing && Good(rx, tot, net, whole) && tot >= MIN_WB
    ensures ValidRx(rx, tot)
    ensures var rx1 := OnProcess(rx, tot);
            rx1.phase in {Reading, Processing} && Good(rx1, tot, net, whole) && Starved(rx1.args, tot, rx1.wb)
  {
    hide Idp, Continues;
    var more, fs :| Remaining(rx.args, tot, rx.wb + net, more, fs) && rx.got + more == whole;
    IdpDelivers(rx.args, rx.wb, tot, net, more, fs, 0, []);
    var r := Idp(rx.args, rx.wb, tot, 0, []);
    var rest := rx.wb[r.processed - 0..];
    var later, gs :| Continues(r.args, tot, rest, net, later, gs) && r.log + later == [] + more;
    RemainingValid(rx.args, tot, rx.wb + net, more, fs);
    ContinuesIs(r.args, tot, rest, net, later, gs);
    AppendEmpty(more);
    Assoc(rx.got, r.log, later);
    var rx1 := OnProcess(rx, tot);
    hide Remaining;
    assert rest == rx1.wb;
    assert rx1.got + later == whole;
  }

  lemma ContinuesIs(a: Args, tot: nat, rest: bytes, net: bytes, log: seq<Tag>, fs: seq<Frame>)
    requires Continues(a, tot, rest, net, log, fs)
    ensures Starved(a, tot, rest) && Remaining(a, tot, rest + net, log, fs)
    ensures tot >= MIN_WB ==> |rest| < tot
  {
  }

  lemma {:induction false} SettleGood(rx: Rx, tot: nat, net: bytes, whole: seq<Tag>)
    requires rx.phase == Processing && Good(rx, tot, net, whole) && tot >= MIN_WB
    ensures ValidRx(rx, tot) && Settled(Settle(rx, tot), tot, net, whole)
    decreases |rx.wb|
  {
    hide OnProcess, Good;
    ProcessGood(rx, tot, net, whole);
    var rx1 := OnProcess(rx, tot);
    if rx1.phase == Processing {
      SettleGood(rx1, tot, net, whole);
    }
  }

  /** Every event brings bytes, if any are left. */
  predicate AllReads(events: seq<Event>) {
    forall i :: 0 <= i < |events| ==> events[i].Read? && events[i].asked > 0
  }

  lemma StarvedHasRoom(a: Args, tot: nat, rest: bytes)
    requires Starved(a, tot, rest) && tot >= MIN_WB
    ensures |rest| < tot
  {
  }

  lemma {:induction false} PollGood(rx: Rx, tot: nat, net: bytes, events: seq<Event>, whole: seq<Tag>)
    requires tot >= MIN_WB && ValidRx(rx, tot)
    requires (rx.phase == Processing && Good(rx, tot, net, whole)) || Settled(rx, tot, net, whole)
    ensures var (rx', net') := Poll(rx, tot, net, events);
            Settled(rx', tot, net', whole) && (AllReads(events) && |events| >= |net| ==> net' == [])
    decreases |events|
  {
    hide OnProcess, Remaining, Starved;
    if rx.phase == Processing {
      SettleGood(rx, tot, net, whole);
    }
    var rx1 := Settle(rx, tot);
    if events != [] {
      match events[0] {
        case PollAgain =>
          PollGood(rx1.(phase := Processing), tot, net, events[1..], whole);
        case Read(asked) =>
          var n := ReadSize(rx1, tot, net, asked);
          StarvedHasRoom(rx1.args, tot, rx1.wb);
          if n == 0 {
            PollGood(rx1, tot, net, events[1..], whole);
          } else {
            assert rx1.wb + net[..n] + net[n..] == rx1.wb + net;
            PollGood(rx1.(phase := Processing, wb := rx1.wb + net[..n]), tot, net[n..], events[1..], whole);
          }
      }
    }
  }

  /** However the socket cuts a stream of frames, and however often the application polls: no error, the
      application has a prefix of what the frames mean, and all of it once the whole stream has been read. */
  lemma FragmentationIndependence(fs: seq<Frame>, first: bytes, net: bytes, tot: nat, events: seq<Event>)
    requires ValidFrames(fs) && first + net == Wire(fs) && tot >= MIN_WB
    ensures var (rx, rest) := Poll(Rx(Processing, Args(1, 0, 0, 0, 0), first, []), tot, net, events);
            && rx.phase == Reading && rx.got <= Expected(fs, 0)
            && (rest == [] ==> rx.got == Expected(fs, 0))
            && (AllReads(events) && |events| >= |net| ==> rest == [])
  {
    hide Poll, Remaining, Starved;
    var rx, whole := Rx(Processing, Args(1, 0, 0, 0, 0), first, []), Expected(fs, 0);
    AtStart(fs, first, net, tot);
    PollGood(rx, tot, net, events, whole);
    var (rx', rest) := Poll(rx, tot, net, events);
    var more, gs :| Remaining(rx'.args, tot, rx'.wb + rest, more, gs) && rx'.got + more == whole;
    CutAtEnd(rx'.got, more);
    if rest == [] {
      AppendEmpty(rx'.wb);
      NothingMore(rx'.args, tot, rx'.wb, more, gs);
    }
  }

  lemma AtStart(fs: seq<Frame>, first: bytes, net: bytes, tot: nat)
    requires ValidFrames(fs) && first + net == Wire(fs)
    ensures Good(Rx(Processing, Args(1, 0, 0, 0, 0), first, []), tot, net, Expected(fs, 0))
  {
    hide Wire, Expected;
    assert Remaining(Args(1, 0, 0, 0, 0), tot, first + net, Expected(fs, 0), fs);
    AppendEmpty(Expected(fs, 0));
  }

  /** With the whole stream there, a parser that cannot go on has nothing left to deliver. */
  lemma NothingMore(a: Args, tot: nat, rest: bytes, log: seq<Tag>, fs: seq<Frame>)
    requires Remaining(a, tot, rest, log, fs) && Starved(a, tot, rest)
    ensures log == []
  {
    AppendEmpty(rest);
    if a.state == 1 && fs != [] {
      HeadInverse(fs[0], fs[0].payload + Wire(fs[1..]), rest, []);
    }
  }

  // ---------------------------------------------------------------- the loop

  /** mangoIDP_websocket. `tot` is MANGO_WB_TOT_SZ; the application takes whatever it is given. */
  method IdpWebsocket(a: Args, wb: bytes, tot: nat) returns (r: IdpResult)
    requires ValidArgs(a) && (a.state == 2 && a.frameSz <= tot ==> a.frameSzProcessed == 0)
    ensures r == Idp(a, wb, tot, 0, [])
  {
    hide Idp, ReadHead, Meaning;
    var args, buf: nat, processed: nat, log := a, 0, 0, [];
    assert wb[0..] == wb;
    while true
      invariant buf <= |wb| && ValidArgs(args) && (args.state == 2 && args.frameSz <= tot ==> args.frameSzProcessed == 0)
      invariant Idp(a, wb, tot, 0, []) == Idp(args, wb[buf..], tot, processed, log)
      decreases |wb| - buf, args.state
    {
      ghost var rest := wb[buf..];
      if |wb| - buf == 0 {
        IdpOpen(args, rest, tot, processed, log);
        return Stop(args, processed, log);
      }
      if args.state == 1 {
        var h := HeadAt(wb, buf);
        IdpOpen(args, rest, tot, processed, log);
        match h {
          case Partial => return Stop(args, processed, log);
          case Masked => return IdpResult(DataProcessing, args, processed, log);
          case Huge => return IdpResult(DataProcessing, args, processed, log);
          case Head(len, sz) =>
            assert rest[len..] == wb[buf + len..];
            args := Args(2, wb[buf], sz, 0, args.frameID);
            buf, processed := buf + len, processed + len;
        }
      } else {
        var maxReadSz: nat;
        IdpOpen(args, rest, tot, processed, log);
        if args.frameSz <= tot {
          if args.frameSz > |wb| - buf {
            return Stop(args, processed, log);
          }
          maxReadSz := args.frameSz;
        } else {
          var left := args.frameSz - args.frameSzProcessed;
          maxReadSz := if |wb| - buf >= left then left else |wb| - buf;
        }
        if !IsData(args.first) {
          if Opcode(args.first) == CLOSE {
            return IdpResult(WebSocketClosed, args, processed, log);
          } else if Opcode(args.first) != PING {
            return IdpResult(DataProcessing, args, processed, log);
          }
        }
        assert rest[maxReadSz..] == wb[buf + maxReadSz..] && rest[..maxReadSz] == wb[buf..buf + maxReadSz];
        log := log + Meaning(args.first, args.frameID, wb[buf..buf + maxReadSz]);
        args := After(args, maxReadSz);
        buf, processed := buf + maxReadSz, processed + maxReadSz;
      }
    }
  }

  /** One round of the loop. */
  lemma IdpOpen(a: Args, buf: bytes, tot: nat, processed: nat, log: seq<Tag>)
    requires ValidArgs(a) && (a.state == 2 && a.frameSz <= tot ==> a.frameSzProcessed == 0)
    ensures Idp(a, buf, tot, processed, log) ==
            if buf == [] then Stop(a, processed, log)
            else if a.state == 1 then
              match ReadHead(buf)
              case Partial => Stop(a, processed, log)
              case Masked => IdpResult(DataProcessing, a, processed, log)
              case Huge => IdpResult(DataProcessing, a, processed, log)
              case Head(len, sz) => Idp(Args(2, buf[0], sz, 0, a.frameID), buf[len..], tot, processed + len, log)
            else
              match PartSize(a, buf, tot)
              case NotYet => Stop(a, processed, log)
              case Part(sz) =>
                if Opcode(a.first) == CLOSE then IdpResult(WebSocketClosed, a, processed, log)
                else if !IsData(a.first) && Opcode(a.first) != PING then IdpResult(DataProcessing, a, processed, log)
                else Idp(After(a, sz), buf[sz..], tot, processed + sz, log + Meaning(a.first, a.frameID, buf[..sz]))
  {
    hide ReadHead, Meaning;
  }

  /** The header at position i. */
  method HeadAt(wb: bytes, i: nat) returns (h: Head)
    requires i < |wb|
    ensures h == ReadHead(wb[i..]) && (h.Head? ==> i + h.len <= |wb|)
  {
    var buflen := |wb| - i;
    ghost var rest := wb[i..];
    assert forall k :: 0 <= k < buflen ==> rest[k] == wb[i + k];
    if buflen < 2 {
      return Partial;
    }
    assert rest[1] == wb[i + 1];
    if wb[i + 1] >= 128 {
      return Masked;
    }
    if wb[i + 1] < 126 {
      return Head(2, wb[i + 1]);
    } else if wb[i + 1] == 126 {
      if buflen < 4 {
        return Partial;
      }
      assert rest[2] == wb[i + 2] && rest[3] == wb[i + 3];
      return Head(4, wb[i + 2] as int * 256 + wb[i + 3]);
    }
    if buflen < 10 {
      return Partial;
    }
    assert rest[2] == wb[i + 2] && rest[3] == wb[i + 3] && rest[4] == wb[i + 4] && rest[5] == wb[i + 5];
    assert rest[6] == wb[i + 6] && rest[7] == wb[i + 7] && rest[8] == wb[i + 8] && rest[9] == wb[i + 9];
    if wb[i + 2] != 0 || wb[i + 3] != 0 || wb[i + 4] != 0 || wb[i + 5] != 0 {
      return Huge;
    }
    return Head(10, wb[i + 6] as int * 0x100_0000 + wb[i + 7] as int * 0x1_0000 + wb[i + 8] as int * 256 + wb[i + 9]);
  }
}
