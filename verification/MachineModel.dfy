/** The state machine of the mango client as a function: what every state makes of an event, given what the socket, the
    data processors and the headers answer; the runs of a call; and what a call returns as a consequence of the
    answers. */
module MachineModel {
  import opened Bytes

  datatype State =
    | Aborted | Disconnected | HttpConnected | SendingHeaders | RecvingHeaders | RecvingData
    | SendingData | SendingPacket | WsConnected | WsPolling | WsSendingFrame | WsClosing

  datatype Event =
    | None | Entry | Process | Read | Write | Timeout
    | CallRequestProcess | CallDataSend | CallWsPoll | CallWsFrameSend | CallWsClose

  datatype Method = Get | Head | Put | Post | Unsupported

  datatype Err =
    | OK | MoreDataNeeded | WorkBufSmall | TempBufSmall | Connection | AbortedErr | NotSupported | InvalidReqHeaders
    | RespFormat | RespTimeout | WebSocketClosed | OtherErr | Status(code: nat)

  /** The processor attached to a direction, and whose arguments dataProcessorArgs points to. */
  datatype OutputProcessor = NoOutput | OutRaw | OutChunked

  datatype InputProcessor = NoInput | InRaw | InChunked | InWebsocket

  datatype ProcessorArgs = NoArgs | ArgsOf(out: OutputProcessor) | ArgsFor(inp: InputProcessor)

  /** Whose arguments smAPICallArgs points to. */
  datatype ApiArgs = NoApiArgs | DataSendArgs | WsPollArgs | WsFrameSendArgs

  predicate IsCall(e: Event) {
    e in {CallRequestProcess, CallDataSend, CallWsPoll, CallWsFrameSend, CallWsClose}
  }

  /** A code that is neither success, nor a response, nor a refused call. */
  predicate Failure(err: Err) {
    !err.OK? && !err.Status? && !err.NotSupported?
  }

  // ---------------------------------------------------------------- configurations and answers

  /** All that the machine keeps: `nxt` is the state asked for, the same as `s` when none is. */
  datatype Config = Config(
    s: State, nxt: State, await: Event, timed: bool, err: Err, left: nat, right: nat,
    m: Method, code: nat, out: OutputProcessor, inp: InputProcessor, args: ProcessorArgs, api: ApiArgs)

  /** What is answered while an event is handled. */
  datatype Answer =
    | Silent                                              // nothing has been asked
    | Wrote(n: int)                                       // the socket, to a write
    | Received(n: int, status: int, end: nat)             // the socket, to a read, and the check of a response
    | Processed(err: Err, used: nat, completed: bool)     // a data processor
    | Polled(timed: bool, err: Err, used: nat)            // the timeout of a poll, and the processor
    | RequestSays(length: bool, bad: bool, size: nat, encoding: bool, goAhead: bool)
    | ResponseSays(found: int, bad: bool, chunked: int, icy: bool)
    | FrameSent(ok: bool)

  predicate Sends(m: Method) {
    m == Put || m == Post
  }

  /** Who is asked for what. */
  predicate Asked(c: Config, e: Event, a: Answer) {
    match c.s
    case SendingHeaders => if e == Write then a.Wrote? else if e == Process && Sends(c.m) then a.RequestSays? else a.Silent?
    case RecvingHeaders => if e == Read then a.Received? else if e == Process then a.ResponseSays? else a.Silent?
    case RecvingData => if e == Read then a.Received? else if e == Process then a.Processed? else a.Silent?
    case SendingPacket => if e == Write then a.Processed? else a.Silent?
    case WsPolling =>
      if e == Entry then a.Polled? else if e == Process then a.Processed? else if e == Read then a.Received? else a.Silent?
    case WsSendingFrame => if e == Write then a.FrameSent? else a.Silent?
    case WsClosing => if e == Write then a.FrameSent? else a.Silent?
    case _ => a.Silent?
  }

  /** An answer that there can be: no more than was asked for. */
  predicate Answers(c: Config, e: Event, a: Answer, wbSz: nat) {
    Asked(c, e, a) &&
    match a
    case Silent => true
    case Wrote(n) => c.left + n <= c.right
    case Received(n, status, end) =>
      && c.right + n <= wbSz && (status > 0 ==> 100 <= status < 600) && (c.s != RecvingHeaders || n <= 0 ==> status == 0)
      && (n > 0 && status > 0 ==> end <= c.right + n)
    case Processed(err, used, _) => (err == OK || Failure(err)) && c.left + used <= c.right
    case Polled(_, err, used) => (err == OK || Failure(err)) && c.left + used <= c.right
    case _ => true
  }

  // ---------------------------------------------------------------- what a state makes of an event

  function Ask(c: Config, s: State): Config {
    c.(nxt := s)
  }

  function Fail(c: Config, err: Err, s: State): Config {
    c.(err := err, nxt := s)
  }

  function Refuse(c: Config): Config {
    c.(err := NotSupported)
  }

  function Shrunk(c: Config): (d: Config)
    ensures d == c.(left := d.left, right := d.right)
  {
    c.(left := 0, right := if c.left <= c.right then c.right - c.left else 0)
  }

  function InSendingHeaders(c: Config, e: Event, a: Answer): Config {
    match e
    case Entry => c.(await := Write)
    case Write =>
      if !a.Wrote? then c
      else if a.n < 0 then Fail(c, Connection, Disconnected)
      else if c.left + a.n == c.right then c.(left := c.right, await := Process)
      else c.(left := c.left + a.n as nat)
    case Process => if Sends(c.m) then Attached(c, a) else Ask(c, RecvingHeaders)
    case _ => c
  }

  /** The headers of a PUT or POST */
  function Attached(c: Config, a: Answer): Config {
    if !a.RequestSays? then c
    else if a.length && a.bad then Fail(c.(out := OutRaw, args := NoArgs), InvalidReqHeaders, Aborted)
    else if a.length && a.size == 0 then Ask(c.(out := OutRaw, args := ArgsOf(OutRaw)), RecvingHeaders)
    else if a.length && a.encoding then Fail(c.(out := OutRaw, args := ArgsOf(OutRaw)), InvalidReqHeaders, Aborted)
    else if !a.length && !a.encoding then Fail(c.(out := NoOutput, args := NoArgs), InvalidReqHeaders, Aborted)
    else
      var o := if a.length then OutRaw else OutChunked;
      var d := c.(out := o, args := ArgsOf(o));
      if a.goAhead then Ask(d, RecvingHeaders) else Fail(d, Status(100), SendingData)
  }

  /** What the check says of the response in the buffer. */
  function Verified(c: Config, status: int, end: nat, wbSz: nat): Config {
    if status < 0 then Fail(c, RespFormat, Aborted)
    else if status == 0 then if c.right == wbSz then Fail(c, WorkBufSmall, Aborted) else c
    else c.(code := status, left := end, await := Process)
  }

  function InRecvingHeaders(c: Config, e: Event, a: Answer, wbSz: nat): Config {
    match e
    case Entry => c.(timed := true, await := Read, left := 0, right := 0)
    case Read =>
      if !a.Received? then c
      else if a.n < 0 then Fail(c, Connection, Disconnected)
      else if a.n == 0 then c
      else
        Verified(c.(right := c.right + a.n), a.status, a.end, wbSz)
    case Process => Responded(c, a)
    case Timeout => Fail(c, RespTimeout, Aborted)
    case _ => c
  }

  function Receive(c: Config, p: InputProcessor): Config {
    Ask(c.(inp := p, args := ArgsFor(p)), RecvingData)
  }

  /** The headers of a response */
  function Responded(c: Config, a: Answer): Config {
    if !a.ResponseSays? then c
    else if a.found == 0 then Fail(c, TempBufSmall, Aborted)
    else if a.found > 0 then
      if c.m == Head then Fail(c, Status(c.code), HttpConnected)
      else if a.bad then Fail(c.(inp := InRaw), RespFormat, Aborted)
      else Receive(c, InRaw)
    else if a.chunked == 0 then Fail(c, TempBufSmall, Aborted)
    else if a.chunked > 0 then
      if c.m == Head then Fail(c, Status(c.code), HttpConnected) else Receive(c, InChunked)
    else if c.code == 200 && a.icy then Receive(c, InRaw)
    else if c.code == 101 then
      Fail(c.(inp := InWebsocket, args := ArgsFor(InWebsocket)), Status(101), WsConnected)
    else if c.code == 100 && Sends(c.m) then Fail(c, Status(100), SendingData)
    else Receive(c, InRaw)
  }

  /** A read of one of the two states that receive */
  function ReadOn(c: Config, a: Answer): Config {
    if !a.Received? then c
    else if a.n < 0 then Fail(c, Connection, Disconnected)
    else if a.n == 0 then c
    else c.(right := c.right + a.n, await := Process)
  }

  /** What they make of the answer of their processor */
  function Consumed(c: Config, err: Err, n: nat, wbSz: nat): Config {
    if err == MoreDataNeeded then
      if c.right == wbSz then Fail(c, WorkBufSmall, Aborted) else c.(await := Read)
    else if err != OK then Fail(c, err, Aborted)
    else
      var d := Shrunk(c.(left := c.left + n));
      if d.right == 0 then d.(await := Read) else d
  }

  function InRecvingData(c: Config, e: Event, a: Answer, wbSz: nat): Config {
    match e
    case Entry => Shrunk(c.(timed := true, await := Process))
    case Read => if a.Received? && a.n > 0 then ReadOn(c, a).(timed := true) else ReadOn(c, a)
    case Process =>
      if !a.Processed? then c
      else if a.err == OK && a.completed then Fail(c, Status(c.code), HttpConnected)
      else Consumed(c, a.err, a.used, wbSz)
    case Timeout => Fail(c, RespTimeout, Aborted)
    case _ => c
  }

  function InSendingPacket(c: Config, e: Event, a: Answer): Config {
    match e
    case Entry => c.(await := Write)
    case Write =>
      if !a.Processed? then c
      else if a.err != OK then Fail(c, a.err, Aborted)
      else if a.completed then Ask(c, RecvingHeaders)
      else Ask(c, SendingData)
    case _ => c
  }

  function PollStep(c: Config, err: Err, n: nat, wbSz: nat): Config {
    if err == WebSocketClosed then Fail(c, WebSocketClosed, Disconnected) else Consumed(c, err, n, wbSz)
  }

  function InWsPolling(c: Config, e: Event, a: Answer, wbSz: nat): Config {
    match e
    case Entry => if a.Polled? then PollStep(c.(timed := a.timed, await := Process), a.err, a.used, wbSz) else c
    case Process => if a.Processed? then PollStep(c, a.err, a.used, wbSz) else c
    case Read => ReadOn(c, a)
    case Timeout => Ask(c, WsConnected)
    case _ => c
  }

  function InWsSending(c: Config, e: Event, a: Answer): Config {
    match e
    case Entry => c.(await := Write)
    case Write =>
      if !a.FrameSent? then c
      else Ask(c, if !a.ok then Aborted else if c.s == WsSendingFrame then WsConnected else Disconnected)
    case _ => c
  }

  /** hc->curState(event, hc) */
  function Handle(c: Config, e: Event, a: Answer, wbSz: nat): Config {
    match c.s
    case Aborted => if e == Entry then c else c.(err := AbortedErr)
    case Disconnected => if e == Entry then c else c.(err := Connection)
    case HttpConnected =>
      if e == Entry then c.(left := 0, right := 0)
      else if e == CallRequestProcess then Ask(c, SendingHeaders) else Refuse(c)
    case SendingHeaders => InSendingHeaders(c, e, a)
    case RecvingHeaders => InRecvingHeaders(c, e, a, wbSz)
    case RecvingData => InRecvingData(c, e, a, wbSz)
    case SendingData =>
      if e == Entry then c.(left := 0, right := 0)
      else if e == CallDataSend then Ask(c, SendingPacket) else Refuse(c)
    case SendingPacket => InSendingPacket(c, e, a)
    case WsConnected =>
      if e == Entry then Shrunk(c)
      else if e == CallWsPoll then Ask(c, WsPolling)
      else if e == CallWsFrameSend then Ask(c, WsSendingFrame)
      else if e == CallWsClose then Ask(c, WsClosing) else Refuse(c)
    case WsPolling => InWsPolling(c, e, a, wbSz)
    case WsSendingFrame => InWsSending(c, e, a)
    case WsClosing => InWsSending(c, e, a)
  }

  // ---------------------------------------------------------------- runs

  /** An event that is handled, and what is answered. */
  datatype Step = Step(e: Event, a: Answer)

  function Entered(c: Config): Config {
    c.(s := c.nxt, await := None, timed := false)
  }

  function Do(c: Config, st: Step, wbSz: nat): Config {
    Handle(if st.e == Entry then Entered(c) else c, st.e, st.a, wbSz)
  }

  /** The machine waits for the application. */
  predicate AtRest(c: Config) {
    c.nxt == c.s && c.await == None && !c.timed
  }

  /** The event that is due: the entry of a state asked for, the call at the beginning, and then what the state waits
      for, or its timeout. */
  predicate Due(c: Config, e: Event) {
    if c.nxt != c.s then e == Entry
    else (IsCall(e) && AtRest(c)) || (e in {Read, Write, Process} && e == c.await) || (e == Timeout && c.timed)
  }

  predicate Legal(c: Config, st: Step, wbSz: nat) {
    Due(c, st.e) && Answers(if st.e == Entry then Entered(c) else c, st.e, st.a, wbSz)
  }

  function After(c: Config, log: seq<Step>, wbSz: nat): Config {
    if log == [] then c else Do(After(c, log[..|log| - 1], wbSz), log[|log| - 1], wbSz)
  }

  /** A run of events, with a call at its beginning only. */
  predicate Chain(c: Config, log: seq<Step>, wbSz: nat) {
    log == [] ||
    (&& Chain(c, log[..|log| - 1], wbSz) && Legal(After(c, log[..|log| - 1], wbSz), log[|log| - 1], wbSz)
     && (IsCall(log[|log| - 1].e) <==> |log| == 1))
  }

  /** A call that has returned. */
  predicate Returned(c: Config, call: Event, log: seq<Step>, wbSz: nat) {
    && AtRest(c) && c.err == OK && log != [] && Chain(c, log, wbSz) && log[0].e == call && AtRest(After(c, log, wbSz))
  }

  lemma {:induction false} ChainPrefix(c: Config, log: seq<Step>, wbSz: nat, k: nat)
    requires Chain(c, log, wbSz) && k <= |log|
    ensures Chain(c, log[..k], wbSz)
    ensures k < |log| ==>
              && After(c, log[..k + 1], wbSz) == Do(After(c, log[..k], wbSz), log[k], wbSz)
              && Legal(After(c, log[..k], wbSz), log[k], wbSz) && (IsCall(log[k].e) <==> k == 0)
    decreases |log|
  {
    hide Do, Legal;
    var n := |log| - 1;
    if k == |log| {
      assert log[..k] == log;
    } else if k < n {
      assert log[..n][..k] == log[..k] && log[..n][..k + 1] == log[..k + 1];
      ChainPrefix(c, log[..n], wbSz, k);
    } else {
      assert log[..k + 1] == log && log[..k + 1][..k] == log[..k];
    }
  }

  // ---------------------------------------------------------------- what a data call returns

  /** A response is awaited or being received. */
  predicate Awaiting(c: Config) {
    c.err == OK && c.nxt in {RecvingHeaders, RecvingData} && (if c.nxt == c.s then c.timed else c.s in {SendingHeaders, SendingPacket, RecvingHeaders})
  }

  /** The call has been decided, with a code other than success. */
  predicate Decided(c: Config) {
    && c.err != OK && Resting(c.nxt)
    && (c.nxt != c.s || AtRest(c))
  }

  lemma AwaitingStep(c: Config, st: Step, wbSz: nat)
    requires (Awaiting(c) || Decided(c)) && Legal(c, st, wbSz) && !IsCall(st.e)
    ensures Awaiting(Do(c, st, wbSz)) || Decided(Do(c, st, wbSz))
  {
    hide Shrunk;
  }

  lemma {:induction false} AwaitingRun(c: Config, log: seq<Step>, wbSz: nat, k: nat)
    requires Chain(c, log, wbSz) && 0 < k <= |log| && Awaiting(After(c, log[..k], wbSz))
    ensures Awaiting(After(c, log, wbSz)) || Decided(After(c, log, wbSz))
    decreases |log|
  {
    var n := |log| - 1;
    if k == |log| {
      assert log[..k] == log;
    } else {
      assert log[..n][..k] == log[..k];
      AwaitingRun(c, log[..n], wbSz, k);
      hide Awaiting, Decided, Handle, Legal;
      AwaitingStepOf(c, log, wbSz);
    }
  }

  lemma AwaitingStepOf(c: Config, log: seq<Step>, wbSz: nat)
    requires |log| > 1 && Chain(c, log, wbSz)
    requires var d := After(c, log[..|log| - 1], wbSz); Awaiting(d) || Decided(d)
    ensures Awaiting(After(c, log, wbSz)) || Decided(After(c, log, wbSz))
  {
    hide Awaiting, Decided, Handle;
    AwaitingStep(After(c, log[..|log| - 1], wbSz), log[|log| - 1], wbSz);
  }

  /** The events that a state with no timer can be in for. */
  lemma OnlyDue(c: Config, st: Step, wbSz: nat)
    requires Legal(c, st, wbSz) && !IsCall(st.e) && !c.timed
    ensures if c.nxt != c.s then st.e == Entry else st.e == c.await && c.await != None
  {
  }

  /** The state that calls the sender. */
  function Packet(c: Config): Config {
    c.(s := SendingPacket, nxt := SendingPacket, await := Write)
  }

  lemma CallTaken(c: Config, st: Step, wbSz: nat)
    requires c.s == SendingData && AtRest(c) && st.e == CallDataSend
    ensures Do(c, st, wbSz) == Ask(c, SendingPacket) && !AtRest(Ask(c, SendingPacket)) && !AtRest(Packet(c))
  {
  }

  lemma PacketEntered(c: Config, st: Step, wbSz: nat)
    requires c.s == SendingData && AtRest(c) && Legal(Ask(c, SendingPacket), st, wbSz) && !IsCall(st.e)
    ensures Do(Ask(c, SendingPacket), st, wbSz) == Packet(c)
  {
  }

  lemma PacketSent(c: Config, st: Step, wbSz: nat)
    requires c.s == SendingData && AtRest(c) && Legal(Packet(c), st, wbSz) && !IsCall(st.e)
    ensures st.e == Write && st.a.Processed? && (st.a.err == OK || Failure(st.a.err))
    ensures Do(Packet(c), st, wbSz) == InSendingPacket(Packet(c), Write, st.a)
    ensures !AtRest(InSendingPacket(Packet(c), Write, st.a))
  {
  }

  lemma NoSteps(c: Config, log: seq<Step>, wbSz: nat)
    ensures log[..0] == [] && After(c, [], wbSz) == c
  {
  }

  /** How a data call begins: the sender is called once, and its answer decides. */
  lemma DataCallBegins(c: Config, log: seq<Step>, wbSz: nat)
    requires c.s == SendingData && Returned(c, CallDataSend, log, wbSz)
    ensures |log| >= 4 && log[2].e == Write && log[2].a.Processed? && log[3].e == Entry
    ensures log[2].a.err == OK || Failure(log[2].a.err)
    ensures After(c, log[..4], wbSz) == Do(InSendingPacket(Packet(c), Write, log[2].a), log[3], wbSz)
  {
    hide After, Chain, Handle, Legal, Do, AtRest, InSendingPacket, Packet;
    NoSteps(c, log, wbSz);
    ChainPrefix(c, log, wbSz, 0);
    CallTaken(c, log[0], wbSz);
    var _, st1 := NextOf(c, log, wbSz, 1);
    PacketEntered(c, st1, wbSz);
    var _, st2 := NextOf(c, log, wbSz, 2);
    PacketSent(c, st2, wbSz);
    var d3, st3 := NextOf(c, log, wbSz, 3);
    PacketLeft(c, st2.a, st3, wbSz);
  }

  lemma PacketLeft(c: Config, a: Answer, st: Step, wbSz: nat)
    requires a.Processed? && Legal(InSendingPacket(Packet(c), Write, a), st, wbSz)
    ensures st.e == Entry
  {
  }

  /** A run that is not at rest goes on. */
  lemma FirstOf(c: Config, log: seq<Step>, wbSz: nat, k: nat)
    requires k <= |log| && AtRest(After(c, log, wbSz)) && !AtRest(After(c, log[..k], wbSz))
    ensures k < |log|
  {
    assert log[..|log|] == log;
  }

  /** The event after the first k of a run that is not at rest there. */
  lemma NextOf(c: Config, log: seq<Step>, wbSz: nat, k: nat) returns (d: Config, st: Step)
    requires 0 < k <= |log| && Chain(c, log, wbSz) && AtRest(After(c, log, wbSz)) && !AtRest(After(c, log[..k], wbSz))
    ensures k < |log| && d == After(c, log[..k], wbSz) && st == log[k]
    ensures After(c, log[..k + 1], wbSz) == Do(d, st, wbSz) && Legal(d, st, wbSz) && !IsCall(st.e)
  {
    FirstOf(c, log, wbSz, k);
    ChainPrefix(c, log, wbSz, k);
    d, st := After(c, log[..k], wbSz), log[k];
  }

  /** At rest nothing is due. */
  lemma RestEnds(c: Config, log: seq<Step>, wbSz: nat, k: nat)
    requires 0 < k <= |log| && Chain(c, log, wbSz) && AtRest(After(c, log[..k], wbSz))
    ensures k == |log| && log[..k] == log
  {
    if k < |log| {
      ChainPrefix(c, log, wbSz, k);
      assert false;
    }
  }

  lemma PacketOutcome(c: Config, p: Answer, st: Step, wbSz: nat)
    requires c.s == SendingData && AtRest(c) && c.err == OK && p.Processed? && st.e == Entry
    ensures var d := Do(InSendingPacket(Packet(c), Write, p), st, wbSz);
            if p.err != OK then AtRest(d) && d.s == Aborted && d.err == p.err
            else if p.completed then Awaiting(d) && d.s == RecvingHeaders && d.await == Read && d.timed
            else AtRest(d) && d.s == SendingData && d.err == OK
  {
  }

  /** A data call returns success, with more data expected, if and only if the sender has taken its data without ending
      the body; the response is awaited if and only if it has ended it; and otherwise the connection is aborted with
      the code of the sender. */
  lemma DataCallExact(c: Config, log: seq<Step>, wbSz: nat)
    requires c.s == SendingData && Returned(c, CallDataSend, log, wbSz)
    ensures |log| >= 4 && log[2].a.Processed?
    ensures var (p, d, r) := (log[2].a, After(c, log[..4], wbSz), After(c, log, wbSz));
            && (r.s == SendingData && r.err == OK <==> p.err == OK && !p.completed)
            && (d.s == RecvingHeaders && d.await == Read && d.timed <==> p.err == OK && p.completed)
            && (p.err == OK && p.completed ==> r.err != OK)
            && (p.err != OK ==> r.s == Aborted && r.err == p.err)
  {
    hide After, Chain;
    DataCallBegins(c, log, wbSz);
    var p, d := log[2].a, After(c, log[..4], wbSz);
    PacketOutcome(c, p, log[3], wbSz);
    hide Do, InSendingPacket, Packet;
    if p.err == OK && p.completed {
      AwaitingRun(c, log, wbSz, 4);
    } else {
      RestEnds(c, log, wbSz, 4);
    }
  }

  // ---------------------------------------------------------------- how a request is sent

  /** The bytes that the socket has taken. */
  function Taken(log: seq<Step>): int {
    if log == [] then 0
    else
      var st := log[|log| - 1];
      Taken(log[..|log| - 1]) + if st.e == Write && st.a.Wrote? && st.a.n > 0 then st.a.n else 0
  }

  /** A request of which so much has been taken. */
  predicate Sending(c: Config, d: Config, taken: int) {
    && d.right == c.right && d.m == c.m && d.err == OK && !d.timed && 0 <= taken <= c.right
    && if d.s == HttpConnected then d == Ask(c, SendingHeaders) && taken == 0
       else d.s == d.nxt == SendingHeaders && d.left == taken && d.await == if d.left == d.right then Process else Write
  }

  lemma SendingStep(c: Config, d: Config, taken: int, st: Step, wbSz: nat)
    requires c.s == HttpConnected && c.left == 0 < c.right && Sending(c, d, taken) && Legal(d, st, wbSz)
    requires st.e in {Entry, Write} && (st.e == Write ==> st.a.Wrote? && st.a.n >= 0)
    ensures Do(d, st, wbSz).s == SendingHeaders
    ensures Sending(c, Do(d, st, wbSz), taken + if st.e == Write then st.a.n else 0)
  {
  }

  /** So far the request is being sent, and the socket has not failed. */
  predicate BeingSent(c: Config, log: seq<Step>, wbSz: nat, k: nat) {
    && c.s == HttpConnected && AtRest(c) && c.err == OK && c.left == 0 < c.right
    && Chain(c, log, wbSz) && 0 < k <= |log| && log[0].e == CallRequestProcess
    && forall i :: 0 < i < k ==> log[i].e in {Entry, Write} && (log[i].e == Write ==> log[i].a.Wrote? && log[i].a.n >= 0)
  }

  lemma RequestTaken(c: Config, st: Step, wbSz: nat)
    requires c.s == HttpConnected && AtRest(c) && st.e == CallRequestProcess
    ensures Do(c, st, wbSz) == Ask(c, SendingHeaders)
  {
  }

  lemma {:induction false} SendingRun(c: Config, log: seq<Step>, wbSz: nat, k: nat)
    requires BeingSent(c, log, wbSz, k)
    ensures k > 1 ==> After(c, log[..k], wbSz).s == SendingHeaders
    ensures Sending(c, After(c, log[..k], wbSz), Taken(log[..k]))
    decreases k
  {
    hide Chain, After, Handle, Legal, Do;
    ChainPrefix(c, log, wbSz, k - 1);
    assert log[..k][..k - 1] == log[..k - 1];
    if k == 1 {
      NoSteps(c, log, wbSz);
      RequestTaken(c, log[0], wbSz);
    } else {
      hide Sending, AtRest;
      SendingRun(c, log, wbSz, k - 1);
      SendingStep(c, After(c, log[..k - 1], wbSz), Taken(log[..k - 1]), log[k - 1], wbSz);
    }
  }

  /** The headers decide when the socket has taken the whole request, and not before. */
  lemma RequestSentWhole(c: Config, log: seq<Step>, wbSz: nat, k: nat)
    requires BeingSent(c, log, wbSz, k) && 1 < k < |log|
    ensures Taken(log[..k]) <= c.right && log[k].e == if Taken(log[..k]) == c.right then Process else Write
  {
    SendingRun(c, log, wbSz, k);
    ChainPrefix(c, log, wbSz, k);
    OnlyDue(After(c, log[..k], wbSz), log[k], wbSz);
  }

  /** The body of a request is framed in one way: by a well-formed length, or by a coding. */
  predicate Framed(a: Answer)
    requires a.RequestSays?
  {
    if a.length then !a.bad && !a.encoding else a.encoding
  }

  predicate NoBody(a: Answer)
    requires a.RequestSays?
  {
    a.length && !a.bad && a.size == 0
  }

  /** What the headers of a PUT or POST lead to: the body is asked for when it is framed and nothing is to be waited for
      first, a go-ahead or the response is awaited when that is asked for or there is no body, and anything else is
      refused. The sender is that of the framing. */
  lemma RequestDecides(c: Config, a: Answer, wbSz: nat)
    requires c.s == SendingHeaders && c.nxt == c.s && c.err == OK && Sends(c.m) && a.RequestSays?
    ensures var d := Handle(c, Process, a, wbSz);
            && (d.nxt == SendingData <==> Framed(a) && !NoBody(a) && !a.goAhead)
            && (d.nxt == RecvingHeaders <==> NoBody(a) || (Framed(a) && a.goAhead))
            && (d.nxt == Aborted <==> !NoBody(a) && !Framed(a))
            && d.err == (if d.nxt == SendingData then Status(100) else if d.nxt == Aborted then InvalidReqHeaders else OK)
            && (d.nxt != Aborted ==> d.out == (if a.length then OutRaw else OutChunked) && d.args == ArgsOf(d.out))
  {
  }

  /** Every other request is followed by its response. */
  lemma PlainRequestDecides(c: Config, a: Answer, wbSz: nat)
    requires c.s == SendingHeaders && c.nxt == c.s && !Sends(c.m)
    ensures Handle(c, Process, a, wbSz) == c.(nxt := RecvingHeaders)
  {
  }

  // ---------------------------------------------------------------- how a response is received

  /** What the headers of a response lead to. A length comes before a coding, and both before the status; HEAD has no
      body; and a lookup that did not fit its buffer is reported. */
  lemma ResponseDecides(c: Config, a: Answer, wbSz: nat)
    requires c.s == RecvingHeaders && c.nxt == c.s && c.err == OK && a.ResponseSays?
    ensures var d := Handle(c, Process, a, wbSz);
            var (sized, coded) := (a.found > 0, a.found < 0 && a.chunked > 0);
            var plain := a.found < 0 && a.chunked < 0;
            && (d.nxt == Aborted && d.err == TempBufSmall <==> a.found == 0 || (a.found < 0 && a.chunked == 0))
            && (d.nxt == Aborted && d.err == RespFormat <==> sized && a.bad && c.m != Head)
            && (d.nxt == HttpConnected && d.err == Status(c.code) <==> (sized || coded) && c.m == Head)
            && (d.nxt == WsConnected <==> plain && c.code == 101)
            && (d.nxt == SendingData <==> plain && c.code == 100 && Sends(c.m))
            && (d.nxt == RecvingData ==> d.inp == (if coded then InChunked else InRaw) && d.args == ArgsFor(d.inp))
            && (d.nxt == RecvingData <==> (((sized && !a.bad) || coded) && c.m != Head)
                                          || (plain && c.code != 101 && !(c.code == 100 && Sends(c.m))))
            && (d.nxt == WsConnected ==> d.inp == InWebsocket && d.args == ArgsFor(InWebsocket) && d.err == Status(101))
            && (d.nxt == SendingData ==> d.err == Status(100))
  {
  }

  // ---------------------------------------------------------------- what the codes tell

  /** The socket has failed. */
  predicate SocketFailed(a: Answer) {
    (a.Wrote? && a.n < 0) || (a.Received? && a.n < 0)
  }

  /** What a state may be subscribed to once entered. */
  predicate MayAwait(s: State, e: Event) {
    match s
    case SendingHeaders => e == Write || e == Process
    case RecvingHeaders => e == Read || e == Process
    case RecvingData => e == Read || e == Process
    case WsPolling => e == Read || e == Process
    case SendingPacket => e == Write
    case WsSendingFrame => e == Write
    case WsClosing => e == Write
    case _ => e == None
  }

  /** The states that handle a timeout of their own; the two that wait for a response always have one. */
  predicate TimerRight(s: State, timed: bool) {
    && (timed ==> s == RecvingHeaders || s == RecvingData || s == WsPolling)
    && (s == RecvingHeaders || s == RecvingData ==> timed)
  }

  /** A state between two events, in the middle of a call that has not failed. */
  predicate Midway(c: Config) {
    c.err == OK && c.nxt == c.s && MayAwait(c.s, c.await) && TimerRight(c.s, c.timed) && c.await != None
  }

  /** What each failure code is caused by, at the step that sets it. The codes of the processors are their own. */
  lemma SocketCauses(c: Config, st: Step, wbSz: nat)
    requires Midway(c) && Legal(c, st, wbSz)
    requires st.a.Processed? ==> st.a.err !in {Connection, RespTimeout}
    ensures var d := Do(c, st, wbSz);
            && (d.err == Connection && d.nxt == Disconnected <==> SocketFailed(st.a))
            && (d.err == RespTimeout <==> st.e == Timeout && c.s != WsPolling)
  {
    hide Shrunk;
  }

  lemma FormatCauses(c: Config, st: Step, wbSz: nat)
    requires Midway(c) && Legal(c, st, wbSz)
    requires st.a.Processed? ==> st.a.err !in {RespFormat, InvalidReqHeaders}
    ensures var d := Do(c, st, wbSz);
            && (d.err == InvalidReqHeaders <==> st.a.RequestSays? && !NoBody(st.a) && !Framed(st.a))
            && (d.err == RespFormat <==> (st.a.Received? && st.a.n > 0 && st.a.status < 0)
                                         || (st.a.ResponseSays? && st.a.found > 0 && st.a.bad && c.m != Head))
            && d.err != NotSupported
  {
    hide Shrunk;
  }

  /** The status of the response that has been read, 0 before one. */
  function LastStatus(log: seq<Step>): int {
    if log == [] then 0
    else
      var a := log[|log| - 1].a;
      if a.Received? && a.status > 0 then a.status else LastStatus(log[..|log| - 1])
  }

  /** A response has been read, and is in use. */
  predicate HasResponse(c: Config) {
    c.nxt == RecvingData || (c.s == RecvingHeaders && c.nxt == c.s && c.await == Process)
  }

  /** The states that wait for the application. */
  predicate Resting(s: State) {
    s in {Aborted, Disconnected, HttpConnected, SendingData, WsConnected}
  }

  /** In a call for a request: only its states, and a code only at its end. */
  predicate OnRequest(c: Config) {
    && c.nxt !in {WsPolling, WsSendingFrame, WsClosing} && (c.err != OK ==> Resting(c.nxt))
    && (c.nxt == c.s && Resting(c.s) ==> AtRest(c))
  }

  /** The code of a call in progress, and the status kept, are those of the response that was read. */
  predicate Tells(c: Config, last: int) {
    && OnRequest(c)
    && (c.err.Status? ==> c.err.code == if last == 0 then 100 else last)
    && (c.err == OK && HasResponse(c) ==> last == c.code > 0)
    && (c.err == OK && !HasResponse(c) ==> last == 0)
  }

  lemma TellsStep(c: Config, st: Step, last: int, wbSz: nat)
    requires Tells(c, last) && Legal(c, st, wbSz) && !IsCall(st.e)
    ensures Tells(Do(c, st, wbSz), if st.a.Received? && st.a.status > 0 then st.a.status else last)
  {
    hide Shrunk;
  }

  lemma TellsCall(c: Config, st: Step, wbSz: nat)
    requires AtRest(c) && c.err == OK && Legal(c, st, wbSz)
    requires (c.s == HttpConnected && st.e == CallRequestProcess) || (c.s == SendingData && st.e == CallDataSend)
    ensures Tells(Do(c, st, wbSz), 0) && st.a.Silent?
  {
  }

  lemma {:induction false} TellsRun(c: Config, log: seq<Step>, wbSz: nat)
    requires AtRest(c) && c.err == OK && Chain(c, log, wbSz) && log != []
    requires (c.s == HttpConnected && log[0].e == CallRequestProcess) || (c.s == SendingData && log[0].e == CallDataSend)
    ensures Tells(After(c, log, wbSz), LastStatus(log))
  {
    hide Tells, Do, Legal, AtRest, Handle;
    var n := |log| - 1;
    NoSteps(c, log, wbSz);
    ChainPrefix(c, log, wbSz, n);
    assert log[..n + 1] == log;
    if n == 0 {
      TellsCall(c, log[0], wbSz);
    } else {
      TellsRun(c, log[..n], wbSz);
      TellsStep(After(c, log[..n], wbSz), log[n], LastStatus(log[..n]), wbSz);
    }
  }

  /** A status that a request or data call returns is that of the response read during the call, or 100 when none
      was read. */
  lemma StatusIsRead(c: Config, call: Event, log: seq<Step>, wbSz: nat)
    requires (c.s == HttpConnected && call == CallRequestProcess) || (c.s == SendingData && call == CallDataSend)
    requires Returned(c, call, log, wbSz)
    ensures var err := After(c, log, wbSz).err; err.Status? ==> err.code == if LastStatus(log) == 0 then 100 else LastStatus(log)
  {
    hide After, Chain, AtRest;
    TellsRun(c, log, wbSz);
  }

  // ---------------------------------------------------------------- the websocket calls

  /** Sending a frame or closing: what becomes of the connection is what became of the frame. */
  lemma FrameCallExact(c: Config, call: Event, log: seq<Step>, wbSz: nat)
    requires c.s == WsConnected && call in {CallWsFrameSend, CallWsClose} && Returned(c, call, log, wbSz)
    ensures |log| == 4 && log[2].a.FrameSent? && After(c, log, wbSz).err == OK
    ensures After(c, log, wbSz).s ==
            if !log[2].a.ok then Aborted else if call == CallWsFrameSend then WsConnected else Disconnected
  {
    hide After, Chain, Handle, Legal, Do, AtRest;
    NoSteps(c, log, wbSz);
    ChainPrefix(c, log, wbSz, 0);
    var target := if call == CallWsFrameSend then WsSendingFrame else WsClosing;
    FrameTaken(c, log[0], target, wbSz);
    var _, st1 := NextOf(c, log, wbSz, 1);
    FrameEntered(c, st1, target, wbSz);
    var _, st2 := NextOf(c, log, wbSz, 2);
    FrameAnswered(c, st2, target, wbSz);
    var d3, st3 := NextOf(c, log, wbSz, 3);
    FrameLeft(c, st2.a, st3, target, wbSz);
    RestEnds(c, log, wbSz, 4);
  }

  function Framing(c: Config, target: State): Config {
    c.(s := target, nxt := target, await := Write)
  }

  lemma FrameTaken(c: Config, st: Step, target: State, wbSz: nat)
    requires c.s == WsConnected && AtRest(c)
    requires (st.e == CallWsFrameSend && target == WsSendingFrame) || (st.e == CallWsClose && target == WsClosing)
    ensures Do(c, st, wbSz) == Ask(c, target) && !AtRest(Ask(c, target)) && !AtRest(Framing(c, target))
  {
  }

  lemma FrameEntered(c: Config, st: Step, target: State, wbSz: nat)
    requires c.s == WsConnected && AtRest(c) && target in {WsSendingFrame, WsClosing}
    requires Legal(Ask(c, target), st, wbSz) && !IsCall(st.e)
    ensures Do(Ask(c, target), st, wbSz) == Framing(c, target)
  {
  }

  lemma FrameAnswered(c: Config, st: Step, target: State, wbSz: nat)
    requires c.s == WsConnected && AtRest(c) && target in {WsSendingFrame, WsClosing}
    requires Legal(Framing(c, target), st, wbSz) && !IsCall(st.e)
    ensures st.e == Write && st.a.FrameSent?
    ensures Do(Framing(c, target), st, wbSz) == InWsSending(Framing(c, target), Write, st.a)
    ensures !AtRest(InWsSending(Framing(c, target), Write, st.a))
  {
  }

  lemma FrameLeft(c: Config, a: Answer, st: Step, target: State, wbSz: nat)
    requires c.s == WsConnected && AtRest(c) && c.err == OK && target in {WsSendingFrame, WsClosing} && a.FrameSent?
    requires Legal(InWsSending(Framing(c, target), Write, a), st, wbSz)
    ensures var d := Do(InWsSending(Framing(c, target), Write, a), st, wbSz);
            && AtRest(d) && d.err == OK
            && d.s == if !a.ok then Aborted else if target == WsSendingFrame then WsConnected else Disconnected
  {
  }

  // ---------------------------------------------------------------- building a run

  lemma Extend(c: Config, log: seq<Step>, st: Step, wbSz: nat)
    requires Chain(c, log, wbSz) && Legal(After(c, log, wbSz), st, wbSz) && (IsCall(st.e) <==> log == [])
    ensures Chain(c, log + [st], wbSz) && After(c, log + [st], wbSz) == Do(After(c, log, wbSz), st, wbSz)
  {
    hide Do, Legal;
    assert (log + [st])[..|log|] == log;
  }
}
