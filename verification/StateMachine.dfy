/** The event-driven state machine of the mango client. The socket, the clock, the response headers and the
    data processors give whatever they like, and the machine does with it what MachineModel says; every MANGO_ENSURE
    of the machine is an assertion here. */
module StateMachine {
  import opened Bytes
  import HttpResponse
  import opened MachineModel

  function Token(m: Method): bytes {
    match m
    case Get => [71, 69, 84, 32]
    case Head => [72, 69, 65, 68, 32]
    case Post => [80, 79, 83, 84, 32]
    case Put => [80, 85, 84, 32]
    case Unsupported => []
  }

  const END_OF_LINE: bytes := [32, 72, 84, 84, 80, 47, 49, 46, 49, 13, 10, 13, 10]

  function RequestLine(m: Method, uri: bytes): bytes {
    Token(m) + uri[..|uri| % 0x1_0000] + END_OF_LINE
  }

  // ---------------------------------------------------------------- the transitions

  /** The two states a connection does not leave. */
  predicate Lost(s: State) {
    s == Aborted || s == Disconnected
  }

  /** A call the state does not take, and the entry of a state that waits for the application. */
  predicate Refuses(s: State, e: Event, was: Err, t: State, err: Err) {
    t == s && err == if e == Entry then was else NotSupported
  }

  /** The request has been sent. */
  predicate HeadersSent(was: Err, t: State, err: Err, m: Method) {
    || (t == RecvingHeaders && err == was)
    || ((m == Put || m == Post) && t == SendingData && err == Status(100))
    || ((m == Put || m == Post) && t == Aborted && err == InvalidReqHeaders)
  }

  /** The headers of a response have been received. */
  predicate HeadersReceived(was: Err, t: State, err: Err, m: Method, code: nat) {
    || (t == RecvingData && err == was)
    || (t == HttpConnected && m == Head && err == Status(code))
    || (t == WsConnected && code == 101 && err == Status(101))
    || (t == SendingData && code == 100 && (m == Put || m == Post) && err == Status(100))
    || (t == Aborted && err in {TempBufSmall, RespFormat})
  }

  /** State `s` takes event `e` to state `t`, and exit code `was` to `err`. */
  predicate Moves(s: State, e: Event, was: Err, t: State, err: Err, m: Method, code: nat) {
    var stays := t == s && err == was;
    var dropped := t == Disconnected && err == Connection;
    match s
    case Aborted => t == s && err == if e == Entry then was else AbortedErr
    case Disconnected => t == s && err == if e == Entry then was else Connection
    case HttpConnected =>
      if e == CallRequestProcess then t == SendingHeaders && err == was else Refuses(s, e, was, t, err)
    case SendingData =>
      if e == CallDataSend then t == SendingPacket && err == was else Refuses(s, e, was, t, err)
    case WsConnected => (
      match e
      case CallWsPoll => t == WsPolling && err == was
      case CallWsFrameSend => t == WsSendingFrame && err == was
      case CallWsClose => t == WsClosing && err == was
      case _ => Refuses(s, e, was, t, err))
    case SendingHeaders =>
      if e == Process then HeadersSent(was, t, err, m) else stays || (e == Write && dropped)
    case RecvingHeaders => (
      match e
      case Read => stays || dropped || (t == Aborted && err in {RespFormat, WorkBufSmall})
      case Process => HeadersReceived(was, t, err, m, code)
      case Timeout => t == Aborted && err == RespTimeout
      case _ => stays)
    case RecvingData => (
      match e
      case Read => stays || dropped
      case Process => stays || (t == Aborted && Failure(err)) || (t == HttpConnected && err == Status(code))
      case Timeout => t == Aborted && err == RespTimeout
      case _ => stays)
    case SendingPacket =>
      if e == Write then (t == Aborted && Failure(err)) || (t in {RecvingHeaders, SendingData} && err == was) else stays
    case WsPolling => (
      match e
      case Read => stays || dropped
      case Timeout => t == WsConnected && err == was
      case _ => stays || (Lost(t) && Failure(err)))
    case WsSendingFrame => if e == Write then t in {WsConnected, Aborted} && err == was else stays
    case WsClosing => if e == Write then t in {Disconnected, Aborted} && err == was else stays
  }

  /** An event and the entries it leads to. */
  predicate Leads(s: State, e: Event, was: Err, t: State, err: Err, m: Method, code: nat) {
    || Moves(s, e, was, t, err, m, code)
    || (s == WsConnected && e == CallWsPoll && Moves(WsPolling, Entry, was, t, err, m, code))
  }

  /** What the model says is one of these moves. */
  lemma HandleMoves(c: Config, e: Event, a: Answer, wbSz: nat)
    requires c.nxt == c.s && Answers(c, e, a, wbSz)
    ensures var d := Handle(c, e, a, wbSz);
            && d.s == c.s && d.m == c.m && Moves(c.s, e, c.err, d.nxt, d.err, c.m, d.code)
            && (d.code == c.code || (c.s == RecvingHeaders && e == Read))
  {
    if c.s in {SendingHeaders, SendingPacket, RecvingHeaders} {
      OutwardMoves(c, e, a, wbSz);
    } else {
      OtherMoves(c, e, a, wbSz);
    }
  }

  lemma OutwardMoves(c: Config, e: Event, a: Answer, wbSz: nat)
    requires c.s in {SendingHeaders, SendingPacket, RecvingHeaders} && c.nxt == c.s && Answers(c, e, a, wbSz)
    ensures var d := Handle(c, e, a, wbSz);
            && d.s == c.s && d.m == c.m && Moves(c.s, e, c.err, d.nxt, d.err, c.m, d.code)
            && (d.code == c.code || (c.s == RecvingHeaders && e == Read))
  {
  }

  lemma OtherMoves(c: Config, e: Event, a: Answer, wbSz: nat)
    requires c.s !in {SendingHeaders, SendingPacket, RecvingHeaders} && c.nxt == c.s && Answers(c, e, a, wbSz)
    ensures var d := Handle(c, e, a, wbSz);
            && d.s == c.s && d.m == c.m && Moves(c.s, e, c.err, d.nxt, d.err, c.m, d.code)
            && d.code == c.code
  {
    hide Shrunk;
  }

  /** Entering a state keeps it, except that polling may end at once. */
  lemma EntryMoves(s: State, was: Err, t: State, err: Err, m: Method, code: nat)
    requires Moves(s, Entry, was, t, err, m, code)
    ensures (t == s && err == was) || (s == WsPolling && Lost(t))
  {
  }

  lemma ToPolling(s: State, e: Event, was: Err, err: Err, m: Method, code: nat)
    requires Moves(s, e, was, WsPolling, err, m, code) && s != WsPolling
    ensures s == WsConnected && e == CallWsPoll && err == was
  {
  }

  // ---------------------------------------------------------------- what a call reports

  /** A request has been answered, or the connection has been lost over it. */
  predicate Answered(s: State, err: Err, code: nat) {
    match s
    case Aborted => Failure(err)
    case Disconnected => Failure(err)
    case HttpConnected => err == Status(code) && 100 <= code < 600
    case SendingData => err == Status(100)
    case WsConnected => err == Status(101)
    case _ => false
  }

  /** Call `call`, made in state `from`, has brought the machine to state `s` and exit code `err`. */
  predicate InCall(from: State, call: Event, s: State, err: Err, code: nat) {
    match from
    case Aborted => s == from && err == AbortedErr
    case Disconnected => s == from && err == Connection
    case HttpConnected =>
      if call == CallRequestProcess then
        Answered(s, err, code) || (s in {SendingHeaders, RecvingHeaders, RecvingData} && err == OK)
      else s == from && err == NotSupported
    case SendingData =>
      if call == CallDataSend then
        Answered(s, err, code) || (s in {SendingData, SendingPacket, RecvingHeaders, RecvingData} && err == OK)
      else s == from && err == NotSupported
    case WsConnected => (
      match call
      case CallWsPoll => (s in {WsConnected, WsPolling} && err == OK) || (Lost(s) && Failure(err))
      case CallWsFrameSend => s in {WsConnected, WsSendingFrame, Aborted} && err == OK
      case CallWsClose => s in {Disconnected, WsClosing, Aborted} && err == OK
      case _ => s == from && err == NotSupported)
    case _ => false
  }

  /** One call that has returned. */
  datatype Outcome = Outcome(from: State, call: Event, to: State, err: Err, code: nat) {
    predicate Reported() {
      Resting(from) && Resting(to) && IsCall(call) && InCall(from, call, to, err, code)
    }
  }

  predicate History(log: seq<Outcome>) {
    && (forall i :: 0 <= i < |log| ==> log[i].Reported())
    && forall i :: 0 < i < |log| ==> log[i - 1].to == log[i].from
  }

  lemma CallStarts(from: State, call: Event, t: State, err: Err, m: Method, code: nat)
    requires Resting(from) && IsCall(call) && Leads(from, call, OK, t, err, m, code)
    ensures InCall(from, call, t, err, code)
  {
    hide Moves, InCall;
    if from == WsConnected && call == CallWsPoll && !Moves(from, call, OK, t, err, m, code) {
      FirstPoll(t, err, m, code);
    } else if from == WsConnected {
      FirstWsMove(call, t, err, m, code);
    } else {
      FirstMove(from, call, t, err, m, code);
    }
  }

  lemma FirstMove(from: State, call: Event, t: State, err: Err, m: Method, code: nat)
    requires from != WsConnected && Resting(from) && IsCall(call) && Moves(from, call, OK, t, err, m, code)
    ensures InCall(from, call, t, err, code)
  {
    hide Answered, HeadersSent, HeadersReceived;
  }

  lemma FirstWsMove(call: Event, t: State, err: Err, m: Method, code: nat)
    requires IsCall(call) && Moves(WsConnected, call, OK, t, err, m, code)
    ensures InCall(WsConnected, call, t, err, code)
  {
    hide Answered, HeadersSent, HeadersReceived;
  }

  lemma FirstPoll(t: State, err: Err, m: Method, code: nat)
    requires Moves(WsPolling, Entry, OK, t, err, m, code)
    ensures InCall(WsConnected, CallWsPoll, t, err, code)
  {
    hide Answered, HeadersSent, HeadersReceived;
  }

  /** The states in which a request is on its way. */
  predicate Underway(s: State) {
    s in {SendingHeaders, SendingPacket, RecvingHeaders, RecvingData}
  }

  lemma RequestContinues(s: State, e: Event, t: State, err: Err, m: Method, code: nat)
    requires Underway(s) && e in {Read, Write, Process, Timeout}
    requires Moves(s, e, OK, t, err, m, code) && (t == HttpConnected ==> 100 <= code < 600)
    ensures Answered(t, err, code) || (err == OK && (t == s || t in {RecvingHeaders, RecvingData}))
            || (err == OK && s == SendingPacket && t == SendingData)
  {
  }

  lemma WsContinues(call: Event, s: State, e: Event, t: State, err: Err, m: Method, code0: nat, code: nat)
    requires s in {WsPolling, WsSendingFrame, WsClosing} && e in {Read, Write, Process, Timeout}
    requires Moves(s, e, OK, t, err, m, code) && InCall(WsConnected, call, s, OK, code0)
    ensures InCall(WsConnected, call, t, err, code)
  {
  }

  lemma CallContinues(from: State, call: Event, s: State, e: Event, was: Err, t: State, err: Err, m: Method,
                      code0: nat, code: nat)
    requires InCall(from, call, s, was, code0) && !Resting(s) && e in {Read, Write, Process, Timeout}
    requires Leads(s, e, was, t, err, m, code) && (t == HttpConnected ==> 100 <= code < 600)
    ensures InCall(from, call, t, err, code)
  {
    hide Moves, InCall;
    Busy(from, call, s, was, code0);
    if Underway(s) {
      RequestContinues(s, e, t, err, m, code);
      StillInCall(from, call, s, t, err, code);
    } else {
      WsContinues(call, s, e, t, err, m, code0, code);
    }
  }

  /** A machine in the middle of a call. */
  lemma Busy(from: State, call: Event, s: State, was: Err, code: nat)
    requires InCall(from, call, s, was, code) && !Resting(s)
    ensures was == OK
    ensures if Underway(s) then (from == HttpConnected && call == CallRequestProcess && s != SendingPacket)
                                || (from == SendingData && call == CallDataSend && s != SendingHeaders)
            else from == WsConnected
  {
  }

  lemma StillInCall(from: State, call: Event, s: State, t: State, err: Err, code: nat)
    requires (from == HttpConnected && call == CallRequestProcess && s != SendingPacket)
             || (from == SendingData && call == CallDataSend && s != SendingHeaders)
    requires Answered(t, err, code) || (err == OK && Underway(s) && (t == s || t in {RecvingHeaders, RecvingData}))
             || (err == OK && s == SendingPacket && t == SendingData)
    ensures InCall(from, call, t, err, code)
  {
  }

  /** What the returned code says of the connection, in every state that is not lost already: the two calls that
      send a frame of their own lose the connection without saying so. */
  lemma LossReported(o: Outcome)
    requires o.Reported() && !Lost(o.from)
    ensures Failure(o.err) <==> Lost(o.to) && !(o.from == WsConnected && o.call in {CallWsFrameSend, CallWsClose})
    ensures o.err.Status? ==> !Lost(o.to) && 100 <= o.err.code < 600
    ensures o.err == NotSupported ==> o.to == o.from
    ensures o.from == WsConnected && o.call in {CallWsFrameSend, CallWsClose} ==> o.err == OK
  {
    match o.from {
      case WsConnected =>
        match o.call { case CallWsPoll => case CallWsFrameSend => case CallWsClose => case _ => }
      case _ =>
    }
  }

  /** Once lost, every later call fails, whatever is called. */
  lemma {:induction false} LostForGood(log: seq<Outcome>, i: nat, j: nat)
    requires History(log) && i <= j < |log| && Lost(log[i].from)
    ensures log[j].to == log[j].from == log[i].from && Failure(log[j].err)
    decreases j
  {
    if i < j {
      LostForGood(log, i, j - 1);
    }
    assert log[j].Reported();
  }

  class Machine {
    const wbSz: nat                 // MANGO_WB_TOT_SZ
    var curState: State
    var nxtState: State
    var subscribedEvent: Event
    var timed: bool                 // smTimeout is not infinite
    var exitError: Err
    var left: nat
    var right: nat
    var httpMethod: Method
    var httpResponseStatusCode: nat
    var outputDataProcessor: OutputProcessor
    var inputDataProcessor: InputProcessor
    var dataProcessorArgs: ProcessorArgs
    var apiArgs: ApiArgs

    // -------------------------------------------------------------- the invariant

    ghost predicate Buffers()
      reads this
    {
      left <= right <= wbSz && wbSz >= 1
    }

    predicate Sends()
      reads this
    {
      httpMethod == Put || httpMethod == Post
    }

    /** The arguments are those of the attached output processor. */
    ghost predicate OutputReady()
      reads this
    {
      outputDataProcessor != NoOutput && dataProcessorArgs == ArgsOf(outputDataProcessor)
    }

    ghost predicate InputReady()
      reads this
    {
      inputDataProcessor != NoInput && dataProcessorArgs == ArgsFor(inputDataProcessor)
    }

    predicate HasStatus()
      reads this
    {
      100 <= httpResponseStatusCode < 600
    }

    /** What holds in a state. */
    ghost predicate Holds(s: State)
      reads this
    {
      match s
      case SendingHeaders => httpMethod != Unsupported
      case RecvingHeaders => Sends() ==> OutputReady()
      case RecvingData => InputReady() && inputDataProcessor != InWebsocket && HasStatus()
      case SendingData => OutputReady()
      case SendingPacket => OutputReady() && apiArgs == DataSendArgs
      case WsConnected => InputReady() && inputDataProcessor == InWebsocket
      case WsPolling => InputReady() && inputDataProcessor == InWebsocket && apiArgs == WsPollArgs
      case WsSendingFrame => InputReady() && inputDataProcessor == InWebsocket && apiArgs == WsFrameSendArgs
      case WsClosing => InputReady() && inputDataProcessor == InWebsocket
      case _ => true
    }

    /** What must hold for a state to be entered. */
    ghost predicate Enterable(s: State)
      reads this
    {
      Holds(s) && (s == SendingHeaders ==> left == 0 && right > 0)
    }

    /** In a state that has been entered. */
    ghost predicate Waits()
      reads this
    {
      && Holds(curState) && MayAwait(curState, subscribedEvent) && TimerRight(curState, timed)
      && (curState == RecvingHeaders && subscribedEvent == Process ==> HasStatus())
    }

    /** In a state, between two events. */
    ghost predicate Inv()
      reads this
    {
      Buffers() && nxtState == curState && Waits()
    }

    /** An event that can reach the current state. */
    ghost predicate Expected(event: Event)
      reads this
    {
      if event == Entry then Enterable(curState) && subscribedEvent == None && !timed
      else
        && Waits()
        && match event
           case Read => subscribedEvent == Read
           case Write => subscribedEvent == Write
           case Process => subscribedEvent == Process
           case Timeout => timed
           case _ => IsCall(event) && Resting(curState) && CallArgs(event)
    }

    /** The arguments of a call have been put in place, and a request has been built before it is processed. */
    ghost predicate CallArgs(event: Event)
      reads this
    {
      match event
      case CallRequestProcess => curState == HttpConnected ==> httpMethod != Unsupported && left == 0 && right > 0
      case CallDataSend => apiArgs == DataSendArgs
      case CallWsPoll => apiArgs == WsPollArgs
      case CallWsFrameSend => apiArgs == WsFrameSendArgs
      case _ => true
    }

    function Cfg(): Config
      reads this
    {
      Config(curState, nxtState, subscribedEvent, timed, exitError, left, right, httpMethod, httpResponseStatusCode,
             outputDataProcessor, inputDataProcessor, dataProcessorArgs, apiArgs)
    }

    /** The handler has had such an answer, and has done what the model says. */
    predicate Reacts(c: Config, d: Config, event: Event, a: Answer) {
      Answers(c, event, a, wbSz) && d == Handle(c, event, a, wbSz)
    }

    /** A handler does what the model says, and either stays, in order, or asks for a state that can be entered. */
    twostate predicate Handled(event: Event, a: Answer)
      reads this
    {
      && Reacts(old(Cfg()), Cfg(), event, a)
      && Buffers() && (nxtState == curState ==> Inv()) && (nxtState != curState ==> Enterable(nxtState))
    }

    // -------------------------------------------------------------- helpers

    constructor (wbSz: nat)
      requires wbSz >= 1
      ensures Inv() && Resting(curState) && curState == HttpConnected
    {
      this.wbSz := wbSz;
      curState, nxtState, subscribedEvent, timed := HttpConnected, HttpConnected, None, false;
      exitError, left, right, httpMethod, httpResponseStatusCode := OK, 0, 0, Unsupported, 0;
      outputDataProcessor, inputDataProcessor, dataProcessorArgs, apiArgs := NoOutput, NoInput, NoArgs, NoApiArgs;
    }

    /** mangoSM_ENTER */
    method Enter(s: State)
      requires curState != s
      modifies this`nxtState
      ensures nxtState == s
    {
      assert curState != s;
      nxtState := s;
    }

    /** mangoSM_SUBSCRIBE */
    method Subscribe(e: Event)
      requires e in {Process, Read, Write}
      modifies this`subscribedEvent
      ensures subscribedEvent == e
    {
      match e {
        case Process => subscribedEvent := e;
        case Read => subscribedEvent := e;
        case Write => subscribedEvent := e;
        case _ => assert false;
      }
    }

    /** A read into the free part of the working buffer, or a write from the used one: an error, or as many
        bytes as there was room or use for. */
    method Transfer(max: nat) returns (retval: int)
      ensures retval <= max
    {
      retval := *;
      if retval > max {
        retval := max;
      }
    }

    /** mangoWB_shrink */
    method Shrink()
      requires Buffers()
      modifies this`left, this`right
      ensures left == 0 && right == old(right - left)
    {
      assert right <= wbSz;
      assert left <= right;
      left, right := 0, right - left;
    }

    /** What a data processor does with `used` bytes. */
    method CallProcessor(used: nat) returns (err: Err, processed: nat, completed: bool)
      ensures processed <= used && (err == OK || Failure(err))
    {
      err, processed, completed := *, *, *;
      if err != OK && !Failure(err) {
        err := OtherErr;
      }
      if processed > used {
        processed := used;
      }
    }

    // -------------------------------------------------------------- the states

    method OnFinal(event: Event) returns (a: Answer)
      requires curState in {Aborted, Disconnected} && Buffers() && nxtState == curState && Expected(event)
      modifies this
      ensures Handled(event, a)
    {
      hide InSendingHeaders, InRecvingHeaders, InRecvingData, InSendingPacket, InWsPolling, InWsSending;
      a := Silent;
      match event {
        case Entry =>
        case CallRequestProcess => exitError := if curState == Aborted then AbortedErr else Connection;
        case CallDataSend => exitError := if curState == Aborted then AbortedErr else Connection;
        case CallWsPoll => exitError := if curState == Aborted then AbortedErr else Connection;
        case CallWsFrameSend => exitError := if curState == Aborted then AbortedErr else Connection;
        case CallWsClose => exitError := if curState == Aborted then AbortedErr else Connection;
        case _ => assert false;
      }
    }

    method OnHttpConnected(event: Event) returns (a: Answer)
      requires curState == HttpConnected && Buffers() && nxtState == curState && Expected(event)
      modifies this
      ensures Handled(event, a)
    {
      hide InSendingHeaders, InRecvingHeaders, InRecvingData, InSendingPacket, InWsPolling, InWsSending;
      a := Silent;
      match event {
        case Entry => left, right := 0, 0;
        case CallRequestProcess => Enter(SendingHeaders);
        case CallDataSend => exitError := NotSupported;
        case CallWsPoll => exitError := NotSupported;
        case CallWsFrameSend => exitError := NotSupported;
        case CallWsClose => exitError := NotSupported;
        case _ => assert false;
      }
    }

    method OnSendingHeaders(event: Event) returns (a: Answer)
      requires curState == SendingHeaders && Buffers() && nxtState == curState && Expected(event)
      modifies this
      ensures Handled(event, a)
    {
      hide InRecvingHeaders, InRecvingData, InSendingPacket, InWsPolling, InWsSending;
      a := Silent;
      match event {
        case Entry =>
          assert left == 0;
          assert right > 0;
          Subscribe(Write);
        case Write =>
          var retval := Transfer(right - left);
          a := Wrote(retval);
          if retval < 0 {
            exitError := Connection;
            Enter(Disconnected);
            return;
          }
          left := left + retval;
          assert left <= right;
          if left == right {
            Subscribe(Process);
          }
        case Process =>
          match httpMethod {
            case Head => Enter(RecvingHeaders);
            case Get => Enter(RecvingHeaders);
            case Put => a := AttachOutput();
            case Post => a := AttachOutput();
            case _ => assert false;
          }
        case _ => assert false;
      }
    }

    /** The headers of a PUT or POST decide how the body is sent. */
    method AttachOutput() returns (a: Answer)
      requires curState == SendingHeaders && nxtState == curState && Sends()
      modifies this`nxtState, this`exitError, this`outputDataProcessor, this`dataProcessorArgs
      ensures a.RequestSays? && Cfg() == Attached(old(Cfg()), a) && nxtState != curState && Enterable(nxtState)
    {
      hide InRecvingHeaders, InRecvingData, InSendingPacket, InWsPolling, InWsSending;
      outputDataProcessor := NoOutput;
      dataProcessorArgs := NoArgs;
      var contentLength: bool, badLength: bool, fileSz: nat, transferEncoding: bool, expected: bool := *, *, *, *, *;
      a := RequestSays(contentLength, badLength, fileSz, transferEncoding, expected);
      if contentLength {
        outputDataProcessor := OutRaw;
        if badLength {
          exitError := InvalidReqHeaders;
          Enter(Aborted);
          return;
        }
        dataProcessorArgs := ArgsOf(OutRaw);
        if fileSz == 0 {
          Enter(RecvingHeaders);
          return;
        }
      }
      if transferEncoding {
        if outputDataProcessor != NoOutput {
          exitError := InvalidReqHeaders;
          Enter(Aborted);
          return;
        }
        outputDataProcessor := OutChunked;
        dataProcessorArgs := ArgsOf(OutChunked);
      }
      if outputDataProcessor == NoOutput {
        exitError := InvalidReqHeaders;
        Enter(Aborted);
        return;
      }
      if !expected {
        exitError := Status(100);
        Enter(SendingData);
      } else {
        Enter(RecvingHeaders);
      }
    }

    method OnRecvingHeaders(event: Event) returns (a: Answer)
      requires curState == RecvingHeaders && Buffers() && nxtState == curState && Expected(event)
      modifies this
      ensures Handled(event, a)
    {
      hide InSendingHeaders, InRecvingData, InSendingPacket, InWsPolling, InWsSending;
      a := Silent;
      match event {
        case Entry =>
          timed := true;
          Subscribe(Read);
          left, right := 0, 0;
        case Read =>
          var retval := Transfer(wbSz - right);
          a := Received(retval, 0, 0);
          if retval < 0 {
            exitError := Connection;
            Enter(Disconnected);
          } else if retval > 0 {
            right := right + retval;
            var status, end := VerifyResponse();
            a := Received(retval, status, end);
          }
        case Process =>
          a := AttachInput();
        case Timeout =>
          exitError := RespTimeout;
          Enter(Aborted);
        case _ => assert false;
      }
    }

    /** What mangoHelper_httpReponseVerify says of the text in the buffer, whatever that is, up to its first NUL. */
    method VerifyResponse() returns (status: int, end: nat)
      requires curState == RecvingHeaders && nxtState == curState && right > 0 && Buffers() && Expected(Read)
      modifies this`nxtState, this`exitError, this`subscribedEvent, this`left, this`httpResponseStatusCode
      ensures Cfg() == Verified(old(Cfg()), status, end, wbSz) && Buffers()
      ensures status > 0 ==> 100 <= status < 600 && end <= right
    {
      var text: bytes := *;
      if |text| > right || exists i :: 0 <= i < |text| && text[i] == 0 {
        text := [];
      }
      status, end := HttpResponse.Verify(text);
      if status < 0 {
        exitError := RespFormat;
        Enter(Aborted);
      } else if status == 0 {
        if wbSz - right == 0 {
          exitError := WorkBufSmall;
          Enter(Aborted);
        }
      } else {
        httpResponseStatusCode := status;
        left := end;
        Subscribe(Process);
      }
    }

    /** The headers of the response decide how its body is received. */
    method AttachInput() returns (a: Answer)
      requires curState == RecvingHeaders && nxtState == curState && HasStatus() && (Sends() ==> OutputReady())
      modifies this`nxtState, this`exitError, this`inputDataProcessor, this`dataProcessorArgs
      ensures a.ResponseSays? && Cfg() == Responded(old(Cfg()), a) && nxtState != curState && Enterable(nxtState)
    {
      hide InSendingHeaders, InRecvingData, InSendingPacket, InWsPolling, InWsSending;
      var contentLength: int, badLength: bool, transferEncoding: int, icy: bool := *, *, *, *;
      a := ResponseSays(contentLength, badLength, transferEncoding, icy);
      if contentLength == 0 {
        exitError := TempBufSmall;
        Enter(Aborted);
        return;
      } else if contentLength > 0 {
        if httpMethod != Head {
          inputDataProcessor := InRaw;
          if badLength {
            exitError := RespFormat;
            Enter(Aborted);
            return;
          }
          dataProcessorArgs := ArgsFor(InRaw);
          Enter(RecvingData);
        } else {
          exitError := Status(httpResponseStatusCode);
          Enter(HttpConnected);
        }
        return;
      }
      if transferEncoding == 0 {
        exitError := TempBufSmall;
        Enter(Aborted);
        return;
      } else if transferEncoding > 0 {
        if httpMethod != Head {
          inputDataProcessor := InChunked;
          dataProcessorArgs := ArgsFor(InChunked);
          Enter(RecvingData);
        } else {
          exitError := Status(httpResponseStatusCode);
          Enter(HttpConnected);
        }
        return;
      }
      AttachSpecial(a);
    }

    /** Responses without a length: a stream, websockets, a go-ahead for the body, or no body. */
    method AttachSpecial(a: Answer)
      requires curState == RecvingHeaders && nxtState == curState && HasStatus() && (Sends() ==> OutputReady())
      requires a.ResponseSays? && a.found < 0 && a.chunked < 0
      modifies this`nxtState, this`exitError, this`inputDataProcessor, this`dataProcessorArgs
      ensures a.ResponseSays? && Cfg() == Responded(old(Cfg()), a) && nxtState != curState && Enterable(nxtState)
    {
      hide InSendingHeaders, InRecvingData, InSendingPacket, InWsPolling, InWsSending;
      if httpResponseStatusCode == 200 && a.icy {
        inputDataProcessor := InRaw;
        dataProcessorArgs := ArgsFor(InRaw);
        Enter(RecvingData);
        return;
      }
      if httpResponseStatusCode == 101 {
        inputDataProcessor := InWebsocket;
        dataProcessorArgs := ArgsFor(InWebsocket);
        exitError := Status(101);
        Enter(WsConnected);
        return;
      }
      if httpResponseStatusCode == 100 && Sends() {
        exitError := Status(100);
        Enter(SendingData);
        return;
      }
      inputDataProcessor := InRaw;
      dataProcessorArgs := ArgsFor(InRaw);
      Enter(RecvingData);
    }

    method OnRecvingData(event: Event) returns (a: Answer)
      requires curState == RecvingData && Buffers() && nxtState == curState && Expected(event)
      modifies this
      ensures Handled(event, a)
    {
      hide InSendingHeaders, InRecvingHeaders, InSendingPacket, InWsPolling, InWsSending;
      a := Silent;
      match event {
        case Entry =>
          timed := true;
          Subscribe(Process);
          Shrink();
        case Read =>
          a := ReadMore();
        case Process =>
          assert dataProcessorArgs == ArgsFor(inputDataProcessor);
          var err, processed, completed := CallProcessor(right - left);
          a := Processed(err, processed, completed);
          if err == OK && completed {
            exitError := Status(httpResponseStatusCode);
            Enter(HttpConnected);
          } else {
            Consume(err, processed);
          }
        case Timeout =>
          exitError := RespTimeout;
          Enter(Aborted);
        case _ => assert false;
      }
    }

    /** What the two states that receive make of a processor that is not done: it needs more than the buffer holds, has
        failed, or has taken some of it. */
    method Consume(err: Err, processed: nat)
      requires (curState == RecvingData || curState == WsPolling) && Inv()
      requires (err == OK || Failure(err)) && left + processed <= right
      modifies this`nxtState, this`exitError, this`subscribedEvent, this`left, this`right
      ensures Cfg() == Consumed(old(Cfg()), err, processed, wbSz)
      ensures Buffers() && if nxtState == curState then Inv() && exitError == old(exitError)
              else nxtState == Aborted && Failure(exitError)
    {
      if err == MoreDataNeeded {
        if wbSz - right == 0 {
          exitError := WorkBufSmall;
          Enter(Aborted);
        } else {
          Subscribe(Read);
        }
      } else if err != OK {
        exitError := err;
        Enter(Aborted);
      } else {
        left := left + processed;
        Shrink();
        if right - left == 0 {
          Subscribe(Read);
        }
      }
    }

    /** EVENT_READ of the two states that receive. */
    method ReadMore() returns (a: Answer)
      requires (curState == RecvingData || curState == WsPolling) && Inv()
      modifies this`nxtState, this`exitError, this`subscribedEvent, this`timed, this`right
      ensures Handled(Read, a)
    {
      hide InSendingHeaders, InRecvingHeaders, InSendingPacket, InWsSending;
      var retval := Transfer(wbSz - right);
      a := Received(retval, 0, 0);
      if retval < 0 {
        exitError := Connection;
        Enter(Disconnected);
      } else if retval > 0 {
        right := right + retval;
        assert right <= wbSz;
        if curState == RecvingData {
          timed := true;
        }
        Subscribe(Process);
      }
    }

    method OnSendingData(event: Event) returns (a: Answer)
      requires curState == SendingData && Buffers() && nxtState == curState && Expected(event)
      modifies this
      ensures Handled(event, a)
    {
      hide InSendingHeaders, InRecvingHeaders, InRecvingData, InSendingPacket, InWsPolling, InWsSending;
      a := Silent;
      match event {
        case Entry => left, right := 0, 0;
        case CallDataSend => Enter(SendingPacket);
        case CallRequestProcess => exitError := NotSupported;
        case CallWsPoll => exitError := NotSupported;
        case CallWsFrameSend => exitError := NotSupported;
        case CallWsClose => exitError := NotSupported;
        case _ => assert false;
      }
    }

    method OnSendingPacket(event: Event) returns (a: Answer)
      requires curState == SendingPacket && Buffers() && nxtState == curState && Expected(event)
      modifies this`nxtState, this`exitError, this`subscribedEvent
      ensures Handled(event, a)
    {
      hide InSendingHeaders, InRecvingHeaders, InRecvingData, InWsPolling, InWsSending;
      a := Silent;
      match event {
        case Entry => Subscribe(Write);
        case Write =>
          assert apiArgs == DataSendArgs && dataProcessorArgs == ArgsOf(outputDataProcessor);
          var err, processed, completed := CallProcessor(0);
          a := Processed(err, processed, completed);
          if err != OK {
            exitError := err;
            Enter(Aborted);
          } else if completed {
            Enter(RecvingHeaders);
          } else {
            Enter(SendingData);
          }
        case Timeout => assert false;     // no timer runs in this state
        case _ => assert false;
      }
    }

    method OnWsConnected(event: Event) returns (a: Answer)
      requires curState == WsConnected && Buffers() && nxtState == curState && Expected(event)
      modifies this
      ensures Handled(event, a)
    {
      hide InSendingHeaders, InRecvingHeaders, InRecvingData, InSendingPacket, InWsPolling, InWsSending;
      a := Silent;
      match event {
        case Entry => Shrink();
        case CallRequestProcess => exitError := NotSupported;
        case CallDataSend => exitError := NotSupported;
        case CallWsPoll => Enter(WsPolling);
        case CallWsFrameSend => Enter(WsSendingFrame);
        case CallWsClose => Enter(WsClosing);
        case _ => assert false;
      }
    }

    method OnWsPolling(event: Event) returns (a: Answer)
      requires curState == WsPolling && Buffers() && nxtState == curState && Expected(event)
      modifies this
      ensures Handled(event, a)
    {
      hide InSendingHeaders, InRecvingHeaders, InRecvingData, InSendingPacket, InWsSending;
      a := Silent;
      match event {
        case Entry =>
          assert apiArgs == WsPollArgs;
          var timer: bool := *;
          timed := timer;
          Subscribe(Process);
          var err, processed := PollProcess();
          a := Polled(timer, err, processed);
        case Process =>
          var err, processed := PollProcess();
          a := Processed(err, processed, false);
        case Read =>
          a := ReadMore();
        case Timeout =>
          Enter(WsConnected);
        case _ => assert false;
      }
    }

    /** EVENT_PROCESS of the polling state, which its entry falls into. */
    method PollProcess() returns (err: Err, processed: nat)
      requires curState == WsPolling && Inv()
      modifies this`nxtState, this`exitError, this`subscribedEvent, this`left, this`right
      ensures (err == OK || Failure(err)) && old(left) + processed <= old(right)
      ensures Cfg() == PollStep(old(Cfg()), err, processed, wbSz)
      ensures Buffers() && if nxtState == curState then Inv() && exitError == old(exitError)
              else Lost(nxtState) && Failure(exitError)
    {
      assert dataProcessorArgs == ArgsFor(inputDataProcessor);
      var completed;
      err, processed, completed := CallProcessor(right - left);
      if err == WebSocketClosed {
        exitError := WebSocketClosed;
        Enter(Disconnected);
      } else {
        Consume(err, processed);
      }
    }

    /** A frame that could not be sent aborts the connection and leaves the exit code as it was. */
    method OnWsSending(event: Event) returns (a: Answer)
      requires (curState == WsSendingFrame || curState == WsClosing) && Buffers() && nxtState == curState && Expected(event)
      modifies this`nxtState, this`subscribedEvent
      ensures Handled(event, a)
      ensures event == Write ==>
                && a.FrameSent? && exitError == old(exitError)
                && nxtState == if !a.ok then Aborted else if curState == WsSendingFrame then WsConnected else Disconnected
    {
      hide InSendingHeaders, InRecvingHeaders, InRecvingData, InSendingPacket, InWsPolling;
      a := Silent;
      match event {
        case Entry => Subscribe(Write);
        case Write =>
          assert curState == WsSendingFrame ==> apiArgs == WsFrameSendArgs;
          var sent: bool := *;
          a := FrameSent(sent);
          if !sent {
            Enter(Aborted);
          } else {
            Enter(if curState == WsSendingFrame then WsConnected else Disconnected);
          }
        case Timeout => assert false;     // no timer runs in this state
        case _ => assert false;
      }
    }

    // -------------------------------------------------------------- driving

    /** hc->curState(event, hc) */
    method Dispatch(event: Event) returns (a: Answer)
      requires Buffers() && nxtState == curState && Expected(event)
      modifies this
      ensures Handled(event, a)
    {
      match curState {
        case Aborted => a := OnFinal(event);
        case Disconnected => a := OnFinal(event);
        case HttpConnected => a := OnHttpConnected(event);
        case SendingHeaders => a := OnSendingHeaders(event);
        case RecvingHeaders => a := OnRecvingHeaders(event);
        case RecvingData => a := OnRecvingData(event);
        case SendingData => a := OnSendingData(event);
        case SendingPacket => a := OnSendingPacket(event);
        case WsConnected => a := OnWsConnected(event);
        case WsPolling => a := OnWsPolling(event);
        case WsSendingFrame => a := OnWsSending(event);
        case WsClosing => a := OnWsSending(event);
      }
    }

    /** The run so far, from the configuration at the beginning of the call. */
    ghost predicate Recorded(c0: Config, log: seq<Step>)
      reads this
    {
      Chain(c0, log, wbSz) && Cfg() == After(c0, log, wbSz)
    }

    /** The handler of the event, with its place in the run. */
    method HandleNext(event: Event, ghost c0: Config, ghost log0: seq<Step>) returns (ghost log: seq<Step>)
      requires Buffers() && nxtState == curState && Expected(event)
      requires Chain(c0, log0, wbSz) && (IsCall(event) <==> log0 == [])
      requires var c := After(c0, log0, wbSz); if event == Entry then c.nxt != c.s && Cfg() == Entered(c) else Cfg() == c
      modifies this
      ensures Recorded(c0, log) && log0 < log && log[|log0|].e == event
      ensures Buffers() && (nxtState == curState ==> Inv()) && (nxtState != curState ==> Enterable(nxtState))
      ensures Moves(curState, event, old(exitError), nxtState, exitError, httpMethod, httpResponseStatusCode)
      ensures curState == old(curState) && httpMethod == old(httpMethod)
      ensures httpResponseStatusCode == old(httpResponseStatusCode) || (curState == RecvingHeaders && event == Read)
    {
      hide Moves, CallArgs, Chain, After, Handle, Answers, Enterable;
      var a := Dispatch(event);
      HandleMoves(old(Cfg()), event, a, wbSz);
      if event == Entry {
        EntryLegal(After(c0, log0, wbSz), a);
      } else {
        StepLegal(old(Cfg()), event, a);
      }
      Extend(c0, log0, Step(event, a), wbSz);
      log := log0 + [Step(event, a)];
    }

    /** The state asked for is entered. */
    method EnterNext(ghost c0: Config, ghost log0: seq<Step>) returns (ghost log: seq<Step>)
      requires Buffers() && nxtState != curState && Enterable(nxtState) && Recorded(c0, log0) && log0 != []
      modifies this
      ensures Recorded(c0, log) && log0 < log && curState == old(nxtState)
      ensures Buffers() && (nxtState == curState ==> Inv()) && (nxtState != curState ==> Enterable(nxtState))
      ensures Moves(curState, Entry, old(exitError), nxtState, exitError, httpMethod, httpResponseStatusCode)
      ensures httpResponseStatusCode == old(httpResponseStatusCode) && httpMethod == old(httpMethod)
    {
      hide Moves, Chain, After;
      curState := nxtState;
      subscribedEvent := None;
      timed := false;
      log := HandleNext(Entry, c0, log0);
    }

    /** mangoSM_THROW: the event, and the entries it leads to. */
    method Throw(event: Event, ghost c0: Config, ghost log0: seq<Step>) returns (ghost log: seq<Step>)
      requires Inv() && Expected(event) && event != Entry
      requires Recorded(c0, log0) && (IsCall(event) <==> log0 == [])
      modifies this
      ensures Inv()
      ensures Recorded(c0, log) && log0 < log && log[|log0|].e == event
      ensures Leads(old(curState), event, old(exitError), curState, exitError, httpMethod, httpResponseStatusCode)
      ensures httpResponseStatusCode == old(httpResponseStatusCode) || (old(curState) == RecvingHeaders && event == Read)
    {
      hide Moves, CallArgs, Chain, After;
      log := HandleNext(event, c0, log0);
      if nxtState == WsPolling && nxtState != curState {
        ToPolling(curState, event, old(exitError), exitError, httpMethod, httpResponseStatusCode);
      }
      while nxtState != curState
        invariant Buffers() && if nxtState == curState then Inv() else Enterable(nxtState)
        invariant Leads(old(curState), event, old(exitError), nxtState, exitError, httpMethod, httpResponseStatusCode)
        invariant httpResponseStatusCode == old(httpResponseStatusCode) || (old(curState) == RecvingHeaders && event == Read)
        invariant nxtState == WsPolling && nxtState != curState ==>
                    old(curState) == WsConnected && event == CallWsPoll && exitError == old(exitError)
        invariant Recorded(c0, log) && log0 < log && log[|log0|].e == event
        decreases if nxtState == curState then 0 else if nxtState == WsPolling then 2 else 1
      {
        ghost var was := exitError;
        log := EnterNext(c0, log);
        EntryMoves(curState, was, nxtState, exitError, httpMethod, httpResponseStatusCode);
      }
    }

    /** An event that can reach the state is due. */
    lemma StepLegal(c: Config, event: Event, a: Answer)
      requires c.nxt == c.s && event != Entry && Answers(c, event, a, wbSz)
      requires (IsCall(event) && AtRest(c)) || (event in {Read, Write, Process} && event == c.await) || (event == Timeout && c.timed)
      ensures Legal(c, Step(event, a), wbSz) && Do(c, Step(event, a), wbSz) == Handle(c, event, a, wbSz)
    {
    }

    lemma EntryLegal(c: Config, a: Answer)
      requires c.nxt != c.s && Answers(Entered(c), Entry, a, wbSz)
      ensures Legal(c, Step(Entry, a), wbSz) && Do(c, Step(Entry, a), wbSz) == Handle(Entered(c), Entry, a, wbSz)
    {
    }

    lemma RestKept(c: Config, err: Err)
      requires AtRest(c)
      ensures AtRest(c.(err := err))
    {
    }

    /** Between two events the machine waits for one of three, or is at rest. */
    lemma Awaited()
      requires Inv()
      ensures subscribedEvent in {None, Read, Write, Process}
      ensures (subscribedEvent == None <==> Resting(curState)) && (subscribedEvent == None ==> AtRest(Cfg()))
    {
    }

    /** mangoSM_PROCESS, for at most `rounds` rounds of its loop. It returns only in a state that waits for
        the application, with a code that tells how the call went, behind a run of the model; after a data call that
        state and that code are what the sender's answer makes them. */
    method ProcessCall(event: Event, rounds: nat) returns (returned: bool, err: Err, ghost log: seq<Step>)
      requires Inv() && Expected(event) && IsCall(event)
      modifies this
      ensures Inv() && (returned ==> subscribedEvent == None)
      ensures returned ==> Outcome(old(curState), event, curState, err, httpResponseStatusCode).Reported()
      ensures returned ==> err == exitError && Returned(old(Cfg()).(err := OK), event, log, wbSz)
                           && Cfg() == After(old(Cfg()).(err := OK), log, wbSz)
      ensures returned && old(curState) == SendingData && event == CallDataSend ==>
                && |log| >= 4 && log[2].a.Processed?
                && (curState == SendingData && err == OK <==> log[2].a.err == OK && !log[2].a.completed)
                && (log[2].a.err != OK ==> curState == Aborted && err == log[2].a.err)
    {
      hide Leads, Moves, InCall, Answered, Holds, Chain, After, MayAwait, TimerRight, AtRest, Buffers;
      Awaited();
      ghost var c0 := Cfg().(err := OK);
      RestKept(Cfg(), OK);
      log := Begin(event);
      returned := false;
      var round := 0;
      while !returned && round < rounds
        invariant Inv() && (returned ==> subscribedEvent == None)
        invariant InCall(old(curState), event, curState, exitError, httpResponseStatusCode)
        invariant Recorded(c0, log) && log != [] && log[0].e == event
        invariant returned ==> AtRest(Cfg()) && Resting(curState)
        decreases rounds - round, !returned
      {
        if timed {
          var elapsed: bool := *;
          if elapsed {
            log := Continue(old(curState), event, Timeout, c0, log);
          }
        }
        Awaited();
        match subscribedEvent {
          case Read => log := Continue(old(curState), event, Read, c0, log);
          case Write => log := Continue(old(curState), event, Write, c0, log);
          case Process => log := Continue(old(curState), event, Process, c0, log);
          case None => returned := true;
          case _ => assert false;
        }
        round := round + 1;
      }
      err := exitError;
      if returned && old(curState) == SendingData && event == CallDataSend {
        DataCallExact(c0, log, wbSz);
      }
    }

    /** The event of the call itself. */
    method Begin(event: Event) returns (ghost log: seq<Step>)
      requires Inv() && Expected(event) && IsCall(event)
      modifies this
      ensures Inv() && InCall(old(curState), event, curState, exitError, httpResponseStatusCode)
      ensures Recorded(old(Cfg()).(err := OK), log) && log != [] && log[0].e == event
    {
      hide Leads, Moves, InCall, Answered;
      exitError := OK;
      NoSteps(Cfg(), [], wbSz);
      log := Throw(event, Cfg(), []);
      CallStarts(old(curState), event, curState, exitError, httpMethod, httpResponseStatusCode);
    }

    /** One event thrown by the loop of mangoSM_PROCESS. */
    method Continue(ghost from: State, ghost call: Event, event: Event, ghost c0: Config, ghost log0: seq<Step>)
      returns (ghost log: seq<Step>)
      requires Inv() && Expected(event) && event in {Read, Write, Process, Timeout}
      requires InCall(from, call, curState, exitError, httpResponseStatusCode)
      requires Recorded(c0, log0) && log0 != [] && log0[0].e == call
      modifies this
      ensures Inv() && InCall(from, call, curState, exitError, httpResponseStatusCode)
      ensures Recorded(c0, log) && log != [] && log[0].e == call
    {
      log := Throw(event, c0, log0);
      CallContinues(from, call, old(curState), event, old(exitError), curState, exitError, httpMethod,
                    old(httpResponseStatusCode), httpResponseStatusCode);
    }

    /** mango_httpRequestNew: the request line in the working buffer, or none, when the method is not supported
        or the buffer too small. The length of the URI is kept in 16 bits. */
    method RequestNew(m: Method, uri: bytes) returns (ok: bool, request: bytes)
      requires Inv() && Resting(curState)
      modifies this`httpMethod, this`left, this`right
      ensures Inv() && curState == old(curState) && httpMethod == m && left == 0
      ensures ok <==> m != Unsupported && |RequestLine(m, uri)| <= wbSz
      ensures request == (if ok then RequestLine(m, uri) else []) && right == |request|
    {
      httpMethod := m;
      left, right, request := 0, 0, [];
      ok := m != Unsupported;
      var tokens, i := [Token(m), uri[..|uri| % 0x1_0000], END_OF_LINE], 0;
      while ok && i < 3
        invariant 0 <= i <= 3 && right == |request| <= wbSz && left == 0 && httpMethod == m
        invariant ok ==> request == (if i > 0 then tokens[0] else []) + (if i > 1 then tokens[1] else [])
                                    + (if i > 2 then tokens[2] else [])
        invariant !ok && m != Unsupported ==> |RequestLine(m, uri)| > wbSz
        decreases ok, 3 - i
      {
        if right + |tokens[i]| > wbSz {
          ok := false;
        } else {
          request := request + tokens[i];
          right := right + |tokens[i]|;
          i := i + 1;
        }
      }
      if !ok {
        right, request := 0, [];
      }
    }

    /** mango_httpHeaderSet, however often: the request grows inside the buffer. */
    method SetHeaders()
      requires Inv() && Resting(curState)
      modifies this`right
      ensures Inv() && right >= old(right)
    {
      var more: nat := *;
      if 0 <= more && right + more <= wbSz {
        right := right + more;
      }
    }

    /** What the application does in front of a call, and the API function puts in place for it. */
    method Prepare(e: Event) returns (built: bool)
      requires Inv() && Resting(curState) && IsCall(e)
      modifies this`httpMethod, this`left, this`right, this`apiArgs
      ensures Inv() && curState == old(curState) && (built ==> Expected(e))
    {
      built := true;
      match e {
        case CallRequestProcess =>
          var m: Method, uri: bytes, request := *, *, [];
          built, request := RequestNew(m, uri);
          SetHeaders();
          apiArgs := NoApiArgs;
        case CallDataSend => apiArgs := DataSendArgs;
        case CallWsPoll => apiArgs := WsPollArgs;
        case CallWsFrameSend => apiArgs := WsFrameSendArgs;
        case CallWsClose => apiArgs := NoApiArgs;
        case _ => assert false;
      }
    }

    /** The calls of the application, in any order; a request is processed only when it has been built. The
        run ends early when a call does not return. */
    method Run(calls: seq<Event>, rounds: nat) returns (log: seq<Outcome>)
      requires Inv() && Resting(curState) && forall i :: 0 <= i < |calls| ==> IsCall(calls[i])
      modifies this
      ensures Inv() && History(log) && |log| <= |calls|
      ensures log != [] ==> log[0].from == old(curState)
    {
      hide InCall, Returned, Chain, After, Handle;
      log := [];
      var i, returned := 0, true;
      while i < |calls| && returned
        invariant 0 <= i <= |calls| && |log| <= i && Inv() && (returned ==> Resting(curState))
        invariant History(log) && (returned && log != [] ==> log[|log| - 1].to == curState)
        invariant if log == [] then returned ==> curState == old(curState) else log[0].from == old(curState)
      {
        var e := calls[i];
        var built := Prepare(e);
        if built {
          var from, err := curState, OK;
          ghost var steps;
          returned, err, steps := ProcessCall(e, rounds);
          if returned {
            log := log + [Outcome(from, e, curState, err, httpResponseStatusCode)];
          }
        }
        i := i + 1;
      }
    }
  }
}
