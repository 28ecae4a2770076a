/** The chunked data processors over the client's working buffer: the receiving loop and its
    shrink, and the sender, each tied to the functions of Chunked. */
module ChunkedClient {
  import opened Bytes
  import opened HexText
  import opened Chunked

  // ---------------------------------------------------------------- what the sender means

  /** A buffer in pieces of at most `max` bytes. */
  function Pieces(buf: bytes, max: nat): (ps: seq<bytes>)
    requires max > 0
    decreases |buf|
  {
    if buf == [] then []
    else
      var n := if |buf| > max then max else |buf|;
      [buf[..n]] + Pieces(buf[n..], max)
  }

  lemma {:induction false} PiecesWhole(buf: bytes, max: nat)
    requires 0 < max < TWO32
    ensures ValidChunks(Pieces(buf, max)) && Flat(Pieces(buf, max)) == buf
    decreases |buf|
  {
    if buf != [] {
      var n := if |buf| > max then max else |buf|;
      PiecesWhole(buf[n..], max);
      Split(buf, n);
    }
  }

  /** All chunks of a sequence of send calls. */
  function AllPieces(sends: seq<bytes>, max: nat): seq<bytes>
    requires max > 0
  {
    if sends == [] then [] else Pieces(sends[0], max) + AllPieces(sends[1..], max)
  }

  lemma {:induction false} ChunksAppend(a: seq<bytes>, b: seq<bytes>)
    ensures Chunks(a + b) == Chunks(a) + Chunks(b)
    ensures Flat(a + b) == Flat(a) + Flat(b)
    ensures Wire(a + b) == Chunks(a) + Wire(b)
  {
    if a == [] {
      assert a + b == b;
    } else {
      assert (a + b)[1..] == a[1..] + b;
      ChunksAppend(a[1..], b);
      hide Chunk;
      Assoc(Chunk(a[0]), Chunks(a[1..]), Chunks(b));
      Assoc(a[0], Flat(a[1..]), Flat(b));
      Assoc(Chunk(a[0]), Chunks(a[1..]), Wire(b));
    }
  }

  lemma {:induction false} AllPiecesWhole(sends: seq<bytes>, max: nat)
    requires 0 < max < TWO32
    ensures ValidChunks(AllPieces(sends, max)) && Flat(AllPieces(sends, max)) == Flat(sends)
  {
    if sends != [] {
      PiecesWhole(sends[0], max);
      AllPiecesWhole(sends[1..], max);
      ChunksAppend(Pieces(sends[0], max), AllPieces(sends[1..], max));
    }
  }

  /** What the sender is given of a buffer: its length goes through 16 bits. */
  function Given(buf: bytes): (b: bytes)
    ensures |b| == |buf| % 0x1_0000 && b <= buf
    ensures b == buf <==> |buf| <= 0xFFFF
  {
    buf[..|buf| % 0x1_0000]
  }

  /** What is given of a sequence of calls, up to the first that gives nothing. */
  function AllGiven(calls: seq<bytes>): (gs: seq<bytes>)
    ensures |gs| <= |calls|
    ensures forall i :: 0 <= i < |gs| ==> gs[i] == Given(calls[i])
  {
    if calls == [] || Given(calls[0]) == [] then [] else [Given(calls[0])] + AllGiven(calls[1..])
  }

  /** The bytes of one call: its chunks, or the last chunk when nothing is given. */
  function CallBytes(buf: bytes, max: nat): bytes
    requires max > 0
  {
    if Given(buf) == [] then LAST_CHUNK else Chunks(Pieces(Given(buf), max))
  }

  /** The bytes that a sequence of calls puts on the wire. A call that gives nothing ends the body, and the ones
      behind it are refused. */
  function Transmission(calls: seq<bytes>, max: nat): bytes
    requires max > 0
  {
    if calls == [] then []
    else if Given(calls[0]) == [] then LAST_CHUNK
    else CallBytes(calls[0], max) + Transmission(calls[1..], max)
  }

  lemma CallUnfold(calls: seq<bytes>, max: nat)
    requires calls != [] && max > 0
    ensures Given(calls[0]) == [] ==> Transmission(calls, max) == CallBytes(calls[0], max) && AllGiven(calls) == []
    ensures Given(calls[0]) != [] ==>
              && Transmission(calls, max) == CallBytes(calls[0], max) + Transmission(calls[1..], max)
              && |AllGiven(calls)| == 1 + |AllGiven(calls[1..])|
  {
    hide Given, Chunks, Pieces;
  }

  lemma {:induction false} TransmissionIsWire(sends: seq<bytes>, max: nat)
    requires max > 0
    ensures Transmission(sends + [[]], max) == Wire(AllPieces(AllGiven(sends), max))
  {
    hide Given;
    assert Given([]) == [] by { assert |Given([])| == 0; }
    if sends == [] {
      assert sends + [[]] == [[]];
    } else {
      assert (sends + [[]])[0] == sends[0] && (sends + [[]])[1..] == sends[1..] + [[]];
      if Given(sends[0]) != [] {
        TransmissionIsWire(sends[1..], max);
        var gs := AllGiven(sends[1..]);
        assert ([Given(sends[0])] + gs)[1..] == gs;
        ChunksAppend(Pieces(Given(sends[0]), max), AllPieces(gs, max));
      }
    }
  }

  /** Sends of one to 65535 bytes each. */
  predicate Proper(sends: seq<bytes>) {
    forall i :: 0 <= i < |sends| ==> 1 <= |sends[i]| <= 0xFFFF
  }

  predicate AllEmpty(sends: seq<bytes>) {
    forall i :: 0 <= i < |sends| ==> sends[i] == []
  }

  /** Proper sends, and then at most empty ones. */
  ghost predicate Tidy(sends: seq<bytes>) {
    exists k :: 0 <= k <= |sends| && Proper(sends[..k]) && AllEmpty(sends[k..])
  }

  lemma {:induction false} FlatEmpty(sends: seq<bytes>)
    ensures Flat(sends) == [] <==> AllEmpty(sends)
  {
    if sends != [] {
      FlatEmpty(sends[1..]);
      assert Flat(sends) == [] <==> sends[0] == [] && AllEmpty(sends[1..]);
      assert AllEmpty(sends) ==> sends[0] == [] && AllEmpty(sends[1..]);
      forall i | sends[0] == [] && AllEmpty(sends[1..]) && 0 <= i < |sends| ensures sends[i] == [] {
        assert i > 0 ==> sends[i] == sends[1..][i - 1];
      }
    }
  }

  /** More sends behind a proper one. */
  lemma TidyCons(sends: seq<bytes>)
    requires sends != []
    ensures Tidy(sends) <==> AllEmpty(sends) || (1 <= |sends[0]| <= 0xFFFF && Tidy(sends[1..]))
  {
    if Tidy(sends) {
      var k :| 0 <= k <= |sends| && Proper(sends[..k]) && AllEmpty(sends[k..]);
      if k == 0 {
        assert sends[k..] == sends;
      } else {
        assert sends[..k][0] == sends[0];
        assert sends[1..][..k - 1] == sends[..k][1..] && sends[1..][k - 1..] == sends[k..];
      }
    }
    if AllEmpty(sends) {
      assert sends[..0] == [] && sends[0..] == sends;
    }
    if 1 <= |sends[0]| <= 0xFFFF && Tidy(sends[1..]) {
      var k :| 0 <= k <= |sends| - 1 && Proper(sends[1..][..k]) && AllEmpty(sends[1..][k..]);
      assert sends[..k + 1] == [sends[0]] + sends[1..][..k] && sends[k + 1..] == sends[1..][k..];
    }
  }

  lemma GivenLength(sends: seq<bytes>)
    ensures |Flat(AllGiven(sends))| <= |Flat(sends)|
  {
    if sends != [] && Given(sends[0]) != [] {
      GivenLength(sends[1..]);
      assert AllGiven(sends)[1..] == AllGiven(sends[1..]);
    }
  }

  /** All of the data is given if and only if the sends are proper, except for empty ones at the end; and all calls
      are taken as well if and only if all are proper. */
  lemma {:induction false} GivenWhole(sends: seq<bytes>)
    ensures Flat(AllGiven(sends)) == Flat(sends) <==> Tidy(sends)
    ensures Flat(AllGiven(sends)) == Flat(sends) && |AllGiven(sends)| == |sends| <==> Proper(sends)
  {
    if sends == [] {
      assert sends[..0] == [] && sends[0..] == [];
    } else {
      hide Tidy;
      var g, more := Given(sends[0]), sends[1..];
      TidyCons(sends);
      FlatEmpty(sends);
      assert Proper(sends) <==> 1 <= |sends[0]| <= 0xFFFF && Proper(more) by {
        assert sends == [sends[0]] + more;
      }
      if g != [] {
        GivenWhole(more);
        GivenLength(more);
        assert AllGiven(sends)[1..] == AllGiven(more) && AllGiven(sends)[0] == g;
        GivenHead(g, sends[0], Flat(AllGiven(more)), Flat(more));
      }
    }
  }

  /** Less is lost of the first, or nothing: what is behind it cannot make up for it. */
  lemma GivenHead(g: bytes, s: bytes, gs: bytes, ss: bytes)
    requires g <= s && |gs| <= |ss|
    ensures g + gs == s + ss <==> g == s && gs == ss
  {
    if g + gs == s + ss {
      assert |g| == |s|;
      CutAtEnd(g, gs);
      CutAtEnd(s, ss);
    }
  }

  /** For every body, every sequence of sends and an empty one behind them, every sender's chunk size and every
      fragmentation of the wire: the receiver hands over what was given, and completes at its last byte. That is
      the whole body if and only if the sends are tidy. */
  lemma SendReceive(sends: seq<bytes>, max: nat, first: bytes, net: bytes, tot: nat, sizes: seq<nat>)
    requires 0 < max < TWO32 && tot >= MIN_WB
    requires first + net == Transmission(sends + [[]], max)
    requires forall i :: 0 <= i < |sizes| ==> sizes[i] > 0
    ensures var (rx, rest) := Receive(Rx(Processing, Args(1, 0, 0), first, []), tot, net, sizes);
            && rx.phase in {Reading, Complete}
            && rx.got <= Flat(AllGiven(sends))
            && (rx.phase == Complete <==> rest == [])
            && (rx.phase == Complete ==> rx.got == Flat(AllGiven(sends)))
            && (rx.phase == Complete ==> (rx.got == Flat(sends) <==> Tidy(sends)))
            && (|sizes| >= |net| ==> rx.phase == Complete)
  {
    TransmissionIsWire(sends, max);
    AllPiecesWhole(AllGiven(sends), max);
    GivenWhole(sends);
    hide Receive, Tidy, Flat, AllGiven;
    FragmentationIndependence(AllPieces(AllGiven(sends), max), first, net, tot, sizes);
  }

  /** An empty send in front of the last one ends the body, and so does one of 65536 bytes; of 65537 bytes one is
      sent. */
  lemma ShortBodies(buf: bytes, more: seq<bytes>, max: nat)
    requires max > 0
    ensures Transmission([[]] + more, max) == LAST_CHUNK
    ensures |buf| == 0x1_0000 ==> Transmission([buf] + more, max) == LAST_CHUNK
    ensures |buf| == 0x1_0001 ==> AllGiven([buf]) == [[buf[0]]] && !Tidy([buf])
  {
    assert |Given([])| == 0;
    if |buf| == 0x1_0001 {
      assert |Given(buf)| == 1 && [buf][0] == buf && [buf][1..] == [];
      assert Given(buf) == [buf[0]];
      assert AllGiven([buf]) == [Given(buf)] + AllGiven([]);
      TidyCons([buf]);
    }
  }

  // ---------------------------------------------------------------- the client

  // 8 hexadecimal digits, two CRLFs and the terminator.
  const EXTRA := 13

  class Client {
    var workingBuffer: array<byte>
    var left: nat
    var right: nat
    var state: nat
    var chunkSz: nat
    var chunkSzProcessed: nat
    var received: bytes  // what the application has been handed
    var sent: bytes      // what the socket has taken
    var sending: bool    // the state machine waits for the data of a body

    ghost predicate Valid()
      reads this, workingBuffer
    {
      left <= right < workingBuffer.Length && workingBuffer[right] == 0
    }

    function CurrentArgs(): Args
      reads this
    {
      Args(state, chunkSz, chunkSzProcessed)
    }

    ghost function Used(): bytes
      reads this, workingBuffer
      requires left <= right < workingBuffer.Length
    {
      workingBuffer[left..right]
    }

    constructor (size: nat)
      requires size > 0
      ensures Valid() && fresh(workingBuffer) && workingBuffer.Length == size
      ensures Used() == [] && received == [] && sent == [] && CurrentArgs() == Args(1, 0, 0)
      ensures sending
    {
      workingBuffer := new byte[size](_ => 0);
      left, right := 0, 0;
      state, chunkSz, chunkSzProcessed := 1, 0, 0;
      received, sent, sending := [], [], true;
    }

    /** mangoWB_shrink */
    method Shrink()
      requires Valid()
      modifies this`left, this`right, workingBuffer
      ensures Valid() && left == 0 && Used() == old(Used())
    {
      var index: nat := 0;
      ghost var used, l0 := Used(), left;
      if left != 0 {
        while left < right
          invariant l0 <= left <= right && index == left - l0 && right == old(right)
          invariant workingBuffer == old(workingBuffer)
          invariant forall k :: 0 <= k < index ==> workingBuffer[k] == used[k]
          invariant forall k :: index <= k < |used| ==> workingBuffer[l0 + k] == used[k]
        {
          workingBuffer[index] := workingBuffer[left];
          index, left := index + 1, left + 1;
        }
        left, right := 0, index;
      }
      workingBuffer[right] := 0;
    }

    /** The callback, with the byte behind the data set to NUL for its duration. */
    method UserFunc(buf: nat, len: nat)
      requires buf + len < workingBuffer.Length
      modifies this`received, workingBuffer
      ensures received == old(received) + old(workingBuffer[buf..buf + len])
      ensures workingBuffer[..] == old(workingBuffer[..])
    {
      var oldByte := workingBuffer[buf + len];
      workingBuffer[buf + len] := 0;
      received := received + workingBuffer[buf..buf + len];
      workingBuffer[buf + len] := oldByte;
    }

    /** What is unread of the buffer from `buf` on. */
    ghost predicate Unread(buf: nat, rest: bytes)
      reads this, workingBuffer
    {
      buf <= right < workingBuffer.Length && rest == workingBuffer[buf..right]
    }

    /** while (*buf != '\n' && *buf) buf++ */
    method ScanLine(buf: nat, ghost rest: bytes) returns (e: nat)
      requires Valid() && Unread(buf, rest)
      ensures buf <= e <= right && LineEnd(rest, 0) == e - buf && workingBuffer[e] == At(rest, e - buf)
    {
      e := buf;
      while workingBuffer[e] != LF && workingBuffer[e] != 0
        invariant buf <= e <= right
        invariant LineEnd(rest, e - buf) == LineEnd(rest, 0)
        decreases right - e
      {
        e := e + 1;
      }
    }

    /** The size line: where it ends, and what it says when it is there. */
    method ReadLine(buf: nat, ghost rest: bytes) returns (whole: bool, len: nat, n: Number)
      requires Valid() && Unread(buf, rest)
      ensures len == LineEnd(rest, 0) && (whole <==> At(rest, len) != 0)
      ensures whole ==> n == ReadHex(rest)
    {
      hide ReadHex, LineEnd;
      var e := ScanLine(buf, rest);
      whole, len, n := workingBuffer[e] != 0, e - buf, Bad;
      if whole {
        n := HexStr2Dec(workingBuffer[buf..right]);
      }
    }

    /** Chunk size */
    method SizeLineRound(buf: nat, processed: nat, ghost rest: bytes, ghost data: bytes)
      returns (done: bool, err: Err, sz: nat)
      requires Valid() && Unread(buf, rest) && rest != [] && state == 1
      modifies this`state, this`chunkSz, this`chunkSzProcessed
      ensures Round(Idp(old(CurrentArgs()), rest, processed, data), CurrentArgs(), done, err, rest, sz, processed, data)
      ensures state != 1 || done
    {
      hide ReadHex, LineEnd, Idp, Round, At;
      ghost var a := CurrentArgs();
      var whole, len, n := ReadLine(buf, rest);
      LineRound(a, rest, processed, data);
      if !whole {
        return true, if processed > 0 then OK else MoreDataNeeded, 0;
      }
      if n.Bad? {
        chunkSz := 0;
        return true, DataProcessing, 0;
      }
      sz := (len + 1) % 256;
      chunkSz, chunkSzProcessed, state := n.n, 0, if n.n != 0 then 2 else 4;
      return false, OK, sz;
    }

    /** Chunk data */
    method DataRound(buf: nat, processed: nat, ghost rest: bytes, ghost data: bytes) returns (sz: nat)
      requires Valid() && Unread(buf, rest) && rest != [] && state == 2 && ValidArgs(CurrentArgs())
      modifies this`state, this`chunkSzProcessed, this`received, workingBuffer
      ensures workingBuffer[..] == old(workingBuffer[..])
      ensures 0 < sz <= |rest| && received == old(received) + rest[..sz]
      ensures Round(Idp(old(CurrentArgs()), rest, processed, data), CurrentArgs(), false, OK, rest, sz, processed, data + rest[..sz])
    {
      hide Stop, ReadHex, LineEnd;
      var rem := chunkSz - chunkSzProcessed;
      sz := if right - buf > rem then rem else right - buf;
      assert rest[..sz] == workingBuffer[buf..buf + sz];
      UserFunc(buf, sz);
      chunkSzProcessed := chunkSzProcessed + sz;
      state := if chunkSz == chunkSzProcessed then 3 else 2;
    }

    /** CRLF behind the data */
    method CrlfRound(buf: nat, processed: nat, ghost rest: bytes, ghost data: bytes)
      returns (done: bool, err: Err, sz: nat)
      requires Valid() && Unread(buf, rest) && rest != [] && state == 3
      modifies this`state
      ensures Round(Idp(old(CurrentArgs()), rest, processed, data), CurrentArgs(), done, err, rest, sz, processed, data)
      ensures done || sz > 0
    {
      if right - buf < 2 {
        return true, if processed > 0 then OK else MoreDataNeeded, 0;
      }
      if workingBuffer[buf] == CR && workingBuffer[buf + 1] == LF {
        state := 1;
        return false, OK, 2;
      }
      return true, DataProcessing, 0;
    }

    /** The end of the body, with or without trailing headers */
    method EndRound(buf: nat, processed: nat, ghost rest: bytes, ghost data: bytes) returns (err: Err, completed: bool)
      requires Valid() && Unread(buf, rest) && rest != [] && state == 4
      ensures Idp(CurrentArgs(), rest, processed, data) == IdpResult(err, CurrentArgs(), processed, completed, data)
    {
      var n := right - buf;
      if n < 2 {
        return if processed > 0 then OK else MoreDataNeeded, false;
      }
      assert n == 2 ==> rest == [rest[0], rest[1]];
      assert n > 3 ==> rest[n - 4..] == [rest[n - 4], rest[n - 3], rest[n - 2], rest[n - 1]];
      if (n == 2 && workingBuffer[buf] == CR && workingBuffer[buf + 1] == LF)
         || (n > 3 && workingBuffer[right - 4] == CR && workingBuffer[right - 3] == LF
             && workingBuffer[right - 2] == CR && workingBuffer[right - 1] == LF) {
        return OK, true;
      }
      return if processed > 0 then OK else MoreDataNeeded, false;
    }

    /** mangoIDP_chunked on the used part of the working buffer. */
    method IdpChunked() returns (err: Err, processed: nat, completed: bool)
      requires Valid() && ValidArgs(CurrentArgs())
      modifies this`state, this`chunkSz, this`chunkSzProcessed, this`received, workingBuffer
      ensures Valid() && workingBuffer[..] == old(workingBuffer[..])
      ensures ValidArgs(CurrentArgs())
      ensures var r := Idp(old(CurrentArgs()), old(Used()), 0, []);
              && err == r.err && processed == r.processed && completed == r.completed
              && CurrentArgs() == r.args && received == old(received) + r.data
    {
      hide Idp, ReadHex, LineEnd;
      processed, completed := 0, false;
      var buf: nat := left;
      ghost var data: bytes, rest, r := [], Used(), Idp(CurrentArgs(), Used(), 0, []);
      while right - buf > 0
        invariant left <= buf && Unread(buf, rest) && Valid() && workingBuffer[..] == old(workingBuffer[..])
        invariant ValidArgs(CurrentArgs()) && !completed
        invariant received == old(received) + data
        invariant r == Idp(CurrentArgs(), rest, processed, data)
        decreases |rest|, if state == 1 then 1 else 0
      {
        var done, sz := false, 0;
        if state == 1 {
          done, err, sz := SizeLineRound(buf, processed, rest, data);
        } else if state == 2 {
          sz := DataRound(buf, processed, rest, data);
          data := data + rest[..sz];
        } else if state == 3 {
          done, err, sz := CrlfRound(buf, processed, rest, data);
        } else {
          done := true;
          err, completed := EndRound(buf, processed, rest, data);
        }
        if done {
          return;
        }
        rest, buf, processed := rest[sz..], buf + sz, processed + sz;
      }
      IdpAtEnd(CurrentArgs(), processed, data);
      err := if processed > 0 then OK else MoreDataNeeded;
    }

    // ---------------------------------------------------------------- sending

    /** mangoSocket_write of the first n bytes of the working buffer: all of them, some, or an error. */
    method SocketWrite(n: nat) returns (retval: int)
      requires n <= workingBuffer.Length
      modifies this`sent
      ensures retval <= n
      ensures sent == old(sent) + if retval < 0 then [] else workingBuffer[..retval]
    {
      retval := *;
      if retval > n {
        retval := n;
      }
      if retval >= 0 {
        sent := sent + workingBuffer[..retval];
      }
    }

    /** memcpy to the working buffer */
    method Put(at: nat, src: bytes)
      requires at + |src| <= workingBuffer.Length
      modifies workingBuffer
      ensures workingBuffer[..at + |src|] == old(workingBuffer[..at]) + src
    {
      forall i | 0 <= i < |src| {
        workingBuffer[at + i] := src[i];
      }
    }

    /** One chunk, built in the working buffer and written to the socket. */
    method SendChunk(data: bytes) returns (ok: bool)
      requires 1 <= |data| < TWO32 && |data| + EXTRA <= workingBuffer.Length
      modifies this`sent, workingBuffer
      ensures Wrote(ok, old(sent), sent, Chunk(data))
    {
      var _, digits := Dec2HexStr(|data|, workingBuffer);
      var chunkLen: nat := digits;
      Put(chunkLen, CRLF);
      Put(chunkLen + 2, data);
      Put(chunkLen + 2 + |data|, CRLF);
      chunkLen := chunkLen + 2 + |data| + 2;
      hide Hex;
      assert workingBuffer[..chunkLen] == Chunk(data);
      workingBuffer[chunkLen] := 0;
      var retval := SocketWrite(chunkLen);
      assert workingBuffer[..chunkLen] == Chunk(data);
      ok := retval == chunkLen;
      if 0 <= retval {
        assert workingBuffer[..retval] == Chunk(data)[..retval];
      }
    }

    /** The empty send call, which ends the body. */
    method SendLast() returns (ok: bool)
      requires 5 <= workingBuffer.Length
      modifies this`sent, workingBuffer
      ensures Wrote(ok, old(sent), sent, LAST_CHUNK)
    {
      Put(0, LAST_CHUNK);
      assert workingBuffer[..5] == LAST_CHUNK;
      var retval := SocketWrite(5);
      ok := retval == 5;
      if 0 <= retval {
        assert workingBuffer[..retval] == LAST_CHUNK[..retval];
      }
    }

    /** The sending loop. */
    method SendPieces(buf: bytes, max: nat) returns (ok: bool, processed: nat)
      requires buf != [] && 0 < max < TWO32 && max + EXTRA <= workingBuffer.Length
      modifies this`sent, workingBuffer
      ensures Wrote(ok, old(sent), sent, Chunks(Pieces(buf, max)))
      ensures ok ==> processed == |buf|
    {
      hide *;
      processed := 0;
      ghost var before: bytes, done: bytes, rest := sent, [], buf;
      ghost var all := Chunks(Pieces(buf, max));
      WroteNothing(sent);
      AppendEmpty(all);
      while processed < |buf|
        invariant processed <= |buf| && rest == buf[processed..]
        invariant Wrote(true, before, sent, done) && done + Chunks(Pieces(rest, max)) == all
      {
        var sendSz := if |buf| - processed > max then max else |buf| - processed;
        ghost var mid, piece := sent, rest[..sendSz];
        ok := SendChunk(buf[processed..processed + sendSz]);
        PieceCut(buf, processed, sendSz);
        PiecesUnfold(rest, max);
        rest := rest[sendSz..];
        Assoc(done, Chunk(piece), Chunks(Pieces(rest, max)));
        WroteThen(ok, before, mid, sent, done, Chunk(piece));
        done := done + Chunk(piece);
        if !ok {
          WroteSome(before, sent, done, Chunks(Pieces(rest, max)));
          return;
        }
        processed := processed + sendSz;
      }
      PiecesEnd(rest, max);
      AppendEmpty(done);
      ok := true;
    }

    /** mangoODP_chunked: an empty buffer ends the body, any other goes out in chunks that fit. The length of
        the buffer and the size `wbSz` that the processor was given have 16 bits. */
    method OdpChunked(buf: bytes, wbSz: nat) returns (err: Err, processed: nat, completed: bool)
      requires |buf| < 0x1_0000 && wbSz < 0x1_0000 && wbSz <= workingBuffer.Length
      modifies this`sent, workingBuffer
      ensures err in {OK, WorkBufSmall, WriteTimeout}
      ensures err == WorkBufSmall <==> if buf == [] then wbSz < 5 else wbSz <= EXTRA
      ensures err == WorkBufSmall ==> sent == old(sent)
      ensures err != WorkBufSmall ==>
                Wrote(err == OK, old(sent), sent, if buf == [] then LAST_CHUNK else Chunks(Pieces(buf, wbSz - EXTRA)))
      ensures err == OK ==> completed == (buf == []) && processed == if buf == [] then 5 else |buf|
    {
      hide Wrote, Chunks, Pieces, Chunk;
      processed, completed := 0, false;
      if |buf| == 0 {
        if 5 > wbSz {
          return WorkBufSmall, 0, false;
        }
        var ok := SendLast();
        return if ok then OK else WriteTimeout, if ok then 5 else 0, ok;
      }
      if EXTRA >= wbSz {
        return WorkBufSmall, 0, false;
      }
      var ok;
      ok, processed := SendPieces(buf, wbSz - EXTRA);
      return if ok then OK else WriteTimeout, processed, false;
    }

    /** mango_httpDataSend: a call is refused when no body is being sent. The sending goes on when the processor reports
        success without completion, as in MachineModel.DataCallExact. */
    method HttpDataSend(buf: bytes, wbSz: nat) returns (err: Err, completed: bool)
      requires EXTRA < wbSz < 0x1_0000 && wbSz <= workingBuffer.Length
      modifies this`sent, this`sending, workingBuffer
      ensures err in {OK, Refused, WriteTimeout} && (err == Refused <==> !old(sending))
      ensures sending <==> err == OK && !completed
      ensures err == OK ==> (completed <==> Given(buf) == [])
      ensures err == Refused ==> sent == old(sent)
      ensures err != Refused ==> Wrote(err == OK, old(sent), sent, CallBytes(buf, wbSz - EXTRA))
    {
      if !sending {
        return Refused, false;
      }
      var processed;
      err, processed, completed := OdpChunked(buf[..|buf| % 0x1_0000], wbSz);
      sending := err == OK && !completed;
    }

    /** The calls of an application that go on whatever they return. Unless one of them fails on the socket, the
        wire has their transmission, and those behind the end of the body are refused. */
    method SendCalls(calls: seq<bytes>, wbSz: nat) returns (errs: seq<Err>)
      requires EXTRA < wbSz < 0x1_0000 && wbSz <= workingBuffer.Length && sending
      modifies this`sent, this`sending, workingBuffer
      ensures |errs| == |calls| && forall i :: 0 <= i < |errs| ==> errs[i] in {OK, Refused, WriteTimeout}
      ensures Wrote(WriteTimeout !in errs, old(sent), sent, Transmission(calls, wbSz - EXTRA))
      ensures WriteTimeout !in errs ==>
                forall i :: 0 <= i < |errs| ==> (errs[i] == OK <==> i <= |AllGiven(calls)|)
    {
      hide Wrote, CallBytes, Given, Transmission, AllGiven;
      ghost var max, before, done: bytes := wbSz - EXTRA, sent, [];
      ghost var all := Transmission(calls, max);
      errs := [];
      ghost var failed := false;
      WroteNothing(sent);
      AppendEmpty(all);
      assert calls[0..] == calls;
      while |errs| < |calls|
        invariant |errs| <= |calls| && (failed <==> WriteTimeout in errs)
        invariant forall i :: 0 <= i < |errs| ==> errs[i] in {OK, Refused, WriteTimeout}
        invariant Wrote(!failed, before, sent, done)
        invariant sending ==> done + Transmission(calls[|errs|..], max) == all && !failed
        invariant sending ==> |AllGiven(calls)| == |errs| + |AllGiven(calls[|errs|..])|
        invariant !sending && !failed ==> done == all && |AllGiven(calls)| < |errs|
        invariant failed ==> done <= all && !sending
        invariant !failed ==> forall i :: 0 <= i < |errs| ==> (errs[i] == OK <==> i <= |AllGiven(calls)|)
      {
        ghost var mid, was, rest := sent, sending, calls[|errs|..];
        ghost var part := CallBytes(rest[0], max);
        assert rest[1..] == calls[|errs| + 1..];
        CallUnfold(rest, max);
        var err, _ := HttpDataSend(calls[|errs|], wbSz);
        if was {
          WroteThen(err == OK, before, mid, sent, done, part);
          Assoc(done, part, Transmission(rest[1..], max));
          done, failed := done + part, err == WriteTimeout;
        }
        errs := errs + [err];
      }
      AppendEmpty(done);
      NoCalls(max);
      if failed {
        assert all == done + all[|done|..];
        WroteSome(before, sent, done, all[|done|..]);
      }
    }
  }

  lemma NoCalls(max: nat)
    requires max > 0
    ensures Transmission([], max) == [] && AllGiven([]) == []
  {
  }

  /** What a write that took `all`, or failed somewhere in it, leaves on the socket. */
  ghost predicate Wrote(ok: bool, before: bytes, after: bytes, all: bytes) {
    if ok then after == before + all else before <= after <= before + all
  }

  /** Writing some of it and then the rest. */
  lemma WroteThen(ok: bool, before: bytes, mid: bytes, after: bytes, part: bytes, more: bytes)
    requires Wrote(true, before, mid, part) && Wrote(ok, mid, after, more)
    ensures Wrote(ok, before, after, part + more)
  {
    Assoc(before, part, more);
  }

  lemma WroteNothing(sent: bytes)
    ensures Wrote(true, sent, sent, [])
  {
  }

  lemma PieceCut(buf: bytes, at: nat, n: nat)
    requires at + n <= |buf|
    ensures buf[at..at + n] == buf[at..][..n] && buf[at + n..] == buf[at..][n..]
  {
  }

  lemma PiecesEnd(rest: bytes, max: nat)
    requires rest == [] && max > 0
    ensures Chunks(Pieces(rest, max)) == []
  {
  }

  lemma WroteSome(before: bytes, after: bytes, part: bytes, more: bytes)
    requires Wrote(false, before, after, part)
    ensures Wrote(false, before, after, part + more)
  {
    Assoc(before, part, more);
  }

  lemma PiecesUnfold(buf: bytes, max: nat)
    requires buf != [] && max > 0
    ensures var n := if |buf| > max then max else |buf|;
            Chunks(Pieces(buf, max)) == Chunk(buf[..n]) + Chunks(Pieces(buf[n..], max))
  {
    var n := if |buf| > max then max else |buf|;
    assert ([buf[..n]] + Pieces(buf[n..], max))[1..] == Pieces(buf[n..], max);
  }

  /** A round of the processor either ends the call with its result, or takes `sz` bytes and leaves
      `a`, with the rest of the call still to do. `r` is the result of the whole call. */
  ghost predicate Round(r: IdpResult, a: Args, done: bool, err: Err, rest: bytes, sz: nat, processed: nat, data: bytes) {
    sz <= |rest| && ValidArgs(a) &&
    if done then r == IdpResult(err, a, processed, false, data)
    else r == Idp(a, rest[sz..], processed + sz, data)
  }

  lemma LineRound(a: Args, rest: bytes, processed: nat, data: bytes)
    requires a.state == 1 && rest != []
    ensures var e, n, r := LineEnd(rest, 0), ReadHex(rest), Idp(a, rest, processed, data);
            if At(rest, e) == 0 then
              Round(r, a, true, if processed > 0 then OK else MoreDataNeeded, rest, 0, processed, data)
            else if n.Bad? then Round(r, a.(chunkSz := 0), true, DataProcessing, rest, 0, processed, data)
            else Round(r, Args(if n.n != 0 then 2 else 4, n.n, 0), false, OK, rest, (e + 1) % 256, processed, data)
  {
    hide ReadHex, LineEnd;
  }

  lemma IdpAtEnd(a: Args, processed: nat, data: bytes)
    requires ValidArgs(a)
    ensures Idp(a, [], processed, data) == Stop(a, processed, data)
  {
  }
}
