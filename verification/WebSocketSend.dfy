/** The sending half of the mango client's websockets: the frame, its masking, unrolled and not, and what a
    server reads from it (sections 5.2 and 5.3 of RFC 6455). */
module WebSocketSend {
  import opened BitStrings
  import opened Bytes
  import opened WebSocket
  import opened Wrappers

  // ---------------------------------------------------------------- masking

  function XorByte(a: byte, b: byte): byte {
    Pow2s();
    XorBound(a, b, 256, 8);
    WordXor(a, b)
  }

  lemma XorByteTwice(a: byte, b: byte)
    ensures XorByte(XorByte(a, b), b) == a
  {
    XorTwice(a, b);
  }

  /** The payload from its byte k on, under a key of four bytes that goes round. */
  function Masked(key: bytes, data: bytes, k: nat): (m: bytes)
    requires |key| == 4
    ensures |m| == |data|
  {
    if data == [] then [] else [XorByte(data[0], key[k % 4])] + Masked(key, data[1..], k + 1)
  }

  lemma {:induction false} MaskTwice(key: bytes, data: bytes, k: nat)
    requires |key| == 4
    ensures Masked(key, Masked(key, data, k), k) == data
  {
    if data != [] {
      hide XorByte;
      XorByteTwice(data[0], key[k % 4]);
      MaskTwice(key, data[1..], k + 1);
      assert Masked(key, data, k)[1..] == Masked(key, data[1..], k + 1);
    }
  }

  lemma {:induction false} MaskSnoc(key: bytes, data: bytes, n: nat)
    requires |key| == 4 && n < |data|
    ensures Masked(key, data[..n + 1], 0) == Masked(key, data[..n], 0) + [XorByte(data[n], key[n % 4])]
  {
    hide XorByte;
    MaskAppend(key, data[..n], [data[n]], 0);
    assert data[..n + 1] == data[..n] + [data[n]];
    assert Masked(key, [data[n]], n) == [XorByte(data[n], key[n % 4])] + Masked(key, [], n + 1);
  }

  lemma {:induction false} MaskAppend(key: bytes, a: bytes, b: bytes, k: nat)
    requires |key| == 4
    ensures Masked(key, a + b, k) == Masked(key, a, k) + Masked(key, b, k + |a|)
  {
    hide XorByte;
    if a == [] {
      AppendEmpty(b);
      AppendEmpty(Masked(key, b, k));
    } else {
      assert (a + b)[1..] == a[1..] + b;
      MaskAppend(key, a[1..], b, k + 1);
      Assoc([XorByte(a[0], key[k % 4])], Masked(key, a[1..], k + 1), Masked(key, b, k + |a|));
    }
  }

  // ---------------------------------------------------------------- the frame

  datatype Type = Text | Binary | Close | Pong

  function Code(t: Type): byte {
    match t
    case Text => 1
    case Binary => 2
    case Close => 8
    case Pong => 10
  }

  /** What is sent: a close frame has the status 1000, a pong nothing. */
  function Payload(t: Type, data: bytes): bytes {
    match t
    case Close => [3, 232]
    case Pong => []
    case _ => data
  }

  /** The header: final, with the shortest length encoding, and masked. */
  function SendHeader(t: Type, n: nat, key: bytes): (h: bytes)
    requires n < 0x1_0000_0000 && |key| == 4
    ensures 6 <= |h| <= 14
  {
    (if n <= 125 then [128 + Code(t), 128 + n]
     else if n <= 0xFFFF then [128 + Code(t), 254, n / 256, n % 256]
     else [128 + Code(t), 255, 0, 0, 0, 0] + Big4(n)) + key
  }

  function FrameBytes(t: Type, data: bytes, key: bytes): bytes
    requires |Payload(t, data)| < 0x1_0000_0000 && |key| == 4
  {
    SendHeader(t, |Payload(t, data)|, key) + Masked(key, Payload(t, data), 0)
  }

  // ---------------------------------------------------------------- what a server reads

  /** A masked frame: its first byte, its payload unmasked, and what follows it. */
  datatype Received = Received(first: byte, payload: bytes, rest: bytes)

  function ReadMasked(s: bytes): Option<Received> {
    if |s| < 2 || s[1] < 128 then None
    else
      var (len, n) :=
        if s[1] < 254 then (2, s[1] as int - 128)
        else if s[1] == 254 then if |s| < 4 then (|s|, 0) else (4, s[2] as int * 256 + s[3])
        else if |s| < 10 || s[2] != 0 || s[3] != 0 || s[4] != 0 || s[5] != 0 then (|s|, 0)
        else (10, s[6] as int * 0x100_0000 + s[7] as int * 0x1_0000 + s[8] as int * 256 + s[9]);
      if |s| < len + 4 + n then None
      else Some(Received(s[0], Masked(s[len..len + 4], s[len + 4..len + 4 + n], 0), s[len + 4 + n..]))
  }

  /** A server reads the payload that was sent, whatever the key. */
  lemma FrameInverse(t: Type, data: bytes, key: bytes, rest: bytes)
    requires |Payload(t, data)| < 0x1_0000_0000 && |key| == 4
    ensures ReadMasked(FrameBytes(t, data, key) + rest) == Some(Received(128 + Code(t), Payload(t, data), rest))
  {
    hide Masked;
    var p := Payload(t, data);
    var n, h, m := |p|, SendHeader(t, |p|, key), Masked(key, p, 0);
    var s, len := h + m + rest, |h| - 4;
    if n > 0xFFFF {
      Big4Inverse(n);
    }
    Assoc(h, m, rest);
    FrameCuts(h, key, m, rest, h[..len]);
    HeadBytes(s, h);
    MaskTwice(key, p, 0);
  }

  lemma HeadBytes(s: bytes, h: bytes)
    requires h <= s
    ensures forall i :: 0 <= i < |h| ==> s[i] == h[i]
  {
  }

  lemma FrameCuts(h: bytes, key: bytes, m: bytes, rest: bytes, front: bytes)
    requires h == front + key && |key| == 4
    ensures var s, len := h + m + rest, |front|;
            h <= s && s[len..len + 4] == key && s[len + 4..len + 4 + |m|] == m && s[len + 4 + |m|..] == rest
  {
  }

  // ---------------------------------------------------------------- the code

  /** Writes bytes behind what is there. */
  method Put(frame: array<byte>, i: nat, bs: bytes) returns (next: nat)
    requires i + |bs| <= frame.Length
    modifies frame
    ensures next == i + |bs| && frame[..next] == old(frame[..i]) + bs
  {
    forall k | 0 <= k < |bs| {
      frame[i + k] := bs[k];
    }
    next := i + |bs|;
  }

  /** The header and the first k bytes of the payload, masked, are in the frame. */
  ghost predicate Filled(frame: array<byte>, i: nat, buf: bytes, k: nat, key: bytes, header: bytes)
    reads frame
  {
    && |key| == 4 && k <= |buf| && i == |header| + k <= frame.Length
    && frame[..i] == header + Masked(key, buf[..k], 0)
  }

  /** One payload byte, masked. */
  method PutMasked(frame: array<byte>, i: nat, buf: bytes, k: nat, key: bytes, keyByte: nat, ghost header: bytes)
    requires Filled(frame, i, buf, k, key, header) && k < |buf| && keyByte == k % 4 && i < frame.Length
    modifies frame
    ensures Filled(frame, i + 1, buf, k + 1, key, header)
  {
    hide XorByte, Masked;
    MaskSnoc(key, buf, k);
    Assoc(header, Masked(key, buf[..k], 0), [XorByte(buf[k], key[keyByte])]);
    var _ := Put(frame, i, [XorByte(buf[k], key[keyByte])]);
  }

  /** Eight bytes, unrolled. */
  method PutEight(frame: array<byte>, i: nat, buf: bytes, k: nat, key: bytes, ghost header: bytes)
    requires Filled(frame, i, buf, k, key, header) && k % 8 == 0 && k + 8 <= |buf| && i + 8 <= frame.Length
    modifies frame
    ensures Filled(frame, i + 8, buf, k + 8, key, header)
  {
    hide Filled;
    RoundKey(k);
    PutMasked(frame, i, buf, k, key, 0, header);
    PutMasked(frame, i + 1, buf, k + 1, key, 1, header);
    PutMasked(frame, i + 2, buf, k + 2, key, 2, header);
    PutMasked(frame, i + 3, buf, k + 3, key, 3, header);
    PutMasked(frame, i + 4, buf, k + 4, key, 0, header);
    PutMasked(frame, i + 5, buf, k + 5, key, 1, header);
    PutMasked(frame, i + 6, buf, k + 6, key, 2, header);
    PutMasked(frame, i + 7, buf, k + 7, key, 3, header);
  }

  lemma RoundKey(k: nat)
    requires k % 8 == 0
    ensures k % 4 == 0 && (k + 1) % 4 == 1 && (k + 2) % 4 == 2 && (k + 3) % 4 == 3
    ensures (k + 4) % 4 == 0 && (k + 5) % 4 == 1 && (k + 6) % 4 == 2 && (k + 7) % 4 == 3
  {
  }

  /** The masking loops. */
  method MaskPayload(frame: array<byte>, i0: nat, buf: bytes, key: bytes) returns (i: nat)
    requires |key| == 4 && i0 + |buf| <= frame.Length
    modifies frame
    ensures i == i0 + |buf| && frame[..i] == old(frame[..i0]) + Masked(key, buf, 0)
  {
    hide Masked;
    ghost var header := frame[..i0];
    var k: nat, buflen: nat := 0, |buf|;
    i := i0;
    MaskNothing(key, buf);
    AppendEmpty(header);
    while buflen >= 8
      invariant k + buflen == |buf| && k % 8 == 0 && Filled(frame, i, buf, k, key, header)
    {
      PutEight(frame, i, buf, k, key, header);
      i, k, buflen := i + 8, k + 8, buflen - 8;
    }
    while buflen > 0
      invariant k + buflen == |buf| && Filled(frame, i, buf, k, key, header)
    {
      PutMasked(frame, i, buf, k, key, k % 4, header);
      i, k, buflen := i + 1, k + 1, buflen - 1;
    }
    assert buf[..k] == buf;
  }

  lemma MaskNothing(key: bytes, buf: bytes)
    requires |key| == 4
    ensures Masked(key, buf[..0], 0) == []
  {
  }

  /** The header, byte by byte. */
  method PutHeader(frame: array<byte>, t: Type, buflen: nat, key: bytes) returns (i: nat, framelen: nat)
    requires |key| == 4 && buflen < 0x1_0000_0000 && |SendHeader(t, buflen, key)| <= frame.Length
    modifies frame
    ensures i == |SendHeader(t, buflen, key)| && framelen == i + buflen && frame[..i] == SendHeader(t, buflen, key)
  {
    if buflen <= 125 {
      framelen := buflen + 6;
      i := Put(frame, 0, [128 + Code(t), 128 + buflen]);
    } else if buflen <= 0xFFFF {
      framelen := buflen + 8;
      i := Put(frame, 0, [128 + Code(t), 254, buflen / 256 % 256, buflen % 256]);
    } else {
      framelen := buflen + 14;
      i := Put(frame, 0, [128 + Code(t), 255, 0, 0, 0, 0] + Big4(buflen));
    }
    i := Put(frame, i, key);
  }

  /** The frame as it goes to the socket. Eight bytes hold a close frame and a pong. */
  method ComposeFrame(data: bytes, t: Type, key: bytes) returns (frame: array<byte>, framelen: nat)
    requires |data| + 14 < 0x1_0000_0000 && |key| == 4
    ensures framelen <= frame.Length && frame[..framelen] == FrameBytes(t, data, key)
    ensures ReadMasked(frame[..framelen]) == Some(Received(128 + Code(t), Payload(t, data), []))
  {
    hide Masked, SendHeader, ReadMasked;
    var buf := data;
    match t {
      case Close => buf := [3, 232];
      case Pong => buf := [];
      case _ =>
    }
    SmallHeader(t, key);
    frame := new byte[if t == Pong || t == Close then 8 else |buf| + 14](_ => 0);
    var i;
    i, framelen := PutHeader(frame, t, |buf|, key);
    i := MaskPayload(frame, i, buf, key);
    FrameInverse(t, data, key, []);
    AppendEmpty(FrameBytes(t, data, key));
  }

  /** mangoWS_frameSend, with what the allocator and the socket say. Success means that all of the frame has
      gone out, or that there was no memory for it and nothing has. */
  method FrameSend(data: bytes, t: Type, key: bytes)
    returns (ok: bool, memory: bool, retval: int, sent: bytes)
    requires |data| + 14 < 0x1_0000_0000 && |key| == 4
    ensures ok <==> !memory || retval == |FrameBytes(t, data, key)|
    ensures sent <= FrameBytes(t, data, key) && (memory && retval >= 0 ==> |sent| == retval)
    ensures !memory ==> sent == [] && t != Close && t != Pong
    ensures ok && memory ==> ReadMasked(sent) == Some(Received(128 + Code(t), Payload(t, data), []))
  {
    hide FrameBytes, ReadMasked;
    ok, retval, sent := true, 0, [];
    memory := *;
    if t == Pong || t == Close {
      memory := true;
    }
    if !memory {
      return;
    }
    var frame, framelen := ComposeFrame(data, t, key);
    retval := *;
    if retval > framelen {
      retval := framelen;
    }
    if retval >= 0 {
      sent := frame[..retval];
    } else {
      var n :| 0 <= n <= framelen;
      sent := frame[..n];
    }
    ok := retval >= 0 && retval == framelen;
  }

  /** mango_wsFrameSend and mangoODP_websocket, which hand on 16 bits of the length. A frame reported as sent has
      all of the data if and only if that is at most 65535 bytes. */
  method WsFrameSend(data: bytes, t: Type, key: bytes)
    returns (ok: bool, memory: bool, retval: int, sent: bytes)
    requires t.Text? || t.Binary?
    requires |key| == 4
    ensures var given := data[..|data| % 0x1_0000];
            && (ok <==> !memory || retval == |FrameBytes(t, given, key)|)
            && sent <= FrameBytes(t, given, key) && (!memory ==> sent == [])
            && (ok && memory ==> ReadMasked(sent) == Some(Received(128 + Code(t), given, [])))
    ensures ok && memory ==> (ReadMasked(sent) == Some(Received(128 + Code(t), data, [])) <==> |data| <= 0xFFFF)
  {
    hide FrameBytes, ReadMasked;
    var given := data[..|data| % 0x1_0000];
    ok, memory, retval, sent := FrameSend(given, t, key);
    assert Payload(t, given) == given;
    assert given == data <==> |data| <= 0xFFFF;
  }

  lemma SmallHeader(t: Type, key: bytes)
    requires |key| == 4
    ensures |SendHeader(t, 2, key)| == |SendHeader(t, 0, key)| == 6
  {
  }
}
