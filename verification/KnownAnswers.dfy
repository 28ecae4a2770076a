/** Examples from the standards that the components implement, as bytes. */
module KnownAnswers {
  import opened Bytes
  import opened BitStrings
  import Adler32
  import Chunked
  import HexText
  import HttpResponse
  import JpegHuffman
  import JpegScan
  import JsonText
  import MachineModel
  import SpiffsCache
  import StateMachine
  import WebSocket
  import WebSocketSend

  /** A text in ASCII */
  function Ascii(s: string): (b: bytes)
    ensures |b| == |s| && forall i :: 0 <= i < |s| ==> b[i] == if s[i] as int < 128 then s[i] as int else 63
  {
    seq(|s|, i requires 0 <= i < |s| => if s[i] as int < 128 then s[i] as int else 63)
  }

  // ---------------------------------------------------------------- HTTP

  /** Chunk sizes are hexadecimal, in capital letters. */
  lemma SizeLines()
    ensures HexText.Hex(0x1F) == Ascii("1F") && HexText.Hex(0xA0) == Ascii("A0") && HexText.Hex(0x9BC) == Ascii("9BC")
    ensures HexText.Hex(0xDE) == Ascii("DE")
  {
  }

  /** A chunk, and the end of a body (section 3.6.1 of RFC 2616) */
  lemma ChunkText()
    ensures Chunked.Chunk(Ascii("hi")) == Ascii("2\r\nhi\r\n") && Chunked.Wire([]) == Ascii("0\r\n\r\n")
  {
    assert HexText.Hex(2) == [50];
  }

  /** Request lines (section 5.1 of RFC 2616), as the client ends them */
  lemma RequestLines(m: MachineModel.Method, uri: bytes)
    requires |uri| < 0x1_0000
    ensures StateMachine.RequestLine(m, uri) == StateMachine.Token(m) + uri + StateMachine.END_OF_LINE
    ensures StateMachine.Token(MachineModel.Get) == Ascii("GET ") && StateMachine.Token(MachineModel.Head) == Ascii("HEAD ")
    ensures StateMachine.Token(MachineModel.Post) == Ascii("POST ") && StateMachine.Token(MachineModel.Put) == Ascii("PUT ")
    ensures StateMachine.END_OF_LINE == Ascii(" HTTP/1.1\r\n\r\n")
  {
  }

  /** A status line (section 6.1 of RFC 2616), and the end of a head */
  lemma StatusLine()
    ensures HttpResponse.StatusLine(Ascii("HTTP/1.1 204 No"), 8, 9, 204)
    ensures HttpResponse.EndsAt(Ascii("a\r\n\r\nb"), 1)
  {
    var head := Ascii("HTTP/1.1 204 No");
    assert HttpResponse.DecimalAt(head, 9, 1) == 2;
    assert HttpResponse.DecimalAt(head, 9, 2) == 20;
    assert Ascii("a\r\n\r\nb")[1..5] == HttpResponse.END_OF_HEAD;
  }

  // ---------------------------------------------------------------- websockets (section 5.7 of RFC 6455)

  /** The number that the application gets advances behind the last frame of a message: one in a single frame, and one
      in two with a ping between them. */
  lemma MessageNumbers(id: nat)
    requires id < 256
    ensures WebSocket.NextId(0x81, id) == (id + 1) % 256
    ensures WebSocket.NextId(0x01, id) == id && WebSocket.NextId(0x89, id) == id && WebSocket.NextId(0x80, id) == (id + 1) % 256
    ensures WebSocket.Meaning(0x01, id, Ascii("H")) == [WebSocket.Tag(id, 72)] && WebSocket.Meaning(0x89, id, Ascii("H")) == []
  {
  }

  /** The lengths of a frame in their three forms */
  lemma FrameLengths()
    ensures WebSocket.ReadHead([0x81, 0x05]) == WebSocket.Head(2, 5)
    ensures WebSocket.ReadHead([0x82, 0x7E, 0x01, 0x00]) == WebSocket.Head(4, 256)
    ensures WebSocket.ReadHead([0x82, 0x7F, 0, 0, 0, 0, 0, 1, 0, 0]) == WebSocket.Head(10, 65536)
  {
  }

  lemma FrameTypes()
    ensures WebSocketSend.Code(WebSocketSend.Text) == 0x1 && WebSocketSend.Code(WebSocketSend.Binary) == 0x2
    ensures WebSocketSend.Code(WebSocketSend.Close) == 0x8 && WebSocketSend.Code(WebSocketSend.Pong) == 0xA
    ensures WebSocketSend.Payload(WebSocketSend.Close, []) == [1000 / 256, 1000 % 256]
  {
  }

  /** Bit j of a number, counted from the lowest */
  function Bit(v: nat, j: nat): bool {
    if j == 0 then v % 2 == 1 else Bit(v / 2, j - 1)
  }

  /** Masking is exclusive or, bit by bit, with the byte of the key whose turn it is (section 5.3). */
  lemma {:induction false} MaskedAt(key: bytes, data: bytes, k: nat, i: nat, j: nat)
    requires |key| == 4 && i < |data|
    ensures Bit(WebSocketSend.Masked(key, data, k)[i], j) <==> Bit(data[i], j) != Bit(key[(k + i) % 4], j)
    decreases i
  {
    hide WordXor, Bit;
    if i == 0 {
      XorBit(data[0], key[k % 4], j);
    } else {
      MaskedAt(key, data[1..], k + 1, i - 1, j);
    }
  }

  lemma XorHalf(a: nat, b: nat)
    ensures WordXor(a, b) / 2 == WordXor(a / 2, b / 2) && WordXor(a, b) % 2 == (a + b) % 2
  {
    XorStep(a, b);
    hide WordXor;
    var h, l := WordXor(a / 2, b / 2), (a % 2 + b % 2) % 2;
    assert (2 * h + l) / 2 == h && (2 * h + l) % 2 == l;
  }

  lemma {:induction false} XorBit(a: nat, b: nat, j: nat)
    ensures Bit(WordXor(a, b), j) <==> Bit(a, j) != Bit(b, j)
    decreases j
  {
    hide WordXor;
    XorHalf(a, b);
    if j > 0 {
      XorBit(a / 2, b / 2, j - 1);
    }
  }

  // ---------------------------------------------------------------- Adler-32 (section 8.2 of RFC 1950)

  /** Both sums run over the bytes, and the modulus is 65521. */
  lemma Checksums()
    ensures Adler32.Adler(Adler32.Sums(1, 0), [97, 98]) == Adler32.Sums(0x00C4, 0x0126)
    ensures Adler32.LZO_BASE == 65521
  {
    assert [97, 98][1..] == [98] && [98][1..] == [];
    assert Adler32.Adler(Adler32.Sums(98, 98), [98]) == Adler32.Sums(196, 294);
  }

  // ---------------------------------------------------------------- JPEG (ITU-T T.81)

  /** The first words of a DC table (Table K.3): consecutive in one length, and doubled into the next */
  lemma CodeWords()
    ensures var sizes := [2, 3, 3, 3, 3, 3, 4];
            && JpegHuffman.Canonical(sizes)
            && JpegHuffman.CodeAt(sizes, 0) == 0x0 && JpegHuffman.CodeAt(sizes, 1) == 0x2 && JpegHuffman.CodeAt(sizes, 2) == 0x3
            && JpegHuffman.CodeAt(sizes, 5) == 0x6 && JpegHuffman.CodeAt(sizes, 6) == 0xE
  {
    assert Pow2(1) == 2 && Pow2(0) == 1;
  }

  /** The additional bits of a difference (Table F.1 and section F.1.2.1) */
  lemma Amplitudes()
    ensures JpegScan.NumBits(1) == 1 && JpegScan.NumBits(3) == 2 && JpegScan.NumBits(7) == 3
    ensures JpegScan.Amp(1, 1) == [true] && JpegScan.Amp(-1, 1) == [false]
    ensures JpegScan.Amp(5, 3) == [true, false, true] && JpegScan.Amp(-5, 3) == [false, true, false]
  {
  }

  /** Bits go into bytes from the highest down. */
  lemma {:induction false} BitOrder(bs: bytes, i: nat, j: nat)
    requires i < |bs| && j < 8
    ensures JpegScan.BitsOf(bs)[8 * i + j] <==> bs[i] / Pow2(7 - j) % 2 == 1
  {
    if i < |bs| - 1 {
      BitOrder(bs[..|bs| - 1], i, j);
    } else {
      BitAt(bs[i], 8, j);
    }
  }

  /** The end of an image, and a byte that could be taken for a marker (sections B.1.1.2 and B.1.1.5) */
  lemma Markers()
    ensures JpegScan.EOI_MARKER == [0xFF, 0xD9] && JpegScan.Stuffed([0xFF]) == [0xFF, 0x00] && JpegScan.Stuffed([0xFE]) == [0xFE]
  {
    assert [0xFF][..0] == [] && [0xFE][..0] == [];
  }

  // ---------------------------------------------------------------- NOR flash

  lemma {:induction false} AndBit(a: nat, b: nat, j: nat)
    ensures Bit(And(a, b), j) <==> Bit(a, j) && Bit(b, j)
    decreases j
  {
    if a == 0 || b == 0 {
      NoBit(j);
    } else {
      var h, l := And(a / 2, b / 2), if a % 2 == 1 && b % 2 == 1 then 1 else 0;
      assert And(a, b) == 2 * h + l;
      hide And;
      assert (2 * h + l) / 2 == h && (2 * h + l) % 2 == l;
      if j > 0 {
        AndBit(a / 2, b / 2, j - 1);
      }
    }
  }

  lemma {:induction false} NoBit(j: nat)
    ensures !Bit(0, j)
  {
    if j > 0 {
      NoBit(j - 1);
    }
  }

  lemma {:induction false} ProgramBit(was: bytes, src: bytes, i: nat, j: nat)
    requires |was| == |src| && i < |src|
    ensures Bit(SpiffsCache.Program(was, src)[i], j) <==> Bit(was[i], j) && Bit(src[i], j)
    decreases i
  {
    if i == 0 {
      AndBit(was[0], src[0], j);
    } else {
      ProgramBit(was[1..], src[1..], i - 1, j);
    }
  }

  /** A write clears the bits that are clear in it, and no other; an erasure sets them all. */
  lemma FlashBits(page: bytes, off: nat, src: bytes, i: nat, j: nat)
    requires off + |src| <= |page| && i < |page| && j < 8
    ensures Bit(SpiffsCache.ProgramPage(page, off, src)[i], j) <==>
              Bit(page[i], j) && (off <= i < off + |src| ==> Bit(src[i - off], j))
    ensures Bit(SpiffsCache.Erased(|page|)[i], j)
  {
    if off <= i < off + |src| {
      ProgramBit(page[off..off + |src|], src, i - off, j);
    }
    ErasedAt(|page|, i);
    AllBits(j);
  }

  lemma {:induction false} ErasedAt(n: nat, i: nat)
    requires i < n
    ensures SpiffsCache.Erased(n)[i] == 0xFF
    decreases i
  {
    if i > 0 {
      ErasedAt(n - 1, i - 1);
    }
  }

  lemma AllBits(j: nat)
    requires j < 8
    ensures Bit(0xFF, j)
  {
    assert Bit(0xFF, 3) && Bit(0xFF, 7);
  }

  // ---------------------------------------------------------------- JSON (RFC 8259)

  lemma Texts()
    ensures JsonText.Text(JsonText.Arr([JsonText.Null, JsonText.Num(-7)]), 0, false) == Ascii("[null,-7]")
    ensures JsonText.Text(JsonText.Obj([JsonText.Member(Ascii("a"), JsonText.True)]), 0, false) == Ascii("{\"a\":true}")
  {
  }
}
