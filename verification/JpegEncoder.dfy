/** The encoder's output side: the buffered stream, the 24-bit window of the bit writer, and the coding of
    blocks, ending in a file whose decoding gives back every block. */
module JpegEncoder {
  import opened Arith
  import opened Bytes
  import opened BitStrings
  import opened JpegHuffman
  import opened JpegScan
  import opened Wrappers

  const OUT_BUF_SIZE := 512

  // ---------------------------------------------------------------- the bit window

  /** The pending bits are at the top of the low 24 bits of the register and nothing is below them. What
      was shifted out stays above them, unmasked. */
  ghost predicate Window(buffer: nat, pending: bits) {
    |pending| <= 24 && buffer < U32 && buffer % 0x100_0000 == Value(pending) * Pow2(24 - |pending|)
  }

  lemma WindowAdd(buffer: nat, pending: bits, v: nat, n: nat)
    requires Window(buffer, pending) && |pending| + n <= 24 && v < Pow2(n)
    ensures Window(Or(buffer, Shl(v, 24 - |pending| - n)), pending + ToBits(v, n))
  {
    hide Value, ToBits, Or, Pow2, Shl;
    ValueOfBits(v, n);
    ValueAppend(pending, ToBits(v, n));
    ValueBound(pending);
    AddArith(buffer, Value(pending), |pending|, v, n);
  }

  lemma AddArith(buffer: nat, low: nat, m: nat, v: nat, n: nat)
    requires m + n <= 24 && low < Pow2(m) && v < Pow2(n)
    requires buffer < U32 && buffer % 0x100_0000 == low * Pow2(24 - m)
    ensures var r := Or(buffer, Shl(v, 24 - m - n));
            r < U32 && r % 0x100_0000 == (low * Pow2(n) + v) * Pow2(24 - m - n)
  {
    hide Or, Pow2, Shl;
    var k, high := 24 - m - n, buffer / 0x100_0000;
    ShiftFits(v, n, k);
    WindowSum(high, low, m, v, n);
    Pow2Add(n, k);
    OrDisjoint(buffer, v * Pow2(k), n + k);
  }

  lemma ShiftFits(v: nat, n: nat, k: nat)
    requires v < Pow2(n) && n + k <= 24
    ensures Shl(v, k) == v * Pow2(k) < Pow2(n + k) <= 0x100_0000
  {
    Pow2s();
    hide Pow2, Shl;
    var x, y := v * Pow2(k), Pow2(n + k);
    assert x < y by {
      Pow2Add(n, k);
      TimesMonotone(v, Pow2(n), Pow2(k));
    }
    assert y <= 0x100_0000 by {
      Pow2Add(n + k, 24 - n - k);
      TimesLeft(y, Pow2(24 - n - k));
    }
    SmallShl(v, k);
  }

  lemma SmallShl(v: nat, k: nat)
    requires v * Pow2(k) < U32
    ensures Shl(v, k) == v * Pow2(k)
  {
    hide Pow2;
    DivIs(v * Pow2(k), U32, 0, v * Pow2(k));
  }

  lemma WindowSum(high: nat, low: nat, m: nat, v: nat, n: nat)
    requires m + n <= 24 && low < Pow2(m) && v < Pow2(n)
    ensures var k := 24 - m - n;
            var sum := high * 0x100_0000 + low * Pow2(n + k) + v * Pow2(k);
            && (high * 0x100_0000 + low * Pow2(n + k)) % Pow2(n + k) == 0
            && low * Pow2(n + k) + v * Pow2(k) == (low * Pow2(n) + v) * Pow2(k) < 0x100_0000
            && sum % 0x100_0000 == low * Pow2(n + k) + v * Pow2(k) && sum / 0x100_0000 == high
  {
    var k := 24 - m - n;
    Pow2s();
    hide Pow2;
    Pow2Add(m, n + k);
    Pow2Add(n, k);
    TimesAssoc(low, Pow2(n), Pow2(k));
    TimesAdd(low * Pow2(n), v, Pow2(k));
    ShiftFits(v, n, k);
    Below(low, Pow2(m), Pow2(n + k), v * Pow2(k));
    TimesAssoc(high, Pow2(m), Pow2(n + k));
    TimesAdd(high * Pow2(m), low, Pow2(n + k));
    MultipleRem(high * Pow2(m) + low, Pow2(n + k));
    DivIs(high * 0x100_0000 + (low * Pow2(n + k) + v * Pow2(k)), 0x100_0000, high, low * Pow2(n + k) + v * Pow2(k));
  }

  /** The byte on top of the window, and the window behind it. */
  lemma WindowTake(buffer: nat, pending: bits)
    requires Window(buffer, pending) && |pending| >= 8
    ensures buffer / 0x1_0000 % 256 < 256 && ToBits(buffer / 0x1_0000 % 256, 8) == pending[..8]
    ensures Window(Shl(buffer, 8), pending[8..])
  {
    var head, tail := pending[..8], pending[8..];
    Split(pending, 8);
    ValueAppend(head, tail);
    ValueBound(head);
    ValueBound(tail);
    BitsOfValue(head);
    Pow2s();
    hide Value, ToBits, Pow2;
    TakeByte(buffer, Value(head), Value(tail), |tail|, 24 - |pending|);
  }

  lemma TakeByte(buffer: nat, c: nat, t: nat, m: nat, k: nat)
    requires m + k == 16 && c < 256 && t < Pow2(m)
    requires buffer < U32 && buffer % 0x100_0000 == (c * Pow2(m) + t) * Pow2(k)
    ensures buffer / 0x1_0000 % 256 == c
    ensures Shl(buffer, 8) < U32 && Shl(buffer, 8) % 0x100_0000 == t * Pow2(k + 8)
  {
    Pow2s();
    hide Pow2;
    Pow2Add(m, k);
    Pow2Add(k, 8);
    TimesAdd(c * Pow2(m), t, Pow2(k));
    TimesAssoc(c, Pow2(m), Pow2(k));
    TimesAssoc(t, Pow2(k), 256);
    TimesMonotone(t, Pow2(m), Pow2(k));
    TopByte(buffer, c, t * Pow2(k));
  }

  lemma TopByte(buffer: nat, c: nat, low: nat)
    requires buffer < U32 && buffer % 0x100_0000 == c * 0x1_0000 + low && c < 256 && low < 0x1_0000
    ensures buffer / 0x1_0000 % 256 == c
    ensures buffer * 256 % U32 % 0x100_0000 == low * 256
  {
    var high := buffer / 0x100_0000;
    var word, rest := high * 256 + c, c * 0x100_0000 + low * 256;
    assert buffer == word * 0x1_0000 + low;
    DivIs(buffer, 0x1_0000, word, low);
    DivIs(word, 256, high, c);
    assert buffer * 256 == high * U32 + rest;
    DivIs(buffer * 256, U32, high, rest);
    DivIs(rest, 0x100_0000, c, low * 256);
  }

  // ---------------------------------------------------------------- bytes of the scan

  lemma BitsOfAppend(bs: bytes, c: byte)
    ensures BitsOf(bs + [c]) == BitsOf(bs) + ToBits(c, 8)
    ensures Stuffed(bs + [c]) == Stuffed(bs) + if c == 0xFF then [0xFF, 0] else [c]
  {
    assert (bs + [c])[..|bs|] == bs;
  }

  class Encoder {
    const tables: seq<Table>
    ghost const huffs: Huffs
    const outBuf: array<byte>
    var pos: nat
    var outBufLeft: nat
    var bitBuffer: nat
    var bitsIn: nat
    var lastDcVal: seq<int>
    var allWritesSucceeded: bool
    var stream: bytes           // what the application has taken
    ghost var emitted: bytes    // every byte emitted so far
    ghost var header: bytes     // the part of it before the scan
    ghost var full: bytes       // the bytes of the scan, before stuffing
    ghost var pending: bits     // the bits behind them

    ghost predicate Buffered()
      reads this, outBuf
    {
      && outBuf.Length == OUT_BUF_SIZE && outBufLeft <= OUT_BUF_SIZE && pos == OUT_BUF_SIZE - outBufLeft
      && (allWritesSucceeded ==> emitted == stream + outBuf[..pos])
    }

    ghost predicate Valid()
      reads this, outBuf
    {
      Buffered() && outBufLeft > 0
    }

    ghost predicate TablesValid() {
      && huffs.Valid() && |tables| == 4
      && Filled(tables[0], huffs.dc0) && Filled(tables[1], huffs.dc1)
      && Filled(tables[2], huffs.ac0) && Filled(tables[3], huffs.ac1)
    }

    /** In the scan: the stuffed bytes are out, and fewer than eight bits wait in the window. */
    ghost predicate InScan()
      reads `emitted, `header, `full, `bitBuffer, `pending, `bitsIn
    {
      emitted == header + Stuffed(full) && Window(bitBuffer, pending) && bitsIn == |pending|
    }

    /** The bits of the scan so far. */
    ghost function Coded(): bits
      reads `full, `pending
    {
      BitsOf(full) + pending
    }

    /** m_pPut_buf: the application takes the data, or fails. */
    method PutBuf(data: bytes) returns (ok: bool)
      modifies this`stream
      ensures ok ==> stream == old(stream) + data
    {
      ok := *;
      if ok {
        stream := stream + data;
      }
    }

    method FlushOutputBuffer()
      requires Buffered()
      modifies this`stream, this`allWritesSucceeded, this`pos, this`outBufLeft
      ensures Valid() && outBufLeft == OUT_BUF_SIZE
      ensures allWritesSucceeded ==> old(allWritesSucceeded) && stream == emitted
    {
      if outBufLeft != OUT_BUF_SIZE {
        if allWritesSucceeded {
          allWritesSucceeded := PutBuf(outBuf[..OUT_BUF_SIZE - outBufLeft]);
        }
      }
      pos := 0;
      outBufLeft := OUT_BUF_SIZE;
    }

    method EmitByte(i: byte)
      requires Valid()
      modifies this`stream, this`allWritesSucceeded, this`pos, this`outBufLeft, this`emitted, outBuf
      ensures Valid() && emitted == old(emitted) + [i]
    {
      outBuf[pos] := i;
      assert outBuf[..pos + 1] == old(outBuf[..pos]) + [i];
      Assoc(stream, outBuf[..pos], [i]);
      emitted := emitted + [i];
      pos := pos + 1;
      outBufLeft := outBufLeft - 1;
      if outBufLeft == 0 {
        FlushOutputBuffer();
      }
    }

    /** A byte of the scan, with its stuffing. */
    method EmitScanByte(c: byte)
      requires Valid() && emitted == header + Stuffed(full)
      modifies this`stream, this`allWritesSucceeded, this`pos, this`outBufLeft, this`emitted, this`full, outBuf
      ensures Valid() && emitted == header + Stuffed(full) && full == old(full) + [c]
    {
      hide Stuffed;
      BitsOfAppend(full, c);
      Assoc(header, Stuffed(full), if c == 0xFF then [0xFF, 0] else [c]);
      Assoc(emitted, [c], [0]);
      full := full + [c];
      EmitByte(c);
      if c == 0xFF {
        EmitByte(0);
      }
    }

    /** put_bits */
    method PutBits(v: nat, len: nat)
      requires Valid() && InScan() && bitsIn <= 7 && v < Pow2(len) && len <= 16
      modifies this`stream, this`allWritesSucceeded, this`pos, this`outBufLeft, this`emitted, this`full,
               this`bitBuffer, this`bitsIn, this`pending, outBuf
      ensures Valid() && InScan() && bitsIn <= 7
      ensures Coded() == old(Coded()) + ToBits(v, len)
    {
      hide Window, Stuffed, BitsOf, ToBits, Or, Shl, Pow2, Value;
      ghost var all := Coded() + ToBits(v, len);
      WindowAdd(bitBuffer, pending, v, len);
      Assoc(BitsOf(full), pending, ToBits(v, len));
      bitsIn := bitsIn + len;
      pending := pending + ToBits(v, len);
      bitBuffer := Or(bitBuffer, Shl(v, 24 - bitsIn));
      while bitsIn >= 8
        invariant Valid() && InScan() && Coded() == all
        decreases bitsIn
      {
        var c := bitBuffer / 0x1_0000 % 256;
        WindowTake(bitBuffer, pending);
        BitsOfAppend(full, c);
        Split(pending, 8);
        Assoc(BitsOf(full), pending[..8], pending[8..]);
        EmitScanByte(c);
        pending := pending[8..];
        bitBuffer := Shl(bitBuffer, 8);
        bitsIn := bitsIn - 8;
      }
    }

    /** The code of a symbol by table k. */
    method PutCode(k: nat, sym: nat, ghost h: Huff)
      requires Valid() && InScan() && bitsIn <= 7
      requires k < |tables| && h.Valid() && Filled(tables[k], h) && sym < 256
      modifies this`stream, this`allWritesSucceeded, this`pos, this`outBufLeft, this`emitted, this`full,
               this`bitBuffer, this`bitsIn, this`pending, outBuf
      ensures Valid() && InScan() && bitsIn <= 7
      ensures Coded() == old(Coded()) + SymBits(h, sym)
    {
      hide InScan, Coded, SymBits, ToBits;
      FilledBits(tables[k], h, sym);
      PutBits(tables[k].codes[sym], tables[k].codeSizes[sym]);
    }

    /** nbits of a DC difference */
    method DcSize(v: nat) returns (nbits: nat)
      ensures nbits == NumBits(v)
    {
      var temp1: nat := v;
      nbits := 0;
      while temp1 != 0
        invariant NumBits(v) == nbits + NumBits(temp1)
      {
        nbits := nbits + 1;
        temp1 := temp1 / 2;
      }
    }

    /** nbits of an AC coefficient */
    method AcSize(v: nat) returns (nbits: nat)
      requires v > 0
      ensures nbits == NumBits(v)
    {
      nbits := 1;
      var temp1: nat := v / 2;
      while temp1 != 0
        invariant NumBits(v) == nbits + NumBits(temp1)
      {
        nbits := nbits + 1;
        temp1 := temp1 / 2;
      }
    }

    method PutDc(k: nat, diff: int, ghost h: Huff)
      requires Valid() && InScan() && bitsIn <= 7
      requires k < |tables| && h.Valid() && Filled(tables[k], h) && -65535 <= diff <= 65535
      modifies this`stream, this`allWritesSucceeded, this`pos, this`outBufLeft, this`emitted, this`full,
               this`bitBuffer, this`bitsIn, this`pending, outBuf
      ensures Valid() && InScan() && bitsIn <= 7
      ensures Coded() == old(Coded()) + DcBits(h, diff)
    {
      hide InScan, Coded, SymBits, ToBits, NumBits, Pow2, Huff.Valid, Filled;
      var temp1, temp2 := diff, diff;
      if temp1 < 0 {
        temp1, temp2 := -temp1, temp2 - 1;
      }
      var nbits := DcSize(temp1);
      Pow2s();
      NumBitsAtMost(temp1, 16);
      ghost var before := Coded();
      PutCode(k, nbits, h);
      ghost var amp := Amp(diff, nbits);
      if nbits != 0 {
        PutBits(temp2 % Pow2(nbits), nbits);
      } else {
        AppendEmpty(before + SymBits(h, nbits));
        NoBits(AmpCode(diff, nbits));
      }
      Assoc(before, SymBits(h, nbits), amp);
    }

    /** A nonzero coefficient behind `run` zeros. */
    method PutCoeff(k: nat, run: nat, v: int, ghost h: Huff)
      requires Valid() && InScan() && bitsIn <= 7
      requires k < |tables| && h.Valid() && Filled(tables[k], h) && v != 0 && -32768 <= v <= 32767 && Indexed(run, v)
      modifies this`stream, this`allWritesSucceeded, this`pos, this`outBufLeft, this`emitted, this`full,
               this`bitBuffer, this`bitsIn, this`pending, outBuf
      ensures Valid() && InScan() && bitsIn <= 7
      ensures Coded() == old(Coded()) + CoeffBits(h, run, v)
    {
      hide InScan, Coded, SymBits, Amp, NumBits, Huff.Valid, Filled, ZrlBits;
      ghost var before := Coded();
      var runLen := PutZrls(k, run, h);
      ghost var zrls := ZrlBits(h, run / 16);
      var nbits := PutValue(k, runLen, v, h);
      ghost var sym, amp := SymBits(h, runLen * 16 + nbits), Amp(v, nbits);
      Assoc(before, zrls, sym + amp);
    }

    /** The runs of sixteen zeros. */
    method PutZrls(k: nat, run: nat, ghost h: Huff) returns (runLen: nat)
      requires Valid() && InScan() && bitsIn <= 7
      requires k < |tables| && h.Valid() && Filled(tables[k], h)
      modifies this`stream, this`allWritesSucceeded, this`pos, this`outBufLeft, this`emitted, this`full,
               this`bitBuffer, this`bitsIn, this`pending, outBuf
      ensures Valid() && InScan() && bitsIn <= 7
      ensures runLen == run % 16 && Coded() == old(Coded()) + ZrlBits(h, run / 16)
    {
      hide InScan, Coded, SymBits, Huff.Valid, Filled;
      ghost var before := Coded();
      runLen := run;
      ghost var zrls: nat := 0;
      AppendEmpty(before);
      while runLen >= 16
        invariant Valid() && InScan() && bitsIn <= 7
        invariant run == runLen + 16 * zrls && Coded() == before + ZrlBits(h, zrls)
      {
        ZrlSnoc(h, zrls);
        Assoc(before, ZrlBits(h, zrls), SymBits(h, ZRL));
        PutCode(k, ZRL, h);
        runLen, zrls := runLen - 16, zrls + 1;
      }
    }

    /** The symbol of a short run and a size, and the value in that many bits. */
    method PutValue(k: nat, runLen: nat, v: int, ghost h: Huff) returns (nbits: nat)
      requires Valid() && InScan() && bitsIn <= 7 && runLen < 16
      requires k < |tables| && h.Valid() && Filled(tables[k], h) && v != 0 && -32768 <= v <= 32767 && Indexed(runLen, v)
      modifies this`stream, this`allWritesSucceeded, this`pos, this`outBufLeft, this`emitted, this`full,
               this`bitBuffer, this`bitsIn, this`pending, outBuf
      ensures Valid() && InScan() && bitsIn <= 7 && nbits == NumBits(Abs(v))
      ensures Coded() == old(Coded()) + (SymBits(h, runLen * 16 + nbits) + Amp(v, nbits))
    {
      hide InScan, Coded, SymBits, ToBits, NumBits, Pow2, Huff.Valid, Filled;
      ghost var before := Coded();
      var temp1, temp2 := v, v;
      if temp2 < 0 {
        temp1, temp2 := -temp1, temp2 - 1;
      }
      nbits := AcSize(temp1);
      assert Pow2(15) == 32768 by { Pow2s(); Pow2Down(); }
      Pow2s();
      NumBitsAtMost(temp1, if v == -32768 then 16 else 15);
      var j := runLen * 16 + nbits;
      PutCode(k, j, h);
      PutBits(temp2 % Pow2(nbits), nbits);
      Assoc(before, SymBits(h, j), Amp(v, nbits));
    }

    /** The coefficients 1 to 63. */
    method PutAc(k: nat, c: seq<int>, ghost h: Huff)
      requires Valid() && InScan() && bitsIn <= 7
      requires k < |tables| && h.Valid() && Filled(tables[k], h) && Quantized(c)
      modifies this`stream, this`allWritesSucceeded, this`pos, this`outBufLeft, this`emitted, this`full,
               this`bitBuffer, this`bitsIn, this`pending, outBuf
      ensures Valid() && InScan() && bitsIn <= 7
      ensures Coded() == old(Coded()) + AcBits(h, c, 1, 0)
    {
      hide InScan, Coded, SymBits, CoeffBits, Huff.Valid, Filled;
      var runLen: nat, i: nat := 0, 1;
      ghost var all := Coded() + AcBits(h, c, 1, 0);
      while i < 64
        invariant Valid() && InScan() && bitsIn <= 7
        invariant 1 <= i <= 64 && AllIndexed(c, i, runLen) && Coded() + AcBits(h, c, i, runLen) == all
      {
        if c[i] == 0 {
          runLen := runLen + 1;
        } else {
          Assoc(Coded(), CoeffBits(h, runLen, c[i]), AcBits(h, c, i + 1, 0));
          PutCoeff(k, runLen, c[i], h);
          runLen := 0;
        }
        i := i + 1;
      }
      if runLen != 0 {
        PutCode(k, EOB, h);
      } else {
        AppendEmpty(Coded());
      }
    }

    /** code_coefficients_pass_two */
    method CodeCoefficients(componentNum: nat, c: seq<int>)
      requires Valid() && TablesValid() && InScan() && bitsIn <= 7 && componentNum < 3 && Quantized(c)
      requires |lastDcVal| == 3 && forall i :: 0 <= i < 3 ==> -32768 <= lastDcVal[i] <= 32767
      modifies this`stream, this`allWritesSucceeded, this`pos, this`outBufLeft, this`emitted, this`full,
               this`bitBuffer, this`bitsIn, this`pending, this`lastDcVal, outBuf
      ensures Valid() && InScan() && bitsIn <= 7 && lastDcVal == old(lastDcVal)[componentNum := c[0]]
      ensures Coded() == old(Coded()) + BlockBits(huffs.Dc(componentNum), huffs.Ac(componentNum),
                                                  old(lastDcVal[componentNum]), c)
    {
      hide InScan, Coded, DcBits, AcBits, Huff.Valid, Filled;
      ghost var dc, ac, before := huffs.Dc(componentNum), huffs.Ac(componentNum), Coded();
      var diff := c[0] - lastDcVal[componentNum];
      lastDcVal := lastDcVal[componentNum := c[0]];
      PutDc(if componentNum == 0 then 0 else 1, diff, dc);
      PutAc(if componentNum == 0 then 2 else 3, c, ac);
      Assoc(before, DcBits(dc, diff), AcBits(ac, c, 1, 0));
    }

    /** jpg_open, as far as the output goes: nothing buffered and nothing in the window. */
    constructor (tables: seq<Table>, ghost huffs: Huffs)
      ensures Valid() && this.tables == tables && this.huffs == huffs && allWritesSucceeded
      ensures emitted == [] && lastDcVal == NO_DC && bitBuffer == 0 && bitsIn == 0 && fresh(outBuf)
    {
      this.tables, this.huffs := tables, huffs;
      outBuf := new byte[OUT_BUF_SIZE](_ => 0);
      pos, outBufLeft := 0, OUT_BUF_SIZE;
      bitBuffer, bitsIn := 0, 0;
      lastDcVal := NO_DC;
      allWritesSucceeded := true;
      stream, emitted, header, full, pending := [], [], [], [], [];
    }

    /** The markers before the scan, whatever they are. */
    method EmitHeader(bs: bytes)
      requires Valid() && bitBuffer == 0 && bitsIn == 0 && emitted == []
      modifies this`stream, this`allWritesSucceeded, this`pos, this`outBufLeft, this`emitted, this`header,
               this`full, this`pending, outBuf
      ensures Valid() && InScan() && Coded() == [] && header == bs && bitsIn == 0
    {
      hide Window;
      EmptyWindow();
      var i := 0;
      while i < |bs|
        invariant 0 <= i <= |bs| && Valid() && emitted == bs[..i]
      {
        EmitByte(bs[i]);
        i := i + 1;
      }
      header, full, pending := emitted, [], [];
      assert bs[..|bs|] == bs;
      AppendEmpty(emitted);
    }

    /** The end of process_end_of_image: the last byte is filled with ones, the marker and what is
        buffered go out. */
    method FinishScan() returns (ghost pad: bits)
      requires Valid() && InScan() && bitsIn <= 7
      modifies this`stream, this`allWritesSucceeded, this`pos, this`outBufLeft, this`emitted, this`full,
               this`bitBuffer, this`bitsIn, this`pending, outBuf
      ensures Valid() && BitsOf(full) == old(Coded()) + pad && |pad| <= 7 && forall i :: 0 <= i < |pad| ==> pad[i]
      ensures allWritesSucceeded ==> stream == header + (Stuffed(full) + EOI_MARKER)
    {
      hide BitsOf, ToBits, Window, Stuffed;
      ghost var before, ones := Coded(), ToBits(0x7F, 7);
      SevenOnes();
      PutBits(0x7F, 7);
      PadIs(BitsOf(full), pending, before, ones);
      pad := ones[..7 - |pending|];
      Assoc(header, Stuffed(full), EOI_MARKER);
      Assoc(header + Stuffed(full), [0xFF], [0xD9]);
      EmitByte(0xFF);
      EmitByte(0xD9);
      FlushOutputBuffer();
    }

    /** A whole image: the header, the blocks in the order the subsampling gives, the end. When every
        write succeeded, what the application has is a file that decodes to those blocks. */
    method EncodeImage(headerBytes: bytes, blocks: seq<Block>)
      requires Valid() && TablesValid() && bitBuffer == 0 && bitsIn == 0 && emitted == [] && lastDcVal == NO_DC
      requires ValidBlocks(blocks) && ScanCoded(huffs, NO_DC, blocks)
      requires forall i :: 0 <= i < |blocks| ==> Quantized(blocks[i].c)
      modifies this, outBuf
      ensures allWritesSucceeded ==>
                && |headerBytes| <= |stream| && stream[..|headerBytes|] == headerBytes
                && DecodeEntropy(huffs, Components(blocks), stream[|headerBytes|..]) == Some(blocks)
    {
      hide InScan, Coded, BlockBits, ScanCoded, Huff.Valid, Filled, BitsOf, Stuffed;
      EmitHeader(headerBytes);
      var i: nat := 0;
      ghost var all := ScanBits(huffs, NO_DC, blocks);
      AppendEmpty(all);
      assert blocks[0..] == blocks;
      while i < |blocks|
        invariant i <= |blocks| && Valid() && InScan() && bitsIn <= 7
        invariant header == headerBytes
        invariant |lastDcVal| == 3 && forall k :: 0 <= k < 3 ==> -32768 <= lastDcVal[k] <= 32767
        invariant Coded() + ScanBits(huffs, lastDcVal, blocks[i..]) == all
      {
        ghost var b, before, last := blocks[i], Coded(), lastDcVal;
        assert blocks[i..][1..] == blocks[i + 1..];
        CodeCoefficients(blocks[i].comp, blocks[i].c);
        Assoc(before, BlockBits(huffs.Dc(b.comp), huffs.Ac(b.comp), last[b.comp], b.c),
              ScanBits(huffs, lastDcVal, blocks[i + 1..]));
        i := i + 1;
      }
      AppendEmpty(Coded());
      ghost var pad := FinishScan();
      EntropyInverse(huffs, blocks, full, pad);
      CutAtEnd(header, Stuffed(full) + EOI_MARKER);
    }
  }

  /** The symbol of a run and a value is an index of the table: all are but one. */
  predicate Indexed(run: nat, v: int) {
    v == -32768 ==> run % 16 < 15
  }

  predicate AllIndexed(c: seq<int>, i: nat, run: nat)
    requires |c| == 64 && i <= 64
    decreases 64 - i
  {
    i < 64 ==> if c[i] == 0 then AllIndexed(c, i + 1, run + 1) else Indexed(run, c[i]) && AllIndexed(c, i + 1, 0)
  }

  /** Coefficients of 16 bits, with symbols in the table. */
  predicate Quantized(c: seq<int>) {
    |c| == 64 && (forall i :: 0 <= i < 64 ==> -32768 <= c[i] <= 32767) && AllIndexed(c, 1, 0)
  }

  /** A value that is coded can be indexed. */
  lemma {:induction false} CodedIndexed(h: Huff, c: seq<int>, i: nat, run: nat)
    requires |c| == 64 && i <= 64 && AcCoded(h, c, i, run)
    ensures AllIndexed(c, i, run)
    decreases 64 - i
  {
    if i < 64 {
      CodedIndexed(h, c, i + 1, if c[i] == 0 then run + 1 else 0);
      assert c[i] == -32768 ==> Pow2(15) == 32768 by { Pow2s(); Pow2Down(); }
    }
  }

  lemma EmptyWindow()
    ensures Window(0, [])
  {
  }

  lemma NoBits(v: nat)
    ensures ToBits(v, 0) == []
  {
  }

  lemma Pow2Down()
    ensures Pow2(16) == 2 * Pow2(15)
  {
  }

  lemma {:induction false} ZrlSnoc(h: Huff, n: nat)
    requires h.Valid()
    ensures ZrlBits(h, n + 1) == ZrlBits(h, n) + SymBits(h, ZRL)
  {
    hide SymBits;
    if n > 0 {
      ZrlSnoc(h, n - 1);
      Assoc(SymBits(h, ZRL), ZrlBits(h, n - 1), SymBits(h, ZRL));
    } else {
      AppendEmpty(SymBits(h, ZRL));
    }
  }

  lemma SevenOnes()
    ensures 0x7F < Pow2(7) && forall i :: 0 <= i < 7 ==> ToBits(0x7F, 7)[i]
  {
    assert ToBits(7, 3) == [true, true, true];
    assert ToBits(0x3F, 6) == [true, true, true, true, true, true];
  }

  lemma PadIs(whole: bits, pending: bits, before: bits, ones: bits)
    requires whole + pending == before + ones && |pending| <= |ones|
    ensures whole == before + ones[..|ones| - |pending|]
  {
    assert whole == (whole + pending)[..|whole|];
  }
}
