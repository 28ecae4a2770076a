/** Entropy coding of 8x8 blocks and its inverse (sections F.1.2 and F.2.2 of ITU-T T.81), and the byte
    stuffing around it. */
module JpegScan {
  import opened Arith
  import opened Bytes
  import opened BitStrings
  import opened JpegHuffman
  import opened Wrappers

  const ZRL := 0xF0
  const EOB := 0

  function Abs(v: int): nat {
    if v < 0 then -v else v
  }

  /** The size category: how many bits a magnitude takes. */
  function NumBits(v: nat): (n: nat)
    ensures v < Pow2(n) && (v > 0 ==> n > 0 && Pow2(n - 1) <= v)
  {
    if v == 0 then 0 else 1 + NumBits(v / 2)
  }

  lemma {:induction false} NumBitsAtMost(v: nat, n: nat)
    requires v < Pow2(n)
    ensures NumBits(v) <= n
  {
    if v > 0 {
      NumBitsAtMost(v / 2, n - 1);
    }
  }

  /** The low n bits of a value, one less than it when it is negative. */
  function AmpCode(v: int, n: nat): (r: nat)
    ensures r < Pow2(n)
  {
    (if v < 0 then v - 1 else v) % Pow2(n)
  }

  function Amp(v: int, n: nat): (r: bits)
    ensures |r| == n
  {
    ToBits(AmpCode(v, n), n)
  }

  // ---------------------------------------------------------------- the coder

  function DcBits(h: Huff, diff: int): bits
    requires h.Valid()
  {
    var n := NumBits(Abs(diff));
    SymBits(h, n) + Amp(diff, n)
  }

  /** n runs of sixteen zeros */
  function ZrlBits(h: Huff, n: nat): bits
    requires h.Valid()
  {
    if n == 0 then [] else SymBits(h, ZRL) + ZrlBits(h, n - 1)
  }

  /** A nonzero coefficient behind a run of zeros. */
  function CoeffBits(h: Huff, run: nat, v: int): bits
    requires h.Valid()
  {
    var n := NumBits(Abs(v));
    ZrlBits(h, run / 16) + (SymBits(h, run % 16 * 16 + n) + Amp(v, n))
  }

  /** Coefficients i..63 of a block, behind a run of zeros. */
  function AcBits(h: Huff, c: seq<int>, i: nat, run: nat): bits
    requires h.Valid() && |c| == 64 && i <= 64
    decreases 64 - i
  {
    if i == 64 then if run > 0 then SymBits(h, EOB) else []
    else if c[i] == 0 then AcBits(h, c, i + 1, run + 1)
    else CoeffBits(h, run, c[i]) + AcBits(h, c, i + 1, 0)
  }

  function BlockBits(dc: Huff, ac: Huff, last: int, c: seq<int>): bits
    requires dc.Valid() && ac.Valid() && |c| == 64
  {
    DcBits(dc, c[0] - last) + AcBits(ac, c, 1, 0)
  }

  // ---------------------------------------------------------------- what the tables must have codes for

  predicate AcCoded(h: Huff, c: seq<int>, i: nat, run: nat)
    requires |c| == 64 && i <= 64
    decreases 64 - i
  {
    if i == 64 then run > 0 ==> EOB in h.val
    else if c[i] == 0 then AcCoded(h, c, i + 1, run + 1)
    else
      && NumBits(Abs(c[i])) <= 15
      && (run >= 16 ==> ZRL in h.val)
      && run % 16 * 16 + NumBits(Abs(c[i])) in h.val
      && AcCoded(h, c, i + 1, 0)
  }

  predicate BlockCoded(dc: Huff, ac: Huff, last: int, c: seq<int>)
    requires |c| == 64
  {
    NumBits(Abs(c[0] - last)) in dc.val && AcCoded(ac, c, 1, 0)
  }

  // ---------------------------------------------------------------- the decoder

  /** RECEIVE and EXTEND */
  function DecodeAmp(s: bits, n: nat): (r: Option<(int, bits)>)
    ensures r.Some? ==> |r.value.1| == |s| - n
  {
    if n > |s| then None
    else
      var v := Value(s[..n]);
      Some((if n > 0 && v < Pow2(n - 1) then v - Pow2(n) + 1 else v, s[n..]))
  }

  function DecodeDc(h: Huff, s: bits): Option<(int, bits)>
    requires h.Valid()
  {
    match DecodeSym(h, s)
    case None => None
    case Some(t) => DecodeAmp(t.1, t.0)
  }

  function Zeros(n: nat): (z: seq<int>)
    ensures |z| == n && forall i :: 0 <= i < n ==> z[i] == 0
  {
    if n == 0 then [] else [0] + Zeros(n - 1)
  }

  function After(z: seq<int>, r: Option<(seq<int>, bits)>): Option<(seq<int>, bits)> {
    match r
    case None => None
    case Some(t) => Some((z + t.0, t.1))
  }

  /** Coefficients k..63 */
  function DecodeAc(h: Huff, s: bits, k: nat): (r: Option<(seq<int>, bits)>)
    requires h.Valid() && k <= 64
    ensures r.Some? ==> |r.value.0| == 64 - k
    decreases 64 - k
  {
    if k == 64 then Some(([], s))
    else
      match DecodeSym(h, s)
      case None => None
      case Some(t) =>
        var r, n := t.0 / 16, t.0 % 16;
        if n == 0 && r < 15 then Some((Zeros(64 - k), t.1))
        else if n == 0 then
          if k + 16 > 64 then None else After(Zeros(16), DecodeAc(h, t.1, k + 16))
        else if k + r >= 64 then None
        else
          match DecodeAmp(t.1, n)
          case None => None
          case Some(a) => After(Zeros(r) + [a.0], DecodeAc(h, a.1, k + r + 1))
  }

  function DecodeBlock(dc: Huff, ac: Huff, last: int, s: bits): (r: Option<(seq<int>, bits)>)
    requires dc.Valid() && ac.Valid()
    ensures r.Some? ==> |r.value.0| == 64
  {
    match DecodeDc(dc, s)
    case None => None
    case Some(t) => After([last + t.0], DecodeAc(ac, t.1, 1))
  }

  // ---------------------------------------------------------------- decoding inverts coding

  lemma AmpInverse(v: int, rest: bits)
    ensures var n := NumBits(Abs(v)); DecodeAmp(Amp(v, n) + rest, n) == Some((v, rest))
  {
    var n := NumBits(Abs(v));
    CutAtEnd(Amp(v, n), rest);
    ValueOfBits(AmpCode(v, n), n);
    if v < 0 {
      DivNegative(v - 1, Pow2(n));
    } else {
      DivIs(v, Pow2(n), 0, v);
    }
  }

  lemma DcInverse(h: Huff, diff: int, rest: bits)
    requires h.Valid() && NumBits(Abs(diff)) in h.val
    ensures DecodeDc(h, DcBits(h, diff) + rest) == Some((diff, rest))
  {
    hide SymBits, DecodeSym, DecodeAmp, Amp, NumBits, Abs;
    var n := NumBits(Abs(diff));
    Assoc(SymBits(h, n), Amp(diff, n), rest);
    SymInverse(h, n, Amp(diff, n) + rest);
    AmpInverse(diff, rest);
  }

  lemma ZerosAppend(m: nat, n: nat)
    ensures Zeros(m) + Zeros(n) == Zeros(m + n)
  {
    var a, b := Zeros(m) + Zeros(n), Zeros(m + n);
    assert forall i :: 0 <= i < m + n ==> a[i] == b[i] == 0;
  }

  /** Runs of sixteen put their zeros before whatever follows. */
  lemma {:induction false} ZrlInverse(h: Huff, n: nat, tail: bits, k: nat)
    requires h.Valid() && (n > 0 ==> ZRL in h.val) && k + 16 * n <= 63
    ensures DecodeAc(h, ZrlBits(h, n) + tail, k) == After(Zeros(16 * n), DecodeAc(h, tail, k + 16 * n))
  {
    hide SymBits, DecodeSym, DecodeAmp, Zeros;
    if n == 0 {
      AppendEmpty(tail);
      AfterNothing(DecodeAc(h, tail, k));
    } else {
      var w, more := SymBits(h, ZRL), ZrlBits(h, n - 1) + tail;
      Assoc(w, ZrlBits(h, n - 1), tail);
      SymInverse(h, ZRL, more);
      ZrlInverse(h, n - 1, tail, k + 16);
      AfterAfter(16, 16 * (n - 1), DecodeAc(h, tail, k + 16 * n));
    }
  }

  lemma AfterNothing(r: Option<(seq<int>, bits)>)
    ensures After(Zeros(0), r) == r
  {
    if r.Some? {
      AppendEmpty(r.value.0);
    }
  }

  lemma AfterAfter(m: nat, n: nat, r: Option<(seq<int>, bits)>)
    ensures After(Zeros(m), After(Zeros(n), r)) == After(Zeros(m + n), r)
  {
    ZerosAppend(m, n);
    if r.Some? {
      Assoc(Zeros(m), Zeros(n), r.value.0);
    }
  }

  /** One coefficient with the run before it. */
  lemma CoeffInverse(h: Huff, run: nat, v: int, tail: bits, k: nat)
    requires h.Valid() && v != 0 && k + run <= 63
    requires NumBits(Abs(v)) <= 15 && (run >= 16 ==> ZRL in h.val) && run % 16 * 16 + NumBits(Abs(v)) in h.val
    ensures DecodeAc(h, CoeffBits(h, run, v) + tail, k) == After(Zeros(run) + [v], DecodeAc(h, tail, k + run + 1))
  {
    hide SymBits, DecodeSym, DecodeAmp, Zeros, DecodeAc, Amp, ZrlBits, After;
    var n, r, m := NumBits(Abs(v)), run % 16, run / 16;
    hide NumBits, Abs;
    var sym, amp := SymBits(h, r * 16 + n), Amp(v, n);
    var last := DecodeAc(h, tail, k + run + 1);
    Assoc(ZrlBits(h, m), sym + amp, tail);
    ZrlInverse(h, m, sym + amp + tail, k);
    Assoc(sym, amp, tail);
    LastInverse(h, r, v, tail, k + 16 * m);
    AfterRun(m, r, v, last);
  }

  lemma AfterRun(m: nat, r: nat, v: int, last: Option<(seq<int>, bits)>)
    ensures After(Zeros(16 * m), After(Zeros(r) + [v], last)) == After(Zeros(16 * m + r) + [v], last)
  {
    hide Zeros;
    if last.Some? {
      Assoc(Zeros(16 * m), Zeros(r) + [v], last.value.0);
      Assoc(Zeros(16 * m), Zeros(r), [v]);
      ZerosAppend(16 * m, r);
    }
  }

  /** The symbol of a run below sixteen. */
  lemma LastInverse(h: Huff, r: nat, v: int, tail: bits, k: nat)
    requires h.Valid() && v != 0 && r < 16 && k + r <= 63
    requires NumBits(Abs(v)) <= 15 && r * 16 + NumBits(Abs(v)) in h.val
    ensures var n := NumBits(Abs(v));
            DecodeAc(h, SymBits(h, r * 16 + n) + (Amp(v, n) + tail), k)
            == After(Zeros(r) + [v], DecodeAc(h, tail, k + r + 1))
  {
    hide SymBits, DecodeSym, DecodeAmp, Zeros, Amp, NumBits, Abs, After, Huff.Valid;
    var n := NumBits(Abs(v));
    SizePositive(v);
    SymInverse(h, r * 16 + n, Amp(v, n) + tail);
    AmpInverse(v, tail);
    DivIs(r * 16 + n, 16, r, n);
  }

  lemma SizePositive(v: int)
    requires v != 0
    ensures NumBits(Abs(v)) > 0
  {
  }

  lemma {:induction false} AcInverse(h: Huff, c: seq<int>, i: nat, run: nat, rest: bits)
    requires h.Valid() && |c| == 64 && 1 + run <= i <= 64 && AcCoded(h, c, i, run)
    requires c[i - run..i] == Zeros(run)
    ensures DecodeAc(h, AcBits(h, c, i, run) + rest, i - run) == Some((c[i - run..], rest))
    decreases 64 - i
  {
    hide SymBits, DecodeSym, DecodeAmp, Zeros, Amp, CoeffBits, NumBits, Abs, DecodeAc;
    if i == 64 {
      assert c[i - run..i] == c[i - run..];
      EndInverse(h, run, rest);
    } else if c[i] == 0 {
      ZerosAppend(run, 1);
      OneZero();
      assert c[i - run..i + 1] == c[i - run..i] + [0];
      AcInverse(h, c, i + 1, run + 1, rest);
    } else {
      NoZeros();
      AcInverse(h, c, i + 1, 0, rest);
      var more := AcBits(h, c, i + 1, 0);
      Assoc(CoeffBits(h, run, c[i]), more, rest);
      CoeffInverse(h, run, c[i], more + rest, i - run);
      assert c[i - run..] == Zeros(run) + [c[i]] + c[i + 1..];
    }
  }

  lemma OneZero()
    ensures Zeros(1) == [0]
  {
  }

  lemma NoZeros()
    ensures Zeros(0) == []
  {
  }

  lemma EndInverse(h: Huff, run: nat, rest: bits)
    requires h.Valid() && run <= 63 && (run > 0 ==> EOB in h.val)
    ensures DecodeAc(h, (if run > 0 then SymBits(h, EOB) else []) + rest, 64 - run) == Some((Zeros(run), rest))
  {
    hide SymBits, DecodeSym, DecodeAmp, Zeros;
    if run > 0 {
      SymInverse(h, EOB, rest);
    } else {
      AppendEmpty(rest);
      NoZeros();
    }
  }

  /** Decoding a coded block gives back its 64 coefficients, and leaves what follows. */
  lemma BlockInverse(dc: Huff, ac: Huff, last: int, c: seq<int>, rest: bits)
    requires dc.Valid() && ac.Valid() && |c| == 64 && BlockCoded(dc, ac, last, c)
    ensures DecodeBlock(dc, ac, last, BlockBits(dc, ac, last, c) + rest) == Some((c, rest))
  {
    hide DecodeDc, DcBits, DecodeAc, AcBits, AcCoded, NumBits, Abs;
    NoZeros();
    var more := AcBits(ac, c, 1, 0);
    Assoc(DcBits(dc, c[0] - last), more, rest);
    DcInverse(dc, c[0] - last, more + rest);
    AcInverse(ac, c, 1, 0, rest);
    assert c == [c[0]] + c[1..];
  }

  // ---------------------------------------------------------------- scans

  /** A block of quantized coefficients of a component. */
  datatype Block = Block(comp: nat, c: seq<int>)

  predicate ValidBlocks(bs: seq<Block>) {
    forall i :: 0 <= i < |bs| ==> bs[i].comp < 3 && |bs[i].c| == 64
  }

  /** The tables of a scan: DC and AC of the luminance, DC and AC of the chrominance. */
  datatype Huffs = Huffs(dc0: Huff, ac0: Huff, dc1: Huff, ac1: Huff) {
    predicate Valid() {
      dc0.Valid() && ac0.Valid() && dc1.Valid() && ac1.Valid()
    }

    function Dc(comp: nat): Huff {
      if comp == 0 then dc0 else dc1
    }

    function Ac(comp: nat): Huff {
      if comp == 0 then ac0 else ac1
    }
  }

  /** The blocks of a scan; `last` holds the DC coefficient last coded of each component. */
  function ScanBits(hs: Huffs, last: seq<int>, bs: seq<Block>): bits
    requires hs.Valid() && |last| == 3 && ValidBlocks(bs)
    decreases |bs|
  {
    if bs == [] then []
    else
      var b := bs[0];
      BlockBits(hs.Dc(b.comp), hs.Ac(b.comp), last[b.comp], b.c) + ScanBits(hs, last[b.comp := b.c[0]], bs[1..])
  }

  predicate ScanCoded(hs: Huffs, last: seq<int>, bs: seq<Block>)
    requires |last| == 3 && ValidBlocks(bs)
    decreases |bs|
  {
    bs != [] ==>
      var b := bs[0];
      && BlockCoded(hs.Dc(b.comp), hs.Ac(b.comp), last[b.comp], b.c)
      && ScanCoded(hs, last[b.comp := b.c[0]], bs[1..])
  }

  function Components(bs: seq<Block>): (cs: seq<nat>)
    requires ValidBlocks(bs)
    ensures |cs| == |bs| && forall i :: 0 <= i < |cs| ==> cs[i] < 3
  {
    if bs == [] then [] else [bs[0].comp] + Components(bs[1..])
  }

  /** The decoder knows the order of the components from the frame header. */
  function DecodeScan(hs: Huffs, last: seq<int>, comps: seq<nat>, s: bits): Option<(seq<Block>, bits)>
    requires hs.Valid() && |last| == 3 && forall i :: 0 <= i < |comps| ==> comps[i] < 3
    decreases |comps|
  {
    hide DecodeBlock, Huff.Valid;
    if comps == [] then Some(([], s))
    else
      var k := comps[0];
      match DecodeBlock(hs.Dc(k), hs.Ac(k), last[k], s)
      case None => None
      case Some(t) =>
        match DecodeScan(hs, last[k := t.0[0]], comps[1..], t.1)
        case None => None
        case Some(u) => Some(([Block(k, t.0)] + u.0, u.1))
  }

  lemma {:induction false} ScanInverse(hs: Huffs, last: seq<int>, bs: seq<Block>, rest: bits)
    requires hs.Valid() && |last| == 3 && ValidBlocks(bs) && ScanCoded(hs, last, bs)
    ensures DecodeScan(hs, last, Components(bs), ScanBits(hs, last, bs) + rest) == Some((bs, rest))
    decreases |bs|
  {
    hide BlockBits, BlockCoded, DecodeBlock;
    if bs == [] {
      AppendEmpty(rest);
    } else {
      var b := bs[0];
      var dc, ac, before := hs.Dc(b.comp), hs.Ac(b.comp), last[b.comp];
      var more := ScanBits(hs, last[b.comp := b.c[0]], bs[1..]);
      Assoc(BlockBits(dc, ac, before, b.c), more, rest);
      BlockInverse(dc, ac, before, b.c, more + rest);
      ScanInverse(hs, last[b.comp := b.c[0]], bs[1..], rest);
      assert Components(bs)[1..] == Components(bs[1..]);
      assert bs == [b] + bs[1..];
    }
  }

  // ---------------------------------------------------------------- bytes and stuffing

  function BitsOf(bs: bytes): (r: bits)
    ensures |r| == 8 * |bs|
  {
    if bs == [] then [] else BitsOf(bs[..|bs| - 1]) + ToBits(bs[|bs| - 1], 8)
  }

  /** A zero byte behind every 0xFF */
  function Stuffed(bs: bytes): bytes {
    if bs == [] then []
    else Stuffed(bs[..|bs| - 1]) + if bs[|bs| - 1] == 0xFF then [0xFF, 0] else [bs[|bs| - 1]]
  }

  /** The entropy-coded bytes at the head of a stream: up to the marker that ends them. */
  function Unstuff(s: bytes): (r: Option<bytes>)
  {
    if s == [] then None
    else if s[0] != 0xFF then Before([s[0]], Unstuff(s[1..]))
    else if |s| == 1 then None
    else if s[1] == 0 then Before([0xFF], Unstuff(s[2..]))
    else Some([])
  }

  function Before(b: bytes, r: Option<bytes>): Option<bytes> {
    match r
    case None => None
    case Some(t) => Some(b + t)
  }

  lemma {:induction false} UnstuffPrefix(bs: bytes, tail: bytes)
    requires Unstuff(tail).Some?
    ensures Unstuff(Stuffed(bs) + tail) == Before(bs, Unstuff(tail))
    decreases bs
  {
    if bs == [] {
      AppendEmpty(tail);
      AppendEmpty(Unstuff(tail).value);
    } else {
      var front, b := bs[..|bs| - 1], bs[|bs| - 1];
      var w := if b == 0xFF then [0xFF, 0] else [b];
      Assoc(Stuffed(front), w, tail);
      assert Unstuff(w + tail) == Before([b], Unstuff(tail)) by {
        assert (w + tail)[|w|..] == tail;
      }
      UnstuffPrefix(front, w + tail);
      Assoc(front, [b], Unstuff(tail).value);
      assert bs == front + [b];
    }
  }

  const NO_DC: seq<int> := [0, 0, 0]

  const EOI_MARKER: bytes := [0xFF, 0xD9]

  /** What a decoder reads behind the scan header of a file. */
  function DecodeEntropy(hs: Huffs, comps: seq<nat>, s: bytes): Option<seq<Block>>
    requires hs.Valid() && forall i :: 0 <= i < |comps| ==> comps[i] < 3
  {
    match Unstuff(s)
    case None => None
    case Some(bs) =>
      match DecodeScan(hs, NO_DC, comps, BitsOf(bs))
      case None => None
      case Some(t) => Some(t.0)
  }

  /** However the last byte is padded, stuffed scan data decodes to the blocks it was made from. */
  lemma EntropyInverse(hs: Huffs, bs: seq<Block>, full: bytes, pad: bits)
    requires hs.Valid() && ValidBlocks(bs) && ScanCoded(hs, NO_DC, bs)
    requires BitsOf(full) == ScanBits(hs, NO_DC, bs) + pad
    ensures DecodeEntropy(hs, Components(bs), Stuffed(full) + EOI_MARKER) == Some(bs)
  {
    hide ScanBits, ScanCoded, Stuffed, BitsOf;
    UnstuffPrefix(full, EOI_MARKER);
    assert Unstuff(EOI_MARKER) == Some([]);
    AppendEmpty(full);
    ScanInverse(hs, NO_DC, bs, pad);
  }
}
