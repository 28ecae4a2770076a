/** The four standard tables of the encoder (Annex K of ITU-T T.81): that they are good ones, and which blocks
    they can code. */
module JpegStandard {
  import opened Arith
  import opened Bytes
  import opened BitStrings
  import opened JpegHuffman
  import opened JpegQuantizer
  import opened JpegScan
  import opened JpegSymbols
  import opened JpegDct
  import opened JpegEncoder
  import opened Wrappers

  // ---------------------------------------------------------------- the tables

  const DC_LUM_COUNTS: seq<nat> := [0, 0, 1, 5, 1, 1, 1, 1, 1, 1, 0, 0, 0, 0, 0, 0, 0]
  const DC_CHROMA_COUNTS: seq<nat> := [0, 0, 3, 1, 1, 1, 1, 1, 1, 1, 1, 1, 0, 0, 0, 0, 0]
  const AC_LUM_COUNTS: seq<nat> := [0, 0, 2, 1, 3, 3, 2, 4, 3, 5, 5, 4, 4, 0, 0, 1, 125]
  const AC_CHROMA_COUNTS: seq<nat> := [0, 0, 2, 1, 2, 4, 4, 3, 4, 7, 5, 4, 4, 0, 1, 2, 119]
  const DC_VAL: seq<nat> := [0, 1, 2, 3, 4, 5, 6, 7, 8, 9, 10, 11]

  /** DC and AC of the luminance, DC and AC of the chrominance. */
  function StandardHuffs(): Huffs {
    Huffs(Standard(DC_LUM_COUNTS, DC_VAL), Standard(AC_LUM_COUNTS, AC_LUM.Val()),
          Standard(DC_CHROMA_COUNTS, DC_VAL), Standard(AC_CHROMA_COUNTS, AC_CHROMA.Val()))
  }

  function Standard(counts: seq<nat>, val: seq<nat>): Huff {
    Huff(if |counts| == 17 then SizesTo(counts, 16) else [], val)
  }

  // ---------------------------------------------------------------- the Kraft bound

  function Total(counts: seq<nat>, l: nat): nat
    requires l < |counts|
  {
    if l == 0 then 0 else Total(counts, l - 1) + counts[l]
  }

  /** What the codes of up to l bits take of the 2^16 words. */
  function Weight(counts: seq<nat>, l: nat): nat
    requires l < |counts| && l <= 16
  {
    if l == 0 then 0 else Weight(counts, l - 1) + counts[l] * Pow2(16 - l)
  }

  lemma {:induction false} SizesCount(counts: seq<nat>, l: nat)
    requires l < |counts| && l <= 16
    ensures |SizesTo(counts, l)| == Total(counts, l)
  {
    if l > 0 {
      SizesCount(counts, l - 1);
    }
  }

  lemma {:induction false} SizesSpace(counts: seq<nat>, l: nat)
    requires l < |counts| && l <= 16
    ensures Space(SizesTo(counts, l), |SizesTo(counts, l)|) == Weight(counts, l)
  {
    hide Pow2, Copies, Canonical, Space;
    if l > 0 {
      SizesSpace(counts, l - 1);
      assert SizesTo(counts, l) == SizesTo(counts, l - 1) + Copies(l, counts[l]);
      SpaceAppend(SizesTo(counts, l - 1), l, counts[l]);
    } else {
      NoSpace();
    }
  }

  lemma NoSpace()
    ensures Space([], 0) == 0
  {
  }

  lemma SpaceAppend(s: seq<nat>, l: nat, n: nat)
    requires l <= 16 && Canonical(s) && Canonical(s + Copies(l, n))
    ensures Space(s + Copies(l, n), |s + Copies(l, n)|) == Space(s, |s|) + n * Pow2(16 - l)
  {
    hide Pow2, Canonical, Space;
    SpacePrefix(s, s + Copies(l, n), |s|);
    SpaceOfCopies(s + Copies(l, n), |s|, l, n);
  }

  lemma {:induction false} SpacePrefix(a: seq<nat>, b: seq<nat>, p: nat)
    requires Canonical(a) && Canonical(b) && a <= b && p <= |a|
    ensures Space(a, p) == Space(b, p)
  {
    if p > 0 {
      SpacePrefix(a, b, p - 1);
    }
  }

  lemma {:induction false} SpaceOfCopies(s: seq<nat>, p: nat, l: nat, n: nat)
    requires Canonical(s) && p + n <= |s| && l <= 16 && forall i :: p <= i < p + n ==> s[i] == l
    ensures Space(s, p + n) == Space(s, p) + n * Pow2(16 - l)
  {
    if n > 0 {
      SpaceOfCopies(s, p, l, n - 1);
      TimesAdd(n - 1, 1, Pow2(16 - l));
    }
  }

  lemma Pow2Table()
    ensures Pow2(0) == 1 && Pow2(1) == 2 && Pow2(2) == 4 && Pow2(3) == 8 && Pow2(4) == 16 && Pow2(5) == 32
    ensures Pow2(6) == 64 && Pow2(7) == 128 && Pow2(8) == 256 && Pow2(9) == 512 && Pow2(10) == 1024
    ensures Pow2(11) == 2048 && Pow2(12) == 4096 && Pow2(13) == 8192 && Pow2(14) == 16384 && Pow2(15) == 32768
    ensures Pow2(16) == 65536
  {
    assert Pow2(4) == 16;
    assert Pow2(8) == 256;
    assert Pow2(12) == 4096;
  }

  lemma DcLumCounts()
    ensures Total(DC_LUM_COUNTS, 16) == 12 && Weight(DC_LUM_COUNTS, 16) <= Pow2(16)
  {
    var c := DC_LUM_COUNTS;
    Pow2Table();
    hide Pow2;
    assert Total(c, 4) == 7 && Weight(c, 4) == 61440;
    assert Total(c, 8) == 11 && Weight(c, 8) == 65280;
    assert Total(c, 12) == 12 && Weight(c, 12) == 65408;
  }

  lemma DcChromaCounts()
    ensures Total(DC_CHROMA_COUNTS, 16) == 12 && Weight(DC_CHROMA_COUNTS, 16) <= Pow2(16)
  {
    var c := DC_CHROMA_COUNTS;
    Pow2Table();
    hide Pow2;
    assert Total(c, 4) == 5 && Weight(c, 4) == 61440;
    assert Total(c, 8) == 9 && Weight(c, 8) == 65280;
    assert Total(c, 12) == 12 && Weight(c, 12) == 65504;
  }

  lemma AcLumCounts()
    ensures Total(AC_LUM_COUNTS, 16) == 162 && Weight(AC_LUM_COUNTS, 16) <= Pow2(16)
  {
    var c := AC_LUM_COUNTS;
    Pow2Table();
    hide Pow2;
    assert Total(c, 4) == 6 && Weight(c, 4) == 53248;
    assert Total(c, 8) == 18 && Weight(c, 8) == 64256;
    assert Total(c, 12) == 36 && Weight(c, 12) == 65408;
  }

  lemma AcChromaCounts()
    ensures Total(AC_CHROMA_COUNTS, 16) == 162 && Weight(AC_CHROMA_COUNTS, 16) <= Pow2(16)
  {
    var c := AC_CHROMA_COUNTS;
    Pow2Table();
    hide Pow2;
    assert Total(c, 4) == 5 && Weight(c, 4) == 49152;
    assert Total(c, 8) == 20 && Weight(c, 8) == 64000;
    assert Total(c, 12) == 40 && Weight(c, 12) == 65408;
  }

  // ---------------------------------------------------------------- what the tables are good for

  lemma TableValid(counts: seq<nat>, val: seq<nat>)
    requires |counts| == 17 && Distinct(val) && Total(counts, 16) == |val| && Weight(counts, 16) <= Pow2(16)
    ensures Standard(counts, val).Valid()
  {
    SizesCount(counts, 16);
    SizesSpace(counts, 16);
  }

  lemma AcDistinct(t: Listing)
    requires t.Good()
    ensures Distinct(t.Val()) && forall sym: nat :: sym in t.Val() <==> IsSymbol(sym)
  {
    hide Listing.Good, Listing.Val;
    ListingExact(t);
    forall i | 0 <= i < AC_CODES ensures t.Val()[i] < 256 {
      assert t.Val()[i] in t.Val();
    }
  }

  /** The standard tables are canonical tables under the Kraft bound. */
  lemma StandardValid()
    ensures StandardHuffs().Valid()
    ensures forall sym: nat :: sym in StandardHuffs().dc0.val <==> sym < 12
    ensures forall sym: nat :: sym in StandardHuffs().dc1.val <==> sym < 12
    ensures forall sym: nat :: sym in StandardHuffs().ac0.val <==> IsSymbol(sym)
    ensures forall sym: nat :: sym in StandardHuffs().ac1.val <==> IsSymbol(sym)
  {
    hide Listing.Good, Listing.Val, Total, Weight, SizesTo, Pow2, Huff.Valid, IsSymbol;
    ListingsGood();
    AcDistinct(AC_LUM);
    AcDistinct(AC_CHROMA);
    DcLumCounts();
    DcChromaCounts();
    AcLumCounts();
    AcChromaCounts();
    assert forall sym: nat :: sym < 12 ==> DC_VAL[sym] == sym;
    TableValid(DC_LUM_COUNTS, DC_VAL);
    TableValid(DC_CHROMA_COUNTS, DC_VAL);
    TableValid(AC_LUM_COUNTS, AC_LUM.Val());
    TableValid(AC_CHROMA_COUNTS, AC_CHROMA.Val());
  }

  /** The symbol of a coefficient behind a run has a code if and only if it takes at most ten bits. */
  lemma SymbolExact(run: nat, n: nat)
    requires 0 < n <= 15
    ensures IsSymbol(run % 16 * 16 + n) <==> n <= 10
  {
    DivIs(run % 16 * 16 + n, 16, run % 16, n);
  }

  lemma BitsAtMost(v: nat, n: nat)
    ensures NumBits(v) <= n <==> v < Pow2(n)
  {
    if v < Pow2(n) {
      NumBitsAtMost(v, n);
    }
    if NumBits(v) <= n {
      Pow2Add(NumBits(v), n - NumBits(v));
      TimesLeft(Pow2(NumBits(v)), Pow2(n - NumBits(v)));
    }
  }

  lemma {:induction false} AcExact(h: Huff, c: seq<int>, i: nat, run: nat)
    requires |c| == 64 && i <= 64 && forall sym: nat :: sym in h.val <==> IsSymbol(sym)
    ensures AcCoded(h, c, i, run) <==> forall j :: i <= j < 64 ==> Abs(c[j]) < 1024
    decreases 64 - i
  {
    hide Pow2, NumBits, IsSymbol;
    assert IsSymbol(EOB) && IsSymbol(ZRL) by { EndSymbols(); }
    if i < 64 {
      AcExact(h, c, i + 1, if c[i] == 0 then run + 1 else 0);
      Pow2Table();
      BitsAtMost(Abs(c[i]), 10);
      BitsAtMost(Abs(c[i]), 0);
      if c[i] != 0 && NumBits(Abs(c[i])) <= 15 {
        SymbolExact(run, NumBits(Abs(c[i])));
      }
    }
  }

  lemma EndSymbols()
    ensures IsSymbol(EOB) && IsSymbol(ZRL)
  {
  }

  /** Exactly the blocks with coefficients of ten bits, and a DC difference of eleven, can be coded. */
  lemma BlockExact(comp: nat, last: int, c: seq<int>)
    requires |c| == 64
    ensures BlockCoded(StandardHuffs().Dc(comp), StandardHuffs().Ac(comp), last, c) <==>
            Abs(c[0] - last) < 2048 && forall j :: 1 <= j < 64 ==> Abs(c[j]) < 1024
  {
    StandardValid();
    hide Pow2, NumBits, IsSymbol, AcCoded, StandardHuffs;
    AcExact(StandardHuffs().Ac(comp), c, 1, 0);
    Pow2Table();
    BitsAtMost(Abs(c[0] - last), 11);
  }

  /** Coefficients of eleven bits, or of ten behind the first. */
  predicate Baseline(c: seq<int>) {
    |c| == 64 && -1024 <= c[0] <= 1023 && forall j :: 1 <= j < 64 ==> Abs(c[j]) < 1024
  }

  lemma BaselineCoded(comp: nat, last: int, c: seq<int>)
    requires Baseline(c) && -1024 <= last <= 1023
    ensures BlockCoded(StandardHuffs().Dc(comp), StandardHuffs().Ac(comp), last, c)
  {
    hide StandardHuffs, BlockCoded;
    BlockExact(comp, last, c);
  }

  lemma FirstCoefficient(c: seq<int>)
    requires Baseline(c)
    ensures |c| == 64 && -1024 <= c[0] <= 1023
  {
  }

  /** Any sequence of blocks of such coefficients can be coded. */
  lemma {:induction false} ScanStandard(last: seq<int>, bs: seq<Block>)
    requires |last| == 3 && ValidBlocks(bs)
    requires (forall i :: 0 <= i < 3 ==> -1024 <= last[i] <= 1023) && forall i :: 0 <= i < |bs| ==> Baseline(bs[i].c)
    ensures ScanCoded(StandardHuffs(), last, bs)
    decreases |bs|
  {
    hide BlockCoded, Baseline, StandardHuffs;
    if bs != [] {
      var b := bs[0];
      assert Baseline(b.c) && ValidBlocks(bs[1..]);
      FirstCoefficient(b.c);
      BaselineCoded(b.comp, last[b.comp], b.c);
      ScanStandard(last[b.comp := b.c[0]], bs[1..]);
    }
  }

  lemma BaselineQuantized(c: seq<int>)
    requires Baseline(c)
    ensures Quantized(c)
  {
    hide StandardHuffs, AcCoded, AllIndexed;
    BaselineCoded(0, 0, c);
    CodedIndexed(StandardHuffs().Ac(0), c, 1, 0);
  }

  /** One of the tables, as jpg_open has it computed. */
  method MakeTable(counts: seq<nat>, val: seq<nat>) returns (t: Table)
    requires |counts| == 17 && Standard(counts, val).Valid() && |val| <= 256
    ensures Filled(t, Standard(counts, val))
  {
    var codes, codeSizes := new nat[256], new nat[256];
    ComputeHuffmanTable(codes, codeSizes, counts, val);
    t := Table(codes[..], codeSizes[..]);
  }

  /** The encoder as it is set up, on blocks of such coefficients: if every write succeeds, what lies behind the
      header decodes to the blocks. */
  method EncodeStandard(headerBytes: bytes, blocks: seq<Block>) returns (e: Encoder)
    requires ValidBlocks(blocks) && forall i :: 0 <= i < |blocks| ==> Baseline(blocks[i].c)
    ensures StandardHuffs().Valid()
    ensures e.allWritesSucceeded ==>
              && |headerBytes| <= |e.stream| && e.stream[..|headerBytes|] == headerBytes
              && DecodeEntropy(StandardHuffs(), Components(blocks), e.stream[|headerBytes|..]) == Some(blocks)
  {
    hide Huff.Valid, Filled, SizesTo, Listing.Val, IsSymbol, ScanCoded, DecodeEntropy;
    StandardValid();
    var dc0 := MakeTable(DC_LUM_COUNTS, DC_VAL);
    var dc1 := MakeTable(DC_CHROMA_COUNTS, DC_VAL);
    var ac0 := MakeTable(AC_LUM_COUNTS, AC_LUM.Val());
    var ac1 := MakeTable(AC_CHROMA_COUNTS, AC_CHROMA.Val());
    ScanStandard(NO_DC, blocks);
    forall i | 0 <= i < |blocks| ensures Quantized(blocks[i].c) {
      BaselineQuantized(blocks[i].c);
    }
    e := new Encoder([dc0, dc1, ac0, ac1], StandardHuffs());
    e.EncodeImage(headerBytes, blocks);
  }

  // ---------------------------------------------------------------- from samples

  /** A block of samples, less 128. */
  datatype SampleBlock = SampleBlock(comp: nat, s: seq<int32>)

  predicate ValidSamples(bs: seq<SampleBlock>) {
    forall i :: 0 <= i < |bs| ==> bs[i].comp < 3 && |bs[i].s| == 64 && Samples(Ints(bs[i].s))
  }

  /** What is coded of blocks of samples, with steps for the luminance and for the chrominance. */
  function Transformed(bs: seq<SampleBlock>, lum: seq<int>, chroma: seq<int>): (cs: seq<Block>)
    requires ValidSamples(bs) && ValidTable(lum) && ValidTable(chroma)
    ensures |cs| == |bs| && ValidBlocks(cs)
    ensures forall i :: 0 <= i < |cs| ==> cs[i] == TransformedOne(bs[i], lum, chroma)
  {
    seq(|bs|, i requires 0 <= i < |bs| => TransformedOne(bs[i], lum, chroma))
  }

  function TransformedOne(b: SampleBlock, lum: seq<int>, chroma: seq<int>): (c: Block)
    requires |b.s| == 64 && ValidTable(lum) && ValidTable(chroma)
    ensures c.comp == b.comp && |c.c| == 64
  {
    Block(b.comp, Coefficients(Ints(b.s), if b.comp > 0 then chroma else lum))
  }

  lemma SamplesBaseline(s: seq<int>, qs: seq<int>)
    requires Samples(s) && ValidTable(qs)
    ensures Baseline(Coefficients(s, qs))
  {
    hide Coefficients;
    forall i | 0 <= i < 64 ensures if i == 0 then -1024 <= Coefficients(s, qs)[i] <= 1023 else Abs(Coefficients(s, qs)[i]) < 1024 {
      CoefficientBound(s, qs, i);
    }
  }

  /** code_block up to the entropy coder: the transform and the quantizer, on the sample array. */
  method Transform(b: SampleBlock, lum: array<int32>, chroma: array<int32>) returns (c: Block)
    requires b.comp < 3 && |b.s| == 64 && Samples(Ints(b.s))
    requires lum.Length == chroma.Length == 64 && ValidTable(Ints(lum[..])) && ValidTable(Ints(chroma[..]))
    ensures c == TransformedOne(b, Ints(lum[..]), Ints(chroma[..])) && Baseline(c.c)
  {
    hide Dct, Quant, Baseline;
    var p := new int32[64](i requires 0 <= i < 64 => b.s[i]);
    assert p[..] == b.s;
    Dct2D(p);
    ghost var s := Ints(b.s);
    var qs := if b.comp > 0 then chroma else lum;
    forall i | 0 <= i < 64 ensures -0x8000 < p[i] < 0x8000 && p[i] as int == Dct(s)[i] {
      DctBound(s, i);
      assert p[i] as int == Ints(p[..])[i];
    }
    var q := LoadQuantized(p, qs);
    SamplesBaseline(s, Ints(qs[..]));
    c := Block(b.comp, seq(64, i requires 0 <= i < 64 reads q => q[i] as int));
    assert c.c == Coefficients(s, Ints(qs[..]));
  }

  /** The encoder on any blocks of samples, at any quality: if every write succeeds, decoding gives back the
      coefficients of every block. */
  method EncodeSamples(headerBytes: bytes, blocks: seq<SampleBlock>, quality: int32, lum: seq<int16>, chroma: seq<int16>)
    returns (e: Encoder)
    requires ValidSamples(blocks) && 1 <= quality <= 100 && ValidSource(lum) && ValidSource(chroma)
    ensures StandardHuffs().Valid()
    ensures e.allWritesSucceeded ==>
              var coded := Transformed(blocks, Steps(quality as int, lum), Steps(quality as int, chroma));
              && |headerBytes| <= |e.stream| && e.stream[..|headerBytes|] == headerBytes
              && DecodeEntropy(StandardHuffs(), Components(coded), e.stream[|headerBytes|..]) == Some(coded)
  {
    hide TransformedOne, Baseline, DecodeEntropy, StandardHuffs, Samples, Steps;
    ghost var lumSteps, chromaSteps := Steps(quality as int, lum), Steps(quality as int, chroma);
    var lumTable := ComputeQuantTable(quality, lum);
    var chromaTable := ComputeQuantTable(quality, chroma);
    var coded: seq<Block> := [];
    while |coded| < |blocks|
      invariant |coded| <= |blocks| && lumTable.Length == chromaTable.Length == 64
      invariant Ints(lumTable[..]) == lumSteps && Ints(chromaTable[..]) == chromaSteps
      invariant forall i :: 0 <= i < |coded| ==>
                  coded[i] == TransformedOne(blocks[i], lumSteps, chromaSteps) && Baseline(coded[i].c)
    {
      var c := Transform(blocks[|coded|], lumTable, chromaTable);
      coded := coded + [c];
    }
    assert coded == Transformed(blocks, lumSteps, chromaSteps);
    e := EncodeStandard(headerBytes, coded);
  }
}
