/** Canonical Huffman tables (Annex C of ITU-T T.81): how the encoder computes them, that no code is a
    prefix of another, and decoding by the same table. */
module JpegHuffman {
  import opened Arith
  import opened Bytes
  import opened BitStrings
  import opened Wrappers

  /** A table as it is transmitted: code lengths in order, and the symbol of each code. */
  datatype Huff = Huff(sizes: seq<nat>, val: seq<nat>) {
    predicate Valid() {
      Canonical(sizes) && |val| == |sizes| && Distinct(val) && Kraft(sizes)
    }
  }

  /** A table as the encoder uses it, indexed by symbol; size 0 where a symbol has no code. */
  datatype Table = Table(codes: seq<nat>, codeSizes: seq<nat>)

  predicate Canonical(sizes: seq<nat>) {
    && (forall i :: 0 <= i < |sizes| ==> 1 <= sizes[i] <= 16)
    && (forall i, j :: 0 <= i <= j < |sizes| ==> sizes[i] <= sizes[j])
  }

  predicate Distinct(val: seq<nat>) {
    && (forall i :: 0 <= i < |val| ==> val[i] < 256)
    && (forall i, j :: 0 <= i < j < |val| ==> val[i] != val[j])
  }

  /** Section C.2: consecutive codes of one length, doubled once for each step in length. */
  function CodeAt(sizes: seq<nat>, p: nat): nat
    requires p < |sizes| && Canonical(sizes)
  {
    if p == 0 then 0 else (CodeAt(sizes, p - 1) + 1) * Pow2(sizes[p] - sizes[p - 1])
  }

  function Word(sizes: seq<nat>, p: nat): (w: bits)
    requires p < |sizes| && Canonical(sizes)
    ensures |w| == sizes[p]
  {
    ToBits(CodeAt(sizes, p), sizes[p])
  }

  /** What the first p codes take of the 2^16 words of 16 bits. */
  function Space(sizes: seq<nat>, p: nat): nat
    requires p <= |sizes| && Canonical(sizes)
  {
    if p == 0 then 0 else Space(sizes, p - 1) + Pow2(16 - sizes[p - 1])
  }

  predicate Kraft(sizes: seq<nat>)
    requires Canonical(sizes)
  {
    Space(sizes, |sizes|) <= Pow2(16)
  }

  /** Each code, put at the top of a 16-bit word, begins where the codes before it end. */
  lemma {:induction false} Aligned(sizes: seq<nat>, p: nat)
    requires p < |sizes| && Canonical(sizes)
    ensures CodeAt(sizes, p) * Pow2(16 - sizes[p]) == Space(sizes, p)
  {
    if p > 0 {
      Aligned(sizes, p - 1);
      var c, d, e := CodeAt(sizes, p - 1), sizes[p] - sizes[p - 1], 16 - sizes[p];
      hide Pow2;
      Pow2Add(d, e);
      TimesAssoc(c + 1, Pow2(d), Pow2(e));
      TimesAdd(c, 1, Pow2(d + e));
    }
  }

  lemma {:induction false} SpaceMonotone(sizes: seq<nat>, p: nat, q: nat)
    requires p <= q <= |sizes| && Canonical(sizes)
    ensures Space(sizes, p) <= Space(sizes, q)
  {
    if p < q {
      SpaceMonotone(sizes, p, q - 1);
    }
  }

  /** Under the Kraft bound every code fits the length it is sent in. */
  lemma CodeFits(sizes: seq<nat>, p: nat)
    requires p < |sizes| && Canonical(sizes) && Kraft(sizes)
    ensures CodeAt(sizes, p) < Pow2(sizes[p])
  {
    Aligned(sizes, p);
    SpaceMonotone(sizes, p + 1, |sizes|);
    var e := 16 - sizes[p];
    Pow2Add(sizes[p], e);
    TimesLess(CodeAt(sizes, p), Pow2(sizes[p]), Pow2(e));
  }

  lemma SpaceNext(sizes: seq<nat>, p: nat)
    requires p < |sizes| && Canonical(sizes)
    ensures Space(sizes, p + 1) == Space(sizes, p) + Pow2(16 - sizes[p])
  {
  }

  /** No code is a prefix of another: at most one code matches the head of a stream. */
  lemma PrefixFree(sizes: seq<nat>, p: nat, q: nat, s: bits)
    requires Canonical(sizes) && Kraft(sizes) && p < |sizes| && q < |sizes|
    requires Word(sizes, p) <= s && Word(sizes, q) <= s
    ensures p == q
  {
    if p < q {
      LaterDiffers(sizes, p, q, s);
    } else if q < p {
      LaterDiffers(sizes, q, p, s);
    }
  }

  lemma LaterDiffers(sizes: seq<nat>, p: nat, q: nat, s: bits)
    requires Canonical(sizes) && Kraft(sizes) && p < q < |sizes|
    requires Word(sizes, p) <= s
    ensures !(Word(sizes, q) <= s)
  {
    if Word(sizes, q) <= s {
      var m, n := sizes[p], sizes[q];
      var tail := s[m..n];
      assert s[..n] == s[..m] + tail;
      HeadValue(sizes, p, s);
      HeadValue(sizes, q, s);
      hide Word, ToBits, Value, CodeAt;
      ValueAppend(s[..m], tail);
      ValueBound(tail);
      SpaceGap(sizes, p, q, Value(tail));
    }
  }

  lemma HeadValue(sizes: seq<nat>, p: nat, s: bits)
    requires Canonical(sizes) && Kraft(sizes) && p < |sizes| && Word(sizes, p) <= s
    ensures Value(s[..sizes[p]]) == CodeAt(sizes, p)
  {
    CodeFits(sizes, p);
    ValueOfBits(CodeAt(sizes, p), sizes[p]);
    assert s[..sizes[p]] == Word(sizes, p);
  }

  lemma SpaceGap(sizes: seq<nat>, p: nat, q: nat, t: nat)
    requires Canonical(sizes) && p < q < |sizes| && t < Pow2(sizes[q] - sizes[p])
    ensures CodeAt(sizes, q) != CodeAt(sizes, p) * Pow2(sizes[q] - sizes[p]) + t
  {
    hide Pow2, CodeAt, Space;
    var c, d, e := CodeAt(sizes, p), sizes[q] - sizes[p], 16 - sizes[q];
    SpaceNext(sizes, p);
    Aligned(sizes, p);
    Aligned(sizes, q);
    SpaceMonotone(sizes, p + 1, q);
    Pow2Add(d, e);
    TimesAdd(c, 1, Pow2(d + e));
    TimesAssoc(c + 1, Pow2(d), Pow2(e));
    TimesAtMost((c + 1) * Pow2(d), CodeAt(sizes, q), Pow2(e));
    TimesAdd(c, 1, Pow2(d));
  }

  // ---------------------------------------------------------------- symbols in a bit stream

  function IndexOf(val: seq<nat>, sym: nat): (p: nat)
    ensures p <= |val|
    ensures p < |val| ==> val[p] == sym
    ensures p == |val| ==> sym !in val
  {
    if val == [] then 0 else if val[0] == sym then 0 else 1 + IndexOf(val[1..], sym)
  }

  /** The code of a symbol, or nothing when it has none. */
  function SymBits(h: Huff, sym: nat): bits
    requires h.Valid()
  {
    var p := IndexOf(h.val, sym);
    if p < |h.val| then Word(h.sizes, p) else []
  }

  /** The first code, from number p on, that is at the head of the stream. */
  function Match(sizes: seq<nat>, s: bits, p: nat): (q: nat)
    requires Canonical(sizes) && p <= |sizes|
    ensures p <= q <= |sizes| && (q < |sizes| ==> Word(sizes, q) <= s)
    ensures forall i :: p <= i < q ==> !(Word(sizes, i) <= s)
    decreases |sizes| - p
  {
    if p == |sizes| || Word(sizes, p) <= s then p else Match(sizes, s, p + 1)
  }

  function DecodeSym(h: Huff, s: bits): (r: Option<(nat, bits)>)
    requires h.Valid()
    ensures r.Some? ==> |r.value.1| < |s|
  {
    var p := Match(h.sizes, s, 0);
    if p == |h.sizes| then None else Some((h.val[p], s[h.sizes[p]..]))
  }

  /** Decoding inverts coding, whatever follows. */
  lemma SymInverse(h: Huff, sym: nat, rest: bits)
    requires h.Valid() && sym in h.val
    ensures DecodeSym(h, SymBits(h, sym) + rest) == Some((sym, rest))
  {
    var p := IndexOf(h.val, sym);
    var w := Word(h.sizes, p);
    CutAtEnd(w, rest);
    var q := Match(h.sizes, w + rest, 0);
    PrefixFree(h.sizes, p, q, w + rest);
  }

  // ---------------------------------------------------------------- computing the encoder's table

  /** The entry of a symbol when the first p codes have been stored. */
  predicate EntryIs(code: nat, size: nat, h: Huff, sym: nat, p: nat)
    requires Canonical(h.sizes) && |h.val| == |h.sizes| && p <= |h.val|
  {
    var k := IndexOf(h.val, sym);
    if k < p then code == CodeAt(h.sizes, k) && size == h.sizes[k] else code == 0 && size == 0
  }

  ghost predicate FilledTo(codes: seq<nat>, codeSizes: seq<nat>, h: Huff, p: nat)
    requires Canonical(h.sizes) && |h.val| == |h.sizes| && p <= |h.val|
  {
    && |codes| == |codeSizes| == 256
    && forall s :: 0 <= s < 256 ==> EntryIs(codes[s], codeSizes[s], h, s, p)
  }

  ghost predicate Filled(t: Table, h: Huff)
    requires Canonical(h.sizes) && |h.val| == |h.sizes|
  {
    FilledTo(t.codes, t.codeSizes, h, |h.val|)
  }

  /** What the encoder writes for a symbol by its table is the symbol's code. */
  lemma FilledBits(t: Table, h: Huff, sym: nat)
    requires h.Valid() && Filled(t, h) && sym < 256
    ensures ToBits(t.codes[sym], t.codeSizes[sym]) == SymBits(h, sym)
    ensures t.codes[sym] < Pow2(t.codeSizes[sym]) && t.codeSizes[sym] <= 16
  {
    var p := IndexOf(h.val, sym);
    assert EntryIs(t.codes[sym], t.codeSizes[sym], h, sym, |h.val|);
    if p < |h.val| {
      CodeFits(h.sizes, p);
    }
  }

  function Copies(l: nat, n: nat): (r: seq<nat>)
    ensures |r| == n && forall i :: 0 <= i < n ==> r[i] == l
  {
    if n == 0 then [] else Copies(l, n - 1) + [l]
  }

  /** Section C.2: the lengths up to l, counts[i] codes of each length i. */
  function SizesTo(counts: seq<nat>, l: nat): (r: seq<nat>)
    requires l < |counts| && l <= 16
    ensures Canonical(r) && forall i :: 0 <= i < |r| ==> r[i] <= l
  {
    if l == 0 then [] else SizesTo(counts, l - 1) + Copies(l, counts[l])
  }

  lemma {:induction false} SizesPrefix(counts: seq<nat>, l: nat, m: nat)
    requires l <= m <= 16 && m < |counts|
    ensures SizesTo(counts, l) <= SizesTo(counts, m)
  {
    if l < m {
      SizesPrefix(counts, l, m - 1);
    }
  }

  /** compute_huffman_table, the lengths: one entry per code, then the sentinel. */
  method FillSizes(huffSize: array<nat>, counts: seq<nat>) returns (p: nat)
    requires |counts| == 17 && |SizesTo(counts, 16)| <= 256 && huffSize.Length == 257
    modifies huffSize
    ensures p == |SizesTo(counts, 16)| && huffSize[..p] == SizesTo(counts, 16) && huffSize[p] == 0
  {
    p := 0;
    var l: nat := 1;
    while l <= 16
      invariant 1 <= l <= 17
      invariant p == |SizesTo(counts, l - 1)| <= 256 && huffSize[..p] == SizesTo(counts, l - 1)
    {
      SizesPrefix(counts, l, 16);
      ghost var before := huffSize[..p];
      var i: nat := 1;
      while i <= counts[l]
        invariant 1 <= i <= counts[l] + 1
        invariant p == |before| + i - 1 && huffSize[..p] == before + Copies(l, i - 1)
        decreases counts[l] - i
      {
        huffSize[p] := l;
        p, i := p + 1, i + 1;
      }
      l := l + 1;
    }
    huffSize[p] := 0;
  }

  lemma {:induction false} SpaceBound(sizes: seq<nat>, p: nat)
    requires p <= |sizes| && Canonical(sizes)
    ensures Space(sizes, p) <= p * Pow2(15)
  {
    hide Pow2;
    if p > 0 {
      SpaceBound(sizes, p - 1);
      Pow2AtMost(16 - sizes[p - 1], 15);
      TimesAdd(p - 1, 1, Pow2(15));
    }
  }

  /** A code register that has consumed the space of the first p codes. */
  ghost predicate AtCode(sizes: seq<nat>, p: nat, si: nat, code: nat)
    requires p <= |sizes| && Canonical(sizes)
  {
    1 <= si <= 16 && code * Pow2(16 - si) == Space(sizes, p)
  }

  lemma AtCodeIs(sizes: seq<nat>, p: nat, si: nat, code: nat)
    requires p < |sizes| && Canonical(sizes) && AtCode(sizes, p, si, code) && si == sizes[p]
    ensures code == CodeAt(sizes, p) && AtCode(sizes, p + 1, si, code + 1)
  {
    Aligned(sizes, p);
    var d := Pow2(16 - si);
    QuotientUnique(d, code, 0, CodeAt(sizes, p), 0);
    assert (code + 1) * d == code * d + d;
  }

  lemma AtCodeShift(sizes: seq<nat>, p: nat, si: nat, code: nat)
    requires p <= |sizes| <= 256 && Canonical(sizes) && AtCode(sizes, p, si, code)
    ensures Shl(code, 1) == code * 2
    ensures si < 16 ==> AtCode(sizes, p, si + 1, Shl(code, 1))
  {
    SpaceBound(sizes, p);
    assert Pow2(15) == 32768 by { Pow2s(); }
    assert Pow2(1) == 2;
    var d := Pow2(16 - si);
    assert code <= code * d by { TimesLeft(code, d); }
    assert p * Pow2(15) <= 0x80_0000;
    if si < 16 {
      TimesAssoc(code, 2, Pow2(15 - si));
    }
  }

  /** compute_huffman_table, the codes: a run of each length, then one bit more. */
  method FillCodes(huffSize: array<nat>, huffCode: array<nat>, ghost sizes: seq<nat>)
    requires huffSize.Length == huffCode.Length == 257 && huffSize != huffCode
    requires |sizes| <= 256 && Canonical(sizes) && huffSize[..|sizes|] == sizes && huffSize[|sizes|] == 0
    modifies huffCode
    ensures forall k :: 0 <= k < |sizes| ==> huffCode[k] == CodeAt(sizes, k)
  {
    hide CodeAt, Space, AtCode, Shl;
    var code: nat, si: nat, p: nat := 0, huffSize[0], 0;
    ghost var n := |sizes|;
    assert forall k :: 0 <= k < n ==> huffSize[k] == sizes[k];
    Start(sizes);
    while huffSize[p] != 0
      invariant p <= n && (p < n ==> si <= sizes[p] && AtCode(sizes, p, si, code))
      invariant forall k :: 0 <= k < p ==> huffCode[k] == CodeAt(sizes, k)
      decreases 17 - si
    {
      while huffSize[p] == si
        invariant p <= n && 1 <= si <= 16 && (p < n ==> si <= sizes[p]) && AtCode(sizes, p, si, code)
        invariant forall k :: 0 <= k < p ==> huffCode[k] == CodeAt(sizes, k)
        decreases n - p
      {
        AtCodeIs(sizes, p, si, code);
        huffCode[p] := code;
        p, code := p + 1, code + 1;
      }
      AtCodeShift(sizes, p, si, code);
      code := Shl(code, 1);
      si := si + 1;
    }
  }

  lemma Start(sizes: seq<nat>)
    requires Canonical(sizes)
    ensures sizes != [] ==> AtCode(sizes, 0, sizes[0], 0)
  {
  }

  lemma {:induction false} IndexAt(val: seq<nat>, p: nat)
    requires Distinct(val) && p < |val|
    ensures IndexOf(val, val[p]) == p
  {
    var k := IndexOf(val, val[p]);
    assert val[p] in val;
  }

  lemma FilledNext(codes: seq<nat>, codeSizes: seq<nat>, h: Huff, p: nat)
    requires Canonical(h.sizes) && Distinct(h.val) && |h.val| == |h.sizes| && p < |h.val|
    requires FilledTo(codes, codeSizes, h, p)
    ensures FilledTo(codes[h.val[p] := CodeAt(h.sizes, p)], codeSizes[h.val[p] := h.sizes[p]], h, p + 1)
  {
    hide CodeAt, IndexOf, Canonical, Distinct;
    DistinctBelow(h.val, p);
    var sym := h.val[p];
    var c, z := codes[sym := CodeAt(h.sizes, p)], codeSizes[sym := h.sizes[p]];
    IndexAt(h.val, p);
    forall s | 0 <= s < 256 ensures EntryIs(c[s], z[s], h, s, p + 1) {
      assert EntryIs(codes[s], codeSizes[s], h, s, p);
    }
  }

  lemma FilledNone(codes: array<nat>, codeSizes: array<nat>, h: Huff)
    requires Canonical(h.sizes) && |h.val| == |h.sizes| && codes.Length == codeSizes.Length == 256
    requires (forall s :: 0 <= s < 256 ==> codes[s] == 0) && (forall s :: 0 <= s < 256 ==> codeSizes[s] == 0)
    ensures FilledTo(codes[..], codeSizes[..], h, 0)
  {
    hide CodeAt, IndexOf, Canonical;
  }

  lemma Slot(huffSize: array<nat>, sizes: seq<nat>, p: nat)
    requires p < |sizes| <= huffSize.Length && huffSize[..|sizes|] == sizes
    ensures huffSize[p] == sizes[p]
  {
  }

  method Place(codes: array<nat>, codeSizes: array<nat>, sym: nat, code: nat, size: nat)
    requires codes != codeSizes && sym < codes.Length && sym < codeSizes.Length
    modifies codes, codeSizes
    ensures codes[..] == old(codes[..])[sym := code] && codeSizes[..] == old(codeSizes[..])[sym := size]
  {
    codes[sym] := code;
    codeSizes[sym] := size;
  }

  /** memset */
  method Clear(a: array<nat>)
    modifies a
    ensures forall s :: 0 <= s < a.Length ==> a[s] == 0
  {
    forall i | 0 <= i < a.Length {
      a[i] := 0;
    }
  }

  /** compute_huffman_table */
  method ComputeHuffmanTable(codes: array<nat>, codeSizes: array<nat>, counts: seq<nat>, val: seq<nat>)
    requires codes.Length == codeSizes.Length == 256 && codes != codeSizes
    requires |counts| == 17 && |val| == |SizesTo(counts, 16)| && Distinct(val) && |val| <= 256
    modifies codes, codeSizes
    ensures Filled(Table(codes[..], codeSizes[..]), Huff(SizesTo(counts, 16), val))
  {
    var huffSize := new nat[257];
    var huffCode := new nat[257];
    ghost var sizes := SizesTo(counts, 16);
    ghost var h := Huff(sizes, val);
    hide SizesTo, CodeAt, FilledTo, EntryIs;
    var lastP := FillSizes(huffSize, counts);
    FillCodes(huffSize, huffCode, sizes);
    Clear(codes);
    Clear(codeSizes);
    FilledNone(codes, codeSizes, h);
    hide Canonical, Distinct;
    var p: nat := 0;
    while p < lastP
      invariant p <= lastP && FilledTo(codes[..], codeSizes[..], h, p)
      modifies codes, codeSizes
    {
      Slot(huffSize, sizes, p);
      FilledNext(codes[..], codeSizes[..], h, p);
      DistinctBelow(val, p);
      Place(codes, codeSizes, val[p], huffCode[p], huffSize[p]);
      p := p + 1;
    }
  }

  lemma DistinctBelow(val: seq<nat>, p: nat)
    requires Distinct(val) && p < |val|
    ensures val[p] < 256
  {
  }
}
