/** The quantizer of the JPEG encoder: its tables, the zigzag order, and the coefficients it leaves of a block of
    samples. */
module JpegQuantizer {
  import opened Arith
  import opened JpegDct
  import opened JpegSymbols

  newtype int16 = x: int | -0x8000 <= x < 0x8000

  /** A magnitude in steps of q, rounded to the nearest. */
  function Rounded(a: nat, q: nat): (c: nat)
    requires q > 0
    ensures c <= a
  {
    RoundedNear(a, q);
    (a + q / 2) / q
  }

  lemma RoundedNear(a: nat, q: nat)
    requires q > 0
    ensures var c := (a + q / 2) / q; -(q as int) <= 2 * (c * q - a) <= q && 0 <= c <= a
  {
    var c := (a + q / 2) / q;
    assert a + q / 2 == c * q + (a + q / 2) % q;
    if c > a {
      TimesLeft(a, q);
      Below(a, c, q, q - 1);
    }
  }

  /** A coefficient in steps of q. */
  function Quant(j: int, q: int): (c: int)
    requires q > 0
    ensures if j < 0 then j <= c <= 0 else 0 <= c <= j
  {
    if j < 0 then -(Rounded(-j, q) as int) else Rounded(j, q)
  }

  /** It is the nearest multiple. */
  lemma QuantNear(j: int, q: nat)
    requires q > 0
    ensures -(q as int) <= 2 * (Quant(j, q) * q - j) <= q
  {
    var a := if j < 0 then -j else j;
    RoundedNear(a, q);
    TimesNegative(Rounded(a, q), q);
  }

  lemma TimesNegative(c: int, q: int)
    ensures -c * q == -(c * q)
  {
  }

  /** s_zag, in rows of eight. */
  const ZAG: seq<seq<nat>> := [
    [0, 1, 8, 16, 9, 2, 3, 10],
    [17, 24, 32, 25, 18, 11, 4, 5],
    [12, 19, 26, 33, 40, 48, 41, 34],
    [27, 20, 13, 6, 7, 14, 21, 28],
    [35, 42, 49, 56, 57, 50, 43, 36],
    [29, 22, 15, 23, 30, 37, 44, 51],
    [58, 59, 52, 45, 38, 31, 39, 46],
    [53, 60, 61, 54, 47, 55, 62, 63]
  ]

  /** Where the zigzag has a coefficient: diagonal by diagonal, up and down in turn. */
  function Place(z: nat): int
    requires z < 64
  {
    var d := z / 8 + z % 8;
    var k := if d % 2 == 0 then z % 8 else z / 8;
    if d < 8 then d * (d + 1) / 2 + k else 64 - (15 - d) * (16 - d) / 2 + k - (d - 7)
  }

  predicate InPlace(r: nat, c: nat) {
    |ZAG| == 8 && r < 8 && |ZAG[r]| == 8 && c < 8 && ZAG[r][c] < 64 && Place(ZAG[r][c]) == 8 * r + c
  }

  predicate RowInPlace(r: nat) {
    && InPlace(r, 0) && InPlace(r, 1) && InPlace(r, 2) && InPlace(r, 3)
    && InPlace(r, 4) && InPlace(r, 5) && InPlace(r, 6) && InPlace(r, 7)
  }

  lemma FirstRows() ensures RowInPlace(0) && RowInPlace(1) {}
  lemma UpperRows() ensures RowInPlace(2) && RowInPlace(3) {}
  lemma LowerRows() ensures RowInPlace(4) && RowInPlace(5) {}
  lemma LastRows() ensures RowInPlace(6) && RowInPlace(7) {}

  /** The order of the table is that of the zigzag: it leaves no coefficient out and takes none twice. */
  lemma ZigzagOrder(i: nat)
    requires i < 64
    ensures InPlace(i / 8, i % 8)
    ensures ZAG[i / 8][i % 8] == 0 <==> i == 0
  {
    hide InPlace;
    FirstRows();
    UpperRows();
    LowerRows();
    LastRows();
    PlaceOfFirst();
  }

  lemma PlaceOfFirst()
    ensures Place(0) == 0 && InPlace(0, 0) && ZAG[0][0] == 0
  {
  }

  function Zag(i: nat): (z: nat)
    requires i < 64
    ensures z < 64 && Place(z) == i && (z == 0 <==> i == 0)
  {
    ZigzagOrder(i);
    ZAG[i / 8][i % 8]
  }

  ghost function UpTo(n: nat): set<nat> {
    if n == 0 then {} else UpTo(n - 1) + {n - 1}
  }

  lemma {:induction false} UpToCount(n: nat)
    ensures |UpTo(n)| == n && forall z: nat :: z in UpTo(n) <==> z < n
  {
    if n > 0 {
      UpToCount(n - 1);
    }
  }

  /** Every coefficient has its place. */
  lemma PlaceInside(z: nat)
    requires z < 64
    ensures 0 <= Place(z) < 64 && Zag(Place(z)) == z
  {
    hide Place;
    var order := seq(64, i requires 0 <= i < 64 => Zag(i));
    UpToCount(64);
    Pigeonhole(order, UpTo(64), z);
    var i :| 0 <= i < 64 && order[i] == z;
  }

  // ---------------------------------------------------------------- the coefficients of a block

  predicate ValidTable(qs: seq<int>) {
    |qs| == 64 && Within(qs, 1, 255)
  }

  /** What is coded of a block of samples, in zigzag order. */
  function Coefficients(s: seq<int>, qs: seq<int>): (c: seq<int>)
    requires |s| == 64 && ValidTable(qs)
    ensures |c| == 64
  {
    seq(64, i requires 0 <= i < 64 => Quant(Dct(s)[Zag(i)], qs[i]))
  }

  /** Of samples of eight bits the first coefficient takes eleven bits, and the others are at most 1020. */
  lemma CoefficientBound(s: seq<int>, qs: seq<int>, i: nat)
    requires Samples(s) && ValidTable(qs) && i < 64
    ensures var c := Coefficients(s, qs)[i]; if i == 0 then -1024 <= c <= 1016 else -1020 <= c <= 1020
  {
    hide Dct, Quant;
    DctBound(s, Zag(i));
  }

  /** A decoder that multiplies has every coefficient of the transform to half a step. */
  lemma CoefficientNear(s: seq<int>, qs: seq<int>, z: nat)
    requires |s| == 64 && ValidTable(qs) && z < 64
    ensures 0 <= Place(z) < 64
    ensures var q := qs[Place(z)]; -q <= 2 * (Coefficients(s, qs)[Place(z)] * q - Dct(s)[z]) <= q
  {
    hide Dct, Quant, Place;
    PlaceInside(z);
    QuantNear(Dct(s)[z], qs[Place(z)]);
  }

  // ---------------------------------------------------------------- the code

  /** load_quantized_coefficients: neither word is too small. */
  method LoadQuantized(p: array<int32>, qs: array<int32>) returns (c: array<int16>)
    requires p.Length == qs.Length == 64 && ValidTable(Ints(qs[..]))
    requires forall i :: 0 <= i < 64 ==> -0x8000 < p[i] < 0x8000
    ensures c.Length == 64
    ensures forall i :: 0 <= i < 64 ==> c[i] as int == Quant(p[Zag(i)] as int, qs[i] as int)
  {
    hide Quant;
    c := new int16[64](_ => 0);
    var i: nat := 0;
    while i < 64
      invariant i <= 64
      invariant forall k :: 0 <= k < i ==> c[k] as int == Quant(p[Zag(k)] as int, qs[k] as int)
    {
      assert 1 <= Ints(qs[..])[i] <= 255;
      c[i] := Quantize(p[Zag(i)], qs[i]);
      i := i + 1;
    }
  }

  method Quantize(j0: int32, q: int32) returns (c: int16)
    requires -0x8000 < j0 < 0x8000 && 1 <= q <= 255
    ensures c as int == Quant(j0 as int, q as int)
  {
    hide Rounded;
    var j := j0;
    if j < 0 {
      RoundedSmall(-j as int, q as int);
      j := -j + q / 2;
      c := if j < q then 0 else (-(j / q)) as int16;
    } else {
      RoundedSmall(j as int, q as int);
      j := j + q / 2;
      c := if j < q then 0 else (j / q) as int16;
    }
  }

  lemma RoundedSmall(a: nat, q: nat)
    requires q > 0
    ensures Rounded(a, q) == if a + q / 2 < q then 0 else (a + q / 2) / q
  {
  }

  /** One of the tables that the quality scales. */
  predicate ValidSource(src: seq<int16>) {
    |src| == 64 && forall i :: 0 <= i < 64 ==> src[i] >= 0
  }

  /** The scale of a quality, in percent. */
  function Percent(quality: int): (q: nat)
    requires 1 <= quality <= 100
    ensures q <= 5000
  {
    if quality < 50 then 5000 / quality else 200 - quality * 2
  }

  /** A table, scaled: whatever the quality, its steps are from 1 to 255. */
  function Steps(quality: int, src: seq<int16>): (qs: seq<int>)
    requires 1 <= quality <= 100 && ValidSource(src)
    ensures ValidTable(qs)
  {
    seq(64, i requires 0 <= i < 64 =>
      var j := (src[i] as int * Percent(quality) + 50) / 100;
      if j < 1 then 1 else if j > 255 then 255 else j)
  }

  /** compute_quant_table */
  method ComputeQuantTable(quality: int32, src: seq<int16>) returns (dst: array<int32>)
    requires 1 <= quality <= 100 && ValidSource(src)
    ensures dst.Length == 64 && Ints(dst[..]) == Steps(quality as int, src)
  {
    hide Percent;
    ghost var steps := Steps(quality as int, src);
    PercentIs(quality as int);
    var q: int32 := if quality < 50 then 5000 / quality else 200 - quality * 2;
    dst := new int32[64](_ => 0);
    var i: nat := 0;
    while i < 64
      invariant i <= 64 && forall k :: 0 <= k < i ==> dst[k] as int == steps[k]
    {
      ScaledFits(src[i] as int, q as int);
      var j := (src[i] as int32 * q + 50) / 100;
      dst[i] := if j < 1 then 1 else if j > 255 then 255 else j;
      i := i + 1;
    }
  }

  lemma PercentIs(quality: int)
    requires 1 <= quality <= 100
    ensures Percent(quality) == if quality < 50 then 5000 / quality else 200 - quality * 2
  {
  }

  lemma ScaledFits(a: nat, q: nat)
    requires a < 0x8000 && q <= 5000
    ensures 0 <= a * q <= 0x8000 * 5000
  {
    assert (0x8000 - a) * q >= 0;
  }
}
