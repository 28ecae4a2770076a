/** The forward DCT of the JPEG encoder, in fixed point and in place, and the quantizer behind it: the butterflies
    compute a matrix, nothing overflows, and what they leave of eight-bit samples. */
module JpegDct {
  newtype int32 = x: int | -0x8000_0000 <= x < 0x8000_0000

  /** A cast to 16 bits. */
  function Int16(v: int): (r: int)
    ensures -32768 <= r <= 32767 && (-32768 <= v <= 32767 ==> r == v)
  {
    (v + 32768) % 65536 - 32768
  }

  // ---------------------------------------------------------------- the matrix

  /** Row k of the cosines, on a scale of 8192 * sqrt 2 * cos (j * pi / 16), applied to eight values. */
  function Form(k: nat, s: seq<int>): int
    requires k < 8 && |s| == 8
  {
    if k == 0 then 8192 * (s[0] + s[1] + s[2] + s[3] + s[4] + s[5] + s[6] + s[7])
    else if k == 1 then 11363 * (s[0] - s[7]) + 9633 * (s[1] - s[6]) + 6437 * (s[2] - s[5]) + 2260 * (s[3] - s[4])
    else if k == 2 then 10703 * (s[0] + s[7] - s[3] - s[4]) + 4433 * (s[1] + s[6] - s[2] - s[5])
    else if k == 3 then 9633 * (s[0] - s[7]) - 2259 * (s[1] - s[6]) - 11362 * (s[2] - s[5]) - 6436 * (s[3] - s[4])
    else if k == 4 then 8192 * (s[0] - s[1] - s[2] + s[3] + s[4] - s[5] - s[6] + s[7])
    else if k == 5 then 6437 * (s[0] - s[7]) - 11362 * (s[1] - s[6]) + 2261 * (s[2] - s[5]) + 9633 * (s[3] - s[4])
    else if k == 6 then 4433 * (s[0] + s[7] - s[3] - s[4]) - 10704 * (s[1] + s[6] - s[2] - s[5])
    else 2260 * (s[0] - s[7]) - 6436 * (s[1] - s[6]) + 9633 * (s[2] - s[5]) - 11363 * (s[3] - s[4])
  }

  /** Rounded quotients: by 2^11, which leaves two bits for the second pass, and by 2^18, which takes them and the
      scale of eight off. */
  function RowScale(x: int): int {
    (x + 1024) / 2048
  }

  function ColumnScale(x: int): int {
    (x + 0x2_0000) / 0x4_0000
  }

  function Row(p: seq<int>, r: nat): (s: seq<int>)
    requires |p| == 64 && r < 8
    ensures |s| == 8
  {
    p[8 * r..8 * r + 8]
  }

  function Column(p: seq<int>, c: nat): (s: seq<int>)
    requires |p| == 64 && c < 8
    ensures |s| == 8
  {
    [p[c], p[c + 8], p[c + 16], p[c + 24], p[c + 32], p[c + 40], p[c + 48], p[c + 56]]
  }

  function RowAt(p: seq<int>, i: nat): int
    requires |p| == 64 && i < 64
  {
    RowScale(Form(i % 8, Row(p, i / 8)))
  }

  function ColumnAt(p: seq<int>, i: nat): int
    requires |p| == 64 && i < 64
  {
    ColumnScale(Form(i / 8, Column(p, i % 8)))
  }

  function RowPass(p: seq<int>): (q: seq<int>)
    requires |p| == 64
    ensures |q| == 64
  {
    seq(64, i requires 0 <= i < 64 => RowAt(p, i))
  }

  function ColumnPass(p: seq<int>): (q: seq<int>)
    requires |p| == 64
    ensures |q| == 64
  {
    seq(64, i requires 0 <= i < 64 => ColumnAt(p, i))
  }

  /** The coefficients of a block of samples, row by row. */
  function Dct(p: seq<int>): (q: seq<int>)
    requires |p| == 64
    ensures |q| == 64
  {
    ColumnPass(RowPass(p))
  }

  // ---------------------------------------------------------------- how large it gets

  predicate Within(s: seq<int>, lo: int, hi: int) {
    forall i :: 0 <= i < |s| ==> lo <= s[i] <= hi
  }

  /** Samples of eight bits, less 128. */
  predicate Samples(p: seq<int>) {
    |p| == 64 && Within(p, -128, 127)
  }

  /** The forms of values of which the greatest and the least are not further apart than `w`. */
  lemma FormBound(k: nat, s: seq<int>, lo: int, hi: int, w: nat)
    requires k < 8 && |s| == 8 && Within(s, lo, hi) && hi - lo <= w
    ensures k == 0 ==> 65536 * lo <= Form(k, s) <= 65536 * hi
    ensures k == 4 ==> -32768 * w <= Form(k, s) <= 32768 * w
    ensures k == 1 || k == 3 || k == 5 || k == 7 ==> -29693 * w <= Form(k, s) <= 29693 * w
    ensures k == 2 || k == 6 ==> -30274 * w <= Form(k, s) <= 30274 * w
  {
    assert lo <= s[0] <= hi && lo <= s[1] <= hi && lo <= s[2] <= hi && lo <= s[3] <= hi;
    assert lo <= s[4] <= hi && lo <= s[5] <= hi && lo <= s[6] <= hi && lo <= s[7] <= hi;
  }

  /** What the rows leave in a column. */
  predicate RowBound(c: nat, v: int) {
    if c == 0 then -4096 <= v <= 4064 else -4080 <= v <= 4080
  }

  lemma RowPassBound(p: seq<int>, i: nat)
    requires Samples(p) && i < 64
    ensures RowBound(i % 8, RowPass(p)[i])
  {
    hide Form;
    var k, s := i % 8, Row(p, i / 8);
    assert Within(s, -128, 127);
    FormBound(k, s, -128, 127, 255);
  }

  lemma ColumnWithin(p: seq<int>, i: nat)
    requires Samples(p) && i < 64
    ensures var s := Column(RowPass(p), i % 8); if i % 8 == 0 then Within(s, -4096, 4064) else Within(s, -4080, 4080)
  {
    hide RowAt, RowPass, Column;
    var q := RowPass(p);
    forall k | 0 <= k < 64 ensures RowBound(k % 8, q[k]) {
      RowPassBound(p, k);
    }
    ColumnBound(q, i % 8);
  }

  lemma ColumnBound(q: seq<int>, c: nat)
    requires |q| == 64 && c < 8 && forall k :: 0 <= k < 64 ==> RowBound(k % 8, q[k])
    ensures var s := Column(q, c); if c == 0 then Within(s, -4096, 4064) else Within(s, -4080, 4080)
  {
    forall j | 0 <= j < 8 ensures RowBound(c, Column(q, c)[j]) {
      assert RowBound((c + 8 * j) % 8, q[c + 8 * j]);
    }
  }

  /** Of samples of eight bits the first coefficient takes eleven bits, and any other is at most 1020. */
  lemma DctBound(p: seq<int>, i: nat)
    requires Samples(p) && i < 64
    ensures if i == 0 then -1024 <= Dct(p)[i] <= 1016 else -1020 <= Dct(p)[i] <= 1020
  {
    hide RowPass, Column, Form, Within;
    ColumnWithin(p, i);
    var k, s := i / 8, Column(RowPass(p), i % 8);
    assert Dct(p)[i] == ColumnAt(RowPass(p), i);
    if i % 8 == 0 {
      FormBound(k, s, -4096, 4064, 8160);
    } else {
      FormBound(k, s, -4080, 4080, 8160);
    }
  }

  lemma FormFlat(k: nat, s: seq<int>, v: int)
    requires k < 8 && |s| == 8 && forall i :: 0 <= i < 8 ==> s[i] == v
    ensures Form(k, s) == if k == 0 then 65536 * v else 0
  {
  }

  /** A block of one colour has no coefficient but the first. */
  lemma FlatBlock(p: seq<int>, v: int, i: nat)
    requires |p| == 64 && i < 64 && forall k :: 0 <= k < 64 ==> p[k] == v
    ensures Dct(p)[i] == if i == 0 then 8 * v else 0
  {
    hide RowPass, Column, Form;
    var q, w := RowPass(p), if i % 8 == 0 then 32 * v else 0;
    forall k | 0 <= k < 64 ensures q[k] == if k % 8 == 0 then 32 * v else 0 {
      FlatRow(p, v, k);
    }
    FlatColumn(q, i % 8, w);
    FormFlat(i / 8, Column(q, i % 8), w);
    assert Dct(p)[i] == ColumnAt(q, i);
  }

  lemma FlatRow(p: seq<int>, v: int, i: nat)
    requires |p| == 64 && i < 64 && forall k :: 0 <= k < 64 ==> p[k] == v
    ensures RowPass(p)[i] == if i % 8 == 0 then 32 * v else 0
  {
    hide Form;
    FormFlat(i % 8, Row(p, i / 8), v);
  }

  lemma FlatColumn(q: seq<int>, c: nat, v: int)
    requires |q| == 64 && c < 8 && forall k :: 0 <= k < 64 && k % 8 == c ==> q[k] == v
    ensures forall j :: 0 <= j < 8 ==> Column(q, c)[j] == v
  {
    forall j | 0 <= j < 8 ensures Column(q, c)[j] == v {
      assert (c + 8 * j) % 8 == c;
    }
  }

  // ---------------------------------------------------------------- how near it comes

  /** The coefficient without any rounding, on a scale of 2^29. */
  function Exact(p: seq<int>, i: nat): int
    requires |p| == 64 && i < 64
  {
    Form(i / 8, seq(8, r requires 0 <= r < 8 => Form(i % 8, Row(p, r))))
  }

  lemma FormAffine(k: nat, q: seq<int>, f: seq<int>, e: seq<int>)
    requires k < 8 && |q| == |f| == |e| == 8 && forall i :: 0 <= i < 8 ==> 2048 * q[i] == f[i] + e[i]
    ensures 2048 * Form(k, q) == Form(k, f) + Form(k, e)
  {
  }

  lemma ColumnIndex(c: nat, r: nat)
    requires c < 8 && r < 8
    ensures (c + 8 * r) / 8 == r && (c + 8 * r) % 8 == c
  {
  }

  /** What the rounding of the rows adds to a column. */
  lemma RowErrors(p: seq<int>, c: nat) returns (e: seq<int>)
    requires |p| == 64 && c < 8
    ensures |e| == 8 && Within(e, -1024, 1024)
    ensures forall r :: 0 <= r < 8 ==> 2048 * Column(RowPass(p), c)[r] == Form(c, Row(p, r)) + e[r]
  {
    hide Form, Row;
    var q := RowPass(p);
    e := seq(8, r requires 0 <= r < 8 => 2048 * Column(q, c)[r] - Form(c, Row(p, r)));
    forall r | 0 <= r < 8 ensures -1024 <= e[r] <= 1024 {
      ColumnIndex(c, r);
      assert q[c + 8 * r] == RowAt(p, c + 8 * r);
    }
  }

  /** Every coefficient is within five eighths of the exact one. */
  lemma DctNear(p: seq<int>, i: nat)
    requires |p| == 64 && i < 64
    ensures -0x1400_0000 <= 0x2000_0000 * Dct(p)[i] - Exact(p, i) <= 0x1400_0000
  {
    hide Form, Row, RowPass, Column;
    var q := Column(RowPass(p), i % 8);
    var f := seq(8, r requires 0 <= r < 8 => Form(i % 8, Row(p, r)));
    var e := RowErrors(p, i % 8);
    FormAffine(i / 8, q, f, e);
    FormBound(i / 8, e, -1024, 1024, 2048);
    assert Dct(p)[i] == ColumnAt(RowPass(p), i);
  }

  // ---------------------------------------------------------------- the code

  /** DCT_MUL, where its cast changes nothing. */
  function DctMul(v: int32, c: int): (r: int32)
    requires -0x8000 <= c < 0x8000 && -32768 <= v <= 32767
    ensures r as int == v as int * c
  {
    ProductFits(Int16(v as int), c);
    (Int16(v as int) * c) as int32
  }

  lemma ProductFits(v: int, c: int)
    requires -0x8000 <= v < 0x8000 && -0x8000 <= c < 0x8000
    ensures -0x4000_0000 <= v * c <= 0x4000_0000
  {
    ProductBound(if v < 0 then -v else v, if c < 0 then -c else c);
  }

  lemma ProductBound(a: nat, b: nat)
    requires a <= 0x8000 && b <= 0x8000
    ensures 0 <= a * b <= 0x4000_0000
  {
    assert (0x8000 - a) * b >= 0;
  }

  /** The half of DCT1D on the sums. */
  method SumHalf(t0: int32, t1: int32, t2: int32, t3: int32) returns (o0: int32, o2: int32, o4: int32, o6: int32)
    requires -8192 <= t0 <= 8160 && -8192 <= t1 <= 8160 && -8192 <= t2 <= 8160 && -8192 <= t3 <= 8160
    requires -32640 <= t0 as int + t1 as int - t2 as int - t3 as int <= 32640
    requires -16320 <= t0 as int - t3 as int <= 16320 && -16320 <= t1 as int - t2 as int <= 16320
    ensures o0 as int == t0 as int + t1 as int + t2 as int + t3 as int
    ensures o4 as int == t0 as int - t1 as int - t2 as int + t3 as int
    ensures o2 as int == 10703 * (t0 - t3) as int + 4433 * (t1 - t2) as int
    ensures o6 as int == 4433 * (t0 - t3) as int - 10704 * (t1 - t2) as int
  {
    hide DctMul;
    var t10, t13, t11, t12 := t0 + t3, t0 - t3, t1 + t2, t1 - t2;
    var u1 := DctMul(t12 + t13, 4433);
    o2 := u1 + DctMul(t13, 6270);
    o6 := u1 + DctMul(t12, -15137);
    o0 := t10 + t11;
    o4 := t10 - t11;
  }

  /** The half on the differences. */
  method DifferenceHalf(d4: int32, d5: int32, d6: int32, d7: int32)
    returns (o1: int32, o3: int32, o5: int32, o7: int32)
    requires -8160 <= d4 <= 8160 && -8160 <= d5 <= 8160 && -8160 <= d6 <= 8160 && -8160 <= d7 <= 8160
    ensures o1 as int == 11363 * d7 as int + 9633 * d6 as int + 6437 * d5 as int + 2260 * d4 as int
    ensures o3 as int == 9633 * d7 as int - 2259 * d6 as int - 11362 * d5 as int - 6436 * d4 as int
    ensures o5 as int == 6437 * d7 as int - 11362 * d6 as int + 2261 * d5 as int + 9633 * d4 as int
    ensures o7 as int == 2260 * d7 as int - 6436 * d6 as int + 9633 * d5 as int - 11363 * d4 as int
  {
    hide DctMul;
    var u1, u2, u3, u4 := d4 + d7, d5 + d6, d4 + d6, d5 + d7;
    var z5 := DctMul(u3 + u4, 9633);
    var t4, t5, t6, t7 := DctMul(d4, 2446), DctMul(d5, 16819), DctMul(d6, 25172), DctMul(d7, 12299);
    u1, u2 := DctMul(u1, -7373), DctMul(u2, -20995);
    u3, u4 := DctMul(u3, -16069), DctMul(u4, -3196);
    u3, u4 := u3 + z5, u4 + z5;
    assert u3 as int == 9633 * (d5 as int + d7 as int) - 6436 * (d4 as int + d6 as int);
    assert u4 as int == 9633 * (d4 as int + d6 as int) + 6437 * (d5 as int + d7 as int);
    o1 := t7 + u1 + u4;
    o3 := t6 + u2 + u3;
    o5 := t5 + u2 + u4;
    o7 := t4 + u1 + u3;
  }

  /** What the inputs of a pass are: no cast to 16 bits changes their sums. */
  predicate Moderate(s: seq<int>, lo: int, hi: int) {
    |s| == 8 && Within(s, lo, hi) && -4096 <= lo && hi <= 4080 && hi - lo <= 8160
  }

  /** DCT1D, in 32-bit words that do not overflow. */
  method Dct1D(s0: int32, s1: int32, s2: int32, s3: int32, s4: int32, s5: int32, s6: int32, s7: int32,
               ghost lo: int, ghost hi: int)
    returns (o0: int32, o1: int32, o2: int32, o3: int32, o4: int32, o5: int32, o6: int32, o7: int32)
    requires Moderate(Ints([s0, s1, s2, s3, s4, s5, s6, s7]), lo, hi)
    ensures var s := Ints([s0, s1, s2, s3, s4, s5, s6, s7]);
            && 8192 * o0 as int == Form(0, s) && o1 as int == Form(1, s) && o2 as int == Form(2, s)
            && o3 as int == Form(3, s) && 8192 * o4 as int == Form(4, s) && o5 as int == Form(5, s)
            && o6 as int == Form(6, s) && o7 as int == Form(7, s)
  {
    ghost var s := Ints([s0, s1, s2, s3, s4, s5, s6, s7]);
    assert lo <= s[0] <= hi && lo <= s[1] <= hi && lo <= s[2] <= hi && lo <= s[3] <= hi;
    assert lo <= s[4] <= hi && lo <= s[5] <= hi && lo <= s[6] <= hi && lo <= s[7] <= hi;
    o0, o2, o4, o6 := SumHalf(s0 + s7, s1 + s6, s2 + s5, s3 + s4);
    o1, o3, o5, o7 := DifferenceHalf(s3 - s4, s2 - s5, s1 - s6, s0 - s7);
  }

  function Ints(p: seq<int32>): (s: seq<int>)
    ensures |s| == |p| && forall i :: 0 <= i < |p| ==> s[i] == p[i] as int
  {
    seq(|p|, i requires 0 <= i < |p| => p[i] as int)
  }

  /** DCT_DESCALE */
  function Descale(x: int32, n: nat): (r: int32)
    requires n in {5, 11, 18} && x as int + 0x2_0000 < 0x8000_0000
    ensures n == 5 ==> r as int == ColumnScale(8192 * x as int)
    ensures n == 11 ==> r as int == RowScale(x as int)
    ensures n == 18 ==> r as int == ColumnScale(x as int)
  {
    if n == 5 then (x + 16) / 32 else if n == 11 then (x + 1024) / 2048 else (x + 0x2_0000) / 0x4_0000
  }

  lemma FormFits(k: nat, s: seq<int>, lo: int, hi: int)
    requires k < 8 && Moderate(s, lo, hi)
    ensures -0x1000_0000 <= Form(k, s) <= 0x1000_0000
  {
    hide Form;
    FormBound(k, s, lo, hi, 8160);
  }

  lemma FormsFit(s: seq<int>, lo: int, hi: int)
    requires Moderate(s, lo, hi)
    ensures forall k :: 0 <= k < 8 ==> -0x1000_0000 <= Form(k, s) <= 0x1000_0000
  {
    forall k | 0 <= k < 8 ensures -0x1000_0000 <= Form(k, s) <= 0x1000_0000 {
      FormFits(k, s, lo, hi);
    }
  }

  /** A row in place. */
  method DctRow(p: array<int32>, r: nat)
    requires p.Length == 64 && r < 8 && Within(Row(Ints(p[..]), r), -128, 127)
    modifies p
    ensures forall i :: 0 <= i < 64 ==>
              p[i] as int == if i / 8 == r then RowAt(old(Ints(p[..])), i) else old(Ints(p[..]))[i]
  {
    hide Form, Within, Descale;
    var q := 8 * r;
    ghost var all, s := Ints(p[..]), Row(Ints(p[..]), r);
    assert s == Ints([p[q], p[q + 1], p[q + 2], p[q + 3], p[q + 4], p[q + 5], p[q + 6], p[q + 7]]);
    var s0, s1, s2, s3, s4, s5, s6, s7 :=
      Dct1D(p[q], p[q + 1], p[q + 2], p[q + 3], p[q + 4], p[q + 5], p[q + 6], p[q + 7], -128, 127);
    FormsFit(s, -128, 127);
    p[q], p[q + 1], p[q + 2], p[q + 3] := s0 * 4, Descale(s1, 11), Descale(s2, 11), Descale(s3, 11);
    p[q + 4], p[q + 5], p[q + 6], p[q + 7] := s4 * 4, Descale(s5, 11), Descale(s6, 11), Descale(s7, 11);
  }

  /** A column in place. */
  method DctColumn(p: array<int32>, c: nat, ghost lo: int, ghost hi: int)
    requires p.Length == 64 && c < 8 && Moderate(Column(Ints(p[..]), c), lo, hi)
    modifies p
    ensures forall i :: 0 <= i < 64 ==>
              p[i] as int == if i % 8 == c then ColumnAt(old(Ints(p[..])), i) else old(Ints(p[..]))[i]
  {
    hide Form, Moderate, Descale, ColumnScale;
    ghost var s := Column(Ints(p[..]), c);
    assert s == Ints([p[c], p[c + 8], p[c + 16], p[c + 24], p[c + 32], p[c + 40], p[c + 48], p[c + 56]]);
    var s0, s1, s2, s3, s4, s5, s6, s7 :=
      Dct1D(p[c], p[c + 8], p[c + 16], p[c + 24], p[c + 32], p[c + 40], p[c + 48], p[c + 56], lo, hi);
    FormsFit(s, lo, hi);
    p[c], p[c + 8], p[c + 16], p[c + 24] := Descale(s0, 5), Descale(s1, 18), Descale(s2, 18), Descale(s3, 18);
    p[c + 32], p[c + 40], p[c + 48], p[c + 56] := Descale(s4, 5), Descale(s5, 18), Descale(s6, 18), Descale(s7, 18);
  }

  /** DCT2D: of samples of eight bits, the coefficients, with no overflow on the way. */
  method Dct2D(p: array<int32>)
    requires p.Length == 64 && Samples(Ints(p[..]))
    modifies p
    ensures Ints(p[..]) == Dct(old(Ints(p[..])))
  {
    hide RowAt, ColumnAt, Row, Column;
    ghost var s, q := Ints(p[..]), RowPass(Ints(p[..]));
    var r: nat := 0;
    while r < 8
      invariant r <= 8
      invariant forall i :: 0 <= i < 64 ==> p[i] as int == if i / 8 < r then q[i] else s[i]
    {
      SameRow(Ints(p[..]), s, r);
      ghost var was := Ints(p[..]);
      DctRow(p, r);
      r := r + 1;
    }
    assert Ints(p[..]) == q;
    var c: nat := 0;
    while c < 8
      invariant c <= 8
      invariant forall i :: 0 <= i < 64 ==> p[i] as int == if i % 8 < c then Dct(s)[i] else q[i]
    {
      SameColumn(Ints(p[..]), q, c);
      ColumnWithin(s, c);
      DctColumn(p, c, if c == 0 then -4096 else -4080, if c == 0 then 4064 else 4080);
      c := c + 1;
    }
    assert Ints(p[..]) == Dct(s);
  }

  /** A row that is as it was has the coefficients it had. */
  lemma SameRow(p: seq<int>, s: seq<int>, r: nat)
    requires |p| == |s| == 64 && r < 8 && forall i :: 0 <= i < 64 && i / 8 == r ==> p[i] == s[i]
    ensures Row(p, r) == Row(s, r)
    ensures forall i :: 0 <= i < 64 && i / 8 == r ==> RowAt(p, i) == RowAt(s, i)
    ensures Samples(s) ==> Within(Row(p, r), -128, 127)
  {
    hide Form;
    forall j | 0 <= j < 8 ensures Row(p, r)[j] == Row(s, r)[j] {
      assert (8 * r + j) / 8 == r;
    }
  }

  lemma SameColumn(p: seq<int>, s: seq<int>, c: nat)
    requires |p| == |s| == 64 && c < 8 && forall i :: 0 <= i < 64 && i % 8 == c ==> p[i] == s[i]
    ensures Column(p, c) == Column(s, c)
    ensures forall i :: 0 <= i < 64 && i % 8 == c ==> ColumnAt(p, i) == ColumnAt(s, i)
  {
    hide Form;
    forall j | 0 <= j < 8 ensures Column(p, c)[j] == Column(s, c)[j] {
      assert (c + 8 * j) % 8 == c;
    }
  }
}
