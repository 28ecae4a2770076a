/** The matrix of the forward DCT against the cosines: a table with the laws that make it one of cosines, the rows
    within one unit of it, and the transform as the double sum of section A.3.3 of ITU-T T.81. */
module JpegCosine {
  import opened Arith
  import opened JpegDct

  // ---------------------------------------------------------------- cosines

  /** 8192 * sqrt 2 * cos (k * pi / 16), rounded, up to a quarter of a turn */
  function Quarter(k: nat): int {
    if k == 0 then 11585 else if k == 1 then 11363 else if k == 2 then 10703 else if k == 3 then 9633
    else if k == 4 then 8192 else if k == 5 then 6436 else if k == 6 then 4433 else if k == 7 then 2260 else 0
  }

  /** Half a turn */
  function Half(k: nat): int
    requires k <= 16
  {
    if k <= 8 then Quarter(k) else -Quarter(16 - k)
  }

  /** All the way round, and on */
  function Cosine(j: int): int {
    var m := j % 32;
    Half(if m > 16 then 32 - m else m)
  }

  lemma HalfTurned(k: nat)
    requires k <= 16
    ensures Half(16 - k) == -Half(k)
  {
    assert Quarter(8) == 0;
    hide Quarter;
  }

  lemma Turns(j: int, q: int, m: nat)
    requires j == 32 * q + m && m < 32
    ensures j % 32 == m && (-j) % 32 == (if m == 0 then 0 else 32 - m)
    ensures (j + 16) % 32 == if m < 16 then m + 16 else m - 16
  {
    assert m > 0 ==> -j == 32 * (-q - 1) + (32 - m);
    assert m >= 16 ==> j + 16 == 32 * (q + 1) + (m - 16);
  }

  /** It is even, and changes its sign after half a turn. */
  lemma CosineTurns(j: int)
    ensures Cosine(-j) == Cosine(j) && Cosine(j + 16) == -Cosine(j)
  {
    hide Half;
    var m := j % 32;
    Turns(j, j / 32, m);
    HalfTurned(if m > 16 then 32 - m else m);
  }

  lemma QuarterFalls(k: nat)
    requires k < 8
    ensures Quarter(k + 1) < Quarter(k)
  {
  }

  /** It falls through half a turn, so that a turn is its shortest period. */
  lemma CosineFalls(j: nat)
    requires j < 16
    ensures Cosine(j + 1) < Cosine(j)
  {
    hide Quarter, Cosine;
    CosineIsHalf(j);
    CosineIsHalf(j + 1);
    HalfTurned(8);
    QuarterFalls(if j < 8 then j else 15 - j);
  }

  function Twice(x: int, y: int): int {
    2 * x * y
  }

  /** A product against a sum, to the rounding of the table */
  predicate Near(twice: int, x: int, y: int) {
    -29058 <= twice - 11585 * (x + y) <= 29058
  }

  /** The product law: twice the product of two cosines is the sum of those of the sum and the difference. */
  predicate Product(a: int, b: int) {
    Near(Twice(Cosine(a), Cosine(b)), Cosine(a + b), Cosine(a - b))
  }

  lemma FirstProducts(a: nat, b: nat)
    requires a <= 8 && b <= 8
    ensures Near(Twice(Quarter(a), Quarter(b)), Half(a + b), Half(if a < b then b - a else a - b))
  {
    if a == 0 {
    } else if a == 1 {
    } else if a == 2 {
    } else if a == 3 {
    } else if a == 4 {
    } else if a == 5 {
    } else if a == 6 {
    } else if a == 7 {
    } else {
    }
  }

  lemma QuarterProduct(a: nat, b: nat)
    requires a <= 8 && b <= 8
    ensures Product(a, b)
  {
    hide Quarter, Half, Cosine, Twice, Near;
    FirstProducts(a, b);
    if a < b {
      CosineTurns(a - b);
    }
    CosineIsHalf(a);
    CosineIsHalf(b);
    CosineIsHalf(a + b);
    CosineIsHalf(if a < b then b - a else a - b);
  }

  lemma CosineIsHalf(j: nat)
    requires j <= 16
    ensures Cosine(j) == Half(j) && (j <= 8 ==> Half(j) == Quarter(j))
  {
  }

  lemma ProductTurns(a: int, b: int)
    ensures Product(a, b) <==> Product(b, a)
    ensures Product(-a, b) <==> Product(a, b)
    ensures Product(a + 16, b) <==> Product(a, b)
  {
    hide Cosine, Twice;
    CosineTurns(a);
    CosineTurns(a + b);
    CosineTurns(a - b);
    assert -a + b == -(a - b) && -a - b == -(a + b) && b - a == -(a - b);
    assert a + 16 + b == (a + b) + 16 && a + 16 - b == (a - b) + 16;
    TwiceTurned(Cosine(a), Cosine(b));
  }

  lemma TwiceTurned(x: int, y: int)
    ensures Twice(-x, y) == -Twice(x, y) && Twice(x, y) == Twice(y, x)
  {
  }

  /** An angle brought into the first quarter */
  lemma {:induction false} ProductReduced(a: int, b: int)
    requires 0 <= b <= 8
    ensures Product(a, b)
    decreases if a < 0 then 1 - a else a
  {
    hide Product;
    if a < 0 {
      ProductTurns(a, b);
      ProductReduced(-a, b);
    } else if a > 16 {
      ProductTurns(a - 16, b);
      ProductReduced(a - 16, b);
    } else if a > 8 {
      ProductTurns(a - 16, b);
      ProductTurns(16 - a, b);
      QuarterProduct(16 - a, b);
    } else {
      QuarterProduct(a, b);
    }
  }

  /** The product law for all angles. */
  lemma {:induction false} CosineProduct(a: int, b: int)
    ensures Product(a, b)
    decreases if b < 0 then 1 - b else b
  {
    hide Product;
    ProductTurns(a, b);
    if b < 0 {
      ProductTurns(b, a);
      ProductTurns(a, -b);
      CosineProduct(a, -b);
    } else if b > 16 {
      ProductTurns(b - 16, a);
      ProductTurns(a, b - 16);
      CosineProduct(a, b - 16);
    } else if b > 8 {
      ProductTurns(b - 16, a);
      ProductTurns(16 - b, a);
      ProductTurns(a, 16 - b);
      ProductReduced(a, 16 - b);
    } else {
      ProductReduced(a, b);
    }
  }

  // ---------------------------------------------------------------- the rows of the matrix

  /** A single sample of one */
  function Unit(j: nat): (s: seq<int>)
    ensures |s| == 8
  {
    seq(8, i => if i == j then 1 else 0)
  }

  /** An entry of the matrix */
  function Entry(k: nat, j: nat): int
    requires k < 8
  {
    Form(k, Unit(j))
  }

  /** Row k is the cosine of frequency k at the eight places, to one unit; the first is constant. */

  lemma Constant(j: nat) requires j < 8 ensures Entry(0, j) == Cosine(4) {}
  lemma Frequency1(j: nat) requires j < 8 ensures -1 <= Entry(1, j) - Cosine((2 * j + 1)) <= 1 {}
  lemma Frequency2(j: nat) requires j < 8 ensures -1 <= Entry(2, j) - Cosine(2 * (2 * j + 1)) <= 1 {}
  lemma Frequency3(j: nat) requires j < 8 ensures -1 <= Entry(3, j) - Cosine(3 * (2 * j + 1)) <= 1 {}
  lemma Frequency4(j: nat) requires j < 8 ensures -1 <= Entry(4, j) - Cosine(4 * (2 * j + 1)) <= 1 { if j < 4 {} }
  lemma Frequency5(j: nat) requires j < 8 ensures -1 <= Entry(5, j) - Cosine(5 * (2 * j + 1)) <= 1 { if j < 4 {} }
  lemma Frequency6(j: nat) requires j < 8 ensures -1 <= Entry(6, j) - Cosine(6 * (2 * j + 1)) <= 1 { if j < 4 {} }
  lemma Frequency7(j: nat) requires j < 8 ensures -1 <= Entry(7, j) - Cosine(7 * (2 * j + 1)) <= 1 { if j < 2 {} else if j < 4 {} else if j < 6 {} }

  /** Row k is the cosine of frequency k at the eight places, to one unit; the first is constant. */
  lemma EntryIsCosine(k: nat, j: nat)
    requires k < 8 && j < 8
    ensures if k == 0 then Entry(k, j) == Cosine(4) else -1 <= Entry(k, j) - Cosine(k * (2 * j + 1)) <= 1
  {
    hide Entry, Cosine;
    Constant(j);
    Frequency1(j);
    Frequency2(j);
    Frequency3(j);
    Frequency4(j);
    Frequency5(j);
    Frequency6(j);
    Frequency7(j);
  }

  /** A sum with the entries of a row for its weights */
  function RowSum(k: nat, s: seq<int>, n: nat): int
    requires k < 8 && |s| == 8 && n <= 8
  {
    if n == 0 then 0 else RowSum(k, s, n - 1) + s[n - 1] * Entry(k, n - 1)
  }

  lemma FormIsSum(k: nat, s: seq<int>)
    requires k < 8 && |s| == 8
    ensures Form(k, s) == RowSum(k, s, 8)
  {
    PartialForm(k, s, 8);
    assert Front(s, 8) == s;
  }

  /** The first n of eight values, and zeros */
  function Front(s: seq<int>, n: nat): (t: seq<int>)
    requires |s| == 8 && n <= 8
    ensures |t| == 8
  {
    seq(8, i requires 0 <= i < 8 => if i < n then s[i] else 0)
  }

  lemma {:induction false} PartialForm(k: nat, s: seq<int>, n: nat)
    requires k < 8 && |s| == 8 && n <= 8
    ensures Form(k, Front(s, n)) == RowSum(k, s, n)
  {
    if n > 0 {
      PartialForm(k, s, n - 1);
      AddOne(k, Front(s, n - 1), Front(s, n), n - 1, s[n - 1]);
    }
  }

  /** One value more of a form */
  lemma AddOne(k: nat, a: seq<int>, b: seq<int>, j: nat, x: int)
    requires k < 8 && |a| == |b| == 8 && j < 8
    requires forall i :: 0 <= i < 8 ==> b[i] == a[i] + if i == j then x else 0
    ensures Form(k, b) == Form(k, a) + x * Entry(k, j)
  {
    var t := seq(8, i => if i == j then x else 0);
    FormAdd(k, a, t, b);
    FormTimes(k, Unit(j), x, t);
  }

  lemma FormAdd(k: nat, a: seq<int>, t: seq<int>, b: seq<int>)
    requires k < 8 && |a| == |t| == |b| == 8 && forall i :: 0 <= i < 8 ==> b[i] == a[i] + t[i]
    ensures Form(k, b) == Form(k, a) + Form(k, t)
  {
  }

  lemma FormTimes(k: nat, s: seq<int>, x: int, t: seq<int>)
    requires k < 8 && |s| == |t| == 8 && forall i :: 0 <= i < 8 ==> t[i] == x * s[i]
    ensures Form(k, t) == x * Form(k, s)
  {
  }

  // ---------------------------------------------------------------- the transform of a block

  /** The weight of sample i in the coefficient of horizontal frequency u and vertical frequency v */
  function Weight(u: nat, v: nat, i: nat): int
    requires u < 8 && v < 8
  {
    Entry(u, i % 8) * Entry(v, i / 8)
  }

  /** The double sum over the first n samples of a block, row by row */
  function BlockSum(p: seq<int>, u: nat, v: nat, n: nat): int
    requires |p| == 64 && u < 8 && v < 8 && n <= 64
  {
    if n == 0 then 0 else BlockSum(p, u, v, n - 1) + p[n - 1] * Weight(u, v, n - 1)
  }

  /** Part of a row more */
  lemma {:induction false} PartOfRow(p: seq<int>, u: nat, v: nat, r: nat, x: nat)
    requires |p| == 64 && u < 8 && v < 8 && r < 8 && x <= 8
    ensures BlockSum(p, u, v, 8 * r + x) == BlockSum(p, u, v, 8 * r) + RowSum(u, Row(p, r), x) * Entry(v, r)
  {
    hide Entry, Row;
    if x > 0 {
      PartOfRow(p, u, v, r, x - 1);
      var i := 8 * r + x - 1;
      assert i / 8 == r && i % 8 == x - 1;
      RowAtPlace(p, r, x - 1);
      Distribute(RowSum(u, Row(p, r), x - 1), p[i], Entry(u, x - 1), Entry(v, r));
    }
  }

  lemma RowAtPlace(p: seq<int>, r: nat, x: nat)
    requires |p| == 64 && r < 8 && x < 8
    ensures Row(p, r)[x] == p[8 * r + x]
  {
  }

  lemma Distribute(a: int, b: int, c: int, d: int)
    ensures (a + b * c) * d == a * d + b * (c * d)
  {
  }

  lemma {:induction false} RowsSum(p: seq<int>, u: nat, v: nat, f: seq<int>, n: nat)
    requires |p| == 64 && u < 8 && v < 8 && n <= 8
    requires |f| == 8 && forall r :: 0 <= r < 8 ==> f[r] == Form(u, Row(p, r))
    ensures BlockSum(p, u, v, 8 * n) == RowSum(v, f, n)
  {
    hide Form, Row, Entry;
    if n > 0 {
      RowsSum(p, u, v, f, n - 1);
      PartOfRow(p, u, v, n - 1, 8);
      FormIsSum(u, Row(p, n - 1));
    }
  }

  /** Coefficient 8 * v + u is the double sum over the samples, with the cosine of frequency u along the rows and that
      of v along the columns, to five eighths of one. */
  lemma DctIsDoubleSum(p: seq<int>, u: nat, v: nat)
    requires |p| == 64 && u < 8 && v < 8
    ensures -0x1400_0000 <= 0x2000_0000 * Dct(p)[8 * v + u] - BlockSum(p, u, v, 64) <= 0x1400_0000
  {
    hide Form, Row, Dct, BlockSum, RowSum;
    var i := 8 * v + u;
    assert i / 8 == v && i % 8 == u;
    var f := seq(8, r requires 0 <= r < 8 => Form(u, Row(p, r)));
    DctNear(p, i);
    FormIsSum(v, f);
    RowsSum(p, u, v, f, 8);
  }
}
