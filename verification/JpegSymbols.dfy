/** The symbols of the standard AC tables of the encoder (Annex K of ITU-T T.81): distinct, and all of them. */
module JpegSymbols {
  const AC_CODES := 162

  /** The symbols of an AC table in rows of sixteen, and where each run and size is found there. */
  datatype Listing = Listing(rows: seq<seq<nat>>, places: seq<seq<nat>>) {
    predicate Shape() {
      && |rows| == 11 && (forall k :: 0 <= k < 10 ==> |rows[k]| == 16) && |rows[10]| == 2
      && |places| == 16
    }

    /** The symbol is listed to be at p. */
    predicate FoundAt(sym: nat, p: nat) {
      sym / 16 < |places| && sym % 16 < |places[sym / 16]| && places[sym / 16][sym % 16] == p
    }

    predicate Placed(k: nat, j: nat) {
      k < |rows| && (j < |rows[k]| ==> FoundAt(rows[k][j], 16 * k + j))
    }

    /** The symbols of row k are listed where they are. */
    predicate RowPlaced(k: nat) {
      && Placed(k, 0) && Placed(k, 1) && Placed(k, 2) && Placed(k, 3)
      && Placed(k, 4) && Placed(k, 5) && Placed(k, 6) && Placed(k, 7)
      && Placed(k, 8) && Placed(k, 9) && Placed(k, 10) && Placed(k, 11)
      && Placed(k, 12) && Placed(k, 13) && Placed(k, 14) && Placed(k, 15)
    }

    /** Of those without a size, only the two are listed. */
    predicate Ends() {
      forall run :: 0 <= run < |places| ==> |places[run]| == 11 && (run == 0 || run == 15 || places[run][0] == AC_CODES)
    }

    function Val(): (v: seq<nat>)
      ensures |v| == AC_CODES
    {
      seq(AC_CODES, i requires 0 <= i < AC_CODES => if i / 16 < |rows| && i % 16 < |rows[i / 16]| then rows[i / 16][i % 16] else 256)
    }

    predicate Good() {
      Shape() && Ends() && forall k :: 0 <= k < 11 ==> RowPlaced(k)
    }
  }

  /** A run and a size of 1 to 10, or the end of a block, or a run of sixteen zeros. */
  predicate IsSymbol(sym: nat) {
    sym < 256 && (1 <= sym % 16 <= 10 || sym == 0 || sym == 0xF0)
  }

  const AC_LUM_ROWS: seq<seq<nat>> := [
    [0x01, 0x02, 0x03, 0x00, 0x04, 0x11, 0x05, 0x12, 0x21, 0x31, 0x41, 0x06, 0x13, 0x51, 0x61, 0x07],
    [0x22, 0x71, 0x14, 0x32, 0x81, 0x91, 0xa1, 0x08, 0x23, 0x42, 0xb1, 0xc1, 0x15, 0x52, 0xd1, 0xf0],
    [0x24, 0x33, 0x62, 0x72, 0x82, 0x09, 0x0a, 0x16, 0x17, 0x18, 0x19, 0x1a, 0x25, 0x26, 0x27, 0x28],
    [0x29, 0x2a, 0x34, 0x35, 0x36, 0x37, 0x38, 0x39, 0x3a, 0x43, 0x44, 0x45, 0x46, 0x47, 0x48, 0x49],
    [0x4a, 0x53, 0x54, 0x55, 0x56, 0x57, 0x58, 0x59, 0x5a, 0x63, 0x64, 0x65, 0x66, 0x67, 0x68, 0x69],
    [0x6a, 0x73, 0x74, 0x75, 0x76, 0x77, 0x78, 0x79, 0x7a, 0x83, 0x84, 0x85, 0x86, 0x87, 0x88, 0x89],
    [0x8a, 0x92, 0x93, 0x94, 0x95, 0x96, 0x97, 0x98, 0x99, 0x9a, 0xa2, 0xa3, 0xa4, 0xa5, 0xa6, 0xa7],
    [0xa8, 0xa9, 0xaa, 0xb2, 0xb3, 0xb4, 0xb5, 0xb6, 0xb7, 0xb8, 0xb9, 0xba, 0xc2, 0xc3, 0xc4, 0xc5],
    [0xc6, 0xc7, 0xc8, 0xc9, 0xca, 0xd2, 0xd3, 0xd4, 0xd5, 0xd6, 0xd7, 0xd8, 0xd9, 0xda, 0xe1, 0xe2],
    [0xe3, 0xe4, 0xe5, 0xe6, 0xe7, 0xe8, 0xe9, 0xea, 0xf1, 0xf2, 0xf3, 0xf4, 0xf5, 0xf6, 0xf7, 0xf8],
    [0xf9, 0xfa]
  ]

  const AC_LUM_PLACES: seq<seq<nat>> := [
    [3, 0, 1, 2, 4, 6, 11, 15, 23, 37, 38],
    [162, 5, 7, 12, 18, 28, 39, 40, 41, 42, 43],
    [162, 8, 16, 24, 32, 44, 45, 46, 47, 48, 49],
    [162, 9, 19, 33, 50, 51, 52, 53, 54, 55, 56],
    [162, 10, 25, 57, 58, 59, 60, 61, 62, 63, 64],
    [162, 13, 29, 65, 66, 67, 68, 69, 70, 71, 72],
    [162, 14, 34, 73, 74, 75, 76, 77, 78, 79, 80],
    [162, 17, 35, 81, 82, 83, 84, 85, 86, 87, 88],
    [162, 20, 36, 89, 90, 91, 92, 93, 94, 95, 96],
    [162, 21, 97, 98, 99, 100, 101, 102, 103, 104, 105],
    [162, 22, 106, 107, 108, 109, 110, 111, 112, 113, 114],
    [162, 26, 115, 116, 117, 118, 119, 120, 121, 122, 123],
    [162, 27, 124, 125, 126, 127, 128, 129, 130, 131, 132],
    [162, 30, 133, 134, 135, 136, 137, 138, 139, 140, 141],
    [162, 142, 143, 144, 145, 146, 147, 148, 149, 150, 151],
    [31, 152, 153, 154, 155, 156, 157, 158, 159, 160, 161]
  ]

  const AC_LUM := Listing(AC_LUM_ROWS, AC_LUM_PLACES)

  const AC_CHROMA_ROWS: seq<seq<nat>> := [
    [0x00, 0x01, 0x02, 0x03, 0x11, 0x04, 0x05, 0x21, 0x31, 0x06, 0x12, 0x41, 0x51, 0x07, 0x61, 0x71],
    [0x13, 0x22, 0x32, 0x81, 0x08, 0x14, 0x42, 0x91, 0xa1, 0xb1, 0xc1, 0x09, 0x23, 0x33, 0x52, 0xf0],
    [0x15, 0x62, 0x72, 0xd1, 0x0a, 0x16, 0x24, 0x34, 0xe1, 0x25, 0xf1, 0x17, 0x18, 0x19, 0x1a, 0x26],
    [0x27, 0x28, 0x29, 0x2a, 0x35, 0x36, 0x37, 0x38, 0x39, 0x3a, 0x43, 0x44, 0x45, 0x46, 0x47, 0x48],
    [0x49, 0x4a, 0x53, 0x54, 0x55, 0x56, 0x57, 0x58, 0x59, 0x5a, 0x63, 0x64, 0x65, 0x66, 0x67, 0x68],
    [0x69, 0x6a, 0x73, 0x74, 0x75, 0x76, 0x77, 0x78, 0x79, 0x7a, 0x82, 0x83, 0x84, 0x85, 0x86, 0x87],
    [0x88, 0x89, 0x8a, 0x92, 0x93, 0x94, 0x95, 0x96, 0x97, 0x98, 0x99, 0x9a, 0xa2, 0xa3, 0xa4, 0xa5],
    [0xa6, 0xa7, 0xa8, 0xa9, 0xaa, 0xb2, 0xb3, 0xb4, 0xb5, 0xb6, 0xb7, 0xb8, 0xb9, 0xba, 0xc2, 0xc3],
    [0xc4, 0xc5, 0xc6, 0xc7, 0xc8, 0xc9, 0xca, 0xd2, 0xd3, 0xd4, 0xd5, 0xd6, 0xd7, 0xd8, 0xd9, 0xda],
    [0xe2, 0xe3, 0xe4, 0xe5, 0xe6, 0xe7, 0xe8, 0xe9, 0xea, 0xf2, 0xf3, 0xf4, 0xf5, 0xf6, 0xf7, 0xf8],
    [0xf9, 0xfa]
  ]

  const AC_CHROMA_PLACES: seq<seq<nat>> := [
    [0, 1, 2, 3, 5, 6, 9, 13, 20, 27, 36],
    [162, 4, 10, 16, 21, 32, 37, 43, 44, 45, 46],
    [162, 7, 17, 28, 38, 41, 47, 48, 49, 50, 51],
    [162, 8, 18, 29, 39, 52, 53, 54, 55, 56, 57],
    [162, 11, 22, 58, 59, 60, 61, 62, 63, 64, 65],
    [162, 12, 30, 66, 67, 68, 69, 70, 71, 72, 73],
    [162, 14, 33, 74, 75, 76, 77, 78, 79, 80, 81],
    [162, 15, 34, 82, 83, 84, 85, 86, 87, 88, 89],
    [162, 19, 90, 91, 92, 93, 94, 95, 96, 97, 98],
    [162, 23, 99, 100, 101, 102, 103, 104, 105, 106, 107],
    [162, 24, 108, 109, 110, 111, 112, 113, 114, 115, 116],
    [162, 25, 117, 118, 119, 120, 121, 122, 123, 124, 125],
    [162, 26, 126, 127, 128, 129, 130, 131, 132, 133, 134],
    [162, 35, 135, 136, 137, 138, 139, 140, 141, 142, 143],
    [162, 40, 144, 145, 146, 147, 148, 149, 150, 151, 152],
    [31, 42, 153, 154, 155, 156, 157, 158, 159, 160, 161]
  ]

  const AC_CHROMA := Listing(AC_CHROMA_ROWS, AC_CHROMA_PLACES)

  // ---------------------------------------------------------------- the symbols of an AC table

  lemma Shapes()
    ensures AC_LUM.Shape() && AC_LUM.Ends() && AC_CHROMA.Shape() && AC_CHROMA.Ends()
  {
  }

  /** Row k of both tables. */
  lemma Row0() ensures AC_LUM.RowPlaced(0) && AC_CHROMA.RowPlaced(0) {}
  lemma Row1() ensures AC_LUM.RowPlaced(1) && AC_CHROMA.RowPlaced(1) {}
  lemma Row2() ensures AC_LUM.RowPlaced(2) && AC_CHROMA.RowPlaced(2) {}
  lemma Row3() ensures AC_LUM.RowPlaced(3) && AC_CHROMA.RowPlaced(3) {}
  lemma Row4() ensures AC_LUM.RowPlaced(4) && AC_CHROMA.RowPlaced(4) {}
  lemma Row5() ensures AC_LUM.RowPlaced(5) && AC_CHROMA.RowPlaced(5) {}
  lemma Row6() ensures AC_LUM.RowPlaced(6) && AC_CHROMA.RowPlaced(6) {}
  lemma Row7() ensures AC_LUM.RowPlaced(7) && AC_CHROMA.RowPlaced(7) {}
  lemma Row8() ensures AC_LUM.RowPlaced(8) && AC_CHROMA.RowPlaced(8) {}
  lemma Row9() ensures AC_LUM.RowPlaced(9) && AC_CHROMA.RowPlaced(9) {}
  lemma Row10() ensures AC_LUM.RowPlaced(10) && AC_CHROMA.RowPlaced(10) {}

  lemma ListingsGood()
    ensures AC_LUM.Good() && AC_CHROMA.Good()
  {
    Shapes();
    hide Listing.RowPlaced, Listing.Shape, Listing.Ends;
    Row0();
    Row1();
    Row2();
    Row3();
    Row4();
    Row5();
    Row6();
    Row7();
    Row8();
    Row9();
    Row10();
  }

  // ---------------------------------------------------------------- how many there are

  /** The symbols of the first runs, and the two without a size. */
  ghost function Symbols(runs: nat): set<nat> {
    if runs == 0 then {0, 0xF0} else Symbols(runs - 1) + OfRun(runs - 1, 10)
  }

  /** The symbols of a run with sizes up to the given one. */
  ghost function OfRun(run: nat, sizes: nat): set<nat> {
    if sizes == 0 then {} else OfRun(run, sizes - 1) + {16 * run + sizes}
  }

  lemma {:induction false} SymbolCount(runs: nat)
    requires runs <= 16
    ensures |Symbols(runs)| == 2 + 10 * runs
    ensures forall sym: nat :: sym in Symbols(runs) <==> IsSymbol(sym) && (sym / 16 < runs || sym == 0 || sym == 0xF0)
  {
    hide OfRun;
    if runs > 0 {
      SymbolCount(runs - 1);
      RunCount(runs - 1, 10);
      assert Symbols(runs - 1) !! OfRun(runs - 1, 10);
      hide Symbols;
    }
  }

  lemma AllSymbols()
    ensures |Symbols(16)| == AC_CODES && forall sym: nat :: sym in Symbols(16) <==> IsSymbol(sym)
  {
    SymbolCount(16);
    hide Symbols;
  }

  lemma {:induction false} RunCount(run: nat, sizes: nat)
    requires sizes <= 10
    ensures |OfRun(run, sizes)| == sizes
    ensures forall sym: nat :: sym in OfRun(run, sizes) <==> sym / 16 == run && 1 <= sym % 16 <= sizes
  {
    if sizes > 0 {
      RunCount(run, sizes - 1);
      assert (16 * run + sizes) / 16 == run && (16 * run + sizes) % 16 == sizes;
    }
  }

  ghost function Elements(v: seq<nat>): set<nat> {
    set x | x in v
  }

  lemma {:induction false} DistinctCount(v: seq<nat>)
    requires forall i, j :: 0 <= i < j < |v| ==> v[i] != v[j]
    ensures |Elements(v)| == |v|
  {
    if v != [] {
      var n := |v| - 1;
      DistinctCount(v[..n]);
      assert Elements(v) == Elements(v[..n]) + {v[n]};
      assert v[n] !in v[..n];
    } else {
      assert Elements(v) == {};
    }
  }

  lemma {:induction false} SubsetCount(a: set<nat>, b: set<nat>)
    requires a <= b
    ensures |a| <= |b|
  {
    if a != {} {
      var x :| x in a;
      SubsetCount(a - {x}, b - {x});
    }
  }

  /** Distinct values out of a set that has no more of them are all of it. */
  lemma Pigeonhole(v: seq<nat>, all: set<nat>, x: nat)
    requires (forall i, j :: 0 <= i < j < |v| ==> v[i] != v[j]) && (forall i :: 0 <= i < |v| ==> v[i] in all)
    requires |v| == |all| && x in all
    ensures x in v
  {
    DistinctCount(v);
    if x !in v {
      SubsetCount(Elements(v), all - {x});
    }
  }

  lemma InRow(t: Listing, k: nat, j: nat)
    requires t.RowPlaced(k) && j < 16
    ensures t.Placed(k, j)
  {
    hide Listing.Placed;
  }

  lemma ValPlaced(t: Listing, i: nat)
    requires t.Good() && i < AC_CODES
    ensures IsSymbol(t.Val()[i]) && t.FoundAt(t.Val()[i], i)
  {
    hide Listing.RowPlaced;
    var k, j := i / 16, i % 16;
    InRow(t, k, j);
    assert t.Val()[i] == t.rows[k][j];
    assert |t.places[t.rows[k][j] / 16]| == 11;
  }

  lemma FoundApart(t: Listing, a: nat, b: nat, i: nat, j: nat)
    requires t.FoundAt(a, i) && t.FoundAt(b, j) && i != j
    ensures a != b
  {
  }

  lemma ListingDistinct(t: Listing)
    requires t.Good()
    ensures forall i, j :: 0 <= i < j < AC_CODES ==> t.Val()[i] != t.Val()[j]
  {
    hide Listing.Good, Listing.FoundAt, Listing.Val, IsSymbol;
    forall i, j | 0 <= i < j < AC_CODES ensures t.Val()[i] != t.Val()[j] {
      ValPlaced(t, i);
      ValPlaced(t, j);
      FoundApart(t, t.Val()[i], t.Val()[j], i, j);
    }
  }

  /** A listing is of distinct symbols, and has them all. */
  lemma ListingExact(t: Listing)
    requires t.Good()
    ensures forall i, j :: 0 <= i < j < AC_CODES ==> t.Val()[i] != t.Val()[j]
    ensures forall sym: nat :: sym in t.Val() <==> IsSymbol(sym)
  {
    hide IsSymbol, Listing.Good, Listing.FoundAt, Listing.Val, Symbols;
    ListingDistinct(t);
    AllSymbols();
    forall i | 0 <= i < AC_CODES ensures IsSymbol(t.Val()[i]) {
      ValPlaced(t, i);
    }
    forall sym: nat | IsSymbol(sym) ensures sym in t.Val() {
      Pigeonhole(t.Val(), Symbols(16), sym);
    }
  }
}
