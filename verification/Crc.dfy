/** The CRC of a message: bit by bit, by table, and as the remainder of a division of polynomials over GF(2).
    A word is the string of its bits, most significant first. */
module Crc {
  import opened BitStrings
  import opened Bytes

  // ---------------------------------------------------------------- words

  function Xor(a: bits, b: bits): (r: bits)
    requires |a| == |b|
    ensures |r| == |a|
  {
    if a == [] then [] else [a[0] != b[0]] + Xor(a[1..], b[1..])
  }

  function Zeros(n: nat): (r: bits)
    ensures |r| == n && forall i :: 0 <= i < n ==> !r[i]
  {
    if n == 0 then [] else [false] + Zeros(n - 1)
  }

  /** << */
  function Shl(r: bits, n: nat): (s: bits)
    requires n <= |r|
    ensures |s| == |r|
  {
    r[n..] + Zeros(n)
  }

  lemma {:induction false} XorAt(a: bits, b: bits, i: nat)
    requires |a| == |b| && i < |a|
    ensures Xor(a, b)[i] == (a[i] != b[i])
  {
    if i > 0 {
      XorAt(a[1..], b[1..], i - 1);
    }
  }

  lemma ShlAt(r: bits, n: nat, i: nat)
    requires n <= |r| && i < |r|
    ensures Shl(r, n)[i] == (i + n < |r| && r[i + n])
  {
  }

  function Reversed(a: bits): (r: bits)
    ensures |r| == |a| && forall i :: 0 <= i < |a| ==> r[i] == a[|a| - 1 - i]
  {
    if a == [] then [] else Reversed(a[1..]) + [a[0]]
  }

  /** The parameters of a standard. */
  datatype Standard = Standard(width: nat, polynomial: bits, initial: bits, finalXor: bits,
                               reflectData: bool, reflectRemainder: bool) {
    predicate Valid() {
      width >= 8 && |polynomial| == |initial| == |finalXor| == width
    }

    function Data(b: byte): (r: bits)
      ensures |r| == 8
    {
      if reflectData then Reversed(ToBits(b, 8)) else ToBits(b, 8)
    }

    function Result(remainder: bits): bits
      requires |remainder| == |finalXor|
    {
      Xor(if reflectRemainder then Reversed(remainder) else remainder, finalXor)
    }
  }

  // ---------------------------------------------------------------- bit by bit

  /** One bit of the division: the top bit leaves, and takes the polynomial with it if it is set. */
  function Step(p: bits, r: bits): (s: bits)
    requires |p| == |r| > 0
    ensures |s| == |r|
  {
    if r[0] then Xor(Shl(r, 1), p) else Shl(r, 1)
  }

  function Steps(p: bits, r: bits, k: nat): (s: bits)
    requires |p| == |r| > 0
    ensures |s| == |r|
  {
    if k == 0 then r else Step(p, Steps(p, r, k - 1))
  }

  /** Bits at the top of a word */
  function Top(d: bits, n: nat): (r: bits)
    requires |d| <= n
    ensures |r| == n
  {
    d + Zeros(n - |d|)
  }

  /** The remainder after the message, a byte at a time. */
  function Remainder(s: Standard, m: bytes): (r: bits)
    requires s.Valid()
    ensures |r| == s.width
  {
    if m == [] then s.initial
    else Steps(s.polynomial, Xor(Remainder(s, m[..|m| - 1]), Top(s.Data(m[|m| - 1]), s.width)), 8)
  }

  // ---------------------------------------------------------------- the steps are linear

  lemma TopAt(d: bits, n: nat, i: nat)
    requires |d| <= n && i < n
    ensures Top(d, n)[i] == (i < |d| && d[i])
  {
  }

  lemma StepAt(p: bits, x: bits, i: nat)
    requires |p| == |x| && i < |x|
    ensures Step(p, x)[i] == ((i + 1 < |x| && x[i + 1]) != (x[0] && p[i]))
  {
    hide Shl, Xor;
    ShlAt(x, 1, i);
    XorAt(Shl(x, 1), p, i);
  }

  lemma StepLinear(p: bits, a: bits, b: bits)
    requires |p| == |a| == |b| > 0
    ensures Step(p, Xor(a, b)) == Xor(Step(p, a), Step(p, b))
  {
    hide Step, Xor;
    var l, r := Step(p, Xor(a, b)), Xor(Step(p, a), Step(p, b));
    forall i | 0 <= i < |a| ensures l[i] == r[i] {
      StepAt(p, Xor(a, b), i);
      StepAt(p, a, i);
      StepAt(p, b, i);
      XorAt(Step(p, a), Step(p, b), i);
      XorAt(a, b, 0);
      if i + 1 < |a| {
        XorAt(a, b, i + 1);
      }
    }
  }

  lemma {:induction false} StepsLinear(p: bits, a: bits, b: bits, k: nat)
    requires |p| == |a| == |b| > 0
    ensures Steps(p, Xor(a, b), k) == Xor(Steps(p, a, k), Steps(p, b, k))
  {
    if k > 0 {
      StepsLinear(p, a, b, k - 1);
      StepLinear(p, Steps(p, a, k - 1), Steps(p, b, k - 1));
    }
  }

  /** Steps that meet only clear bits are a shift. */
  lemma {:induction false} ClearSteps(p: bits, r: bits, k: nat)
    requires |p| == |r| > 0 && k <= |r| && forall i :: 0 <= i < k ==> !r[i]
    ensures Steps(p, r, k) == Shl(r, k)
  {
    if k == 0 {
      AppendEmpty(r);
    } else {
      ClearSteps(p, r, k - 1);
      hide Shl;
      ShlAt(r, k - 1, 0);
      ShlAgain(r, k - 1);
    }
  }

  lemma ShlAgain(r: bits, k: nat)
    requires k < |r|
    ensures Shl(Shl(r, k), 1) == Shl(r, k + 1)
  {
  }

  /** What the table saves: eight steps of a word are those of its top byte alone, and a shift of the rest. */
  lemma TopByteSteps(p: bits, r: bits)
    requires |p| == |r| >= 8
    ensures Steps(p, r, 8) == Xor(Steps(p, Top(r[..8], |r|), 8), Shl(r, 8))
  {
    hide Xor, Top, Shl, Steps;
    var low := Zeros(8) + r[8..];
    TwoParts(r);
    StepsLinear(p, Top(r[..8], |r|), low, 8);
    ClearSteps(p, low, 8);
  }

  /** A word is its top byte and what is below it. */
  lemma TwoParts(r: bits)
    requires |r| >= 8
    ensures Xor(Top(r[..8], |r|), Zeros(8) + r[8..]) == r && Shl(Zeros(8) + r[8..], 8) == Shl(r, 8)
  {
    var low := Zeros(8) + r[8..];
    var x := Xor(Top(r[..8], |r|), low);
    hide Xor, Top;
    forall i | 0 <= i < |r| ensures x[i] == r[i] {
      XorAt(Top(r[..8], |r|), low, i);
      TopAt(r[..8], |r|, i);
    }
  }

  // ---------------------------------------------------------------- polynomial division

  /** One step of the long division: the highest power goes, with a multiple of the divisor if it is there. */
  function Divided(d: bits, p: bits): (r: bits)
    requires |d| > |p| > 0
    ensures |r| == |d| - 1
  {
    if d[0] then Xor(d[1..], Top(p, |d| - 1)) else d[1..]
  }

  /** The remainder of a dividend by x^n + p, n the length of p: long division, from the highest power. */
  function Mod(d: bits, p: bits): (r: bits)
    requires |d| >= |p| > 0
    ensures |r| == |p|
    decreases |d|
  {
    if |d| == |p| then d else Mod(Divided(d, p), p)
  }

  /** The register with the first bit of a message added at its top. */
  function Mixed(r: bits, m: bits): (s: bits)
    requires r != [] && m != []
    ensures |s| == |r|
  {
    Xor(r, Top(m[..1], |r|))
  }

  /** The register after the bits of a message, one at a time. */
  function Serial(p: bits, r: bits, m: bits): (s: bits)
    requires |p| == |r| > 0
    ensures |s| == |r|
    decreases |m|
  {
    if m == [] then r else Serial(p, Step(p, Mixed(r, m)), m[1..])
  }

  /** The message behind which n zeros stand, with the register added to its head. */
  function Dividend(r: bits, m: bits): (d: bits)
    ensures |d| == |m| + |r|
  {
    Xor(m + Zeros(|r|), r + Zeros(|m|))
  }

  lemma DividendAt(r: bits, m: bits, i: nat)
    requires i < |m| + |r|
    ensures Dividend(r, m)[i] == ((i < |m| && m[i]) != (i < |r| && r[i]))
  {
    hide Xor;
    XorAt(m + Zeros(|r|), r + Zeros(|m|), i);
  }

  lemma DividedAt(d: bits, p: bits, i: nat)
    requires |d| > |p| > 0 && i < |d| - 1
    ensures Divided(d, p)[i] == (d[i + 1] != (d[0] && i < |p| && p[i]))
  {
    hide Xor, Top;
    XorAt(d[1..], Top(p, |d| - 1), i);
    TopAt(p, |d| - 1, i);
  }

  lemma MixedAt(r: bits, m: bits, i: nat)
    requires r != [] && m != [] && i < |r|
    ensures Mixed(r, m)[i] == (r[i] != (i == 0 && m[0]))
  {
    hide Xor, Top;
    XorAt(r, Top(m[..1], |r|), i);
    TopAt(m[..1], |r|, i);
  }

  lemma DividendStepAt(p: bits, r: bits, m: bits, i: nat)
    requires |p| == |r| > 0 && m != [] && i < |m| + |r| - 1
    ensures Dividend(Step(p, Mixed(r, m)), m[1..])[i] == Divided(Dividend(r, m), p)[i]
  {
    hide Dividend, Step, Mixed, Divided;
    var d, x := Dividend(r, m), Mixed(r, m);
    DividendAt(r, m, 0);
    DividendAt(Step(p, x), m[1..], i);
    DividendAt(r, m, i + 1);
    DividedAt(d, p, i);
    MixedAt(r, m, 0);
    if i < |r| {
      StepAt(p, x, i);
      if i + 1 < |r| {
        MixedAt(r, m, i + 1);
      }
    }
  }

  /** One bit of the message is one step of the long division. */
  lemma DividendStep(p: bits, r: bits, m: bits)
    requires |p| == |r| > 0 && m != []
    ensures Dividend(Step(p, Mixed(r, m)), m[1..]) == Divided(Dividend(r, m), p)
  {
    hide Dividend, Step, Mixed, Divided;
    var e, f := Dividend(Step(p, Mixed(r, m)), m[1..]), Divided(Dividend(r, m), p);
    forall i | 0 <= i < |e| ensures e[i] == f[i] {
      DividendStepAt(p, r, m, i);
    }
  }

  lemma NoMessage(r: bits)
    ensures Dividend(r, []) == r
  {
    hide Dividend;
    forall i | 0 <= i < |r| ensures Dividend(r, [])[i] == r[i] {
      DividendAt(r, [], i);
    }
  }

  /** The register is the remainder of the message times x^n, with the register's first value added to the
      head of it. */
  lemma {:induction false} SerialIsMod(p: bits, r: bits, m: bits)
    requires |p| == |r| > 0
    ensures Serial(p, r, m) == Mod(Dividend(r, m), p)
    decreases |m|
  {
    if m == [] {
      NoMessage(r);
    } else {
      hide Step, Mixed, Dividend, Divided;
      DividendStep(p, r, m);
      SerialIsMod(p, Step(p, Mixed(r, m)), m[1..]);
    }
  }

  // ---------------------------------------------------------------- bytes at a time are bits at a time

  /** Steps of a word with bits at its top are steps that take those bits in one by one. */
  lemma {:induction false} BitsIn(p: bits, r: bits, d: bits)
    requires |p| == |r| > 0 && |d| <= |r|
    ensures Steps(p, Xor(r, Top(d, |r|)), |d|) == Serial(p, r, d)
    decreases |d|
  {
    if d == [] {
      NothingIn(r);
    } else {
      var n := |r|;
      var first, rest := Mixed(r, d), Top([false] + d[1..], n);
      FirstBit(r, d);
      hide Xor, Top, Step, Shl, Mixed;
      StepsLater(p, Xor(r, Top(d, n)), |d| - 1);
      StepLinear(p, first, rest);
      BitsIn(p, Step(p, first), d[1..]);
      ClearTop(p, d[1..], n);
    }
  }

  /** Bits at the top of a word: the first one, and the others behind it. */
  lemma FirstBit(r: bits, d: bits)
    requires 0 < |d| <= |r|
    ensures Xor(r, Top(d, |r|)) == Xor(Mixed(r, d), Top([false] + d[1..], |r|))
  {
    hide Xor, Top, Mixed;
    var a, b := Xor(r, Top(d, |r|)), Xor(Mixed(r, d), Top([false] + d[1..], |r|));
    forall i | 0 <= i < |r| ensures a[i] == b[i] {
      FirstBitAt(r, d, i);
    }
  }

  lemma FirstBitAt(r: bits, d: bits, i: nat)
    requires 0 < |d| <= |r| && i < |r|
    ensures Xor(r, Top(d, |r|))[i] == Xor(Mixed(r, d), Top([false] + d[1..], |r|))[i]
  {
    hide Xor, Top, Mixed;
    var n, rest := |r|, [false] + d[1..];
    XorAt(r, Top(d, n), i);
    TopAt(d, n, i);
    XorAt(Mixed(r, d), Top(rest, n), i);
    MixedAt(r, d, i);
    TopAt(rest, n, i);
    assert i < |d| ==> rest[i] == (i > 0 && d[i]);
  }

  lemma NothingIn(r: bits)
    ensures Xor(r, Top([], |r|)) == r
  {
    hide Xor;
    forall i | 0 <= i < |r| ensures Xor(r, Top([], |r|))[i] == r[i] {
      XorAt(r, Top([], |r|), i);
    }
  }

  lemma ClearTop(p: bits, d: bits, n: nat)
    requires |p| == n && |d| < n
    ensures Step(p, Top([false] + d, n)) == Top(d, n)
  {
    assert Shl(Top([false] + d, n), 1) == Top(d, n);
  }

  /** The first of the steps taken first. */
  lemma {:induction false} StepsLater(p: bits, r: bits, k: nat)
    requires |p| == |r| > 0
    ensures Steps(p, r, k + 1) == Steps(p, Step(p, r), k)
  {
    if k > 0 {
      StepsLater(p, r, k - 1);
    }
  }

  function MessageBits(s: Standard, m: bytes): (b: bits)
    ensures |b| == 8 * |m|
  {
    if m == [] then [] else MessageBits(s, m[..|m| - 1]) + s.Data(m[|m| - 1])
  }

  lemma {:induction false} SerialAppend(p: bits, r: bits, a: bits, b: bits)
    requires |p| == |r| > 0
    ensures Serial(p, r, a + b) == Serial(p, Serial(p, r, a), b)
    decreases |a|
  {
    if a == [] {
      AppendEmpty(b);
    } else {
      assert (a + b)[..1] == a[..1] && (a + b)[1..] == a[1..] + b;
      SerialAppend(p, Step(p, Mixed(r, a)), a[1..], b);
    }
  }

  /** The remainder of a message is that of its polynomial. */
  lemma {:induction false} RemainderIsMod(s: Standard, m: bytes)
    requires s.Valid()
    ensures Remainder(s, m) == Mod(Dividend(s.initial, MessageBits(s, m)), s.polynomial)
  {
    RemainderIsSerial(s, m);
    SerialIsMod(s.polynomial, s.initial, MessageBits(s, m));
  }

  lemma {:induction false} RemainderIsSerial(s: Standard, m: bytes)
    requires s.Valid()
    ensures Remainder(s, m) == Serial(s.polynomial, s.initial, MessageBits(s, m))
  {
    if m != [] {
      var front, d := m[..|m| - 1], s.Data(m[|m| - 1]);
      RemainderIsSerial(s, front);
      BitsIn(s.polynomial, Remainder(s, front), d);
      SerialAppend(s.polynomial, s.initial, MessageBits(s, front), d);
    }
  }

  // ---------------------------------------------------------------- what the reflections mean

  /** The bits of a message, the highest of every byte first. */
  function PlainBits(m: bytes): (b: bits)
    ensures |b| == 8 * |m|
  {
    if m == [] then [] else PlainBits(m[..|m| - 1]) + ToBits(m[|m| - 1], 8)
  }

  lemma {:induction false} PlainMessage(s: Standard, m: bytes)
    requires !s.reflectData
    ensures MessageBits(s, m) == PlainBits(m)
  {
    if m != [] {
      PlainMessage(s, m[..|m| - 1]);
    }
  }

  /** Which bit of the message comes when. */
  lemma {:induction false} MessageBit(s: Standard, m: bytes, i: nat, j: nat)
    requires i < |m| && j < 8
    ensures MessageBits(s, m)[8 * i + j] <==> m[i] / Pow2(if s.reflectData then j else 7 - j) % 2 == 1
  {
    if i < |m| - 1 {
      MessageBit(s, m[..|m| - 1], i, j);
    } else {
      BitAt(m[i], 8, if s.reflectData then 7 - j else j);
    }
  }

  /** One bit in a register that shifts to the right. */
  function RightStep(q: bits, r: bits): (s: bits)
    requires |q| == |r| > 0
    ensures |s| == |r|
  {
    var shifted := [false] + r[..|r| - 1];
    if r[|r| - 1] then Xor(shifted, q) else shifted
  }

  function RightSteps(q: bits, r: bits, k: nat): (s: bits)
    requires |q| == |r| > 0
    ensures |s| == |r|
  {
    if k == 0 then r else RightStep(q, RightSteps(q, r, k - 1))
  }

  /** The register that shifts to the right, with every byte as it is at its lower end. */
  function RightRemainder(q: bits, r: bits, m: bytes): (s: bits)
    requires |q| == |r| >= 8
    ensures |s| == |r|
  {
    if m == [] then r
    else
      RightSteps(q, Xor(RightRemainder(q, r, m[..|m| - 1]), Zeros(|r| - 8) + ToBits(m[|m| - 1], 8)), 8)
  }

  lemma ReversedXor(a: bits, b: bits)
    requires |a| == |b|
    ensures Reversed(Xor(a, b)) == Xor(Reversed(a), Reversed(b))
  {
    hide Xor;
    var x, y := Reversed(Xor(a, b)), Xor(Reversed(a), Reversed(b));
    forall i | 0 <= i < |a| ensures x[i] == y[i] {
      XorAt(a, b, |a| - 1 - i);
      XorAt(Reversed(a), Reversed(b), i);
    }
  }

  lemma RightStepAt(q: bits, r: bits, i: nat)
    requires |q| == |r| && i < |r|
    ensures RightStep(q, r)[i] == ((i > 0 && r[i - 1]) != (r[|r| - 1] && q[i]))
  {
    hide Xor;
    XorAt([false] + r[..|r| - 1], q, i);
  }

  /** A step to the left, seen from the other end. */
  lemma ReversedStep(p: bits, r: bits)
    requires |p| == |r| > 0
    ensures Reversed(Step(p, r)) == RightStep(Reversed(p), Reversed(r))
  {
    hide Step, RightStep;
    var n, x, y := |r|, Reversed(Step(p, r)), RightStep(Reversed(p), Reversed(r));
    forall i | 0 <= i < n ensures x[i] == y[i] {
      StepAt(p, r, n - 1 - i);
      RightStepAt(Reversed(p), Reversed(r), i);
    }
  }

  lemma {:induction false} ReversedSteps(p: bits, r: bits, k: nat)
    requires |p| == |r| > 0
    ensures Reversed(Steps(p, r, k)) == RightSteps(Reversed(p), Reversed(r), k)
  {
    if k > 0 {
      ReversedSteps(p, r, k - 1);
      ReversedStep(p, Steps(p, r, k - 1));
    }
  }

  lemma ReversedTop(d: bits, n: nat)
    requires |d| <= n
    ensures Reversed(Top(Reversed(d), n)) == Zeros(n - |d|) + d
  {
    hide Top;
    var x, y := Reversed(Top(Reversed(d), n)), Zeros(n - |d|) + d;
    forall i | 0 <= i < n ensures x[i] == y[i] {
      TopAt(Reversed(d), n, n - 1 - i);
    }
  }

  lemma {:induction false} ReversedRemainder(s: Standard, m: bytes)
    requires s.Valid() && s.reflectData
    ensures Reversed(Remainder(s, m)) == RightRemainder(Reversed(s.polynomial), Reversed(s.initial), m)
  {
    if m != [] {
      var front, d := m[..|m| - 1], ToBits(m[|m| - 1], 8);
      ReversedRemainder(s, front);
      ReversedTop(d, s.width);
      ReversedXor(Remainder(s, front), Top(s.Data(m[|m| - 1]), s.width));
      ReversedSteps(s.polynomial, Xor(Remainder(s, front), Top(s.Data(m[|m| - 1]), s.width)), 8);
    }
  }

  lemma ReversedTwice(a: bits)
    ensures Reversed(Reversed(a)) == a
  {
  }

  /** The CRC of a message. With its data reflected it is that of a register that shifts to the right, from the lowest
      bit of every byte; otherwise the remainder of the bits from the highest one. It is turned round when only one of
      the two is reflected. */
  function Defined(s: Standard, m: bytes): (crc: bits)
    requires s.Valid()
    ensures |crc| == s.width
  {
    var right := RightRemainder(Reversed(s.polynomial), Reversed(s.initial), m);
    var left := Mod(Dividend(s.initial, PlainBits(m)), s.polynomial);
    Xor(if s.reflectData then (if s.reflectRemainder then right else Reversed(right))
        else (if s.reflectRemainder then Reversed(left) else left), s.finalXor)
  }

  lemma ResultIs(s: Standard, m: bytes)
    requires s.Valid()
    ensures s.Result(Remainder(s, m)) == Defined(s, m)
  {
    if s.reflectData {
      ReversedRemainder(s, m);
      ReversedTwice(Remainder(s, m));
    } else {
      PlainMessage(s, m);
      RemainderIsMod(s, m);
    }
  }

  /** The lowest bit behind zeros leaves the polynomial. */
  lemma OneLeavesPolynomial(p: bits)
    requires |p| >= 8
    ensures Mod(Dividend(Zeros(|p|), PlainBits([1])), p) == p
  {
    hide Mod, Dividend, Top, Xor, Steps;
    var s := Standard(|p|, p, Zeros(|p|), Zeros(|p|), false, false);
    RemainderIsMod(s, [1]);
    PlainMessage(s, [1]);
    assert [1][..0] == [];
    ZerosXor(Top(ToBits(1, 8), |p|));
    OneSteps(p);
  }

  lemma OneSteps(p: bits)
    requires |p| >= 8
    ensures Steps(p, Top(ToBits(1, 8), |p|), 8) == p
  {
    hide Steps, Step, Xor, Top, ToBits;
    var one := Top(ToBits(1, 8), |p|);
    forall i | 0 <= i < |p| ensures one[i] == (i == 7) {
      TopAt(ToBits(1, 8), |p|, i);
      if i < 8 {
        LowestOnly(i);
      }
    }
    ClearSteps(p, one, 7);
    LastStep(p, one);
    StepsLast(p, one);
  }

  lemma StepsLast(p: bits, r: bits)
    requires |p| == |r| > 0
    ensures Steps(p, r, 8) == Step(p, Steps(p, r, 7))
  {
  }

  lemma LastStep(p: bits, one: bits)
    requires |p| == |one| >= 8 && forall i :: 0 <= i < |p| ==> one[i] == (i == 7)
    ensures Step(p, Shl(one, 7)) == p
  {
    hide Step, Shl;
    var r := Shl(one, 7);
    forall i | 0 <= i < |p| ensures Step(p, r)[i] == p[i] {
      ShlAt(one, 7, 0);
      ShlAt(one, 7, i);
      if i + 1 < |p| {
        ShlAt(one, 7, i + 1);
      }
      StepAt(p, r, i);
    }
  }

  lemma ZerosXor(a: bits)
    ensures Xor(Zeros(|a|), a) == a
  {
    hide Xor;
    forall i | 0 <= i < |a| ensures Xor(Zeros(|a|), a)[i] == a[i] {
      XorAt(Zeros(|a|), a, i);
    }
  }

  lemma LowestOnly(i: nat)
    requires i < 8
    ensures ToBits(1, 8)[i] == (i == 7)
  {
    assert ToBits(1, 4) == [false, false, false, true] by {
      assert ToBits(0, 3) == [false, false, false];
    }
  }

  // ---------------------------------------------------------------- the code

  /** reflect() */
  method Reflect(data: bits) returns (reflection: bits)
    ensures reflection == Reversed(data)
  {
    reflection := Zeros(|data|);
    var bit: nat := 0;
    while bit < |data|
      invariant bit <= |data| == |reflection|
      invariant forall k :: 0 <= k < |data| ==> reflection[k] == (k < bit && data[|data| - 1 - k])
    {
      if data[|data| - 1 - bit] {
        reflection := reflection[bit := true];
      }
      bit := bit + 1;
    }
  }

  method ReadData(s: Standard, b: byte) returns (d: bits)
    ensures d == s.Data(b)
  {
    d := ToBits(b, 8);
    if s.reflectData {
      d := Reflect(d);
    }
  }

  method Finish(s: Standard, remainder: bits) returns (r: bits)
    requires |remainder| == |s.finalXor|
    ensures r == s.Result(remainder)
  {
    r := remainder;
    if s.reflectRemainder {
      r := Reflect(r);
    }
    r := Xor(r, s.finalXor);
  }

  /** The inner loop of crcSlow and of crcInit. */
  method Divide(p: bits, r0: bits) returns (r: bits)
    requires |p| == |r0| > 0
    ensures r == Steps(p, r0, 8)
  {
    hide Xor, Shl;
    r := r0;
    var bit: nat := 8;
    while bit > 0
      invariant bit <= 8 && |r| == |r0| && r == Steps(p, r0, 8 - bit)
    {
      if r[0] {
        r := Xor(Shl(r, 1), p);
      } else {
        r := Shl(r, 1);
      }
      bit := bit - 1;
    }
  }

  /** crcSlow: the remainder of the message's polynomial. */
  method CrcSlow(s: Standard, message: bytes) returns (crc: bits)
    requires s.Valid()
    ensures crc == s.Result(Remainder(s, message)) == Defined(s, message)
  {
    var remainder := s.initial;
    var i: nat := 0;
    while i < |message|
      invariant i <= |message| && remainder == Remainder(s, message[..i])
    {
      assert message[..i + 1][..i] == message[..i];
      var d := ReadData(s, message[i]);
      remainder := Divide(s.polynomial, Xor(remainder, Top(d, s.width)));
      i := i + 1;
    }
    assert message[..i] == message;
    ResultIs(s, message);
    crc := Finish(s, remainder);
  }

  ghost predicate Table(s: Standard, table: array<bits>)
    requires s.Valid()
    reads table
  {
    table.Length == 256 && forall d :: 0 <= d < 256 ==> table[d] == Steps(s.polynomial, Top(ToBits(d, 8), s.width), 8)
  }

  /** crcInit */
  method CrcInit(s: Standard, table: array<bits>)
    requires s.Valid() && table.Length == 256
    modifies table
    ensures Table(s, table)
  {
    var dividend: nat := 0;
    while dividend < 256
      invariant dividend <= 256
      invariant forall d :: 0 <= d < dividend ==> table[d] == Steps(s.polynomial, Top(ToBits(d, 8), s.width), 8)
    {
      table[dividend] := Divide(s.polynomial, Top(ToBits(dividend, 8), s.width));
      dividend := dividend + 1;
    }
  }

  /** The round of crcFast: the byte and the top of the remainder select the entry. */
  lemma FastRound(s: Standard, table: array<bits>, r: bits, d: bits)
    requires s.Valid() && Table(s, table) && |r| == s.width && |d| == 8
    ensures Value(Xor(d, r[..8])) < 256
    ensures Xor(table[Value(Xor(d, r[..8]))], Shl(r, 8)) == Steps(s.polynomial, Xor(r, Top(d, s.width)), 8)
  {
    hide Xor, Top, Shl, Steps, Value, ToBits;
    var x, w := Xor(d, r[..8]), Xor(r, Top(d, s.width));
    ByteIndex(x);
    TopMixed(r, d);
    TopByteSteps(s.polynomial, w);
  }

  lemma ByteIndex(x: bits)
    requires |x| == 8
    ensures Value(x) < 256 && ToBits(Value(x), 8) == x
  {
    ValueBound(x);
    Pow2s();
    BitsOfValue(x);
  }

  lemma TopMixed(r: bits, d: bits)
    requires |d| == 8 <= |r|
    ensures var w := Xor(r, Top(d, |r|)); w[..8] == Xor(d, r[..8]) && Shl(w, 8) == Shl(r, 8)
  {
    hide Xor, Top;
    var w := Xor(r, Top(d, |r|));
    forall i | 0 <= i < 8 ensures w[..8][i] == Xor(d, r[..8])[i] {
      XorAt(r, Top(d, |r|), i);
      TopAt(d, |r|, i);
      XorAt(d, r[..8], i);
    }
    forall i | 8 <= i < |r| ensures w[i] == r[i] {
      XorAt(r, Top(d, |r|), i);
      TopAt(d, |r|, i);
    }
    assert w[8..] == r[8..];
  }

  /** crcFast gives what crcSlow gives. */
  method CrcFast(s: Standard, table: array<bits>, message: bytes) returns (crc: bits)
    requires s.Valid() && Table(s, table)
    ensures crc == s.Result(Remainder(s, message)) == Defined(s, message)
  {
    var remainder := s.initial;
    var i: nat := 0;
    while i < |message|
      invariant i <= |message| && remainder == Remainder(s, message[..i])
    {
      assert message[..i + 1][..i] == message[..i];
      var d := ReadData(s, message[i]);
      FastRound(s, table, remainder, d);
      var data := Xor(d, remainder[..8]);
      remainder := Xor(table[Value(data)], Shl(remainder, 8));
      i := i + 1;
    }
    assert message[..i] == message;
    ResultIs(s, message);
    crc := Finish(s, remainder);
  }
}
