/** Bit strings, most significant bit first, and the machine operations the bit writer uses. */
module BitStrings {
  import opened Arith
  import opened Bytes

  type bits = seq<bool>

  function Pow2(n: nat): (r: nat)
    ensures r > 0
  {
    if n == 0 then 1 else 2 * Pow2(n - 1)
  }

  lemma {:induction false} Pow2Add(m: nat, n: nat)
    ensures Pow2(m + n) == Pow2(m) * Pow2(n)
  {
    if m > 0 {
      Pow2Add(m - 1, n);
      assert Pow2(m) * Pow2(n) == 2 * (Pow2(m - 1) * Pow2(n));
    }
  }

  lemma Pow2AtMost(m: nat, n: nat)
    requires m <= n
    ensures Pow2(m) <= Pow2(n)
  {
    hide Pow2;
    Pow2Add(m, n - m);
    TimesLeft(Pow2(m), Pow2(n - m));
  }

  lemma Pow2s()
    ensures Pow2(8) == 256 && Pow2(16) == 65536 && Pow2(24) == 0x100_0000
  {
    assert Pow2(4) == 16;
    Pow2Add(4, 4);
    Pow2Add(8, 8);
    Pow2Add(16, 8);
  }

  /** The low n bits of v. */
  function ToBits(v: nat, n: nat): (r: bits)
    ensures |r| == n
  {
    if n == 0 then [] else ToBits(v / 2, n - 1) + [v % 2 == 1]
  }

  function Value(b: bits): nat {
    if b == [] then 0 else 2 * Value(b[..|b| - 1]) + if b[|b| - 1] then 1 else 0
  }

  lemma {:induction false} ValueBound(b: bits)
    ensures Value(b) < Pow2(|b|)
  {
    if b != [] {
      ValueBound(b[..|b| - 1]);
    }
  }

  lemma {:induction false} ValueOfBits(v: nat, n: nat)
    requires v < Pow2(n)
    ensures Value(ToBits(v, n)) == v
  {
    if n > 0 {
      ValueOfBits(v / 2, n - 1);
      assert ToBits(v, n)[..n - 1] == ToBits(v / 2, n - 1);
    }
  }

  lemma {:induction false} BitsOfValue(b: bits)
    ensures ToBits(Value(b), |b|) == b
  {
    if b != [] {
      BitsOfValue(b[..|b| - 1]);
      Split(b, |b| - 1);
    }
  }

  lemma {:induction false} ValueAppend(a: bits, b: bits)
    ensures Value(a + b) == Value(a) * Pow2(|b|) + Value(b)
  {
    if b == [] {
      AppendEmpty(a);
    } else {
      var c := b[..|b| - 1];
      ValueAppend(a, c);
      assert (a + b)[..|a + b| - 1] == a + c;
      assert Value(a) * Pow2(|b|) == 2 * (Value(a) * Pow2(|c|));
    }
  }

  /** Bit i of a number, counted from the highest of n */
  lemma {:induction false} BitAt(v: nat, n: nat, i: nat)
    requires i < n
    ensures ToBits(v, n)[i] <==> v / Pow2(n - 1 - i) % 2 == 1
  {
    if i < n - 1 {
      BitAt(v / 2, n - 1, i);
      HalfAgain(v, n - 1 - i);
    }
  }

  lemma HalfAgain(v: nat, k: nat)
    requires k > 0
    ensures v / 2 / Pow2(k - 1) == v / Pow2(k)
  {
    var d := Pow2(k - 1);
    var q, r := v / 2 / d, v / 2 % d;
    assert v / 2 == q * d + r;
    assert q * (2 * d) == 2 * (q * d);
    DivIs(v, 2 * d, q, 2 * r + v % 2);
  }

  /** Bitwise or */
  function Or(a: nat, b: nat): nat {
    if a == 0 && b == 0 then 0
    else 2 * Or(a / 2, b / 2) + if a % 2 == 1 || b % 2 == 1 then 1 else 0
  }

  lemma {:induction false} OrDisjoint(a: nat, b: nat, k: nat)
    requires a % Pow2(k) == 0 && b < Pow2(k)
    ensures Or(a, b) == a + b
    decreases a + b
  {
    if k == 0 {
      OrZero(a);
    } else if a + b > 0 {
      HalfMultiple(a, Pow2(k - 1));
      OrDisjoint(a / 2, b / 2, k - 1);
    }
  }

  lemma HalfMultiple(a: nat, d: nat)
    requires d > 0 && a % (2 * d) == 0
    ensures a % 2 == 0 && a / 2 % d == 0
  {
    var q := a / (2 * d);
    assert a == q * (2 * d);
    assert q * (2 * d) == 2 * (q * d);
    DivIs(a, 2, q * d, 0);
    MultipleRem(q, d);
  }

  lemma {:induction false} OrZero(a: nat)
    ensures Or(a, 0) == a
  {
    if a > 0 {
      OrZero(a / 2);
    }
  }

  /** Bitwise and */
  function And(a: nat, b: nat): (r: nat)
    ensures r <= a
  {
    if a == 0 || b == 0 then 0
    else 2 * And(a / 2, b / 2) + if a % 2 == 1 && b % 2 == 1 then 1 else 0
  }

  /** Bitwise exclusive or */
  function WordXor(a: nat, b: nat): nat {
    if a == 0 && b == 0 then 0 else 2 * WordXor(a / 2, b / 2) + (a % 2 + b % 2) % 2
  }

  lemma {:induction false} XorTwice(a: nat, b: nat)
    ensures WordXor(WordXor(a, b), b) == a
    decreases a + b
  {
    hide WordXor;
    if a + b > 0 {
      XorTwice(a / 2, b / 2);
      XorStep(a, b);
      XorHalves(WordXor(a / 2, b / 2), (a % 2 + b % 2) % 2, b);
      BitTwice(a % 2, b % 2);
    } else {
      XorZero();
    }
  }

  lemma XorZero()
    ensures WordXor(0, 0) == 0
  {
  }

  lemma BitTwice(p: nat, q: nat)
    requires p < 2 && q < 2
    ensures ((p + q) % 2 + q) % 2 == p
  {
  }

  lemma XorStep(a: nat, b: nat)
    ensures WordXor(a, b) == 2 * WordXor(a / 2, b / 2) + (a % 2 + b % 2) % 2
  {
  }

  lemma XorHalves(h: nat, p: nat, b: nat)
    requires p < 2
    ensures WordXor(2 * h + p, b) == 2 * WordXor(h, b / 2) + (p + b % 2) % 2
  {
    hide WordXor;
    XorStep(2 * h + p, b);
    DivIs(2 * h + p, 2, h, p);
  }

  lemma {:induction false} XorBound(a: nat, b: nat, m: nat, k: nat)
    requires m == Pow2(k) && a < m && b < m
    ensures WordXor(a, b) < m
    decreases k
  {
    if k > 0 && a + b > 0 {
      XorBound(a / 2, b / 2, m / 2, k - 1);
    }
  }

  const U32 := 0x1_0000_0000

  /** << on a 32-bit word */
  function Shl(v: nat, n: nat): nat {
    v * Pow2(n) % U32
  }
}
