/** Products, quotients and remainders, one fact at a time: the solver is not asked to find them. */
module Arith {
  lemma MultipleRem(q: nat, d: nat)
    requires d > 0
    ensures q * d % d == 0
  {
    DivIs(q * d, d, q, 0);
  }

  lemma DivIs(v: nat, d: nat, q: nat, r: nat)
    requires d > 0 && v == q * d + r && r < d
    ensures v / d == q && v % d == r
  {
    var x, y := v / d, v % d;
    assert v == x * d + y;
    QuotientUnique(d, x, y, q, r);
  }

  lemma QuotientUnique(d: nat, x: int, y: nat, q: int, r: nat)
    requires x * d + y == q * d + r && y < d && r < d
    ensures x == q && y == r
  {
    var e := x - q;
    assert e * d == x * d - q * d;
    TimesSign(e, d);
  }

  lemma TimesAssoc(a: int, b: int, c: int)
    ensures a * b * c == a * (b * c)
  {
  }

  lemma TimesAdd(a: int, b: int, c: int)
    ensures (a + b) * c == a * c + b * c
  {
  }

  lemma TimesSign(e: int, d: nat)
    ensures e >= 1 ==> e * d >= d
    ensures e <= -1 ==> e * d + d <= 0
  {
    if e >= 1 {
      assert e * d == (e - 1) * d + d;
    } else if e <= -1 {
      assert e * d == (e + 1) * d - d;
    }
  }

  lemma TimesLess(a: nat, b: nat, d: nat)
    requires d > 0 && a * d < b * d
    ensures a < b
  {
    assert (b - a) * d == b * d - a * d;
    TimesSign(b - a, d);
  }

  lemma TimesAtMost(a: nat, b: nat, d: nat)
    requires d > 0 && a * d <= b * d
    ensures a <= b
  {
    TimesAdd(b - a, a, d);
    TimesSign(b - a, d);
  }

  lemma TimesLeft(a: nat, d: nat)
    requires d > 0
    ensures a <= a * d
  {
  }

  lemma TimesMonotone(a: nat, b: nat, d: nat)
    requires a < b && d > 0
    ensures a * d < b * d
  {
    TimesAdd(b - a, a, d);
    TimesSign(b - a, d);
  }

  lemma Below(a: nat, b: nat, d: nat, r: nat)
    requires a < b && r < d
    ensures a * d + r < b * d
  {
    TimesAdd(b - a - 1, a + 1, d);
    TimesAdd(a, 1, d);
    if b - a - 1 > 0 {
      TimesSign(b - a - 1, d);
    }
  }

  lemma DivNegative(v: int, d: nat)
    requires v < 0 <= v + d
    ensures v % d == v + d
  {
    var x, y := v / d, v % d;
    assert v == x * d + y;
    QuotientUnique(d, x, y, -1, v + d);
  }

  /** The start of the page that an address is in. */
  lemma PageStart(addr: nat, size: nat)
    requires size > 0
    ensures addr - addr % size >= 0 && (addr - addr % size) % size == 0 && (addr - addr % size) / size == addr / size
  {
    DivIs(addr - addr % size, size, addr / size, 0);
  }

  lemma DivMonotone(a: nat, b: nat, d: nat)
    requires a <= b && d > 0
    ensures a / d <= b / d
  {
    var x, y := a / d, b / d;
    TimesAdd(x - y, y, d);
    TimesSign(x - y, d);
  }
}
