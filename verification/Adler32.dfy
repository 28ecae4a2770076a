/** lzo_adler32: the checksum with its modulus deferred to once per 5552 bytes, on
    32-bit sums, against the per-byte definition of section 8.2 of RFC 1950. */
module Adler32 {
  import opened Bytes

  const LZO_BASE := 65521
  const LZO_NMAX := 5552

  // Additions on this type are checked not to leave 32 bits.
  newtype u32 = x: int | 0 <= x < 0x1_0000_0000

  datatype Sums = Sums(s1: nat, s2: nat)

  /** The definition: both sums reduced after every byte. */
  function Adler(a: Sums, buf: bytes): Sums
    decreases |buf|
  {
    if buf == [] then a
    else
      var s1 := (a.s1 + buf[0]) % LZO_BASE;
      Adler(Sums(s1, (a.s2 + s1) % LZO_BASE), buf[1..])
  }

  /** The same sums with no reduction. */
  function Plain(a: Sums, buf: bytes): Sums
    decreases |buf|
  {
    if buf == [] then a
    else
      var s1 := a.s1 + buf[0];
      Plain(Sums(s1, a.s2 + s1), buf[1..])
  }

  function Reduce(a: Sums): Sums {
    Sums(a.s1 % LZO_BASE, a.s2 % LZO_BASE)
  }

  /** Checksumming a buffer in two pieces is checksumming it whole. */
  lemma {:induction false} AdlerSplit(a: Sums, x: bytes, y: bytes)
    ensures Adler(a, x + y) == Adler(Adler(a, x), y)
    decreases |x|
  {
    if x == [] {
      assert x + y == y;
    } else {
      assert (x + y)[1..] == x[1..] + y;
      var s1 := (a.s1 + x[0]) % LZO_BASE;
      AdlerSplit(Sums(s1, (a.s2 + s1) % LZO_BASE), x[1..], y);
    }
  }

  lemma {:induction false} PlainSnoc(a: Sums, buf: bytes, b: byte)
    ensures Plain(a, buf + [b]) == var p := Plain(a, buf); Sums(p.s1 + b, p.s2 + (p.s1 + b))
    decreases |buf|
  {
    if buf == [] {
      assert buf + [b] == [b];
    } else {
      assert (buf + [b])[1..] == buf[1..] + [b];
      PlainSnoc(Sums(a.s1 + buf[0], a.s2 + (a.s1 + buf[0])), buf[1..], b);
    }
  }

  lemma ModAdd(a: nat, a': nat, b: nat)
    requires a % LZO_BASE == a' % LZO_BASE
    ensures (a + b) % LZO_BASE == (a' + b) % LZO_BASE
  {
    var k := a / LZO_BASE - a' / LZO_BASE;
    assert a + b == a' + b + LZO_BASE * k;
  }

  /** Starting sums that agree modulo 65521 end in sums that do. */
  lemma {:induction false} StartReduced(a: Sums, b: Sums, buf: bytes)
    requires Reduce(a) == Reduce(b)
    ensures Reduce(Adler(a, buf)) == Reduce(Adler(b, buf))
  {
    if buf != [] {
      ModAdd(a.s1, b.s1, buf[0]);
      ModAdd(a.s2, b.s2, (a.s1 + buf[0]) % LZO_BASE);
    }
  }

  /** Once reduced, the sums stay reduced. */
  lemma {:induction false} AdlerReduced(a: Sums, buf: bytes)
    requires buf != []
    ensures Reduce(Adler(a, buf)) == Adler(a, buf)
    decreases |buf|
  {
    if |buf| > 1 {
      var s1 := (a.s1 + buf[0]) % LZO_BASE;
      AdlerReduced(Sums(s1, (a.s2 + s1) % LZO_BASE), buf[1..]);
    }
  }

  /** The reduction can wait until the end, from any starting sums. */
  lemma {:induction false} DeferredModulus(a: Sums, buf: bytes)
    ensures Reduce(Plain(a, buf)) == Reduce(Adler(a, buf))
    decreases |buf|
  {
    if buf != [] {
      var s1 := a.s1 + buf[0];
      var t1 := s1 % LZO_BASE;
      DeferredModulus(Sums(s1, a.s2 + s1), buf[1..]);
      ModAdd(s1, t1, a.s2);
      StartReduced(Sums(s1, a.s2 + s1), Sums(t1, (a.s2 + t1) % LZO_BASE), buf[1..]);
    }
  }

  /** How large the unreduced sums can be after n bytes from 16-bit halves, doubled. */
  function Bound(n: nat): nat {
    if n == 0 then 131070 else Bound(n - 1) + 2 * (65535 + 255 * n)
  }

  lemma {:induction false} BoundClosed(n: nat)
    ensures Bound(n) == 131070 + 131325 * n + 255 * (n * n)
  {
    if n > 0 {
      BoundClosed(n - 1);
      assert n * n == (n - 1) * (n - 1) + 2 * n - 1;
    }
  }

  lemma {:induction false} BoundFits(n: nat)
    requires n <= LZO_NMAX
    ensures Bound(n) <= Bound(LZO_NMAX) < 2 * 0x1_0000_0000
    decreases LZO_NMAX - n
  {
    if n == LZO_NMAX {
      BoundClosed(n);
      assert n * n == 5552 * 5552;
    } else {
      BoundFits(n + 1);
    }
  }

  /** n bytes into a stretch that began with the halves `start`. */
  ghost predicate Summed(start: Sums, done: bytes, s1: u32, s2: u32) {
    Plain(start, done) == Sums(s1 as int, s2 as int)
    && s1 as int <= 65535 + 255 * |done| && 2 * s2 as int <= Bound(|done|)
  }

  /** LZO_DO1 */
  method AddByte(b: byte, s1: u32, s2: u32, ghost start: Sums, ghost done: bytes) returns (t1: u32, t2: u32)
    requires Summed(start, done, s1, s2) && |done| < LZO_NMAX
    ensures Summed(start, done + [b], t1, t2)
  {
    PlainSnoc(start, done, b);
    BoundFits(|done| + 1);
    t1 := s1 + b as u32;
    t2 := s2 + t1;
  }

  /** lzo_adler32, with the two halves of the word as a pair. */
  method LzoAdler32(adler: u32, buf: bytes) returns (r: u32)
    ensures var a := Adler(Sums(adler as int % 0x1_0000, adler as int / 0x1_0000), buf);
            r as int == a.s2 * 0x1_0000 + a.s1
  {
    var s1 := adler % 0x1_0000;
    var s2 := adler / 0x1_0000;
    ghost var first := Sums(s1 as int, s2 as int);
    var p: nat := 0;
    while p < |buf|
      invariant p <= |buf| && s1 < 0x1_0000 && s2 < 0x1_0000
      invariant Sums(s1 as int, s2 as int) == Adler(first, buf[..p])
    {
      s1, s2, p := Stretch(buf, p, s1, s2, first);
    }
    assert buf[..p] == buf;
    r := s2 * 0x1_0000 + s1;
  }

  /** Up to 5552 bytes, sixteen at a time and then one at a time, and the two reductions. */
  method Stretch(buf: bytes, p: nat, a1: u32, a2: u32, ghost first: Sums) returns (s1: u32, s2: u32, q: nat)
    requires p < |buf| && a1 < 0x1_0000 && a2 < 0x1_0000
    requires Sums(a1 as int, a2 as int) == Adler(first, buf[..p])
    ensures p < q <= |buf| && s1 < 0x1_0000 && s2 < 0x1_0000
    ensures Sums(s1 as int, s2 as int) == Adler(first, buf[..q])
  {
    var len := |buf| - p;
    var k: nat := if len < LZO_NMAX then len else LZO_NMAX;
    ghost var start, end := Sums(a1 as int, a2 as int), p + k;
    s1, s2, q := a1, a2, p;
    assert buf[p..p] == [];
    while k >= 16
      invariant p <= q && q + k == end
      invariant Summed(start, buf[p..q], s1, s2)
    {
      for i := 0 to 16
        invariant q + k - i == end
        invariant Summed(start, buf[p..q], s1, s2)
      {
        s1, s2 := AddByte(buf[q], s1, s2, start, buf[p..q]);
        assert buf[p..q + 1] == buf[p..q] + [buf[q]];
        q := q + 1;
      }
      k := k - 16;
    }
    while k > 0
      invariant q + k == end
      invariant Summed(start, buf[p..q], s1, s2)
    {
      s1, s2 := AddByte(buf[q], s1, s2, start, buf[p..q]);
      assert buf[p..q + 1] == buf[p..q] + [buf[q]];
      q, k := q + 1, k - 1;
    }
    StretchEnd(first, start, buf, p, q);
    s1, s2 := s1 % 65521, s2 % 65521;
  }

  lemma StretchEnd(first: Sums, start: Sums, buf: bytes, p: nat, q: nat)
    requires p < q <= |buf| && start == Adler(first, buf[..p])
    ensures Reduce(Plain(start, buf[p..q])) == Adler(first, buf[..q])
  {
    DeferredModulus(start, buf[p..q]);
    AdlerReduced(start, buf[p..q]);
    AdlerSplit(first, buf[..p], buf[p..q]);
    assert buf[..q] == buf[..p] + buf[p..q];
  }
}
