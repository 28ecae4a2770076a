/** The camera's ring buffer, whose capacity is stretched for one transfer at its end and restored when the
    reader comes round, against a first-in first-out queue. */
module RingBuffer {
  import opened Bytes

  /** The counters of a ring of `size` bytes with `extraSize` more behind them. */
  datatype Ring = Ring(size: nat, extraSize: nat, realSize: nat, head: int, tail: int, len: int) {
    /** Data from the tail to the end goes on at the start. */
    predicate Wrapped() {
      len > 0 && head <= tail
    }

    predicate Valid() {
      && size > 0 && (realSize == size || size < realSize < size + extraSize)
      && 0 <= head < realSize && 0 <= tail < realSize && len >= 0
      && len == (if Wrapped() then realSize - tail + head else head - tail)
      && (Wrapped() ==> head < size)
    }

    /** fb_io_space_tail_len */
    function SpaceTailLen(): int {
      if head > tail then realSize - head else realSize - len
    }

    /** fb_io_data_len */
    function DataLen(): int {
      if head <= tail && len > 0 then realSize - tail else len
    }

    /** fb_io_inc_tail; None is the error. */
    function IncTail(n: nat): (r: Ring) {
      if len - n < 0 then this
      else if tail + n >= realSize then this.(tail := 0, realSize := size, len := len - n)
      else this.(tail := tail + n, len := len - n)
    }

    /** fb_io_inc_head */
    function IncHead(n: nat): (r: Ring) {
      if len + n > realSize then this
      else if head + n >= realSize then this.(head := 0, len := len + n)
      else this.(head := head + n, len := len + n)
    }

    /** fb_io_resize */
    function Resize(n: nat): (r: Ring) {
      if size < head + n < size + extraSize then this.(realSize := head + n) else this
    }

    /** The bytes held, of the memory `buf`. */
    function Contents(buf: bytes): (c: bytes)
      requires Valid() && realSize <= |buf|
      ensures |c| == len
    {
      if Wrapped() then buf[tail..realSize] + buf[..head] else buf[tail..head]
    }

    /** A transfer of n bytes that ends in front of the data, or of the end, and while the ring is stretched
        and the data goes round, inside the normal size. */
    predicate Fits(n: nat)
      requires Valid()
    {
      if Wrapped() then head + n <= tail && (realSize > size ==> head + n < size)
      else head + n <= realSize
    }

    /** fb_io_inc_head takes the write. */
    predicate Accepts(n: nat) {
      len + n <= realSize
    }

    /** The part of what is held that a reader takes first. */
    function FirstPart(): int {
      if DataLen() < len then DataLen() else len
    }

    /** The ring after a reader has taken all of it, the contiguous part first. */
    function Emptied(): Ring {
      var s := if FirstPart() >= 0 then IncTail(FirstPart()) else this;
      if s.len >= 0 then s.IncTail(s.len) else s
    }

    /** What that reader gets. */
    function Delivered(buf: bytes): bytes {
      var s := if FirstPart() >= 0 then IncTail(FirstPart()) else this;
      Part(buf, tail, FirstPart()) + Part(buf, s.tail, s.len)
    }

    /** A transfer of n bytes to the head is a write to a queue: it lies in the memory, a reader gets what was
        held and then the transfer, whatever the bytes are, and the ring is then an empty one. */
    ghost predicate KeepsQueue(n: nat)
      requires Valid()
    {
      && head + n <= size + extraSize
      && IncHead(n).Emptied().len == 0 && IncHead(n).Emptied().head == IncHead(n).Emptied().tail
      && forall buf: bytes :: |buf| == size + extraSize ==>
           IncHead(n).Delivered(buf) == Contents(buf) + buf[head..head + n]
    }

    /** The bytes from the head up to the data, or up to the end. */
    function Room(): int {
      if Wrapped() then tail - head else realSize - head
    }
  }

  /** n bytes of the memory, as far as they are inside. */
  function Part(buf: bytes, at: int, n: int): bytes {
    if 0 <= at && 0 <= n && at + n <= |buf| then buf[at..at + n] else []
  }

  /** A transfer that fits is appended. */
  lemma Written(r: Ring, buf: bytes, n: nat)
    requires r.Valid() && r.realSize <= |buf| && r.Fits(n)
    ensures r.IncHead(n).Valid()
    ensures r.IncHead(n).Contents(buf) == r.Contents(buf) + buf[r.head..r.head + n]
  {
    if r.Wrapped() {
      WrittenBehind(r, buf, n);
    } else {
      WrittenAhead(r, buf, n);
    }
  }

  lemma WrittenBehind(r: Ring, buf: bytes, n: nat)
    requires r.Valid() && r.realSize <= |buf| && r.Fits(n) && r.Wrapped()
    ensures r.IncHead(n).Valid()
    ensures r.IncHead(n).Contents(buf) == r.Contents(buf) + buf[r.head..r.head + n]
  {
    Slices(buf, 0, r.head, r.head + n);
    Assoc(buf[r.tail..r.realSize], buf[..r.head], buf[r.head..r.head + n]);
  }

  lemma WrittenAhead(r: Ring, buf: bytes, n: nat)
    requires r.Valid() && r.realSize <= |buf| && r.Fits(n) && !r.Wrapped()
    ensures r.IncHead(n).Valid()
    ensures r.IncHead(n).Contents(buf) == r.Contents(buf) + buf[r.head..r.head + n]
  {
    Slices(buf, r.tail, r.head, r.head + n);
    var s, all := r.IncHead(n), buf[r.tail..r.head + n];
    if r.head + n == r.realSize {
      assert s.Wrapped() && s.head == 0 && s.tail == r.tail && s.realSize == r.realSize;
      AppendEmpty(all);
      assert buf[..s.head] == [];
    } else {
      assert !s.Wrapped() && s.head == r.head + n && s.tail == r.tail;
    }
  }

  lemma Slices(buf: bytes, a: nat, b: nat, c: nat)
    requires a <= b <= c <= |buf|
    ensures buf[a..b] + buf[b..c] == buf[a..c]
  {
  }

  lemma RoomFor(r: Ring, n: nat)
    requires r.Valid() && r.Fits(n)
    ensures r.len + n <= r.realSize && r.head + n <= r.realSize
  {
  }

  /** Bytes read are taken from the front, and the capacity is restored when the reader comes round. */
  lemma Taken(r: Ring, buf: bytes, n: nat)
    requires r.Valid() && r.realSize <= |buf| && n <= r.DataLen()
    ensures r.IncTail(n).Valid() && r.tail + n <= r.realSize
    ensures buf[r.tail..r.tail + n] == r.Contents(buf)[..n]
    ensures r.IncTail(n).Contents(buf) == r.Contents(buf)[n..]
    ensures r.tail + n == r.realSize ==> r.IncTail(n).realSize == r.size
  {
    if r.Wrapped() {
      Slices(buf, r.tail, r.tail + n, r.realSize);
      Assoc(buf[r.tail..r.tail + n], buf[r.tail + n..r.realSize], buf[..r.head]);
      CutAtEnd(buf[r.tail..r.tail + n], buf[r.tail + n..r.realSize] + buf[..r.head]);
    } else {
      Slices(buf, r.tail, r.tail + n, r.head);
      CutAtEnd(buf[r.tail..r.tail + n], buf[r.tail + n..r.head]);
    }
  }

  /** Stretching the ring for a transfer at its end changes nothing held. */
  lemma Stretched(r: Ring, buf: bytes, n: nat)
    requires r.Valid() && !r.Wrapped() && r.size + r.extraSize <= |buf| && n > 0
    ensures r.Resize(n).Valid() && r.Resize(n).Contents(buf) == r.Contents(buf)
    ensures r.size < r.head + n < r.size + r.extraSize ==> r.Resize(n).Fits(n)
  {
  }

  /** A reader of a ring in order gets what it holds, and leaves it empty. */
  lemma ValidDelivers(r: Ring, buf: bytes)
    requires r.Valid() && r.realSize <= |buf|
    ensures r.Delivered(buf) == r.Contents(buf)
    ensures r.Emptied().len == 0 && r.Emptied().head == r.Emptied().tail
  {
    if r.Wrapped() {
      assert r.Delivered(buf) == buf[r.tail..r.realSize] + buf[..r.head];
    } else {
      assert r.Delivered(buf) == buf[r.tail..r.head] + [];
    }
  }

  /** An accepted write behaves as one to a queue if and only if it fits. */
  lemma WriteExact(r: Ring, n: nat)
    requires r.Valid() && r.Accepts(n)
    ensures r.KeepsQueue(n) <==> r.Fits(n)
    ensures r.IncHead(n).Valid() <==> r.Fits(n)
  {
    if r.Fits(n) {
      RoomFor(r, n);
      forall buf: bytes | |buf| == r.size + r.extraSize
        ensures r.IncHead(n).Valid() && r.IncHead(n).Delivered(buf) == r.Contents(buf) + buf[r.head..r.head + n]
      {
        Written(r, buf, n);
        ValidDelivers(r.IncHead(n), buf);
      }
      var buf := seq(r.size + r.extraSize, _ => 0);
      Written(r, buf, n);
      ValidDelivers(r.IncHead(n), buf);
    } else if r.Wrapped() {
      WrappedOverrun(r, n);
    } else {
      EndOverrun(r, n);
    }
  }

  /** Past the normal size while the ring is stretched and the data goes round: the reader comes round, the
      size is restored, and the head is left outside. */
  lemma WrappedOverrun(r: Ring, n: nat)
    requires r.Valid() && r.Accepts(n) && r.Wrapped() && !r.Fits(n)
    ensures r.realSize > r.size && r.size <= r.head + n <= r.tail
    ensures var s := r.IncHead(n).IncTail(r.realSize - r.tail);
            var t := s.IncTail(s.len);
            s.realSize == r.size && s.head >= s.realSize && t.len == 0 && t.head != t.tail
    ensures !r.IncHead(n).Valid() && !r.KeepsQueue(n)
  {
  }

  /** Past the end in front of data that does not go round: the head is set to the start, and what was written
      past the end is not what is read. */
  lemma EndOverrun(r: Ring, n: nat)
    requires r.Valid() && r.Accepts(n) && !r.Wrapped() && !r.Fits(n)
    ensures r.head + n > r.realSize && r.IncHead(n).head == 0
    ensures !r.IncHead(n).Valid() && !r.KeepsQueue(n)
  {
    if r.head + n <= r.size + r.extraSize {
      var buf := Misread(r, n);
      assert |buf| == r.size + r.extraSize && r.IncHead(n).Delivered(buf) != r.Contents(buf) + buf[r.head..r.head + n];
    }
  }

  /** The memory in which the first byte past the end is not the first byte of all. */
  lemma Misread(r: Ring, n: nat) returns (buf: bytes)
    requires r.Valid() && r.Accepts(n) && !r.Wrapped() && r.realSize < r.head + n <= r.size + r.extraSize
    ensures |buf| == r.size + r.extraSize
    ensures r.IncHead(n).Delivered(buf) != r.Contents(buf) + buf[r.head..r.head + n]
  {
    buf := seq(r.size + r.extraSize, i => if i == r.realSize then 1 else 0);
    var s, d := r.IncHead(n), r.realSize - r.tail;
    assert s.FirstPart() == d;
    var got, whole := s.Delivered(buf), r.Contents(buf) + buf[r.head..r.head + n];
    assert got == Part(buf, r.tail, d) + Part(buf, 0, r.head + n - r.realSize);
    assert |whole| == r.head - r.tail + n && whole[d] == buf[r.realSize] == 1;
    assert got[d] == buf[0] == 0;
  }

  lemma WriteQueue(r: Ring, buf: bytes, n: nat)
    requires r.Valid() && r.realSize <= |buf| && r.Accepts(n)
    ensures r.IncHead(n).Valid() <==> r.Fits(n)
    ensures r.IncHead(n).Valid() ==>
              r.head + n <= |buf| && r.IncHead(n).Contents(buf) == r.Contents(buf) + buf[r.head..r.head + n]
  {
    WriteExact(r, n);
    if r.Fits(n) {
      RoomFor(r, n);
      Written(r, buf, n);
    }
  }

  /** An accepted read is one from a queue if and only if it is contiguous. */
  lemma ReadExact(r: Ring, n: nat)
    requires r.Valid() && n <= r.len
    ensures r.IncTail(n).Valid() <==> n <= r.DataLen()
  {
  }

  /** A stretch keeps a ring in order if and only if the data does not go round, or nothing changes. */
  lemma ResizeExact(r: Ring, n: nat)
    requires r.Valid() && n > 0
    ensures r.Resize(n).Valid() <==> !r.Wrapped() || r.Resize(n) == r
  {
  }

  /** A ring that breaks: the writer fills it, stretched, past the normal size behind a reader past it. */
  lemma StretchedOverrun()
    ensures var r := Ring(4, 4, 7, 0, 6, 1);
            var s := r.IncHead(5).IncTail(1);
            var t := s.IncTail(5);
            && r.Valid() && r.head + 5 <= r.tail && r.Accepts(5) && !r.Fits(5)
            && s.len == 5 && s.realSize == 4 && s.head == 5
            && t.len == 0 && t.head != t.tail
  {
  }

  /** The space reported is the room there is, except that an empty ring away from its start reports more. A
      write of all of it keeps the queue if and only if it is not one of those, nor one whose data goes round
      beyond the normal size. */
  lemma SpaceExact(r: Ring)
    requires r.Valid()
    ensures r.SpaceTailLen() == r.Room() <==> !(r.len == 0 && r.head > 0)
    ensures r.SpaceTailLen() >= r.Room() >= 0 && r.Accepts(r.SpaceTailLen())
    ensures r.KeepsQueue(r.SpaceTailLen()) <==>
            !(r.len == 0 && r.head > 0) && (r.Wrapped() && r.realSize > r.size ==> r.tail < r.size)
  {
    WriteExact(r, r.SpaceTailLen());
  }

  class FbIo {
    const buf: array<byte>
    const size: nat
    const extraSize: nat
    var realSize: nat
    var head: int
    var tail: int
    var len: int

    function Counters(): Ring
      reads this
    {
      Ring(size, extraSize, realSize, head, tail, len)
    }

    ghost predicate Valid()
      reads this
    {
      Counters().Valid() && size + extraSize <= buf.Length
    }

    ghost function Queue(): bytes
      reads this, buf
      requires Valid()
    {
      Counters().Contents(buf[..])
    }

    constructor (size: nat, extraSize: nat)
      requires size > 0
      ensures Valid() && Queue() == [] && this.size == size && this.extraSize == extraSize && fresh(buf)
    {
      this.size, this.extraSize := size, extraSize;
      buf := new byte[size + extraSize](_ => 0);
      head, tail, len, realSize := 0, 0, 0, size;
    }

    /** fb_io_clear */
    method Clear()
      requires size > 0 && size + extraSize <= buf.Length
      modifies this
      ensures Valid() && Queue() == []
    {
      len, tail, head := 0, 0, 0;
      realSize := size;
    }

    method IncTail(n: nat) returns (r: int)
      modifies this
      ensures Counters() == old(Counters()).IncTail(n)
      ensures r == if n <= old(len) then n else -1
      ensures old(Valid()) && n > old(len) ==> Valid() && Queue() == old(Queue())
      ensures old(Valid()) && n <= old(len) ==> (Valid() <==> n <= old(Counters().DataLen()))
      ensures old(Valid()) && n <= old(Counters().DataLen()) ==> Queue() == old(Queue())[n..]
    {
      ghost var inOrder := Valid();
      if inOrder && n <= len {
        ReadExact(Counters(), n);
      }
      if inOrder && n <= Counters().DataLen() {
        Taken(Counters(), buf[..], n);
      }
      if len - n < 0 {
        return -1;
      }
      tail := tail + n;
      if tail >= realSize {
        tail := 0;
        realSize := size;
      }
      len := len - n;
      return n;
    }

    method IncHead(n: nat) returns (r: int)
      modifies this
      ensures Counters() == old(Counters()).IncHead(n)
      ensures r == if old(len) + n <= old(realSize) then n else -1
      ensures old(Valid()) && r == -1 ==> Valid() && Queue() == old(Queue())
      ensures old(Valid()) && r == n ==> (Valid() <==> old(Counters()).Fits(n))
      ensures old(Valid()) && r == n && Valid() ==>
                old(head) + n <= buf.Length && Queue() == old(Queue()) + buf[old(head)..old(head) + n]
    {
      if (len + n) > realSize {
        return -1;
      }
      hide Ring.Contents, Ring.Fits;
      if Valid() {
        WriteQueue(Counters(), buf[..], n);
      }
      head := head + n;
      if head >= realSize {
        head := 0;
      }
      len := len + n;
      return n;
    }

    method Resize(n: nat)
      modifies this
      ensures Counters() == old(Counters()).Resize(n)
      ensures old(Valid()) && n > 0 ==>
                (Valid() <==> !old(Counters().Wrapped()) || Counters() == old(Counters()))
      ensures old(Valid()) && n > 0 && Valid() ==> Queue() == old(Queue())
    {
      if Valid() && n > 0 {
        ResizeExact(Counters(), n);
        if !Counters().Wrapped() {
          Stretched(Counters(), buf[..], n);
        }
      }
      if head + n > size && head + n < size + extraSize {
        realSize := head + n;
      }
    }

    /** A transfer into the space at the head, and its end. */
    method Transfer(bs: bytes)
      requires Valid() && Counters().Fits(|bs|)
      modifies this, buf
      ensures Valid() && Queue() == old(Queue()) + bs
    {
      hide Ring.Contents;
      RoomFor(Counters(), |bs|);
      CopyIn(bs);
      var _ := IncHead(|bs|);
    }

    /** The bytes of a transfer arrive at the head. */
    method CopyIn(bs: bytes)
      requires Valid() && Counters().Fits(|bs|)
      modifies buf
      ensures Valid() && buf[head..head + |bs|] == bs && Queue() == old(Queue())
    {
      ghost var was := buf[..];
      forall i | 0 <= i < |bs| {
        buf[head + i] := bs[i];
      }
      Undisturbed(Counters(), was, buf[..], |bs|);
    }

    /** Reading from the tail. */
    method Read(n: nat) returns (bs: bytes)
      requires Valid() && n <= Counters().DataLen()
      modifies this
      ensures Valid() && bs + Queue() == old(Queue()) && |bs| == n
    {
      Taken(Counters(), buf[..], n);
      bs := buf[tail..tail + n];
      assert bs == buf[..][tail..tail + n] == Queue()[..n];
      Split(Queue(), n);
      hide Ring.Contents;
      var _ := IncTail(n);
    }
  }

  /** Writing in the space of a transfer leaves what is held. */
  lemma Undisturbed(r: Ring, a: bytes, b: bytes, n: nat)
    requires r.Valid() && r.realSize <= |a| == |b| && r.Fits(n)
    requires forall i :: 0 <= i < |a| && !(r.head <= i < r.head + n) ==> a[i] == b[i]
    ensures r.Contents(a) == r.Contents(b)
  {
  }
}
