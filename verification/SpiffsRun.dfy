/** Whole runs of the page cache: what the file system reads through it is what it would read from the
    flash without it. */
module SpiffsRun {
  import opened BitStrings
  import opened Bytes
  import opened SpiffsCache
  import opened SpiffsLayout
  import opened Wrappers

  datatype Cmd =
    | Rd(op: Op, addr: nat, len: nat)
    | Wr(op: Op, addr: nat, src: bytes)
    | Drop(pix: nat)
    | Erase(bix: nat, writes: seq<Write>)

  /** What the file system may ask for: accesses within a page, writes that only clear bits, whole blocks. */
  predicate Legal(flash: seq<bytes>, size: nat, perBlock: nat, cmd: Cmd) {
    && size > 0
    && match cmd
       case Rd(_, addr, len) => PageOf(addr, size) < |flash| && OffsetOf(addr, size) + len <= size
       case Wr(op, addr, src) =>
         && op.com != WrThru && PageOf(addr, size) < |flash| && OffsetOf(addr, size) + |src| <= |flash[PageOf(addr, size)]| == size
         && Exact(flash[PageOf(addr, size)], OffsetOf(addr, size), src)
       case Drop(_) => true
       case Erase(bix, writes) => bix * perBlock + perBlock <= |flash| && InBlock(size, perBlock, bix, writes)
  }

  function PlainStep(flash: seq<bytes>, size: nat, perBlock: nat, cmd: Cmd): (r: seq<bytes>)
    requires Legal(flash, size, perBlock, cmd)
    ensures |r| == |flash|
  {
    match cmd
    case Rd(_, _, _) => flash
    case Wr(_, addr, src) => PlainWrite(flash, size, addr, src)
    case Drop(_) => flash
    case Erase(bix, writes) => PlainErase(flash, size, perBlock, bix, writes)
  }

  /** What the reads of a run return when there is no cache. */
  function PlainOut(flash: seq<bytes>, size: nat, perBlock: nat, cmd: Cmd): bytes
    requires Legal(flash, size, perBlock, cmd) && forall p :: 0 <= p < |flash| ==> |flash[p]| == size
  {
    if cmd.Rd? then flash[PageOf(cmd.addr, size)][OffsetOf(cmd.addr, size)..OffsetOf(cmd.addr, size) + cmd.len] else []
  }

  lemma PlainStepSizes(flash: seq<bytes>, size: nat, perBlock: nat, cmd: Cmd)
    requires Legal(flash, size, perBlock, cmd) && forall p :: 0 <= p < |flash| ==> |flash[p]| == size
    ensures forall p :: 0 <= p < |flash| ==> |PlainStep(flash, size, perBlock, cmd)[p]| == size
  {
    if cmd.Erase? {
      ErasePagesSizes(flash, size, cmd.bix * perBlock, perBlock);
      PlainWritesSizes(ErasePages(flash, size, cmd.bix * perBlock, perBlock), size, cmd.writes);
    }
  }

  lemma {:induction false} ErasePagesSizes(flash: seq<bytes>, size: nat, first: nat, n: nat)
    requires first + n <= |flash| && forall p :: 0 <= p < |flash| ==> |flash[p]| == size
    ensures forall p :: 0 <= p < |flash| ==> |ErasePages(flash, size, first, n)[p]| == size
  {
    if n > 0 {
      ErasePagesSizes(flash, size, first, n - 1);
    }
  }

  lemma {:induction false} PlainWritesSizes(flash: seq<bytes>, size: nat, writes: seq<Write>)
    requires size > 0 && (forall i :: 0 <= i < |writes| ==> PageOf(writes[i].addr, size) < |flash|)
    requires forall p :: 0 <= p < |flash| ==> |flash[p]| == size
    ensures forall p :: 0 <= p < |flash| ==> |PlainWrites(flash, size, writes)[p]| == size
  {
    if writes != [] {
      PlainWritesSizes(flash, size, writes[..|writes| - 1]);
    }
  }

  predicate AllLegal(flash: seq<bytes>, size: nat, perBlock: nat, cmds: seq<Cmd>)
    decreases |cmds|
  {
    cmds == []
    || (Legal(flash, size, perBlock, cmds[0])
        && AllLegal(PlainStep(flash, size, perBlock, cmds[0]), size, perBlock, cmds[1..]))
  }

  function PlainRun(flash: seq<bytes>, size: nat, perBlock: nat, cmds: seq<Cmd>): (seq<bytes>, seq<bytes>)
    requires AllLegal(flash, size, perBlock, cmds) && forall p :: 0 <= p < |flash| ==> |flash[p]| == size
    decreases |cmds|
  {
    if cmds == [] then (flash, [])
    else
      PlainStepSizes(flash, size, perBlock, cmds[0]);
      var (f, outs) := PlainRun(PlainStep(flash, size, perBlock, cmds[0]), size, perBlock, cmds[1..]);
      (f, [PlainOut(flash, size, perBlock, cmds[0])] + outs)
  }

  /** A slot is free or holds a flash page; no counter is ahead of the cache's. */
  predicate Room(cs: seq<CPage>, last: nat) {
    && (exists i :: 0 <= i < |cs| && !cs[i].IsWrite())
    && forall i :: 0 <= i < |cs| ==> cs[i].lastAccess <= last
  }

  lemma RoomEvictable(cs: seq<CPage>, last: nat)
    requires Room(cs, last) && last + 1 < U32
    ensures Evictable(cs, last + 1)
  {
    var i :| 0 <= i < |cs| && !cs[i].IsWrite();
    assert !cs[i].used || (cs[i].IsRead() && Age(last + 1, cs[i]) > 0);
  }

  lemma RoomKept(was: seq<CPage>, cs: seq<CPage>, last: nat, mark: nat, now: nat)
    requires Room(was, last) && last <= now && mark <= now && WritePagesKept(was, cs) && Touched(was, cs, mark, now)
    ensures Room(cs, now)
  {
    var i :| 0 <= i < |was| && !was[i].IsWrite();
    assert !cs[i].IsWrite();
  }

  lemma CoherentAfterRead(was: seq<CPage>, cs: seq<CPage>, flash: seq<bytes>)
    requires Coherent(was, flash)
    requires forall p :: 0 <= p < |flash| && Copy(was, p) != Copy(cs, p) ==> Agrees(Copy(cs, p), flash[p])
    ensures Coherent(cs, flash)
  {
    hide Copy;
    forall p | 0 <= p < |flash| ensures Agrees(Copy(cs, p), flash[p]) {
      assert Agrees(Copy(was, p), flash[p]);
    }
  }

  lemma CoherentAfterWrite(was: seq<CPage>, cs: seq<CPage>, flash: seq<bytes>, size: nat, op: Op, addr: nat, src: bytes)
    requires Coherent(was, flash) && Legal(flash, size, 0, Wr(op, addr, src))
    requires forall p :: Copy(cs, p) ==
                         if p == PageOf(addr, size) then Written(op, Copy(was, p), OffsetOf(addr, size), src) else Copy(was, p)
    ensures Coherent(cs, PlainWrite(flash, size, addr, src))
  {
    hide Copy, Written, ProgramPage, Exact;
    var pix := PageOf(addr, size);
    assert Agrees(Copy(was, pix), flash[pix]);
    WriteCoherence(op, Copy(was, pix), flash[pix], OffsetOf(addr, size), src);
    var f := PlainWrite(flash, size, addr, src);
    forall p | 0 <= p < |f| ensures Agrees(Copy(cs, p), f[p]) {
      assert Agrees(Copy(was, p), flash[p]);
    }
  }

  method StepRead(c: Cache, op: Op, addr: nat, len: nat) returns (out: bytes)
    requires c.Valid() && Coherent(c.cpages, c.flash) && c.PageLocal(addr, len)
    requires Room(c.cpages, c.lastAccess) && c.lastAccess + 1 < U32
    modifies c
    ensures c.Valid() && Coherent(c.cpages, c.flash) && Room(c.cpages, c.lastAccess)
    ensures c.lastAccess == old(c.lastAccess) + 1 && WritePagesKept(old(c.cpages), c.cpages)
    ensures c.flash == old(c.flash) && out == c.flash[PageOf(addr, c.pageSize)][OffsetOf(addr, c.pageSize)..OffsetOf(addr, c.pageSize) + len]
  {
    hide Copy, ReadPages, Coherent, Room, WritePagesKept, Touched, Evictable;
    RoomEvictable(c.cpages, c.lastAccess);
    assert Next(c.lastAccess) == c.lastAccess + 1;
    CoherentAt(c.cpages, c.flash, PageOf(addr, c.pageSize));
    out := c.PhysRd(op, addr, len);
    CoherentAfterRead(old(c.cpages), c.cpages, c.flash);
    RoomKept(old(c.cpages), c.cpages, old(c.lastAccess), c.lastAccess, c.lastAccess);
  }

  method StepWrite(c: Cache, op: Op, addr: nat, src: bytes)
    requires c.Valid() && Coherent(c.cpages, c.flash)
    requires Legal(c.flash, c.pageSize, c.pagesPerBlock, Wr(op, addr, src))
    requires Room(c.cpages, c.lastAccess) && c.lastAccess + 1 < U32
    modifies c
    ensures c.Valid() && Coherent(c.cpages, c.flash) && Room(c.cpages, c.lastAccess)
    ensures c.lastAccess <= old(c.lastAccess) + 1 && WritePagesKept(old(c.cpages), c.cpages)
    ensures c.flash == PlainWrite(old(c.flash), c.pageSize, addr, src)
  {
    hide Copy, ReadPages, Coherent, Room, WritePagesKept, Touched, Written, ProgramPage, Exact;
    c.PhysWr(op, addr, src);
    CoherentAfterWrite(old(c.cpages), c.cpages, old(c.flash), c.pageSize, op, addr, src);
    RoomKept(old(c.cpages), c.cpages, old(c.lastAccess), old(c.lastAccess), c.lastAccess);
  }

  /** One command through the cache. */
  method Step(c: Cache, cmd: Cmd) returns (out: bytes)
    requires c.Valid() && Coherent(c.cpages, c.flash) && Legal(c.flash, c.pageSize, c.pagesPerBlock, cmd)
    requires Room(c.cpages, c.lastAccess) && c.lastAccess + 1 < U32
    modifies c
    ensures c.Valid() && Coherent(c.cpages, c.flash) && Room(c.cpages, c.lastAccess)
    ensures c.lastAccess <= old(c.lastAccess) + 1 && WritePagesKept(old(c.cpages), c.cpages)
    ensures c.flash == PlainStep(old(c.flash), c.pageSize, c.pagesPerBlock, cmd)
    ensures out == PlainOut(old(c.flash), c.pageSize, c.pagesPerBlock, cmd)
  {
    hide Copy, ReadPages, PlainErase, PlainWrite, Coherent, Room, WritePagesKept, Touched;
    out := [];
    match cmd {
      case Rd(op, addr, len) =>
        out := StepRead(c, op, addr, len);
      case Wr(op, addr, src) =>
        StepWrite(c, op, addr, src);
      case Drop(pix) =>
        c.DropPage(pix);
        CoherentAfterDrop(old(c.cpages), c.cpages, c.flash, pix);
        RoomKept(old(c.cpages), c.cpages, old(c.lastAccess), old(c.lastAccess), c.lastAccess);
      case Erase(bix, writes) =>
        BlockEnd(bix, c.pagesPerBlock);
        c.GcEraseBlock(bix, writes);
        RoomKept(old(c.cpages), c.cpages, old(c.lastAccess), old(c.lastAccess), c.lastAccess);
    }
  }

  lemma CoherentAt(cs: seq<CPage>, flash: seq<bytes>, p: nat)
    requires Coherent(cs, flash) && p < |flash|
    ensures Agrees(Copy(cs, p), flash[p])
  {
  }

  lemma CoherentAfterDrop(was: seq<CPage>, cs: seq<CPage>, flash: seq<bytes>, pix: nat)
    requires Coherent(was, flash)
    requires forall p :: Copy(cs, p) == if p == pix then None else Copy(was, p)
    ensures Coherent(cs, flash)
  {
    hide Copy;
    forall p | 0 <= p < |flash| ensures Agrees(Copy(cs, p), flash[p]) {
      assert Agrees(Copy(was, p), flash[p]);
    }
  }

  /** Every run reads the flash's bytes and leaves the flash as it would be without a cache, with the
      cache still agreeing with it. */
  method Run(c: Cache, cmds: seq<Cmd>) returns (outs: seq<bytes>)
    requires c.Valid() && Coherent(c.cpages, c.flash) && Room(c.cpages, c.lastAccess)
    requires AllLegal(c.flash, c.pageSize, c.pagesPerBlock, cmds) && c.lastAccess + |cmds| < U32
    modifies c
    ensures c.Valid() && Coherent(c.cpages, c.flash) && WritePagesKept(old(c.cpages), c.cpages)
    ensures (c.flash, outs) == PlainRun(old(c.flash), c.pageSize, c.pagesPerBlock, cmds)
    decreases |cmds|
  {
    hide Copy, ReadPages, Coherent, Room, PlainStep, PlainOut, Legal;
    outs := [];
    if cmds != [] {
      var out := Step(c, cmds[0]);
      var more := Run(c, cmds[1..]);
      outs := [out] + more;
    }
  }
}
