/** The page cache between SPIFFS and NOR flash: lookup, eviction, cached reads and write-through writes,
    and the pages dropped when a block is erased. */
module SpiffsCache {
  import opened Arith
  import opened BitStrings
  import opened Bytes
  import opened SpiffsLayout
  import opened Wrappers

  // ---------------------------------------------------------------- flash

  /** The 32-bit access counter, advanced. */
  function Next(last: nat): (r: nat)
    ensures r < U32
  {
    (last + 1) % U32
  }

  /** Programming NOR flash only clears bits. */
  function Program(was: bytes, src: bytes): (r: bytes)
    requires |was| == |src|
    ensures |r| == |src|
  {
    if src == [] then [] else [And(was[0], src[0])] + Program(was[1..], src[1..])
  }

  function Patch(page: bytes, off: nat, data: bytes): (r: bytes)
    ensures |r| == |page|
  {
    if off + |data| <= |page| then page[..off] + data + page[off + |data|..] else page
  }

  function ProgramPage(page: bytes, off: nat, src: bytes): (r: bytes)
    ensures |r| == |page|
  {
    if off + |src| <= |page| then Patch(page, off, Program(page[off..off + |src|], src)) else page
  }

  /** The data is stored as given: nothing in it needs a cleared bit set again. */
  predicate Exact(page: bytes, off: nat, src: bytes)
    requires off + |src| <= |page|
  {
    Program(page[off..off + |src|], src) == src
  }

  /** Two patches of one size differ if what they put in differs. */
  lemma PatchSame(page: bytes, off: nat, a: bytes, b: bytes)
    requires |a| == |b| && off + |a| <= |page|
    ensures Patch(page, off, a) == Patch(page, off, b) <==> a == b
  {
    assert Patch(page, off, a)[off..off + |a|] == a;
    assert Patch(page, off, b)[off..off + |b|] == b;
  }

  function Erased(n: nat): (r: bytes)
    ensures |r| == n
  {
    if n == 0 then [] else [0xFF] + Erased(n - 1)
  }

  // ---------------------------------------------------------------- operations

  datatype OpType = ObjLu | ObjLu2 | ObjIx | ObjDa

  datatype OpCom = Dele | Updt | Movs | Movd | Flsh | Read | WrThru

  datatype Op = Op(com: OpCom, typ: OpType)

  // ---------------------------------------------------------------- cache pages

  datatype Flags = Flags(dirty: bool, wrthru: bool, typeWr: bool)

  const NO_FLAGS := Flags(false, false, false)
  const READ_FLAGS := Flags(false, true, false)
  const WRITE_FLAGS := Flags(false, false, true)

  /** A page of a read cache is a copy of flash page `pix`; one of a write cache holds `size` bytes of
      object `objId`, from `offset` on. `used` is the page's bit of the use map. */
  datatype CPage = CPage(used: bool, flags: Flags, lastAccess: nat, pix: nat,
                         objId: nat, offset: nat, size: nat, mem: bytes) {
    predicate IsRead() {
      used && !flags.typeWr
    }

    predicate IsWrite() {
      used && flags.typeWr
    }

    predicate Holds(p: nat) {
      IsRead() && pix == p
    }
  }

  /** Read pages are clean and written through, each of another flash page. */
  predicate ReadPages(cs: seq<CPage>, pages: nat) {
    && (forall i :: 0 <= i < |cs| && cs[i].IsRead() ==> cs[i].flags == READ_FLAGS && cs[i].pix < pages)
    && (forall i, j :: 0 <= i < j < |cs| && cs[i].IsRead() && cs[j].IsRead() ==> cs[i].pix != cs[j].pix)
  }

  /** What the cache has of a flash page. */
  function Copy(cs: seq<CPage>, pix: nat): (m: Option<bytes>)
    ensures m == None ==> forall i :: 0 <= i < |cs| ==> !cs[i].Holds(pix)
    ensures m.Some? ==> exists i :: 0 <= i < |cs| && cs[i].Holds(pix) && cs[i].mem == m.value
  {
    if cs == [] then None
    else if cs[|cs| - 1].Holds(pix) then Some(cs[|cs| - 1].mem)
    else Copy(cs[..|cs| - 1], pix)
  }

  /** Whatever the cache has of a flash page is what the flash has. */
  predicate Agrees(m: Option<bytes>, page: bytes) {
    m == None || m == Some(page)
  }

  predicate Coherent(cs: seq<CPage>, flash: seq<bytes>) {
    forall p :: 0 <= p < |flash| ==> Agrees(Copy(cs, p), flash[p])
  }

  /** The slots with unflushed bytes of files are as they were. */
  predicate WritePagesKept(was: seq<CPage>, cs: seq<CPage>) {
    && |cs| == |was|
    && forall i :: 0 <= i < |cs| && (was[i].IsWrite() || cs[i].IsWrite()) ==> cs[i] == was[i]
  }

  /** Slots used since are marked with one of two counter values. */
  predicate Touched(was: seq<CPage>, cs: seq<CPage>, a: nat, b: nat) {
    |cs| == |was| && forall i :: 0 <= i < |cs| ==> cs[i].lastAccess == was[i].lastAccess || cs[i].lastAccess == a || cs[i].lastAccess == b
  }

  function Age(last: nat, cp: CPage): nat {
    (last - cp.lastAccess) % U32
  }

  /** A slot can be had: one is free, or one holds a flash page and the counter has moved since its use. */
  predicate Evictable(cs: seq<CPage>, last: nat) {
    exists i :: 0 <= i < |cs| && (!cs[i].used || (cs[i].IsRead() && Age(last, cs[i]) > 0))
  }

  lemma CopyIs(cs: seq<CPage>, ix: nat, pages: nat)
    requires ix < |cs| && ReadPages(cs, pages) && cs[ix].IsRead()
    ensures Copy(cs, cs[ix].pix) == Some(cs[ix].mem)
  {
    var m := Copy(cs, cs[ix].pix);
    assert cs[ix].Holds(cs[ix].pix);
    var i :| 0 <= i < |cs| && cs[i].Holds(cs[ix].pix) && cs[i].mem == m.value;
    assert i == ix;
  }

  lemma ReadPageAt(cs: seq<CPage>, ix: nat, pages: nat)
    requires ix < |cs| && ReadPages(cs, pages) && cs[ix].IsRead()
    ensures cs[ix].flags == READ_FLAGS && cs[ix].pix < pages
  {
  }

  /** What changing one slot does to what is cached. */
  lemma SlotSet(cs: seq<CPage>, ix: nat, cp: CPage, pages: nat)
    requires ix < |cs| && ReadPages(cs, pages)
    requires cp.IsRead() ==> cp.flags == READ_FLAGS && cp.pix < pages && (cs[ix].Holds(cp.pix) || Copy(cs, cp.pix) == None)
    ensures ReadPages(cs[ix := cp], pages)
    ensures forall p :: Copy(cs[ix := cp], p) ==
                        if cp.Holds(p) then Some(cp.mem) else if cs[ix].Holds(p) then None else Copy(cs, p)
  {
    var ds := cs[ix := cp];
    hide Copy;
    assert ReadPages(ds, pages);
    forall p ensures Copy(ds, p) == if cp.Holds(p) then Some(cp.mem) else if cs[ix].Holds(p) then None else Copy(cs, p) {
      if cp.Holds(p) {
        CopyIs(ds, ix, pages);
      } else if Copy(ds, p).Some? {
        var i :| 0 <= i < |ds| && ds[i].Holds(p) && ds[i].mem == Copy(ds, p).value;
        assert i != ix && cs[i].Holds(p);
        CopyIs(cs, i, pages);
      } else if Copy(cs, p).Some? {
        var i :| 0 <= i < |cs| && cs[i].Holds(p) && cs[i].mem == Copy(cs, p).value;
        assert !ds[i].Holds(p);
      }
    }
  }

  /** What a write makes of the cached copy of its page. */
  function Written(op: Op, m: Option<bytes>, off: nat, src: bytes): Option<bytes>
  {
    if m == None || op.com == WrThru then m
    else if op.com == Dele && op.typ != ObjLu then None
    else Some(Patch(m.value, off, src))
  }

  class Cache {
    const pageSize: nat
    const pagesPerBlock: nat
    var flash: seq<bytes>
    var cpages: seq<CPage>
    var lastAccess: nat

    ghost predicate Shape()
      reads this
    {
      && pageSize > 0 && pagesPerBlock > 0 && lastAccess < U32
      && (forall p :: 0 <= p < |flash| ==> |flash[p]| == pageSize)
      && (forall i :: 0 <= i < |cpages| ==> |cpages[i].mem| == pageSize && cpages[i].lastAccess < U32)
    }

    ghost predicate Valid()
      reads this
    {
      Shape() && ReadPages(cpages, |flash|)
    }

    predicate PageLocal(addr: nat, len: nat)
      reads this
    {
      pageSize > 0 && PageOf(addr, pageSize) < |flash| && OffsetOf(addr, pageSize) + len <= pageSize
    }

    // -------------------------------------------------------------- the flash driver

    method HalRead(addr: nat, len: nat) returns (dst: bytes)
      requires Shape() && PageLocal(addr, len)
      ensures dst == flash[PageOf(addr, pageSize)][OffsetOf(addr, pageSize)..OffsetOf(addr, pageSize) + len]
    {
      dst := flash[PageOf(addr, pageSize)][OffsetOf(addr, pageSize)..OffsetOf(addr, pageSize) + len];
    }

    method HalWrite(addr: nat, src: bytes)
      requires Shape() && PageLocal(addr, |src|)
      modifies this`flash
      ensures Shape()
      ensures var p := PageOf(addr, pageSize); flash == old(flash)[p := ProgramPage(old(flash[p]), OffsetOf(addr, pageSize), src)]
    {
      var p := PageOf(addr, pageSize);
      flash := flash[p := ProgramPage(flash[p], OffsetOf(addr, pageSize), src)];
    }

    // -------------------------------------------------------------- slots

    /** spiffs_cache_page_get */
    method PageGet(pix: nat) returns (ix: int)
      requires Valid()
      modifies this`cpages
      ensures Valid() && -1 <= ix < |cpages| == |old(cpages)| && (ix >= 0 <==> Copy(old(cpages), pix).Some?)
      ensures ix < 0 ==> cpages == old(cpages)
      ensures ix >= 0 ==> old(cpages)[ix].Holds(pix) && cpages[ix].flags == READ_FLAGS && pix < |flash|
      ensures ix >= 0 ==> cpages == old(cpages)[ix := old(cpages)[ix].(lastAccess := lastAccess)]
      ensures ix >= 0 ==> Copy(old(cpages), pix) == Some(cpages[ix].mem)
      ensures forall p :: Copy(cpages, p) == Copy(old(cpages), p)
    {
      hide Copy;
      var i: nat := 0;
      while i < |cpages|
        invariant i <= |cpages| && cpages == old(cpages)
        invariant forall k :: 0 <= k < i ==> !cpages[k].Holds(pix)
      {
        if cpages[i].used && !cpages[i].flags.typeWr && cpages[i].pix == pix {
          CopyIs(cpages, i, |flash|);
          cpages := cpages[i := cpages[i].(lastAccess := lastAccess)];
          SlotSet(old(cpages), i, cpages[i], |flash|);
          return i;
        }
        i := i + 1;
      }
      return -1;
    }

    /** spiffs_cache_page_free: a dirty read page is written back if asked for. */
    method PageFree(ix: nat, writeBack: bool)
      requires Shape() && ix < |cpages| && (cpages[ix].IsRead() ==> cpages[ix].pix < |flash|)
      modifies this`cpages, this`flash
      ensures Shape()
      ensures cpages == old(cpages)[ix := if old(cpages[ix].used) then old(cpages[ix]).(used := false, flags := NO_FLAGS)
                                          else old(cpages[ix])]
      ensures var cp := old(cpages[ix]);
              flash == if writeBack && cp.IsRead() && cp.flags.dirty
                       then old(flash)[cp.pix := Program(old(flash[cp.pix]), cp.mem)] else old(flash)
    {
      if cpages[ix].used {
        if writeBack && !cpages[ix].flags.typeWr && cpages[ix].flags.dirty {
          flash := flash[cpages[ix].pix := Program(flash[cpages[ix].pix], cpages[ix].mem)];
        }
        cpages := cpages[ix := cpages[ix].(used := false, flags := NO_FLAGS)];
      }
    }

    /** (cpage_use_map & cpage_use_mask) == cpage_use_mask */
    method AllInUse() returns (full: bool)
      ensures full <==> forall i :: 0 <= i < |cpages| ==> cpages[i].used
    {
      var i := 0;
      while i < |cpages|
        invariant 0 <= i <= |cpages| && forall k :: 0 <= k < i ==> cpages[k].used
      {
        if !cpages[i].used {
          return false;
        }
        i := i + 1;
      }
      return true;
    }

    /** spiffs_cache_page_remove_oldest, for the read pages: when no slot is free, frees the one used
        longest ago, and never one with unflushed bytes of a file. */
    method RemoveOldest() returns (ghost c: int)
      requires Valid()
      modifies this`cpages, this`flash
      ensures Valid() && flash == old(flash) && -1 <= c < |cpages| == |old(cpages)|
      ensures c < 0 ==> cpages == old(cpages)
      ensures c >= 0 ==> (forall i :: 0 <= i < |cpages| ==> old(cpages)[i].used) && old(cpages)[c].IsRead()
                         && cpages == old(cpages)[c := old(cpages)[c].(used := false, flags := NO_FLAGS)]
      ensures c >= 0 ==> forall i :: 0 <= i < |cpages| && old(cpages)[i].IsRead() ==>
                                       Age(lastAccess, old(cpages)[i]) <= Age(lastAccess, old(cpages)[c])
      ensures Evictable(old(cpages), lastAccess) <==> exists i :: 0 <= i < |cpages| && !cpages[i].used
    {
      c := -1;
      var full := AllInUse();
      if !full {
        return;
      }
      var i, candIx, oldestVal := 0, -1, 0;
      while i < |cpages|
        invariant 0 <= i <= |cpages| && -1 <= candIx < i
        invariant if candIx < 0 then oldestVal == 0
                  else cpages[candIx].IsRead() && oldestVal == Age(lastAccess, cpages[candIx]) > 0
        invariant forall k :: 0 <= k < i && cpages[k].IsRead() ==> Age(lastAccess, cpages[k]) <= oldestVal
      {
        if Age(lastAccess, cpages[i]) > oldestVal && !cpages[i].flags.typeWr {
          oldestVal := Age(lastAccess, cpages[i]);
          candIx := i;
        }
        i := i + 1;
      }
      if candIx >= 0 {
        c := candIx;
        SlotSet(cpages, candIx, cpages[candIx].(used := false, flags := NO_FLAGS), |flash|);
        PageFree(candIx, true);
        assert !cpages[candIx].used;
      }
    }

    /** spiffs_cache_page_allocate */
    method Allocate() returns (ix: int)
      requires Shape()
      modifies this`cpages
      ensures Shape() && -1 <= ix < |cpages| == |old(cpages)|
      ensures ix < 0 ==> cpages == old(cpages) && forall i :: 0 <= i < |cpages| ==> cpages[i].used
      ensures ix >= 0 ==> !old(cpages)[ix].used
                          && cpages == old(cpages)[ix := old(cpages)[ix].(used := true, lastAccess := lastAccess)]
    {
      var i := 0;
      while i < |cpages|
        invariant 0 <= i <= |cpages| && cpages == old(cpages)
        invariant forall k :: 0 <= k < i ==> cpages[k].used
      {
        if !cpages[i].used {
          cpages := cpages[i := cpages[i].(used := true, lastAccess := lastAccess)];
          return i;
        }
        i := i + 1;
      }
      return -1;
    }

    /** spiffs_cache_drop_page */
    method DropPage(pix: nat)
      requires Valid()
      modifies this`cpages, this`flash
      ensures Valid() && flash == old(flash) && WritePagesKept(old(cpages), cpages)
      ensures Touched(old(cpages), cpages, lastAccess, lastAccess)
      ensures forall p :: Copy(cpages, p) == if p == pix then None else Copy(old(cpages), p)
    {
      hide Copy;
      var ix := PageGet(pix);
      ghost var got := cpages;
      if ix >= 0 {
        PageFree(ix, false);
        SlotSet(got, ix, cpages[ix], |flash|);
      }
    }

    /** The page that an address is in, read from the flash. */
    method HalReadPage(addr: nat) returns (mem: bytes)
      requires Shape() && PageLocal(addr, 0)
      ensures mem == flash[PageOf(addr, pageSize)]
    {
      PageStart(addr, pageSize);
      assert |flash[PageOf(addr, pageSize)]| == pageSize;
      mem := HalRead(addr - OffsetOf(addr, pageSize), pageSize);
    }

    /** A slot for a flash page that is not cached, filled from the flash. */
    method Fill(addr: nat) returns (ix: int)
      requires Valid() && PageLocal(addr, 0) && Copy(cpages, PageOf(addr, pageSize)) == None
      requires exists i :: 0 <= i < |cpages| && !cpages[i].used
      modifies this`cpages
      ensures Valid() && 0 <= ix < |cpages| == |old(cpages)| && !old(cpages)[ix].used
      ensures cpages[ix].Holds(PageOf(addr, pageSize)) && cpages[ix].mem == flash[PageOf(addr, pageSize)]
      ensures cpages[ix].lastAccess == lastAccess && cpages == old(cpages)[ix := cpages[ix]]
      ensures forall p :: Copy(cpages, p) ==
                          if p == PageOf(addr, pageSize) then Some(flash[PageOf(addr, pageSize)]) else Copy(old(cpages), p)
    {
      hide Copy, ReadPages, PageOf, OffsetOf, Next;
      ghost var pix := PageOf(addr, pageSize);
      ix := Allocate();
      cpages := cpages[ix := cpages[ix].(flags := READ_FLAGS, pix := PageOf(addr, pageSize))];
      var mem := HalReadPage(addr);
      cpages := cpages[ix := cpages[ix].(mem := mem)];
      assert cpages == old(cpages)[ix := cpages[ix]];
      SlotSet(old(cpages), ix, cpages[ix], |flash|);
    }

    /** The miss of spiffs_phys_rd: a slot is taken, from the oldest read page if need be, and filled. */
    method Load(addr: nat) returns (ix: int)
      requires Valid() && PageLocal(addr, 0) && Copy(cpages, PageOf(addr, pageSize)) == None
      requires Evictable(cpages, lastAccess)
      modifies this`cpages, this`flash
      ensures Valid() && flash == old(flash) && WritePagesKept(old(cpages), cpages)
      ensures Touched(old(cpages), cpages, lastAccess, lastAccess)
      ensures 0 <= ix < |cpages| && cpages[ix].Holds(PageOf(addr, pageSize)) && cpages[ix].mem == flash[PageOf(addr, pageSize)]
      ensures forall p :: Copy(cpages, p) == if p == PageOf(addr, pageSize) then Some(flash[PageOf(addr, pageSize)]) else
                            if Copy(cpages, p) == None then None else Copy(old(cpages), p)
    {
      hide Copy, ReadPages, PageOf, OffsetOf, Next;
      ghost var c := RemoveOldest();
      ghost var mid := cpages;
      if c >= 0 {
        SlotSet(old(cpages), c, cpages[c], |flash|);
        assert mid == old(cpages)[c := mid[c]];
      }
      ix := Fill(addr);
    }

    /** spiffs_phys_rd. On a cached page the bytes are the cache's, on any other the flash's; every page
        cached afterwards is as it was, or is a copy of the flash. */
    method PhysRd(op: Op, addr: nat, len: nat) returns (dst: bytes)
      requires Valid() && PageLocal(addr, len)
      requires Copy(cpages, PageOf(addr, pageSize)) == None && op.typ != ObjLu2 ==> Evictable(cpages, Next(lastAccess))
      modifies this`cpages, this`flash, this`lastAccess
      ensures Valid() && flash == old(flash) && WritePagesKept(old(cpages), cpages)
      ensures Touched(old(cpages), cpages, lastAccess, lastAccess)
      ensures lastAccess == Next(old(lastAccess))
      ensures var page, off := PageOf(addr, pageSize), OffsetOf(addr, pageSize);
              dst == (match Copy(old(cpages), page) case Some(m) => m case None => flash[page])[off..off + len]
      ensures forall p :: 0 <= p < |flash| && Copy(old(cpages), p) != Copy(cpages, p) ==> Agrees(Copy(cpages, p), flash[p])
    {
      hide Copy, ReadPages, PageOf, OffsetOf, Next;
      var pix := PageOf(addr, pageSize);
      var ix := PageGet(pix);
      ghost var got := cpages;
      lastAccess := Next(lastAccess);
      if ix >= 0 {
        cpages := cpages[ix := cpages[ix].(lastAccess := lastAccess)];
        SlotSet(got, ix, cpages[ix], |flash|);
      } else {
        if op.typ == ObjLu2 {
          dst := HalRead(addr, len);
          return;
        }
        ix := Load(addr);
      }
      dst := cpages[ix].mem[OffsetOf(addr, pageSize)..OffsetOf(addr, pageSize) + len];
    }

    /** A write to a cached page: into the cache, and through it to the flash. */
    method WriteCached(ix: nat, addr: nat, src: bytes)
      requires Valid() && PageLocal(addr, |src|) && ix < |cpages| && cpages[ix].Holds(PageOf(addr, pageSize))
      modifies this`cpages, this`flash, this`lastAccess
      ensures Valid() && WritePagesKept(old(cpages), cpages) && lastAccess == Next(old(lastAccess))
      ensures Touched(old(cpages), cpages, lastAccess, lastAccess)
      ensures var p, off := PageOf(addr, pageSize), OffsetOf(addr, pageSize); flash == old(flash)[p := ProgramPage(old(flash)[p], off, src)]
      ensures forall p :: Copy(cpages, p) == if p == PageOf(addr, pageSize)
                          then Some(Patch(old(cpages)[ix].mem, OffsetOf(addr, pageSize), src)) else Copy(old(cpages), p)
    {
      hide Copy, ReadPages, Patch, ProgramPage, PageOf, OffsetOf, Next;
      ReadPageAt(cpages, ix, |flash|);
      cpages := cpages[ix := cpages[ix].(mem := Patch(cpages[ix].mem, OffsetOf(addr, pageSize), src))];
      lastAccess := Next(lastAccess);
      cpages := cpages[ix := cpages[ix].(lastAccess := lastAccess)];
      assert cpages == old(cpages)[ix := cpages[ix]];
      SlotSet(old(cpages), ix, cpages[ix], |flash|);
      if cpages[ix].flags.wrthru {
        HalWrite(addr, src);
      }
    }

    /** spiffs_phys_wr. The flash always takes the write; a cached page takes it as given, unless the
        operation bypasses the cache, or deletes the page and drops it from the cache. */
    method PhysWr(op: Op, addr: nat, src: bytes)
      requires Valid() && PageLocal(addr, |src|)
      modifies this`cpages, this`flash, this`lastAccess
      ensures Valid() && WritePagesKept(old(cpages), cpages)
      ensures lastAccess == old(lastAccess) || (op.com != WrThru && lastAccess == Next(old(lastAccess)))
      ensures Touched(old(cpages), cpages, old(lastAccess), lastAccess)
      ensures var p, off := PageOf(addr, pageSize), OffsetOf(addr, pageSize); flash == old(flash)[p := ProgramPage(old(flash)[p], off, src)]
      ensures forall p :: Copy(cpages, p) == if p == PageOf(addr, pageSize)
                          then Written(op, Copy(old(cpages), p), OffsetOf(addr, pageSize), src) else Copy(old(cpages), p)
    {
      hide Copy, ReadPages, Patch, ProgramPage, PageOf, OffsetOf, Next;
      var pix := PageOf(addr, pageSize);
      var ix := PageGet(pix);
      ghost var got := cpages;
      if ix >= 0 && op.com != WrThru {
        if op.com == Dele && op.typ != ObjLu {
          PageFree(ix, false);
          SlotSet(got, ix, cpages[ix], |flash|);
          HalWrite(addr, src);
          return;
        }
        WriteCached(ix, addr, src);
      } else {
        HalWrite(addr, src);
      }
    }

    // -------------------------------------------------------------- slots with unflushed bytes of files

    /** spiffs_cache_page_get_by_fd */
    method PageGetByFd(objId: nat) returns (ix: int)
      ensures -1 <= ix < |cpages| && (ix >= 0 ==> cpages[ix].IsWrite() && cpages[ix].objId == objId)
      ensures ix < 0 ==> forall i :: 0 <= i < |cpages| && cpages[i].IsWrite() ==> cpages[i].objId != objId
    {
      var i := 0;
      while i < |cpages|
        invariant 0 <= i <= |cpages|
        invariant forall k :: 0 <= k < i && cpages[k].IsWrite() ==> cpages[k].objId != objId
      {
        if cpages[i].used && cpages[i].flags.typeWr && cpages[i].objId == objId {
          return i;
        }
        i := i + 1;
      }
      return -1;
    }

    /** spiffs_cache_page_allocate_by_fd: may find no slot, when none is free and no read page has aged. */
    method AllocateByFd(objId: nat, offset: nat) returns (ix: int)
      requires Valid()
      modifies this`cpages, this`flash
      ensures Valid() && flash == old(flash) && -1 <= ix < |cpages| == |old(cpages)|
      ensures ix < 0 <==> !Evictable(old(cpages), lastAccess)
      ensures ix < 0 ==> cpages == old(cpages)
      ensures ix >= 0 ==> cpages[ix].IsWrite() && cpages[ix].objId == objId && cpages[ix].offset == offset
                          && cpages[ix].size == 0 && !old(cpages)[ix].IsWrite()
                          && WritePagesKept(old(cpages)[ix := cpages[ix]], cpages)
    {
      hide Copy, ReadPages;
      ghost var c := RemoveOldest();
      ghost var mid := cpages;
      ix := Allocate();
      if ix >= 0 {
        cpages := cpages[ix := cpages[ix].(flags := WRITE_FLAGS, objId := objId, offset := offset, size := 0)];
        assert cpages == mid[ix := cpages[ix]];
        SlotSet(mid, ix, cpages[ix], |flash|);
      }
    }

    /** Bytes of a file, stored in its slot. */
    method Store(ix: nat, at: nat, src: bytes)
      requires Valid() && ix < |cpages| && cpages[ix].IsWrite() && at + |src| <= pageSize
      modifies this`cpages
      ensures Valid()
      ensures var cp := old(cpages)[ix];
              cpages == old(cpages)[ix := cp.(mem := Patch(cp.mem, at, src),
                                              size := if cp.size > at + |src| then cp.size else at + |src|)]
    {
      hide Copy, ReadPages, Patch;
      var cp := cpages[ix];
      cpages := cpages[ix := cp.(mem := Patch(cp.mem, at, src),
                                 size := if cp.size > at + |src| then cp.size else at + |src|)];
      SlotSet(old(cpages), ix, cpages[ix], |flash|);
    }

    /** The end of spiffs_cache_fd_release: the slot is free, and nobody's. */
    method Release(ix: nat)
      requires Valid() && ix < |cpages| && cpages[ix].IsWrite()
      modifies this`cpages, this`flash
      ensures Valid() && flash == old(flash)
      ensures cpages == old(cpages)[ix := old(cpages)[ix].(used := false, flags := NO_FLAGS, objId := 0)]
    {
      hide Copy, ReadPages;
      PageFree(ix, false);
      cpages := cpages[ix := cpages[ix].(objId := 0)];
      assert cpages == old(cpages)[ix := cpages[ix]];
      SlotSet(old(cpages), ix, cpages[ix], |flash|);
    }

    // -------------------------------------------------------------- erasing

    /** hal_erase of a block */
    method HalErase(first: nat)
      requires Valid() && first + pagesPerBlock <= |flash|
      modifies this`flash
      ensures Valid() && flash == ErasePages(old(flash), pageSize, first, pagesPerBlock)
    {
      hide Copy, ReadPages;
      var i: nat := 0;
      while i < pagesPerBlock
        invariant i <= pagesPerBlock && Valid()
        invariant |flash| == |old(flash)| && flash == ErasePages(old(flash), pageSize, first, i)
      {
        flash := flash[first + i := Erased(pageSize)];
        i := i + 1;
      }
    }

    /** spiffs_erase_block, as the cache sees it: the pages are erased, and then some words of the block
        are written past the cache. */
    method EraseFlash(bix: nat, writes: seq<Write>)
      requires Valid() && (bix + 1) * pagesPerBlock <= |flash|
      requires InBlock(pageSize, pagesPerBlock, bix, writes)
      modifies this`cpages, this`flash, this`lastAccess
      ensures Valid() && WritePagesKept(old(cpages), cpages) && lastAccess == old(lastAccess)
      ensures Touched(old(cpages), cpages, lastAccess, lastAccess)
      ensures flash == PlainErase(old(flash), pageSize, pagesPerBlock, bix, writes)
      ensures forall p :: Copy(cpages, p) == Copy(old(cpages), p)
    {
      hide Copy, ReadPages, ProgramPage, PageOf, OffsetOf, Next, ErasePages;
      BlockEnd(bix, pagesPerBlock);
      HalErase(bix * pagesPerBlock);
      ghost var erased, first := flash, bix * pagesPerBlock;
      var i: nat := 0;
      assert writes[..0] == [];
      while i < |writes|
        invariant i <= |writes| && Valid() && lastAccess == old(lastAccess)
        invariant WritePagesKept(old(cpages), cpages) && Touched(old(cpages), cpages, lastAccess, lastAccess)
        invariant |flash| == |erased| && flash == PlainWrites(erased, pageSize, writes[..i])
        invariant forall p :: Copy(cpages, p) == Copy(old(cpages), p)
      {
        assert writes[..i + 1][..i] == writes[..i];
        PhysWr(Op(WrThru, ObjLu2), writes[i].addr, writes[i].src);
        i := i + 1;
      }
      assert writes[..i] == writes;
    }

    /** spiffs_gc_erase_block: whatever the erase made stale is dropped. */
    method GcEraseBlock(bix: nat, writes: seq<Write>)
      requires Valid() && Coherent(cpages, flash) && (bix + 1) * pagesPerBlock <= |flash|
      requires InBlock(pageSize, pagesPerBlock, bix, writes)
      modifies this`cpages, this`flash, this`lastAccess
      ensures Valid() && Coherent(cpages, flash)
      ensures WritePagesKept(old(cpages), cpages) && lastAccess == old(lastAccess)
      ensures Touched(old(cpages), cpages, lastAccess, lastAccess)
      ensures flash == PlainErase(old(flash), pageSize, pagesPerBlock, bix, writes)
    {
      hide Copy, ReadPages, PlainErase;
      EraseFlash(bix, writes);
      PlainEraseElsewhere(old(flash), pageSize, pagesPerBlock, bix, writes);
      ghost var erased := cpages;
      var first: nat := bix * pagesPerBlock;
      var i: nat := 0;
      while i < pagesPerBlock
        invariant i <= pagesPerBlock && Valid() && lastAccess == old(lastAccess)
        invariant flash == PlainErase(old(flash), pageSize, pagesPerBlock, bix, writes)
        invariant WritePagesKept(old(cpages), cpages) && Touched(old(cpages), cpages, lastAccess, lastAccess)
        invariant forall p: nat :: Copy(cpages, p) == if first <= p < first + i then None else Copy(erased, p)
      {
        DropPage(first + i);
        i := i + 1;
      }
    }
  }

  lemma BlockEnd(bix: nat, n: nat)
    ensures (bix + 1) * n == bix * n + n
  {
  }

  // ---------------------------------------------------------------- the same flash without a cache

  datatype Write = Write(addr: nat, src: bytes)

  function PlainWrite(flash: seq<bytes>, size: nat, addr: nat, src: bytes): (r: seq<bytes>)
    requires size > 0 && PageOf(addr, size) < |flash|
    ensures |r| == |flash|
  {
    flash[PageOf(addr, size) := ProgramPage(flash[PageOf(addr, size)], OffsetOf(addr, size), src)]
  }

  predicate InBlock(size: nat, perBlock: nat, bix: nat, writes: seq<Write>) {
    && size > 0
    && forall i :: 0 <= i < |writes| ==>
         && bix * perBlock <= PageOf(writes[i].addr, size) < bix * perBlock + perBlock
         && OffsetOf(writes[i].addr, size) + |writes[i].src| <= size
  }

  function PlainWrites(flash: seq<bytes>, size: nat, writes: seq<Write>): (r: seq<bytes>)
    requires size > 0 && forall i :: 0 <= i < |writes| ==> PageOf(writes[i].addr, size) < |flash|
    ensures |r| == |flash|
  {
    if writes == [] then flash
    else
      var w := writes[|writes| - 1];
      PlainWrite(PlainWrites(flash, size, writes[..|writes| - 1]), size, w.addr, w.src)
  }

  function ErasePages(flash: seq<bytes>, size: nat, first: nat, n: nat): (r: seq<bytes>)
    requires first + n <= |flash|
    ensures |r| == |flash|
  {
    if n == 0 then flash else ErasePages(flash, size, first, n - 1)[first + n - 1 := Erased(size)]
  }

  function PlainErase(flash: seq<bytes>, size: nat, perBlock: nat, bix: nat, writes: seq<Write>): (r: seq<bytes>)
    requires bix * perBlock + perBlock <= |flash| && InBlock(size, perBlock, bix, writes)
    ensures |r| == |flash|
  {
    PlainWrites(ErasePages(flash, size, bix * perBlock, perBlock), size, writes)
  }

  /** All pages of an erased block are blank. */
  lemma {:induction false} ErasePagesAll(flash: seq<bytes>, size: nat, first: nat, n: nat)
    requires first + n <= |flash|
    ensures forall p :: first <= p < first + n ==> ErasePages(flash, size, first, n)[p] == Erased(size)
  {
    if n > 0 {
      ErasePagesAll(flash, size, first, n - 1);
    }
  }

  lemma {:induction false} ErasePagesElsewhere(flash: seq<bytes>, size: nat, first: nat, n: nat)
    requires first + n <= |flash|
    ensures forall p :: 0 <= p < |flash| && !(first <= p < first + n) ==> ErasePages(flash, size, first, n)[p] == flash[p]
  {
    if n > 0 {
      ErasePagesElsewhere(flash, size, first, n - 1);
    }
  }

  lemma {:induction false} PlainWritesElsewhere(flash: seq<bytes>, size: nat, perBlock: nat, bix: nat, writes: seq<Write>)
    requires bix * perBlock + perBlock <= |flash| && InBlock(size, perBlock, bix, writes)
    ensures forall p :: 0 <= p < |flash| && !(bix * perBlock <= p < bix * perBlock + perBlock) ==>
                          PlainWrites(flash, size, writes)[p] == flash[p]
  {
    if writes != [] {
      PlainWritesElsewhere(flash, size, perBlock, bix, writes[..|writes| - 1]);
    }
  }

  lemma PlainEraseElsewhere(flash: seq<bytes>, size: nat, perBlock: nat, bix: nat, writes: seq<Write>)
    requires bix * perBlock + perBlock <= |flash| && InBlock(size, perBlock, bix, writes)
    ensures forall p :: 0 <= p < |flash| && !(bix * perBlock <= p < bix * perBlock + perBlock) ==>
                          PlainErase(flash, size, perBlock, bix, writes)[p] == flash[p]
  {
    ErasePagesElsewhere(flash, size, bix * perBlock, perBlock);
    PlainWritesElsewhere(ErasePages(flash, size, bix * perBlock, perBlock), size, perBlock, bix, writes);
  }

  lemma PatchNothing(page: bytes, off: nat, n: nat)
    requires off + n <= |page|
    ensures Patch(page, off, page[off..off + n]) == page
  {
  }

  /** A write leaves the cached copy of its page equal to the flash exactly when the data is stored as
      given, or the copy is dropped, or the write past the cache changes nothing. */
  lemma WriteCoherence(op: Op, m: Option<bytes>, page: bytes, off: nat, src: bytes)
    requires Agrees(m, page) && off + |src| <= |page|
    ensures Agrees(Written(op, m, off, src), ProgramPage(page, off, src)) <==>
              || m == None
              || (op.com == Dele && op.typ != ObjLu)
              || (if op.com == WrThru then Program(page[off..off + |src|], src) == page[off..off + |src|]
                  else Exact(page, off, src))
  {
    hide Program;
    var was := page[off..off + |src|];
    PatchSame(page, off, Program(was, src), src);
    PatchSame(page, off, Program(was, src), was);
    PatchNothing(page, off, |src|);
    hide Patch;
  }
}
