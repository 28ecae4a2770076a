/** One descriptor of SPIFFS with its write-back cache page, against a plain byte file. */
module SpiffsFile {
  import opened Arith
  import opened BitStrings
  import opened Bytes
  import opened SpiffsCache
  import opened SpiffsLayout

  // ---------------------------------------------------------------- a plain byte file

  /** The bytes after writing `chunk` at `pos`. */
  function Put(data: bytes, pos: nat, chunk: bytes): (r: bytes)
    requires pos <= |data|
    ensures |r| == if pos + |chunk| > |data| then pos + |chunk| else |data|
  {
    data[..pos] + chunk + if pos + |chunk| <= |data| then data[pos + |chunk|..] else []
  }

  lemma PutAt(data: bytes, pos: nat, chunk: bytes, k: nat)
    requires pos <= |data| && k < |Put(data, pos, chunk)|
    ensures Put(data, pos, chunk)[k] == if pos <= k < pos + |chunk| then chunk[k - pos] else data[k]
  {
  }

  /** Writing inside what was just written is writing it differently. */
  lemma PutPut(data: bytes, pos: nat, m: bytes, at: nat, b: bytes)
    requires pos <= |data| && at <= |m|
    ensures Put(data, pos, Put(m, at, b)) == Put(Put(data, pos, m), pos + at, b)
  {
    var l, r := Put(data, pos, Put(m, at, b)), Put(Put(data, pos, m), pos + at, b);
    hide Put;
    assert |l| == |r|;
    forall k | 0 <= k < |l| ensures l[k] == r[k] {
      PutAt(data, pos, Put(m, at, b), k);
      PutAt(Put(data, pos, m), pos + at, b, k);
      if pos <= k < pos + |Put(m, at, b)| {
        PutAt(m, at, b, k - pos);
      }
      if k < |Put(data, pos, m)| {
        PutAt(data, pos, m, k);
      }
    }
  }

  /** A second identical write changes nothing. */
  lemma PutTwice(data: bytes, pos: nat, b: bytes)
    requires pos <= |data|
    ensures Put(Put(data, pos, b), pos, b) == Put(data, pos, b)
  {
    assert Put(b, 0, b) == b;
    PutPut(data, pos, b, 0, b);
  }

  lemma PutNothing(data: bytes, pos: nat)
    requires pos <= |data|
    ensures Put(data, pos, []) == data
  {
  }

  // ---------------------------------------------------------------- numbers

  const S32_MAX := 0x7FFF_FFFF
  const UNDEFINED_LEN := 0xFFFF_FFFF

  /** A value stored in a signed 32-bit variable */
  function ToS32(x: int): (r: int)
    ensures -0x8000_0000 <= r <= S32_MAX
    ensures -0x8000_0000 <= x <= S32_MAX ==> r == x
  {
    (x + 0x8000_0000) % U32 - 0x8000_0000
  }

  datatype Error = EndOfObject | NotWritable | NotReadable | NotFound | IndexRefFree

  datatype Result<T> = Ok(value: T) | Err(error: Error)

  datatype Whence = SeekSet | SeekCur | SeekEnd

  /** The last page of the object index of a file of this size. */
  function LastIxSpan(size: nat, dataPageSize: nat, hdrIxLen: nat, ixLen: nat): nat
    requires dataPageSize > 0 && ixLen > 0
  {
    if size == 0 then 0 else IxSpan((size - 1) / dataPageSize, hdrIxLen, ixLen)
  }

  /** The data page of a position, in 16 bits; the position counts as an unsigned word of 32 bits. */
  function DataSpix(pos: int, dataPageSize: nat): nat
    requires dataPageSize > 0
  {
    pos % U32 / dataPageSize % 0x1_0000
  }

  /** How a file is laid out in pages. */
  datatype Layout = Layout(dataPageSize: nat, hdrIxLen: nat, ixLen: nat) {
    predicate Valid() {
      dataPageSize > 0 && hdrIxLen > 0 && ixLen > 0
    }

    /** A file of this size has the page of the object index that a position belongs to, as a seek computes it. */
    predicate Reaches(size: nat, p: int)
      requires Valid()
    {
      IxSpan(DataSpix(p, dataPageSize), hdrIxLen, ixLen) <= LastIxSpan(size, dataPageSize, hdrIxLen, ixLen)
    }
  }

  /** A position inside a file is reached. */
  lemma InsideReached(l: Layout, size: nat, p: nat)
    requires l.Valid() && p < size && size < S32_MAX && size / l.dataPageSize < 0x1_0000
    ensures l.Reaches(size, p)
  {
    hide IxSpan, LastIxSpan;
    DivMonotone(p, size, l.dataPageSize);
    InsideHasIx(p, size, l.dataPageSize, l.hdrIxLen, l.ixLen);
  }

  /** The exact end is reached, unless the file fills the last page of its object index. */
  lemma EndReached(l: Layout, size: nat)
    requires l.Valid() && 0 < size < S32_MAX && size / l.dataPageSize < 0x1_0000
    ensures var spix := size / l.dataPageSize;
            !l.Reaches(size, size) <==>
            size % l.dataPageSize == 0 && spix >= l.hdrIxLen && (spix - l.hdrIxLen) % l.ixLen == 0
  {
    var d, spix := l.dataPageSize, size / l.dataPageSize;
    PageBefore(size, d);
    if size % d == 0 && spix >= l.hdrIxLen {
      if spix > l.hdrIxLen {
        PageBefore(spix - l.hdrIxLen, l.ixLen);
      }
    }
  }

  /** The page of the last byte. */
  lemma PageBefore(n: nat, d: nat)
    requires n > 0 && d > 0
    ensures (n - 1) / d == if n % d == 0 then n / d - 1 else n / d
    ensures n % d == 0 ==> n / d > 0
  {
    var q, r := n / d, n % d;
    if r == 0 {
      TimesLess(0, q, d);
      DivIs(n - 1, d, q - 1, d - 1);
    } else {
      DivIs(n - 1, d, q, r - 1);
    }
  }

  /** With pages of 128 bytes: a target far below the start of any file is accepted, and one just below the
      start of a small file is not found. */
  lemma NegativeTargets(size: nat)
    ensures var l := Layout(123, 42, 61); l.Reaches(size, -6553600) && (size <= 5166 ==> !l.Reaches(size, -1))
  {
    if size > 0 && size <= 5166 {
      DivMonotone(size - 1, 5165, 123);
    }
  }

  lemma SizeS32(size: nat)
    requires size == UNDEFINED_LEN || size <= S32_MAX
    ensures ToS32(size) == if size == UNDEFINED_LEN then -1 else size
  {
  }

  /** A position inside the file has its object index page. */
  lemma InsideHasIx(pos: nat, size: nat, dataPageSize: nat, hdrIxLen: nat, ixLen: nat)
    requires pos < size && dataPageSize > 0 && ixLen > 0
    ensures IxSpan(pos / dataPageSize, hdrIxLen, ixLen) <= LastIxSpan(size, dataPageSize, hdrIxLen, ixLen)
  {
    DivMonotone(pos, size - 1, dataPageSize);
    IxSpanMonotone(pos / dataPageSize, (size - 1) / dataPageSize, hdrIxLen, ixLen);
  }

  /** SPIFFS_RDONLY, SPIFFS_WRONLY, SPIFFS_APPEND, SPIFFS_DIRECT */
  datatype OpenFlags = OpenFlags(canRead: bool, canWrite: bool, append: bool, direct: bool)

  // ---------------------------------------------------------------- the descriptor

  class File {
    const cache: Cache
    const objId: nat
    const flags: OpenFlags
    const dataPageSize: nat
    const hdrIxLen: nat
    const ixLen: nat
    var stored: bytes         // what the object index of the file refers to
    var size: nat
    var fdoffset: nat
    var cursorSpix: nat
    var cachePage: int        // the slot, or -1

    /** Whose slot it is, and where its bytes belong. */
    ghost predicate Pending(cp: CPage)
      reads `stored
    {
      cp.IsWrite() && cp.objId == objId && cp.offset <= |stored| && cp.size <= |cp.mem|
    }

    ghost predicate Valid()
      reads this, cache
    {
      && cache.Valid() && dataPageSize > 0 && hdrIxLen > 0 && ixLen > 0
      && CursorKnown() && |stored| < S32_MAX && (if size == UNDEFINED_LEN then stored == [] else |stored| == size)
      && -1 <= cachePage < |cache.cpages|
      && (cachePage >= 0 ==> !flags.direct && Pending(cache.cpages[cachePage]))
      && (forall i :: 0 <= i < |cache.cpages| && i != cachePage && cache.cpages[i].IsWrite() ==>
            cache.cpages[i].objId != objId)
    }

    ghost predicate CursorKnown()
      reads `stored, `cursorSpix
    {
      dataPageSize > 0 && ixLen > 0 && cursorSpix <= LastIxSpan(|stored|, dataPageSize, hdrIxLen, ixLen)
    }

    ghost function Shape(): (l: Layout) {
      Layout(dataPageSize, hdrIxLen, ixLen)
    }

    /** Nothing has ever been written to the file. */
    ghost predicate Unset()
      reads this, cache
      requires Valid()
    {
      size == UNDEFINED_LEN && Contents() == []
    }

    /** The file: what the flash has, with the unflushed bytes over it. */
    ghost function Contents(): bytes
      reads this, cache
      requires Valid()
    {
      if cachePage < 0 then stored
      else var cp := cache.cpages[cachePage]; Put(stored, cp.offset, cp.mem[..cp.size])
    }

    /** SPIFFS_open of a file with these bytes; a file never written to has no size. */
    constructor (cache: Cache, objId: nat, flags: OpenFlags, stored: bytes, fresh_: bool,
                 dataPageSize: nat, hdrIxLen: nat, ixLen: nat)
      requires cache.Valid() && dataPageSize > 0 && hdrIxLen > 0 && ixLen > 0
      requires |stored| < S32_MAX && (fresh_ ==> stored == [])
      requires forall i :: 0 <= i < |cache.cpages| && cache.cpages[i].IsWrite() ==> cache.cpages[i].objId != objId
      ensures Valid() && Contents() == stored && fdoffset == 0 && this.cache == cache && this.flags == flags
      ensures (fresh_ <==> Unset()) && Shape() == Layout(dataPageSize, hdrIxLen, ixLen)
    {
      this.cache, this.objId, this.flags, this.stored := cache, objId, flags, stored;
      this.dataPageSize, this.hdrIxLen, this.ixLen := dataPageSize, hdrIxLen, ixLen;
      size := if fresh_ then UNDEFINED_LEN else |stored|;
      fdoffset, cursorSpix, cachePage := 0, 0, -1;
    }

    // -------------------------------------------------------------- the object layer

    /** What else goes on in the flash while an object is worked on: pages are read and written through
        the cache, whichever. */
    method Traffic()
      requires cache.Valid()
      modifies cache
      ensures cache.Valid() && WritePagesKept(old(cache.cpages), cache.cpages)
    {
      hide Copy, ReadPages;
      var n: nat := *;
      var i := 0;
      while i < n
        invariant cache.Valid() && WritePagesKept(old(cache.cpages), cache.cpages)
      {
        var op: Op := *;
        var addr: nat := *;
        var src: bytes := *;
        if cache.PageLocal(addr, |src|) {
          cache.PhysWr(op, addr, src);
        }
        var len: nat := *;
        if cache.PageLocal(addr, len) && Evictable(cache.cpages, Next(cache.lastAccess)) {
          var _ := cache.PhysRd(op, addr, len);
        }
        i := i + 1;
      }
    }

    /** spiffs_object_modify: the bytes are in the object. */
    method ObjectModify(offset: nat, data: bytes)
      requires cache.Valid() && CursorKnown() && offset + |data| <= |stored|
      modifies this`stored, this`cursorSpix, cache
      ensures cache.Valid() && WritePagesKept(old(cache.cpages), cache.cpages)
      ensures CursorKnown() && stored == Put(old(stored), offset, data)
    {
      Traffic();
      stored := Put(stored, offset, data);
      MoveCursor();
    }

    /** spiffs_object_append at the end of the object. */
    method ObjectAppend(offset: nat, data: bytes)
      requires cache.Valid() && CursorKnown() && offset == |stored|
      modifies this`stored, this`size, this`cursorSpix, cache
      ensures cache.Valid() && WritePagesKept(old(cache.cpages), cache.cpages)
      ensures CursorKnown() && stored == old(stored) + data && size == |stored|
    {
      Traffic();
      stored := stored + data;
      size := |stored|;
      MoveCursor();
    }

    /** The cursor is left at a page of the object index that there is. */
    method MoveCursor()
      requires dataPageSize > 0 && ixLen > 0
      modifies this`cursorSpix
      ensures CursorKnown()
    {
      cursorSpix := *;
      if cursorSpix > LastIxSpan(|stored|, dataPageSize, hdrIxLen, ixLen) {
        cursorSpix := 0;
      }
    }

    /** spiffs_object_read, of bytes the object has. An object never written to counts as long as can be, but
        the first entry of its index is free. */
    method ObjectRead(offset: nat, len: nat) returns (res: Result<()>, dst: bytes)
      requires cache.Valid() && CursorKnown()
      requires if size == UNDEFINED_LEN then offset == 0 else offset + len <= |stored|
      modifies this`cursorSpix, cache
      ensures cache.Valid() && CursorKnown() && WritePagesKept(old(cache.cpages), cache.cpages)
      ensures if size == UNDEFINED_LEN && len > 0 then res == Err(IndexRefFree) else res == Ok(())
      ensures size != UNDEFINED_LEN ==> dst == stored[offset..offset + len]
      ensures len == 0 ==> dst == []
    {
      if len == 0 {
        return Ok(()), [];
      }
      Traffic();
      MoveCursor();
      if size == UNDEFINED_LEN {
        return Err(IndexRefFree), [];
      }
      return Ok(()), stored[offset..offset + len];
    }

    /** spiffs_obj_lu_find_id_and_span for a page of the file's object index: there are as many as its
        bytes need, and always the header. */
    method FindIx(spix: nat) returns (found: bool)
      requires dataPageSize > 0 && ixLen > 0
      ensures found <==> spix <= LastIxSpan(|stored|, dataPageSize, hdrIxLen, ixLen)
    {
      found := spix <= LastIxSpan(|stored|, dataPageSize, hdrIxLen, ixLen);
    }

    // -------------------------------------------------------------- the calls

    /** spiffs_hydro_write */
    method HydroWrite(buf: bytes, offset: nat)
      requires cache.Valid() && CursorKnown() && offset <= |stored| && |Put(stored, offset, buf)| < S32_MAX
      requires if size == UNDEFINED_LEN then stored == [] else |stored| == size
      modifies this`stored, this`size, this`cursorSpix, cache
      ensures cache.Valid() && WritePagesKept(old(cache.cpages), cache.cpages)
      ensures CursorKnown() && stored == Put(old(stored), offset, buf)
      ensures if size == UNDEFINED_LEN then stored == [] else |stored| == size
      ensures size == UNDEFINED_LEN <==> old(size) == UNDEFINED_LEN && buf == []
    {
      hide Copy, ReadPages;
      var remaining, rest, at: nat := |buf|, buf, offset;
      if size != UNDEFINED_LEN && offset < size {
        var mLen := if size - offset < |buf| then size - offset else |buf|;
        ObjectModify(offset, buf[..mLen]);
        remaining, rest, at := remaining - mLen, buf[mLen..], offset + mLen;
      }
      if remaining > 0 {
        ObjectAppend(at, rest);
      }
    }

    /** Writing the slot's bytes to the object and giving the slot back, as the flush and the big write do. */
    method WriteBack()
      requires Valid() && cachePage >= 0 && |Contents()| < S32_MAX
      modifies this`stored, this`size, this`cursorSpix, this`cachePage, cache
      ensures Valid() && cachePage == -1 && stored == old(Contents()) && Unset() == old(Unset())
    {
      hide Copy, ReadPages, Put;
      var cp := cache.cpages[cachePage];
      HydroWrite(cp.mem[..cp.size], cp.offset);
      cache.Release(cachePage);
      cachePage := -1;
    }

    /** spiffs_fflush_cache */
    method FlushCache()
      requires Valid() && |Contents()| < S32_MAX
      modifies this`stored, this`size, this`cursorSpix, this`cachePage, cache
      ensures Valid() && cachePage == -1 && stored == old(Contents()) && Unset() == old(Unset())
    {
      hide Copy, ReadPages, Put;
      if !flags.direct {
        if cachePage < 0 {
          cachePage := cache.PageGetByFd(objId);
        }
        if cachePage >= 0 {
          WriteBack();
        }
      }
    }

    /** SPIFFS_fflush: the file is what it was, and all of it is in the flash. */
    method Fflush()
      requires Valid() && |Contents()| < S32_MAX
      modifies this`stored, this`size, this`cursorSpix, this`cachePage, cache
      ensures Valid() && Contents() == old(Contents()) == stored && Unset() == old(Unset())
    {
      hide Copy, ReadPages, Put;
      FlushCache();
    }

    /** SPIFFS_read */
    method Read(len: nat) returns (r: Result<bytes>)
      requires Valid() && fdoffset <= |Contents()| < S32_MAX && fdoffset + len < S32_MAX
      modifies this`stored, this`size, this`cursorSpix, this`cachePage, this`fdoffset, cache
      ensures Valid() && Contents() == old(Contents()) && Unset() == old(Unset())
      ensures flags.canRead ==> stored == Contents()
      ensures (r, fdoffset) == PlainRead(old(Contents()), old(fdoffset), len, flags, old(Unset()))
    {
      hide Copy, ReadPages, Put;
      if !flags.canRead {
        return Err(NotReadable);
      }
      var res: Result<()>, dst: bytes;
      FlushCache();
      if fdoffset + len >= size {
        var avail := size - fdoffset;
        if avail <= 0 {
          return Err(EndOfObject);
        }
        res, dst := ObjectRead(fdoffset, avail);
        if res.Err? {
          assert false;     // the object has these bytes
        }
        fdoffset := fdoffset + avail;
      } else {
        res, dst := ObjectRead(fdoffset, len);
        if res.Err? {
          return Err(res.error);
        }
        fdoffset := fdoffset + len;
      }
      return Ok(dst);
    }

    /** The small write: into the slot, when it continues or overlaps what is there and fits, else into a
        new slot after writing the old one back; straight to the object when there is no slot to be had. */
    method WriteSmall(buf: bytes, offset: nat)
      requires Valid() && !flags.direct && |buf| < cache.pageSize
      requires offset <= |Contents()| < S32_MAX && |Put(Contents(), offset, buf)| < S32_MAX
      modifies this`stored, this`size, this`cursorSpix, this`cachePage, cache
      ensures Valid() && Contents() == Put(old(Contents()), offset, buf) && Unset() == (old(Unset()) && buf == [])
    {
      hide Copy, ReadPages, Put;
      var allocCpage := true;
      if cachePage >= 0 {
        var cp := cache.cpages[cachePage];
        if offset < cp.offset || offset > cp.offset + cp.size || offset + |buf| > cp.offset + cache.pageSize {
          WriteBack();
        } else {
          allocCpage := false;
        }
      }
      if allocCpage {
        cachePage := cache.AllocateByFd(objId, offset);
        if cachePage >= 0 {
          assert Put(stored, offset, []) == stored by { PutNothing(stored, offset); }
        }
      }
      if cachePage >= 0 {
        StoreOverlay(buf, offset);
      } else {
        HydroWrite(buf, offset);
      }
    }

    /** Bytes put in the slot are put in the file. */
    method StoreOverlay(buf: bytes, offset: nat)
      requires Valid() && cachePage >= 0
      requires var cp := cache.cpages[cachePage];
               cp.offset <= offset <= cp.offset + cp.size && offset + |buf| <= cp.offset + cache.pageSize
      modifies cache
      ensures Valid() && offset <= |old(Contents())| && Contents() == Put(old(Contents()), offset, buf)
    {
      hide Copy, ReadPages, Put, Patch;
      var cp := cache.cpages[cachePage];
      var offsetInCpage := offset - cp.offset;
      StoredBytes(cp.mem, cp.size, offsetInCpage, buf);
      PutPut(stored, cp.offset, cp.mem[..cp.size], offsetInCpage, buf);
      cache.Store(cachePage, offsetInCpage, buf);
    }

    /** SPIFFS_write. In append mode the bytes go to the end, and the position advances from where it was. */
    method Write(buf: bytes) returns (r: Result<nat>)
      requires Valid() && fdoffset <= |Contents()| < S32_MAX && |Contents()| + |buf| < S32_MAX
      modifies this`stored, this`size, this`cursorSpix, this`cachePage, this`fdoffset, cache
      ensures Valid()
      ensures if flags.canWrite then
                && r == Ok(|buf|) && fdoffset == old(fdoffset) + |buf|
                && Contents() == Put(old(Contents()), if flags.append then |old(Contents())| else old(fdoffset), buf)
              else r == Err(NotWritable) && fdoffset == old(fdoffset) && Contents() == old(Contents())
      ensures Unset() == (old(Unset()) && (flags.canWrite ==> buf == []))
    {
      hide Copy, ReadPages, Put, Patch;
      if !flags.canWrite {
        return Err(NotWritable);
      }
      var offset := fdoffset;
      if cachePage < 0 {
        cachePage := cache.PageGetByFd(objId);
      }
      if flags.append {
        offset := if size == UNDEFINED_LEN then 0 else size;
        if cachePage >= 0 {
          var cp := cache.cpages[cachePage];
          offset := if cp.offset + cp.size > offset then cp.offset + cp.size else offset;
        }
      }
      if !flags.direct {
        if |buf| < cache.pageSize {
          WriteSmall(buf, offset);
          fdoffset := fdoffset + |buf|;
          return Ok(|buf|);
        } else if cachePage >= 0 {
          WriteBack();
          HydroWrite(buf, offset);
          PutTwice(old(Contents()), offset, buf);
        }
      }
      HydroWrite(buf, offset);
      fdoffset := fdoffset + |buf|;
      return Ok(|buf|);
    }

    /** Where a seek aims, in a signed 32-bit variable. */
    ghost function Target(offs: int, whence: Whence): int
      reads this, cache
      requires Valid()
    {
      match whence
      case SeekSet => offs
      case SeekCur => ToS32(fdoffset + offs)
      case SeekEnd => ToS32(|Contents()| + offs)
    }

    /** SPIFFS_lseek, after flushing: what PlainSeek says, to the cursor of the descriptor. */
    method Lseek(offs: int, whence: Whence) returns (r: Result<int>)
      requires Valid() && fdoffset < U32 && |Contents()| < S32_MAX && -0x8000_0000 <= offs <= S32_MAX
      modifies this`stored, this`size, this`cursorSpix, this`cachePage, this`fdoffset, cache
      ensures Valid() && Contents() == old(Contents()) == stored && Unset() == old(Unset())
      ensures (r, fdoffset) == PlainSeek(Shape(), old(Contents()), old(Unset()), old(fdoffset), old(Target(offs, whence)))
    {
      hide Copy, ReadPages, Put, IxSpan, LastIxSpan, DataSpix, ToS32;
      FlushCache();
      var o := offs;
      match whence {
        case SeekSet =>
        case SeekCur => o := ToS32(fdoffset + offs);
        case SeekEnd => o := ToS32((if size == UNDEFINED_LEN then 0 else size) + offs);
      }
      SizeS32(size);
      if o > ToS32(size) {
        return Err(EndOfObject);
      }
      var objixSpix := IxSpan(DataSpix(o, dataPageSize), hdrIxLen, ixLen);
      if cursorSpix != objixSpix {
        var found := FindIx(objixSpix);
        if !found {
          return Err(NotFound);
        }
        cursorSpix := objixSpix;
      }
      fdoffset := if o < 0 then o + U32 else o;
      return Ok(o);
    }
  }

  lemma StoredBytes(mem: bytes, size: nat, at: nat, src: bytes)
    requires at <= size <= |mem| && at + |src| <= |mem|
    ensures var n := if size > at + |src| then size else at + |src|;
            Patch(mem, at, src)[..n] == Put(mem[..size], at, src)
  {
  }

  /** Reading a plain file: what there is from the position on, up to `len` bytes; an error when there is
      nothing. One never written to has an error of its own for any byte. */
  function PlainRead(data: bytes, pos: nat, len: nat, flags: OpenFlags, unset: bool): (Result<bytes>, nat)
    requires pos <= |data|
  {
    if !flags.canRead then (Err(NotReadable), pos)
    else if unset then (if len == 0 then Ok([]) else Err(IndexRefFree), pos)
    else if pos == |data| then (Err(EndOfObject), pos)
    else
      var end := if pos + len > |data| then |data| else pos + len;
      (Ok(data[pos..end]), end)
  }

  /** A seek to `p`: past the end is refused, where a file never written to ends below zero; otherwise what
      decides is whether the object index has the page the target belongs to, below zero as well. */
  function PlainSeek(l: Layout, data: bytes, unset: bool, pos: nat, p: int): (Result<int>, nat)
    requires l.Valid() && -0x8000_0000 <= p <= S32_MAX
  {
    if p > (if unset then -1 else |data|) then (Err(EndOfObject), pos)
    else if !l.Reaches(|data|, p) then (Err(NotFound), pos)
    else (Ok(p), if p < 0 then p + U32 else p)
  }

  // ---------------------------------------------------------------- whole runs

  datatype Call =
    | CallWrite(buf: bytes)
    | CallSeek(offs: int, whence: Whence)
    | CallRead(len: nat)
    | CallFlush

  datatype Reply =
    | Wrote(w: Result<nat>)
    | Sought(s: Result<int>)
    | Got(g: Result<bytes>)
    | Flushed

  /** A plain byte file: its bytes, the position, and whether it has never been written to. */
  datatype Plain = Plain(data: bytes, pos: nat, unset: bool)

  function SeekTarget(f: Plain, offs: int, whence: Whence): int {
    match whence
    case SeekSet => offs
    case SeekCur => ToS32(f.pos + offs)
    case SeekEnd => ToS32(|f.data| + offs)
  }

  /** A call within the sizes of the machine. The position a seek below zero leaves, where it is accepted, is
      no position in a file. */
  predicate LegalCall(f: Plain, l: Layout, c: Call) {
    && f.pos <= |f.data| < S32_MAX && l.Valid() && (f.unset ==> f.data == [])
    && match c
       case CallWrite(buf) => |f.data| + |buf| < S32_MAX
       case CallSeek(offs, whence) =>
         var p := SeekTarget(f, offs, whence);
         -0x8000_0000 <= offs <= S32_MAX && (p < 0 ==> !l.Reaches(|f.data|, p))
       case CallRead(len) => f.pos + len < S32_MAX
       case CallFlush => true
  }

  function PlainCall(f: Plain, l: Layout, flags: OpenFlags, c: Call): (r: (Plain, Reply))
    requires LegalCall(f, l, c)
    ensures r.0.pos <= |r.0.data|
  {
    match c
    case CallWrite(buf) =>
      if !flags.canWrite then (f, Wrote(Err(NotWritable)))
      else
        var data := Put(f.data, if flags.append then |f.data| else f.pos, buf);
        (Plain(data, f.pos + |buf|, f.unset && buf == []), Wrote(Ok(|buf|)))
    case CallSeek(offs, whence) =>
      var (r, pos) := PlainSeek(l, f.data, f.unset, f.pos, SeekTarget(f, offs, whence));
      (f.(pos := pos), Sought(r))
    case CallRead(len) =>
      var (r, pos) := PlainRead(f.data, f.pos, len, flags, f.unset);
      (f.(pos := pos), Got(r))
    case CallFlush => (f, Flushed)
  }

  /** What was written is read back from where it was written, and the file is as long as before or ends there. */
  lemma WriteReadBack(f: Plain, l: Layout, flags: OpenFlags, buf: bytes)
    requires LegalCall(f, l, CallWrite(buf)) && buf != [] && flags.canRead && flags.canWrite && !flags.append
    requires (|f.data| + |buf|) / l.dataPageSize < 0x1_0000
    ensures var (g, w) := PlainCall(f, l, flags, CallWrite(buf));
            && w == Wrote(Ok(|buf|)) && LegalCall(g, l, CallSeek(-|buf|, SeekCur))
            && |g.data| == (if f.pos + |buf| > |f.data| then f.pos + |buf| else |f.data|)
            && var (h, s) := PlainCall(g, l, flags, CallSeek(-|buf|, SeekCur));
               && s == Sought(Ok(f.pos)) && LegalCall(h, l, CallRead(|buf|))
               && PlainCall(h, l, flags, CallRead(|buf|)) == (g, Got(Ok(buf)))
  {
    hide IxSpan, LastIxSpan, DataSpix;
    var g := PlainCall(f, l, flags, CallWrite(buf)).0;
    DivMonotone(|g.data|, |f.data| + |buf|, l.dataPageSize);
    InsideReached(l, |g.data|, f.pos);
    assert g.data[f.pos..f.pos + |buf|] == buf;
  }

  /** With the append flag it is found at the end, whatever the position was, behind all that was there. */
  lemma AppendReadBack(f: Plain, l: Layout, flags: OpenFlags, buf: bytes)
    requires LegalCall(f, l, CallWrite(buf)) && buf != [] && flags.canRead && flags.canWrite && flags.append
    requires (|f.data| + |buf|) / l.dataPageSize < 0x1_0000
    ensures var (g, w) := PlainCall(f, l, flags, CallWrite(buf));
            && w == Wrote(Ok(|buf|)) && g.data == f.data + buf && LegalCall(g, l, CallSeek(-|buf|, SeekEnd))
            && var (h, s) := PlainCall(g, l, flags, CallSeek(-|buf|, SeekEnd));
               && s == Sought(Ok(|f.data|)) && LegalCall(h, l, CallRead(|buf|))
               && PlainCall(h, l, flags, CallRead(|buf|)).1 == Got(Ok(buf))
  {
    hide IxSpan, LastIxSpan, DataSpix;
    var g := PlainCall(f, l, flags, CallWrite(buf)).0;
    assert g.data == f.data + buf;
    InsideReached(l, |g.data|, |f.data|);
    CutAtEnd(f.data, buf);
  }

  /** Two reads in a row are one of the sum of their lengths. */
  lemma ReadSplit(data: bytes, pos: nat, m: nat, n: nat, flags: OpenFlags)
    requires flags.canRead && pos + m < |data|
    ensures var (a, p) := PlainRead(data, pos, m, flags, false);
            var (b, q) := PlainRead(data, p, n, flags, false);
            && a.Ok? && b.Ok? && PlainRead(data, pos, m + n, flags, false) == (Ok(a.value + b.value), q)
            && a.value + b.value == data[pos..q] && q == if pos + m + n > |data| then |data| else pos + m + n
  {
    var p, q := pos + m, if pos + m + n > |data| then |data| else pos + m + n;
    assert data[pos..p] + data[p..q] == data[pos..q];
  }

  predicate AllLegalCalls(f: Plain, l: Layout, flags: OpenFlags, cs: seq<Call>)
    decreases |cs|
  {
    cs == [] || (LegalCall(f, l, cs[0]) && AllLegalCalls(PlainCall(f, l, flags, cs[0]).0, l, flags, cs[1..]))
  }

  function PlainCalls(f: Plain, l: Layout, flags: OpenFlags, cs: seq<Call>): (Plain, seq<Reply>)
    requires AllLegalCalls(f, l, flags, cs)
    decreases |cs|
  {
    if cs == [] then (f, [])
    else
      var (g, r) := PlainCall(f, l, flags, cs[0]);
      var (h, rs) := PlainCalls(g, l, flags, cs[1..]);
      (h, [r] + rs)
  }

  ghost predicate Is(file: File, f: Plain, l: Layout)
    reads file, file.cache
  {
    && file.Valid() && l == file.Shape()
    && f == Plain(file.Contents(), file.fdoffset, file.Unset())
  }

  method StepSeek(file: File, ghost f: Plain, ghost l: Layout, offs: int, whence: Whence) returns (s: Result<int>)
    requires Is(file, f, l) && LegalCall(f, l, CallSeek(offs, whence))
    modifies file, file.cache
    ensures var (g, reply) := PlainCall(f, l, file.flags, CallSeek(offs, whence)); Sought(s) == reply && Is(file, g, l)
  {
    hide Copy, ReadPages, Put, IxSpan, LastIxSpan, ToS32;
    s := file.Lseek(offs, whence);
  }

  method StepRead(file: File, ghost f: Plain, ghost l: Layout, len: nat) returns (g: Result<bytes>)
    requires Is(file, f, l) && LegalCall(f, l, CallRead(len))
    modifies file, file.cache
    ensures var (h, reply) := PlainCall(f, l, file.flags, CallRead(len)); Got(g) == reply && Is(file, h, l)
  {
    hide Copy, ReadPages, Put, IxSpan, LastIxSpan;
    g := file.Read(len);
  }

  method StepCall(file: File, ghost f: Plain, ghost l: Layout, c: Call) returns (r: Reply)
    requires Is(file, f, l) && LegalCall(f, l, c)
    modifies file, file.cache
    ensures var (g, reply) := PlainCall(f, l, file.flags, c); r == reply && Is(file, g, l)
  {
    hide Copy, ReadPages, Put, IxSpan, LastIxSpan, ToS32;
    match c {
      case CallWrite(buf) =>
        var w := file.Write(buf);
        r := Wrote(w);
      case CallSeek(offs, whence) =>
        var s := StepSeek(file, f, l, offs, whence);
        r := Sought(s);
      case CallRead(len) =>
        var g := StepRead(file, f, l, len);
        r := Got(g);
      case CallFlush =>
        file.Fflush();
        r := Flushed;
    }
  }

  /** Every run of calls on the descriptor gets the replies a plain byte file would give, and leaves the
      file with the same bytes. */
  method RunCalls(file: File, ghost f: Plain, ghost l: Layout, cs: seq<Call>) returns (rs: seq<Reply>)
    requires Is(file, f, l) && AllLegalCalls(f, l, file.flags, cs)
    modifies file, file.cache
    ensures var (g, replies) := PlainCalls(f, l, file.flags, cs); rs == replies && Is(file, g, l)
    decreases |cs|
  {
    hide PlainCall, LegalCall, Is;
    rs := [];
    if cs != [] {
      var r := StepCall(file, f, l, cs[0]);
      var more := RunCalls(file, PlainCall(f, l, file.flags, cs[0]).0, l, cs[1..]);
      rs := [r] + more;
    }
  }
}
