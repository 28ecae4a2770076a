/** spiffs_gc_clean: the state machine that empties a block, run by run. */
module SpiffsGcClean {
  import opened Arith
  import opened SpiffsGc
  import opened SpiffsLayout

  datatype State = FindObjData | MoveObjData | MoveObjIx | Finished

  datatype Res = Ok | Full | IndexNotFound

  class Gc {
    const l: Layout
    const first: nat           // the first page of the block behind its lookup pages
    const n: nat               // how many there are
    const entriesPerPage: nat
    const lookupPages: nat
    var ps: seq<Page>
    var luWork: seq<Lu>        // a lookup page of the block
    var work: seq<nat>         // the entries of an index page
    var curObjId: nat
    var curObjixSpix: nat
    var curObjixPix: nat
    ghost var ix: Where
    ghost var data: Where

    ghost predicate Geometry()
      reads `ps
    {
      && l.Valid() && first + n <= |ps| && entriesPerPage > 0 && n <= LuOffset(lookupPages, entriesPerPage)
    }

    predicate InBlock(p: nat) {
      first <= p < first + n
    }

    /** spiffs_page_move: the page, or new contents for it, goes to a free page outside the block, and is
        deleted where it was. It scans lookup pages, through the lookup work memory. */
    method PageMove(src: nat, body: Body) returns (ok: bool, dst: nat)
      requires src < |ps|
      modifies this`ps, this`luWork
      ensures ok ==> dst < |ps| == |old(ps)| && old(ps)[dst].lu == Free && !InBlock(dst) && ps == Moved(old(ps), src, dst, body)
      ensures !ok ==> ps == old(ps) && NoFree(ps, first, n)
    {
      luWork := *;
      if p: nat :| p < |ps| && !InBlock(p) && ps[p].lu == Free {
        ok, dst := true, p;
        ps := Moved(ps, src, dst, body);
      } else {
        ok, dst := false, 0;
      }
    }

    /** spiffs_page_delete */
    method PageDelete(p: nat)
      requires p < |ps|
      modifies this`ps
      ensures ps == old(ps)[p := Wiped(old(ps)[p])]
    {
      ps := ps[p := Wiped(ps[p])];
    }

    /** spiffs_obj_lu_find_id_and_span for an index page. */
    method FindIx(g: Key) returns (ok: bool, p: nat)
      ensures ok ==> p < |ps| && ps[p].live && ps[p].IsIx() && ps[p].At() == g
      ensures !ok ==> forall q :: 0 <= q < |ps| && ps[q].live && ps[q].IsIx() ==> ps[q].At() != g
    {
      if q: nat :| q < |ps| && ps[q].live && ps[q].IsIx() && ps[q].At() == g {
        return true, q;
      }
      return false, 0;
    }

    /** The lookup work memory holds the lookup entries from `offset` on, as far as they are not yet passed. */
    ghost predicate Loaded(offset: nat, cur: nat)
      reads `ps, `luWork
    {
      && |luWork| == entriesPerPage && first + n <= |ps|
      && forall i :: 0 <= i < entriesPerPage && cur <= offset + i < n ==> luWork[i] == ps[first + offset + i].lu
    }

    /** Reading a lookup page of the block. */
    method Load(offset: nat)
      requires Geometry()
      modifies this`luWork
      ensures Loaded(offset, 0)
    {
      luWork := LookupPage(ps, first, n, offset, entriesPerPage);
    }

    /** What a scan knows of where it is: the next entry is on lookup page `page`, or there is none. */
    ghost predicate Scanning(cur: nat, page: nat)
      reads this
    {
      cur <= n && (cur < n ==> LuOffset(page, entriesPerPage) <= cur)
    }

    /** What the scan for a data page has found, from `start` on. */
    ghost predicate Sought(start: nat, cur: nat, found: bool)
      reads `ps, `curObjId
    {
      && start <= cur <= n && first + n <= |ps|
      && NoData(ps, first + start, first + if found && cur > 0 then cur - 1 else cur)
      && (found ==> start < cur && ps[first + cur - 1].IsData() && curObjId == ps[first + cur - 1].lu.id)
    }

    method SeekOnPage(offset: nat, start: nat, cur0: nat) returns (found: bool, cur: nat)
      requires Geometry() && Loaded(offset, 0) && Sought(start, cur0, false) && (cur0 < n ==> offset <= cur0)
      modifies this`curObjId
      ensures Sought(start, cur, found) && (!found && cur < n ==> offset + entriesPerPage <= cur)
    {
      found, cur := false, cur0;
      while !found && cur - offset < entriesPerPage && cur < n
        invariant Sought(start, cur, found) && (cur < n ==> offset <= cur)
        decreases n - cur
      {
        var objId := luWork[cur - offset];
        if objId.Id? && !objId.ix {
          found := true;
          curObjId := objId.id;
        }
        cur := cur + 1;
      }
    }

    /** The scan for the next data page. */
    method ScanForData(start: nat) returns (found: bool, cur: nat)
      requires Geometry() && start <= n
      modifies this`luWork, this`curObjId
      ensures Sought(start, cur, found) && (!found ==> cur == n)
    {
      hide Sought, Loaded, NoData, LuOffset, LuPage;
      found, cur := false, start;
      var page: nat := LuPage(cur, entriesPerPage);
      SoughtNothing(start);
      PageStartsBelow(start, entriesPerPage);
      while !found && page < lookupPages
        invariant Geometry() && Sought(start, cur, found)
        invariant !found ==> Scanning(cur, page)
        decreases lookupPages - page
      {
        LuNext(page, entriesPerPage);
        Load(LuOffset(page, entriesPerPage));
        found, cur := SeekOnPage(LuOffset(page, entriesPerPage), start, cur);
        SoughtBounds(start, cur, found);
        page := page + 1;
      }
      if !found {
        ScanEnds(page, lookupPages, entriesPerPage, cur, n);
      }
    }

    /** An entry of the block, in a run: a page of the object that the loaded index page lists is moved
        out, or scrapped when its header says it is deleted. */
    method DataEntry(c: nat, offset: nat, g: Key, ghost ps0: seq<Page>, ghost data0: Where) returns (res: Res)
      requires Geometry() && Run(l, ps0, data0, ps, ix, data, work, first, n, g, c) && c < n
      requires Loaded(offset, c) && offset <= c < offset + entriesPerPage && g == Key(curObjId, curObjixSpix)
      modifies this`ps, this`luWork, this`work, this`data
      ensures Geometry()
      ensures res == Ok ==> Run(l, ps0, data0, ps, ix, data, work, first, n, g, c + 1) && Loaded(offset, c + 1)
      ensures res == Ok || (res == Full && NoFree(ps, first, n))
    {
      hide Run, Moved;
      var curPix := first + c;
      var objId := luWork[c - offset];
      RunFacts(l, ps0, data0, ps, ix, data, work, first, n, g, c);
      if objId == Id(curObjId, false) && IxSpan(ps[curPix].span, l.hdrIxLen, l.ixLen) == curObjixSpix {
        var at := ps[curPix].At();
        if ps[curPix].live {
          ghost var before := ps;
          var ok, dst := PageMove(curPix, ps[curPix].body);
          if !ok {
            return Full;
          }
          RunMove(l, ps0, data0, before, ix, data, work, first, n, g, c, dst);
          Load(offset);
          data := data[at := dst];
          work := work[l.Entry(at) := dst];
        } else {
          RunWipe(l, ps0, data0, ps, ix, data, work, first, n, g, c);
          PageDelete(curPix);
          work := work[l.Entry(at) := FREE_PIX];
        }
      } else {
        RunSkip(l, ps0, data0, ps, ix, data, work, first, n, g, c);
      }
      return Ok;
    }

    method MoveDataOnPage(offset: nat, cur0: nat, g: Key, ghost ps0: seq<Page>, ghost data0: Where)
      returns (res: Res, cur: nat)
      requires Geometry() && Run(l, ps0, data0, ps, ix, data, work, first, n, g, cur0)
      requires Loaded(offset, 0) && cur0 <= n && (cur0 < n ==> offset <= cur0) && g == Key(curObjId, curObjixSpix)
      modifies this`ps, this`luWork, this`work, this`data
      ensures Geometry() && cur <= n
      ensures res == Ok ==> Run(l, ps0, data0, ps, ix, data, work, first, n, g, cur)
                            && (cur < n ==> offset + entriesPerPage <= cur)
      ensures res == Ok || (res == Full && NoFree(ps, first, n))
    {
      hide Run;
      cur := cur0;
      while cur - offset < entriesPerPage && cur < n
        invariant Geometry() && cur <= n && (cur < n ==> offset <= cur) && Loaded(offset, cur)
        invariant Run(l, ps0, data0, ps, ix, data, work, first, n, g, cur)
        decreases n - cur
      {
        res := DataEntry(cur, offset, g, ps0, data0);
        if res != Ok {
          return;
        }
        cur := cur + 1;
      }
      res := Ok;
    }

    /** A run: the pages listed in the loaded index page leave the block. */
    method MoveData(g: Key, ghost ps0: seq<Page>, ghost data0: Where) returns (res: Res)
      requires Geometry() && Run(l, ps0, data0, ps, ix, data, work, first, n, g, 0) && g == Key(curObjId, curObjixSpix)
      modifies this`ps, this`luWork, this`work, this`data
      ensures Geometry()
      ensures res == Ok ==> Run(l, ps0, data0, ps, ix, data, work, first, n, g, n)
      ensures res == Ok || (res == Full && NoFree(ps, first, n))
    {
      hide Run, Loaded, LuOffset, LuPage;
      var cur, page: nat := 0, LuPage(0, entriesPerPage);
      PageStartsBelow(0, entriesPerPage);
      while page < lookupPages
        invariant Geometry() && Run(l, ps0, data0, ps, ix, data, work, first, n, g, cur)
        invariant Scanning(cur, page)
        decreases lookupPages - page
      {
        LuNext(page, entriesPerPage);
        Load(LuOffset(page, entriesPerPage));
        res, cur := MoveDataOnPage(LuOffset(page, entriesPerPage), cur, g, ps0, data0);
        if res != Ok {
          return;
        }
        page := page + 1;
      }
      ScanEnds(page, lookupPages, entriesPerPage, cur, n);
      res := Ok;
    }

    /** An entry of the block, once its data pages are gone. */
    method IxEntry(c: nat, offset: nat, ghost ps0: seq<Page>, ghost ix0: Where, ghost data0: Where, ghost done: set<Key>)
      returns (res: Res)
      requires Geometry() && Emptying(l, ps0, ix0, data0, ps, ix, data, first, n, done, c) && c < n
      requires Loaded(offset, c) && offset <= c < offset + entriesPerPage
      modifies this`ps, this`luWork, this`ix
      ensures Geometry()
      ensures res == Ok ==> Emptying(l, ps0, ix0, data0, ps, ix, data, first, n, done, c + 1) && Loaded(offset, c + 1)
      ensures res == Ok || (res == Full && NoFree(ps, first, n))
    {
      hide Cleaning, Moved;
      var curPix := first + c;
      var objId := luWork[c - offset];
      if objId.Id? && objId.ix {
        if ps[curPix].live {
          ghost var before := ps;
          var ok, dst := PageMove(curPix, ps[curPix].body);
          if !ok {
            return Full;
          }
          EmptyMove(l, ps0, ix0, data0, before, ix, data, first, n, done, c, dst);
          ix := ix[before[curPix].At() := dst];
          Load(offset);
        } else {
          EmptyWipe(l, ps0, ix0, data0, ps, ix, data, first, n, done, c);
          PageDelete(curPix);
        }
      } else {
        EmptySkip(l, ps0, ix0, data0, ps, ix, data, first, n, done, c);
      }
      return Ok;
    }

    method MoveIxOnPage(offset: nat, cur0: nat, ghost ps0: seq<Page>, ghost ix0: Where, ghost data0: Where, ghost done: set<Key>)
      returns (res: Res, cur: nat)
      requires Geometry() && Emptying(l, ps0, ix0, data0, ps, ix, data, first, n, done, cur0)
      requires Loaded(offset, 0) && cur0 <= n && (cur0 < n ==> offset <= cur0)
      modifies this`ps, this`luWork, this`ix
      ensures Geometry() && cur <= n
      ensures res == Ok ==> Emptying(l, ps0, ix0, data0, ps, ix, data, first, n, done, cur)
                            && (cur < n ==> offset + entriesPerPage <= cur)
      ensures res == Ok || (res == Full && NoFree(ps, first, n))
    {
      hide Emptying;
      cur := cur0;
      while cur - offset < entriesPerPage && cur < n
        invariant Geometry() && cur <= n && (cur < n ==> offset <= cur) && Loaded(offset, cur)
        invariant Emptying(l, ps0, ix0, data0, ps, ix, data, first, n, done, cur)
        decreases n - cur
      {
        res := IxEntry(cur, offset, ps0, ix0, data0, done);
        if res != Ok {
          return;
        }
        cur := cur + 1;
      }
      res := Ok;
    }

    /** The last scan: the index pages leave the block. */
    method MoveIxs(ghost ps0: seq<Page>, ghost ix0: Where, ghost data0: Where, ghost done: set<Key>) returns (res: Res)
      requires Geometry() && Emptying(l, ps0, ix0, data0, ps, ix, data, first, n, done, 0)
      modifies this`ps, this`luWork, this`ix
      ensures Geometry()
      ensures res == Ok ==> Emptying(l, ps0, ix0, data0, ps, ix, data, first, n, done, n)
      ensures res == Ok || (res == Full && NoFree(ps, first, n))
    {
      hide Emptying, Loaded, LuOffset, LuPage;
      var cur, page: nat := 0, LuPage(0, entriesPerPage);
      PageStartsBelow(0, entriesPerPage);
      while page < lookupPages
        invariant Geometry() && Emptying(l, ps0, ix0, data0, ps, ix, data, first, n, done, cur)
        invariant Scanning(cur, page)
        decreases lookupPages - page
      {
        LuNext(page, entriesPerPage);
        Load(LuOffset(page, entriesPerPage));
        res, cur := MoveIxOnPage(LuOffset(page, entriesPerPage), cur, ps0, ix0, data0, done);
        if res != Ok {
          return;
        }
        page := page + 1;
      }
      ScanEnds(page, lookupPages, entriesPerPage, cur, n);
      res := Ok;
    }

    /** The state of a run: the index page of the data page at `stored - 1` is loaded. */
    ghost predicate Begun(stored: nat, done: set<Key>)
      reads `ps, `ix, `curObjId, `curObjixSpix, `curObjixPix, `work
    {
      && 0 < stored <= n && l.Valid() && first + n <= |ps|
      && var g := Key(curObjId, curObjixSpix);
         && g in ix && g !in done && ix[g] == curObjixPix < |ps|
         && InRun(l, ps[first + stored - 1], g) && ps[curObjixPix].body == Index(work)
    }

    /** The end of the scan for a data page: its index page is looked up and loaded. */
    method BeginRun(cur: nat, ghost ps0: seq<Page>, ghost ix0: Where, ghost data0: Where, ghost done: set<Key>)
      returns (res: Res)
      requires Geometry() && Cleaning(l, ps0, ix0, data0, ps, ix, data, first, n, done)
      requires 0 < cur <= n && ps[first + cur - 1].IsData() && curObjId == ps[first + cur - 1].lu.id
      modifies this`curObjixSpix, this`curObjixPix, this`work
      ensures res == Ok ==> Begun(cur, done)
      ensures res == Ok || (res == IndexNotFound && Orphan(l, ps0, ix0, first, n))
    {
      hide Resolved, SameData;
      var curPix := first + cur - 1;
      curObjixSpix := IxSpan(ps[curPix].span, l.hdrIxLen, l.ixLen);
      var ok, p := FindIx(Key(curObjId, curObjixSpix));
      assert ps[curPix] == ps0[curPix];
      assert Key(curObjId, curObjixSpix) in ix.Keys <==> Key(curObjId, curObjixSpix) in ix0.Keys;
      if !ok {
        return IndexNotFound;
      }
      curObjixPix := p;
      work := ps[p].body.e;
      return Ok;
    }

    /** A run and the storing of its index page. */
    method RunOnce(stored: nat, ghost ps0: seq<Page>, ghost ix0: Where, ghost data0: Where, ghost done: set<Key>)
      returns (res: Res)
      requires Geometry() && Cleaning(l, ps0, ix0, data0, ps, ix, data, first, n, done) && Begun(stored, done)
      requires NoData(ps, first, first + stored - 1)
      modifies this`ps, this`luWork, this`work, this`data, this`ix
      ensures Geometry()
      ensures res == Ok ==> Cleaning(l, ps0, ix0, data0, ps, ix, data, first, n, done + {Key(curObjId, curObjixSpix)})
                            && NoData(ps, first, first + stored)
      ensures res == Ok || (res == Full && NoFree(ps, first, n))
    {
      hide Run, Cleaning, Moved;
      var g := Key(curObjId, curObjixSpix);
      ghost var ps1, data1 := ps, data;
      RunBegins(l, ps0, ix0, data0, ps, ix, data, first, n, done, g);
      res := MoveData(g, ps1, data1);
      if res != Ok {
        return;
      }
      ghost var moved := ps;
      RunLeaves(l, ps1, data1, ps, ix, data, work, first, n, g, stored);
      var ok, dst := PageMove(curObjixPix, Index(work));
      if !ok {
        return Full;
      }
      RunStore(l, ps0, ix0, data0, ps1, data1, moved, ix, data, work, first, n, done, g, dst);
      StoreLeaves(l, moved, ix, data, first, n, g, stored, dst, Index(work));
      ix := ix[g := dst];
    }

    /** spiffs_gc_clean. It fails only for want of a free page elsewhere, or of the index page of a dead
        data page. */
    method Clean() returns (res: Res)
      requires Geometry() && Consistent(l, ps, ix, data)
      modifies this`ps, this`luWork, this`work, this`data, this`ix, this`curObjId, this`curObjixSpix, this`curObjixPix
      ensures res == Ok ==> Cleaned(l, old(ps), old(ix), old(data), ps, ix, data, first, n)
      ensures res == Full ==> NoFree(ps, first, n)
      ensures res == IndexNotFound ==> Orphan(l, old(ps), old(ix), first, n)
    {
      hide Consistent, Cleaning, Cleaned, NoData, NoIds, Emptying;
      ghost var ps0, ix0, data0, done := ps, ix, data, {};
      CleaningStarts(l, ps, ix, data, first, n);
      NoDataYet(ps, first);
      res := Ok;
      var state, curEntry: nat, stored: nat := FindObjData, 0, 0;
      while state != Finished
        invariant Geometry() && res == Ok && curEntry <= n && stored <= n
        invariant state in {FindObjData, MoveObjData} ==> Cleaning(l, ps0, ix0, data0, ps, ix, data, first, n, done)
        invariant state == FindObjData ==> NoData(ps, first, first + curEntry)
        invariant state == MoveObjData ==> Begun(stored, done) && NoData(ps, first, first + stored - 1)
        invariant state == MoveObjIx ==> Emptying(l, ps0, ix0, data0, ps, ix, data, first, n, done, 0)
        invariant state == Finished ==> Cleaned(l, ps0, ix0, data0, ps, ix, data, first, n)
        decreases match state case FindObjData => 2 * (n - curEntry) + 2
                              case MoveObjData => 2 * (n - stored) + 3
                              case MoveObjIx => 1
                              case Finished => 0
      {
        match state {
          case FindObjData =>
            var start, found := curEntry, false;
            found, curEntry := ScanForData(start);
            NoDataExtend(ps, first, start, curEntry, found);
            if found {
              stored := curEntry;
              curEntry := 0;
              state := MoveObjData;
              res := BeginRun(stored, ps0, ix0, data0, done);
              if res != Ok {
                return;
              }
            } else {
              state := MoveObjIx;
              curEntry := 0;
              EmptyingStarts(l, ps0, ix0, data0, ps, ix, data, first, n, done);
            }
          case MoveObjData =>
            state := FindObjData;
            curEntry := stored;
            res := RunOnce(stored, ps0, ix0, data0, done);
            if res != Ok {
              return;
            }
            done := done + {Key(curObjId, curObjixSpix)};
          case MoveObjIx =>
            res := MoveIxs(ps0, ix0, data0, done);
            if res != Ok {
              return;
            }
            CleaningEnds(l, ps0, ix0, data0, ps, ix, data, first, n, done);
            state := Finished;
        }
      }
    }

    lemma SoughtNothing(start: nat)
      requires Geometry() && start <= n
      ensures Sought(start, start, false)
    {
    }

    lemma SoughtBounds(start: nat, cur: nat, found: bool)
      requires Sought(start, cur, found)
      ensures cur <= n
    {
    }
  }

  /** The first entry of a lookup page. */
  function LuOffset(page: nat, per: nat): nat {
    page * per
  }

  /** The lookup page of an entry. */
  function LuPage(entry: nat, per: nat): nat
    requires per > 0
  {
    entry / per
  }

  lemma LuNext(page: nat, per: nat)
    ensures LuOffset(page + 1, per) == LuOffset(page, per) + per
  {
  }

  lemma PageStartsBelow(cur: nat, per: nat)
    requires per > 0
    ensures LuOffset(LuPage(cur, per), per) <= cur
  {
    assert cur == cur / per * per + cur % per;
  }

  lemma RunFacts(l: Layout, ps0: seq<Page>, data0: Where, ps: seq<Page>, ix: Where, data: Where,
                 work: seq<nat>, first: nat, n: nat, g: Key, c: nat)
    requires Run(l, ps0, data0, ps, ix, data, work, first, n, g, c) && c < n
    ensures ps[first + c] == ps0[first + c] && |ps| <= FREE_PIX && |work| == l.Len(g.span)
  {
  }

  lemma NoDataYet(ps: seq<Page>, first: nat)
    ensures NoData(ps, first, first)
  {
  }

  lemma NoDataExtend(ps: seq<Page>, first: nat, start: nat, cur: nat, found: bool)
    requires NoData(ps, first, first + start) && start <= cur && (found ==> start < cur)
    requires NoData(ps, first + start, first + if found && cur > 0 then cur - 1 else cur)
    ensures NoData(ps, first, first + if found then cur - 1 else cur)
  {
  }

  lemma EmptyingStarts(l: Layout, ps0: seq<Page>, ix0: Where, data0: Where, ps: seq<Page>, ix: Where, data: Where,
                       first: nat, n: nat, done: set<Key>)
    requires Cleaning(l, ps0, ix0, data0, ps, ix, data, first, n, done) && NoData(ps, first, first + n)
    ensures Emptying(l, ps0, ix0, data0, ps, ix, data, first, n, done, 0)
  {
  }

  lemma RunBegins(l: Layout, ps0: seq<Page>, ix0: Where, data0: Where, ps: seq<Page>, ix: Where, data: Where,
                  first: nat, n: nat, done: set<Key>, g: Key)
    requires Cleaning(l, ps0, ix0, data0, ps, ix, data, first, n, done) && g in ix && g !in done
    ensures ps[ix[g]].body.Index? && Run(l, ps, data, ps, ix, data, ps[ix[g]].body.e, first, n, g, 0)
  {
    assert ps[ix[g]].body.Index?;
    RunStart(l, ps, ix, data, first, n, g);
  }

  /** A run takes the page it was begun for, and puts no data page in the block. */
  lemma RunLeaves(l: Layout, ps1: seq<Page>, data1: Where, ps: seq<Page>, ix: Where, data: Where, work: seq<nat>,
                  first: nat, n: nat, g: Key, stored: nat)
    requires Run(l, ps1, data1, ps, ix, data, work, first, n, g, n) && 0 < stored <= n
    requires InRun(l, ps1[first + stored - 1], g) && NoData(ps1, first, first + stored - 1)
    ensures NoData(ps, first, first + stored) && ix[g] < |ps|
  {
  }

  lemma StoreLeaves(l: Layout, ps: seq<Page>, ix: Where, data: Where, first: nat, n: nat, g: Key, stored: nat, dst: nat, body: Body)
    requires g in ix && ix[g] < |ps| && dst < |ps| && stored <= n && !(first <= dst < first + n)
    requires NoData(ps, first, first + stored)
    ensures NoData(Moved(ps, ix[g], dst, body), first, first + stored)
  {
  }

  /** No page outside the block is free. */
  predicate NoFree(ps: seq<Page>, first: nat, n: nat) {
    forall p :: 0 <= p < |ps| && !(first <= p < first + n) ==> ps[p].lu != Free
  }

  lemma ScanEnds(page: nat, pages: nat, per: nat, cur: nat, n: nat)
    requires page >= pages && n <= LuOffset(pages, per) && cur <= n && (cur < n ==> LuOffset(page, per) <= cur)
    ensures cur == n
  {
    TimesAdd(page - pages, pages, per);
  }

  function LookupPage(ps: seq<Page>, first: nat, n: nat, offset: nat, per: nat): (r: seq<Lu>)
    requires first + n <= |ps|
    ensures |r| == per && forall i :: 0 <= i < per && offset + i < n ==> r[i] == ps[first + offset + i].lu
  {
    if per == 0 then []
    else
      LookupPage(ps, first, n, offset, per - 1)
      + [if offset + per - 1 < n then ps[first + offset + per - 1].lu else Free]
  }
}
