/** The garbage collector's cleaning of a block: every live page is moved out, and what the object indexes
    say of each file afterwards. */
module SpiffsGc {
  import opened Bytes
  import opened SpiffsLayout

  // SPIFFS_OBJ_ID_FREE, as a page index in an object index
  const FREE_PIX := 0xFFFF

  // ---------------------------------------------------------------- pages

  /** An entry of the object lookup: the page is free, deleted, or belongs to an object, as data or index. */
  datatype Lu = Free | Deleted | Id(id: nat, ix: bool)

  datatype Body = Blank | Data(d: bytes) | Index(e: seq<nat>)

  /** A page with its lookup entry and its header; `live` is the header's flag that it is not deleted. */
  datatype Page = Page(lu: Lu, span: nat, live: bool, body: Body) {
    predicate IsData() {
      lu.Id? && !lu.ix
    }

    predicate IsIx() {
      lu.Id? && lu.ix
    }

    function At(): Key
      requires lu.Id?
    {
      Key(lu.id, span)
    }
  }

  /** A data page of an object, or a page of its index. */
  datatype Key = Key(id: nat, span: nat)

  datatype Layout = Layout(hdrIxLen: nat, ixLen: nat) {
    predicate Valid() {
      hdrIxLen > 0 && ixLen > 0
    }

    /** The index page that a data page is listed in, and its place there. */
    function Group(k: Key): Key
      requires Valid()
    {
      Key(k.id, IxSpan(k.span, hdrIxLen, ixLen))
    }

    function Entry(k: Key): (r: nat)
      requires Valid()
      ensures r < Len(Group(k).span)
    {
      IxEntry(k.span, hdrIxLen, ixLen)
    }

    function Len(ixSpan: nat): nat {
      if ixSpan == 0 then hdrIxLen else ixLen
    }
  }

  lemma EntryUnique(l: Layout, a: Key, b: Key)
    requires l.Valid() && l.Group(a) == l.Group(b) && l.Entry(a) == l.Entry(b)
    ensures a == b
  {
    IxPlaceUnique(a.span, b.span, l.hdrIxLen, l.ixLen);
  }

  type Where = map<Key, nat>

  /** `ix` and `data` say where each live index page and data page is; no two pages are the same part of an
      object, and every data page has its index page. */
  ghost predicate Shape(l: Layout, ps: seq<Page>, ix: Where, data: Where) {
    && l.Valid() && |ps| <= FREE_PIX
    && (forall g :: g in ix ==> IxAt(l, ps, ix[g], g))
    && (forall p :: 0 <= p < |ps| && ps[p].live && ps[p].IsIx() ==> ps[p].At() in ix && ix[ps[p].At()] == p)
    && (forall k :: k in data ==> DataAt(ps, data[k], k) && l.Group(k) in ix)
    && (forall p :: 0 <= p < |ps| && ps[p].live && ps[p].IsData() ==> ps[p].At() in data && data[ps[p].At()] == p)
  }

  ghost predicate IxAt(l: Layout, ps: seq<Page>, p: nat, g: Key) {
    && p < |ps| && ps[p].live && ps[p].IsIx() && ps[p].At() == g
    && ps[p].body.Index? && |ps[p].body.e| == l.Len(g.span)
  }

  ghost predicate DataAt(ps: seq<Page>, p: nat, k: Key) {
    p < |ps| && ps[p].live && ps[p].IsData() && ps[p].At() == k
  }

  /** The object index leads to the data page. */
  ghost predicate Resolves(l: Layout, ps: seq<Page>, ix: Where, data: Where, k: Key)
    requires Shape(l, ps, ix, data) && k in data
  {
    ps[ix[l.Group(k)]].body.e[l.Entry(k)] == data[k]
  }

  // ---------------------------------------------------------------- moving and deleting pages

  function Wiped(p: Page): Page {
    p.(lu := Deleted, live := false)
  }

  function Moved(ps: seq<Page>, src: nat, dst: nat, body: Body): (r: seq<Page>)
    requires src < |ps| && dst < |ps|
    ensures |r| == |ps|
  {
    ps[dst := ps[src].(body := body)][src := Wiped(ps[src])]
  }

  lemma MoveData(l: Layout, ps: seq<Page>, ix: Where, data: Where, k: Key, dst: nat)
    requires Shape(l, ps, ix, data) && k in data && dst < |ps| && ps[dst].lu == Free
    ensures Shape(l, Moved(ps, data[k], dst, ps[data[k]].body), ix, data[k := dst])
  {
  }

  lemma MoveIx(l: Layout, ps: seq<Page>, ix: Where, data: Where, g: Key, dst: nat, body: Body)
    requires Shape(l, ps, ix, data) && g in ix && dst < |ps| && ps[dst].lu == Free
    requires body.Index? && |body.e| == l.Len(g.span)
    ensures Shape(l, Moved(ps, ix[g], dst, body), ix[g := dst], data)
  {
  }

  lemma WipeDead(l: Layout, ps: seq<Page>, ix: Where, data: Where, p: nat)
    requires Shape(l, ps, ix, data) && p < |ps| && !ps[p].live
    ensures Shape(l, ps[p := Wiped(ps[p])], ix, data)
  {
  }

  // ---------------------------------------------------------------- one run over the block

  /** What the block's pages say about a part of an object: its last page there is live, or is dead. */
  datatype Fate = Absent | Kept | Gone

  function Last(ps: seq<Page>, first: nat, k: Key, c: nat): Fate
    requires first + c <= |ps|
  {
    if c == 0 then Absent
    else
      var p := ps[first + c - 1];
      if p.IsData() && p.At() == k then if p.live then Kept else Gone else Last(ps, first, k, c - 1)
  }

  predicate InRun(l: Layout, p: Page, g: Key)
    requires l.Valid()
  {
    p.IsData() && l.Group(p.At()) == g
  }

  /** Pages outside the block that were in use are untouched; of the block's first `c`, the run's are wiped. */
  ghost predicate RunPages(l: Layout, ps0: seq<Page>, ps: seq<Page>, first: nat, n: nat, g: Key, c: nat) {
    && l.Valid() && |ps| == |ps0| && first + n <= |ps| && c <= n
    && (forall p :: 0 <= p < |ps| && !(first <= p < first + n) && ps0[p].lu != Free ==> ps[p] == ps0[p])
    && (forall p :: first <= p < first + n ==>
          ps[p] == if p < first + c && InRun(l, ps0[p], g) then Wiped(ps0[p]) else ps0[p])
  }

  /** Every live data page is somewhere, with the same contents. */
  ghost predicate SameData(ps0: seq<Page>, data0: Where, ps: seq<Page>, data: Where) {
    && data.Keys == data0.Keys
    && forall k :: k in data ==> data0[k] < |ps0| && data[k] < |ps| && ps[data[k]].body == ps0[data0[k]].body
  }

  /** The entries in memory of the run's data pages. */
  ghost predicate Listed(l: Layout, ps0: seq<Page>, data: Where, work: seq<nat>, first: nat, g: Key, c: nat)
    requires l.Valid() && first + c <= |ps0|
  {
    && |work| == l.Len(g.span)
    && forall k :: k in data && l.Group(k) == g ==>
         work[l.Entry(k)] == if Last(ps0, first, k, c) == Gone then FREE_PIX else data[k]
  }

  /** A run for the data pages listed in index page `g` has passed `c` of the block's entries: their pages
      have left the block, and the index page in memory lists the new ones, or nothing where the last page
      passed was a dead one. */
  ghost predicate Run(l: Layout, ps0: seq<Page>, data0: Where, ps: seq<Page>, ix: Where, data: Where,
                      work: seq<nat>, first: nat, n: nat, g: Key, c: nat)
  {
    && Shape(l, ps, ix, data) && g in ix
    && RunPages(l, ps0, ps, first, n, g, c)
    && SameData(ps0, data0, ps, data)
    && (forall k :: k in data && l.Group(k) != g ==> data[k] == data0[k])
    && Listed(l, ps0, data, work, first, g, c)
  }

  lemma RunStart(l: Layout, ps: seq<Page>, ix: Where, data: Where, first: nat, n: nat, g: Key)
    requires Shape(l, ps, ix, data) && first + n <= |ps| && g in ix
    requires forall k :: k in data && l.Group(k) == g ==> Resolves(l, ps, ix, data, k)
    ensures Run(l, ps, data, ps, ix, data, ps[ix[g]].body.e, first, n, g, 0)
  {
  }

  lemma RunSkip(l: Layout, ps0: seq<Page>, data0: Where, ps: seq<Page>, ix: Where, data: Where,
                work: seq<nat>, first: nat, n: nat, g: Key, c: nat)
    requires Run(l, ps0, data0, ps, ix, data, work, first, n, g, c) && c < n && !InRun(l, ps0[first + c], g)
    ensures Run(l, ps0, data0, ps, ix, data, work, first, n, g, c + 1)
  {
  }

  /** A live page of the run is moved out, and listed where it is now. */
  lemma RunMove(l: Layout, ps0: seq<Page>, data0: Where, ps: seq<Page>, ix: Where, data: Where,
                work: seq<nat>, first: nat, n: nat, g: Key, c: nat, dst: nat)
    requires Run(l, ps0, data0, ps, ix, data, work, first, n, g, c) && c < n
    requires InRun(l, ps[first + c], g) && ps[first + c].live
    requires dst < |ps| && ps[dst].lu == Free && !(first <= dst < first + n)
    ensures var k := ps[first + c].At();
            Run(l, ps0, data0, Moved(ps, first + c, dst, ps[first + c].body), ix, data[k := dst],
                work[l.Entry(k) := dst], first, n, g, c + 1)
  {
    hide Shape, RunPages, SameData, Listed, Moved;
    NotYet(l, ps0, ps, first, n, g, c);
    var k := ps[first + c].At();
    DataIs(l, ps, ix, data, first + c);
    MoveData(l, ps, ix, data, k, dst);
    MovePages(l, ps0, ps, first, n, g, c, dst);
    MoveSame(l, ps0, data0, ps, ix, data, k, dst);
    ListNext(l, ps0, data, work, first, g, c, dst);
  }

  lemma DataIs(l: Layout, ps: seq<Page>, ix: Where, data: Where, p: nat)
    requires Shape(l, ps, ix, data) && p < |ps| && ps[p].live && ps[p].IsData()
    ensures ps[p].At() in data && data[ps[p].At()] == p
  {
  }

  lemma NotYet(l: Layout, ps0: seq<Page>, ps: seq<Page>, first: nat, n: nat, g: Key, c: nat)
    requires RunPages(l, ps0, ps, first, n, g, c) && c < n
    ensures l.Valid() && first + c < |ps| == |ps0| && ps[first + c] == ps0[first + c]
  {
  }

  lemma MovePages(l: Layout, ps0: seq<Page>, ps: seq<Page>, first: nat, n: nat, g: Key, c: nat, dst: nat)
    requires RunPages(l, ps0, ps, first, n, g, c) && c < n && InRun(l, ps[first + c], g)
    requires dst < |ps| && ps[dst].lu == Free && !(first <= dst < first + n)
    ensures RunPages(l, ps0, Moved(ps, first + c, dst, ps[first + c].body), first, n, g, c + 1)
  {
  }

  lemma MoveSame(l: Layout, ps0: seq<Page>, data0: Where, ps: seq<Page>, ix: Where, data: Where, k: Key, dst: nat)
    requires Shape(l, ps, ix, data) && SameData(ps0, data0, ps, data) && k in data
    requires dst < |ps| && ps[dst].lu == Free
    ensures SameData(ps0, data0, Moved(ps, data[k], dst, ps[data[k]].body), data[k := dst])
  {
    assert data[k := dst].Keys == data.Keys;
  }

  /** Listing the place of the run's next page, or that there is none. */
  lemma ListNext(l: Layout, ps0: seq<Page>, data: Where, work: seq<nat>, first: nat, g: Key, c: nat, dst: nat)
    requires l.Valid() && first + c < |ps0| && Listed(l, ps0, data, work, first, g, c) && InRun(l, ps0[first + c], g)
    ensures var p := ps0[first + c];
            if p.live then Listed(l, ps0, data[p.At() := dst], work[l.Entry(p.At()) := dst], first, g, c + 1)
            else Listed(l, ps0, data, work[l.Entry(p.At()) := FREE_PIX], first, g, c + 1)
  {
    var k := ps0[first + c].At();
    forall j | l.Group(j) == g && j != k ensures l.Entry(j) != l.Entry(k) {
      if l.Entry(j) == l.Entry(k) {
        EntryUnique(l, j, k);
      }
    }
  }

  /** A dead page of the run is scrapped, and its entry cleared. */
  lemma RunWipe(l: Layout, ps0: seq<Page>, data0: Where, ps: seq<Page>, ix: Where, data: Where,
                work: seq<nat>, first: nat, n: nat, g: Key, c: nat)
    requires Run(l, ps0, data0, ps, ix, data, work, first, n, g, c) && c < n
    requires InRun(l, ps[first + c], g) && !ps[first + c].live
    ensures var k := ps[first + c].At();
            Run(l, ps0, data0, ps[first + c := Wiped(ps[first + c])], ix, data,
                work[l.Entry(k) := FREE_PIX], first, n, g, c + 1)
  {
    NotYet(l, ps0, ps, first, n, g, c);
    WipeDead(l, ps, ix, data, first + c);
    ListNext(l, ps0, data, work, first, g, c, 0);
  }

  // ---------------------------------------------------------------- the whole cleaning

  /** The block's data pages that belong to a run that is over are wiped, the others are as they were. */
  ghost predicate Emptied(l: Layout, ps0: seq<Page>, ps: seq<Page>, ix: Where, first: nat, n: nat, done: set<Key>) {
    && l.Valid() && |ps| == |ps0| && first + n <= |ps|
    && (forall p :: first <= p < first + n && ps0[p].IsData() ==>
          ps[p] == if l.Group(ps0[p].At()) in done then Wiped(ps0[p]) else ps0[p])
    && (forall p :: first <= p < first + n && !ps0[p].IsData() ==> !ps[p].IsData())
  }

  /** A part of an object resolves, unless its run is over and the last of the block's pages for it was a
      dead one. */
  ghost predicate Resolved(l: Layout, ps0: seq<Page>, ps: seq<Page>, ix: Where, data: Where,
                           first: nat, n: nat, done: set<Key>)
    requires Shape(l, ps, ix, data) && first + n <= |ps0|
  {
    forall k :: k in data ==>
      (Resolves(l, ps, ix, data, k) <==> !(l.Group(k) in done && Last(ps0, first, k, n) == Gone))
  }

  /** The runs for the index pages in `done` are over. */
  ghost predicate Cleaning(l: Layout, ps0: seq<Page>, ix0: Where, data0: Where, ps: seq<Page>, ix: Where, data: Where,
                           first: nat, n: nat, done: set<Key>)
  {
    && Shape(l, ps, ix, data) && ix.Keys == ix0.Keys
    && Emptied(l, ps0, ps, ix, first, n, done)
    && SameData(ps0, data0, ps, data)
    && Resolved(l, ps0, ps, ix, data, first, n, done)
  }

  /** Two states of the block that agree on the pages of a run agree on the fates it decides. */
  lemma {:induction false} LastSame(l: Layout, a: seq<Page>, b: seq<Page>, first: nat, k: Key, c: nat)
    requires l.Valid() && |a| == |b| && first + c <= |a|
    requires forall p :: first <= p < first + c ==> SameInRun(l, a[p], b[p], l.Group(k))
    ensures Last(a, first, k, c) == Last(b, first, k, c)
  {
    if c > 0 {
      assert SameInRun(l, a[first + c - 1], b[first + c - 1], l.Group(k));
      LastSame(l, a, b, first, k, c - 1);
    }
  }

  ghost predicate SameInRun(l: Layout, a: Page, b: Page, g: Key)
    requires l.Valid()
  {
    a == b || (!InRun(l, a, g) && !InRun(l, b, g))
  }

  /** The index page of a run is stored again, with the entries as they are in memory. */
  lemma RunStore(l: Layout, ps0: seq<Page>, ix0: Where, data0: Where, ps1: seq<Page>, data1: Where,
                 ps: seq<Page>, ix: Where, data: Where, work: seq<nat>,
                 first: nat, n: nat, done: set<Key>, g: Key, dst: nat)
    requires Cleaning(l, ps0, ix0, data0, ps1, ix, data1, first, n, done) && g !in done
    requires Run(l, ps1, data1, ps, ix, data, work, first, n, g, n)
    requires dst < |ps| && ps[dst].lu == Free && !(first <= dst < first + n)
    ensures Cleaning(l, ps0, ix0, data0, Moved(ps, ix[g], dst, Index(work)), ix[g := dst], data, first, n, done + {g})
  {
    MoveIx(l, ps, ix, data, g, dst, Index(work));
    assert ix[g := dst].Keys == ix.Keys;
    StoreEmptied(l, ps0, ps1, ps, ix, data, first, n, done, g, dst, Index(work));
    StoreSame(l, ps0, data0, ps1, data1, ps, ix, data, g, dst, Index(work));
    StoreResolved(l, ps0, ps1, ix, data1, ps, data, work, first, n, done, g, dst);
  }

  lemma StoreEmptied(l: Layout, ps0: seq<Page>, ps1: seq<Page>, ps: seq<Page>, ix: Where, data: Where,
                     first: nat, n: nat, done: set<Key>, g: Key, dst: nat, body: Body)
    requires Emptied(l, ps0, ps1, ix, first, n, done) && RunPages(l, ps1, ps, first, n, g, n)
    requires Shape(l, ps, ix, data) && g in ix && dst < |ps| && !(first <= dst < first + n)
    ensures Emptied(l, ps0, Moved(ps, ix[g], dst, body), ix[g := dst], first, n, done + {g})
  {
    assert ps[ix[g]].IsIx();
  }

  lemma StoreSame(l: Layout, ps0: seq<Page>, data0: Where, ps1: seq<Page>, data1: Where, ps: seq<Page>, ix: Where, data: Where,
                  g: Key, dst: nat, body: Body)
    requires SameData(ps0, data0, ps1, data1) && SameData(ps1, data1, ps, data)
    requires Shape(l, ps, ix, data) && g in ix && dst < |ps| && ps[dst].lu == Free
    ensures SameData(ps0, data0, Moved(ps, ix[g], dst, body), data)
  {
  }

  lemma StoreResolved(l: Layout, ps0: seq<Page>, ps1: seq<Page>, ix: Where, data1: Where,
                      ps: seq<Page>, data: Where, work: seq<nat>,
                      first: nat, n: nat, done: set<Key>, g: Key, dst: nat)
    requires Shape(l, ps1, ix, data1) && Emptied(l, ps0, ps1, ix, first, n, done)
    requires Resolved(l, ps0, ps1, ix, data1, first, n, done) && g !in done
    requires Run(l, ps1, data1, ps, ix, data, work, first, n, g, n)
    requires dst < |ps| && ps[dst].lu == Free && !(first <= dst < first + n)
    requires Shape(l, Moved(ps, ix[g], dst, Index(work)), ix[g := dst], data)
    ensures Resolved(l, ps0, Moved(ps, ix[g], dst, Index(work)), ix[g := dst], data, first, n, done + {g})
  {
    var qs, ix2 := Moved(ps, ix[g], dst, Index(work)), ix[g := dst];
    forall k | k in data
      ensures Resolves(l, qs, ix2, data, k) <==> !(l.Group(k) in done + {g} && Last(ps0, first, k, n) == Gone)
    {
      hide Emptied, SameData, Shape;
      if l.Group(k) == g {
        FatesKept(l, ps0, ps1, ix, first, n, done, k);
        StoredEntry(l, ps1, data1, ps, ix, data, work, first, n, g, k, dst);
      } else {
        assert Resolves(l, ps1, ix, data1, k) <==> !(l.Group(k) in done && Last(ps0, first, k, n) == Gone);
        OtherEntry(l, ps1, data1, ps, ix, data, work, first, n, g, k, dst);
      }
    }
  }

  lemma StoredEntry(l: Layout, ps1: seq<Page>, data1: Where, ps: seq<Page>, ix: Where, data: Where, work: seq<nat>,
                    first: nat, n: nat, g: Key, k: Key, dst: nat)
    requires Run(l, ps1, data1, ps, ix, data, work, first, n, g, n) && k in data && l.Group(k) == g
    requires dst < |ps| && ps[dst].lu == Free && Shape(l, Moved(ps, ix[g], dst, Index(work)), ix[g := dst], data)
    ensures Resolves(l, Moved(ps, ix[g], dst, Index(work)), ix[g := dst], data, k) <==> Last(ps1, first, k, n) != Gone
  {
    assert data[k] < |ps|;
    assert ps[ix[g]].lu != Free;
  }

  lemma OtherEntry(l: Layout, ps1: seq<Page>, data1: Where, ps: seq<Page>, ix: Where, data: Where, work: seq<nat>,
                   first: nat, n: nat, g: Key, k: Key, dst: nat)
    requires Shape(l, ps1, ix, data1) && Run(l, ps1, data1, ps, ix, data, work, first, n, g, n)
    requires k in data && l.Group(k) != g
    requires dst < |ps| && ps[dst].lu == Free && Shape(l, Moved(ps, ix[g], dst, Index(work)), ix[g := dst], data)
    ensures k in data1 && (Resolves(l, Moved(ps, ix[g], dst, Index(work)), ix[g := dst], data, k)
                           <==> Resolves(l, ps1, ix, data1, k))
  {
    IxUntouched(l, ps1, ix, data1, ps, first, n, g, l.Group(k));
    assert ps[ix[l.Group(k)]].lu != Free && ix[l.Group(k)] != ix[g];
  }

  /** A run not yet begun finds the block's pages for its index page as they were. */
  lemma FatesKept(l: Layout, ps0: seq<Page>, ps1: seq<Page>, ix: Where, first: nat, n: nat, done: set<Key>, k: Key)
    requires Emptied(l, ps0, ps1, ix, first, n, done) && l.Group(k) !in done
    ensures Last(ps0, first, k, n) == Last(ps1, first, k, n)
  {
    forall p | first <= p < first + n ensures SameInRun(l, ps0[p], ps1[p], l.Group(k)) {
    }
    LastSame(l, ps0, ps1, first, k, n);
  }

  /** A run leaves the other index pages alone. */
  lemma IxUntouched(l: Layout, ps1: seq<Page>, ix: Where, data1: Where, ps: seq<Page>, first: nat, n: nat, g: Key, h: Key)
    requires Shape(l, ps1, ix, data1) && RunPages(l, ps1, ps, first, n, g, n) && h in ix
    ensures ps[ix[h]] == ps1[ix[h]]
  {
  }

  // ---------------------------------------------------------------- the index pages of the block

  predicate NoIds(ps: seq<Page>, lo: nat, hi: nat) {
    forall p :: lo <= p < hi && p < |ps| ==> !ps[p].lu.Id?
  }

  predicate NoData(ps: seq<Page>, lo: nat, hi: nat) {
    forall p :: lo <= p < hi && p < |ps| ==> !ps[p].IsData()
  }

  /** With the data pages gone, the first `c` of the block's entries belong to no object. */
  ghost predicate Emptying(l: Layout, ps0: seq<Page>, ix0: Where, data0: Where, ps: seq<Page>, ix: Where, data: Where,
                           first: nat, n: nat, done: set<Key>, c: nat)
  {
    && Cleaning(l, ps0, ix0, data0, ps, ix, data, first, n, done)
    && c <= n && NoData(ps, first, first + n) && NoIds(ps, first, first + c)
  }

  /** A live index page is moved out. */
  lemma EmptyMove(l: Layout, ps0: seq<Page>, ix0: Where, data0: Where, ps: seq<Page>, ix: Where, data: Where,
                  first: nat, n: nat, done: set<Key>, c: nat, dst: nat)
    requires Emptying(l, ps0, ix0, data0, ps, ix, data, first, n, done, c) && c < n
    requires ps[first + c].IsIx() && ps[first + c].live
    requires dst < |ps| && ps[dst].lu == Free && !(first <= dst < first + n)
    ensures Emptying(l, ps0, ix0, data0, Moved(ps, first + c, dst, ps[first + c].body),
                     ix[ps[first + c].At() := dst], data, first, n, done, c + 1)
  {
    var g, body := ps[first + c].At(), ps[first + c].body;
    var qs, ix2 := Moved(ps, first + c, dst, body), ix[g := dst];
    assert g in ix && ix[g] == first + c;
    MoveIx(l, ps, ix, data, g, dst, body);
    assert ix2.Keys == ix.Keys;
    StoreSame(l, ps0, data0, ps, data, ps, ix, data, g, dst, body);
    EmptyMoveResolved(l, ps0, ps, ix, data, first, n, done, g, dst);
    EmptyMovePages(l, ps0, ps, ix, data, first, n, done, g, dst, body);
  }

  lemma EmptyMovePages(l: Layout, ps0: seq<Page>, ps: seq<Page>, ix: Where, data: Where,
                       first: nat, n: nat, done: set<Key>, g: Key, dst: nat, body: Body)
    requires Emptied(l, ps0, ps, ix, first, n, done) && Shape(l, ps, ix, data)
    requires g in ix && dst < |ps| && !(first <= dst < first + n)
    ensures Emptied(l, ps0, Moved(ps, ix[g], dst, body), ix[g := dst], first, n, done)
  {
    assert ps[ix[g]].IsIx();
  }

  lemma EmptyMoveResolved(l: Layout, ps0: seq<Page>, ps: seq<Page>, ix: Where, data: Where,
                          first: nat, n: nat, done: set<Key>, g: Key, dst: nat)
    requires Shape(l, ps, ix, data) && first + n <= |ps0| && Resolved(l, ps0, ps, ix, data, first, n, done)
    requires g in ix && dst < |ps| && ps[dst].lu == Free
    requires Shape(l, Moved(ps, ix[g], dst, ps[ix[g]].body), ix[g := dst], data)
    ensures Resolved(l, ps0, Moved(ps, ix[g], dst, ps[ix[g]].body), ix[g := dst], data, first, n, done)
  {
    var qs, ix2 := Moved(ps, ix[g], dst, ps[ix[g]].body), ix[g := dst];
    forall k | k in data ensures Resolves(l, qs, ix2, data, k) <==> Resolves(l, ps, ix, data, k) {
      var h := l.Group(k);
      assert ps[ix[h]].lu != Free && (h != g ==> ix[h] != ix[g]);
    }
  }

  /** A dead one is scrapped. */
  lemma EmptyWipe(l: Layout, ps0: seq<Page>, ix0: Where, data0: Where, ps: seq<Page>, ix: Where, data: Where,
                  first: nat, n: nat, done: set<Key>, c: nat)
    requires Emptying(l, ps0, ix0, data0, ps, ix, data, first, n, done, c) && c < n
    requires ps[first + c].IsIx() && !ps[first + c].live
    ensures Emptying(l, ps0, ix0, data0, ps[first + c := Wiped(ps[first + c])], ix, data, first, n, done, c + 1)
  {
    WipeDead(l, ps, ix, data, first + c);
    WipeResolved(l, ps0, ps, ix, data, first, n, done, first + c);
    hide Shape, Resolved;
  }

  lemma WipeResolved(l: Layout, ps0: seq<Page>, ps: seq<Page>, ix: Where, data: Where,
                     first: nat, n: nat, done: set<Key>, p: nat)
    requires Shape(l, ps, ix, data) && first + n <= |ps0| && Resolved(l, ps0, ps, ix, data, first, n, done)
    requires p < |ps| && !ps[p].live && Shape(l, ps[p := Wiped(ps[p])], ix, data)
    ensures Resolved(l, ps0, ps[p := Wiped(ps[p])], ix, data, first, n, done)
  {
    var qs := ps[p := Wiped(ps[p])];
    forall k | k in data ensures Resolves(l, qs, ix, data, k) <==> Resolves(l, ps, ix, data, k) {
      assert ps[ix[l.Group(k)]].live;
    }
  }

  lemma EmptySkip(l: Layout, ps0: seq<Page>, ix0: Where, data0: Where, ps: seq<Page>, ix: Where, data: Where,
                  first: nat, n: nat, done: set<Key>, c: nat)
    requires Emptying(l, ps0, ix0, data0, ps, ix, data, first, n, done, c) && c < n && !ps[first + c].lu.Id?
    ensures Emptying(l, ps0, ix0, data0, ps, ix, data, first, n, done, c + 1)
  {
  }

  // ---------------------------------------------------------------- before and after

  /** A file system in order: every live part of an object resolves. */
  ghost predicate Consistent(l: Layout, ps: seq<Page>, ix: Where, data: Where) {
    Shape(l, ps, ix, data) && forall k :: k in data ==> Resolves(l, ps, ix, data, k)
  }

  /** The block has a data page of which there is no index page. It is a dead one. */
  ghost predicate Orphan(l: Layout, ps: seq<Page>, ix: Where, first: nat, n: nat)
    requires l.Valid()
  {
    exists p :: first <= p < first + n && p < |ps| && ps[p].IsData() && !ps[p].live && l.Group(ps[p].At()) !in ix
  }

  lemma CleaningStarts(l: Layout, ps: seq<Page>, ix: Where, data: Where, first: nat, n: nat)
    requires Consistent(l, ps, ix, data) && first + n <= |ps|
    ensures Cleaning(l, ps, ix, data, ps, ix, data, first, n, {})
  {
  }

  /** What cleaning promises: no page of the block belongs to an object, nothing live is lost or changed,
      and a part of an object resolves exactly when the last of the block's pages for it, if any, was live. */
  ghost predicate Cleaned(l: Layout, ps0: seq<Page>, ix0: Where, data0: Where, ps: seq<Page>, ix: Where, data: Where,
                          first: nat, n: nat)
  {
    && Shape(l, ps, ix, data) && |ps| == |ps0| && first + n <= |ps|
    && NoIds(ps, first, first + n)
    && ix.Keys == ix0.Keys && SameData(ps0, data0, ps, data)
    && forall k :: k in data ==> (Resolves(l, ps, ix, data, k) <==> Last(ps0, first, k, n) != Gone)
  }

  lemma CleaningEnds(l: Layout, ps0: seq<Page>, ix0: Where, data0: Where, ps: seq<Page>, ix: Where, data: Where,
                     first: nat, n: nat, done: set<Key>)
    requires Emptying(l, ps0, ix0, data0, ps, ix, data, first, n, done, n)
    ensures Cleaned(l, ps0, ix0, data0, ps, ix, data, first, n)
  {
    forall k | k in data && l.Group(k) !in done ensures Last(ps0, first, k, n) == Absent {
      LastAbsent(l, ps0, ps, ix, first, n, done, k, n);
    }
  }

  /** Where no run was needed, the block had no page. */
  lemma {:induction false} LastAbsent(l: Layout, ps0: seq<Page>, ps: seq<Page>, ix: Where, first: nat, n: nat, done: set<Key>, k: Key, c: nat)
    requires Emptied(l, ps0, ps, ix, first, n, done) && NoData(ps, first, first + n) && l.Group(k) !in done && c <= n
    ensures Last(ps0, first, k, c) == Absent
  {
    if c > 0 {
      LastAbsent(l, ps0, ps, ix, first, n, done, k, c - 1);
    }
  }

  /** When the last of the block's pages for every part of an object is a live one, the file system is in
      order afterwards as well. */
  lemma CleanedConsistent(l: Layout, ps0: seq<Page>, ix0: Where, data0: Where, ps: seq<Page>, ix: Where, data: Where,
                          first: nat, n: nat)
    requires Cleaned(l, ps0, ix0, data0, ps, ix, data, first, n)
    ensures Consistent(l, ps, ix, data) <==> forall k :: k in data0 ==> Last(ps0, first, k, n) != Gone
  {
    if Consistent(l, ps, ix, data) {
      forall k | k in data0 ensures Last(ps0, first, k, n) != Gone {
        assert k in data.Keys;
      }
    } else {
      assert exists k :: k in data && !Resolves(l, ps, ix, data, k);
      var k :| k in data && !Resolves(l, ps, ix, data, k);
      assert k in data0.Keys;
    }
  }

  /** The pages of an image that is damaged: a dead data page at the end, in the block to be cleaned, which the
      lookup still gives to its object, beside the live page of the same part of it. There is a free page. */
  function Damaged(): seq<Page> {
    var page := Page(Id(1, false), 0, true, Data([7]));
    [Page(Id(1, true), 0, true, Index([1, FREE_PIX])), page, Page(Free, 0, true, Blank), page.(live := false, body := Data([6]))]
  }

  /** The same after cleaning: the dead page is wiped, and the index page, moved to the free one, has lost the
      live page. */
  function Unlinked(): seq<Page> {
    var ps := Damaged();
    [Wiped(ps[0]), ps[1], Page(Id(1, true), 0, true, Index([FREE_PIX, FREE_PIX])), Wiped(ps[3])]
  }

  /** It can fail: the object index of the damaged image leads to its data, cleaning can end as promised, and
      however it ends so, the index leads there no more. */
  lemma CleanUnlinks()
    ensures var l, ps, k := Layout(2, 2), Damaged(), Key(1, 0);
            && Consistent(l, ps, map[k := 0], map[k := 1])
            && Cleaned(l, ps, map[k := 0], map[k := 1], Unlinked(), map[k := 2], map[k := 1], 3, 1)
            && forall qs, ix, data :: Cleaned(l, ps, map[k := 0], map[k := 1], qs, ix, data, 3, 1) ==>
                 !Consistent(l, qs, ix, data)
  {
    var l, ps, k := Layout(2, 2), Damaged(), Key(1, 0);
    var ix0, data0 := map[k := 0], map[k := 1];
    assert Last(ps, 3, k, 1) == Gone;
    assert SameData(ps, data0, Unlinked(), data0);
    forall qs, ix, data | Cleaned(l, ps, ix0, data0, qs, ix, data, 3, 1) ensures !Consistent(l, qs, ix, data) {
      CleanedConsistent(l, ps, ix0, data0, qs, ix, data, 3, 1);
      assert k in data0;
    }
  }
}
