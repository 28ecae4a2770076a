/** spiffs_gc_find_candidate: the blocks worth cleaning, best first. */
module SpiffsCandidates {
  import opened SpiffsGc

  const W_DELET := 5
  const W_USED := -1
  const W_ERASE_AGE := 50
  const NO_BLOCK := 0xFFFF

  datatype Cand = Cand(bix: nat, score: int)

  /** A block: its lookup entries and its erase count. */
  datatype Block = Block(lu: seq<Lu>, eraseCount: nat)

  // ---------------------------------------------------------------- scores

  /** How many entries up to the first free one are deleted, or used. */
  function CountTo(lu: seq<Lu>, k: nat, deleted: bool): nat
    requires k <= |lu|
  {
    if k == 0 then 0 else CountTo(lu, k - 1, deleted) + if (lu[k - 1] == Deleted) == deleted then 1 else 0
  }

  function FirstFree(lu: seq<Lu>): (k: nat)
    ensures k <= |lu| && (k < |lu| ==> lu[k] == Free)
    ensures forall i :: 0 <= i < k ==> lu[i] != Free
  {
    if lu == [] || lu[0] == Free then 0 else 1 + FirstFree(lu[1..])
  }

  /** How far a block is behind the most erased one, in 16 bits. */
  function EraseAge(maxEraseCount: nat, eraseCount: nat): int {
    if maxEraseCount > eraseCount then maxEraseCount - eraseCount else 0xFFFF - (eraseCount - maxEraseCount)
  }

  function Weigh(deleted: nat, used: nat, eraseAge: int, crammed: bool): int {
    deleted * W_DELET + used * W_USED + eraseAge * if crammed then 0 else W_ERASE_AGE
  }

  function Score(b: Block, maxEraseCount: nat, crammed: bool): int {
    var k := FirstFree(b.lu);
    Weigh(CountTo(b.lu, k, true), CountTo(b.lu, k, false), EraseAge(maxEraseCount, b.eraseCount), crammed)
  }

  /** The blocks with a deleted page among the first k, in order. */
  function Cands(bs: seq<Block>, maxEraseCount: nat, crammed: bool, k: nat): (cs: seq<Cand>)
    requires k <= |bs|
    ensures forall i :: 0 <= i < |cs| ==> cs[i].bix < k
  {
    if k == 0 then []
    else
      Cands(bs, maxEraseCount, crammed, k - 1)
      + if CountTo(bs[k - 1].lu, FirstFree(bs[k - 1].lu), true) > 0
        then [Cand(k - 1, Score(bs[k - 1], maxEraseCount, crammed))] else []
  }

  lemma {:induction false} FirstFreeKept(lu: seq<Lu>, i: nat)
    requires i < FirstFree(lu)
    ensures FirstFree(lu[i := Deleted]) == FirstFree(lu)
  {
    if i > 0 {
      assert lu[i := Deleted][1..] == lu[1..][i - 1 := Deleted];
      FirstFreeKept(lu[1..], i - 1);
    } else {
      assert lu[0 := Deleted][1..] == lu[1..];
    }
  }

  lemma {:induction false} CountChanged(lu: seq<Lu>, i: nat, k: nat)
    requires i < |lu| && k <= |lu| && lu[i] != Deleted
    ensures CountTo(lu[i := Deleted], k, true) == CountTo(lu, k, true) + if i < k then 1 else 0
    ensures CountTo(lu[i := Deleted], k, false) == CountTo(lu, k, false) - if i < k then 1 else 0
  {
    if k > 0 {
      CountChanged(lu, i, k - 1);
    }
  }

  /** A page more that is deleted instead of used makes a block better by 5 + 1. */
  lemma DeletionRaises(b: Block, i: nat, maxEraseCount: nat, crammed: bool)
    requires i < FirstFree(b.lu) && b.lu[i] != Deleted
    ensures Score(b.(lu := b.lu[i := Deleted]), maxEraseCount, crammed) == Score(b, maxEraseCount, crammed) + 6
  {
    FirstFreeKept(b.lu, i);
    CountChanged(b.lu, i, FirstFree(b.lu));
  }

  /** A deleted page more makes a block better by 5, and a used one worse by 1. */
  lemma MorePages(b: Block, lu: Lu, maxEraseCount: nat, crammed: bool)
    requires FirstFree(b.lu) == |b.lu| && lu != Free
    ensures Score(b.(lu := b.lu + [lu]), maxEraseCount, crammed)
         == Score(b, maxEraseCount, crammed) + if lu == Deleted then 5 else -1
  {
    FirstFreeMore(b.lu, lu);
    CountFront(b.lu, lu, |b.lu|, true);
    CountFront(b.lu, lu, |b.lu|, false);
  }

  lemma {:induction false} FirstFreeMore(lus: seq<Lu>, lu: Lu)
    requires FirstFree(lus) == |lus| && lu != Free
    ensures FirstFree(lus + [lu]) == |lus| + 1
  {
    if lus != [] {
      assert (lus + [lu])[1..] == lus[1..] + [lu];
      FirstFreeMore(lus[1..], lu);
    } else {
      assert ([lu])[1..] == [];
    }
  }

  lemma {:induction false} CountFront(lus: seq<Lu>, lu: Lu, k: nat, deleted: bool)
    requires k <= |lus|
    ensures CountTo(lus + [lu], k, deleted) == CountTo(lus, k, deleted)
  {
    if k > 0 {
      CountFront(lus, lu, k - 1, deleted);
    }
  }

  /** Every erasure that a block is behind the most erased one makes it better by 50, unless the flash is crammed. */
  lemma WearLevels(b: Block, behind: nat, maxEraseCount: nat, crammed: bool)
    requires behind < maxEraseCount && b.eraseCount == maxEraseCount - 1
    ensures Score(b.(eraseCount := b.eraseCount - behind), maxEraseCount, crammed)
         == Score(b, maxEraseCount, crammed) + if crammed then 0 else 50 * behind
  {
  }

  // ---------------------------------------------------------------- the best of them

  /** A higher score, or the same in an earlier block. */
  predicate Before(a: Cand, b: Cand) {
    a.score > b.score || (a.score == b.score && a.bix < b.bix)
  }

  /** `t` holds the first `max` of `cs` in the order of Before, and is in that order. */
  predicate Best(t: seq<Cand>, cs: seq<Cand>, max: nat) {
    && |t| == (if |cs| < max then |cs| else max)
    && (forall i, j :: 0 <= i < j < |t| ==> Before(t[i], t[j]))
    && (forall i :: 0 <= i < |t| ==> t[i] in cs)
    && (forall c :: c in cs && c !in t ==> |cs| > max)
    && (forall c, j :: c in cs && c !in t && 0 <= j < |t| ==> Before(t[j], c))
  }

  /** The place of a later candidate: before the first with a lower score. */
  function Place(t: seq<Cand>, score: int): (i: nat)
    ensures i <= |t| && (i < |t| ==> t[i].score < score)
    ensures forall j :: 0 <= j < i ==> t[j].score >= score
  {
    if t == [] || t[0].score < score then 0 else 1 + Place(t[1..], score)
  }

  function Insert(t: seq<Cand>, c: Cand, max: nat): seq<Cand>
    requires |t| <= max
  {
    var i := Place(t, c.score);
    if |t| < max then t[..i] + [c] + t[i..]
    else if i < max then t[..i] + [c] + t[i..max - 1]
    else t
  }

  lemma InsertAt(t: seq<Cand>, c: Cand, max: nat, j: nat)
    requires |t| <= max && j < |Insert(t, c, max)|
    ensures var i := Place(t, c.score);
            Insert(t, c, max)[j] == if j < i then t[j] else if j == i then c else t[j - 1]
  {
  }

  lemma InsertSorted(t: seq<Cand>, cs: seq<Cand>, c: Cand, max: nat)
    requires Best(t, cs, max) && forall d :: d in cs ==> d.bix < c.bix
    ensures var i := Place(t, c.score);
            && (forall j :: 0 <= j < i ==> Before(t[j], c))
            && (forall j :: i <= j < |t| ==> Before(c, t[j]))
  {
    var i := Place(t, c.score);
    forall j | i <= j < |t| ensures Before(c, t[j]) {
      assert t[i].score < c.score;
      assert i < j ==> Before(t[i], t[j]);
    }
    forall j | 0 <= j < i ensures Before(t[j], c) {
      assert t[j] in cs;
    }
  }

  /** What an insertion keeps: all but a last one that no longer has a place. */
  lemma InsertKeeps(t: seq<Cand>, c: Cand, max: nat)
    requires |t| <= max
    ensures var i, u := Place(t, c.score), Insert(t, c, max);
            && (i < max ==> c in u)
            && (forall k :: 0 <= k < |t| && (k < i || k + 1 < max) ==> t[k] in u)
  {
    var i, u := Place(t, c.score), Insert(t, c, max);
    if i < max {
      InsertAt(t, c, max, i);
      assert u[i] in u;
    }
    forall k | 0 <= k < |t| && (k < i || k + 1 < max) ensures t[k] in u {
      var m := if k < i then k else k + 1;
      InsertAt(t, c, max, m);
      assert u[m] in u;
    }
  }

  /** Every candidate left out comes after those kept. */
  lemma LeftOut(t: seq<Cand>, cs: seq<Cand>, c: Cand, max: nat, d: Cand, j: nat)
    requires Best(t, cs, max) && (forall e :: e in cs ==> e.bix < c.bix)
    requires var u := Insert(t, c, max); d in cs + [c] && d !in u && j < |u|
    ensures Before(Insert(t, c, max)[j], d) && |cs| + 1 > max
  {
    InsertSorted(t, cs, c, max);
    InsertAt(t, c, max, j);
    InsertKeeps(t, c, max);
    if d in t {
      var k :| 0 <= k < |t| && t[k] == d;
      assert k == |t| - 1;
    }
  }

  lemma InsertBest(t: seq<Cand>, cs: seq<Cand>, c: Cand, max: nat)
    requires Best(t, cs, max) && forall d :: d in cs ==> d.bix < c.bix
    ensures Best(Insert(t, c, max), cs + [c], max)
  {
    var u := Insert(t, c, max);
    InsertSorted(t, cs, c, max);
    forall j, k | 0 <= j < k < |u| ensures Before(u[j], u[k]) {
      InsertAt(t, c, max, j);
      InsertAt(t, c, max, k);
    }
    forall j | 0 <= j < |u| ensures u[j] in cs + [c] {
      InsertAt(t, c, max, j);
    }
    forall d | d in cs + [c] && d !in u ensures |cs| + 1 > max {
      if |u| > 0 {
        LeftOut(t, cs, c, max, d, 0);
      }
    }
    forall d, j | d in cs + [c] && d !in u && 0 <= j < |u| ensures Before(u[j], d) {
      LeftOut(t, cs, c, max, d, j);
    }
  }

  /** The table of the first k blocks. */
  function TableOf(cs: seq<Cand>, max: nat): (t: seq<Cand>)
    ensures |t| <= max
  {
    if cs == [] then [] else Insert(TableOf(cs[..|cs| - 1], max), cs[|cs| - 1], max)
  }

  lemma {:induction false} TableBest(cs: seq<Cand>, max: nat)
    requires InOrder(cs)
    ensures Best(TableOf(cs, max), cs, max)
  {
    if cs != [] {
      var before := cs[..|cs| - 1];
      TableBest(before, max);
      InsertBest(TableOf(before, max), before, cs[|cs| - 1], max);
      assert cs == before + [cs[|cs| - 1]];
    }
  }

  // ---------------------------------------------------------------- the search

  /** The candidate memory: the table, and unused places behind it. */
  ghost predicate Holds(candBlocks: array<nat>, candScores: array<int>, t: seq<Cand>, max: nat)
    reads candBlocks, candScores
  {
    && |t| <= max == candBlocks.Length == candScores.Length
    && (forall i :: 0 <= i < |t| ==> t[i].bix < NO_BLOCK && candBlocks[i] == t[i].bix && candScores[i] == t[i].score)
    && (forall i :: |t| <= i < max ==> candBlocks[i] == NO_BLOCK)
  }

  /** A new candidate, put in its place with those behind it moved down. */
  method InsertCand(candBlocks: array<nat>, candScores: array<int>, max: nat, curBlock: nat, score: int, ghost t: seq<Cand>)
    requires Holds(candBlocks, candScores, t, max) && curBlock < NO_BLOCK
    modifies candBlocks, candScores
    ensures Holds(candBlocks, candScores, Insert(t, Cand(curBlock, score), max), max)
  {
    var candIx: nat := 0;
    while candIx < max
      invariant candIx <= |t| && Holds(candBlocks, candScores, t, max)
      invariant forall j :: 0 <= j < candIx ==> t[j].score >= score
    {
      if candBlocks[candIx] == NO_BLOCK {
        PlaceIs(t, score, candIx);
        candBlocks[candIx] := curBlock;
        candScores[candIx] := score;
        assert Insert(t, Cand(curBlock, score), max) == t + [Cand(curBlock, score)];
        return;
      } else if candScores[candIx] < score {
        PlaceIs(t, score, candIx);
        PutAt(candBlocks, candScores, max, candIx, curBlock, score, t);
        return;
      }
      candIx := candIx + 1;
    }
    PlaceIs(t, score, candIx);
  }

  method PutAt(candBlocks: array<nat>, candScores: array<int>, max: nat, candIx: nat, curBlock: nat, score: int,
               ghost t: seq<Cand>)
    requires Holds(candBlocks, candScores, t, max) && curBlock < NO_BLOCK
    requires candIx < |t| && candIx == Place(t, score)
    modifies candBlocks, candScores
    ensures Holds(candBlocks, candScores, Insert(t, Cand(curBlock, score), max), max)
  {
    ghost var c := Cand(curBlock, score);
    ghost var u := Insert(t, c, max);
    forall j | 0 <= j < |u| ensures u[j] == if j < candIx then t[j] else if j == candIx then c else t[j - 1] {
      InsertAt(t, c, max, j);
    }
    hide Insert, Place;
    Shift(candBlocks, candScores, max, candIx);
    candBlocks[candIx] := curBlock;
    candScores[candIx] := score;
  }

  /** From candIx on, each place takes what the one before it had. */
  method Shift(candBlocks: array<nat>, candScores: array<int>, max: nat, candIx: nat)
    requires candIx < max == candBlocks.Length == candScores.Length
    modifies candBlocks, candScores
    ensures forall i :: 0 <= i <= candIx ==> candBlocks[i] == old(candBlocks[i]) && candScores[i] == old(candScores[i])
    ensures forall i :: candIx < i < max ==> candBlocks[i] == old(candBlocks[i - 1]) && candScores[i] == old(candScores[i - 1])
  {
    var reorderCandIx: int := max - 2;
    while reorderCandIx >= candIx
      invariant candIx - 1 <= reorderCandIx <= max - 2
      invariant forall i :: 0 <= i <= reorderCandIx + 1 ==> candBlocks[i] == old(candBlocks[i]) && candScores[i] == old(candScores[i])
      invariant forall i :: reorderCandIx + 1 < i < max ==>
                  candBlocks[i] == old(candBlocks[i - 1]) && candScores[i] == old(candScores[i - 1])
    {
      candBlocks[reorderCandIx + 1] := candBlocks[reorderCandIx];
      candScores[reorderCandIx + 1] := candScores[reorderCandIx];
      reorderCandIx := reorderCandIx - 1;
    }
  }

  lemma {:induction false} PlaceIs(t: seq<Cand>, score: int, i: nat)
    requires i <= |t| && (i < |t| ==> t[i].score < score) && forall j :: 0 <= j < i ==> t[j].score >= score
    ensures Place(t, score) == i
  {
  }

  /** The pages of a block: how many are deleted and how many used, up to the first free one. */
  method CountPages(lu: seq<Lu>) returns (deleted: nat, used: nat)
    ensures deleted == CountTo(lu, FirstFree(lu), true) && used == CountTo(lu, FirstFree(lu), false)
  {
    deleted, used := 0, 0;
    var curEntry: nat := 0;
    while curEntry < |lu|
      invariant curEntry <= |lu| && forall i :: 0 <= i < curEntry ==> lu[i] != Free
      invariant deleted == CountTo(lu, curEntry, true) && used == CountTo(lu, curEntry, false)
    {
      if lu[curEntry] == Free {
        break;
      } else if lu[curEntry] == Deleted {
        deleted := deleted + 1;
      } else {
        used := used + 1;
      }
      curEntry := curEntry + 1;
    }
    FirstFreeIs(lu, curEntry);
  }

  lemma FirstFreeIs(lu: seq<Lu>, k: nat)
    requires k <= |lu| && (k < |lu| ==> lu[k] == Free) && forall i :: 0 <= i < k ==> lu[i] != Free
    ensures FirstFree(lu) == k
  {
  }

  /** spiffs_gc_find_candidate: the table holds the best blocks in order. The count is of all the blocks
      with a deleted page, also when the table is full. */
  method FindCandidate(bs: seq<Block>, maxEraseCount: nat, crammed: bool, candBlocks: array<nat>, candScores: array<int>, max: nat)
    returns (candidateCount: nat)
    requires |bs| < NO_BLOCK && candBlocks.Length == candScores.Length == max
    modifies candBlocks, candScores
    ensures var cs := Cands(bs, maxEraseCount, crammed, |bs|);
            candidateCount == |cs| && Holds(candBlocks, candScores, TableOf(cs, max), max)
  {
    hide *;
    NoCands(bs, maxEraseCount, crammed, max);
    Clear(candBlocks, candScores, max);
    candidateCount := 0;
    var curBlock: nat := 0;
    while curBlock < |bs|
      invariant curBlock <= |bs|
      invariant var cs := Cands(bs, maxEraseCount, crammed, curBlock);
                candidateCount == |cs| && Holds(candBlocks, candScores, TableOf(cs, max), max)
    {
      ghost var cs := Cands(bs, maxEraseCount, crammed, curBlock);
      var deleted, used := CountPages(bs[curBlock].lu);
      NextCand(bs, maxEraseCount, crammed, curBlock, max);
      if deleted > 0 {
        var score := Weigh(deleted, used, EraseAge(maxEraseCount, bs[curBlock].eraseCount), crammed);
        InsertCand(candBlocks, candScores, max, curBlock, score, TableOf(cs, max));
        candidateCount := candidateCount + 1;
      }
      curBlock := curBlock + 1;
    }
  }

  /** memset to 0xFF */
  method Clear(candBlocks: array<nat>, candScores: array<int>, max: nat)
    requires candBlocks.Length == candScores.Length == max
    modifies candBlocks
    ensures Holds(candBlocks, candScores, [], max)
  {
    forall i | 0 <= i < max {
      candBlocks[i] := NO_BLOCK;
    }
  }

  lemma NoCands(bs: seq<Block>, maxEraseCount: nat, crammed: bool, max: nat)
    ensures Cands(bs, maxEraseCount, crammed, 0) == [] && TableOf(Cands(bs, maxEraseCount, crammed, 0), max) == []
    ensures NO_BLOCK == 0xFFFF
  {
  }

  lemma NextCand(bs: seq<Block>, maxEraseCount: nat, crammed: bool, k: nat, max: nat)
    requires k < |bs|
    ensures var cs, ds := Cands(bs, maxEraseCount, crammed, k), Cands(bs, maxEraseCount, crammed, k + 1);
            var c := Cand(k, Score(bs[k], maxEraseCount, crammed));
            if CountTo(bs[k].lu, FirstFree(bs[k].lu), true) > 0
            then |ds| == |cs| + 1 && c.score == Weigh(CountTo(bs[k].lu, FirstFree(bs[k].lu), true),
                                                      CountTo(bs[k].lu, FirstFree(bs[k].lu), false),
                                                      EraseAge(maxEraseCount, bs[k].eraseCount), crammed)
                 && TableOf(ds, max) == Insert(TableOf(cs, max), c, max)
            else ds == cs
  {
    var cs, ds := Cands(bs, maxEraseCount, crammed, k), Cands(bs, maxEraseCount, crammed, k + 1);
    if CountTo(bs[k].lu, FirstFree(bs[k].lu), true) > 0 {
      assert ds[..|cs|] == cs;
    }
  }

  predicate InOrder(cs: seq<Cand>) {
    forall i, j :: 0 <= i < j < |cs| ==> cs[i].bix < cs[j].bix
  }

  lemma {:induction false} CandsInOrder(bs: seq<Block>, maxEraseCount: nat, crammed: bool, k: nat)
    requires k <= |bs|
    ensures InOrder(Cands(bs, maxEraseCount, crammed, k))
  {
    if k > 0 {
      CandsInOrder(bs, maxEraseCount, crammed, k - 1);
      var before := Cands(bs, maxEraseCount, crammed, k - 1);
      assert before <= Cands(bs, maxEraseCount, crammed, k);
    }
  }

  /** What the search finds is the best of the blocks with a deleted page; the first is one of maximal score. */
  lemma FoundBest(bs: seq<Block>, maxEraseCount: nat, crammed: bool, max: nat)
    ensures var cs := Cands(bs, maxEraseCount, crammed, |bs|);
            var t := TableOf(cs, max);
            Best(t, cs, max) && (t != [] ==> forall c :: c in cs ==> c.score <= t[0].score)
  {
    hide Cands, TableOf;
    var cs := Cands(bs, maxEraseCount, crammed, |bs|);
    var t := TableOf(cs, max);
    CandsInOrder(bs, maxEraseCount, crammed, |bs|);
    TableBest(cs, max);
    forall c | c in cs && t != [] ensures c.score <= t[0].score {
      if c in t {
        var i :| 0 <= i < |t| && t[i] == c;
      }
    }
  }
}
