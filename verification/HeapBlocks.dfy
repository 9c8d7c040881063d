/** The heap of forth_heap.c as a list of blocks: what the walk, the split and the
    coalescing loop do to the list, and what no sequence of them can break. */
module HeapBlocks {
  import opened Words

  /** A block as its header describes it; the size counts the 8 header bytes. */
  datatype Block = Block(addr: int, size: int, busy: bool)

  const HEADER_SIZE: int := 8

  /** The blocks follow each other without gap or overlap and cover lo..hi exactly. */
  ghost predicate Tiled(bs: seq<Block>, lo: int, hi: int) {
    if bs == [] then lo == hi
    else
      && bs[0].addr == lo
      && bs[0].size >= HEADER_SIZE && bs[0].size % 4 == 0
      && Tiled(bs[1..], lo + bs[0].size, hi)
  }

  ghost predicate NoAdjacentFree(bs: seq<Block>) {
    |bs| >= 2 ==> (bs[0].busy || bs[1].busy) && NoAdjacentFree(bs[1..])
  }

  /** The invariant of every reachable heap. */
  ghost predicate HeapInv(bs: seq<Block>, lo: int, hi: int) {
    && Tiled(bs, lo, hi)
    && NoAdjacentFree(bs)
    && bs != [] && bs[|bs| - 1].size >= HEADER_SIZE + 4
  }

  /** The address of block i, or of the end of the range. */
  function AddrAt(bs: seq<Block>, hi: int, i: nat): int
    requires i <= |bs|
  {
    if i < |bs| then bs[i].addr else hi
  }

  /** The tiling by index: each block ends where the next one begins, and extents
      ascend and are disjoint pairwise. */
  lemma {:induction false} TiledAt(bs: seq<Block>, lo: int, hi: int, i: nat)
    requires Tiled(bs, lo, hi) && i < |bs|
    ensures bs[i].size >= HEADER_SIZE && bs[i].size % 4 == 0
    ensures lo <= bs[i].addr && bs[i].addr + bs[i].size == AddrAt(bs, hi, i + 1) <= hi
    ensures lo % 4 == 0 ==> bs[i].addr % 4 == 0
    ensures bs[0].addr == lo
    ensures forall j | i < j < |bs| :: bs[i].addr + bs[i].size <= bs[j].addr
  {
    var mid := lo + bs[0].size;
    if i > 0 {
      TiledAt(bs[1..], mid, hi, i - 1);
      forall j | i < j < |bs|
        ensures bs[i].addr + bs[i].size <= bs[j].addr
      {
        assert bs[1..][j - 1] == bs[j];
      }
    } else {
      TiledUpper(bs[1..], mid, hi);
      forall j | i < j < |bs|
        ensures mid <= bs[j].addr
      {
        TiledAt(bs[1..], mid, hi, j - 1);
      }
    }
  }

  lemma {:induction false} TiledUpper(bs: seq<Block>, lo: int, hi: int)
    requires Tiled(bs, lo, hi)
    ensures lo <= hi && (bs != [] ==> bs[0].addr == lo)
  {
    if bs == [] {
    } else {
      TiledUpper(bs[1..], lo + bs[0].size, hi);
    }
  }

  lemma TiledPairwise(bs: seq<Block>, lo: int, hi: int)
    requires Tiled(bs, lo, hi)
    ensures forall i | 0 <= i < |bs| ::
              && bs[i].size >= HEADER_SIZE && bs[i].size % 4 == 0
              && lo <= bs[i].addr && bs[i].addr + bs[i].size <= hi
              && (lo % 4 == 0 ==> bs[i].addr % 4 == 0)
    ensures forall i, j | 0 <= i < j < |bs| :: bs[i].addr + bs[i].size <= bs[j].addr
  {
    forall i | 0 <= i < |bs|
      ensures bs[i].size >= HEADER_SIZE && bs[i].size % 4 == 0
      ensures lo <= bs[i].addr && bs[i].addr + bs[i].size <= hi
      ensures lo % 4 == 0 ==> bs[i].addr % 4 == 0
      ensures forall j | i < j < |bs| :: bs[i].addr + bs[i].size <= bs[j].addr
    {
      TiledAt(bs, lo, hi, i);
    }
  }

  // ---- totals ---------------------------------------------------------------

  function Total(bs: seq<Block>): int {
    if bs == [] then 0 else bs[0].size + Total(bs[1..])
  }

  function TotalOf(bs: seq<Block>, busy: bool): int {
    if bs == [] then 0 else (if bs[0].busy == busy then bs[0].size else 0) + TotalOf(bs[1..], busy)
  }

  lemma {:induction false} TotalAppend(a: seq<Block>, b: seq<Block>)
    ensures Total(a + b) == Total(a) + Total(b)
  {
    if a == [] {
      assert a + b == b;
    } else {
      assert (a + b)[1..] == a[1..] + b;
      TotalAppend(a[1..], b);
    }
  }

  lemma {:induction false} TotalOfAppend(a: seq<Block>, b: seq<Block>, busy: bool)
    ensures TotalOf(a + b, busy) == TotalOf(a, busy) + TotalOf(b, busy)
  {
    if a == [] {
      assert a + b == b;
    } else {
      assert (a + b)[1..] == a[1..] + b;
      TotalOfAppend(a[1..], b, busy);
    }
  }

  /** Conservation: busy bytes plus free bytes are always the managed bytes. */
  lemma {:induction false} TotalsCoverRange(bs: seq<Block>, lo: int, hi: int)
    requires Tiled(bs, lo, hi)
    ensures Total(bs) == hi - lo
    ensures TotalOf(bs, true) + TotalOf(bs, false) == hi - lo
    ensures TotalOf(bs, true) >= 0 && TotalOf(bs, false) >= 0
  {
    if bs == [] {
    } else {
      TotalsCoverRange(bs[1..], lo + bs[0].size, hi);
    }
  }

  // ---- first fit ------------------------------------------------------------

  predicate Fits(b: Block, need: int) {
    !b.busy && b.size >= need
  }

  /** The first block from index k on that is free and large enough, or |bs|. */
  function FirstFit(bs: seq<Block>, need: int, k: nat): (r: nat)
    requires k <= |bs|
    ensures k <= r <= |bs|
    ensures r < |bs| ==> Fits(bs[r], need)
    ensures forall j | k <= j < r :: !Fits(bs[j], need)
    decreases |bs| - k
  {
    if k == |bs| || Fits(bs[k], need) then k else FirstFit(bs, need, k + 1)
  }

  /** Every block can hold a header, so requests of at most 8 bytes all stop at the
      first free block. */
  lemma {:induction false} FirstFitSmall(bs: seq<Block>, need: int, k: nat)
    requires k <= |bs| && need <= HEADER_SIZE && forall i | 0 <= i < |bs| :: bs[i].size >= HEADER_SIZE
    ensures FirstFit(bs, need, k) == FirstFit(bs, 0, k)
    decreases |bs| - k
  {
    if k == |bs| {
    } else {
      FirstFitSmall(bs, need, k + 1);
    }
  }

  /** Block i is handed out: split when the rest can hold a header and 4 bytes. */
  function TakeBlock(bs: seq<Block>, i: nat, need: int): seq<Block>
    requires i < |bs|
  {
    if bs[i].size >= need + HEADER_SIZE + 4 then
      bs[..i] + [Block(bs[i].addr, need, true), Block(bs[i].addr + need, bs[i].size - need, false)] + bs[i + 1..]
    else
      bs[i := bs[i].(busy := true)]
  }

  lemma SplitFirst(b: Block, rest: seq<Block>, lo: int, hi: int, need: int)
    requires HeapInv([b] + rest, lo, hi) && !b.busy
    requires HEADER_SIZE <= need && need % 4 == 0 && b.size >= need + HEADER_SIZE + 4
    ensures HeapInv([Block(lo, need, true), Block(lo + need, b.size - need, false)] + rest, lo, hi)
  {
    var bs := [b] + rest;
    assert bs[1..] == rest;
    var tail := [Block(lo + need, b.size - need, false)] + rest;
    assert tail[1..] == rest;
    assert rest != [] ==> tail[1] == bs[1] && tail[|tail| - 1] == bs[|bs| - 1];
    var r := [Block(lo, need, true), Block(lo + need, b.size - need, false)] + rest;
    assert r[1..] == tail;
  }

  lemma MarkFirst(b: Block, rest: seq<Block>, lo: int, hi: int)
    requires HeapInv([b] + rest, lo, hi)
    ensures HeapInv([b.(busy := true)] + rest, lo, hi)
  {
    var bs, r := [b] + rest, [b.(busy := true)] + rest;
    assert bs[1..] == rest && r[1..] == rest;
    assert rest != [] ==> r[|r| - 1] == bs[|bs| - 1] && r[1] == bs[1];
  }

  lemma TailInv(b: Block, bs: seq<Block>, lo: int, hi: int)
    requires HeapInv([b] + bs, lo, hi) && bs != []
    ensures HeapInv(bs, lo + b.size, hi)
  {
    assert ([b] + bs)[1..] == bs && ([b] + bs)[|bs|] == bs[|bs| - 1];
  }

  lemma PrependKeepsInv(b: Block, bs: seq<Block>, r: seq<Block>, lo: int, hi: int)
    requires HeapInv([b] + bs, lo, hi) && bs != [] && HeapInv(r, lo + b.size, hi)
    requires r[0].busy || r[0].busy == bs[0].busy
    ensures HeapInv([b] + r, lo, hi)
  {
    assert ([b] + bs)[1..] == bs && ([b] + r)[1..] == r;
    assert ([b] + bs)[|bs|] == bs[|bs| - 1] && ([b] + r)[|r|] == r[|r| - 1];
  }

  lemma {:induction false} TakeKeepsInv(bs: seq<Block>, lo: int, hi: int, i: nat, need: int)
    requires HeapInv(bs, lo, hi) && i < |bs| && Fits(bs[i], need)
    requires need >= HEADER_SIZE && need % 4 == 0
    ensures HeapInv(TakeBlock(bs, i, need), lo, hi)
    ensures var t := TakeBlock(bs, i, need)[i]; t.addr == bs[i].addr && t.busy && need <= t.size <= bs[i].size
  {
    var b, rest := bs[0], bs[1..];
    assert bs == [b] + rest;
    hide NoAdjacentFree;
    if i > 0 {
      hide HeapInv, Tiled;
      var r := TakeBlock(rest, i - 1, need);
      assert TakeBlock(bs, i, need) == [b] + r;
      TailInv(b, rest, lo, hi);
      TakeKeepsInv(rest, lo + b.size, hi, i - 1, need);
      PrependKeepsInv(b, rest, r, lo, hi);
    } else if b.size >= need + HEADER_SIZE + 4 {
      SplitFirst(b, rest, lo, hi, need);
      assert TakeBlock(bs, 0, need) == [Block(lo, need, true), Block(lo + need, b.size - need, false)] + rest;
    } else {
      MarkFirst(b, rest, lo, hi);
      assert TakeBlock(bs, 0, need) == [b.(busy := true)] + rest;
    }
  }

  // ---- coalescing -----------------------------------------------------------

  /** The header that remains when b is merged into a. The line as written adds
      `extra` == 8 although both sizes already count their headers. */
  function Merge(a: Block, b: Block, extra: int): Block {
    Block(a.addr, a.size + b.size + extra, false)
  }

  /** The coalescing loop on the list from the current block on: a merge stays on
      the block, everything else moves on. */
  function Coalesce(bs: seq<Block>, extra: int): (r: seq<Block>)
    ensures |r| <= |bs|
    decreases |bs|
  {
    if |bs| < 2 then bs
    else if !bs[0].busy && !bs[1].busy then Coalesce([Merge(bs[0], bs[1], extra)] + bs[2..], extra)
    else [bs[0]] + Coalesce(bs[1..], extra)
  }

  /** forth_heap_free on the list: clear the busy bit of block i, then coalesce. */
  function Release(bs: seq<Block>, i: nat, extra: int): seq<Block>
    requires i < |bs|
  {
    Coalesce(bs[i := bs[i].(busy := false)], extra)
  }

  function Busies(bs: seq<Block>): seq<Block> {
    if bs == [] then []
    else if bs[0].busy then [bs[0]] + Busies(bs[1..])
    else Busies(bs[1..])
  }

  lemma {:induction false} BusiesAppend(a: seq<Block>, b: seq<Block>)
    ensures Busies(a + b) == Busies(a) + Busies(b)
  {
    if a == [] {
      assert a + b == b;
    } else {
      assert (a + b)[1..] == a[1..] + b;
      BusiesAppend(a[1..], b);
    }
  }

  /** Coalescing a tiling gives a tiling of the same range with no two free
      neighbours and exactly the same busy blocks. */
  lemma {:induction false} CoalesceFuses(bs: seq<Block>, lo: int, hi: int)
    requires Tiled(bs, lo, hi) && bs != []
    ensures Tiled(Coalesce(bs, 0), lo, hi)
    ensures NoAdjacentFree(Coalesce(bs, 0))
    ensures Busies(Coalesce(bs, 0)) == Busies(bs)
    ensures var r := Coalesce(bs, 0);
            && r != []
            && r[|r| - 1].size >= bs[|bs| - 1].size
            && r[0].busy == bs[0].busy
    decreases |bs|
  {
    if |bs| >= 2 {
      assert bs[1..][1..] == bs[2..];
      if !bs[0].busy && !bs[1].busy {
        var c := [Merge(bs[0], bs[1], 0)] + bs[2..];
        assert c[1..] == bs[2..];
        CoalesceFuses(c, lo, hi);
      } else {
        CoalesceFuses(bs[1..], lo + bs[0].size, hi);
        assert Coalesce(bs, 0)[1..] == Coalesce(bs[1..], 0);
      }
    } else {
      assert bs[1..] == [];
    }
  }

  /** A tiling without free neighbours is determined by its busy blocks: so the
      list of CoalesceFuses is the only possible result. */
  lemma {:induction false} Canonical(a: seq<Block>, b: seq<Block>, lo: int, hi: int)
    requires Tiled(a, lo, hi) && NoAdjacentFree(a)
    requires Tiled(b, lo, hi) && NoAdjacentFree(b)
    requires Busies(a) == Busies(b)
    ensures a == b
    decreases |a|
  {
    TiledUpper(a, lo, hi);
    TiledUpper(b, lo, hi);
    if a != [] {
      TiledUpper(a[1..], lo + a[0].size, hi);
    }
    if b != [] {
      TiledUpper(b[1..], lo + b[0].size, hi);
    }
    if a != [] && b != [] {
      FirstBusy(a, lo, hi);
      FirstBusy(b, lo, hi);
      assert a[0] == b[0];
      Canonical(a[1..], b[1..], lo + a[0].size, hi);
      assert a == [a[0]] + a[1..] && b == [b[0]] + b[1..];
    }
  }

  /** The first busy block of a canonical tiling is its first or its second block. */
  lemma FirstBusy(a: seq<Block>, lo: int, hi: int)
    requires Tiled(a, lo, hi) && NoAdjacentFree(a) && a != []
    ensures a[0].busy ==> Busies(a) != [] && Busies(a)[0] == a[0] && Busies(a)[1..] == Busies(a[1..])
    ensures !a[0].busy ==> Busies(a) == Busies(a[1..])
    ensures !a[0].busy && |a| == 1 ==> Busies(a) == [] && a[0].size == hi - lo
    ensures !a[0].busy && |a| > 1 ==> Busies(a) != [] && Busies(a)[0].addr == lo + a[0].size
  {
    if |a| == 1 {
      assert a[1..] == [];
    }
  }

  /** Coalescing a list with no two free neighbours changes nothing, whatever is
      added on a merge. */
  lemma {:induction false} CoalesceIdle(bs: seq<Block>, extra: int)
    requires NoAdjacentFree(bs)
    ensures Coalesce(bs, extra) == bs
  {
    if |bs| < 2 {
    } else {
      CoalesceIdle(bs[1..], extra);
      assert bs == [bs[0]] + bs[1..];
    }
  }

  lemma {:induction false} NoAdjacentAt(bs: seq<Block>, k: nat)
    requires NoAdjacentFree(bs) && k + 1 < |bs|
    ensures bs[k].busy || bs[k + 1].busy
  {
    if k == 0 {
    } else {
      NoAdjacentAt(bs[1..], k - 1);
    }
  }

  lemma {:induction false} AdjacentFound(bs: seq<Block>) returns (k: nat)
    requires !NoAdjacentFree(bs)
    ensures k + 1 < |bs| && !bs[k].busy && !bs[k + 1].busy
  {
    if !bs[0].busy && !bs[1].busy {
      k := 0;
    } else {
      var j := AdjacentFound(bs[1..]);
      k := j + 1;
    }
  }

  /** Whatever a merge adds, coalescing keeps the live blocks and leaves no two free
      neighbours. */
  lemma {:induction false} CoalesceKeepsLive(bs: seq<Block>, extra: int)
    ensures NoAdjacentFree(Coalesce(bs, extra)) && Busies(Coalesce(bs, extra)) == Busies(bs)
    ensures bs != [] ==> Coalesce(bs, extra) != [] && Coalesce(bs, extra)[0].busy == bs[0].busy
    decreases |bs|
  {
    if |bs| < 2 {
    } else {
      assert bs[1..][1..] == bs[2..];
      if !bs[0].busy && !bs[1].busy {
        var c := [Merge(bs[0], bs[1], extra)] + bs[2..];
        assert c[1..] == bs[2..];
        CoalesceKeepsLive(c, extra);
      } else {
        CoalesceKeepsLive(bs[1..], extra);
        assert Coalesce(bs, extra)[1..] == Coalesce(bs[1..], extra);
      }
    }
  }

  /** Every merge as written adds 8 bytes that no block owns. */
  lemma {:induction false} CoalesceTotal(bs: seq<Block>)
    ensures Total(Coalesce(bs, 8)) == Total(bs) + 8 * (|bs| - |Coalesce(bs, 8)|)
    decreases |bs|
  {
    if |bs| < 2 {
    } else {
      assert bs[1..][1..] == bs[2..];
      if !bs[0].busy && !bs[1].busy {
        var c := [Merge(bs[0], bs[1], 8)] + bs[2..];
        assert c[1..] == bs[2..];
        CoalesceTotal(c);
      } else {
        CoalesceTotal(bs[1..]);
        assert Coalesce(bs, 8)[1..] == Coalesce(bs[1..], 8);
      }
    }
  }

  /** If there are free neighbours, something is merged. */
  lemma {:induction false} CoalesceShrinks(bs: seq<Block>, extra: int, k: nat)
    requires k + 1 < |bs| && !bs[k].busy && !bs[k + 1].busy
    ensures |Coalesce(bs, extra)| < |bs|
  {
    if !bs[0].busy && !bs[1].busy {
    } else {
      assert bs[1..][k - 1] == bs[k] && bs[1..][k] == bs[k + 1];
      CoalesceShrinks(bs[1..], extra, k - 1);
    }
  }

  /** With the merge as written coalescing gives a tiling of the same range if and only
      if there was nothing to merge. */
  lemma CoalesceAsWritten(bs: seq<Block>, lo: int, hi: int)
    requires Tiled(bs, lo, hi)
    ensures Tiled(Coalesce(bs, 8), lo, hi) <==> NoAdjacentFree(bs)
  {
    if NoAdjacentFree(bs) {
      CoalesceIdle(bs, 8);
    } else {
      var k := AdjacentFound(bs);
      CoalesceShrinks(bs, 8, k);
      CoalesceTotal(bs);
      TotalsCoverRange(bs, lo, hi);
      if Tiled(Coalesce(bs, 8), lo, hi) {
        TotalsCoverRange(Coalesce(bs, 8), lo, hi);
      }
    }
  }

  // ---- free -----------------------------------------------------------------

  lemma ReleaseKeepsInv(bs: seq<Block>, lo: int, hi: int, i: nat)
    requires HeapInv(bs, lo, hi) && i < |bs| && bs[i].busy
    ensures HeapInv(Release(bs, i, 0), lo, hi)
    ensures Busies(Release(bs, i, 0)) == Busies(bs[..i]) + Busies(bs[i + 1..])
  {
    var c := bs[i := bs[i].(busy := false)];
    ClearKeepsTiled(bs, lo, hi, i);
    CoalesceFuses(c, lo, hi);
    assert c == bs[..i] + [c[i]] + bs[i + 1..];
    BusiesAppend(bs[..i] + [c[i]], bs[i + 1..]);
    BusiesAppend(bs[..i], [c[i]]);
  }

  /** Taking a block and giving it back restores the list, split or not. */
  lemma TakeThenRelease(bs: seq<Block>, lo: int, hi: int, i: nat, need: int)
    requires HeapInv(bs, lo, hi) && i < |bs| && Fits(bs[i], need)
    requires need >= HEADER_SIZE && need % 4 == 0
    ensures Release(TakeBlock(bs, i, need), i, 0) == bs
  {
    var t := TakeBlock(bs, i, need);
    TakeKeepsInv(bs, lo, hi, i, need);
    ReleaseKeepsInv(t, lo, hi, i);
    var rest := t[i + 1..];
    assert t[..i] == bs[..i];
    if bs[i].size >= need + HEADER_SIZE + 4 {
      assert rest == [t[i + 1]] + bs[i + 1..];
      BusiesAppend([t[i + 1]], bs[i + 1..]);
    } else {
      assert rest == bs[i + 1..];
    }
    assert bs == bs[..i] + [bs[i]] + bs[i + 1..];
    BusiesAppend(bs[..i] + [bs[i]], bs[i + 1..]);
    BusiesAppend(bs[..i], [bs[i]]);
    Canonical(Release(t, i, 0), bs, lo, hi);
  }

  predicate FreeNeighbour(bs: seq<Block>, i: nat)
    requires i < |bs|
  {
    (i > 0 && !bs[i - 1].busy) || (i + 1 < |bs| && !bs[i + 1].busy)
  }

  /** With the merge line as written the blocks still tile the heap after a free
      exactly when neither physical neighbour of the freed block is free. */
  lemma ReleaseAsWritten(bs: seq<Block>, lo: int, hi: int, i: nat)
    requires HeapInv(bs, lo, hi) && i < |bs| && bs[i].busy
    ensures Tiled(Release(bs, i, 8), lo, hi) <==> !FreeNeighbour(bs, i)
    ensures !FreeNeighbour(bs, i) ==> Release(bs, i, 8) == Release(bs, i, 0)
  {
    var c := bs[i := bs[i].(busy := false)];
    ClearKeepsTiled(bs, lo, hi, i);
    if FreeNeighbour(bs, i) {
      CoalesceShrinks(c, 8, if i > 0 && !bs[i - 1].busy then i - 1 else i);
      CoalesceTotal(c);
      TotalsCoverRange(c, lo, hi);
      if Tiled(Coalesce(c, 8), lo, hi) {
        TotalsCoverRange(Coalesce(c, 8), lo, hi);
      }
    } else {
      ClearKeepsApart(bs, i);
      CoalesceIdle(c, 8);
      CoalesceIdle(c, 0);
    }
  }

  /** With the merge as written freeing the block just taken restores the list if and
      only if it was taken whole. */
  lemma TakeThenReleaseAsWritten(bs: seq<Block>, lo: int, hi: int, i: nat, need: int)
    requires HeapInv(bs, lo, hi) && i < |bs| && Fits(bs[i], need)
    requires need >= HEADER_SIZE && need % 4 == 0
    ensures Release(TakeBlock(bs, i, need), i, 8) == bs <==> bs[i].size < need + HEADER_SIZE + 4
  {
    hide HeapInv, Tiled, Release, Coalesce;
    var t := TakeBlock(bs, i, need);
    TakeKeepsInv(bs, lo, hi, i, need);
    TakeThenRelease(bs, lo, hi, i, need);
    ReleaseAsWritten(t, lo, hi, i);
    InvTiled(bs, lo, hi);
    if i > 0 {
      NoAdjacentAt(bs, i - 1);
    }
    if i + 1 < |bs| {
      NoAdjacentAt(bs, i);
    }
    assert FreeNeighbour(t, i) <==> bs[i].size >= need + HEADER_SIZE + 4;
  }

  lemma InvTiled(bs: seq<Block>, lo: int, hi: int)
    requires HeapInv(bs, lo, hi)
    ensures Tiled(bs, lo, hi) && NoAdjacentFree(bs)
  {
  }

  lemma {:induction false} ClearKeepsTiled(bs: seq<Block>, lo: int, hi: int, i: nat)
    requires Tiled(bs, lo, hi) && i < |bs|
    ensures Tiled(bs[i := bs[i].(busy := false)], lo, hi)
  {
    var c := bs[i := bs[i].(busy := false)];
    if i > 0 {
      ClearKeepsTiled(bs[1..], lo + bs[0].size, hi, i - 1);
      assert c[1..] == bs[1..][i - 1 := bs[i].(busy := false)];
    } else {
      assert c[1..] == bs[1..];
    }
  }

  lemma {:induction false} ClearKeepsApart(bs: seq<Block>, i: nat)
    requires NoAdjacentFree(bs) && i < |bs| && !FreeNeighbour(bs, i)
    ensures NoAdjacentFree(bs[i := bs[i].(busy := false)])
  {
    var c := bs[i := bs[i].(busy := false)];
    if i > 0 {
      ClearKeepsApart(bs[1..], i - 1);
      assert c[1..] == bs[1..][i - 1 := bs[i].(busy := false)];
    } else {
      assert c[1..] == bs[1..];
    }
  }

  /** The session recorded in README.md lines 286-306: in a fresh 1 MiB heap,
      4 ALLOCATE then FREE reports a free block of 1048584 bytes. */
  lemma MergeAsWrittenBreaksTiling()
    ensures var lo, hi := 0x6000_0000, 0x6010_0000;
            var initial := [Block(lo, 0x10_0000, false)];
            var taken := TakeBlock(initial, FirstFit(initial, 12, 0), 12);
            && HeapInv(initial, lo, hi)
            && taken == [Block(lo, 12, true), Block(lo + 12, 0x10_0000 - 12, false)]
            && Release(taken, 0, 8) == [Block(lo, 1048584, false)]
            && !Tiled(Release(taken, 0, 8), lo, hi)
            && Release(taken, 0, 0) == initial
  {
    var lo, hi := 0x6000_0000, 0x6010_0000;
    var initial := [Block(lo, 0x10_0000, false)];
    var taken := TakeBlock(initial, 0, 12);
    assert taken == [Block(lo, 12, true), Block(lo + 12, 0x10_0000 - 12, false)];
    var c := taken[0 := taken[0].(busy := false)];
    assert c[2..] == [];
    assert [Merge(c[0], c[1], 8)] + c[2..] == [Block(lo, 1048584, false)];
    assert Coalesce(c, 8) == Coalesce([Block(lo, 1048584, false)], 8);
    assert [Merge(c[0], c[1], 0)] + c[2..] == initial;
    assert Coalesce(c, 0) == Coalesce(initial, 0);
  }

  // ---- sizes on 32 bits -----------------------------------------------------

  /** Lines 27-28: the block size a request of `size` bytes asks for. */
  function RequiredSize(size: u32): u32 {
    Wrap(AlignUp(size) + HEADER_SIZE)
  }

  /** 0xFFFFFFF4 is the largest request for which the two lines do not wrap; every
      larger one asks for at most 8 bytes, and up to 0xFFFFFFFC for less than a header. */
  lemma RequiredSizeExact(size: u32)
    ensures RequiredSize(size) == Round4(size) + HEADER_SIZE <==> size <= 0xFFFF_FFF4
    ensures size > 0xFFFF_FFF4 ==> RequiredSize(size) <= HEADER_SIZE
    ensures RequiredSize(size) < HEADER_SIZE <==> 0xFFFF_FFF4 < size <= 0xFFFF_FFFC
    ensures RequiredSize(size) == 0 <==> 0xFFFF_FFF4 < size <= 0xFFFF_FFF8
    ensures RequiredSize(size) % 4 == 0
  {
    hide Wrap;
    var total := AlignUp(size) + HEADER_SIZE;
    if size <= 0xFFFF_FFFC {
      WrapIs(size + 3, 0);
      WrapIs(total, if size <= 0xFFFF_FFF4 then 0 else 1);
    } else {
      WrapIs(size + 3, 1);
      WrapIs(total, 0);
    }
  }

  /** The request wraps to less than a header and yet splits the block found, so that
      the two headers written share bytes. */
  predicate Collides(bs: seq<Block>, size: u32) {
    var need := RequiredSize(size);
    var i := FirstFit(bs, need, 0);
    need < HEADER_SIZE && i < |bs| && bs[i].size >= need + HEADER_SIZE + 4
  }

  /** Any other request takes its block as one with room for a header does. */
  lemma TakesWithRoom(bs: seq<Block>, lo: int, hi: int, size: u32) returns (need: int)
    requires Tiled(bs, lo, hi) && !Collides(bs, size) && FirstFit(bs, RequiredSize(size), 0) < |bs|
    ensures HEADER_SIZE <= need && need % 4 == 0 && need == (if RequiredSize(size) < 8 then 8 else RequiredSize(size))
    ensures var i := FirstFit(bs, RequiredSize(size), 0);
            && Fits(bs[i], need) && TakeBlock(bs, i, RequiredSize(size)) == TakeBlock(bs, i, need)
            && (bs[i].size >= need + HEADER_SIZE + 4 <==> bs[i].size >= RequiredSize(size) + HEADER_SIZE + 4)
  {
    RequiredSizeExact(size);
    TiledAt(bs, lo, hi, FirstFit(bs, RequiredSize(size), 0));
    need := if RequiredSize(size) < HEADER_SIZE then HEADER_SIZE else RequiredSize(size);
  }
}
