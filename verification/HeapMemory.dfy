/** The block list inside the bytes: headers live in the same array as the
    payloads, so every header write is checked against every payload. */
module HeapMemory {
  import opened Words
  import opened Bus
  import opened HeapBlocks

  /** The aligned cells of a byte array, by offset. */
  type Cells = map<int, int>

  function CellsOf(m: seq<u8>): Cells {
    CellsUpTo(m, |m| / 4)
  }

  function CellsUpTo(m: seq<u8>, n: nat): Cells
    requires 4 * n <= |m|
  {
    if n == 0 then map[] else CellsUpTo(m, n - 1)[4 * (n - 1) := Get32(m, 4 * (n - 1))]
  }

  lemma {:induction false} CellUpTo(m: seq<u8>, n: nat, o: int)
    requires 4 * n <= |m| && 0 <= o <= 4 * n - 4 && o % 4 == 0
    ensures o in CellsUpTo(m, n) && CellsUpTo(m, n)[o] == Get32(m, o)
  {
    if o >= 4 * n - 4 {
    } else {
      CellUpTo(m, n - 1, o);
    }
  }

  lemma CellIs(m: seq<u8>, o: int)
    requires 0 <= o <= |m| - 4 && o % 4 == 0
    ensures o in CellsOf(m) && CellsOf(m)[o] == Get32(m, o)
  {
    CellUpTo(m, |m| / 4, o);
  }

  lemma {:induction false} CellsUpToDiffer(m: seq<u8>, m': seq<u8>, n: nat, o: int)
    requires |m'| == |m| && 0 <= o <= |m| - 4 && o % 4 == 0 && 4 * n <= |m|
    requires forall i | 0 <= i < |m| && (i < o || o + 4 <= i) :: m'[i] == m[i]
    ensures CellsUpTo(m', n) == if o < 4 * n then CellsUpTo(m, n)[o := Get32(m', o)] else CellsUpTo(m, n)
  {
    hide Get32;
    if n == 0 {
    } else {
      CellsUpToDiffer(m, m', n - 1, o);
      if 4 * n - 4 != o {
        SameCell(m, m', 4 * n - 4);
      }
    }
  }

  lemma SameCell(m: seq<u8>, m': seq<u8>, p: int)
    requires |m'| == |m| && 0 <= p <= |m| - 4 && forall i | p <= i < p + 4 :: m'[i] == m[i]
    ensures Get32(m', p) == Get32(m, p)
  {
    assert m'[p..p + 4] == m[p..p + 4];
  }

  /** Two memories that differ at most inside the cell at o. */
  lemma CellsDiffer(m: seq<u8>, m': seq<u8>, o: int)
    requires |m'| == |m| && 0 <= o <= |m| - 4 && o % 4 == 0
    requires forall i | 0 <= i < |m| && (i < o || o + 4 <= i) :: m'[i] == m[i]
    ensures CellsOf(m') == CellsOf(m)[o := Get32(m', o)]
  {
    CellsUpToDiffer(m, m', |m| / 4, o);
  }

  lemma CellsPut(m: seq<u8>, o: int, v: u32)
    requires 0 <= o <= |m| - 4 && o % 4 == 0
    ensures CellsOf(Put32(m, o, v)) == CellsOf(m)[o := v]
  {
    GetPut32(m, o, v);
    CellsDiffer(m, Put32(m, o, v), o);
  }

  function Off(a: int): int {
    a - EXT_BASE
  }

  function NextAddr(bs: seq<Block>, i: nat): int
    requires i < |bs|
  {
    if i + 1 < |bs| then bs[i + 1].addr else 0
  }

  /** The address a walk holds after i steps; 0 ends the walk. */
  function WalkAddr(bs: seq<Block>, i: nat): int
    requires i <= |bs|
  {
    if i < |bs| then bs[i].addr else 0
  }

  function HeaderWord(b: Block): int {
    b.size + if b.busy then 1 else 0
  }

  /** Header i of the list is in memory where the list says, link included. */
  ghost predicate HeaderAt(c: Cells, bs: seq<Block>, i: nat)
    requires i < |bs|
  {
    var o := Off(bs[i].addr);
    && 0 <= o <= EXT_SIZE - 8 && o % 4 == 0 && bs[i].size % 4 == 0
    && o in c && c[o] == HeaderWord(bs[i])
    && o + 4 in c && c[o + 4] == NextAddr(bs, i)
  }

  ghost predicate Represents(c: Cells, bs: seq<Block>) {
    forall i | 0 <= i < |bs| :: HeaderAt(c, bs, i)
  }

  /** Headers do not overlap. */
  ghost predicate Spaced(bs: seq<Block>) {
    forall i, j | 0 <= i < j < |bs| :: bs[i].addr + 8 <= bs[j].addr
  }

  /** The memory determines the list: a heap has only one block list. */
  lemma {:induction false} RepresentsUnique(c: Cells, a: seq<Block>, b: seq<Block>, i: nat)
    requires Represents(c, a) && Represents(c, b)
    requires i <= |a| && i <= |b| && WalkAddr(a, i) == WalkAddr(b, i)
    ensures a[i..] == b[i..]
    decreases |a| - i
  {
    assert i < |a| ==> HeaderAt(c, a, i);
    assert i < |b| ==> HeaderAt(c, b, i);
    if i == |a| {
    } else {
      assert a[i] == b[i];
      RepresentsUnique(c, a, b, i + 1);
      assert a[i..] == [a[i]] + a[i + 1..] && b[i..] == [b[i]] + b[i + 1..];
    }
  }

  /** Cells that no header of the list occupies may change freely. */
  lemma RepresentsFrame(c: Cells, o: int, v: int, bs: seq<Block>)
    requires Represents(c, bs)
    requires forall i | 0 <= i < |bs| :: o != Off(bs[i].addr) && o != Off(bs[i].addr) + 4
    ensures Represents(c[o := v], bs)
  {
    var c' := c[o := v];
    forall i | 0 <= i < |bs|
      ensures HeaderAt(c', bs, i)
    {
      assert HeaderAt(c, bs, i);
    }
  }

  /** Address a is a payload byte of busy block i. */
  predicate PayloadByte(bs: seq<Block>, i: nat, a: int)
    requires i < |bs|
  {
    bs[i].busy && bs[i].addr + 8 <= a < bs[i].addr + bs[i].size
  }

  /** A caller may write any byte of a live payload: no header notices. */
  lemma PayloadWriteKeepsHeap(m: seq<u8>, bs: seq<Block>, lo: int, hi: int, i: nat, a: int, v: u8)
    requires Represents(CellsOf(m), bs) && Tiled(bs, lo, hi) && |m| == EXT_SIZE
    requires EXT_BASE <= lo && hi <= EXT_BASE + EXT_SIZE && lo % 4 == 0
    requires i < |bs| && PayloadByte(bs, i, a)
    ensures 0 <= Off(a) < |m|
    ensures Represents(CellsOf(m[Off(a) := v]), bs)
  {
    TiledPairwise(bs, lo, hi);
    var o := Off(a) / 4 * 4;
    var m' := m[Off(a) := v];
    forall j | 0 <= j < |bs|
      ensures o != Off(bs[j].addr) && o != Off(bs[j].addr) + 4
    {
      if j < i {
        assert bs[j].addr + bs[j].size <= bs[i].addr;
      } else if i < j {
        assert bs[i].addr + bs[i].size <= bs[j].addr;
      }
    }
    RepresentsFrame(CellsOf(m), o, Get32(m', o), bs);
    CellsDiffer(m, m', o);
  }

  // ---- the header writes of allocate ----------------------------------------

  /** A header that is not written keeps describing its block, provided its
      successor is still the same. */
  lemma HeaderKept(c: Cells, c': Cells, bs: seq<Block>, k: nat, r: seq<Block>, j: nat)
    requires k < |bs| && j < |r| && HeaderAt(c, bs, k) && r[j] == bs[k] && NextAddr(r, j) == NextAddr(bs, k)
    requires var o := Off(bs[k].addr);
             o in c' && o + 4 in c' && c'[o] == c[o] && c'[o + 4] == c[o + 4]
    ensures HeaderAt(c', r, j)
  {
  }

  /** Lines 46-51: the header of the rest, then the current one. */
  function SplitWrites(c: Cells, o: int, need: int, rest: int, next: int, restAddr: int): Cells {
    c[o + need := rest][o + need + 4 := next][o := need + 1][o + 4 := restAddr]
  }

  lemma SplitRepresents(c: Cells, bs: seq<Block>, i: nat, need: int)
    requires Represents(c, bs) && Spaced(bs) && i < |bs|
    requires need >= 8 && need % 4 == 0 && need + 12 <= bs[i].size
    requires EXT_BASE <= bs[i].addr && bs[i].addr + bs[i].size <= EXT_BASE + EXT_SIZE
    requires i + 1 < |bs| ==> bs[i].addr + bs[i].size <= bs[i + 1].addr < 0x1_0000_0000
    ensures Represents(SplitWrites(c, Off(bs[i].addr), need, bs[i].size - need, NextAddr(bs, i), bs[i].addr + need),
                       TakeBlock(bs, i, need))
  {
    var r := TakeBlock(bs, i, need);
    var c' := SplitWrites(c, Off(bs[i].addr), need, bs[i].size - need, NextAddr(bs, i), bs[i].addr + need);
    SplitShape(bs, i, need);
    assert HeaderAt(c, bs, i);
    SplitOwnHeaders(c, bs, i, need);
    forall j | 0 <= j < |r| && j != i && j != i + 1
      ensures HeaderAt(c', r, j)
    {
      SplitOthers(c, c', bs, r, i, j);
    }
  }

  lemma SplitOthers(c: Cells, c': Cells, bs: seq<Block>, r: seq<Block>, i: nat, j: nat)
    requires Represents(c, bs) && i < |bs| && |r| == |bs| + 1 && j < |r| && j != i && j != i + 1
    requires var k := if j < i then j else j - 1;
             && r[j] == bs[k] && NextAddr(r, j) == NextAddr(bs, k)
             && (r[j].addr + 8 <= bs[i].addr || bs[i].addr + bs[i].size <= r[j].addr)
    requires forall p | p in c && (p < Off(bs[i].addr) || Off(bs[i].addr) + bs[i].size <= p) :: p in c' && c'[p] == c[p]
    ensures HeaderAt(c', r, j)
  {
    var k := if j < i then j else j - 1;
    assert HeaderAt(c, bs, k);
    HeaderKept(c, c', bs, k, r, j);
  }

  lemma SplitOwnHeaders(c: Cells, bs: seq<Block>, i: nat, need: int)
    requires i < |bs| && HeaderAt(c, bs, i)
    requires need >= 8 && need % 4 == 0 && need + 12 <= bs[i].size
    requires EXT_BASE <= bs[i].addr && bs[i].addr + bs[i].size <= EXT_BASE + EXT_SIZE
    ensures var r := TakeBlock(bs, i, need);
            var c' := SplitWrites(c, Off(bs[i].addr), need, bs[i].size - need, NextAddr(bs, i), bs[i].addr + need);
            HeaderAt(c', r, i) && HeaderAt(c', r, i + 1)
  {
    var r := TakeBlock(bs, i, need);
    assert r[i] == Block(bs[i].addr, need, true);
    assert r[i + 1] == Block(bs[i].addr + need, bs[i].size - need, false);
    assert NextAddr(r, i + 1) == NextAddr(bs, i);
  }

  lemma SplitShape(bs: seq<Block>, i: nat, need: int)
    requires i < |bs| && need >= 8 && need + 12 <= bs[i].size
    requires Spaced(bs) && (i + 1 < |bs| ==> bs[i].addr + bs[i].size <= bs[i + 1].addr)
    ensures var r := TakeBlock(bs, i, need);
            && |r| == |bs| + 1
            && r[i] == Block(bs[i].addr, need, true)
            && r[i + 1] == Block(bs[i].addr + need, bs[i].size - need, false)
            && NextAddr(r, i + 1) == NextAddr(bs, i)
            && (forall j | 0 <= j < i :: r[j] == bs[j] && NextAddr(r, j) == NextAddr(bs, j)
                                         && r[j].addr + 8 <= bs[i].addr)
            && (forall j | i + 1 < j < |r| :: r[j] == bs[j - 1] && NextAddr(r, j) == NextAddr(bs, j - 1)
                                              && bs[i].addr + bs[i].size <= r[j].addr)
  {
    var r := TakeBlock(bs, i, need);
    forall j | i + 1 < j < |r|
      ensures r[j] == bs[j - 1] && bs[i].addr + bs[i].size <= r[j].addr
    {
      assert j > i + 2 ==> bs[i + 1].addr + 8 <= bs[j - 1].addr;
    }
  }

  // ---- a split without room for a header ------------------------------------

  /** A list that starts where bs does reads the same headers up to block i, if none of
      them was written. */
  lemma {:induction false} SamePrefix(c: Cells, c': Cells, bs: seq<Block>, r: seq<Block>, i: nat)
    requires Represents(c, bs) && Represents(c', r) && i < |bs| && r != [] && r[0].addr == bs[0].addr
    requires forall k | 0 <= k < i :: var o := Off(bs[k].addr) + 4; o in c' && o in c && c'[o] == c[o]
    ensures i < |r| && r[i].addr == bs[i].addr
  {
    if i == 0 {
    } else {
      SamePrefix(c, c', bs, r, i - 1);
      assert HeaderAt(c, bs, i - 1) && HeaderAt(c, bs, i) && HeaderAt(c', r, i - 1);
    }
  }

  /** The header that lines 46-51 leave for block i is too small for any tiling. */
  lemma SplitWithoutRoom(c: Cells, bs: seq<Block>, hi: int, i: nat, need: int, r: seq<Block>)
    requires Represents(c, bs) && Tiled(bs, EXT_BASE, hi) && i < |bs| && need in {0, 4}
    requires var c' := SplitWrites(c, Off(bs[i].addr), need, bs[i].size - need, NextAddr(bs, i), bs[i].addr + need);
             Represents(c', r)
    ensures !Tiled(r, EXT_BASE, hi)
  {
    var c' := SplitWrites(c, Off(bs[i].addr), need, bs[i].size - need, NextAddr(bs, i), bs[i].addr + need);
    if Tiled(r, EXT_BASE, hi) {
      TiledAt(bs, EXT_BASE, hi, 0);
      LinksBefore(c, bs, hi, i, need);
      SamePrefix(c, c', bs, r, i);
      TiledWord(c', r, hi, i);
    }
  }

  lemma TiledWord(c: Cells, bs: seq<Block>, hi: int, i: nat)
    requires Represents(c, bs) && Tiled(bs, EXT_BASE, hi) && i < |bs|
    ensures Off(bs[i].addr) in c && c[Off(bs[i].addr)] >= HEADER_SIZE
  {
    TiledAt(bs, EXT_BASE, hi, i);
    assert HeaderAt(c, bs, i);
  }

  /** The links that lead to block i are not touched by its split. */
  lemma LinksBefore(c: Cells, bs: seq<Block>, hi: int, i: nat, need: int)
    requires Represents(c, bs) && Tiled(bs, EXT_BASE, hi) && i < |bs| && 0 <= need
    ensures var c' := SplitWrites(c, Off(bs[i].addr), need, bs[i].size - need, NextAddr(bs, i), bs[i].addr + need);
            forall k | 0 <= k < i :: var o := Off(bs[k].addr) + 4; o in c' && o in c && c'[o] == c[o]
  {
    TiledPairwise(bs, EXT_BASE, hi);
    forall k | 0 <= k < i
      ensures Off(bs[k].addr) + 8 <= Off(bs[i].addr) && Off(bs[k].addr) + 4 in c
    {
      assert HeaderAt(c, bs, k);
    }
  }

  /** The address that following n links from the first header leads to. */
  function Following(c: Cells, n: nat): int {
    if n == 0 then EXT_BASE
    else
      var o := Off(Following(c, n - 1)) + 4;
      if o in c then c[o] else 0
  }

  lemma {:induction false} FollowingReaches(c: Cells, c': Cells, bs: seq<Block>, i: nat)
    requires Represents(c, bs) && i < |bs| && bs[0].addr == EXT_BASE
    requires forall k | 0 <= k < i :: var o := Off(bs[k].addr) + 4; o in c' && o in c && c'[o] == c[o]
    ensures Following(c', i) == bs[i].addr
  {
    if i == 0 {
    } else {
      FollowingReaches(c, c', bs, i - 1);
      assert HeaderAt(c, bs, i - 1);
    }
  }

  /** A split at 0 bytes links the block to itself: no later walk ends. */
  lemma {:induction false} SplitAtZeroLoops(c: Cells, bs: seq<Block>, hi: int, i: nat, n: nat)
    requires Represents(c, bs) && Tiled(bs, EXT_BASE, hi) && i < |bs| && i <= n
    ensures var c' := SplitWrites(c, Off(bs[i].addr), 0, bs[i].size, NextAddr(bs, i), bs[i].addr);
            Following(c', n) == bs[i].addr
    decreases n
  {
    if n == i {
      TiledAt(bs, EXT_BASE, hi, 0);
      LinksBefore(c, bs, hi, i, 0);
      var c' := SplitWrites(c, Off(bs[i].addr), 0, bs[i].size - 0, NextAddr(bs, i), bs[i].addr + 0);
      FollowingReaches(c, c', bs, i);
    } else {
      SplitAtZeroLoops(c, bs, hi, i, n - 1);
    }
  }

  /** One header word rewritten with another busy bit. */
  lemma MarkRepresents(c: Cells, bs: seq<Block>, i: nat, busy: bool)
    requires Represents(c, bs) && Spaced(bs) && i < |bs| && 0 <= bs[i].size < 0xFFFF_FFFF
    ensures var b := bs[i].(busy := busy);
            Represents(c[Off(b.addr) := HeaderWord(b)], bs[i := b])
  {
    var b := bs[i].(busy := busy);
    var c' := c[Off(b.addr) := HeaderWord(b)];
    var r := bs[i := b];
    forall j | 0 <= j < |r|
      ensures HeaderAt(c', r, j)
    {
      assert HeaderAt(c, bs, j);
      if j < i {
        assert bs[j].addr + 8 <= bs[i].addr;
      } else if i < j {
        assert bs[i].addr + 8 <= bs[j].addr;
      }
    }
  }

  // ---- the header writes of one merge ---------------------------------------

  function MergeAt(bs: seq<Block>, i: nat, extra: int): seq<Block>
    requires i + 1 < |bs|
  {
    bs[..i] + [Merge(bs[i], bs[i + 1], extra)] + bs[i + 2..]
  }

  /** Lines 113-114 perform one merge of the list. */
  lemma MergeRepresents(c: Cells, bs: seq<Block>, i: nat, extra: int)
    requires Represents(c, bs) && Spaced(bs) && i + 1 < |bs|
    requires !bs[i].busy && !bs[i + 1].busy && extra % 4 == 0
    requires 0 <= bs[i].size + bs[i + 1].size + extra < 0x1_0000_0000
    requires 0 <= NextAddr(bs, i + 1) < 0x1_0000_0000
    ensures var o := Off(bs[i].addr);
            Represents(c[o := bs[i].size + bs[i + 1].size + extra][o + 4 := NextAddr(bs, i + 1)], MergeAt(bs, i, extra))
    ensures Spaced(MergeAt(bs, i, extra))
  {
    var r := MergeAt(bs, i, extra);
    var o := Off(bs[i].addr);
    var c' := c[o := bs[i].size + bs[i + 1].size + extra][o + 4 := NextAddr(bs, i + 1)];
    assert HeaderAt(c, bs, i) && HeaderAt(c, bs, i + 1);
    MergeShape(bs, i, extra);
    forall j | 0 <= j < |r| && j != i
      ensures HeaderAt(c', r, j)
    {
      var k := if j < i then j else j + 1;
      assert HeaderAt(c, bs, k);
      HeaderKept(c, c', bs, k, r, j);
    }
    assert HeaderAt(c', r, i);
    MergeSpaced(bs, i, extra);
  }

  lemma MergeShape(bs: seq<Block>, i: nat, extra: int)
    requires i + 1 < |bs| && Spaced(bs)
    ensures var r := MergeAt(bs, i, extra);
            && |r| == |bs| - 1
            && r[i] == Merge(bs[i], bs[i + 1], extra)
            && NextAddr(r, i) == NextAddr(bs, i + 1)
            && (forall j | 0 <= j < i :: r[j] == bs[j] && NextAddr(r, j) == NextAddr(bs, j)
                                         && r[j].addr + 8 <= bs[i].addr)
            && (forall j | i < j < |r| :: r[j] == bs[j + 1] && NextAddr(r, j) == NextAddr(bs, j + 1)
                                          && bs[i].addr + 8 <= r[j].addr)
  {
  }

  lemma MergeSpaced(bs: seq<Block>, i: nat, extra: int)
    requires Spaced(bs) && i + 1 < |bs|
    ensures Spaced(MergeAt(bs, i, extra))
  {
    var r := MergeAt(bs, i, extra);
    forall j, k | 0 <= j < k < |r|
      ensures r[j].addr + 8 <= r[k].addr
    {
      var j', k' := if j <= i then j else j + 1, if k <= i then k else k + 1;
      assert r[j].addr == bs[j'].addr && r[k].addr == bs[k'].addr;
    }
  }

  /** One merge of the list is one unfolding of Coalesce. */
  lemma MergeIsCoalesceStep(bs: seq<Block>, i: nat, extra: int)
    requires i + 1 < |bs| && !bs[i].busy && !bs[i + 1].busy
    ensures MergeAt(bs, i, extra)[..i] + Coalesce(MergeAt(bs, i, extra)[i..], extra)
         == bs[..i] + Coalesce(bs[i..], extra)
    ensures Total(MergeAt(bs, i, extra)) == Total(bs) + extra
  {
    var c := bs[i..];
    assert MergeAt(bs, i, extra)[i..] == [Merge(c[0], c[1], extra)] + c[2..];
    assert MergeAt(bs, i, extra)[..i] == bs[..i];
    assert bs == (bs[..i] + [bs[i]] + [bs[i + 1]]) + bs[i + 2..];
    TotalAppend(bs[..i] + [bs[i]] + [bs[i + 1]], bs[i + 2..]);
    TotalAppend(bs[..i] + [bs[i]], [bs[i + 1]]);
    TotalAppend(bs[..i], [bs[i]]);
    TotalAppend(bs[..i] + [Merge(bs[i], bs[i + 1], extra)], bs[i + 2..]);
    TotalAppend(bs[..i], [Merge(bs[i], bs[i + 1], extra)]);
  }

  lemma SkipIsCoalesceStep(bs: seq<Block>, i: nat, extra: int)
    requires i < |bs| && (i + 1 == |bs| || bs[i].busy || bs[i + 1].busy)
    ensures bs[..i] + Coalesce(bs[i..], extra) == bs[..i + 1] + Coalesce(bs[i + 1..], extra)
  {
    CoalesceSkips(bs[i..], extra);
    hide Coalesce;
    assert bs[i..][1..] == bs[i + 1..];
    assert bs[..i + 1] == bs[..i] + [bs[i]];
  }

  lemma CoalesceSkips(bs: seq<Block>, extra: int)
    requires bs != [] && (|bs| == 1 || bs[0].busy || bs[1].busy)
    ensures Coalesce(bs, extra) == [bs[0]] + Coalesce(bs[1..], extra)
  {
    if |bs| == 1 {
      assert bs == [bs[0]] && bs[1..] == [];
    }
  }

  /** Two neighbours are together no larger than the total, when no size is negative. */
  lemma {:induction false} SizesWithinTotal(bs: seq<Block>, i: nat)
    requires i + 1 < |bs| && forall k | 0 <= k < |bs| :: bs[k].size >= 0
    ensures bs[i].size + bs[i + 1].size <= Total(bs)
  {
    if i > 0 {
      SizesWithinTotal(bs[1..], i - 1);
    } else {
      TotalNonNegative(bs[1..][1..]);
    }
  }

  lemma {:induction false} TotalNonNegative(bs: seq<Block>)
    requires forall k | 0 <= k < |bs| :: bs[k].size >= 0
    ensures Total(bs) >= 0
  {
    if bs == [] {
    } else {
      TotalNonNegative(bs[1..]);
    }
  }
}
