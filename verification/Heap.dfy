/** forth_heap.c over the bus: the three walks with their header reads and writes,
    each proved against the block list. */
module Heap {
  import opened Words
  import opened Bus
  import opened HeapBlocks
  import opened HeapMemory

  /** The merge line 109 as the source has it, and with the extra 8 removed. */
  datatype MergeRule = AsWritten | Repaired {
    function Extra(): int {
      if AsWritten? then HEADER_SIZE else 0
    }
  }

  /** A header as a walk decodes it. */
  datatype Header = Header(busy: bool, size: u32, next: u32)

  /** A row of the heap section of forth_export_memory_csv. */
  datatype Row = Row(index: nat, addr: int, busy: bool, size: int, next: int)

  /** What forth_heap_allocate does to memory and block list, for every size; the
      contract of Heap.Allocate. After a collision there is no list to speak of. */
  ghost predicate AllocateStep(size: u32, m: seq<u8>, bs: seq<Block>, m': seq<u8>, bs': seq<Block>, result: u32)
    requires |m| == |m'| == EXT_SIZE
  {
    var need := RequiredSize(size);
    var i := FirstFit(bs, need, 0);
    if i == |bs| then
      result == 0 && bs' == bs && m' == m
    else
      && result == bs[i].addr + HEADER_SIZE
      && SameOutside(m, m', bs[i])
      && if Collides(bs, size) then SplitInCells(CellsOf(m), bs, i, need, CellsOf(m'))
         else bs' == TakeBlock(bs, i, need)
  }

  /** The four writes of a split of block i. */
  ghost predicate SplitInCells(c: Cells, bs: seq<Block>, i: nat, need: int, c': Cells)
    requires i < |bs|
  {
    c' == SplitWrites(c, Off(bs[i].addr), need, bs[i].size - need, NextAddr(bs, i), bs[i].addr + need)
  }

  /** Some list of blocks is in memory and tiles the heap. */
  ghost predicate WellFormed(m: seq<u8>, hi: int) {
    exists bs :: Represents(CellsOf(m), bs) && HeapInv(bs, EXT_BASE, hi)
  }

  /** A request keeps the heap if and only if it does not collide: afterwards either the
      list tiles the heap, or no list in memory does. */
  lemma AllocateKeepsHeap(size: u32, m: seq<u8>, bs: seq<Block>, m': seq<u8>, bs': seq<Block>, result: u32, hi: int)
    requires |m| == |m'| == EXT_SIZE && Represents(CellsOf(m), bs) && HeapInv(bs, EXT_BASE, hi)
    requires AllocateStep(size, m, bs, m', bs', result)
    ensures !Collides(bs, size) ==> HeapInv(bs', EXT_BASE, hi)
    ensures Collides(bs, size) ==> !WellFormed(m', hi)
  {
    hide Represents, NoAdjacentFree, Tiled, TakeBlock;
    var need := RequiredSize(size);
    var i := FirstFit(bs, need, 0);
    RequiredSizeExact(size);
    if Collides(bs, size) {
      forall r | Represents(CellsOf(m'), r)
        ensures !HeapInv(r, EXT_BASE, hi)
      {
        SplitWithoutRoom(CellsOf(m), bs, hi, i, need, r);
      }
    } else if i < |bs| {
      var room := TakesWithRoom(bs, EXT_BASE, hi, size);
      TakeKeepsInv(bs, EXT_BASE, hi, i, room);
    }
  }

  /** Nothing outside block b changed. */
  ghost predicate SameOutside(m: seq<u8>, m': seq<u8>, b: Block)
    requires |m| == |m'| == EXT_SIZE
  {
    forall o | 0 <= o < EXT_SIZE && (EXT_BASE + o < b.addr || b.addr + b.size <= EXT_BASE + o) :: m'[o] == m[o]
  }

  /** Address a is one of the 8 header bytes of some block. */
  ghost predicate HeaderByte(bs: seq<Block>, a: int) {
    exists i | 0 <= i < |bs| :: bs[i].addr <= a < bs[i].addr + 8
  }

  /** What forth_heap_free does when block i is live. */
  ghost predicate FreeStep(i: nat, extra: int, m: seq<u8>, bs: seq<Block>, m': seq<u8>, bs': seq<Block>)
    requires |m| == |m'| == EXT_SIZE && i < |bs|
  {
    && bs' == Release(bs, i, extra)
    && (forall o | 0 <= o < EXT_SIZE && !HeaderByte(bs, EXT_BASE + o) :: m'[o] == m[o])
  }

  function HeaderBytes(m: seq<u8>, o: int, word: u32, next: u32): (r: seq<u8>)
    requires 0 <= o <= |m| - 8
    ensures |r| == |m|
  {
    Put32(Put32(m, o, word), o + 4, next)
  }

  lemma HeaderBytesEffect(m: seq<u8>, o: int, word: u32, next: u32)
    requires 0 <= o <= |m| - 8 && o % 4 == 0
    ensures var r := HeaderBytes(m, o, word, next);
            && CellsOf(r) == CellsOf(m)[o := word][o + 4 := next]
            && Get32(r, o) == word
            && forall k | 0 <= k < |m| && (k < o || o + 8 <= k) :: r[k] == m[k]
  {
    CellsPut(m, o, word);
    CellsPut(Put32(m, o, word), o + 4, next);
    GetPut32(m, o, word);
    GetPut32(Put32(m, o, word), o + 4, next);
  }

  lemma TiledSpaced(bs: seq<Block>, lo: int, hi: int)
    requires Tiled(bs, lo, hi)
    ensures Spaced(bs)
  {
    TiledPairwise(bs, lo, hi);
  }

  lemma SplitInMemory(m: seq<u8>, m': seq<u8>, bs: seq<Block>, hi: int, i: nat, need: u32)
    requires |m| == |m'| == EXT_SIZE && hi <= EXT_BASE + EXT_SIZE && need % 4 == 0 && need >= HEADER_SIZE
    requires Represents(CellsOf(m), bs) && Tiled(bs, EXT_BASE, hi)
    requires i < |bs| && need + HEADER_SIZE + 4 <= bs[i].size
    requires CellsOf(m')
          == SplitWrites(CellsOf(m), Off(bs[i].addr), need, bs[i].size - need, NextAddr(bs, i), bs[i].addr + need)
    ensures Represents(CellsOf(m'), TakeBlock(bs, i, need))
  {
    TiledSpaced(bs, EXT_BASE, hi);
    TiledAt(bs, EXT_BASE, hi, i);
    if i + 1 < |bs| {
      TiledAt(bs, EXT_BASE, hi, i + 1);
    }
    SplitRepresents(CellsOf(m), bs, i, need);
  }

  lemma MarkInMemory(m: seq<u8>, bs: seq<Block>, hi: int, i: nat, busy: bool)
    requires |m| == EXT_SIZE && hi <= EXT_BASE + EXT_SIZE
    requires Represents(CellsOf(m), bs) && Tiled(bs, EXT_BASE, hi) && i < |bs|
    ensures var b := bs[i].(busy := busy);
            && 0 <= Off(b.addr) <= EXT_SIZE - 8 && Off(b.addr) % 4 == 0 && 0 <= HeaderWord(b) < 0x1_0000_0000
            && var m' := Put32(m, Off(b.addr), HeaderWord(b));
            && Represents(CellsOf(m'), bs[i := b])
            && SameOutside(m, m', bs[i])
  {
    TiledSpaced(bs, EXT_BASE, hi);
    TiledAt(bs, EXT_BASE, hi, i);
    assert HeaderAt(CellsOf(m), bs, i);
    var b := bs[i].(busy := busy);
    MarkRepresents(CellsOf(m), bs, i, busy);
    CellsPut(m, Off(b.addr), HeaderWord(b));
    GetPut32(m, Off(b.addr), HeaderWord(b));
  }

  lemma InitRepresents(m: seq<u8>, c: Cells, size: u32)
    requires |m| == EXT_SIZE && size % 4 == 0 && HEADER_SIZE + 4 <= size
    requires CellsOf(m) == c[0 := size][4 := 0]
    ensures Represents(CellsOf(m), [Block(EXT_BASE, size, false)])
    ensures HeapInv([Block(EXT_BASE, size, false)], EXT_BASE, EXT_BASE + size)
  {
    assert [Block(EXT_BASE, size, false)][1..] == [];
  }

  lemma HeaderFlags(b: Block)
    requires b.size % 4 == 0
    ensures HeaderWord(b) % 2 == (if b.busy then 1 else 0)
    ensures HeaderWord(b) - HeaderWord(b) % 2 == b.size
  {
  }

  lemma RepresentsAt(c: Cells, bs: seq<Block>, k: nat)
    requires Represents(c, bs) && k < |bs|
    ensures HeaderAt(c, bs, k)
  {
  }

  /** What a walk reads at block k of a represented list. */
  lemma WalkReads(m: Memory, bs: seq<Block>, k: nat)
    requires m.Valid() && Represents(CellsOf(m.ext), bs) && k < |bs|
    ensures EXT_BASE <= bs[k].addr <= EXT_BASE + EXT_SIZE - 8 && bs[k].addr % 4 == 0 && bs[k].size % 4 == 0
    ensures k + 1 == |bs| ==> NextAddr(bs, k) == 0
    ensures k + 1 < |bs| ==> EXT_BASE <= NextAddr(bs, k) < EXT_BASE + EXT_SIZE
    ensures 0 <= HeaderWord(bs[k]) < 0x1_0000_0000
    ensures Load32(m, bs[k].addr) == Success(HeaderWord(bs[k]))
    ensures Load32(m, bs[k].addr + 4) == Success(NextAddr(bs, k))
    ensures HeaderWord(bs[k]) % 2 == (if bs[k].busy then 1 else 0)
    ensures HeaderWord(bs[k]) - HeaderWord(bs[k]) % 2 == bs[k].size
  {
    hide Represents, CellsOf, Get32;
    RepresentsAt(CellsOf(m.ext), bs, k);
    if k + 1 < |bs| {
      RepresentsAt(CellsOf(m.ext), bs, k + 1);
    }
    CellIs(m.ext, Off(bs[k].addr));
    CellIs(m.ext, Off(bs[k].addr) + 4);
    HeaderFlags(bs[k]);
  }

  /** One header at address curr was rewritten, with a clear busy bit. */
  ghost predicate Merged(m: seq<u8>, m': seq<u8>, curr: int) {
    && |m'| == |m| == EXT_SIZE && 0 <= Off(curr) <= EXT_SIZE - 8
    && Get32(m', Off(curr)) % 2 == 0
    && SameOutside(m, m', Block(curr, HEADER_SIZE, false))
  }

  lemma MergeInMemory(m: seq<u8>, m': seq<u8>, bs: seq<Block>, i: nat, extra: int, w: int, next: int)
    requires |m| == |m'| == EXT_SIZE && Represents(CellsOf(m), bs) && Spaced(bs) && i + 1 < |bs|
    requires !bs[i].busy && !bs[i + 1].busy && extra % 4 == 0
    requires w == bs[i].size + bs[i + 1].size + extra && 0 <= w < 0x1_0000_0000
    requires next == NextAddr(bs, i + 1) && 0 <= next < 0x1_0000_0000
    requires CellsOf(m') == CellsOf(m)[Off(bs[i].addr) := w][Off(bs[i].addr) + 4 := next]
    ensures Represents(CellsOf(m'), MergeAt(bs, i, extra)) && Spaced(MergeAt(bs, i, extra))
    ensures w % 2 == 0
  {
    assert HeaderAt(CellsOf(m), bs, i) && HeaderAt(CellsOf(m), bs, i + 1);
    MergeRepresents(CellsOf(m), bs, i, extra);
  }

  /** The addresses of the blocks, and those of the free ones. */
  ghost function Addrs(bs: seq<Block>): set<int> {
    set i | 0 <= i < |bs| :: bs[i].addr
  }

  ghost function FreeAddrs(bs: seq<Block>): set<int> {
    set i | 0 <= i < |bs| && !bs[i].busy :: bs[i].addr
  }

  /** Address a is in an 8-byte header at one of the addresses xs. */
  ghost predicate Occupied(xs: set<int>, a: int) {
    exists x | x in xs :: x <= a < x + 8
  }

  ghost predicate Apart(xs: set<int>) {
    forall x, y | x in xs && y in xs && x != y :: x + 8 <= y || y + 8 <= x
  }

  ghost predicate StandOn(bs: seq<Block>, addrs: set<int>) {
    forall i | 0 <= i < |bs| :: bs[i].addr in addrs
  }

  /** Only bytes of the headers at addrs changed, and the headers at frees have a
      clear busy bit. */
  ghost predicate OnlyHeaders(m0: seq<u8>, m: seq<u8>, addrs: set<int>, frees: set<int>) {
    && |m0| == |m| == EXT_SIZE
    && (forall o | 0 <= o < EXT_SIZE && !Occupied(addrs, EXT_BASE + o) :: m[o] == m0[o])
    && (forall x | x in frees :: 0 <= Off(x) <= EXT_SIZE - 8 && Get32(m, Off(x)) % 2 == 0)
  }

  lemma OnlyHeadersAtStart(m: seq<u8>, bs: seq<Block>)
    requires |m| == EXT_SIZE && Represents(CellsOf(m), bs) && Spaced(bs)
    ensures OnlyHeaders(m, m, Addrs(bs), FreeAddrs(bs)) && StandOn(bs, Addrs(bs)) && Apart(Addrs(bs))
    ensures FreeAddrs(bs) <= Addrs(bs)
  {
    forall i | 0 <= i < |bs|
      ensures 0 <= Off(bs[i].addr) <= EXT_SIZE - 8
      ensures !bs[i].busy ==> Get32(m, Off(bs[i].addr)) % 2 == 0
    {
      assert HeaderAt(CellsOf(m), bs, i);
      CellIs(m, Off(bs[i].addr));
    }
  }

  lemma OnlyHeadersKept(m0: seq<u8>, m: seq<u8>, m': seq<u8>, addrs: set<int>, frees: set<int>, curr: int)
    requires OnlyHeaders(m0, m, addrs, frees) && Apart(addrs) && frees <= addrs && curr in addrs
    requires Merged(m, m', curr)
    ensures OnlyHeaders(m0, m', addrs, frees)
  {
    forall o | 0 <= o < EXT_SIZE && !Occupied(addrs, EXT_BASE + o)
      ensures m'[o] == m0[o]
    {
      assert !(curr <= EXT_BASE + o < curr + 8);
    }
    forall x | x in frees
      ensures Get32(m', Off(x)) % 2 == 0
    {
      if x != curr {
        assert x + 8 <= curr || curr + 8 <= x;
        assert m'[Off(x)..Off(x) + 4] == m[Off(x)..Off(x) + 4];
      }
    }
  }

  lemma MergeStandsOn(bs: seq<Block>, k: nat, extra: int, addrs: set<int>)
    requires StandOn(bs, addrs) && k + 1 < |bs|
    ensures StandOn(MergeAt(bs, k, extra), addrs)
  {
    var r := MergeAt(bs, k, extra);
    forall i | 0 <= i < |r|
      ensures r[i].addr in addrs
    {
      assert r[i].addr == bs[if i <= k then i else i + 1].addr;
    }
  }

  /** Sizes never sum past 32 bits while blocks are merged, even with the 8 extra
      bytes of the merge as written. */
  ghost predicate SizesBounded(bs: seq<Block>) {
    && (forall i | 0 <= i < |bs| :: bs[i].size >= 0)
    && Total(bs) + 8 * |bs| <= 2 * EXT_SIZE
  }

  lemma MergeKeepsBound(bs: seq<Block>, i: nat, extra: int)
    requires SizesBounded(bs) && i + 1 < |bs| && !bs[i].busy && !bs[i + 1].busy && 0 <= extra <= 8
    ensures bs[i].size + bs[i + 1].size + extra <= 2 * EXT_SIZE
    ensures SizesBounded(MergeAt(bs, i, extra))
  {
    SizesWithinTotal(bs, i);
    MergeIsCoalesceStep(bs, i, extra);
    forall j | 0 <= j < |MergeAt(bs, i, extra)|
      ensures MergeAt(bs, i, extra)[j].size >= 0
    {
      if j > i {
        assert MergeAt(bs, i, extra)[j] == bs[j + 1];
      }
    }
  }

  lemma {:induction false} TiledCount(bs: seq<Block>, lo: int, hi: int)
    requires Tiled(bs, lo, hi)
    ensures 8 * |bs| <= hi - lo
  {
    if bs == [] {
    } else {
      TiledCount(bs[1..], lo + bs[0].size, hi);
    }
  }

  /** A live payload lies in the range free checks, because the last block is never
      only a header; and its header word has the busy bit set. */
  lemma LiveHeader(m: Memory, bs: seq<Block>, hi: int, i: nat)
    requires m.Valid() && Represents(CellsOf(m.ext), bs) && HeapInv(bs, EXT_BASE, hi) && hi <= EXT_BASE + EXT_SIZE
    requires i < |bs| && bs[i].busy
    ensures EXT_BASE + 8 <= bs[i].addr + HEADER_SIZE < hi <= EXT_BASE + EXT_SIZE
    ensures Load32(m, bs[i].addr) == Success(HeaderWord(bs[i])) && HeaderWord(bs[i]) % 2 == 1
  {
    TiledAt(bs, EXT_BASE, hi, i);
    if i + 1 < |bs| {
      TiledAt(bs, EXT_BASE, hi, i + 1);
    }
    WalkReads(m, bs, i);
  }

  /** Line 86 leaves a list the coalescing loop accepts. */
  lemma FreeMarks(m: seq<u8>, bs: seq<Block>, hi: int, i: nat)
    requires |m| == EXT_SIZE && hi <= EXT_BASE + EXT_SIZE
    requires Represents(CellsOf(m), bs) && Tiled(bs, EXT_BASE, hi) && i < |bs|
    ensures var c := bs[i := bs[i].(busy := false)];
            && 0 <= Off(bs[i].addr) <= EXT_SIZE - 8 && 0 <= bs[i].size < 0x1_0000_0000
            && Represents(CellsOf(Put32(m, Off(bs[i].addr), bs[i].size)), c)
            && Spaced(c) && SizesBounded(c)
            && c[0].addr == EXT_BASE
  {
    var c := bs[i := bs[i].(busy := false)];
    MarkInMemory(m, bs, hi, i, false);
    ClearKeepsTiled(bs, EXT_BASE, hi, i);
    TiledPairwise(c, EXT_BASE, hi);
    TotalsCoverRange(c, EXT_BASE, hi);
    TiledCount(c, EXT_BASE, hi);
  }

  /** Marking and coalescing together touch only header bytes. */
  lemma FreeEffect(m0: seq<u8>, m1: seq<u8>, m2: seq<u8>, bs: seq<Block>, hi: int, i: nat)
    requires |m0| == |m1| == |m2| == EXT_SIZE && hi <= EXT_BASE + EXT_SIZE
    requires Represents(CellsOf(m0), bs) && Tiled(bs, EXT_BASE, hi) && i < |bs|
    requires 0 <= Off(bs[i].addr) <= EXT_SIZE - 8 && 0 <= bs[i].size < 0x1_0000_0000
    requires m1 == Put32(m0, Off(bs[i].addr), bs[i].size)
    requires var c := bs[i := bs[i].(busy := false)]; OnlyHeaders(m1, m2, Addrs(c), FreeAddrs(c))
    ensures Get32(m2, Off(bs[i].addr)) % 2 == 0
    ensures forall o | 0 <= o < EXT_SIZE && !HeaderByte(bs, EXT_BASE + o) :: m2[o] == m0[o]
  {
    var c := bs[i := bs[i].(busy := false)];
    GetPut32(m0, Off(bs[i].addr), bs[i].size);
    assert !c[i].busy && c[i].addr in FreeAddrs(c);
    forall o | 0 <= o < EXT_SIZE && !HeaderByte(bs, EXT_BASE + o)
      ensures m2[o] == m0[o]
    {
      var a := EXT_BASE + o;
      assert !(bs[i].addr <= a < bs[i].addr + 8);
      if Occupied(Addrs(c), a) {
        OccupiedIsHeader(bs, i, a);
      }
    }
  }

  lemma OccupiedIsHeader(bs: seq<Block>, i: nat, a: int)
    requires i < |bs| && Occupied(Addrs(bs[i := bs[i].(busy := false)]), a)
    ensures HeaderByte(bs, a)
  {
    var c := bs[i := bs[i].(busy := false)];
    var x :| x in Addrs(c) && x <= a < x + 8;
    var j :| 0 <= j < |c| && c[j].addr == x;
    assert bs[j].addr <= a < bs[j].addr + 8;
  }

  lemma HeaderFlagsAt(m: Memory, bs: seq<Block>, i: nat)
    requires m.Valid() && Represents(CellsOf(m.ext), bs) && i < |bs|
    ensures 0 <= bs[i].addr < 0x1_0000_0000 && Load32(m, bs[i].addr).Success?
    ensures var w := Load32(m, bs[i].addr).value; w - w % 2 == bs[i].size
  {
    WalkReads(m, bs, i);
  }

  ghost predicate LivePayload(bs: seq<Block>, payload: int) {
    exists i | 0 <= i < |bs| :: bs[i].busy && bs[i].addr + HEADER_SIZE == payload
  }

  /** Lines 69-83: whether the address is in range and the word before it has its
      busy bit set; the read of that word may fault. */
  function FreeGuard(m: Memory, managed: u32, payload: u32): Result<bool>
    requires m.Valid()
  {
    if payload < EXT_BASE || payload >= EXT_BASE + managed then Success(false)
    else
      var flags :- Load32(m, payload - 8);
      Success(flags % 2 == 1)
  }

  /** In range, free ends the process exactly on addresses that are no multiple of 4 or
      leave no room for a header before them. */
  lemma FreeGuardFaults(m: Memory, managed: u32, payload: u32)
    requires m.Valid() && managed <= EXT_SIZE
    ensures FreeGuard(m, managed, payload).Failure? <==>
            0x6000_0000 <= payload < 0x6000_0000 + managed && (payload % 4 != 0 || payload < 0x6000_0008)
    ensures FreeGuard(m, managed, payload) == Success(true) ==> 0x6000_0008 <= payload < 0x6000_0000 + managed
  {
  }

  /** An odd cell of the heap's memory that is no cell of a header. */
  ghost predicate StrayWord(m: seq<u8>, bs: seq<Block>, h: int) {
    && |m| == EXT_SIZE && h % 4 == 0 && 0 <= Off(h) <= EXT_SIZE - 4 && Get32(m, Off(h)) % 2 == 1
    && forall i | 0 <= i < |bs| :: h != bs[i].addr && h != bs[i].addr + 4
  }

  function WithoutLowBit(m: seq<u8>, h: int): (r: seq<u8>)
    requires |m| == EXT_SIZE && 0 <= Off(h) <= EXT_SIZE - 4 && Get32(m, Off(h)) % 2 == 1
    ensures |r| == EXT_SIZE
  {
    Put32(m, Off(h), Get32(m, Off(h)) - 1)
  }

  /** Only the first byte of the word changes. */
  lemma LowBitOnly(m: seq<u8>, h: int)
    requires |m| == EXT_SIZE && 0 <= Off(h) <= EXT_SIZE - 4 && Get32(m, Off(h)) % 2 == 1
    ensures m[Off(h)] % 2 == 1 && WithoutLowBit(m, h) == m[Off(h) := m[Off(h)] - 1]
  {
    hide Get32, Put32, WithoutLowBit;
    var o := Off(h);
    var v := Get32(m, o) - 1;
    Get32Bytes(m, o);
    OddMinusOne(m[o], m[o + 1], m[o + 2], m[o + 3], v);
    FirstByteOnly(m, h, v);
  }

  lemma FirstByteOnly(m: seq<u8>, h: int, v: u32)
    requires |m| == EXT_SIZE && 0 <= Off(h) <= EXT_SIZE - 4 && Get32(m, Off(h)) % 2 == 1 && v == Get32(m, Off(h)) - 1
    requires v / 0x100 % 0x100 == m[Off(h) + 1] && v / 0x1_0000 % 0x100 == m[Off(h) + 2]
    requires v / 0x100_0000 == m[Off(h) + 3]
    ensures WithoutLowBit(m, h) == m[Off(h) := v % 0x100]
  {
    hide Get32, Put32;
    Put32Bytes(m, Off(h), v);
  }

  lemma OddMinusOne(a: u8, b: u8, c: u8, d: u8, v: int)
    requires v == (a as int) + 0x100 * (b as int) + 0x1_0000 * (c as int) + 0x100_0000 * (d as int) - 1
    requires v % 2 == 0
    ensures a % 2 == 1
    ensures v % 0x100 == a - 1 && v / 0x100 % 0x100 == b && v / 0x1_0000 % 0x100 == c && v / 0x100_0000 == d
  {
    var hi: int := c as int + 0x100 * (d as int);
    var mid: int := b as int + 0x100 * hi;
    assert v == a - 1 + 0x100 * mid;
    assert v / 0x100 == mid;
    assert v / 0x1_0000 == hi;
  }

  /** An odd word that does not stand before a live payload is no header: sizes are
      multiples of 4 and so are links. */
  lemma OddIsStray(m: Memory, bs: seq<Block>, h: u32)
    requires m.Valid() && Represents(CellsOf(m.ext), bs) && EXT_BASE - 8 <= h
    requires Load32(m, h).Success? && Load32(m, h).value % 2 == 1 && !LivePayload(bs, h + HEADER_SIZE)
    ensures StrayWord(m.ext, bs, h)
  {
    forall i | 0 <= i < |bs|
      ensures h != bs[i].addr && h != bs[i].addr + 4
    {
      WalkReads(m, bs, i);
      if i + 1 < |bs| {
        WalkReads(m, bs, i + 1);
      }
    }
  }

  /** Clearing its low bit leaves the list as it is. */
  lemma StrayCleared(m: seq<u8>, bs: seq<Block>, h: int)
    requires StrayWord(m, bs, h) && Represents(CellsOf(m), bs)
    ensures Represents(CellsOf(WithoutLowBit(m, h)), bs) && Get32(WithoutLowBit(m, h), Off(h)) % 2 == 0
  {
    hide Represents, LittleEndian;
    var v := Get32(m, Off(h)) - 1;
    CellsPut(m, Off(h), v);
    GetPut32(m, Off(h), v);
    RepresentsFrame(CellsOf(m), Off(h), v, bs);
  }

  lemma InvIsSpaced(bs: seq<Block>, hi: int)
    requires HeapInv(bs, EXT_BASE, hi) && hi <= EXT_BASE + EXT_SIZE
    ensures Spaced(bs) && SizesBounded(bs) && |bs| > 0 && bs[0].addr == EXT_BASE && NoAdjacentFree(bs)
  {
    TiledSpaced(bs, EXT_BASE, hi);
    TiledCount(bs, EXT_BASE, hi);
    TotalsCoverRange(bs, EXT_BASE, hi);
    BlocksHoldHeaders(bs, hi);
  }

  predicate FreeAnswer(guard: Result<bool>, r: Result<u32>) {
    match guard
    case Failure(f) => r == Failure(f)
    case Success(passed) => r == Success(if passed then 0 else 1)
  }

  /** Every live payload passes the guard: the last block is never only a header,
      so even its payload lies below the upper bound. */
  lemma LiveIsAccepted(m: Memory, bs: seq<Block>, managed: u32, payload: u32)
    requires m.Valid() && managed <= EXT_SIZE
    requires Represents(CellsOf(m.ext), bs) && HeapInv(bs, EXT_BASE, EXT_BASE + managed)
    ensures LivePayload(bs, payload) ==> FreeGuard(m, managed, payload) == Success(true)
  {
    if LivePayload(bs, payload) {
      var i :| 0 <= i < |bs| && bs[i].busy && bs[i].addr + HEADER_SIZE == payload;
      LiveHeader(m, bs, EXT_BASE + managed, i);
    }
  }

  lemma HeaderCleared(m: Memory, managed: u32, payload: u32)
    requires m.Valid() && payload % 4 == 0 && EXT_BASE + 8 <= payload <= EXT_BASE + EXT_SIZE
    requires Get32(m.ext, Off(payload - 8)) % 2 == 0
    ensures FreeGuard(m, managed, payload) == Success(false)
  {
  }

  lemma HeaderInReach(c: Cells, bs: seq<Block>, k: nat)
    requires Represents(c, bs) && k < |bs|
    ensures EXT_BASE <= bs[k].addr <= EXT_BASE + EXT_SIZE - 8 && bs[k].addr % 4 == 0
  {
    assert HeaderAt(c, bs, k);
  }

  lemma TotalOfSnoc(bs: seq<Block>, k: nat)
    requires k < |bs|
    ensures forall busy :: TotalOf(bs[..k + 1], busy)
                        == TotalOf(bs[..k], busy) + if bs[k].busy == busy then bs[k].size else 0
  {
    forall busy: bool
      ensures TotalOf(bs[..k + 1], busy) == TotalOf(bs[..k], busy) + if bs[k].busy == busy then bs[k].size else 0
    {
      assert bs[..k + 1] == bs[..k] + [bs[k]];
      TotalOfAppend(bs[..k], [bs[k]], busy);
    }
  }

  /** The word after a header is inside the heap, even behind an empty payload. */
  lemma SecondCellInReach(m: Memory, bs: seq<Block>, hi: int, k: nat)
    requires m.Valid() && Represents(CellsOf(m.ext), bs) && HeapInv(bs, EXT_BASE, hi) && hi <= EXT_BASE + EXT_SIZE
    requires k < |bs|
    ensures 0 <= bs[k].addr + 8 < 0x1_0000_0000 && Load32(m, bs[k].addr + 8).Success?
  {
    WalkReads(m, bs, k);
    TiledAt(bs, EXT_BASE, hi, k);
    if k + 1 < |bs| {
      TiledAt(bs, EXT_BASE, hi, k + 1);
    }
  }

  lemma BlocksHoldHeaders(bs: seq<Block>, hi: int)
    requires Tiled(bs, EXT_BASE, hi)
    ensures forall i | 0 <= i < |bs| :: bs[i].size >= HEADER_SIZE
  {
    TiledPairwise(bs, EXT_BASE, hi);
  }

  class Heap {
    const bus: Bus
    const managed: u32
    const rule: MergeRule
    ghost var blocks: seq<Block>

    ghost predicate Valid()
      reads this, bus.fast, bus.ext
    {
      && bus.Valid()
      && managed % 4 == 0 && HEADER_SIZE + 4 <= managed <= EXT_SIZE
      && Represents(CellsOf(bus.ext[..]), blocks)
      && HeapInv(blocks, EXT_BASE, EXT_BASE + managed)
    }

    /** heap_init: one free block that is the whole heap. HEAP_MANAGED_SIZE is
        EXT_SIZE in the source; any multiple of 4 that holds a block works. */
    constructor (b: Bus, size: u32, mergeRule: MergeRule)
      requires b.Valid() && size % 4 == 0 && HEADER_SIZE + 4 <= size <= EXT_SIZE
      modifies b.fast, b.ext
      ensures Valid() && bus == b && managed == size && rule == mergeRule
      ensures blocks == [Block(EXT_BASE, size, false)]
      ensures bus.fast[..] == old(b.fast[..])
    {
      bus := b;
      managed := size;
      rule := mergeRule;
      blocks := [Block(EXT_BASE, size, false)];
      new;
      ghost var m0 := b.ext[..];
      WriteHeader(EXT_BASE, size, 0);
      InitRepresents(b.ext[..], CellsOf(m0), size);
    }

    /** Both words of one header. */
    method WriteHeader(addr: u32, word: u32, next: u32)
      requires bus.Valid() && addr % 4 == 0 && EXT_BASE <= addr <= EXT_BASE + EXT_SIZE - 8
      modifies bus.fast, bus.ext
      ensures bus.fast[..] == old(bus.fast[..])
      ensures CellsOf(bus.ext[..]) == CellsOf(old(bus.ext[..]))[Off(addr) := word][Off(addr) + 4 := next]
      ensures Get32(bus.ext[..], Off(addr)) == word
      ensures SameOutside(old(bus.ext[..]), bus.ext[..], Block(addr, HEADER_SIZE, false))
    {
      HeaderBytesEffect(bus.ext[..], Off(addr), word, next);
      var w := bus.Write32(addr, word);
      assert w.Success?;
      w := bus.Write32(addr + 4, next);
      assert w.Success?;
    }

    /** Lines 42-51. */
    method WriteSplit(curr: u32, total: u32, required: u32, next: u32)
      requires bus.Valid() && curr % 4 == 0 && required % 4 == 0 && total <= EXT_SIZE
      requires EXT_BASE <= curr && curr + total <= EXT_BASE + EXT_SIZE && required + HEADER_SIZE + 4 <= total
      modifies bus.fast, bus.ext
      ensures bus.fast[..] == old(bus.fast[..])
      ensures CellsOf(bus.ext[..])
           == SplitWrites(CellsOf(old(bus.ext[..])), Off(curr), required, total - required, next, curr + required)
      ensures SameOutside(old(bus.ext[..]), bus.ext[..], Block(curr, total, false))
    {
      var rest := curr + required;
      WriteHeader(rest, total - required, next);
      WriteHeader(curr, required + 1, rest);
    }

    /** What every walk reads of the block it stands on: busy bit, size and link. */
    method ReadBlock(curr: u32, ghost k: nat) returns (h: Header)
      requires bus.Valid() && Represents(CellsOf(bus.ext[..]), blocks) && k < |blocks| && curr == blocks[k].addr
      ensures h.busy == blocks[k].busy && h.size == blocks[k].size
      ensures h.next == NextAddr(blocks, k)
      ensures h.next == 0 <==> k + 1 == |blocks|
    {
      WalkReads(bus.Contents(), blocks, k);
      var flags := bus.Read32(curr);
      var next := bus.Read32(curr + 4);
      return Header(flags.value % 2 == 1, flags.value - flags.value % 2, next.value);
    }

    /** Lines 40-58: hand out block k, the one the walk stands on. */
    method Take(curr: u32, total: u32, required: u32, next: u32, ghost k: nat) returns (payload: u32)
      requires Valid() && k < |blocks|
      requires curr == blocks[k].addr && total == blocks[k].size && next == NextAddr(blocks, k)
      requires Fits(blocks[k], required) && required % 4 == 0
      modifies this`blocks, bus.fast, bus.ext
      ensures payload == curr + HEADER_SIZE && bus.fast[..] == old(bus.fast[..])
      ensures SameOutside(old(bus.ext[..]), bus.ext[..], old(blocks)[k])
      ensures required >= HEADER_SIZE || total < required + HEADER_SIZE + 4 ==>
                Represents(CellsOf(bus.ext[..]), blocks) && blocks == TakeBlock(old(blocks), k, required)
      ensures required < HEADER_SIZE && total >= required + HEADER_SIZE + 4 ==>
                SplitInCells(CellsOf(old(bus.ext[..])), old(blocks), k, required, CellsOf(bus.ext[..]))
    {
      ghost var m0 := bus.ext[..];
      ghost var hi := EXT_BASE + managed;
      TiledAt(blocks, EXT_BASE, hi, k);
      if total >= required + HEADER_SIZE + 4 {
        WriteSplit(curr, total, required, next);
        if required >= HEADER_SIZE {
          SplitInMemory(m0, bus.ext[..], blocks, hi, k, required);
        }
      } else {
        var w := bus.Write32(curr, total + 1);
        assert w.Success?;
        MarkInMemory(m0, blocks, hi, k, true);
      }
      blocks := TakeBlock(blocks, k, required);
      return curr + 8;
    }

    method Allocate(size: u32) returns (payload: u32)
      requires Valid()
      modifies this`blocks, bus.fast, bus.ext
      ensures bus.fast[..] == old(bus.fast[..])
      ensures AllocateStep(size, old(bus.ext[..]), old(blocks), bus.ext[..], blocks, payload)
      // the heap stays well-formed if and only if the request does not collide
      ensures Valid() <==> !Collides(old(blocks), size)
      ensures WellFormed(bus.ext[..], EXT_BASE + managed) <==> !Collides(old(blocks), size)
      // a request that wraps is answered with the first free block
      ensures size > 0xFFFF_FFF4 ==>
                var i := FirstFit(old(blocks), 0, 0);
                payload == if i == |old(blocks)| then 0 else old(blocks)[i].addr + HEADER_SIZE
    {
      RequiredSizeExact(size);
      var required: u32 := RequiredSize(size);
      if size > 0xFFFF_FFF4 {
        BlocksHoldHeaders(blocks, EXT_BASE + managed);
        FirstFitSmall(blocks, required, 0);
      }
      ghost var k: nat := 0;
      ghost var m0, bs := bus.Contents(), blocks;
      var curr: u32 := EXT_BASE;
      while curr != 0
        invariant k <= |blocks| && curr == WalkAddr(blocks, k) && (curr == 0 <==> k == |blocks|)
        invariant FirstFit(blocks, required, 0) == FirstFit(blocks, required, k)
        invariant bus.Contents() == m0 && blocks == old(blocks)
        invariant Valid()
        decreases |blocks| - k
      {
        var block := ReadBlock(curr, k);
        if !block.busy && block.size >= required {
          payload := Take(curr, block.size, required, block.next, k);
          AllocateKeepsHeap(size, m0.ext, bs, bus.ext[..], blocks, payload, EXT_BASE + managed);
          return;
        }
        curr := block.next;
        k := k + 1;
      }
      return 0;
    }

    /** Lines 109-114: absorb the next block into block k. */
    method Absorb(curr: u32, total: u32, next: u32, nextTotal: u32, ghost k: nat)
      requires bus.Valid() && Represents(CellsOf(bus.ext[..]), blocks) && Spaced(blocks) && SizesBounded(blocks)
      requires k + 1 < |blocks| && !blocks[k].busy && !blocks[k + 1].busy
      requires curr == blocks[k].addr && total == blocks[k].size
      requires next == blocks[k + 1].addr && nextTotal == blocks[k + 1].size
      modifies this`blocks, bus.fast, bus.ext
      ensures bus.fast[..] == old(bus.fast[..])
      ensures blocks == MergeAt(old(blocks), k, rule.Extra())
      ensures Merged(old(bus.ext[..]), bus.ext[..], curr)
      ensures Represents(CellsOf(bus.ext[..]), blocks) && Spaced(blocks) && SizesBounded(blocks)
    {
      ghost var bs, m0 := blocks, bus.ext[..];
      var extra := rule.Extra();
      HeaderInReach(CellsOf(m0), bs, k);
      MergeKeepsBound(bs, k, extra);
      var neighbour := ReadBlock(next, k + 1);
      var merged: u32 := total + nextTotal + extra;
      WriteHeader(curr, merged, neighbour.next);
      MergeInMemory(m0, bus.ext[..], bs, k, extra, merged, neighbour.next);
      blocks := MergeAt(bs, k, extra);
    }

    /** Lines 95-124: one look at block k, merging if its neighbour is free too. */
    method TryMerge(curr: u32, ghost k: nat) returns (merged: bool, next: u32)
      requires bus.Valid() && Represents(CellsOf(bus.ext[..]), blocks) && Spaced(blocks) && SizesBounded(blocks)
      requires k < |blocks| && curr == blocks[k].addr
      modifies this`blocks, bus.fast, bus.ext
      ensures bus.fast[..] == old(bus.fast[..])
      ensures Represents(CellsOf(bus.ext[..]), blocks) && Spaced(blocks) && SizesBounded(blocks)
      ensures !merged ==>
                && bus.ext[..] == old(bus.ext[..]) && blocks == old(blocks) && next == NextAddr(blocks, k)
                && (next == 0 <==> k + 1 == |blocks|)
                && (k + 1 == |blocks| || blocks[k].busy || blocks[k + 1].busy)
      ensures merged ==>
                && k + 1 < |old(blocks)| && !old(blocks)[k].busy && !old(blocks)[k + 1].busy
                && blocks == MergeAt(old(blocks), k, rule.Extra())
                && Merged(old(bus.ext[..]), bus.ext[..], curr)
    {
      var block := ReadBlock(curr, k);
      next := block.next;
      if !block.busy && next != 0 {
        var neighbour := ReadBlock(next, k + 1);
        if !neighbour.busy {
          Absorb(curr, block.size, next, neighbour.size, k);
          return true, next;
        }
      }
      return false, next;
    }

    /** Lines 92-128: merge free neighbours, staying on a block after a merge. */
    method CoalesceAll()
      requires bus.Valid() && Represents(CellsOf(bus.ext[..]), blocks) && Spaced(blocks) && SizesBounded(blocks)
      requires |blocks| > 0 && blocks[0].addr == EXT_BASE
      modifies this`blocks, bus.fast, bus.ext
      ensures bus.fast[..] == old(bus.fast[..])
      ensures blocks == Coalesce(old(blocks), rule.Extra())
      ensures Represents(CellsOf(bus.ext[..]), blocks)
      ensures OnlyHeaders(old(bus.ext[..]), bus.ext[..], Addrs(old(blocks)), FreeAddrs(old(blocks)))
      ensures NoAdjacentFree(old(blocks)) ==> blocks == old(blocks) && bus.ext[..] == old(bus.ext[..])
    {
      hide NoAdjacentFree, Spaced, SizesBounded, OnlyHeaders, Represents, Coalesce;
      ghost var extra := rule.Extra();
      ghost var idle := NoAdjacentFree(blocks);
      hide NoAdjacentFree, Spaced, SizesBounded;
      ghost var bs0, m0, f0 := blocks, bus.ext[..], bus.fast[..];
      ghost var addrs, frees := Addrs(bs0), FreeAddrs(bs0);
      ghost var k: nat := 0;
      var curr: u32 := EXT_BASE;
      OnlyHeadersAtStart(m0, blocks);
      assert blocks[0..] == blocks;
      while curr != 0
        invariant bus.Valid() && bus.fast[..] == f0
        invariant k <= |blocks| && curr == WalkAddr(blocks, k) && (curr == 0 <==> k == |blocks|)
        invariant Represents(CellsOf(bus.ext[..]), blocks) && Spaced(blocks) && SizesBounded(blocks)
        invariant blocks[..k] + Coalesce(blocks[k..], extra) == Coalesce(bs0, extra)
        invariant StandOn(blocks, addrs) && OnlyHeaders(m0, bus.ext[..], addrs, frees)
        invariant idle ==> blocks == bs0 && bus.ext[..] == m0
        decreases |blocks|, |blocks| - k
      {
        ghost var bs, m := blocks, bus.ext[..];
        var merged, next := TryMerge(curr, k);
        if merged {
          if idle {
            NoAdjacentAt(bs0, k);
            assert false;
          }
          MergeStandsOn(bs, k, extra, addrs);
          MergeIsCoalesceStep(bs, k, extra);
          OnlyHeadersKept(m0, m, bus.ext[..], addrs, frees, curr);
          continue;
        }
        SkipIsCoalesceStep(blocks, k, extra);
        curr := next;
        k := k + 1;
      }
      assert blocks[..k] == blocks && blocks[k..] == [];
    }

    /** Lines 86-128, for live block i; or, with i behind the list, for an odd word that
        is no header: its low bit is cleared, and nothing else happens. */
    method ReleaseWord(header: u32, total: u32, ghost i: nat)
      requires Valid() && i <= |blocks|
      requires i < |blocks| ==> blocks[i].busy && header == blocks[i].addr && total == blocks[i].size
      requires i == |blocks| ==> StrayWord(bus.ext[..], blocks, header) && total == Get32(bus.ext[..], Off(header)) - 1
      modifies this`blocks, bus.fast, bus.ext
      ensures bus.fast[..] == old(bus.fast[..]) && Represents(CellsOf(bus.ext[..]), blocks)
      ensures 0 <= Off(header) <= EXT_SIZE - 4 && header % 4 == 0 && Get32(bus.ext[..], Off(header)) % 2 == 0
      // as written the heap stays well-formed only when nothing is merged
      ensures i < |old(blocks)| ==>
                && FreeStep(i, rule.Extra(), old(bus.ext[..]), old(blocks), bus.ext[..], blocks)
                && (Valid() <==> rule == Repaired || !FreeNeighbour(old(blocks), i))
      ensures i == |old(blocks)| ==>
                Valid() && blocks == old(blocks) && bus.ext[..] == WithoutLowBit(old(bus.ext[..]), header)
    {
      hide Spaced, SizesBounded;
      ghost var bs, m0, hi := blocks, bus.ext[..], EXT_BASE + managed;
      if i < |bs| {
        WalkReads(bus.Contents(), bs, i);
        FreeMarks(m0, bs, hi, i);
      } else {
        StrayCleared(m0, bs, header);
      }
      var w := bus.Write32(header, total);
      assert w.Success?;
      if i < |bs| {
        blocks := bs[i := bs[i].(busy := false)];
      } else {
        InvIsSpaced(bs, hi);
      }
      ghost var m1 := bus.ext[..];
      CoalesceAll();
      if i < |bs| {
        FreeEffect(m0, m1, bus.ext[..], bs, hi, i);
        ReleaseKeepsInv(bs, EXT_BASE, hi, i);
        ReleaseAsWritten(bs, EXT_BASE, hi, i);
      }
    }

    /** Lines 85-130 for the word before any address that passes the guard: it stands
        before a live payload, or it is no header. */
    method Accept(payload: u32, header: u32, total: u32)
      requires Valid() && FreeGuard(bus.Contents(), managed, payload) == Success(true)
      requires header == payload - 8 && Load32(bus.Contents(), header) == Success(total + 1) && total % 2 == 0
      modifies this`blocks, bus.fast, bus.ext
      ensures bus.fast[..] == old(bus.fast[..]) && Represents(CellsOf(bus.ext[..]), blocks)
      ensures FreeGuard(bus.Contents(), managed, payload) == Success(false)
      ensures LivePayload(old(blocks), payload) ==>
                exists i | 0 <= i < |old(blocks)| ::
                  && old(blocks)[i].busy && old(blocks)[i].addr + HEADER_SIZE == payload
                  && FreeStep(i, rule.Extra(), old(bus.ext[..]), old(blocks), bus.ext[..], blocks)
                  && (Valid() <==> rule == Repaired || !FreeNeighbour(old(blocks), i))
      ensures !LivePayload(old(blocks), payload) ==>
                && Valid() && blocks == old(blocks) && StrayWord(old(bus.ext[..]), blocks, payload - 8)
                && bus.ext[..] == WithoutLowBit(old(bus.ext[..]), payload - 8)
    {
      hide Represents;
      ghost var i: nat := |blocks|;
      if LivePayload(blocks, payload) {
        i :| 0 <= i < |blocks| && blocks[i].busy && blocks[i].addr + HEADER_SIZE == payload;
        HeaderFlagsAt(bus.Contents(), blocks, i);
      } else {
        OddIsStray(bus.Contents(), blocks, header);
      }
      ReleaseWord(header, total, i);
      HeaderCleared(bus.Contents(), managed, payload);
    }

    /** What free answers for any address at all. The source does not check that the
        address starts a payload: one behind any other odd word is accepted, and
        loses the low bit of that word. A refusal needs no well-formed heap. */
    method Free(payload: u32) returns (r: Result<u32>)
      requires bus.Valid() && managed <= EXT_SIZE
      requires FreeGuard(bus.Contents(), managed, payload) == Success(true) ==> Valid()
      modifies this`blocks, bus.fast, bus.ext
      ensures FreeAnswer(FreeGuard(old(bus.Contents()), managed, payload), r)
      ensures old(Valid()) && LivePayload(old(blocks), payload) ==> r == Success(0)
      // refused or ended by a bus fault: nothing changes
      ensures r != Success(0) ==> bus.Contents() == old(bus.Contents()) && blocks == old(blocks)
      // accepted: the next free of the same address is refused
      ensures r == Success(0) ==>
                && FreeGuard(bus.Contents(), managed, payload) == Success(false)
                && bus.fast[..] == old(bus.fast[..]) && Represents(CellsOf(bus.ext[..]), blocks)
      ensures r == Success(0) && LivePayload(old(blocks), payload) ==>
                exists i | 0 <= i < |old(blocks)| ::
                  && old(blocks)[i].busy && old(blocks)[i].addr + HEADER_SIZE == payload
                  && FreeStep(i, rule.Extra(), old(bus.ext[..]), old(blocks), bus.ext[..], blocks)
                  && (Valid() <==> rule == Repaired || !FreeNeighbour(old(blocks), i))
      ensures r == Success(0) && !LivePayload(old(blocks), payload) ==>
                && Valid() && blocks == old(blocks) && StrayWord(old(bus.ext[..]), blocks, payload - 8)
                && bus.ext[..] == WithoutLowBit(old(bus.ext[..]), payload - 8)
    {
      hide Represents, HeapInv, FreeStep, StrayWord, LivePayload, CellsOf;
      if Valid() {
        LiveIsAccepted(bus.Contents(), blocks, managed, payload);
      }
      if payload < EXT_BASE || payload >= EXT_BASE + managed {
        return Success(1);
      }
      var header: u32 := payload - 8;
      var flags := bus.Read32(header);
      if flags.Failure? {
        return flags;
      }
      if flags.value % 2 == 0 {
        return Success(1);
      }
      Accept(payload, header, flags.value - flags.value % 2);
      return Success(0);
    }

    /** heap_dump_status: the byte totals and the number of blocks. */
    method DumpStatus() returns (totalAllocated: int, totalFree: int, count: nat)
      requires Valid()
      ensures totalAllocated == TotalOf(blocks, true) && totalFree == TotalOf(blocks, false) && count == |blocks|
      ensures totalAllocated + totalFree == managed
    {
      TotalsCoverRange(blocks, EXT_BASE, EXT_BASE + managed);
      totalAllocated, totalFree, count := 0, 0, 0;
      var curr: u32 := EXT_BASE;
      assert blocks[..0] == [];
      while curr != 0
        invariant 0 <= count <= |blocks| && curr == WalkAddr(blocks, count) && (curr == 0 <==> count == |blocks|)
        invariant totalAllocated == TotalOf(blocks[..count], true) && totalFree == TotalOf(blocks[..count], false)
        decreases |blocks| - count
      {
        var block := ReadBlock(curr, count);
        TotalOfSnoc(blocks, count);
        if block.busy {
          totalAllocated := totalAllocated + block.size;
        } else {
          totalFree := totalFree + block.size;
        }
        count := count + 1;
        curr := block.next;
      }
      assert blocks[..count] == blocks;
    }

    /** The heap section of forth_export_memory_csv: one row per block, in order. */
    method ExportRows() returns (rows: seq<Row>)
      requires Valid()
      ensures |rows| == |blocks|
      ensures forall i | 0 <= i < |blocks| ::
                rows[i] == Row(i, blocks[i].addr, blocks[i].busy, blocks[i].size, NextAddr(blocks, i))
    {
      rows := [];
      var curr: u32 := EXT_BASE;
      while curr != 0
        invariant |rows| <= |blocks| && curr == WalkAddr(blocks, |rows|) && (curr == 0 <==> |rows| == |blocks|)
        invariant forall i | 0 <= i < |rows| ::
                    rows[i] == Row(i, blocks[i].addr, blocks[i].busy, blocks[i].size, NextAddr(blocks, i))
        decreases |blocks| - |rows|
      {
        var block := ReadBlock(curr, |rows|);
        if block.busy {
          // the exporter also prints the first payload cell
          SecondCellInReach(bus.Contents(), blocks, EXT_BASE + managed, |rows|);
          var cell := bus.Read32(curr + 8);
          assert cell.Success?;
        }
        rows := rows + [Row(|rows|, curr, block.busy, block.size, block.next)];
        curr := block.next;
      }
    }
  }
}
