/** What every sequence of allocate, free and payload writes keeps. The steps are
    the contracts of Heap.Allocate and Heap.Free, for live payloads and for any other
    address that free accepts, and the writes of a caller that stays inside live
    payloads. */
module HeapRuns {
  import opened Words
  import opened Bus
  import opened HeapBlocks
  import opened HeapMemory
  import opened Heap

  datatype Op =
    | Allocate(size: u32, result: u32)
    | Free(payload: int)
    | StrayFree(payload: int)
    | Write(addr: int, value: u8)

  datatype State = State(m: seq<u8>, bs: seq<Block>)

  ghost predicate Inv(s: State, hi: int) {
    && |s.m| == EXT_SIZE && hi <= EXT_BASE + EXT_SIZE
    && Represents(CellsOf(s.m), s.bs)
    && HeapInv(s.bs, EXT_BASE, hi)
  }

  ghost predicate Initial(s: State, hi: int) {
    && |s.m| == EXT_SIZE && Represents(CellsOf(s.m), s.bs)
    && EXT_BASE + 12 <= hi <= EXT_BASE + EXT_SIZE && hi % 4 == 0
    && s.bs == [Block(EXT_BASE, hi - EXT_BASE, false)]
  }

  ghost predicate LiveBlock(bs: seq<Block>, b: Block) {
    b in bs && b.busy
  }

  predicate PayloadOf(b: Block, a: int) {
    b.addr + HEADER_SIZE <= a < b.addr + b.size
  }

  /** One operation, with extra bytes added on every merge. */
  ghost predicate StepWith(extra: int, op: Op, s: State, s': State) {
    |s.m| == |s'.m| == EXT_SIZE &&
    match op
    case Allocate(size, result) =>
      && AllocateStep(size, s.m, s.bs, s'.m, s'.bs, result)
      && (!Collides(s.bs, size) ==> Represents(CellsOf(s'.m), s'.bs))
    case Free(payload) =>
      && (exists i | 0 <= i < |s.bs| ::
            s.bs[i].busy && s.bs[i].addr + HEADER_SIZE == payload && FreeStep(i, extra, s.m, s.bs, s'.m, s'.bs))
      && Represents(CellsOf(s'.m), s'.bs)
    case StrayFree(payload) =>
      StrayWord(s.m, s.bs, payload - 8) && s' == State(WithoutLowBit(s.m, payload - 8), s.bs)
    case Write(addr, value) =>
      && (exists b :: LiveBlock(s.bs, b) && PayloadOf(b, addr))
      && 0 <= Off(addr) < EXT_SIZE
      && s' == State(s.m[Off(addr) := value], s.bs)
  }

  /** With the merge repaired. */
  ghost predicate Step(op: Op, s: State, s': State) {
    StepWith(0, op, s, s')
  }

  /** The operation is no request whose two headers collide. */
  predicate Sound(op: Op, s: State) {
    op.Allocate? ==> !Collides(s.bs, op.size)
  }

  /** A step on a well-formed heap leaves a well-formed heap if and only if it is sound. */
  lemma StepKeepsInv(op: Op, s: State, s': State, hi: int)
    requires Inv(s, hi) && Step(op, s, s')
    ensures Inv(s', hi) <==> Sound(op, s)
  {
    match op
    case Allocate(size, result) =>
      AllocateKeepsHeap(size, s.m, s.bs, s'.m, s'.bs, result, hi);
    case Free(payload) =>
      var i :| 0 <= i < |s.bs| && s.bs[i].busy && s.bs[i].addr + HEADER_SIZE == payload
               && FreeStep(i, 0, s.m, s.bs, s'.m, s'.bs);
      ReleaseKeepsInv(s.bs, EXT_BASE, hi, i);
    case StrayFree(payload) => StrayCleared(s.m, s.bs, payload - 8);
    case Write(addr, value) =>
      var b :| LiveBlock(s.bs, b) && PayloadOf(b, addr);
      var i :| 0 <= i < |s.bs| && s.bs[i] == b;
      PayloadWriteKeepsHeap(s.m, s.bs, EXT_BASE, hi, i, addr, value);
  }

  ghost predicate Run(ops: seq<Op>, run: seq<State>) {
    |run| == |ops| + 1 && forall i | 0 <= i < |ops| :: Step(ops[i], run[i], run[i + 1])
  }

  /** The first n operations of a run are sound. */
  predicate SoundUpTo(ops: seq<Op>, run: seq<State>, n: nat)
    requires |run| == |ops| + 1 && n <= |ops|
  {
    forall i | 0 <= i < n :: Sound(ops[i], run[i])
  }

  /** Safety over whole runs: as long as no request collides, and only so long, the
      blocks tile the managed range in ascending order and no two free blocks are
      neighbours; the two totals of the status walk then add up to the heap size. */
  lemma {:induction false} RunsKeepHeap(ops: seq<Op>, run: seq<State>, hi: int, n: nat)
    requires Run(ops, run) && Initial(run[0], hi) && n <= |ops|
    ensures (forall i | 0 <= i <= n :: Inv(run[i], hi)) <==> SoundUpTo(ops, run, n)
    ensures SoundUpTo(ops, run, n) ==> TotalOf(run[n].bs, true) + TotalOf(run[n].bs, false) == hi - EXT_BASE
  {
    hide Sound, Step;
    if n == 0 {
      assert run[0].bs[1..] == [];
    } else {
      RunsKeepHeap(ops, run, hi, n - 1);
      assert Step(ops[n - 1], run[n - 1], run[n - 1 + 1]);
      if Inv(run[n - 1], hi) {
        StepKeepsInv(ops[n - 1], run[n - 1], run[n], hi);
      }
    }
    if SoundUpTo(ops, run, n) {
      TotalsCoverRange(run[n].bs, EXT_BASE, hi);
    }
  }

  // ---- live data ------------------------------------------------------------

  /** The operation neither frees block b nor writes address a. */
  predicate Spares(op: Op, b: Block, a: int) {
    match op
    case Allocate(_, _) => true
    case Free(payload) => payload != b.addr + HEADER_SIZE
    case StrayFree(payload) => payload - 8 != a
    case Write(addr, _) => addr != a
  }

  lemma {:induction false} InBusies(bs: seq<Block>, b: Block)
    ensures b in Busies(bs) <==> LiveBlock(bs, b)
  {
    if bs == [] {
    } else {
      InBusies(bs[1..], b);
      assert bs == [bs[0]] + bs[1..];
    }
  }

  lemma TakeKeepsLive(bs: seq<Block>, i: nat, need: int, b: Block)
    requires i < |bs| && !bs[i].busy && LiveBlock(bs, b)
    ensures LiveBlock(TakeBlock(bs, i, need), b)
  {
    var k :| 0 <= k < |bs| && bs[k] == b;
    var r := TakeBlock(bs, i, need);
    if bs[i].size >= need + HEADER_SIZE + 4 {
      assert r[if k < i then k else k + 1] == b;
    } else {
      assert r[k] == b;
    }
  }

  lemma ReleaseKeepsLive(bs: seq<Block>, hi: int, i: nat, b: Block)
    requires HeapInv(bs, EXT_BASE, hi) && i < |bs| && bs[i].busy && LiveBlock(bs, b) && b != bs[i]
    ensures LiveBlock(Release(bs, i, 0), b)
  {
    ReleaseKeepsInv(bs, EXT_BASE, hi, i);
    var k :| 0 <= k < |bs| && bs[k] == b;
    assert b in bs[..i] || b in bs[i + 1..] by {
      if k < i {
        assert bs[..i][k] == b;
      } else {
        assert bs[i + 1..][k - i - 1] == b;
      }
    }
    InBusies(bs[..i], b);
    InBusies(bs[i + 1..], b);
    InBusies(Release(bs, i, 0), b);
  }

  /** The extent of a live block holds no header but its own, and no byte of
      another block. */
  lemma ExtentsDisjoint(bs: seq<Block>, hi: int, b: Block, k: nat)
    requires Tiled(bs, EXT_BASE, hi) && LiveBlock(bs, b) && k < |bs| && bs[k] != b
    ensures bs[k].addr + bs[k].size <= b.addr || b.addr + b.size <= bs[k].addr
    ensures bs[k].size >= HEADER_SIZE && EXT_BASE <= b.addr && b.addr + b.size <= hi && bs[k].addr != b.addr
  {
    var j :| 0 <= j < |bs| && bs[j] == b;
    TiledPairwise(bs, EXT_BASE, hi);
    assert j < k || k < j;
  }

  lemma LiveInside(bs: seq<Block>, hi: int, b: Block)
    requires Tiled(bs, EXT_BASE, hi) && LiveBlock(bs, b)
    ensures EXT_BASE <= b.addr && b.addr + b.size <= hi && b.size >= HEADER_SIZE
    ensures b.addr % 4 == 0 && b.size % 4 == 0
  {
    var j :| 0 <= j < |bs| && bs[j] == b;
    TiledAt(bs, EXT_BASE, hi, j);
  }

  /** One step keeps a live block and every payload byte of it that the step spares. */
  lemma StepKeepsPayload(op: Op, s: State, s': State, hi: int, b: Block, a: int)
    requires Inv(s, hi) && Step(op, s, s') && Sound(op, s)
    requires LiveBlock(s.bs, b) && PayloadOf(b, a) && Spares(op, b, a)
    ensures LiveBlock(s'.bs, b)
    ensures 0 <= Off(a) < EXT_SIZE && s'.m[Off(a)] == s.m[Off(a)]
  {
    LiveInside(s.bs, hi, b);
    match op
    case Allocate(size, result) =>
      var need := RequiredSize(size);
      var i := FirstFit(s.bs, need, 0);
      if i < |s.bs| {
        TakeKeepsLive(s.bs, i, need, b);
        ExtentsDisjoint(s.bs, hi, b, i);
      }
    case Free(payload) =>
      var i :| 0 <= i < |s.bs| && s.bs[i].busy && s.bs[i].addr + HEADER_SIZE == payload
               && FreeStep(i, 0, s.m, s.bs, s'.m, s'.bs);
      ReleaseKeepsLive(s.bs, hi, i, b);
      assert !HeaderByte(s.bs, EXT_BASE + Off(a)) by {
        forall k | 0 <= k < |s.bs|
          ensures !(s.bs[k].addr <= a < s.bs[k].addr + 8)
        {
          if s.bs[k] != b {
            ExtentsDisjoint(s.bs, hi, b, k);
          }
        }
      }
    case StrayFree(payload) => LowBitOnly(s.m, payload - 8);
    case Write(addr, value) =>
  }

  /** Live data survives: from any reachable state on, as long as nobody frees the
      block or writes the byte and no request collides, the block stays and the byte
      keeps its value. */
  lemma {:induction false} LiveDataSurvives(ops: seq<Op>, run: seq<State>, hi: int, start: nat, end: nat,
                                            b: Block, a: int)
    requires Run(ops, run) && Initial(run[0], hi) && start <= end <= |ops| && SoundUpTo(ops, run, end)
    requires LiveBlock(run[start].bs, b) && PayloadOf(b, a)
    requires forall i | start <= i < end :: Spares(ops[i], b, a)
    ensures LiveBlock(run[end].bs, b)
    ensures 0 <= Off(a) < EXT_SIZE && |run[start].m| == |run[end].m| == EXT_SIZE
    ensures run[end].m[Off(a)] == run[start].m[Off(a)]
    decreases end
  {
    RunsKeepHeap(ops, run, hi, end);
    if start == end {
      LiveInside(run[end].bs, hi, b);
    } else {
      LiveDataSurvives(ops, run, hi, start, end - 1, b, a);
      assert Step(ops[end - 1], run[end - 1], run[end - 1 + 1]);
      assert Spares(ops[end - 1], b, a);
      StepKeepsPayload(ops[end - 1], run[end - 1], run[end], hi, b, a);
    }
  }

  /** A caller who writes an odd number at the start of a cell of live block b makes the
      address 8 bytes on one that free accepts; freeing it clears the byte again, although
      no block starts there. */
  lemma OwnDataFreed(fast: seq<u8>, s: State, s': State, managed: u32, b: Block, a: u32, value: u8)
    requires |fast| == FAST_SIZE && managed <= EXT_SIZE && Inv(s, EXT_BASE + managed)
    requires LiveBlock(s.bs, b) && PayloadOf(b, a) && a % 4 == 0 && value % 2 == 1
    requires Step(Write(a, value), s, s')
    ensures a + 8 < 0x1_0000_0000
    ensures FreeGuard(Memory(fast, s'.m), managed, a + 8) == Success(a + 8 < EXT_BASE + managed)
    ensures Step(StrayFree(a + 8), s', State(s'.m[Off(a) := value - 1], s'.bs))
  {
    PayloadIsNoHeader(s.bs, EXT_BASE + managed, b, a);
    hide HeapInv, Represents, Get32, WithoutLowBit;
    Get32Bytes(s'.m, Off(a));
    LowBitOnly(s'.m, a);
  }

  lemma PayloadIsNoHeader(bs: seq<Block>, hi: int, b: Block, a: int)
    requires Tiled(bs, EXT_BASE, hi) && LiveBlock(bs, b) && PayloadOf(b, a) && a % 4 == 0
    ensures EXT_BASE <= a && a + 4 <= hi
    ensures forall k | 0 <= k < |bs| :: a != bs[k].addr && a != bs[k].addr + 4
  {
    LiveInside(bs, hi, b);
    forall k | 0 <= k < |bs|
      ensures a != bs[k].addr && a != bs[k].addr + 4
    {
      if bs[k] != b {
        ExtentsDisjoint(bs, hi, b, k);
      }
    }
  }

  // ---- what an answer of allocate means -------------------------------------

  /** Block b is free and has the size that lines 27-28 ask for. */
  predicate Holds(b: Block, size: u32) {
    !b.busy && b.size >= RequiredSize(size)
  }

  /** f is the lowest block that holds the request. */
  ghost predicate Lowest(bs: seq<Block>, size: u32, f: Block) {
    f in bs && Holds(f, size) && forall g | g in bs && Holds(g, size) :: f.addr <= g.addr
  }

  /** t is a live block cut from f and disjoint from every block that was live in bs; its
      payload has the size asked for, unless that wrapped. */
  ghost predicate HandedOut(bs: seq<Block>, bs': seq<Block>, size: u32, f: Block, t: Block) {
    && LiveBlock(bs', t)
    && t.addr == f.addr && t.addr + t.size <= f.addr + f.size
    && (size <= t.size - HEADER_SIZE <==> size <= 0xFFFF_FFF4)
    && (forall b | LiveBlock(bs, b) :: b.addr + b.size <= t.addr || t.addr + t.size <= b.addr)
  }

  /** First fit is sound and complete: the answer is 0 exactly when no free block holds
      the request; otherwise it is the payload of the lowest that does, and what is
      handed out there is disjoint from all live blocks, unless the headers collide. */
  lemma FirstFitExact(size: u32, result: u32, s: State, s': State, hi: int)
    requires Inv(s, hi) && Step(Allocate(size, result), s, s')
    ensures result == 0 <==> forall b | b in s.bs :: !Holds(b, size)
    ensures result != 0 ==> exists f ::
              && Lowest(s.bs, size, f) && result == f.addr + HEADER_SIZE
              && (Sound(Allocate(size, result), s) ==> exists t :: HandedOut(s.bs, s'.bs, size, f, t))
  {
    var i := FirstFit(s.bs, RequiredSize(size), 0);
    if i < |s.bs| {
      TiledAt(s.bs, EXT_BASE, hi, i);
      LowestFit(s.bs, hi, i, size);
      if !Collides(s.bs, size) {
        Disjoint(s.bs, hi, i, size);
      }
    } else {
      NoFit(s.bs, size);
    }
  }

  lemma LowestFit(bs: seq<Block>, hi: int, i: nat, size: u32)
    requires Tiled(bs, EXT_BASE, hi) && i < |bs| && i == FirstFit(bs, RequiredSize(size), 0)
    ensures Lowest(bs, size, bs[i])
  {
    TiledPairwise(bs, EXT_BASE, hi);
    forall g | g in bs && Holds(g, size)
      ensures bs[i].addr <= g.addr
    {
      var j :| 0 <= j < |bs| && bs[j] == g;
      assert Fits(bs[j], RequiredSize(size));
    }
  }

  lemma Disjoint(bs: seq<Block>, hi: int, i: nat, size: u32)
    requires HeapInv(bs, EXT_BASE, hi) && hi <= EXT_BASE + EXT_SIZE
    requires i < |bs| && i == FirstFit(bs, RequiredSize(size), 0) && !Collides(bs, size)
    ensures var bs' := TakeBlock(bs, i, RequiredSize(size));
            i < |bs'| && HandedOut(bs, bs', size, bs[i], bs'[i])
  {
    hide HeapInv, RequiredSize;
    InvTiled(bs, EXT_BASE, hi);
    var need := TakesWithRoom(bs, EXT_BASE, hi, size);
    RequiredSizeExact(size);
    Round4Bounds(size);
    TiledAt(bs, EXT_BASE, hi, i);
    TakeKeepsInv(bs, EXT_BASE, hi, i, need);
    forall b | LiveBlock(bs, b)
      ensures b.addr + b.size <= bs[i].addr || bs[i].addr + bs[i].size <= b.addr
    {
      ExtentsDisjoint(bs, hi, b, i);
    }
  }

  lemma NoFit(bs: seq<Block>, size: u32)
    requires FirstFit(bs, RequiredSize(size), 0) == |bs|
    ensures forall b | b in bs :: !Holds(b, size)
  {
    forall b | b in bs
      ensures !Holds(b, size)
    {
      var j :| 0 <= j < |bs| && bs[j] == b;
      assert !Fits(bs[j], RequiredSize(size));
    }
  }

  /** Allocate then free is the identity on the block list of any heap. */
  lemma AllocateThenFree(size: u32, result: u32, s: State, s1: State, s2: State, hi: int)
    requires Inv(s, hi) && result != 0 && Sound(Allocate(size, result), s)
    requires Step(Allocate(size, result), s, s1) && Step(Free(result), s1, s2)
    ensures s2.bs == s.bs
  {
    hide TakeBlock, Release, HeapInv;
    InvTiled(s.bs, EXT_BASE, hi);
    var i := FirstFit(s.bs, RequiredSize(size), 0);
    var need := TakesWithRoom(s.bs, EXT_BASE, hi, size);
    var j := FreedIndex(0, result, s1, s2);
    TakenIndex(s.bs, hi, i, need, j);
    TakeThenRelease(s.bs, EXT_BASE, hi, i, need);
  }

  lemma FreedIndex(extra: int, payload: int, s: State, s': State) returns (j: nat)
    requires StepWith(extra, Free(payload), s, s')
    ensures j < |s.bs| && s.bs[j].addr + HEADER_SIZE == payload && s'.bs == Release(s.bs, j, extra)
  {
    j :| 0 <= j < |s.bs| && s.bs[j].busy && s.bs[j].addr + HEADER_SIZE == payload
         && FreeStep(j, extra, s.m, s.bs, s'.m, s'.bs);
  }

  lemma TakenIndex(bs: seq<Block>, hi: int, i: nat, need: int, j: nat)
    requires HeapInv(bs, EXT_BASE, hi) && i < |bs| && Fits(bs[i], need) && need >= HEADER_SIZE && need % 4 == 0
    requires j < |TakeBlock(bs, i, need)| && TakeBlock(bs, i, need)[j].addr == bs[i].addr
    ensures i == j
  {
    TakeKeepsInv(bs, EXT_BASE, hi, i, need);
    SameAddrSameIndex(TakeBlock(bs, i, need), hi, i, j);
  }

  lemma SameAddrSameIndex(bs: seq<Block>, hi: int, i: nat, j: nat)
    requires Tiled(bs, EXT_BASE, hi) && i < |bs| && j < |bs| && bs[i].addr == bs[j].addr
    ensures i == j
  {
    TiledPairwise(bs, EXT_BASE, hi);
  }

  // ---- the merge as written -------------------------------------------------

  /** The operation is sound and frees no block that has a free neighbour. */
  ghost predicate Quiet(op: Op, s: State) {
    && Sound(op, s)
    && (op.Free? ==> forall i | 0 <= i < |s.bs| ::
          s.bs[i].addr + HEADER_SIZE == op.payload ==> !FreeNeighbour(s.bs, i))
  }

  /** With the merge as written one step on a well-formed heap leaves a well-formed heap
      if and only if it is quiet, and then it is the repaired step. */
  lemma StepAsWritten(op: Op, s: State, s': State, hi: int)
    requires Inv(s, hi) && StepWith(8, op, s, s')
    ensures Inv(s', hi) <==> Quiet(op, s)
    ensures Quiet(op, s) ==> Step(op, s, s')
  {
    if op.Free? {
      var i :| 0 <= i < |s.bs| && s.bs[i].busy && s.bs[i].addr + HEADER_SIZE == op.payload
               && FreeStep(i, 8, s.m, s.bs, s'.m, s'.bs);
      ReleaseAsWritten(s.bs, EXT_BASE, hi, i);
      OnlyThisIndex(s.bs, hi, i);
    }
    if Step(op, s, s') {
      StepKeepsInv(op, s, s', hi);
    }
  }

  lemma OnlyThisIndex(bs: seq<Block>, hi: int, i: nat)
    requires Tiled(bs, EXT_BASE, hi) && i < |bs|
    ensures forall j | 0 <= j < |bs| :: bs[j].addr == bs[i].addr ==> j == i
  {
    TiledPairwise(bs, EXT_BASE, hi);
  }

  ghost predicate RunAsWritten(ops: seq<Op>, run: seq<State>) {
    |run| == |ops| + 1 && forall i | 0 <= i < |ops| :: StepWith(8, ops[i], run[i], run[i + 1])
  }

  /** A run of the source as it stands keeps the heap well-formed up to any point if and
      only if no free before it found a free neighbour and no request collided; and then it is a run with the
      merge repaired, so everything above holds of it. */
  lemma {:induction false} RunsAsWritten(ops: seq<Op>, run: seq<State>, hi: int, n: nat)
    requires RunAsWritten(ops, run) && Initial(run[0], hi) && n <= |ops|
    ensures (forall i | 0 <= i <= n :: Inv(run[i], hi)) <==> (forall i | 0 <= i < n :: Quiet(ops[i], run[i]))
    ensures (forall i | 0 <= i < n :: Quiet(ops[i], run[i])) ==>
              Run(ops[..n], run[..n + 1]) && SoundUpTo(ops[..n], run[..n + 1], n)
    decreases n
  {
    hide Inv, StepWith, Sound, FreeNeighbour;
    if n == 0 {
      RunsKeepHeap([], run[..1], hi, 0);
    } else {
      RunsAsWritten(ops, run, hi, n - 1);
      assert StepWith(8, ops[n - 1], run[n - 1], run[n - 1 + 1]);
      if Inv(run[n - 1], hi) {
        StepAsWritten(ops[n - 1], run[n - 1], run[n], hi);
      }
      if forall i | 0 <= i < n :: Quiet(ops[i], run[i]) {
        assert Quiet(ops[n - 1], run[n - 1]);
        forall i | 0 <= i < n
          ensures Step(ops[..n][i], run[..n + 1][i], run[..n + 1][i + 1]) && Sound(ops[..n][i], run[..n + 1][i])
        {
          assert Quiet(ops[i], run[i]);
          if i < n - 1 {
            assert Step(ops[..n - 1][i], run[..n][i], run[..n][i + 1]);
          }
        }
      }
    }
  }

  /** As written, free after allocate restores the block list if and only if the block
      was handed out whole. */
  lemma AllocateThenFreeAsWritten(size: u32, result: u32, s: State, s1: State, s2: State, hi: int)
    requires Inv(s, hi) && result != 0 && Sound(Allocate(size, result), s)
    requires Step(Allocate(size, result), s, s1) && StepWith(8, Free(result), s1, s2)
    ensures var need := RequiredSize(size);
            var i := FirstFit(s.bs, need, 0);
            i < |s.bs| && (s2.bs == s.bs <==> s.bs[i].size < need + HEADER_SIZE + 4)
  {
    hide TakeBlock, Release, HeapInv;
    InvTiled(s.bs, EXT_BASE, hi);
    var i := FirstFit(s.bs, RequiredSize(size), 0);
    var need := TakesWithRoom(s.bs, EXT_BASE, hi, size);
    var j := FreedIndex(8, result, s1, s2);
    TakenIndex(s.bs, hi, i, need, j);
    TakeThenReleaseAsWritten(s.bs, EXT_BASE, hi, i, need);
  }
}
