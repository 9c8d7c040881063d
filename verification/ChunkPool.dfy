/** forth_chunk_pool.c: twenty chunks of the fast RAM, the free ones linked through
    their own first words. */
module ChunkPool {
  import opened Words
  import opened Bus

  const CHUNK_COUNT: int := 20
  const CHUNK_SIZE: int := 32
  const CHUNK_POOL_BASE: int := FAST_BASE + 0x0C00
  const CHUNK_POOL_SIZE: int := CHUNK_COUNT * CHUNK_SIZE

  predicate IsChunk(a: int) {
    CHUNK_POOL_BASE <= a < CHUNK_POOL_BASE + CHUNK_POOL_SIZE && (a - CHUNK_POOL_BASE) % CHUNK_SIZE == 0
  }

  /** The chunk that a byte of the pool belongs to. */
  predicate InChunk(c: int, a: int) {
    IsChunk(c) && c <= a < c + CHUNK_SIZE
  }

  function ChunkAddr(i: int): int {
    CHUNK_POOL_BASE + CHUNK_SIZE * i
  }

  /** The static variables and the memory. */
  datatype Pool = Pool(fast: seq<u8>, head: u32, count: nat)

  /** The word at a chunk's start. */
  function LinkOf(fast: seq<u8>, a: u32): u32
    requires |fast| == FAST_SIZE && IsChunk(a)
  {
    Get32(fast, a - FAST_BASE)
  }

  /** The list that starts at head in memory is free, and ends with 0. */
  ghost predicate Links(fast: seq<u8>, head: u32, free: seq<u32>)
    requires |fast| == FAST_SIZE
    decreases |free|
  {
    if free == [] then head == 0
    else head == free[0] && IsChunk(head) && Links(fast, LinkOf(fast, head), free[1..])
  }

  predicate NoDuplicates(s: seq<u32>) {
    s == [] || (s[0] !in s[1..] && NoDuplicates(s[1..]))
  }

  /** What the pool keeps: an acyclic list of chunk starts, exactly the chunks that are
      not live, and a counter that is the number of live ones. */
  ghost predicate Inv(p: Pool, free: seq<u32>, live: set<u32>) {
    && |p.fast| == FAST_SIZE
    && Links(p.fast, p.head, free) && NoDuplicates(free)
    && (forall a: u32 :: a in free <==> IsChunk(a) && a !in live)
    && (forall a :: a in live ==> IsChunk(a))
    && p.count == |live| && |free| + p.count == CHUNK_COUNT
  }

  /** Writes outside the first words of free chunks do not touch the list. */
  lemma {:induction false} LinksFrame(fast: seq<u8>, fast': seq<u8>, head: u32, free: seq<u32>)
    requires |fast| == |fast'| == FAST_SIZE && Links(fast, head, free)
    requires forall a: u32 | a in free && IsChunk(a) :: LinkOf(fast', a) == LinkOf(fast, a)
    ensures Links(fast', head, free)
    decreases |free|
  {
    if free == [] {
    } else {
      assert head in free;
      LinksFrame(fast, fast', LinkOf(fast, head), free[1..]);
    }
  }

  /** Bytes of one chunk may change without changing the link of another. */
  lemma LinkElsewhere(fast: seq<u8>, fast': seq<u8>, c: int, a: u32)
    requires |fast| == |fast'| == FAST_SIZE && IsChunk(c) && IsChunk(a) && a != c
    requires forall i | 0 <= i < FAST_SIZE && !InChunk(c, FAST_BASE + i) :: fast'[i] == fast[i]
    ensures LinkOf(fast', a) == LinkOf(fast, a)
  {
    var o := a - FAST_BASE;
    forall i | o <= i < o + 4
      ensures fast'[i] == fast[i]
    {
      assert !InChunk(c, FAST_BASE + i);
    }
    assert fast'[o..o + 4] == fast[o..o + 4];
  }

  lemma LinksFrameChunk(fast: seq<u8>, fast': seq<u8>, head: u32, free: seq<u32>, c: int)
    requires |fast| == |fast'| == FAST_SIZE && Links(fast, head, free) && IsChunk(c) && c !in free
    requires forall i | 0 <= i < FAST_SIZE && !InChunk(c, FAST_BASE + i) :: fast'[i] == fast[i]
    ensures Links(fast', head, free)
  {
    forall a: u32 | a in free && IsChunk(a)
      ensures LinkOf(fast', a) == LinkOf(fast, a)
    {
      LinkElsewhere(fast, fast', c, a);
    }
    LinksFrame(fast, fast', head, free);
  }

  // ---- the three operations on values ---------------------------------------

  /** Bytes o..o+n cleared. */
  function Cleared(m: seq<u8>, o: int, n: nat): (r: seq<u8>)
    requires 0 <= o && o + n <= |m|
    ensures |r| == |m|
    ensures forall i | 0 <= i < |m| :: r[i] == if o <= i < o + n then 0 else m[i]
  {
    m[..o] + seq(n, _ => 0) + m[o + n..]
  }

  /** forth_cmd_alloc_chunk; the second result is the address pushed, 0 for none. */
  function Alloc(p: Pool): (r: (Pool, u32))
    requires |p.fast| == FAST_SIZE && (p.head == 0 || IsChunk(p.head))
  {
    if p.head == 0 then (p, 0)
    else (Pool(Cleared(p.fast, p.head - FAST_BASE, CHUNK_SIZE), LinkOf(p.fast, p.head), p.count + 1), p.head)
  }

  /** forth_cmd_free_chunk on the address popped. */
  function Release(p: Pool, a: u32): Pool
    requires |p.fast| == FAST_SIZE
  {
    if a < CHUNK_POOL_BASE || a >= CHUNK_POOL_BASE + CHUNK_POOL_SIZE then p
    else Pool(Put32(p.fast, a - FAST_BASE, p.head), a, if p.count > 0 then p.count - 1 else 0)
  }

  /** Whether the bus lets the word through. */
  function FreeFault(a: u32): Result<()> {
    if CHUNK_POOL_BASE <= a < CHUNK_POOL_BASE + CHUNK_POOL_SIZE && a % 4 != 0 then Failure(Unaligned(a))
    else Success(())
  }

  /** Allocation takes the head of the list, clears the chunk, and gives nothing when
      every chunk is live. */
  lemma AllocKeepsInv(p: Pool, free: seq<u32>, live: set<u32>)
    requires Inv(p, free, live)
    ensures p.head == 0 || IsChunk(p.head)
    ensures var (p', a) := Alloc(p);
            if free == [] then a == 0 && p' == p && p.count == CHUNK_COUNT
            else a == free[0] && a !in live && Inv(p', free[1..], live + {a})
  {
    if free != [] {
      var (p', a) := Alloc(p);
      var rest := free[1..];
      assert a in free && a !in rest;
      LinksFrameChunk(p.fast, p'.fast, p'.head, rest, a);
      forall b: u32
        ensures b in rest <==> IsChunk(b) && b !in live + {a}
      {
        assert b in free <==> b == a || b in rest;
      }
    }
  }

  /** Freeing a live chunk puts it at the head. */
  lemma ReleaseKeepsInv(p: Pool, free: seq<u32>, live: set<u32>, a: u32)
    requires Inv(p, free, live) && a in live
    ensures Inv(Release(p, a), [a] + free, live - {a})
  {
    var p' := Release(p, a);
    var o := a - FAST_BASE;
    GetPut32(p.fast, o, p.head);
    forall i | 0 <= i < FAST_SIZE && !InChunk(a, FAST_BASE + i)
      ensures p'.fast[i] == p.fast[i]
    {
      assert i < o || o + 4 <= i;
    }
    LinksFrameChunk(p.fast, p'.fast, p.head, free, a);
    assert ([a] + free)[1..] == free;
  }

  predicate OutsidePool(a: u32) {
    a < CHUNK_POOL_BASE || a >= CHUNK_POOL_BASE + CHUNK_POOL_SIZE
  }

  /** Some list and some live set make the pool well-formed. */
  ghost predicate Kept(p: Pool) {
    exists free, live :: Inv(p, free, live)
  }

  /** A list that leads to a and survives a write of the link of a still leads to a. */
  lemma {:induction false} StillPasses(fast: seq<u8>, fast': seq<u8>, head: u32, free: seq<u32>, free': seq<u32>,
                                       a: u32)
    requires |fast| == |fast'| == FAST_SIZE && a in free
    requires Links(fast, head, free) && Links(fast', head, free')
    requires forall b: u32 | IsChunk(b) && b != a :: LinkOf(fast', b) == LinkOf(fast, b)
    ensures a in free'
    decreases |free|
  {
    if head == a {
    } else {
      StillPasses(fast, fast', LinkOf(fast, head), free[1..], free'[1..], a);
    }
  }

  /** A free that the bus lets through keeps the pool if and only if the address is
      live or lies outside the pool: a second free of a chunk makes the list a circle, and
      an address inside a chunk is no chunk. */
  lemma ReleaseKeepsExactly(p: Pool, free: seq<u32>, live: set<u32>, a: u32)
    requires Inv(p, free, live) && FreeFault(a).Success?
    ensures Kept(Release(p, a)) <==> a in live || OutsidePool(a)
  {
    var p' := Release(p, a);
    if a in live {
      ReleaseKeepsInv(p, free, live, a);
    } else if !OutsidePool(a) {
      forall free', live'
        ensures !Inv(p', free', live')
      {
        if Inv(p', free', live') {
          hide Get32, Put32;
          GetPut32(p.fast, a - FAST_BASE, p.head);
          assert a in free;
          forall b: u32 | IsChunk(b) && b != a
            ensures LinkOf(p'.fast, b) == LinkOf(p.fast, b)
          {
            assert b + 4 <= a || a + 4 <= b;
          }
          StillPasses(p.fast, p'.fast, p.head, free, free'[1..], a);
        }
      }
    }
  }

  /** A caller's write inside a live chunk. */
  lemma WriteKeepsInv(p: Pool, free: seq<u32>, live: set<u32>, c: u32, i: int, v: u8)
    requires Inv(p, free, live) && c in live && 0 <= i < FAST_SIZE && InChunk(c, FAST_BASE + i)
    ensures Inv(p.(fast := p.fast[i := v]), free, live)
  {
    LinksFrameChunk(p.fast, p.fast[i := v], p.head, free, c);
  }

  /** Last in, first out: what was just freed is allocated next, the list is as it was
      and the chunk is clear. */
  lemma ReleaseThenAlloc(p: Pool, free: seq<u32>, live: set<u32>, a: u32)
    requires Inv(p, free, live) && a in live
    ensures var (p', b) := Alloc(Release(p, a));
            && b == a && p'.head == p.head && p'.count == p.count && Inv(p', free, live)
            && forall i | 0 <= i < FAST_SIZE :: p'.fast[i] == if InChunk(a, FAST_BASE + i) then 0 else p.fast[i]
  {
    hide Links, NoDuplicates, Get32;
    ReleaseKeepsInv(p, free, live, a);
    AllocKeepsInv(Release(p, a), [a] + free, live - {a});
    assert ([a] + free)[1..] == free && live - {a} + {a} == live;
    GetPut32(p.fast, a - FAST_BASE, p.head);
  }

  // ---- every run ------------------------------------------------------------

  datatype Op = AllocOp | FreeOp(addr: u32) | WriteOp(offset: int, value: u8)

  datatype State = State(pool: Pool, live: set<u32>)

  /** Frees that the bus lets through, and writes inside live chunks. */
  ghost predicate Allowed(op: Op, s: State) {
    match op
    case AllocOp => true
    case FreeOp(a) => FreeFault(a).Success?
    case WriteOp(i, _) => 0 <= i < FAST_SIZE && exists c :: c in s.live && InChunk(c, FAST_BASE + i)
  }

  function Apply(op: Op, s: State): State
    requires |s.pool.fast| == FAST_SIZE && (s.pool.head == 0 || IsChunk(s.pool.head))
    requires op.WriteOp? ==> 0 <= op.offset < FAST_SIZE
  {
    match op
    case AllocOp =>
      var (p', a) := Alloc(s.pool);
      State(p', if a == 0 then s.live else s.live + {a})
    case FreeOp(a) => State(Release(s.pool, a), s.live - {a})
    case WriteOp(i, v) => State(s.pool.(fast := s.pool.fast[i := v]), s.live)
  }

  ghost predicate Takes(op: Op, s: State, s': State) {
    && |s.pool.fast| == FAST_SIZE && (s.pool.head == 0 || IsChunk(s.pool.head))
    && Allowed(op, s) && s' == Apply(op, s)
  }

  /** Every free is of a live chunk or of an address outside the pool. */
  predicate Sane(op: Op, s: State) {
    op.FreeOp? ==> op.addr in s.live || OutsidePool(op.addr)
  }

  /** The list in memory is acyclic, without duplicates and the complement of the live
      set, and its length and the counter sum to 20. */
  ghost predicate WellFormed(s: State) {
    exists free :: Inv(s.pool, free, s.live)
  }

  lemma StepKeepsInv(op: Op, s: State, s': State)
    requires WellFormed(s) && Takes(op, s, s')
    ensures WellFormed(s') <==> Sane(op, s)
  {
    hide Links, NoDuplicates, IsChunk;
    var free :| Inv(s.pool, free, s.live);
    match op
    case AllocOp =>
      AllocKeepsInv(s.pool, free, s.live);
    case FreeOp(a) =>
      ReleaseKeepsExactly(s.pool, free, s.live, a);
      if a in s.live {
        ReleaseKeepsInv(s.pool, free, s.live, a);
      } else {
        assert s'.live == s.live;
        assert WellFormed(s') ==> Kept(s'.pool);
      }
    case WriteOp(i, v) =>
      var c :| c in s.live && InChunk(c, FAST_BASE + i);
      WriteKeepsInv(s.pool, free, s.live, c, i, v);
  }

  /** The state after chunk_pool_init: every chunk free, in ascending order. */
  ghost predicate Fresh(s: State) {
    && |s.pool.fast| == FAST_SIZE && s.pool.head == CHUNK_POOL_BASE && s.pool.count == 0 && s.live == {}
    && forall i | 0 <= i < CHUNK_COUNT ::
         Get32(s.pool.fast, ChunkAddr(i) - FAST_BASE) == if i == CHUNK_COUNT - 1 then 0 else ChunkAddr(i + 1)
  }

  function ListFrom(i: nat): (r: seq<u32>)
    requires i <= CHUNK_COUNT
    ensures |r| == CHUNK_COUNT - i
    decreases CHUNK_COUNT - i
  {
    if i == CHUNK_COUNT then [] else [ChunkAddr(i)] + ListFrom(i + 1)
  }

  lemma ChunkAddrs(i: nat, a: u32)
    requires i < CHUNK_COUNT
    ensures IsChunk(ChunkAddr(i))
    ensures IsChunk(a) && ChunkAddr(i) <= a ==> a == ChunkAddr(i) || ChunkAddr(i + 1) <= a
  {
  }

  lemma {:induction false} ListFromElements(i: nat)
    requires i <= CHUNK_COUNT
    ensures forall a: u32 :: a in ListFrom(i) <==> IsChunk(a) && ChunkAddr(i) <= a
    ensures NoDuplicates(ListFrom(i))
    decreases CHUNK_COUNT - i
  {
    if i == CHUNK_COUNT {
    } else {
      hide IsChunk;
      ListFromElements(i + 1);
      var tail := ListFrom(i + 1);
      assert ListFrom(i)[1..] == tail;
      forall a: u32
        ensures a in ListFrom(i) <==> IsChunk(a) && ChunkAddr(i) <= a
      {
        ChunkAddrs(i, a);
        assert a in ListFrom(i) <==> a == ChunkAddr(i) || a in tail;
      }
    }
  }

  lemma {:induction false} ListFromLinks(fast: seq<u8>, i: nat)
    requires |fast| == FAST_SIZE && i <= CHUNK_COUNT
    requires forall j | 0 <= j < CHUNK_COUNT ::
               Get32(fast, ChunkAddr(j) - FAST_BASE) == if j == CHUNK_COUNT - 1 then 0 else ChunkAddr(j + 1)
    ensures Links(fast, if i == CHUNK_COUNT then 0 else ChunkAddr(i), ListFrom(i))
    decreases CHUNK_COUNT - i
  {
    if i == CHUNK_COUNT {
    } else {
      hide IsChunk;
      ListFromLinks(fast, i + 1);
      ChunkAddrs(i, 0);
      assert ListFrom(i)[1..] == ListFrom(i + 1);
    }
  }

  lemma FreshKeepsInv(s: State)
    requires Fresh(s)
    ensures Inv(s.pool, ListFrom(0), s.live)
  {
    ListFromElements(0);
    ListFromLinks(s.pool.fast, 0);
  }

  lemma FreshIsWellFormed(s: State)
    requires Fresh(s)
    ensures WellFormed(s)
  {
    hide Inv, Fresh, ListFrom;
    FreshKeepsInv(s);
  }

  ghost predicate Run(ops: seq<Op>, states: seq<State>) {
    && |states| == |ops| + 1 && Fresh(states[0])
    && forall i | 0 <= i < |ops| :: Takes(ops[i], states[i], states[i + 1])
  }

  /** A run of allocations, frees and writes inside live chunks keeps the pool if and only
      if every free in it is sane. */
  lemma {:induction false} PoolConserved(ops: seq<Op>, states: seq<State>, n: nat)
    requires Run(ops, states) && n <= |ops|
    ensures (forall i | 0 <= i <= n :: WellFormed(states[i])) <==> (forall i | 0 <= i < n :: Sane(ops[i], states[i]))
  {
    hide WellFormed, Takes, Fresh, Sane;
    if n == 0 {
      FreshIsWellFormed(states[0]);
    } else {
      PoolConserved(ops, states, n - 1);
      assert Takes(ops[n - 1], states[n - 1], states[n - 1 + 1]);
      if WellFormed(states[n - 1]) {
        StepKeepsInv(ops[n - 1], states[n - 1], states[n]);
      }
    }
  }

  // ---- the driver -----------------------------------------------------------

  class Chunks {
    const bus: Bus
    var freeListHead: u32
    var allocatedCount: nat

    ghost function Contents(): Pool
      requires bus.Valid()
      reads this, bus.fast
    {
      Pool(bus.fast[..], freeListHead, allocatedCount)
    }

    /** chunk_pool_init. */
    constructor (b: Bus)
      requires b.Valid()
      modifies b.fast, b.ext
      ensures bus == b && b.Valid() && b.ext[..] == old(b.ext[..])
      ensures Fresh(State(Contents(), {}))
    {
      bus := b;
      freeListHead := CHUNK_POOL_BASE;
      allocatedCount := 0;
      new;
      var i := 0;
      while i < CHUNK_COUNT - 1
        invariant 0 <= i <= CHUNK_COUNT - 1
        invariant b.ext[..] == old(b.ext[..]) && freeListHead == CHUNK_POOL_BASE && allocatedCount == 0
        invariant forall j | 0 <= j < i :: Get32(b.fast[..], ChunkAddr(j) - FAST_BASE) == ChunkAddr(j + 1)
      {
        var currentChunkAddr := CHUNK_POOL_BASE + i * CHUNK_SIZE;
        var nextChunkAddr := currentChunkAddr + CHUNK_SIZE;
        WriteLink(b, currentChunkAddr, nextChunkAddr);
        i := i + 1;
      }
      var lastChunkAddr := CHUNK_POOL_BASE + (CHUNK_COUNT - 1) * CHUNK_SIZE;
      WriteLink(b, lastChunkAddr, 0);
    }

    static method WriteLink(b: Bus, addr: u32, link: u32)
      requires b.Valid() && IsChunk(addr)
      modifies b.fast, b.ext
      ensures b.ext[..] == old(b.ext[..])
      ensures b.fast[..] == Put32(old(b.fast[..]), addr - FAST_BASE, link)
      ensures LinkOf(b.fast[..], addr) == link
      ensures forall j | 0 <= j < CHUNK_COUNT && ChunkAddr(j) != addr ::
                Get32(b.fast[..], ChunkAddr(j) - FAST_BASE) == Get32(old(b.fast[..]), ChunkAddr(j) - FAST_BASE)
    {
      ghost var fast := b.fast[..];
      var w := b.Write32(addr, link);
      assert w.Success?;
      GetPut32(fast, addr - FAST_BASE, link);
      forall j | 0 <= j < CHUNK_COUNT && ChunkAddr(j) != addr
        ensures Get32(b.fast[..], ChunkAddr(j) - FAST_BASE) == Get32(fast, ChunkAddr(j) - FAST_BASE)
      {
        assert ChunkAddr(j) + 4 <= addr || addr + 4 <= ChunkAddr(j);
      }
    }

    /** forth_cmd_alloc_chunk; the answer is the address it pushes, 0 for none. The head
        need not be a chunk: after a free inside one, or of a chunk written by its former
        owner, the bus may refuse the link or a word to clear. */
    method AllocChunk() returns (r: Result<u32>)
      requires bus.Valid()
      modifies this, bus.fast, bus.ext
      ensures bus.Valid()
      ensures match AllocFrom(old(bus.Contents()), old(freeListHead))
              case Failure(f) => r == Failure(f)
              case Success((m, link)) =>
                && r == Success(old(freeListHead)) && bus.Contents() == m && freeListHead == link
                && allocatedCount == old(allocatedCount) + if old(freeListHead) == 0 then 0 else 1
      ensures old(freeListHead == 0 || IsChunk(freeListHead)) ==>
                && r.Success? && (Contents(), r.value) == Alloc(old(Contents())) && bus.ext[..] == old(bus.ext[..])
    {
      hide Get32, ClearWords, Cleared;
      ghost var m := bus.Contents();
      if freeListHead == 0 {
        return Success(0);
      }
      var addr := freeListHead;
      AllocFromChunk(m, addr);
      var link := bus.Read32(addr);
      if link.Failure? {
        return link;
      }
      freeListHead := link.value;
      allocatedCount := allocatedCount + 1;
      var cleared := ClearChunk(addr);
      return if cleared.Failure? then Failure(cleared.fault) else Success(addr);
    }

    /** One cleared word, as the bus function says it. */
    method ClearWord(addr: u32) returns (r: Result<()>)
      requires bus.Valid()
      modifies bus.fast, bus.ext
      ensures match Store32(old(bus.Contents()), addr, 0)
              case Success(m) => r.Success? && bus.Contents() == m
              case Failure(f) => r == Failure(f)
    {
      r := bus.Write32(addr, 0);
    }

    method ClearChunk(addr: u32) returns (r: Result<()>)
      requires bus.Valid()
      modifies bus.fast, bus.ext
      ensures match ClearWords(old(bus.Contents()), addr, CHUNK_SIZE / 4)
              case Success(m) => r.Success? && bus.Contents() == m
              case Failure(f) => r == Failure(f)
    {
      hide Store32;
      var i := 0;
      while i < CHUNK_SIZE
        invariant 0 <= i <= CHUNK_SIZE && i % 4 == 0
        invariant ClearWords(old(bus.Contents()), addr, i / 4) == Success(bus.Contents())
      {
        r := ClearWord(Wrap(addr + i));
        if r.Failure? {
          ClearFaultPersists(old(bus.Contents()), addr, i / 4 + 1, CHUNK_SIZE / 4);
          return;
        }
        i := i + 4;
      }
      return Success(());
    }

    /** forth_cmd_free_chunk on the address it pops. An address inside a chunk that is a
        multiple of 4 is linked in like a chunk, any other ends the process. */
    method FreeChunk(addr: u32) returns (r: Result<()>)
      requires bus.Valid()
      modifies this, bus.fast, bus.ext
      ensures bus.Valid() && bus.ext[..] == old(bus.ext[..])
      ensures r == FreeFault(addr)
      ensures Contents() == if r.Success? then Release(old(Contents()), addr) else old(Contents())
    {
      if addr < CHUNK_POOL_BASE || addr >= CHUNK_POOL_BASE + CHUNK_COUNT * CHUNK_SIZE {
        return Success(());
      }
      r := bus.Write32(addr, freeListHead);
      if r.Failure? {
        return;
      }
      freeListHead := addr;
      if allocatedCount > 0 {
        allocatedCount := allocatedCount - 1;
      }
      return Success(());
    }

    /** The exporter's walk: whether a chunk is in the list. */
    method IsFree(chunkAddr: u32, ghost free: seq<u32>, ghost live: set<u32>) returns (isFree: bool)
      requires bus.Valid() && Inv(Contents(), free, live) && IsChunk(chunkAddr)
      ensures isFree <==> chunkAddr !in live
    {
      ghost var rest := free;
      var curr := freeListHead;
      while curr != 0
        invariant Links(bus.fast[..], curr, rest)
        invariant chunkAddr in free <==> chunkAddr in rest
        decreases |rest|
      {
        if curr == chunkAddr {
          return true;
        }
        curr := ReadLink(curr);
        assert chunkAddr in rest <==> chunkAddr == rest[0] || chunkAddr in rest[1..];
        rest := rest[1..];
      }
      isFree := false;
    }

    method ReadLink(addr: u32) returns (link: u32)
      requires bus.Valid() && IsChunk(addr)
      ensures link == LinkOf(bus.fast[..], addr)
    {
      var r := bus.Read32(addr);
      assert r.Success?;
      link := r.value;
    }
  }

  /** n words cleared over the bus, from address a on; stops at the first fault. */
  function ClearWords(m: Memory, a: u32, n: nat): (r: Result<Memory>)
    requires m.Valid()
    ensures r.Success? ==> r.value.Valid()
  {
    if n == 0 then Success(m)
    else
      var m1 :- ClearWords(m, a, n - 1);
      Store32(m1, Wrap(a + 4 * (n - 1)), 0)
  }

  /** Memory and head after an allocation from any head at all. */
  function AllocFrom(m: Memory, head: u32): Result<(Memory, u32)>
    requires m.Valid()
  {
    if head == 0 then Success((m, 0))
    else
      var link :- Load32(m, head);
      var m' :- ClearWords(m, head, CHUNK_SIZE / 4);
      Success((m', link))
  }

  lemma {:induction false} ClearFaultPersists(m: Memory, a: u32, n: nat, k: nat)
    requires m.Valid() && n <= k && ClearWords(m, a, n).Failure?
    ensures ClearWords(m, a, k) == ClearWords(m, a, n)
    decreases k
  {
    if n == k {
    } else {
      ClearFaultPersists(m, a, n, k - 1);
    }
  }

  lemma {:induction false} ClearWordsInside(m: Memory, a: u32, n: nat)
    requires m.Valid() && a % 4 == 0 && FAST_BASE <= a && a + 4 * n <= FAST_BASE + FAST_SIZE
    ensures ClearWords(m, a, n) == Success(m.(fast := Cleared(m.fast, a - FAST_BASE, 4 * n)))
  {
    hide Cleared, Put32, Store32;
    var o := a - FAST_BASE;
    if n == 0 {
      ClearNothing(m.fast, o);
    } else {
      var i := 4 * (n - 1);
      ClearWordsInside(m, a, n - 1);
      WrapIs(a + i, 0);
      StoreInFast(m.(fast := Cleared(m.fast, o, i)), a + i, o + i);
      ClearMore(m.fast, o, i);
    }
  }

  lemma StoreInFast(m: Memory, a: u32, o: int)
    requires m.Valid() && a % 4 == 0 && a == FAST_BASE + o && 0 <= o <= FAST_SIZE - 4
    ensures Store32(m, a, 0) == Success(m.(fast := Put32(m.fast, o, 0)))
  {
  }

  lemma ClearNothing(fast: seq<u8>, o: int)
    requires 0 <= o <= |fast|
    ensures Cleared(fast, o, 0) == fast
  {
  }

  /** From a chunk it is the allocation of Alloc. */
  lemma AllocFromChunk(m: Memory, head: u32)
    requires m.Valid()
    ensures IsChunk(head) ==>
              var m' := m.(fast := Cleared(m.fast, head - FAST_BASE, CHUNK_SIZE));
              AllocFrom(m, head) == Success((m', LinkOf(m.fast, head)))
  {
    if IsChunk(head) {
      ClearWordsInside(m, head, CHUNK_SIZE / 4);
    }
  }

  /** One more word cleared. */
  lemma ClearMore(fast: seq<u8>, o: int, i: nat)
    requires 0 <= o && o + i + 4 <= |fast|
    ensures Put32(Cleared(fast, o, i), o + i, 0) == Cleared(fast, o, i + 4)
  {
    OverwriteAt(Cleared(fast, o, i), o + i, Bytes32(0));
  }
}
