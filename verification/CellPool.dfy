/** forth_cell_pool.c: 256 cells of the fast RAM under a bitmap with a counter. */
module CellPool {
  import opened Words
  import opened Bus

  const CELL_BITMAP_SIZE: int := 32
  const CELL_POOL_COUNT: int := 256
  const CELL_SIZE: int := 4
  const CELL_POOL_SIZE: int := CELL_POOL_COUNT * CELL_SIZE
  const CELL_DATA_BASE: int := FAST_BASE + 0x0800 + CELL_BITMAP_SIZE

  /** The bit the source writes as 1 << k. */
  function Mask(k: nat): bv8
    requires k < 8
  {
    match k
    case 0 => 0x01
    case 1 => 0x02
    case 2 => 0x04
    case 3 => 0x08
    case 4 => 0x10
    case 5 => 0x20
    case 6 => 0x40
    case 7 => 0x80
  }

  predicate Bit(b: bv8, k: nat)
    requires k < 8
  {
    b & Mask(k) != 0
  }

  function WithBit(b: bv8, k: nat): bv8
    requires k < 8
  {
    b | Mask(k)
  }

  function WithoutBit(b: bv8, k: nat): bv8
    requires k < 8
  {
    b & !Mask(k)
  }

  /** Setting or clearing one bit leaves the seven others. */
  lemma OneBit(b: bv8, k: nat, j: nat)
    requires k < 8 && j < 8
    ensures Bit(WithBit(b, k), j) == (j == k || Bit(b, j))
    ensures Bit(WithoutBit(b, k), j) == (j != k && Bit(b, j))
  {
  }

  /** A byte is full if and only if all eight bits are set. */
  lemma FullByte(b: bv8)
    ensures b == 0xFF <==> forall k: nat | k < 8 :: Bit(b, k)
  {
    if b != 0xFF {
      if Bit(b, 0) && Bit(b, 1) && Bit(b, 2) && Bit(b, 3) && Bit(b, 4) && Bit(b, 5) && Bit(b, 6) && Bit(b, 7) {
        assert false;
      }
    }
  }

  /** The driver's static variables and the memory. */
  datatype Pool = Pool(bitmap: seq<bv8>, count: nat, fast: seq<u8>) {
    ghost predicate Valid() {
      |bitmap| == CELL_BITMAP_SIZE && |fast| == FAST_SIZE
    }
  }

  /** Where the bit of cell i is. */
  function ByteOf(i: int): (b: nat)
    requires 0 <= i < CELL_POOL_COUNT
    ensures b < CELL_BITMAP_SIZE
  {
    i / 8
  }

  function BitOf(i: int): (k: nat)
    requires 0 <= i < CELL_POOL_COUNT
    ensures k < 8
  {
    i % 8
  }

  /** Cells and bits correspond one to one. */
  lemma BitPosition(i: int, b: nat, k: nat)
    requires 0 <= i < CELL_POOL_COUNT && k < 8
    ensures ByteOf(i) == b && BitOf(i) == k <==> i == 8 * b + k
  {
  }

  predicate Taken(bitmap: seq<bv8>, i: int)
    requires |bitmap| == CELL_BITMAP_SIZE && 0 <= i < CELL_POOL_COUNT
  {
    Bit(bitmap[ByteOf(i)], BitOf(i))
  }

  /** Cell i is bit i of the bitmap: the lowest bit of a byte comes first. */
  lemma TakenIsBit(bitmap: seq<bv8>, i: int)
    requires |bitmap| == 32 && 0 <= i < 256
    ensures Taken(bitmap, i) <==> (bitmap[i / 8] as int) / Pow2(i % 8) % 2 == 1
  {
    var b := bitmap[i / 8];
    assert Pow2(1) == 2 && Pow2(2) == 4 && Pow2(3) == 8 && Pow2(4) == 16;
    assert Pow2(5) == 32 && Pow2(6) == 64 && Pow2(7) == 128;
    Bit0(b);
    Bit1(b);
    Bit2(b);
    Bit3(b);
    HighBits(b);
  }

  lemma Bit0(b: bv8)
    ensures (b & 0x01 != 0) <==> (b as int) % 2 == 1
  {
  }

  lemma Bit1(b: bv8)
    ensures (b & 0x02 != 0) <==> (b as int) / 2 % 2 == 1
  {
  }

  lemma Bit2(b: bv8)
    ensures (b & 0x04 != 0) <==> (b as int) / 4 % 2 == 1
  {
  }

  lemma Bit3(b: bv8)
    ensures (b & 0x08 != 0) <==> (b as int) / 8 % 2 == 1
  {
  }

  lemma HighBits(b: bv8)
    ensures (b & 0x10 != 0) <==> (b as int) / 16 % 2 == 1
    ensures (b & 0x20 != 0) <==> (b as int) / 32 % 2 == 1
    ensures (b & 0x40 != 0) <==> (b as int) / 64 % 2 == 1
    ensures (b & 0x80 != 0) <==> (b as int) / 128 % 2 == 1
  {
  }

  /** The cells in use. */
  ghost function TakenSet(bitmap: seq<bv8>): set<int>
    requires |bitmap| == CELL_BITMAP_SIZE
  {
    set i | 0 <= i < CELL_POOL_COUNT && Taken(bitmap, i)
  }

  /** The counter is the number of set bits. */
  ghost predicate Inv(p: Pool) {
    p.Valid() && p.count == |TakenSet(p.bitmap)|
  }

  function CellAddr(i: int): int {
    CELL_DATA_BASE + CELL_SIZE * i
  }

  predicate InPool(addr: u32) {
    CELL_DATA_BASE <= addr < CELL_DATA_BASE + CELL_POOL_SIZE
  }

  /** The index that the free word computes. */
  function CellIndex(addr: u32): int
    requires InPool(addr)
  {
    (addr - CELL_DATA_BASE) / CELL_SIZE
  }

  /** Aligned addresses of the pool and cells correspond one to one. */
  lemma CellAddrRoundTrip(i: int, addr: u32)
    ensures 0 <= i < CELL_POOL_COUNT ==> InPool(CellAddr(i)) && CellAddr(i) % 4 == 0 && CellIndex(CellAddr(i)) == i
    ensures CellAddr(i) == 0x2000_0820 + 4 * i
    ensures InPool(addr) ==>
              0 <= CellIndex(addr) < CELL_POOL_COUNT && (CellAddr(CellIndex(addr)) == addr <==> addr % 4 == 0)
  {
  }

  function FirstFree(bitmap: seq<bv8>, i: int): (r: int)
    requires |bitmap| == CELL_BITMAP_SIZE && 0 <= i <= CELL_POOL_COUNT
    ensures i <= r <= CELL_POOL_COUNT
    ensures r < CELL_POOL_COUNT ==> !Taken(bitmap, r)
    ensures forall j | i <= j < r :: Taken(bitmap, j)
    decreases CELL_POOL_COUNT - i
  {
    if i == CELL_POOL_COUNT || !Taken(bitmap, i) then i else FirstFree(bitmap, i + 1)
  }

  function SetBit(bitmap: seq<bv8>, i: int): (r: seq<bv8>)
    requires |bitmap| == CELL_BITMAP_SIZE && 0 <= i < CELL_POOL_COUNT
    ensures |r| == CELL_BITMAP_SIZE
  {
    bitmap[ByteOf(i) := WithBit(bitmap[ByteOf(i)], BitOf(i))]
  }

  function ClearBit(bitmap: seq<bv8>, i: int): (r: seq<bv8>)
    requires |bitmap| == CELL_BITMAP_SIZE && 0 <= i < CELL_POOL_COUNT
    ensures |r| == CELL_BITMAP_SIZE
  {
    bitmap[ByteOf(i) := WithoutBit(bitmap[ByteOf(i)], BitOf(i))]
  }

  /** forth_cmd_fast_cell with the address it pushes. */
  function Alloc(p: Pool): (Pool, u32)
    requires p.Valid()
  {
    var i := FirstFree(p.bitmap, 0);
    if i == CELL_POOL_COUNT then (p, 0)
    else (Pool(SetBit(p.bitmap, i), p.count + 1, Put32(p.fast, CellAddr(i) - FAST_BASE, 0)), CellAddr(i))
  }

  /** forth_cmd_fast_cell_free on the address popped. An address inside a cell that
      is not its start clears the bit and then faults on the bus. */
  function Free(p: Pool, addr: u32): Result<Pool>
    requires p.Valid()
  {
    if !InPool(addr) then Success(p)
    else
      var i := CellIndex(addr);
      if !Taken(p.bitmap, i) then Success(p)
      else if addr % 4 != 0 then Failure(Unaligned(addr))
      else
        Success(Pool(ClearBit(p.bitmap, i), if p.count > 0 then p.count - 1 else 0, Put32(p.fast, addr - FAST_BASE, 0)))
  }

  // ---- what they keep -------------------------------------------------------

  lemma SetTakes(bitmap: seq<bv8>, i: int)
    requires |bitmap| == CELL_BITMAP_SIZE && 0 <= i < CELL_POOL_COUNT
    ensures TakenSet(SetBit(bitmap, i)) == TakenSet(bitmap) + {i}
    ensures TakenSet(ClearBit(bitmap, i)) == TakenSet(bitmap) - {i}
  {
    hide SetBit, ClearBit, Taken;
    forall j | 0 <= j < CELL_POOL_COUNT
      ensures Taken(SetBit(bitmap, i), j) == (j == i || Taken(bitmap, j))
      ensures Taken(ClearBit(bitmap, i), j) == (j != i && Taken(bitmap, j))
    {
      SetTakesOne(bitmap, i, j);
    }
  }

  lemma SetTakesOne(bitmap: seq<bv8>, i: int, j: int)
    requires |bitmap| == CELL_BITMAP_SIZE && 0 <= i < CELL_POOL_COUNT && 0 <= j < CELL_POOL_COUNT
    ensures Taken(SetBit(bitmap, i), j) == (j == i || Taken(bitmap, j))
    ensures Taken(ClearBit(bitmap, i), j) == (j != i && Taken(bitmap, j))
  {
    hide Bit, WithBit, WithoutBit, ByteOf, BitOf;
    OneBit(bitmap[ByteOf(i)], BitOf(i), BitOf(j));
    BitPosition(i, ByteOf(j), BitOf(j));
    BitPosition(j, ByteOf(j), BitOf(j));
  }

  lemma AllTaken(bitmap: seq<bv8>)
    requires |bitmap| == CELL_BITMAP_SIZE
    ensures |TakenSet(bitmap)| == CELL_POOL_COUNT <==> FirstFree(bitmap, 0) == CELL_POOL_COUNT
  {
    hide Taken;
    var all := UpTo(CELL_POOL_COUNT);
    var taken := TakenSet(bitmap);
    if FirstFree(bitmap, 0) == CELL_POOL_COUNT {
      assert taken == all;
    } else {
      var k := FirstFree(bitmap, 0);
      assert k in all && k !in taken && taken <= all - {k};
      Smaller(taken, all - {k});
    }
  }

  ghost function UpTo(n: nat): (s: set<int>)
    ensures |s| == n && forall i :: i in s <==> 0 <= i < n
  {
    if n == 0 then {} else UpTo(n - 1) + {n - 1}
  }

  lemma {:induction false} Smaller<T>(a: set<T>, b: set<T>)
    requires a <= b
    ensures |a| <= |b|
  {
    if a != {} {
      var x :| x in a;
      Smaller(a - {x}, b - {x});
    }
  }

  /** Allocation returns the lowest free cell, cleared, and 0 if and only if the
      counter stands at 256; nothing else changes. */
  lemma AllocExact(p: Pool)
    requires Inv(p)
    ensures var (p', addr) := Alloc(p);
            && Inv(p')
            && (addr == 0 <==> p.count == CELL_POOL_COUNT)
            && (addr == 0 ==> p' == p)
            && (addr != 0 ==>
                  && InPool(addr) && addr % 4 == 0
                  && var i := CellIndex(addr);
                     && i !in TakenSet(p.bitmap) && (forall j | 0 <= j < i :: j in TakenSet(p.bitmap))
                     && TakenSet(p'.bitmap) == TakenSet(p.bitmap) + {i}
                     && Get32(p'.fast, addr - FAST_BASE) == 0
                     && forall k | 0 <= k < FAST_SIZE && !(addr <= FAST_BASE + k < addr + 4) :: p'.fast[k] == p.fast[k])
  {
    hide Taken;
    AllTaken(p.bitmap);
    var i := FirstFree(p.bitmap, 0);
    if i < CELL_POOL_COUNT {
      SetTakes(p.bitmap, i);
      CellAddrRoundTrip(i, 0);
      GetPut32(p.fast, CellAddr(i) - FAST_BASE, 0);
    }
  }

  /** Freeing a taken cell clears its bit and its word; the counter is then at least 1,
      so the guard of the decrement never decides. Freeing a free cell, or an address
      outside the pool, changes nothing. */
  lemma FreeExact(p: Pool, addr: u32)
    requires Inv(p)
    ensures InPool(addr) && CellIndex(addr) in TakenSet(p.bitmap) ==> p.count > 0
    ensures !InPool(addr) || CellIndex(addr) !in TakenSet(p.bitmap) ==> Free(p, addr) == Success(p)
    ensures InPool(addr) && CellIndex(addr) in TakenSet(p.bitmap) ==> (Free(p, addr).Success? <==> addr % 4 == 0)
    ensures InPool(addr) && CellIndex(addr) in TakenSet(p.bitmap) && addr % 4 == 0 ==>
              var p' := Free(p, addr).value;
              && Inv(p') && TakenSet(p'.bitmap) == TakenSet(p.bitmap) - {CellIndex(addr)}
              && Get32(p'.fast, addr - FAST_BASE) == 0
              && forall k | 0 <= k < FAST_SIZE && !(addr <= FAST_BASE + k < addr + 4) :: p'.fast[k] == p.fast[k]
  {
    hide Taken;
    if InPool(addr) {
      var i := CellIndex(addr);
      SetTakes(p.bitmap, i);
      if i in TakenSet(p.bitmap) {
        GetPut32(p.fast, addr - FAST_BASE, 0);
      }
    }
  }

  /** Freeing the cell just allocated restores the bitmap and the counter, and a second
      free of it changes nothing. */
  lemma AllocThenFree(p: Pool)
    requires Inv(p) && p.count < CELL_POOL_COUNT
    ensures var (p1, addr) := Alloc(p);
            var r := Free(p1, addr);
            && r.Success? && r.value.bitmap == p.bitmap && r.value.count == p.count
            && Free(r.value, addr) == r
  {
    hide Taken, SetBit, ClearBit, Put32, TakenSet;
    AllocExact(p);
    var (p1, addr) := Alloc(p);
    var i := CellIndex(addr);
    FreeExact(p1, addr);
    var r := Free(p1, addr);
    SetTakesOne(p.bitmap, i, i);
    BitsBack(p.bitmap, i);
  }

  lemma BitsBack(bitmap: seq<bv8>, i: int)
    requires |bitmap| == CELL_BITMAP_SIZE && 0 <= i < CELL_POOL_COUNT && !Taken(bitmap, i)
    ensures ClearBit(SetBit(bitmap, i), i) == bitmap
  {
    hide ByteOf, BitOf, WithBit, WithoutBit;
    ByteBack(bitmap[ByteOf(i)], BitOf(i));
  }

  lemma ByteBack(b: bv8, k: nat)
    requires k < 8 && !Bit(b, k)
    ensures WithoutBit(WithBit(b, k), k) == b
  {
  }

  // ---- every run ------------------------------------------------------------

  datatype Op = AllocOp | FreeOp(addr: u32) | WriteOp(fast: seq<u8>)

  ghost predicate Takes(op: Op, p: Pool, p': Pool) {
    p.Valid() &&
    match op
    case AllocOp => p' == Alloc(p).0
    case FreeOp(addr) => Free(p, addr) == Success(p')
    case WriteOp(fast) => |fast| == FAST_SIZE && p' == p.(fast := fast)
  }

  ghost predicate Run(ops: seq<Op>, states: seq<Pool>) {
    && |states| == |ops| + 1
    && states[0].Valid() && states[0].count == 0 && (forall i | 0 <= i < CELL_BITMAP_SIZE :: states[0].bitmap[i] == 0)
    && forall i | 0 <= i < |ops| :: Takes(ops[i], states[i], states[i + 1])
  }

  lemma EmptyBitmap(bitmap: seq<bv8>)
    requires |bitmap| == CELL_BITMAP_SIZE && forall i | 0 <= i < CELL_BITMAP_SIZE :: bitmap[i] == 0
    ensures TakenSet(bitmap) == {}
  {
    forall j | 0 <= j < CELL_POOL_COUNT
      ensures !Taken(bitmap, j)
    {
      assert bitmap[ByteOf(j)] == 0;
    }
  }

  lemma StepKeepsInv(op: Op, p: Pool, p': Pool)
    requires Inv(p) && Takes(op, p, p')
    ensures Inv(p')
  {
    match op
    case AllocOp => AllocExact(p);
    case FreeOp(addr) => FreeExact(p, addr);
    case WriteOp(_) =>
  }

  /** Over every run of allocations, frees of any address and writes, the counter is
      the number of set bits. */
  lemma {:induction false} CounterCounts(ops: seq<Op>, states: seq<Pool>, n: nat)
    requires Run(ops, states) && n <= |ops|
    ensures Inv(states[n])
    decreases n
  {
    hide Takes;
    if n == 0 {
      EmptyBitmap(states[0].bitmap);
    } else {
      CounterCounts(ops, states, n - 1);
      assert Takes(ops[n - 1], states[n - 1], states[n - 1 + 1]);
      StepKeepsInv(ops[n - 1], states[n - 1], states[n]);
    }
  }

  // ---- the driver -----------------------------------------------------------

  class Cells {
    const bus: Bus
    const bitmap: array<bv8>
    var allocatedCount: nat

    ghost predicate Valid()
      reads this
    {
      bus.Valid() && bitmap.Length == CELL_BITMAP_SIZE
    }

    ghost function Contents(): (p: Pool)
      requires Valid()
      reads this, bitmap, bus.fast
      ensures p.Valid()
    {
      Pool(bitmap[..], allocatedCount, bus.fast[..])
    }

    /** cell_pool_init. */
    constructor (b: Bus)
      requires b.Valid()
      ensures Valid() && bus == b && fresh(bitmap)
      ensures Contents() == Pool(seq(CELL_BITMAP_SIZE, _ => 0), 0, b.fast[..])
    {
      bus := b;
      bitmap := new bv8[CELL_BITMAP_SIZE];
      allocatedCount := 0;
      new;
      for i := 0 to CELL_BITMAP_SIZE
        invariant Valid() && bus == b && fresh(bitmap) && allocatedCount == 0
        invariant forall j | 0 <= j < i :: bitmap[j] == 0
      {
        bitmap[i] := 0;
      }
    }

    /** forth_cmd_fast_cell; the answer is the address it pushes. */
    method FastCell() returns (addr: u32)
      requires Valid()
      modifies this, bitmap, bus.fast, bus.ext
      ensures Valid() && bus.ext[..] == old(bus.ext[..])
      ensures (Contents(), addr) == Alloc(old(Contents()))
    {
      var byteIdx := 0;
      while byteIdx < CELL_BITMAP_SIZE
        invariant 0 <= byteIdx <= CELL_BITMAP_SIZE
        invariant Contents() == old(Contents()) && bus.ext[..] == old(bus.ext[..])
        invariant forall j | 0 <= j < 8 * byteIdx :: Taken(bitmap[..], j)
      {
        hide Bit, ByteOf, BitOf;
        if bitmap[byteIdx] != 0xFF {
          var bitIdx: nat := 0;
          while bitIdx < 8
            invariant bitIdx <= 8
            invariant Contents() == old(Contents()) && bus.ext[..] == old(bus.ext[..])
            invariant forall j | 0 <= j < 8 * byteIdx + bitIdx :: Taken(bitmap[..], j)
          {
            BitPosition(8 * byteIdx + bitIdx, byteIdx, bitIdx);
            if !Bit(bitmap[byteIdx], bitIdx) {
              FirstFreeIs(bitmap[..], 0, 8 * byteIdx + bitIdx);
              addr := TakeCell(byteIdx, bitIdx);
              return;
            }
            bitIdx := bitIdx + 1;
          }
          ByteTaken(bitmap[..], byteIdx);
        } else {
          FullByteTaken(bitmap[..], byteIdx);
        }
        byteIdx := byteIdx + 1;
      }
      FirstFreeIs(bitmap[..], 0, CELL_POOL_COUNT);
      return 0;
    }

    method TakeCell(byteIdx: nat, bitIdx: nat) returns (addr: u32)
      requires Valid() && byteIdx < CELL_BITMAP_SIZE && bitIdx < 8
      requires FirstFree(bitmap[..], 0) == 8 * byteIdx + bitIdx
      modifies this, bitmap, bus.fast, bus.ext
      ensures Valid() && bus.ext[..] == old(bus.ext[..])
      ensures (Contents(), addr) == Alloc(old(Contents()))
    {
      hide Bit, WithBit, WithoutBit, ByteOf, BitOf, FirstFree, Put32, Get32, LittleEndian;
      BitPosition(8 * byteIdx + bitIdx, byteIdx, bitIdx);
      bitmap[byteIdx] := WithBit(bitmap[byteIdx], bitIdx);
      allocatedCount := allocatedCount + 1;
      var cellIdx := byteIdx * 8 + bitIdx;
      addr := CELL_DATA_BASE + cellIdx * CELL_SIZE;
      var w := bus.Write32(addr, 0);
      assert w.Success?;
      assert bitmap[..] == SetBit(old(bitmap[..]), cellIdx);
    }

    /** forth_cmd_fast_cell_free on the address it pops. */
    method FastCellFree(addr: u32) returns (r: Result<()>)
      requires Valid()
      modifies this, bitmap, bus.fast, bus.ext
      ensures Valid() && bus.ext[..] == old(bus.ext[..])
      ensures match Free(old(Contents()), addr)
              case Success(p) => r.Success? && Contents() == p
              case Failure(f) => r == Failure(f)
    {
      if addr < CELL_DATA_BASE || addr >= CELL_DATA_BASE + CELL_POOL_SIZE {
        return Success(());
      }
      var offset := addr - CELL_DATA_BASE;
      var cellIdx := offset / CELL_SIZE;
      var byteIdx, bitIdx := cellIdx / 8, cellIdx % 8;
      BitPosition(cellIdx, byteIdx, bitIdx);
      hide Bit, WithBit, WithoutBit, ByteOf, BitOf;
      if !Bit(bitmap[byteIdx], bitIdx) {
        return Success(());
      }
      bitmap[byteIdx] := WithoutBit(bitmap[byteIdx], bitIdx);
      if allocatedCount > 0 {
        allocatedCount := allocatedCount - 1;
      }
      assert bitmap[..] == ClearBit(old(bitmap[..]), cellIdx);
      r := bus.Write32(addr, 0);
    }
  }

  lemma ByteTaken(bitmap: seq<bv8>, b: nat)
    requires |bitmap| == CELL_BITMAP_SIZE && b < CELL_BITMAP_SIZE && bitmap[b] != 0xFF
    ensures exists j | 8 * b <= j < 8 * b + 8 :: !Taken(bitmap, j)
  {
    hide Bit;
    FullByte(bitmap[b]);
    var k: nat :| k < 8 && !Bit(bitmap[b], k);
    BitPosition(8 * b + k, b, k);
    assert !Taken(bitmap, 8 * b + k);
  }

  lemma FullByteTaken(bitmap: seq<bv8>, b: nat)
    requires |bitmap| == CELL_BITMAP_SIZE && b < CELL_BITMAP_SIZE && bitmap[b] == 0xFF
    ensures forall j | 8 * b <= j < 8 * b + 8 :: Taken(bitmap, j)
  {
    hide Bit;
    FullByte(bitmap[b]);
    forall j | 8 * b <= j < 8 * b + 8
      ensures Taken(bitmap, j)
    {
      BitPosition(j, b, j - 8 * b);
    }
  }

  lemma {:induction false} FirstFreeIs(bitmap: seq<bv8>, i: int, r: int)
    requires |bitmap| == CELL_BITMAP_SIZE && 0 <= i <= r <= CELL_POOL_COUNT
    requires forall j | i <= j < r :: Taken(bitmap, j)
    requires r < CELL_POOL_COUNT ==> !Taken(bitmap, r)
    ensures FirstFree(bitmap, i) == r
    decreases r - i
  {
    hide Taken;
    if i == r {
    } else {
      FirstFreeIs(bitmap, i + 1, r);
    }
  }
}
