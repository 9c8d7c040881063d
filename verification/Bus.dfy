/** hardware.c: the bus dispatcher over the two byte arrays, with the alignment
    and range checks whose failure ends the process, and the ring transfers. */
module Bus {
  import opened Words

  const FAST_BASE: int := 0x2000_0000
  const FAST_SIZE: int := 0x8000
  const EXT_BASE: int := 0x6000_0000
  const EXT_SIZE: int := 0x10_0000

  /** The source calls exit(1) here; a Failure models the end of the process. */
  datatype Fault = Unaligned(addr: u32) | Violation(addr: u32)

  datatype Result<+T> = Success(value: T) | Failure(fault: Fault) {
    predicate IsFailure() {
      Failure?
    }

    function PropagateFailure<U>(): Result<U>
      requires Failure?
    {
      Failure(fault)
    }

    function Extract(): T
      requires Success?
    {
      value
    }
  }

  /** The contents of both arrays. */
  datatype Memory = Memory(fast: seq<u8>, ext: seq<u8>) {
    ghost predicate Valid() {
      |fast| == FAST_SIZE && |ext| == EXT_SIZE
    }
  }

  predicate InFast(a: int) {
    FAST_BASE <= a < FAST_BASE + FAST_SIZE
  }

  predicate InExt(a: int) {
    EXT_BASE <= a < EXT_BASE + EXT_SIZE
  }

  function Load8(m: Memory, a: u32): Result<u8>
    requires m.Valid()
  {
    if InFast(a) then Success(m.fast[a - FAST_BASE])
    else if InExt(a) then Success(m.ext[a - EXT_BASE])
    else Failure(Violation(a))
  }

  function Store8(m: Memory, a: u32, v: u8): (r: Result<Memory>)
    requires m.Valid()
    ensures r.Success? ==> r.value.Valid()
  {
    if InFast(a) then Success(m.(fast := m.fast[a - FAST_BASE := v]))
    else if InExt(a) then Success(m.(ext := m.ext[a - EXT_BASE := v]))
    else Failure(Violation(a))
  }

  function Load32(m: Memory, a: u32): Result<u32>
    requires m.Valid()
  {
    if a % 4 != 0 then Failure(Unaligned(a))
    else if InFast(a) then Success(Get32(m.fast, a - FAST_BASE))
    else if InExt(a) then Success(Get32(m.ext, a - EXT_BASE))
    else Failure(Violation(a))
  }

  function Store32(m: Memory, a: u32, v: u32): (r: Result<Memory>)
    requires m.Valid()
    ensures r.Success? ==> r.value.Valid()
  {
    if a % 4 != 0 then Failure(Unaligned(a))
    else if InFast(a) then Success(m.(fast := Put32(m.fast, a - FAST_BASE, v)))
    else if InExt(a) then Success(m.(ext := Put32(m.ext, a - EXT_BASE, v)))
    else Failure(Violation(a))
  }

  /** A 32-bit access agrees with four byte accesses, least significant byte first. */
  lemma WordIsFourBytes(m: Memory, a: u32, v: u32)
    requires m.Valid() && a % 4 == 0 && (InFast(a) || InExt(a))
    ensures Load8(m, a).Success? && Load8(m, a + 1).Success? && Load8(m, a + 2).Success? && Load8(m, a + 3).Success?
    ensures Load32(m, a) == Success((Load8(m, a).value as int) + 0x100 * (Load8(m, a + 1).value as int)
                                    + 0x1_0000 * (Load8(m, a + 2).value as int)
                                    + 0x100_0000 * (Load8(m, a + 3).value as int))
    ensures var m1 := Store8(m, a, v % 0x100).value;
            var m2 := Store8(m1, a + 1, v / 0x100 % 0x100).value;
            var m3 := Store8(m2, a + 2, v / 0x1_0000 % 0x100).value;
            Store32(m, a, v) == Store8(m3, a + 3, v / 0x100_0000)
    ensures Load32(Store32(m, a, v).value, a) == Success(v)
  {
    if InFast(a) {
      Put32Bytes(m.fast, a - FAST_BASE, v);
      Get32Bytes(m.fast, a - FAST_BASE);
      GetPut32(m.fast, a - FAST_BASE, v);
    } else {
      Put32Bytes(m.ext, a - EXT_BASE, v);
      Get32Bytes(m.ext, a - EXT_BASE);
      GetPut32(m.ext, a - EXT_BASE, v);
    }
  }

  // ---- ring transfers -------------------------------------------------------

  /** The address that step i of a transfer from addr uses. */
  function RingAddr(addr: u32, i: nat): u32 {
    var a := Wrap(addr + i);
    if a >= EXT_BASE + EXT_SIZE then EXT_BASE + a % EXT_SIZE else a
  }

  /** The first n bytes of data stored through the ring; stops at the first fault. */
  function RingStore(m: Memory, addr: u32, data: seq<u8>): (r: Result<Memory>)
    requires m.Valid()
    ensures r.Success? ==> r.value.Valid()
  {
    if data == [] then Success(m)
    else
      var n := |data| - 1;
      var m1 :- RingStore(m, addr, data[..n]);
      Store8(m1, RingAddr(addr, n), data[n])
  }

  function RingLoad(m: Memory, addr: u32, len: nat): (r: Result<seq<u8>>)
    requires m.Valid()
    ensures r.Success? ==> |r.value| == len
  {
    if len == 0 then Success([])
    else
      var front :- RingLoad(m, addr, len - 1);
      var b :- Load8(m, RingAddr(addr, len - 1));
      Success(front + [b])
  }

  /** Where byte i of a transfer starting inside the SPI-RAM lands in the array. */
  function RingIndex(addr: u32, i: nat): (r: int)
    requires InExt(addr)
    ensures 0 <= r < EXT_SIZE
  {
    (addr - EXT_BASE + i) % EXT_SIZE
  }

  lemma RingAddrInside(addr: u32, i: nat)
    requires InExt(addr) && addr + i < 0x1_0000_0000
    ensures RingAddr(addr, i) == EXT_BASE + RingIndex(addr, i)
  {
  }

  /** Two steps of a transfer share a place if and only if they are whole rings apart. */
  lemma RingIndexShared(addr: u32, i: nat, j: nat)
    requires InExt(addr) && i <= j
    ensures RingIndex(addr, i) == RingIndex(addr, j) <==> (j - i) % EXT_SIZE == 0
  {
  }

  /** The last step of a transfer changes one byte of the SPI-RAM. */
  lemma RingStoreStep(m: Memory, addr: u32, data: seq<u8>)
    requires m.Valid() && InExt(addr) && 0 < |data| && addr + |data| <= 0x1_0000_0000
    requires RingStore(m, addr, data[..|data| - 1]).Success?
    ensures var n := |data| - 1;
            var m1 := RingStore(m, addr, data[..n]).value;
            RingStore(m, addr, data) == Success(m1.(ext := m1.ext[RingIndex(addr, n) := data[n]]))
  {
    hide RingIndex, RingAddr, Store8;
    var n := |data| - 1;
    RingAddrInside(addr, n);
    StoreInExt(RingStore(m, addr, data[..n]).value, RingAddr(addr, n), RingIndex(addr, n), data[n]);
  }

  lemma StoreInExt(m: Memory, a: u32, o: int, v: u8)
    requires m.Valid() && a == EXT_BASE + o && 0 <= o < EXT_SIZE
    ensures Store8(m, a, v) == Success(m.(ext := m.ext[o := v]))
  {
  }

  lemma RingStoreNothing(m: Memory, addr: u32)
    requires m.Valid()
    ensures RingStore(m, addr, []) == Success(m)
  {
  }

  /** What a transfer of at most the whole ring leaves behind: byte i at its ring
      position, every other byte of the SPI-RAM and all of the fast RAM as before. */
  lemma {:induction false} RingStoreEffect(m: Memory, addr: u32, data: seq<u8>)
    requires m.Valid() && InExt(addr) && |data| <= EXT_SIZE
    ensures RingStore(m, addr, data).Success?
    ensures var m' := RingStore(m, addr, data).value;
            && m'.fast == m.fast
            && (forall i | 0 <= i < |data| :: m'.ext[RingIndex(addr, i)] == data[i])
            && (forall k | 0 <= k < EXT_SIZE && (forall i | 0 <= i < |data| :: RingIndex(addr, i) != k) ::
                  m'.ext[k] == m.ext[k])
  {
    hide RingIndex, RingAddr, RingStore, Store8;
    if data == [] {
      RingStoreNothing(m, addr);
    } else {
      var n := |data| - 1;
      RingStoreEffect(m, addr, data[..n]);
      RingStoreStep(m, addr, data);
      var m1 := RingStore(m, addr, data[..n]).value;
      var m' := RingStore(m, addr, data).value;
      forall i | 0 <= i < |data|
        ensures m'.ext[RingIndex(addr, i)] == data[i]
      {
        if i < n {
          RingIndexShared(addr, i, n);
          assert data[..n][i] == data[i];
        }
      }
      forall k | 0 <= k < EXT_SIZE && (forall i | 0 <= i < |data| :: RingIndex(addr, i) != k)
        ensures m'.ext[k] == m.ext[k]
      {
        assert RingIndex(addr, n) != k;
      }
    }
  }

  lemma {:induction false} RingLoadEffect(m: Memory, addr: u32, len: nat)
    requires m.Valid() && InExt(addr) && addr + len <= 0x1_0000_0000
    ensures RingLoad(m, addr, len).Success?
    ensures forall i | 0 <= i < len :: RingLoad(m, addr, len).value[i] == m.ext[RingIndex(addr, i)]
  {
    if len == 0 {
    } else {
      RingLoadEffect(m, addr, len - 1);
      RingAddrInside(addr, len - 1);
    }
  }

  /** Reading back through the ring returns the bytes written, across the wrap. */
  lemma RingRoundTrip(m: Memory, addr: u32, data: seq<u8>)
    requires m.Valid() && InExt(addr) && |data| <= EXT_SIZE
    ensures RingStore(m, addr, data).Success?
    ensures RingLoad(RingStore(m, addr, data).value, addr, |data|) == Success(data)
  {
    RingStoreEffect(m, addr, data);
    var m' := RingStore(m, addr, data).value;
    RingLoadEffect(m', addr, |data|);
    assert RingLoad(m', addr, |data|).value == data;
  }

  /** Of the bytes that share a place the last one written stays. */
  lemma {:induction false} RingStoreLast(m: Memory, addr: u32, data: seq<u8>, i: nat)
    requires m.Valid() && InExt(addr) && addr + |data| <= 0x1_0000_0000 && i < |data|
    requires forall j | i < j < |data| :: RingIndex(addr, j) != RingIndex(addr, i)
    ensures RingStore(m, addr, data).Success?
    ensures RingStore(m, addr, data).value.ext[RingIndex(addr, i)] == data[i]
    decreases |data|
  {
    var n := |data| - 1;
    RingAddrInside(addr, n);
    if i == n {
      RingStoreSucceeds(m, addr, data[..n]);
    } else {
      RingStoreLast(m, addr, data[..n], i);
      assert RingIndex(addr, n) != RingIndex(addr, i);
    }
  }

  lemma {:induction false} RingStoreSucceeds(m: Memory, addr: u32, data: seq<u8>)
    requires m.Valid() && InExt(addr) && addr + |data| <= 0x1_0000_0000
    ensures RingStore(m, addr, data).Success?
    decreases |data|
  {
    if data == [] {
    } else {
      var n := |data| - 1;
      RingStoreSucceeds(m, addr, data[..n]);
      RingAddrInside(addr, n);
    }
  }

  /** The last step that shares the place of step i. */
  lemma {:induction false} LastSharing(addr: u32, i: nat, n: nat) returns (j: nat)
    requires InExt(addr) && i < n
    ensures i <= j < n && (j - i) % EXT_SIZE == 0
    ensures forall k | j < k < n :: RingIndex(addr, k) != RingIndex(addr, j)
    decreases n - i
  {
    if k: nat :| i < k < n && RingIndex(addr, k) == RingIndex(addr, i) {
      RingIndexShared(addr, i, k);
      j := LastSharing(addr, k, n);
      WholeRings(i, k, j);
    } else {
      j := i;
    }
  }

  lemma WholeRings(i: nat, k: nat, j: nat)
    requires i <= k <= j && (k - i) % EXT_SIZE == 0 && (j - k) % EXT_SIZE == 0
    ensures (j - i) % EXT_SIZE == 0
  {
  }

  predicate ReadsBack(m: Memory, addr: u32, data: seq<u8>)
    requires m.Valid()
  {
    match RingStore(m, addr, data)
    case Failure(_) => false
    case Success(m') => RingLoad(m', addr, |data|) == Success(data)
  }

  /** Bytes whole rings apart agree. */
  ghost predicate RingPeriodic(data: seq<u8>) {
    forall i, j | 0 <= i < j < |data| && (j - i) % EXT_SIZE == 0 :: data[i] == data[j]
  }

  /** A transfer of any length reads back if and only if it ends before the top of the
      address space, where the address wraps to 0, and bytes that share a place agree. */
  lemma RingRoundTripExactly(m: Memory, addr: u32, data: seq<u8>)
    requires m.Valid() && InExt(addr)
    ensures ReadsBack(m, addr, data) <==> addr + |data| <= 0x1_0000_0000 && RingPeriodic(data)
  {
    if addr + |data| > 0x1_0000_0000 {
      var n := 0x1_0000_0000 - addr;
      RingPastTop(m, addr, data[..n + 1]);
      RingFaultPersists(m, addr, data, n + 1);
    } else {
      RingStoreSucceeds(m, addr, data);
      var m' := RingStore(m, addr, data).value;
      RingLoadEffect(m', addr, |data|);
      if RingPeriodic(data) {
        PeriodicReadsBack(m, addr, data);
      } else {
        var i, j :| 0 <= i < j < |data| && (j - i) % EXT_SIZE == 0 && data[i] != data[j];
        RingIndexShared(addr, i, j);
      }
    }
  }

  lemma PeriodicReadsBack(m: Memory, addr: u32, data: seq<u8>)
    requires m.Valid() && InExt(addr) && addr + |data| <= 0x1_0000_0000 && RingPeriodic(data)
    ensures ReadsBack(m, addr, data)
  {
    hide RingIndex, RingStore, RingLoad;
    RingStoreSucceeds(m, addr, data);
    var m' := RingStore(m, addr, data).value;
    RingLoadEffect(m', addr, |data|);
    var read := RingLoad(m', addr, |data|).value;
    forall i | 0 <= i < |data|
      ensures read[i] == data[i]
    {
      var j := LastSharing(addr, i, |data|);
      RingIndexShared(addr, i, j);
      RingStoreLast(m, addr, data, j);
    }
    assert read == data;
  }

  /** The step whose address would be 2 to the 32 uses address 0 instead. */
  lemma RingPastTop(m: Memory, addr: u32, data: seq<u8>)
    requires m.Valid() && InExt(addr) && addr + |data| == 0x1_0000_0001
    ensures RingStore(m, addr, data).Failure?
  {
    var n := |data| - 1;
    WrapIs(addr + n, 1);
    assert RingAddr(addr, n) == 0;
  }

  /** A transfer that does not reach the end of the SPI-RAM is one contiguous piece. */
  lemma {:induction false} RingStoreContiguous(m: Memory, addr: u32, data: seq<u8>)
    requires m.Valid() && EXT_BASE <= addr && addr + |data| <= EXT_BASE + EXT_SIZE
    ensures RingStore(m, addr, data) == Success(m.(ext := Overwrite(m.ext, addr - EXT_BASE, data)))
  {
    if data == [] {
    } else {
      var n := |data| - 1;
      RingStoreContiguous(m, addr, data[..n]);
      assert RingAddr(addr, n) == addr + n;
    }
  }

  /** Addresses below the SPI-RAM do not wrap: a transfer inside the fast RAM is contiguous
      as well. */
  lemma {:induction false} RingStoreFast(m: Memory, addr: u32, data: seq<u8>)
    requires m.Valid() && FAST_BASE <= addr && addr + |data| <= FAST_BASE + FAST_SIZE
    ensures RingStore(m, addr, data) == Success(m.(fast := Overwrite(m.fast, addr - FAST_BASE, data)))
  {
    if data == [] {
    } else {
      var n := |data| - 1;
      RingStoreFast(m, addr, data[..n]);
      assert RingAddr(addr, n) == addr + n;
    }
  }

  /** A transfer that starts just behind the SPI-RAM is one that starts at its front. */
  lemma {:induction false} RingStoreFromEnd(m: Memory, data: seq<u8>)
    requires m.Valid() && |data| <= EXT_SIZE
    ensures RingStore(m, EXT_BASE + EXT_SIZE, data) == RingStore(m, EXT_BASE, data)
  {
    hide RingAddr, Store8;
    if data == [] {
    } else {
      var n := |data| - 1;
      RingStoreFromEnd(m, data[..n]);
      RingAddrFromEnd(n);
    }
  }

  lemma RingAddrFromEnd(i: nat)
    requires i < EXT_SIZE
    ensures RingAddr(EXT_BASE + EXT_SIZE, i) == RingAddr(EXT_BASE, i)
  {
    WrapIs(EXT_BASE + EXT_SIZE + i, 0);
    WrapIs(EXT_BASE + i, 0);
  }

  /** A transfer that does not fit before the end of the SPI-RAM goes on at its front,
      over whatever stands there. */
  lemma RingStoreWraps(m: Memory, addr: u32, data: seq<u8>)
    requires m.Valid() && EXT_BASE <= addr <= EXT_BASE + EXT_SIZE && |data| <= EXT_SIZE
    ensures RingStore(m, addr, data).Success?
    ensures var rest := EXT_BASE + EXT_SIZE - addr;
            forall j | 0 <= j < |data| - rest :: RingStore(m, addr, data).value.ext[j] == data[rest + j]
  {
    hide RingStore;
    var rest := EXT_BASE + EXT_SIZE - addr;
    var start := if rest == 0 then EXT_BASE else addr;
    RingStoreFromEnd(m, data);
    RingStoreEffect(m, start, data);
    forall j | 0 <= j < |data| - rest
      ensures RingStore(m, addr, data).value.ext[j] == data[rest + j]
    {
      assert RingIndex(start, rest + j) == j;
    }
  }

  /** The bytes that len byte reads from addr on return. */
  function LoadBytes(m: Memory, addr: u32, len: nat): (r: Result<seq<u8>>)
    requires m.Valid()
    ensures r.Success? ==> |r.value| == len
  {
    if len == 0 then Success([])
    else
      var front :- LoadBytes(m, addr, len - 1);
      var b :- Load8(m, Wrap(addr + (len - 1)));
      Success(front + [b])
  }

  lemma {:induction false} LoadBytesAt(m: Memory, addr: u32, len: nat)
    requires m.Valid() && EXT_BASE <= addr && addr + len <= EXT_BASE + EXT_SIZE
    ensures var o := addr - EXT_BASE; LoadBytes(m, addr, len) == Success(m.ext[o..o + len])
  {
    if len > 0 {
      var o := addr - EXT_BASE;
      LoadBytesAt(m, addr, len - 1);
      WrapIs(addr + (len - 1), 0);
      assert m.ext[o..o + len] == m.ext[o..o + (len - 1)] + [m.ext[o + (len - 1)]];
    } else {
      assert m.ext[addr - EXT_BASE..addr - EXT_BASE] == [];
    }
  }

  // ---- the bus itself -------------------------------------------------------

  class Bus {
    const fast: array<u8>
    const ext: array<u8>

    ghost predicate Valid() {
      fast.Length == FAST_SIZE && ext.Length == EXT_SIZE && fast != ext
    }

    function Contents(): (m: Memory)
      requires Valid()
      reads fast, ext
      ensures m.Valid()
    {
      Memory(fast[..], ext[..])
    }

    /** hw_init: both memories are cleared. */
    constructor ()
      ensures Valid() && fresh(fast) && fresh(ext)
      ensures Contents() == Memory(seq(FAST_SIZE, _ => 0), seq(EXT_SIZE, _ => 0))
    {
      fast := new u8[FAST_SIZE](_ => 0);
      ext := new u8[EXT_SIZE](_ => 0);
    }

    method Read8(addr: u32) returns (r: Result<u8>)
      requires Valid()
      ensures r == Load8(Contents(), addr)
    {
      if FAST_BASE <= addr < FAST_BASE + FAST_SIZE {
        return Success(fast[addr - FAST_BASE]);
      }
      if EXT_BASE <= addr < EXT_BASE + EXT_SIZE {
        return Success(ext[addr - EXT_BASE]);
      }
      return Failure(Violation(addr));
    }

    method Write8(addr: u32, val: u8) returns (r: Result<()>)
      requires Valid()
      modifies fast, ext
      ensures r.Success? ==> Store8(old(Contents()), addr, val) == Success(Contents())
      ensures r.Failure? ==> Store8(old(Contents()), addr, val) == Failure(r.fault) && Contents() == old(Contents())
    {
      if FAST_BASE <= addr < FAST_BASE + FAST_SIZE {
        fast[addr - FAST_BASE] := val;
        return Success(());
      }
      if EXT_BASE <= addr < EXT_BASE + EXT_SIZE {
        ext[addr - EXT_BASE] := val;
        return Success(());
      }
      return Failure(Violation(addr));
    }

    method Read32(addr: u32) returns (r: Result<u32>)
      requires Valid()
      ensures r == Load32(Contents(), addr)
    {
      if addr % 4 != 0 {
        return Failure(Unaligned(addr));
      }
      if FAST_BASE <= addr < FAST_BASE + FAST_SIZE {
        var o := addr - FAST_BASE;
        Get32Bytes(fast[..], o);
        return Success((fast[o] as int) + 0x100 * (fast[o + 1] as int)
                       + 0x1_0000 * (fast[o + 2] as int) + 0x100_0000 * (fast[o + 3] as int));
      }
      if EXT_BASE <= addr < EXT_BASE + EXT_SIZE {
        var o := addr - EXT_BASE;
        Get32Bytes(ext[..], o);
        return Success((ext[o] as int) + 0x100 * (ext[o + 1] as int)
                       + 0x1_0000 * (ext[o + 2] as int) + 0x100_0000 * (ext[o + 3] as int));
      }
      return Failure(Violation(addr));
    }

    method Write32(addr: u32, val: u32) returns (r: Result<()>)
      requires Valid()
      modifies fast, ext
      ensures r.Success? <==> addr % 4 == 0 && (InFast(addr) || InExt(addr))
      ensures r.Success? && InExt(addr) ==>
                fast[..] == old(fast[..]) && ext[..] == Put32(old(ext[..]), addr - EXT_BASE, val)
      ensures r.Success? && InFast(addr) ==>
                ext[..] == old(ext[..]) && fast[..] == Put32(old(fast[..]), addr - FAST_BASE, val)
      ensures r.Failure? ==>
                && fast[..] == old(fast[..]) && ext[..] == old(ext[..])
                && r.fault == if addr % 4 != 0 then Unaligned(addr) else Violation(addr)
    {
      if addr % 4 != 0 {
        return Failure(Unaligned(addr));
      }
      if FAST_BASE <= addr < FAST_BASE + FAST_SIZE {
        CopyCell(fast, addr - FAST_BASE, val);
        return Success(());
      }
      if EXT_BASE <= addr < EXT_BASE + EXT_SIZE {
        CopyCell(ext, addr - EXT_BASE, val);
        return Success(());
      }
      return Failure(Violation(addr));
    }

    /** The memcpy of one 32-bit value on a little-endian host. */
    static method CopyCell(a: array<u8>, o: int, val: u32)
      requires 0 <= o <= a.Length - 4
      modifies a
      ensures a[..] == Put32(old(a[..]), o, val)
    {
      Put32Bytes(a[..], o, val);
      a[o] := val % 0x100;
      a[o + 1] := val / 0x100 % 0x100;
      a[o + 2] := val / 0x1_0000 % 0x100;
      a[o + 3] := val / 0x100_0000;
    }

    /** hw_spi_ram_write_buf. */
    method WriteBuf(addr: u32, src: seq<u8>) returns (r: Result<()>)
      requires Valid()
      modifies fast, ext
      ensures match RingStore(old(Contents()), addr, src)
              case Success(m) => r.Success? && Contents() == m
              case Failure(f) => r == Failure(f)
    {
      var i := 0;
      while i < |src|
        invariant 0 <= i <= |src|
        invariant RingStore(old(Contents()), addr, src[..i]) == Success(Contents())
      {
        var current := Wrap(addr + i);
        if current >= EXT_BASE + EXT_SIZE {
          current := EXT_BASE + current % EXT_SIZE;
        }
        assert src[..i + 1][..i] == src[..i];
        r := Write8(current, src[i]);
        if r.Failure? {
          RingFaultPersists(old(Contents()), addr, src, i + 1);
          return;
        }
        i := i + 1;
      }
      assert src[..i] == src;
      return Success(());
    }

    /** hw_spi_ram_read_buf. */
    method ReadBuf(addr: u32, len: nat) returns (r: Result<seq<u8>>)
      requires Valid()
      ensures r == RingLoad(Contents(), addr, len)
    {
      var dest: seq<u8> := [];
      var i := 0;
      while i < len
        invariant 0 <= i <= len
        invariant RingLoad(Contents(), addr, i) == Success(dest)
      {
        var current := Wrap(addr + i);
        if current >= EXT_BASE + EXT_SIZE {
          current := EXT_BASE + current % EXT_SIZE;
        }
        var b := Read8(current);
        if b.Failure? {
          RingLoadFaultPersists(Contents(), addr, i + 1, len);
          return b.PropagateFailure();
        }
        dest := dest + [b.value];
        i := i + 1;
      }
      return Success(dest);
    }
  }

  /** A transfer that faults on a prefix faults on the whole. */
  lemma {:induction false} RingFaultPersists(m: Memory, addr: u32, data: seq<u8>, n: nat)
    requires m.Valid() && n <= |data| && RingStore(m, addr, data[..n]).Failure?
    ensures RingStore(m, addr, data) == RingStore(m, addr, data[..n])
    decreases |data|
  {
    if n < |data| {
      var k := |data| - 1;
      assert data[..k][..n] == data[..n];
      RingFaultPersists(m, addr, data[..k], n);
    } else {
      assert data[..n] == data;
    }
  }

  lemma {:induction false} RingLoadFaultPersists(m: Memory, addr: u32, n: nat, len: nat)
    requires m.Valid() && n <= len && RingLoad(m, addr, n).Failure?
    ensures RingLoad(m, addr, len) == RingLoad(m, addr, n)
    decreases len
  {
    if n == len {
    } else {
      RingLoadFaultPersists(m, addr, n, len - 1);
    }
  }
}
