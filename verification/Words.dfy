/** Machine words as the C code sees them: bytes and 32-bit cells are bounded
    integers, wrap-around is written out, and a cell in memory is four bytes,
    least significant first. */
module Words {

  datatype Option<+T> = None | Some(value: T)

  type u8 = x: int | 0 <= x < 0x100

  type u32 = x: int | 0 <= x < 0x1_0000_0000

  /** The value of a C expression of type uint32_t whose mathematical value is x. */
  function Wrap(x: int): u32 {
    x % 0x1_0000_0000
  }

  lemma WrapIs(x: int, q: int)
    requires 0 <= x - 0x1_0000_0000 * q < 0x1_0000_0000
    ensures Wrap(x) == x - 0x1_0000_0000 * q
  {
  }

  /** A uint32_t reread as int32_t. */
  function Signed(x: u32): int {
    if x < 0x8000_0000 then x else x - 0x1_0000_0000
  }

  /** The only number in the range of int32_t with the same 32 bits. */
  lemma SignedIs(x: u32, v: int)
    ensures Signed(x) == v <==> -0x8000_0000 <= v < 0x8000_0000 && Wrap(v) == x
  {
    if -0x8000_0000 <= v < 0x8000_0000 {
      WrapIs(v, if v < 0 then -1 else 0);
    }
  }

  /** n rounded up to a multiple of 4, without wrap-around. */
  function Round4(n: int): int {
    (n + 3) / 4 * 4
  }

  /** The source's (n + 3) & ~3 on 32 bits. */
  function AlignUp(n: u32): u32 {
    Wrap(n + 3) / 4 * 4
  }

  function Pow2(n: nat): (p: nat)
    ensures p > 0
  {
    if n == 0 then 1 else 2 * Pow2(n - 1)
  }

  /** n single shifts to the right, rounding down. */
  function HalveTimes(x: int, n: nat): (r: int)
    ensures 0 <= x ==> 0 <= r <= x
    ensures x < 0 ==> x <= r < 0
  {
    if n == 0 then x else HalveTimes(x, n - 1) / 2
  }

  function Bytes32(v: u32): (r: seq<u8>)
    ensures |r| == 4
  {
    [v % 0x100, v / 0x100 % 0x100, v / 0x1_0000 % 0x100, v / 0x100_0000]
  }

  /** The number that bytes spell, least significant byte first. */
  function LittleEndian(b: seq<u8>): nat {
    if b == [] then 0 else b[0] + 0x100 * LittleEndian(b[1..])
  }

  lemma FourBytes(b: seq<u8>)
    requires |b| == 4
    ensures LittleEndian(b)
         == (b[0] as int) + 0x100 * (b[1] as int) + 0x1_0000 * (b[2] as int) + 0x100_0000 * (b[3] as int)
    ensures LittleEndian(b) < 0x1_0000_0000
  {
    var b1 := b[1..];
    var b2 := b1[1..];
    var b3 := b2[1..];
    assert b3[1..] == [];
    assert LittleEndian(b3) == b[3];
    assert LittleEndian(b2) == b[2] + 0x100 * LittleEndian(b3);
    assert LittleEndian(b1) == b[1] + 0x100 * LittleEndian(b2);
  }

  /** The aligned or unaligned 32-bit value at offset o. */
  function Get32(m: seq<u8>, o: int): u32
    requires 0 <= o <= |m| - 4
  {
    FourBytes(m[o..o + 4]);
    LittleEndian(m[o..o + 4])
  }

  lemma Get32Bytes(m: seq<u8>, o: int)
    requires 0 <= o <= |m| - 4
    ensures Get32(m, o) == (m[o] as int) + 0x100 * (m[o + 1] as int)
                           + 0x1_0000 * (m[o + 2] as int) + 0x100_0000 * (m[o + 3] as int)
  {
    FourBytes(m[o..o + 4]);
  }

  lemma BytesOf32(v: u32)
    ensures LittleEndian(Bytes32(v)) == v
  {
    FourBytes(Bytes32(v));
    assert v / 0x100 / 0x100 == v / 0x1_0000;
    assert v / 0x1_0000 / 0x100 == v / 0x100_0000;
  }

  /** data copied over m from offset o on, byte by byte. */
  function Overwrite(m: seq<u8>, o: int, data: seq<u8>): (r: seq<u8>)
    requires 0 <= o <= o + |data| <= |m|
    ensures |r| == |m|
  {
    if data == [] then m
    else
      var n := |data| - 1;
      Overwrite(m, o, data[..n])[o + n := data[n]]
  }

  lemma {:induction false} OverwriteAt(m: seq<u8>, o: int, data: seq<u8>)
    requires 0 <= o <= o + |data| <= |m|
    ensures forall i | 0 <= i < |m| ::
              Overwrite(m, o, data)[i] == if o <= i < o + |data| then data[i - o] else m[i]
  {
    if data == [] {
    } else {
      OverwriteAt(m, o, data[..|data| - 1]);
    }
  }

  lemma OverwriteSlice(m: seq<u8>, o: int, data: seq<u8>)
    requires 0 <= o <= o + |data| <= |m|
    ensures Overwrite(m, o, data)[o..o + |data|] == data
    ensures forall i | 0 <= i < o :: Overwrite(m, o, data)[i] == m[i]
  {
    OverwriteAt(m, o, data);
  }

  function Put32(m: seq<u8>, o: int, v: u32): (r: seq<u8>)
    requires 0 <= o <= |m| - 4
    ensures |r| == |m|
  {
    Overwrite(m, o, Bytes32(v))
  }

  lemma Put32Bytes(m: seq<u8>, o: int, v: u32)
    requires 0 <= o <= |m| - 4
    ensures Put32(m, o, v) == m[o := v % 0x100][o + 1 := v / 0x100 % 0x100]
                               [o + 2 := v / 0x1_0000 % 0x100][o + 3 := v / 0x100_0000]
  {
    OverwriteAt(m, o, Bytes32(v));
  }

  /** A cell reads back as it was written, and any cell clear of it is unchanged. */
  lemma GetPut32(m: seq<u8>, o: int, v: u32)
    requires 0 <= o <= |m| - 4
    ensures Get32(Put32(m, o, v), o) == v
    ensures forall p | 0 <= p <= |m| - 4 && (p + 4 <= o || o + 4 <= p) ::
              Get32(Put32(m, o, v), p) == Get32(m, p)
    ensures forall i | 0 <= i < |m| && (i < o || o + 4 <= i) :: Put32(m, o, v)[i] == m[i]
  {
    OverwriteAt(m, o, Bytes32(v));
    BytesOf32(v);
    var r := Put32(m, o, v);
    assert r[o..o + 4] == Bytes32(v);
    forall p | 0 <= p <= |m| - 4 && (p + 4 <= o || o + 4 <= p)
      ensures Get32(r, p) == Get32(m, p)
    {
      assert r[p..p + 4] == m[p..p + 4];
    }
  }

  /** Writing two adjacent pieces one after the other writes their concatenation. */
  lemma OverwriteAppend(m: seq<u8>, o: int, a: seq<u8>, b: seq<u8>)
    requires 0 <= o && o + |a| + |b| <= |m|
    ensures Overwrite(Overwrite(m, o, a), o + |a|, b) == Overwrite(m, o, a + b)
  {
    OverwriteAt(m, o, a);
    OverwriteAt(Overwrite(m, o, a), o + |a|, b);
    OverwriteAt(m, o, a + b);
  }

  lemma Round4Bounds(n: nat)
    ensures n <= Round4(n) < n + 4 && Round4(n) % 4 == 0
    ensures n < 0xFFFF_FFFD ==> AlignUp(n) == Round4(n)
  {
  }

  // ---- products and quotients -----------------------------------------------

  lemma TimesMonotone(a: int, b: int, p: nat)
    requires a <= b
    ensures a * p <= b * p
  {
    TimesLess(b, a, p);
    assert (b - a) * p >= 0;
  }

  lemma Regroup(a: int, p: int)
    ensures a * (2 * p) == (2 * a) * p
  {
  }

  lemma TimesLess(a: int, b: int, p: int)
    ensures (a - b) * p == a * p - b * p
  {
  }

  lemma DivisionUnique(a: nat, p: nat, h: int)
    requires p > 0 && h * p <= a < (h + 1) * p
    ensures a / p == h
  {
    var q := a / p;
    assert a == q * p + a % p;
    if q < h {
      TimesMonotone(q + 1, h, p);
      TimesLess(q + 1, 1, p);
    } else if h < q {
      TimesMonotone(h + 1, q, p);
    }
  }

  /** Dividing by b and then by p, for the three bases of numbers. */
  lemma DivideTwice(n: nat, b: nat, p: nat)
    requires (b == 2 || b == 10 || b == 16) && p > 0
    ensures n / b / p == n / (b * p)
  {
    var q := n / b / p;
    QuotientBounds(n / b, p);
    ScaledBounds(n, b, q * p, (q + 1) * p);
    Reordered(q, b, p);
    Reordered(q + 1, b, p);
    DivisionUnique(n, b * p, q);
  }

  lemma ScaledBounds(n: nat, b: nat, x: int, y: int)
    requires (b == 2 || b == 10 || b == 16) && x <= n / b < y
    ensures b * x <= n < b * y
  {
  }

  lemma Reordered(q: int, b: int, p: int)
    ensures b * (q * p) == q * (b * p)
  {
  }

  lemma QuotientBounds(n: nat, p: nat)
    requires p > 0
    ensures n / p * p <= n < (n / p + 1) * p
  {
    assert n == n / p * p + n % p;
  }
}
