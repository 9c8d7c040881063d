/** forth_vm.c and the arithmetic words of forth_dict.c on values: two bounded
    stacks, a mode, and an abort flag that stays set. */
module Stacks {
  import opened Words

  const STACK_CELLS: int := 64

  datatype Mode = Repl | Compile | Runtime

  datatype Core = Core(ds: seq<u32>, rs: seq<u32>, mode: Mode, abort: bool) {
    ghost predicate Valid() {
      |ds| <= STACK_CELLS && |rs| <= STACK_CELLS
    }
  }

  /** forth_abort_with_context. */
  function Abort(c: Core): Core {
    Core([], [], Repl, true)
  }

  function Push(c: Core, x: u32): (r: Core)
    ensures c.Valid() ==> r.Valid()
  {
    if c.abort then c
    else if |c.ds| >= STACK_CELLS then Abort(c)
    else c.(ds := c.ds + [x])
  }

  function Pop(c: Core): (r: (Core, u32))
    ensures c.Valid() ==> r.0.Valid()
  {
    if c.abort then (c, 0)
    else if |c.ds| == 0 then (Abort(c), 0)
    else (c.(ds := c.ds[..|c.ds| - 1]), c.ds[|c.ds| - 1])
  }

  function RPush(c: Core, x: u32): (r: Core)
    ensures c.Valid() ==> r.Valid()
  {
    if c.abort then c
    else if |c.rs| >= STACK_CELLS then Abort(c)
    else c.(rs := c.rs + [x])
  }

  function RPop(c: Core): (r: (Core, u32))
    ensures c.Valid() ==> r.0.Valid()
  {
    if c.abort then (c, 0)
    else if |c.rs| == 0 then (Abort(c), 0)
    else (c.(rs := c.rs[..|c.rs| - 1]), c.rs[|c.rs| - 1])
  }

  /** The non-immediate stack and arithmetic words. */
  datatype Prim =
    | Mul | Sub | Add | And | Or | Xor | Invert | Lshift | Rshift | Arshift
    | Drop | Over | Swap | Dup | ZeroEqual | Equal | NotEqual | Less | Greater
    | ToR | FromR

  // ---- 32-bit arithmetic ----------------------------------------------------

  /** One bit of &, | or ^. */
  predicate BitOf(p: Prim, a: bool, b: bool)
    requires p == And || p == Or || p == Xor
  {
    match p
    case And => a && b
    case Or => a || b
    case Xor => a != b
  }

  /** The C operators &, | and ^ on n bits. */
  function Bitwise(p: Prim, a: nat, b: nat, n: nat): (r: nat)
    requires p == And || p == Or || p == Xor
    ensures r < Pow2(n)
  {
    if n == 0 then 0
    else 2 * Bitwise(p, a / 2, b / 2, n - 1) + if BitOf(p, a % 2 == 1, b % 2 == 1) then 1 else 0
  }

  function Bitwise32(p: Prim, a: u32, b: u32): u32
    requires p == And || p == Or || p == Xor
  {
    TwoTo32();
    Bitwise(p, a, b, 32)
  }

  /** n single shifts to the left, bits leaving at the top. */
  function DoubleTimes(a: u32, n: nat): u32
    decreases n
  {
    if n == 0 then a else DoubleTimes(Wrap(2 * a), n - 1)
  }

  function ShiftLeft(a: u32, n: u32): u32 {
    if n >= 32 then 0 else DoubleTimes(a, n)
  }

  function ShiftRight(a: u32, n: u32): u32 {
    if n >= 32 then 0 else HalveTimes(a, n)
  }

  /** ARSHIFT takes a value that fits 8 or 16 bits for a signed one of that width. */
  function SignExtended(v: u32): u32 {
    if v < 0x100 then if v >= 0x80 then v + 0xFFFF_FF00 else v
    else if v < 0x1_0000 then if v >= 0x8000 then v + 0xFFFF_0000 else v
    else v
  }

  function ShiftArithmetic(v: u32, n: u32): u32 {
    if n >= 32 then if v >= 0x8000_0000 then 0xFFFF_FFFF else 0
    else Wrap(HalveTimes(Signed(SignExtended(v)), n))
  }

  function Flag(b: bool): u32 {
    if b then 0xFFFF_FFFF else 0
  }

  // ---- the words as the source runs them ------------------------------------

  predicate IsBinary(p: Prim) {
    match p
    case Invert | Drop | Over | Swap | Dup | ZeroEqual | ToR | FromR => false
    case _ => true
  }

  /** The value pushed by a word that pops b and then a; signed where the source
      declares int32_t. */
  function Compute(p: Prim, a: u32, b: u32): u32
    requires IsBinary(p)
  {
    match p
    case Mul => Wrap(Signed(a) * Signed(b))
    case Sub => Wrap(Signed(a) - Signed(b))
    case Add => Wrap(Signed(a) + Signed(b))
    case And => Bitwise32(And, a, b)
    case Or => Bitwise32(Or, a, b)
    case Xor => Bitwise32(Xor, a, b)
    case Lshift => ShiftLeft(a, b)
    case Rshift => ShiftRight(a, b)
    case Arshift => ShiftArithmetic(a, b)
    case Equal => Flag(Signed(a) == Signed(b))
    case NotEqual => Flag(Signed(a) != Signed(b))
    case Less => Flag(Signed(a) < Signed(b))
    case Greater => Flag(Signed(a) > Signed(b))
  }

  function ApplyPrim(p: Prim, c: Core): Core {
    if IsBinary(p) then
      var (c1, b) := Pop(c);
      var (c2, a) := Pop(c1);
      Push(c2, Compute(p, a, b))
    else
      match p
      case Invert =>
        var (c1, a) := Pop(c);
        Push(c1, 0xFFFF_FFFF - a)
      case ZeroEqual =>
        var (c1, a) := Pop(c);
        Push(c1, Flag(Signed(a) == 0))
      case Drop => Pop(c).0
      case Over =>
        if c.abort then c
        else if |c.ds| < 2 then Abort(c)
        else Push(c, c.ds[|c.ds| - 2])
      case Swap =>
        if c.abort then c
        else if |c.ds| < 2 then Abort(c)
        else
          var n := |c.ds|;
          c.(ds := c.ds[n - 1 := c.ds[n - 2]][n - 2 := c.ds[n - 1]])
      case Dup =>
        if c.abort then c
        else if |c.ds| == 0 then Abort(c)
        else Push(c, c.ds[|c.ds| - 1])
      case ToR =>
        var (c1, a) := Pop(c);
        RPush(c1, a)
      case FromR =>
        var (c1, a) := RPop(c);
        Push(c1, a)
  }

  lemma UnaryIs(p: Prim, c: Core)
    requires p == Invert || p == ZeroEqual
    ensures var (c1, a) := Pop(c);
            ApplyPrim(p, c) == Push(c1, if p == Invert then 0xFFFF_FFFF - a else Flag(Signed(a) == 0))
  {
    hide Pop, Push, Signed;
  }

  lemma BinaryIs(p: Prim, c: Core)
    requires IsBinary(p)
    ensures var (c1, b) := Pop(c);
            var (c2, a) := Pop(c1);
            ApplyPrim(p, c) == Push(c2, Compute(p, a, b))
  {
    hide Pop, Push, Compute, IsBinary;
  }

  // ---- what the words mean --------------------------------------------------

  /** How many cells a word takes from the data stack. */
  function Inputs(p: Prim): nat {
    match p
    case FromR => 0
    case Invert | Drop | Dup | ZeroEqual | ToR => 1
    case _ => 2
  }

  /** The result of a two-operand word, on plain unsigned cells where the sign does
      not matter. */
  function Result2(p: Prim, a: u32, b: u32): u32
    requires IsBinary(p)
  {
    match p
    case Mul => Wrap((a as int) * (b as int))
    case Sub => Wrap(a - b)
    case Add => Wrap(a + b)
    case And => Bitwise32(And, a, b)
    case Or => Bitwise32(Or, a, b)
    case Xor => Bitwise32(Xor, a, b)
    case Lshift => ShiftLeft(a, b)
    case Rshift => ShiftRight(a, b)
    case Arshift => ShiftArithmetic(a, b)
    case Equal => Flag(a == b)
    case NotEqual => Flag(a != b)
    case Less => Flag(Signed(a) < Signed(b))
    case Greater => Flag(Signed(b) < Signed(a))
  }

  /** What a word leaves in place of its inputs, listed bottom to top. */
  function Outputs(p: Prim, x: seq<u32>): seq<u32>
    requires |x| == Inputs(p)
  {
    if IsBinary(p) then [Result2(p, x[0], x[1])]
    else
      match p
      case Invert => [0xFFFF_FFFF - x[0]]
      case Over => [x[0], x[1], x[0]]
      case Swap => [x[1], x[0]]
      case Dup => [x[0], x[0]]
      case ZeroEqual => [Flag(x[0] == 0)]
      case Drop | ToR | FromR => []
  }

  /** Whether the word finds its inputs and room for its outputs. */
  predicate Enabled(p: Prim, c: Core) {
    && |c.ds| >= Inputs(p)
    && (p == Dup || p == Over || p == FromR ==> |c.ds| < STACK_CELLS)
    && (p == ToR ==> |c.rs| < STACK_CELLS)
    && (p == FromR ==> |c.rs| > 0)
  }

  lemma SignedProduct(a: u32, b: u32)
    ensures Wrap(Signed(a) * Signed(b)) == Wrap(a * b)
  {
    var k := 0x1_0000_0000;
    var i := if a < 0x8000_0000 then 0 else 1;
    var j := if b < 0x8000_0000 then 0 else 1;
    assert (a - i * k) * (b - j * k) == a * b + k * (i * j * k - i * b - j * a);
    WrapShift(a * b, i * j * k - i * b - j * a);
  }

  lemma WrapShift(x: int, q: int)
    ensures Wrap(x + 0x1_0000_0000 * q) == Wrap(x)
  {
  }

  /** The top k cells, bottom to top. */
  function Top(s: seq<u32>, k: nat): (r: seq<u32>)
    requires k <= 2 && k <= |s|
    ensures |r| == k
  {
    if k == 0 then [] else if k == 1 then [s[|s| - 1]] else [s[|s| - 2], s[|s| - 1]]
  }

  /** What an enabled word leaves. */
  function Effect(p: Prim, c: Core): Core
    requires Enabled(p, c)
  {
    var n := |c.ds| - Inputs(p);
    match p
    case ToR => c.(ds := c.ds[..n], rs := c.rs + Top(c.ds, 1))
    case FromR => c.(ds := c.ds + Top(c.rs, 1), rs := c.rs[..|c.rs| - 1])
    case _ => c.(ds := c.ds[..n] + Outputs(p, Top(c.ds, Inputs(p))))
  }

  /** Each word replaces its inputs by its outputs and touches nothing else, or
      aborts exactly when it is not enabled; signed and unsigned arithmetic agree. */
  lemma PrimMeaning(p: Prim, c: Core)
    requires c.Valid() && !c.abort
    ensures ApplyPrim(p, c) == if Enabled(p, c) then Effect(p, c) else Abort(c)
    ensures Enabled(p, c) ==> Effect(p, c).Valid()
  {
    if IsBinary(p) {
      BinaryMeaning(p, c);
    } else if p == Invert || p == ZeroEqual || p == Drop {
      UnaryMeaning(p, c);
    } else if p == Over || p == Swap || p == Dup {
      ShuffleMeaning(p, c);
    } else {
      TransferMeaning(p, c);
    }
  }

  lemma UnaryMeaning(p: Prim, c: Core)
    requires c.Valid() && !c.abort && (p == Invert || p == ZeroEqual || p == Drop)
    ensures ApplyPrim(p, c) == if Enabled(p, c) then Effect(p, c) else Abort(c)
    ensures Enabled(p, c) ==> Effect(p, c).Valid()
  {
    UnaryRuns(p, c);
    hide ApplyPrim, Outputs, Compute, Result2, Wrap;
    if |c.ds| > 0 {
      assert Top(c.ds, 1) == [c.ds[|c.ds| - 1]];
    }
  }

  lemma UnaryRuns(p: Prim, c: Core)
    requires c.Valid() && !c.abort && (p == Invert || p == ZeroEqual || p == Drop)
    ensures var n := |c.ds| - 1;
            ApplyPrim(p, c) == if |c.ds| == 0 then Abort(c) else c.(ds := c.ds[..n] + Outputs(p, [c.ds[n]]))
    ensures |c.ds| > 0 ==> |Outputs(p, [c.ds[|c.ds| - 1]])| <= 1
  {
    hide Compute, Result2, Wrap;
    if |c.ds| > 0 {
      var front := c.ds[..|c.ds| - 1];
      assert front + [] == front;
    }
  }

  lemma ShuffleMeaning(p: Prim, c: Core)
    requires c.Valid() && !c.abort && (p == Over || p == Swap || p == Dup)
    ensures ApplyPrim(p, c) == if Enabled(p, c) then Effect(p, c) else Abort(c)
    ensures Enabled(p, c) ==> Effect(p, c).Valid()
  {
    hide Compute, Result2, Wrap;
    var n := |c.ds|;
    match p
    case Over =>
      assert n >= 2 ==> c.ds + [c.ds[n - 2]] == c.ds[..n - 2] + [c.ds[n - 2], c.ds[n - 1], c.ds[n - 2]];
    case Swap =>
      assert n >= 2 ==> c.ds[n - 1 := c.ds[n - 2]][n - 2 := c.ds[n - 1]] == c.ds[..n - 2] + [c.ds[n - 1], c.ds[n - 2]];
    case Dup =>
      assert n >= 1 ==> c.ds + [c.ds[n - 1]] == c.ds[..n - 1] + [c.ds[n - 1], c.ds[n - 1]];
  }

  lemma TransferMeaning(p: Prim, c: Core)
    requires c.Valid() && !c.abort && (p == ToR || p == FromR)
    ensures ApplyPrim(p, c) == if Enabled(p, c) then Effect(p, c) else Abort(c)
    ensures Enabled(p, c) ==> Effect(p, c).Valid()
  {
    hide Compute, Result2, Outputs, Wrap;
    match p
    case ToR =>
    case FromR =>
  }

  lemma BinaryMeaning(p: Prim, c: Core)
    requires c.Valid() && !c.abort && IsBinary(p)
    ensures ApplyPrim(p, c) == if Enabled(p, c) then Effect(p, c) else Abort(c)
    ensures Enabled(p, c) ==> Effect(p, c).Valid()
  {
    BinaryEffect(p, c);
    BinaryRuns(p, c);
    hide ApplyPrim, Enabled, Effect, IsBinary, Inputs, Compute, Result2, Wrap;
    if |c.ds| >= 2 {
      ComputeMeaning(p, c.ds[|c.ds| - 2], c.ds[|c.ds| - 1]);
    }
  }

  lemma BinaryEffect(p: Prim, c: Core)
    requires IsBinary(p)
    ensures Enabled(p, c) <==> |c.ds| >= 2
    ensures Enabled(p, c) ==>
              var n := |c.ds| - 2;
              Effect(p, c) == c.(ds := c.ds[..n] + [Result2(p, c.ds[n], c.ds[n + 1])])
  {
    hide Result2;
  }

  lemma BinaryRuns(p: Prim, c: Core)
    requires c.Valid() && !c.abort && IsBinary(p)
    ensures var n := |c.ds| - 2;
            ApplyPrim(p, c)
            == if |c.ds| < 2 then Abort(c) else c.(ds := c.ds[..n] + [Compute(p, c.ds[n], c.ds[n + 1])])
  {
    hide IsBinary, Compute, Pop;
    TwoPops(c);
  }

  lemma TwoPops(c: Core)
    requires !c.abort
    ensures var (c1, b) := Pop(c);
            var (c2, a) := Pop(c1);
            if |c.ds| < 2 then c2 == Abort(c)
            else c2 == c.(ds := c.ds[..|c.ds| - 2]) && a == c.ds[|c.ds| - 2] && b == c.ds[|c.ds| - 1]
  {
    if |c.ds| >= 2 {
      assert c.ds[..|c.ds| - 1][..|c.ds| - 2] == c.ds[..|c.ds| - 2];
    }
  }

  lemma ComputeMeaning(p: Prim, a: u32, b: u32)
    requires IsBinary(p)
    ensures Compute(p, a, b) == Result2(p, a, b)
  {
    match p
    case Mul => SignedProduct(a, b);
    case Add => SignedSum(a, b);
    case Sub => SignedSum(a, b);
    case _ =>
  }

  lemma SignedSum(a: u32, b: u32)
    ensures Wrap(Signed(a) + Signed(b)) == Wrap(a + b)
    ensures Wrap(Signed(a) - Signed(b)) == Wrap(a - b)
  {
  }

  // ---- what the shifts mean -------------------------------------------------

  /** n halvings divide by 2 to the n, rounding down. */
  lemma {:induction false} HalveMeaning(x: int, n: nat)
    ensures HalveTimes(x, n) * Pow2(n) <= x < (HalveTimes(x, n) + 1) * Pow2(n)
    decreases n
  {
    if n == 0 {
    } else {
      HalveMeaning(x, n - 1);
      var h, p, g := HalveTimes(x, n - 1), Pow2(n - 1), HalveTimes(x, n);
      assert g == h / 2 && Pow2(n) == 2 * p;
      hide HalveTimes, Pow2;
      TimesMonotone(2 * g, h, p);
      TimesMonotone(h + 1, 2 * g + 2, p);
      Regroup(g, p);
      Regroup(g + 1, p);
    }
  }

  /** n doublings multiply by 2 to the n on 32 bits. */
  lemma {:induction false} DoubleMeaning(a: u32, n: nat)
    ensures DoubleTimes(a, n) == Wrap(a * Pow2(n))
    decreases n
  {
    if n == 0 {
      WrapIs(a, 0);
    } else {
      var b, p := Wrap(2 * a), Pow2(n - 1);
      DoubleMeaning(b, n - 1);
      assert DoubleTimes(a, n) == DoubleTimes(b, n - 1);
      assert Pow2(n) == 2 * p;
      hide Wrap, DoubleTimes, Pow2;
      Regroup(a, p);
      if 2 * a < 0x1_0000_0000 {
        WrapIs(2 * a, 0);
      } else {
        WrapIs(2 * a, 1);
        TimesLess(2 * a, 0x1_0000_0000, p);
        WrapShift(b * p, p);
      }
    }
  }

  /** The value ARSHIFT shifts: signed in the narrowest of 8, 16 or 32 bits it fits. */
  function Narrowed(v: u32): int {
    if v < 0x80 then v
    else if v < 0x100 then v - 0x100
    else if v < 0x8000 then v
    else if v < 0x1_0000 then v - 0x1_0000
    else Signed(v)
  }

  /** Shifts by less than 32 multiply or divide by a power of 2, ARSHIFT the narrowed
      value. */
  lemma ShiftsMeaning(a: u32, n: u32)
    requires n < 32
    ensures ShiftLeft(a, n) == Wrap(a * Pow2(n))
    ensures ShiftRight(a, n) * Pow2(n) <= a < (ShiftRight(a, n) + 1) * Pow2(n)
    ensures exists f :: f * Pow2(n) <= Narrowed(a) < (f + 1) * Pow2(n) && ShiftArithmetic(a, n) == Wrap(f)
  {
    DoubleMeaning(a, n);
    HalveMeaning(a, n);
    HalveMeaning(Narrowed(a), n);
    var f := HalveTimes(Narrowed(a), n);
    assert Signed(SignExtended(a)) == Narrowed(a);
    assert ShiftArithmetic(a, n) == Wrap(f);
  }

  /** At 32 ARSHIFT forgets the narrowing: the step from 31 to 32 changes the answer
      exactly for values that are negative in 8 or 16 bits only. */
  lemma ArshiftAtTheEnd(v: u32)
    ensures ShiftArithmetic(v, 31) == ShiftArithmetic(v, 32) <==> !(0x80 <= v < 0x100 || 0x8000 <= v < 0x1_0000)
  {
    var s := Narrowed(v);
    var f := HalveTimes(s, 31);
    assert Signed(SignExtended(v)) == s;
    HalveMeaning(s, 31);
    TwoTo31();
    assert f == if s < 0 then -1 else 0;
    assert Wrap(-1) == 0xFFFF_FFFF;
  }

  lemma TwoTo31()
    ensures Pow2(31) == 0x8000_0000
  {
    assert Pow2(8) == 0x100;
    assert Pow2(16) == 0x100 * Pow2(8);
    assert Pow2(24) == 0x100 * Pow2(16);
    assert Pow2(31) == 0x80 * Pow2(24);
  }

  lemma TwoTo32()
    ensures Pow2(32) == 0x1_0000_0000
  {
    TwoTo31();
  }

  // ---- the words on their operands ------------------------------------------

  /** Word p, on a core whose two top cells are a and b, leaves t in their place. */
  predicate Leaves(p: Prim, c: Core, a: u32, b: u32, t: u32)
    requires TwoOnTop(c, a, b)
  {
    ApplyPrim(p, c) == c.(ds := c.ds[..|c.ds| - 2] + [t])
  }

  predicate TwoOnTop(c: Core, a: u32, b: u32) {
    |c.ds| >= 2 && |c.ds| <= STACK_CELLS && !c.abort && c.ds[|c.ds| - 2] == a && c.ds[|c.ds| - 1] == b
  }

  lemma BinaryLeaves(p: Prim, c: Core, a: u32, b: u32)
    requires TwoOnTop(c, a, b) && IsBinary(p)
    ensures Leaves(p, c, a, b, Compute(p, a, b))
  {
    TwoPops(c);
    hide IsBinary, Compute, Pop;
  }

  /** Arithmetic on 32 bits; by 32 and more a shift leaves nothing but, with ARSHIFT, the
      sign. */
  lemma ArithmeticWords(c: Core, a: u32, b: u32)
    requires TwoOnTop(c, a, b)
    ensures Leaves(Add, c, a, b, Wrap(a + b)) && Leaves(Sub, c, a, b, Wrap(a - b)) && Leaves(Mul, c, a, b, Wrap(a * b))
    ensures Leaves(Lshift, c, a, b, if b < 32 then Wrap(a * Pow2(b)) else 0)
    ensures exists q: u32 :: Leaves(Rshift, c, a, b, q) &&
              if b < 32 then q * Pow2(b) <= a < (q + 1) * Pow2(b) else q == 0
    ensures exists f: int :: Leaves(Arshift, c, a, b, Wrap(f)) &&
              if b < 32 then f * Pow2(b) <= Narrowed(a) < (f + 1) * Pow2(b)
              else f == if a >= 0x8000_0000 then -1 else 0
  {
    hide Leaves, Wrap;
    BinaryLeaves(Add, c, a, b);
    BinaryLeaves(Sub, c, a, b);
    BinaryLeaves(Mul, c, a, b);
    BinaryLeaves(Lshift, c, a, b);
    BinaryLeaves(Rshift, c, a, b);
    BinaryLeaves(Arshift, c, a, b);
    SignedProduct(a, b);
    SignedSum(a, b);
    if b < 32 {
      ShiftsMeaning(a, b);
    } else {
      WrapIs(0, 0);
      WrapIs(-1, -1);
    }
  }

  /** What a comparison asks of its operands. */
  predicate Compares(p: Prim, a: u32, b: u32) {
    match p
    case Equal => a == b
    case NotEqual => a != b
    case Less => Signed(a) < Signed(b)
    case Greater => Signed(a) > Signed(b)
    case _ => false
  }

  predicate IsComparison(p: Prim) {
    p == Equal || p == NotEqual || p == Less || p == Greater
  }

  /** A comparison leaves 0 or all ones, and all ones exactly when it holds. */
  lemma ComparisonWords(p: Prim, c: Core, a: u32, b: u32)
    requires TwoOnTop(c, a, b) && IsComparison(p)
    ensures Leaves(p, c, a, b, if Compares(p, a, b) then 0xFFFF_FFFF else 0)
  {
    BinaryLeaves(p, c, a, b);
    hide Leaves;
  }

  /** So does 0=, and INVERT turns every bit over. */
  lemma UnaryWords(c: Core, a: u32)
    requires 1 <= |c.ds| <= STACK_CELLS && !c.abort && c.ds[|c.ds| - 1] == a
    ensures ApplyPrim(ZeroEqual, c) == c.(ds := c.ds[..|c.ds| - 1] + [if a == 0 then 0xFFFF_FFFF else 0])
    ensures exists t: u32 ::
              && ApplyPrim(Invert, c) == c.(ds := c.ds[..|c.ds| - 1] + [t])
              && forall i: nat | i < 32 :: HalveTimes(t, i) % 2 != HalveTimes(a, i) % 2
  {
    var t: u32 := 0xFFFF_FFFF - a;
    TwoTo32();
    forall i: nat | i < 32
      ensures HalveTimes(t, i) % 2 != HalveTimes(a, i) % 2
    {
      InvertedBit(a, 32, i);
    }
    assert ApplyPrim(Invert, c) == c.(ds := c.ds[..|c.ds| - 1] + [t]);
  }

  lemma {:induction false} InvertedBit(a: nat, n: nat, i: nat)
    requires a < Pow2(n) && i < n
    ensures HalveTimes(Pow2(n) - 1 - a, i) % 2 != HalveTimes(a, i) % 2
    decreases i
  {
    if i == 0 {
    } else {
      InvertedBit(a / 2, n - 1, i - 1);
      HalveFirst(a, i);
      HalveFirst(Pow2(n) - 1 - a, i);
      assert (Pow2(n) - 1 - a) / 2 == Pow2(n - 1) - 1 - a / 2;
    }
  }

  lemma {:induction false} HalveFirst(x: int, n: nat)
    requires n > 0
    ensures HalveTimes(x, n) == HalveTimes(x / 2, n - 1)
    decreases n
  {
    if n == 1 {
    } else {
      HalveFirst(x, n - 1);
    }
  }

  /** AND, OR and XOR bit by bit. */
  lemma BitWords(p: Prim, c: Core, a: u32, b: u32)
    requires TwoOnTop(c, a, b) && (p == And || p == Or || p == Xor)
    ensures exists t: u32 :: Leaves(p, c, a, b, t) && forall i: nat | i < 32 ::
              var x, y := HalveTimes(a, i) % 2 == 1, HalveTimes(b, i) % 2 == 1;
              HalveTimes(t, i) % 2 == 1 <==> match p case And => x && y case Or => x || y case _ => x != y
  {
    BinaryLeaves(p, c, a, b);
    forall i: nat | i < 32
      ensures HalveTimes(Bitwise32(p, a, b), i) % 2 == 1
              <==> BitOf(p, HalveTimes(a, i) % 2 == 1, HalveTimes(b, i) % 2 == 1)
    {
      BitwiseAt(p, a, b, 32, i);
    }
    assert Leaves(p, c, a, b, Bitwise32(p, a, b));
  }

  lemma {:induction false} BitwiseAt(p: Prim, a: nat, b: nat, n: nat, i: nat)
    requires (p == And || p == Or || p == Xor) && i < n
    ensures HalveTimes(Bitwise(p, a, b, n), i) % 2 == 1
            <==> BitOf(p, HalveTimes(a, i) % 2 == 1, HalveTimes(b, i) % 2 == 1)
    decreases n
  {
    if i == 0 {
    } else {
      BitwiseAt(p, a / 2, b / 2, n - 1, i - 1);
      HalveFirst(a, i);
      HalveFirst(b, i);
      HalveFirst(Bitwise(p, a, b, n), i);
      assert Bitwise(p, a, b, n) / 2 == Bitwise(p, a / 2, b / 2, n - 1);
    }
  }

  /** The words that only move cells. */
  lemma StackWords(c: Core, a: u32, b: u32)
    requires TwoOnTop(c, a, b)
    ensures var rest := c.ds[..|c.ds| - 2];
            && ApplyPrim(Drop, c) == c.(ds := rest + [a])
            && ApplyPrim(Swap, c) == c.(ds := rest + [b, a])
            && ApplyPrim(Dup, c) == (if |c.ds| < 64 then c.(ds := rest + [a, b, b]) else Abort(c))
            && ApplyPrim(Over, c) == (if |c.ds| < 64 then c.(ds := rest + [a, b, a]) else Abort(c))
            && ApplyPrim(ToR, c) == if |c.rs| < 64 then c.(ds := rest + [a], rs := c.rs + [b]) else Abort(c)
  {
    hide Compute;
    var rest := c.ds[..|c.ds| - 2];
    assert c.ds == rest + [a, b] && c.ds[..|c.ds| - 1] == rest + [a];
    assert c.ds + [b] == rest + [a, b, b] && c.ds + [a] == rest + [a, b, a];
  }

  /** R> takes back what >R put away. */
  lemma ToAndFro(c: Core)
    requires c.Valid() && !c.abort && c.ds != []
    ensures |c.rs| < 64 ==> ApplyPrim(FromR, ApplyPrim(ToR, c)) == c
  {
    if |c.rs| < STACK_CELLS {
      var n, x := |c.ds| - 1, c.ds[|c.ds| - 1];
      var c1 := c.(ds := c.ds[..n], rs := c.rs + [x]);
      assert c.ds == c.ds[..n] + [x];
      assert ApplyPrim(ToR, c) == c1;
      hide Compute;
      FromReturn(c1, c.rs, x);
    }
  }

  lemma FromReturn(c: Core, rest: seq<u32>, x: u32)
    requires !c.abort && |c.ds| < STACK_CELLS && c.rs == rest + [x]
    ensures ApplyPrim(FromR, c) == c.(ds := c.ds + [x], rs := rest)
  {
    assert c.rs[..|c.rs| - 1] == rest;
  }

  /** An abort empties both stacks and goes back to the REPL. */
  predicate Cleared(c: Core) {
    c.abort ==> c.ds == [] && c.rs == [] && c.mode == Repl
  }

  lemma AbortClears(p: Prim, c: Core)
    requires Cleared(c)
    ensures Cleared(ApplyPrim(p, c))
    ensures forall x: u32 :: Cleared(Push(c, x)) && Cleared(RPush(c, x))
    ensures Cleared(Pop(c).0) && Cleared(RPop(c).0)
  {
    hide Compute;
  }

  /** An abort is latched: no word clears it or touches the stacks afterwards. */
  lemma PrimAborted(p: Prim, c: Core)
    requires c.abort
    ensures ApplyPrim(p, c) == c
  {
  }

  lemma PrimKeepsValid(p: Prim, c: Core)
    requires c.Valid()
    ensures ApplyPrim(p, c).Valid()
    ensures !ApplyPrim(p, c).abort ==> ApplyPrim(p, c).mode == c.mode
  {
    if c.abort {
      PrimAborted(p, c);
    } else {
      PrimMeaning(p, c);
    }
  }
}
