/** Interpreting a straight-line text against compiling it and running the code. */
module Modes {
  import opened Words
  import opened Bus
  import opened Stacks
  import opened Threaded
  import opened Compiler
  import opened Nesting
  import opened Simulation

  /** Numbers and non-immediate words only. */
  predicate StraightLine(p: Prog) {
    match p
    case Nothing | Lit(_) | Call(_) => true
    case Seq(a, b) => StraightLine(a) && StraightLine(b)
    case _ => false
  }

  /** Turns of the fetch loop. */
  function Turns(p: Prog): nat {
    match p
    case Lit(_) | Call(_) => 1
    case Seq(a, b) => Turns(a) + Turns(b)
    case _ => 0
  }

  /** The words of the text applied one after the other, each as its token runs it. */
  function Flow(d: Dialect, p: Prog, c: Core): (r: Core)
    ensures c.Valid() ==> r.Valid()
  {
    match p
    case Lit(v) => Push(c, v)
    case Call(w) =>
      assert c.Valid() ==> ApplyPrim(CompiledAs(d, w), c).Valid() by {
        if c.Valid() {
          PrimKeepsValid(CompiledAs(d, w), c);
        }
      }
      ApplyPrim(CompiledAs(d, w), c)
    case Seq(a, b) => Flow(d, b, Flow(d, a, c))
    case _ => c
  }

  lemma {:induction false} FlowAsCompiled(d: Dialect, p: Prog, c: Core)
    ensures Flow(Repaired, AsCompiled(d, p), c) == Flow(d, p, c)
  {
    hide ApplyPrim;
    match p
    case Seq(a, b) =>
      FlowAsCompiled(d, a, c);
      FlowAsCompiled(d, b, Flow(d, a, c));
    case _ =>
  }

  /** The mode plays no part in what the words do to the stacks. */
  predicate SameStacks(a: Core, b: Core) {
    a.ds == b.ds && a.rs == b.rs && a.abort == b.abort
  }

  lemma {:induction false} FlowIgnoresMode(d: Dialect, p: Prog, a: Core, b: Core)
    requires SameStacks(a, b)
    ensures SameStacks(Flow(d, p, a), Flow(d, p, b))
  {
    match p
    case Call(w) => PrimIgnoresMode(CompiledAs(d, w), a, b);
    case Seq(x, y) =>
      FlowIgnoresMode(d, x, a, b);
      FlowIgnoresMode(d, y, Flow(d, x, a), Flow(d, x, b));
    case _ =>
  }

  lemma PrimIgnoresMode(w: Prim, a: Core, b: Core)
    requires SameStacks(a, b)
    ensures SameStacks(ApplyPrim(w, a), ApplyPrim(w, b))
  {
    hide Compute;
  }

  lemma PrimKeepsMode(w: Prim, c: Core)
    requires c.mode == Repl
    ensures ApplyPrim(w, c).mode == Repl
  {
    hide Compute;
  }

  lemma SeqIsStraight(a: Prog, b: Prog)
    requires StraightLine(Seq(a, b))
    ensures StraightLine(a) && StraightLine(b)
  {
  }

  lemma FlowSeq(d: Dialect, a: Prog, b: Prog, c: Core)
    ensures Flow(d, Seq(a, b), c) == Flow(d, b, Flow(d, a, c))
  {
    hide ApplyPrim;
  }

  /** In REPL mode the words run as they are read. */
  lemma {:induction false} InterpretFlows(d: Dialect, p: Prog, m: Machine)
    requires m.Valid() && m.core.mode == Repl && StraightLine(p)
    ensures forall w | w in Text(p) :: Parsed(w)
    ensures Interpret(d, Text(p), m) == Success(m.(core := Flow(Repaired, p, m.core)))
    ensures Flow(Repaired, p, m.core).mode == Repl
  {
    match p
    case Nothing =>
    case Lit(v) => OneWord(d, WNumber(v), m, m.(core := Push(m.core, v)));
    case Call(w) =>
      hide ApplyPrim;
      PrimKeepsMode(w, m.core);
      OneWord(d, WPrim(w), m, m.(core := Flow(Repaired, p, m.core)));
    case Seq(a, b) =>
      hide Flow, StraightLine, Interpret;
      SeqIsStraight(a, b);
      InterpretFlows(d, a, m);
      InterpretFlows(d, b, m.(core := Flow(Repaired, a, m.core)));
      InterpretAppend(d, Text(a), Text(b), m);
      FlowSeq(Repaired, a, b, m.core);
  }

  lemma LitFlows(d: Dialect, mem: Memory, v: u32, k: int, c: Core)
    requires mem.Valid() && InSpi(k, 2) && Matches(mem.ext, k, [Value(XT_LIT), Value(v)])
    ensures Goes(d, mem, 1, c, Addr(k), Push(c, v), Addr(k + 2))
  {
    hide Step, Matches;
    LitTurn(d, mem, v, k, c);
    GoesStep(d, mem, c, Addr(k), Push(c, v), Addr(k + 2));
  }

  lemma CallFlows(d: Dialect, mem: Memory, w: Prim, k: int, c: Core)
    requires mem.Valid() && InSpi(k, 1) && Matches(mem.ext, k, [Value(XtOf(d, w))])
    ensures Goes(d, mem, 1, c, Addr(k), ApplyPrim(CompiledAs(d, w), c), Addr(k + 1))
  {
    hide Step, Matches, ApplyPrim, XtOf, CompiledAs;
    CallTurn(d, mem, w, k, c);
    GoesStep(d, mem, c, Addr(k), ApplyPrim(CompiledAs(d, w), c), Addr(k + 1));
  }

  lemma AtomShape(d: Dialect, p: Prog, k: int, c: Core)
    ensures p.Nothing? ==> Flow(d, p, c) == c
    ensures p.Lit? ==> Code(d, k, p) == [Value(XT_LIT), Value(p.value)] && Flow(d, p, c) == Push(c, p.value)
    ensures p.Call? ==>
              Code(d, k, p) == [Value(XtOf(d, p.prim))] && Flow(d, p, c) == ApplyPrim(CompiledAs(d, p.prim), c)
  {
    hide XtOf, ApplyPrim, CompiledAs;
  }

  /** The fetch loop runs them from the compiled code. */
  lemma {:induction false} CodeFlows(d: Dialect, mem: Memory, p: Prog, k: int, c: Core)
    requires mem.Valid() && StraightLine(p) && InSpi(k, Slots(p)) && Matches(mem.ext, k, Code(d, k, p))
    ensures Goes(d, mem, Turns(p), c, Addr(k), Flow(d, p, c), Addr(k + Slots(p)))
    decreases p, 1
  {
    hide Matches, Code, Flow, Step, ApplyPrim, XtOf, CompiledAs;
    match p
    case Seq(a, b) => CodeFlowsSeq(d, mem, a, b, k, c);
    case _ =>
      AtomShape(d, p, k, c);
      match p {
        case Lit(v) => LitFlows(d, mem, v, k, c);
        case Call(w) => CallFlows(d, mem, w, k, c);
        case _ =>
      }
  }

  lemma {:induction false} CodeFlowsSeq(d: Dialect, mem: Memory, a: Prog, b: Prog, k: int, c: Core)
    requires mem.Valid() && StraightLine(Seq(a, b)) && InSpi(k, Slots(a) + Slots(b))
    requires Matches(mem.ext, k, Code(d, k, Seq(a, b)))
    ensures Goes(d, mem, Turns(a) + Turns(b), c, Addr(k), Flow(d, Seq(a, b), c), Addr(k + Slots(a) + Slots(b)))
    decreases Seq(a, b), 0
  {
    hide Goes, Matches, Code, Flow, StraightLine;
    SeqIsStraight(a, b);
    SeqParts(d, mem.ext, a, b, k);
    var mid := k + Slots(a);
    var c1 := Flow(d, a, c);
    CodeFlows(d, mem, a, k, c);
    CodeFlows(d, mem, b, mid, c1);
    GoesJoin(d, mem, Turns(a), c, Addr(k), c1, Addr(mid), Turns(b), Flow(d, b, c1), Addr(mid + Slots(b)));
    FlowSeq(d, a, b, c);
  }

  /** Compiled and run, a straight-line text leaves the stacks and the abort flag that
      interpreting it leaves, provided each word is read as the one its token runs. */
  lemma InterpretIsCompiledRun(d: Dialect, p: Prog, m: Machine, mem: Memory, k: int, c: Core)
    requires m.Valid() && m.core.mode == Repl && StraightLine(p)
    requires mem.Valid() && InSpi(k, Slots(p)) && Matches(mem.ext, k, Code(d, k, p)) && SameStacks(c, m.core)
    ensures forall w | w in Text(AsCompiled(d, p)) :: Parsed(w)
    ensures var interpreted := Interpret(d, Text(AsCompiled(d, p)), m);
            var ran := Steps(d, mem, Turns(p), c, Addr(k));
            && interpreted.Success? && interpreted.value == m.(core := interpreted.value.core)
            && ran.At? && ran.ip == Addr(k + Slots(p))
            && SameStacks(interpreted.value.core, ran.core)
  {
    hide Interpret, Flow, Matches, Code, Steps, AsCompiled, Text, StraightLine;
    StillStraight(d, p);
    InterpretFlows(d, AsCompiled(d, p), m);
    FlowAsCompiled(d, p, m.core);
    CodeFlows(d, mem, p, k, c);
    FlowIgnoresMode(d, p, c, m.core);
  }

  lemma {:induction false} StillStraight(d: Dialect, p: Prog)
    requires StraightLine(p)
    ensures StraightLine(AsCompiled(d, p))
  {
    match p
    case Seq(a, b) =>
      StillStraight(d, a);
      StillStraight(d, b);
    case _ =>
  }

  // ---- where RSHIFT as written goes unnoticed --------------------------------

  /** Shifting a by n to the right and to the left comes to the same. */
  predicate ShiftsAlike(a: u32, n: u32) {
    n >= 32 || a / Pow2(n) == a * Pow2(n) % 0x1_0000_0000
  }

  lemma ShiftsCoincide(a: u32, n: u32)
    ensures ShiftRight(a, n) == ShiftLeft(a, n) <==> ShiftsAlike(a, n)
  {
    if n < 32 {
      HalveMeaning(a, n);
      DivisionUnique(a, Pow2(n), HalveTimes(a, n));
      DoubleMeaning(a, n);
    }
  }

  /** Every RSHIFT met on the way finds operands for which the direction does not
      matter, or too few of them. */
  predicate RshiftsAlike(p: Prog, c: Core) {
    match p
    case Call(w) =>
      var n := |c.ds|;
      w == Rshift && !c.abort && n >= 2 ==> ShiftsAlike(c.ds[n - 2], c.ds[n - 1])
    case Seq(a, b) => RshiftsAlike(a, c) && RshiftsAlike(b, Flow(Repaired, a, c))
    case _ => true
  }

  lemma {:induction false} NoRshiftsAlike(p: Prog, c: Core)
    requires !Mentions(p, Rshift)
    ensures RshiftsAlike(p, c)
  {
    hide Flow;
    match p
    case Seq(a, b) =>
      NoRshiftsAlike(a, c);
      NoRshiftsAlike(b, Flow(Repaired, a, c));
    case _ =>
  }

  lemma ShiftWords(c: Core)
    requires !c.abort && |c.ds| >= 2
    ensures var n := |c.ds|;
            var rest := c.(ds := c.ds[..n - 2]);
            && ApplyPrim(Rshift, c) == Push(rest, ShiftRight(c.ds[n - 2], c.ds[n - 1]))
            && ApplyPrim(Lshift, c) == Push(rest, ShiftLeft(c.ds[n - 2], c.ds[n - 1]))
  {
    TwoPops(c);
  }

  lemma ShiftWordsAlike(c: Core)
    requires RshiftsAlike(Call(Rshift), c)
    ensures ApplyPrim(Lshift, c) == ApplyPrim(Rshift, c)
  {
    if !c.abort && |c.ds| >= 2 {
      hide ApplyPrim;
      ShiftWords(c);
      ShiftsCoincide(c.ds[|c.ds| - 2], c.ds[|c.ds| - 1]);
    } else if !c.abort {
      TwoPops(c);
    }
  }

  lemma {:induction false} FlowsAlike(p: Prog, c: Core)
    requires RshiftsAlike(p, c)
    ensures Flow(AsWritten, p, c) == Flow(Repaired, p, c)
  {
    hide ApplyPrim, ShiftsAlike;
    match p
    case Call(w) =>
      if w == Rshift {
        ShiftWordsAlike(c);
      }
    case Seq(a, b) =>
      FlowsAlike(a, c);
      FlowsAlike(b, Flow(Repaired, a, c));
    case _ =>
  }

  // ---- the two modes --------------------------------------------------------

  /** With the token of RSHIFT repaired the two modes agree on every text; as written
      they agree if every RSHIFT met on the way finds operands for which the direction
      does not matter. */
  lemma ModesAgree(d: Dialect, p: Prog, m: Machine, mem: Memory, k: int, c: Core)
    requires m.Valid() && m.core.mode == Repl && StraightLine(p) && (d == Repaired || RshiftsAlike(p, m.core))
    requires mem.Valid() && InSpi(k, Slots(p)) && Matches(mem.ext, k, Code(d, k, p)) && SameStacks(c, m.core)
    ensures forall w | w in Text(p) :: Parsed(w)
    ensures var interpreted := Interpret(d, Text(p), m);
            var ran := Steps(d, mem, Turns(p), c, Addr(k));
            interpreted.Success? && ran.At? && SameStacks(interpreted.value.core, ran.core)
  {
    hide Interpret, Matches, Code, Steps, Text, StraightLine, RshiftsAlike, Flow;
    InterpretFlows(d, p, m);
    CodeFlows(d, mem, p, k, c);
    FlowIgnoresMode(d, p, c, m.core);
    if d == AsWritten {
      FlowsAlike(p, m.core);
    }
  }

  /** In particular on every text without RSHIFT. */
  lemma ModesAgreeWithoutRshift(d: Dialect, p: Prog, m: Machine, mem: Memory, k: int, c: Core)
    requires m.Valid() && m.core.mode == Repl && StraightLine(p) && !Mentions(p, Rshift)
    requires mem.Valid() && InSpi(k, Slots(p)) && Matches(mem.ext, k, Code(d, k, p)) && SameStacks(c, m.core)
    ensures forall w | w in Text(p) :: Parsed(w)
    ensures var interpreted := Interpret(d, Text(p), m);
            var ran := Steps(d, mem, Turns(p), c, Addr(k));
            interpreted.Success? && ran.At? && SameStacks(interpreted.value.core, ran.core)
  {
    hide Interpret, Matches, Code, Steps, Text, StraightLine, RshiftsAlike, Mentions;
    NoRshiftsAlike(p, m.core);
    ModesAgree(d, p, m, mem, k, c);
  }

  /** A lone RSHIFT as written: the two modes agree if and only if shifting its operands
      to the right and to the left comes to the same. */
  lemma RshiftAgreesExactly(m: Machine, mem: Memory, k: int, c: Core, a: u32, n: u32)
    requires m.Valid() && m.core.mode == Repl && !m.core.abort
    requires |m.core.ds| >= 2 && a == m.core.ds[|m.core.ds| - 2] && n == m.core.ds[|m.core.ds| - 1]
    requires mem.Valid() && InSpi(k, 1) && Matches(mem.ext, k, Code(AsWritten, k, Call(Rshift)))
    requires SameStacks(c, m.core)
    ensures var interpreted := Interpret(AsWritten, [WPrim(Rshift)], m);
            var ran := Steps(AsWritten, mem, 1, c, Addr(k));
            && interpreted.Success? && ran.At?
            && (SameStacks(interpreted.value.core, ran.core) <==> ShiftsAlike(a, n))
  {
    hide Matches, Code, Interpret, Steps, ApplyPrim, ShiftLeft, ShiftRight, ShiftsAlike;
    InterpretFlows(AsWritten, Call(Rshift), m);
    CodeFlows(AsWritten, mem, Call(Rshift), k, c);
    ShiftWords(m.core);
    ShiftWords(c);
    ShiftsCoincide(a, n);
    var rest := m.core.ds[..|m.core.ds| - 2];
    assert (rest + [ShiftRight(a, n)])[|rest|] == ShiftRight(a, n);
    assert (rest + [ShiftLeft(a, n)])[|rest|] == ShiftLeft(a, n);
  }

  /** With 8 and 1 they do not: interpreting leaves 4, the compiled code 16. */
  lemma RshiftDiffers(m: Machine, mem: Memory, k: int, c: Core, rest: seq<u32>)
    requires m.Valid() && m.core.mode == Repl && !m.core.abort && m.core.ds == rest + [8, 1]
    requires mem.Valid() && InSpi(k, 1) && Matches(mem.ext, k, Code(AsWritten, k, Call(Rshift)))
    requires SameStacks(c, m.core)
    ensures var interpreted := Interpret(AsWritten, [WPrim(Rshift)], m);
            var ran := Steps(AsWritten, mem, 1, c, Addr(k));
            && interpreted.Success? && interpreted.value.core.ds == rest + [4]
            && ran.At? && ran.core.ds == rest + [16]
  {
    hide Matches, Code, Interpret, Steps, ApplyPrim, ShiftLeft, ShiftRight, ShiftsAlike;
    InterpretFlows(AsWritten, Call(Rshift), m);
    CodeFlows(AsWritten, mem, Call(Rshift), k, c);
    ShiftWords(m.core);
    ShiftWords(c);
    EightAndOne();
    assert m.core.ds[..|rest|] == rest;
  }

  lemma EightAndOne()
    ensures !ShiftsAlike(8, 1) && ShiftRight(8, 1) == 4 && ShiftLeft(8, 1) == 16
  {
    assert DoubleTimes(8, 1) == DoubleTimes(16, 0);
    assert HalveTimes(8, 1) == HalveTimes(8, 0) / 2;
    ShiftsCoincide(8, 1);
  }

  lemma {:induction false} StraightFits(p: Prog)
    requires StraightLine(p)
    ensures TextsFit(p) && LoopDepth(p) == 0 && IfDepth(p) == 0
  {
    match p
    case Seq(a, b) =>
      StraightFits(a);
      StraightFits(b);
    case _ =>
  }

  /** One machine, one text, two ways: interpreted as it stands, or compiled at the
      frontier and then run from there on the stacks of before. */
  lemma InterpretOrCompile(d: Dialect, p: Prog, m: Machine, k: int) returns (m': Machine)
    requires m.Valid() && m.core.mode == Repl && !m.core.abort && m.here == Addr(k) && InSpi(k, Slots(p))
    requires StraightLine(p) && (d == Repaired || RshiftsAlike(p, m.core))
    ensures forall w | w in Text(p) :: Parsed(w)
    ensures Interpret(d, Text(p), m.(core := m.core.(mode := Compile))) == Success(m') && m'.Valid()
    ensures var interpreted := Interpret(d, Text(p), m);
            var ran := Steps(d, m'.mem, Turns(p), m.core.(mode := Runtime), Addr(k));
            && interpreted.Success? && ran.At? && ran.ip == m'.here
            && SameStacks(interpreted.value.core, ran.core)
  {
    hide Interpret, Matches, Code, Steps, Text, StraightLine, RshiftsAlike, OnlyIn, Slots, Turns, Flow;
    StraightFits(p);
    var writer := m.(core := m.core.(mode := Compile));
    m' := CompileText(d, p, writer, k);
    var c := m.core.(mode := Runtime);
    ModesAgree(d, p, m, m'.mem, k, c);
    CodeFlows(d, m'.mem, p, k, c);
  }
}
